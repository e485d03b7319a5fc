// Which texts are accepted as reverse zones, written out as numbers in front of in-addr.arpa.
module ZoneText {
  import opened Wrappers
  import opened Text
  import opened Util
  import opened Numerals
  import opened Grammar
  import opened ReverseZone

  // One to three numerals of at most 255, leading zeros or not.
  ghost predicate Octet(s: string) {
    exists n: nat :: n <= 255 && NumeralText(s, n)
  }

  ghost predicate ZoneOf(zone: string, parts: seq<string>) {
    && 1 <= |parts| <= 3 && (forall i | 0 <= i < |parts| :: Octet(parts[i]))
    && (SameIgnoringCase(zone, Join(parts, ".") + ".in-addr.arpa")
        || SameIgnoringCase(zone, Join(parts, ".") + ".in-addr.arpa" + "."))
  }

  ghost predicate ReverseZoneText(zone: string) {
    DnsNameText(zone) && exists parts :: ZoneOf(zone, parts)
  }

  lemma {:induction false} OctetExactly(s: string)
    ensures Octet(s) <==> s != [] && AllDigits(s) && Number(s) <= 255
  {
    if s != [] && AllDigits(s) && Number(s) <= 255 { NumeralExactly(s, Number(s)); }
    if n: nat :| n <= 255 && NumeralText(s, n) { NumeralExactly(s, n); }
  }

  lemma {:induction false} DigitsLowercase(parts: seq<string>)
    requires forall i | 0 <= i < |parts| :: AllDigits(parts[i])
    ensures Lowercase(Join(parts, "."))
    ensures forall i | 0 <= i < |Join(parts, ".")| :: IsDigit(Join(parts, ".")[i]) || Join(parts, ".")[i] == '.'
  {
    if parts != [] {
      forall i | 0 <= i < |parts[0]| ensures IsDigit(parts[0][i]) { assert parts[0][i] in parts[0]; }
      if |parts| > 1 { DigitsLowercase(parts[1..]); }
    }
  }

  lemma {:induction false} DottedSpelling(zone: string, lower: string)
    requires SameIgnoringCase(zone, lower + ".")
    ensures var bare := zone[..|lower|]; zone == bare + "." && SameIgnoringCase(bare, lower)
  {
    var bare := zone[..|lower|];
    assert (lower + ".")[|lower|] == '.';
    forall i | 0 <= i < |bare|
      ensures || bare[i] == lower[i]
              || ('a' <= bare[i] <= 'z' && bare[i] as int == lower[i] as int + 32)
              || ('a' <= lower[i] <= 'z' && lower[i] as int == bare[i] as int + 32)
    {
      assert bare[i] == zone[i] && lower[i] == (lower + ".")[i];
    }
  }

  lemma {:induction false} BareSpellingFolds(zone: string, lower: string)
    requires Lowercase(lower) && Undotted(lower) && lower != [] && SameIgnoringCase(zone, lower)
    ensures Fold(zone) == lower == ToLower(zone) && Undotted(zone)
  {
    LoweredExactly(zone, lower);
    LowercaseStays(lower);
    assert zone[|zone| - 1] != '.';
  }

  // The lower-case spelling is its own fold, and any spelling folds to it.
  lemma {:induction false} SpellingFolds(zone: string, lower: string)
    requires Lowercase(lower) && Undotted(lower) && lower != []
    requires SameIgnoringCase(zone, lower) || SameIgnoringCase(zone, lower + ".")
    ensures Fold(zone) == lower
  {
    if SameIgnoringCase(zone, lower) {
      BareSpellingFolds(zone, lower);
    } else {
      var bare := zone[..|lower|];
      DottedSpelling(zone, lower);
      BareSpellingFolds(bare, lower);
      FinalDotFolds(zone, bare);
    }
  }

  lemma {:induction false} FoldIsSpelling(zone: string, lower: string)
    requires ValidDnsName(zone) && Fold(zone) == lower && Lowercase(lower)
    ensures SameIgnoringCase(zone, lower) || SameIgnoringCase(zone, lower + ".")
  {
    var bare := WithoutFinalDot(zone);
    TrimDotsOnce(zone);
    LowercaseStays(lower);
    LoweredExactly(bare, lower);
    if zone != bare {
      assert zone == bare + ".";
      forall i | 0 <= i < |zone| ensures i < |bare| ==> zone[i] == bare[i] && (lower + ".")[i] == lower[i] {}
    }
  }

  lemma ArpaSpelling()
    ensures ARPA == ".in-addr.arpa" && Lowercase(ARPA) && |ARPA| == 13 && ARPA[12] == 'a'
  {
  }

  lemma {:induction false} ZoneFromParts(zone: string, parts: seq<string>)
    requires ZoneOf(zone, parts)
    ensures ValidReverseZone(zone)
  {
    var prefix := Join(parts, ".");
    forall i | 0 <= i < |parts| ensures parts[i] != [] && AllDigits(parts[i]) && Number(parts[i]) <= 255 {
      OctetExactly(parts[i]);
    }
    DigitsLowercase(parts);
    ArpaSpelling();
    assert (prefix + ARPA)[|prefix + ARPA| - 1] == ARPA[12];
    SpellingFolds(zone, prefix + ARPA);
    SuffixStrips(prefix, ARPA);
    PartsArePrefix(parts);
  }

  lemma {:induction false} PartsArePrefix(parts: seq<string>)
    requires 1 <= |parts| <= 3
    requires forall i | 0 <= i < |parts| :: parts[i] != [] && AllDigits(parts[i]) && Number(parts[i]) <= 255
    ensures NumericPrefix(Join(parts, "."))
  {
    forall i | 0 <= i < |parts| ensures '.' !in parts[i] {}
    SplitJoin(parts, '.');
    assert ['.'] == ".";
    forall part | part in parts ensures ParsesAsU8(part) {
      var i :| 0 <= i < |parts| && parts[i] == part;
      assert part[0] in part;
    }
  }

  lemma {:induction false} PartsFromZone(zone: string)
    requires AcceptedZone(zone)
    ensures exists parts :: ZoneOf(zone, parts)
  {
    var prefix := AcceptedPrefix(zone);
    var parts := Split(prefix, '.');
    JoinSplit(prefix, '.');
    assert ['.'] == ".";
    forall i | 0 <= i < |parts| ensures Octet(parts[i]) && AllDigits(parts[i]) {
      assert parts[i] in parts;
      OctetExactly(parts[i]);
    }
    DigitsLowercase(parts);
    ArpaSpelling();
    FoldIsSpelling(zone, prefix + ARPA);
    assert ZoneOf(zone, parts);
  }

  // A name is accepted as a reverse zone exactly if it is one to three numbers under
  // in-addr.arpa, in any case, with leading zeros or not, with a final dot or not.
  lemma {:induction false} ReverseZoneExactly(zone: string)
    ensures AcceptedZone(zone) <==> ReverseZoneText(zone)
  {
    DnsNameExactly(zone);
    if AcceptedZone(zone) { PartsFromZone(zone); }
    if parts :| ZoneOf(zone, parts) { ZoneFromParts(zone, parts); }
  }
}
