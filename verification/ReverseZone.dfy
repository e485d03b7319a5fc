// Reverse-zone arithmetic of src/commands/dns.rs: which zones the Rust side accepts,
// and the label and octet shuffling of the embedded script, held against section 3.5 of
// RFC 1035 and against plain address arithmetic.
module ReverseZone {
  import opened Wrappers
  import opened Text
  import opened Util
  import opened Numerals

  const ARPA: string := ".in-addr.arpa"

  // ---- Acceptance ----------------------------------------------------------

  function TrimDots(s: string): string {
    if s != [] && s[|s| - 1] == '.' then TrimDots(s[..|s| - 1]) else s
  }

  // The normal form of a DNS name: case folded, no trailing dot.
  function Fold(name: string): string {
    ToLower(TrimDots(name))
  }

  // Unsigned eight-bit parsing: an optional plus sign, digits, at most 255.
  predicate ParsesAsU8(text: string) {
    var digits := if text != [] && text[0] == '+' then text[1..] else text;
    digits != [] && AllDigits(digits) && Number(digits) <= 255
  }

  function StripSuffix(s: string, suffix: string): (r: Option<string>)
    ensures r.Some? ==> s == r.value + suffix
  {
    if |s| >= |suffix| && s[|s| - |suffix|..] == suffix then Some(s[..|s| - |suffix|]) else None
  }

  predicate NumericPrefix(prefix: string) {
    var parts := Split(prefix, '.');
    1 <= |parts| <= 3 && forall part | part in parts :: ParsesAsU8(part)
  }

  predicate ValidReverseZone(value: string) {
    var prefix := StripSuffix(Fold(value), ARPA);
    prefix.Some? && NumericPrefix(prefix.value)
  }

  predicate AcceptedZone(zone: string) {
    ValidDnsName(zone) && ValidReverseZone(zone)
  }

  predicate Undotted(zone: string) {
    zone == [] || zone[|zone| - 1] != '.'
  }

  // ---- The script ----------------------------------------------------------

  // Every occurrence of a pattern removed, left to right.
  function RemoveAll(s: string, pattern: string): string
    requires pattern != []
  {
    if |s| < |pattern| then s
    else if s[..|pattern|] == pattern then RemoveAll(s[|pattern|..], pattern)
    else [s[0]] + RemoveAll(s[1..], pattern)
  }

  function ZoneLabels(zone: string): seq<string> {
    Split(RemoveAll(ToLower(zone), ARPA), '.')
  }

  function Padded(octets: seq<string>): seq<string>
    decreases 4 - |octets|
  {
    if |octets| < 4 then Padded(octets + ["0"]) else octets
  }

  function NetworkIdOf(parts: seq<string>): string {
    Join(Padded(Reverse(parts)), ".") + "/" + Decimal(|parts| * 8)
  }

  function NetworkId(zone: string): string {
    NetworkIdOf(ZoneLabels(zone))
  }

  // The index range from..3 of four octets; from beyond 3 the range runs downwards and
  // only index 3 exists.
  function Remaining(octets: seq<string>, from: nat): seq<string>
    requires |octets| == 4
  {
    if from <= 3 then octets[from..] else [octets[3]]
  }

  function RelativeName(zone: string, address: string): string
    requires ValidAddress(address)
  {
    Join(Reverse(Remaining(Split(address, '.'), |ZoneLabels(zone)|)), ".")
  }

  // ---- What they should amount to ------------------------------------------

  function FullName(relative: string, zone: string): string {
    relative + "." + Fold(zone)
  }

  // The reverse-mapping name of an address: its octets in reverse order under in-addr.arpa.
  function ReverseName(address: string): string {
    Join(Reverse(Split(address, '.')), ".") + ARPA
  }

  // The zone's labels, reversed, are the leading octets of the address.
  predicate Under(zone: string, address: string) {
    var parts, octets := ZoneLabels(zone), Split(address, '.');
    |parts| <= |octets| && parts == Reverse(octets[..|parts|])
  }

  // ---- Shape of an accepted zone -------------------------------------------

  predicate Octets(parts: seq<string>) {
    forall part | part in parts :: part != [] && AllDigits(part) && Number(part) <= 255
  }

  lemma FinalDotMakesAnEmptyLabel(name: string)
    requires name != [] && name[|name| - 1] == '.'
    ensures [] in Split(name, '.')
  {
    var front := name[..|name| - 1];
    var parts := Split(front, '.');
    SplitConcat(front, '.', []);
    assert name == front + ['.'] + [];
    assert Split(name, '.')[|parts|] == [];
  }

  lemma TrimDotsOnce(zone: string)
    requires ValidDnsName(zone)
    ensures TrimDots(zone) == WithoutFinalDot(zone)
    ensures Undotted(WithoutFinalDot(zone)) && ValidDnsName(WithoutFinalDot(zone))
  {
    var bare := WithoutFinalDot(zone);
    assert !ValidLabel([]);
    if bare[|bare| - 1] == '.' { FinalDotMakesAnEmptyLabel(bare); }
  }

  lemma {:induction false} RemoveSuffix(front: string, pattern: string, rest: string)
    requires |pattern| >= 2 && pattern[0] == '.' && pattern[1] == 'i'
    requires forall c | c in front :: IsDigit(c) || c == '.'
    requires |rest| < |pattern|
    ensures RemoveAll(front + pattern + rest, pattern) == front + rest
  {
    var s := front + pattern + rest;
    if front == [] {
      assert s[..|pattern|] == pattern && s[|pattern|..] == rest;
      assert [] + rest == rest;
    } else {
      assert s[1] == if |front| > 1 then front[1] else pattern[0];
      assert |front| > 1 ==> front[1] in front;
      assert s[..|pattern|][1] == s[1];
      assert s[1..] == front[1..] + pattern + rest;
      RemoveSuffix(front[1..], pattern, rest);
      assert [front[0]] + (front[1..] + rest) == front + rest;
    }
  }

  predicate DigitsAndDots(s: string) {
    forall c | c in s :: IsDigit(c) || c == '.'
  }

  // Without the sign the number parser would allow, a numeric prefix is octets and dots.
  lemma PrefixIsOctets(prefix: string)
    requires NumericPrefix(prefix) && '+' !in prefix
    ensures DigitsAndDots(prefix) && Octets(Split(prefix, '.'))
  {
    SplitPieces(prefix, '.');
    forall part | part in Split(prefix, '.') ensures part != [] && AllDigits(part) && Number(part) <= 255 {
      assert ParsesAsU8(part);
      assert part != [] ==> part[0] in part;
    }
    forall c | c in prefix ensures IsDigit(c) || c == '.' {
      if c != '.' { SplitCovers(prefix, '.', c); }
    }
  }

  lemma {:induction false} TrimmedDotsCharacters(s: string)
    ensures TrimDots(s) <= s
    ensures Undotted(TrimDots(s))
    decreases |s|
  {
    if s != [] && s[|s| - 1] == '.' { TrimmedDotsCharacters(s[..|s| - 1]); }
  }

  // No sign in a DNS name.
  lemma FoldHoldsNoSign(zone: string)
    requires ValidDnsName(zone)
    ensures '+' !in Fold(zone)
  {
    DnsNameCharacters(zone);
    TrimmedDotsCharacters(zone);
    var n := Fold(zone);
    forall i | 0 <= i < |n| ensures n[i] != '+' {
      assert n[i] == Lower(zone[i]) && zone[i] in zone;
    }
  }

  lemma AcceptedPrefix(zone: string) returns (prefix: string)
    requires AcceptedZone(zone)
    ensures Fold(zone) == prefix + ARPA && DigitsAndDots(prefix)
    ensures 1 <= |Split(prefix, '.')| <= 3 && Octets(Split(prefix, '.'))
  {
    prefix := StripSuffix(Fold(zone), ARPA).value;
    FoldHoldsNoSign(zone);
    assert forall c | c in prefix :: c in Fold(zone);
    PrefixIsOctets(prefix);
  }

  lemma ArpaStarts()
    ensures |ARPA| >= 2 && ARPA[0] == '.' && ARPA[1] == 'i'
  {
  }

  lemma ToLowerConcat(a: string, b: string)
    ensures ToLower(a + b) == ToLower(a) + ToLower(b)
  {
  }

  lemma LabelsWithAndWithoutDot(prefix: string, pattern: string)
    requires |pattern| >= 2 && pattern[0] == '.' && pattern[1] == 'i'
    requires DigitsAndDots(prefix)
    ensures RemoveAll(prefix + pattern, pattern) == prefix
    ensures Split(RemoveAll(prefix + pattern + ".", pattern), '.') == Split(prefix, '.') + [[]]
  {
    RemoveSuffix(prefix, pattern, []);
    assert prefix + pattern + [] == prefix + pattern && prefix + [] == prefix;
    RemoveSuffix(prefix, pattern, ".");
    SplitConcat(prefix, '.', []);
    assert prefix + ['.'] + [] == prefix + ".";
  }

  lemma LabelsOf(zone: string, prefix: string)
    requires DigitsAndDots(prefix) && ToLower(zone) == prefix + ARPA
    ensures ZoneLabels(zone) == Split(prefix, '.') && prefix + ARPA == Join(ZoneLabels(zone), ".") + ARPA
  {
    ArpaStarts();
    LabelsWithAndWithoutDot(prefix, ARPA);
    JoinSplit(prefix, '.');
    assert ['.'] == ".";
  }

  // With a trailing dot the script sees one more, empty label.
  lemma LabelsOfDotted(zone: string, prefix: string)
    requires DigitsAndDots(prefix) && ToLower(zone) == prefix + ARPA + "."
    ensures ZoneLabels(zone) == Split(prefix, '.') + [[]]
  {
    ArpaStarts();
    LabelsWithAndWithoutDot(prefix, ARPA);
  }

  lemma ZoneShape(zone: string)
    requires AcceptedZone(zone) && Undotted(zone)
    ensures var parts := ZoneLabels(zone);
            1 <= |parts| <= 3 && Octets(parts) && Fold(zone) == Join(parts, ".") + ARPA
  {
    var prefix := AcceptedPrefix(zone);
    LabelsOf(zone, prefix);
  }

  lemma FinalDotFolds(zone: string, bare: string)
    requires zone == bare + "." && Undotted(bare)
    ensures Fold(bare) == Fold(zone) == ToLower(bare)
    ensures ToLower(zone) == ToLower(bare) + "."
  {
    assert zone[..|zone| - 1] == bare;
    ToLowerConcat(bare, ".");
    assert Lower('.') == '.';
  }

  lemma SameFoldSameVerdict(zone: string, bare: string)
    requires Fold(bare) == Fold(zone) && ValidReverseZone(zone)
    ensures ValidReverseZone(bare)
  {
  }

  lemma DottedZoneFacts(zone: string)
    requires AcceptedZone(zone) && !Undotted(zone)
    ensures var bare := WithoutFinalDot(zone);
            var parts := ZoneLabels(bare);
            && AcceptedZone(bare) && Undotted(bare) && Fold(bare) == Fold(zone)
            && ZoneLabels(zone) == parts + [[]]
            && 1 <= |parts| <= 3 && Octets(parts) && Fold(zone) == Join(parts, ".") + ARPA
  {
    var bare := WithoutFinalDot(zone);
    TrimDotsOnce(zone);
    assert zone == bare + ".";
    FinalDotFolds(zone, bare);
    SameFoldSameVerdict(zone, bare);
    var prefix := AcceptedPrefix(zone);
    LabelsOf(bare, prefix);
    LabelsOfDotted(zone, prefix);
  }

  lemma DottedZoneLabels(zone: string)
    requires AcceptedZone(zone) && !Undotted(zone)
    ensures var parts := ZoneLabels(zone);
            2 <= |parts| <= 4 && parts[|parts| - 1] == [] && forall part | part in parts :: AllDigits(part)
  {
    DottedZoneFacts(zone);
  }

  // ---- The PTR name --------------------------------------------------------

  lemma JoinInjective(a: seq<string>, b: seq<string>)
    requires a != [] && b != []
    requires forall part | part in a :: '.' !in part
    requires forall part | part in b :: '.' !in part
    ensures Join(a, ".") == Join(b, ".") <==> a == b
  {
    SplitJoin(a, '.');
    SplitJoin(b, '.');
    assert ['.'] == ".";
  }

  lemma DigitsHoldNoDot(parts: seq<string>)
    requires forall part | part in parts :: AllDigits(part)
    ensures forall part | part in parts :: '.' !in part && '/' !in part
  {
  }

  lemma ReverseSplits(s: seq<string>, k: nat)
    requires k <= |s|
    ensures Reverse(s) == Reverse(s[k..]) + Reverse(s[..k])
  {
    var a, b, c := Reverse(s), Reverse(s[k..]), Reverse(s[..k]);
    forall i | 0 <= i < |s| ensures a[i] == (b + c)[i] {
      if i < |b| {
        assert b[i] == s[k..][|s| - k - 1 - i];
      } else {
        assert c[i - |b|] == s[..k][k - 1 - (i - |b|)];
      }
    }
  }

  lemma SamePrefix(a: seq<string>, b: seq<string>, c: seq<string>)
    ensures a + b == a + c <==> b == c
  {
    if a + b == a + c {
      assert b == (a + b)[|a|..];
      assert c == (a + c)[|a|..];
    }
  }

  lemma Associate(a: string, b: string, c: string, d: string)
    ensures a + b + (c + d) == a + b + c + d
  {
  }

  // Names put together label by label agree exactly when their labels do.
  lemma NamesMatch(relative: seq<string>, parts: seq<string>, rest: seq<string>, suffix: string)
    requires relative != [] && parts != []
    requires forall part | part in relative || part in parts || part in rest :: '.' !in part
    ensures Join(relative, ".") + "." + (Join(parts, ".") + suffix) == Join(relative + rest, ".") + suffix
            <==> parts == rest
  {
    JoinConcat(relative, parts, ".");
    Associate(Join(relative, "."), ".", Join(parts, "."), suffix);
    SameSuffix(Join(relative + parts, "."), Join(relative + rest, "."), suffix);
    JoinInjective(relative + parts, relative + rest);
    SamePrefix(relative, parts, rest);
  }

  // Without a trailing dot, the relative name the script computes, followed by the zone,
  // is the address's reverse-mapping name exactly when the address lies under the zone.
  lemma {:induction false} PtrNameIsReverseName(zone: string, address: string)
    requires AcceptedZone(zone) && Undotted(zone) && ValidAddress(address)
    ensures FullName(RelativeName(zone, address), zone) == ReverseName(address) <==> Under(zone, address)
  {
    ZoneShape(zone);
    var parts, octets := ZoneLabels(zone), Split(address, '.');
    var k := |parts|;
    var relative, rest := Reverse(octets[k..]), Reverse(octets[..k]);
    ReverseSplits(octets, k);
    LeadingAndTrailing(octets, k);
    DigitsHoldNoDot(parts);
    NamesMatch(relative, parts, rest, ARPA);
  }

  // A name with fewer labels than an address has octets is no reverse-mapping name.
  lemma ShortName(relative: seq<string>, parts: seq<string>, whole: seq<string>, suffix: string)
    requires relative != [] && parts != [] && |relative| + |parts| < |whole|
    requires forall part | part in relative || part in parts || part in whole :: '.' !in part
    ensures Join(relative, ".") + "." + (Join(parts, ".") + suffix) != Join(whole, ".") + suffix
  {
    JoinConcat(relative, parts, ".");
    Associate(Join(relative, "."), ".", Join(parts, "."), suffix);
    SameSuffix(Join(relative + parts, "."), Join(whole, "."), suffix);
    JoinInjective(relative + parts, whole);
  }

  lemma ThreeLabelsComeOutRight(zone: string, bare: string, address: string)
    requires ValidAddress(address) && Fold(bare) == Fold(zone)
    requires |ZoneLabels(bare)| == 3 && |ZoneLabels(zone)| == 4
    ensures FullName(RelativeName(zone, address), zone) == FullName(RelativeName(bare, address), bare)
  {
    var octets := Split(address, '.');
    assert octets[3..] == [octets[3]];
  }

  lemma FewerLabelsComeOutShort(zone: string, parts: seq<string>, address: string)
    requires ValidAddress(address) && Octets(parts) && Fold(zone) == Join(parts, ".") + ARPA
    requires 1 <= |parts| <= 2 && |ZoneLabels(zone)| == |parts| + 1
    ensures FullName(RelativeName(zone, address), zone) != ReverseName(address)
  {
    var octets := Split(address, '.');
    var k := |parts| + 1;
    var relative := Reverse(octets[k..]);
    LeadingAndTrailing(octets, k);
    LeadingAndTrailing(octets, 0);
    assert octets[0..] == octets;
    DigitsHoldNoDot(parts);
    ShortName(relative, parts, Reverse(octets), ARPA);
  }

  // With a trailing dot the script skips one octet too many, save for three-label zones,
  // where its index range runs backwards and ends on the right octet.
  lemma {:induction false} PtrNameInADottedZone(zone: string, address: string)
    requires AcceptedZone(zone) && !Undotted(zone) && ValidAddress(address)
    ensures FullName(RelativeName(zone, address), zone) == ReverseName(address)
            <==> Under(WithoutFinalDot(zone), address) && |ZoneLabels(zone)| == 4
  {
    var bare := WithoutFinalDot(zone);
    DottedZoneFacts(zone);
    if |ZoneLabels(zone)| == 4 {
      ThreeLabelsComeOutRight(zone, bare, address);
      PtrNameIsReverseName(bare, address);
    } else {
      FewerLabelsComeOutShort(zone, ZoneLabels(bare), address);
    }
  }

  // For every accepted zone and every address: the script's PTR name is the address's
  // reverse-mapping name exactly when the address lies under the zone and the zone is
  // spelled without a trailing dot or has three labels.
  lemma PtrNameExactly(zone: string, address: string)
    requires AcceptedZone(zone) && ValidAddress(address)
    ensures FullName(RelativeName(zone, address), zone) == ReverseName(address)
            <==> Under(WithoutFinalDot(zone), address) && (Undotted(zone) || |ZoneLabels(zone)| == 4)
  {
    if Undotted(zone) {
      PtrNameIsReverseName(zone, address);
    } else {
      PtrNameInADottedZone(zone, address);
    }
  }

  lemma LeadingAndTrailing(octets: seq<string>, k: nat)
    requires k <= |octets| && forall octet | octet in octets :: Canonical(octet)
    ensures forall part | part in Reverse(octets[k..]) || part in Reverse(octets[..k]) :: '.' !in part
  {
    forall part | part in Reverse(octets[k..]) || part in Reverse(octets[..k]) ensures part in octets {}
    DigitsHoldNoDot(octets);
  }

  lemma SameSuffix(a: string, b: string, suffix: string)
    ensures a + suffix == b + suffix <==> a == b
  {
    if a + suffix == b + suffix {
      assert a == (a + suffix)[..|a|];
      assert b == (b + suffix)[..|b|];
    }
  }

  // Lying under a zone by value: label by label, the same numbers.
  predicate UnderByValue(zone: string, address: string)
    requires Octets(ZoneLabels(zone)) && ValidAddress(address)
  {
    var parts, octets := ZoneLabels(zone), Split(address, '.');
    |parts| <= 4 && forall i | 0 <= i < |parts| ::
      Number(ZoneLabel(zone, |parts| - 1 - i)) == Number(AddressOctet(address, i))
  }

  function ZoneLabel(zone: string, i: nat): (part: string)
    requires Octets(ZoneLabels(zone)) && i < |ZoneLabels(zone)|
    ensures part in ZoneLabels(zone) && AllDigits(part)
  {
    ZoneLabels(zone)[i]
  }

  function AddressOctet(address: string, i: nat): (octet: string)
    requires ValidAddress(address) && i < 4
    ensures octet in Split(address, '.') && Canonical(octet) && Number(octet) <= 255
  {
    Split(address, '.')[i]
  }

  lemma CanonicalLabelsMatch(parts: seq<string>, octets: seq<string>)
    requires |parts| == |octets|
    requires forall i | 0 <= i < |parts| ::
               && AllDigits(parts[i]) && Canonical(octets[i]) && Number(parts[i]) == Number(octets[i])
    ensures parts == octets <==> forall part | part in parts :: Canonical(part)
  {
    forall i | 0 <= i < |parts| ensures parts[i] == octets[i] <==> Canonical(parts[i]) {
      if Canonical(parts[i]) { CanonicalIsUnique(parts[i], octets[i]); }
    }
    if parts != octets {
      var i :| 0 <= i < |parts| && parts[i] != octets[i];
      assert parts[i] in parts;
    }
  }

  lemma UnderByValueLabels(zone: string, address: string)
    requires Octets(ZoneLabels(zone)) && ValidAddress(address) && UnderByValue(zone, address)
    ensures Under(zone, address) <==> forall part | part in ZoneLabels(zone) :: Canonical(part)
  {
    var parts, octets := ZoneLabels(zone), Split(address, '.');
    var k := |parts|;
    var expected := Reverse(octets[..k]);
    forall i | 0 <= i < k
      ensures AllDigits(parts[i]) && Canonical(expected[i]) && Number(parts[i]) == Number(expected[i])
    {
      var j := k - 1 - i;
      assert expected[i] == octets[j] == AddressOctet(address, j);
      assert parts[i] == ZoneLabel(zone, k - 1 - j);
    }
    CanonicalLabelsMatch(parts, expected);
  }

  // The number parser accepts leading zeros, the address parser does not. An address that
  // lies under an accepted zone by value gets its right name exactly when the zone spells
  // its numbers without leading zeros.
  lemma {:induction false} NumericZonesNeedCanonicalLabels(zone: string, address: string)
    requires AcceptedZone(zone) && Undotted(zone) && ValidAddress(address)
    requires Octets(ZoneLabels(zone)) && UnderByValue(zone, address)
    ensures FullName(RelativeName(zone, address), zone) == ReverseName(address)
            <==> forall part | part in ZoneLabels(zone) :: Canonical(part)
  {
    PtrNameIsReverseName(zone, address);
    UnderByValueLabels(zone, address);
  }

  // ---- The network id ------------------------------------------------------

  function AddressValue(address: string): nat
    requires ValidAddress(address)
  {
    Number(AddressOctet(address, 0)) * 0x100_0000 + Number(AddressOctet(address, 1)) * 0x1_0000
    + Number(AddressOctet(address, 2)) * 0x100 + Number(AddressOctet(address, 3))
  }

  // The host part of an address under a mask of one, two or three octets.
  function HostSize(octets: nat): nat {
    if octets == 1 then 0x100_0000 else if octets == 2 then 0x1_0000 else 0x100
  }

  function Masked(value: nat, octets: nat): nat {
    value - value % HostSize(octets)
  }

  lemma MaskArithmetic(a: nat, b: nat, c: nat, d: nat, k: nat)
    requires a < 256 && b < 256 && c < 256 && d < 256 && 1 <= k <= 3
    ensures Masked(a * 0x100_0000 + b * 0x1_0000 + c * 0x100 + d, k)
         == a * 0x100_0000 + (if k >= 2 then b else 0) * 0x1_0000 + (if k >= 3 then c else 0) * 0x100
  {
    var v := a * 0x100_0000 + b * 0x1_0000 + c * 0x100 + d;
    if k == 1 {
      assert v % 0x100_0000 == b * 0x1_0000 + c * 0x100 + d;
    } else if k == 2 {
      assert v % 0x1_0000 == c * 0x100 + d;
    } else {
      assert v % 0x100 == d;
    }
  }

  lemma OctetsOfValue(a: nat, b: nat, c: nat)
    requires a < 256 && b < 256 && c < 256
    ensures var m := a * 0x100_0000 + b * 0x1_0000 + c * 0x100;
            m / 0x100_0000 == a && m / 0x1_0000 % 0x100 == b && m / 0x100 % 0x100 == c && m % 0x100 == 0
  {
    var m := a * 0x100_0000 + b * 0x1_0000 + c * 0x100;
    assert m / 0x1_0000 == a * 0x100 + b;
    assert m / 0x100 == a * 0x1_0000 + b * 0x100 + c;
  }

  lemma DottedOf(m: nat, a: nat, b: nat, c: nat)
    requires m / 0x100_0000 == a && m / 0x1_0000 % 0x100 == b && m / 0x100 % 0x100 == c && m % 0x100 == 0
    ensures Dotted(m) == Join([Decimal(a), Decimal(b), Decimal(c), Decimal(0)], ".")
  {
  }

  // Octet i of an address whose host part, from octet k on, is zeroed.
  function NetworkOctet(address: string, k: nat, i: nat): string
    requires ValidAddress(address) && i < 4
  {
    if i < k then AddressOctet(address, i) else "0"
  }

  lemma NetworkOctetText(address: string, k: nat, i: nat)
    requires ValidAddress(address) && i < 4
    ensures Decimal(if i < k then Number(AddressOctet(address, i)) else 0) == NetworkOctet(address, k, i)
  {
    DecimalOfNumber(AddressOctet(address, i));
    assert Decimal(0) == "0";
  }

  function NetworkNumber(address: string, k: nat, i: nat): (n: nat)
    requires ValidAddress(address) && i < 4
    ensures n < 256 && Decimal(n) == NetworkOctet(address, k, i)
  {
    NetworkOctetText(address, k, i);
    if i < k then Number(AddressOctet(address, i)) else 0
  }

  lemma MaskedValue(address: string, k: nat)
    requires ValidAddress(address) && 1 <= k <= 3
    ensures Masked(AddressValue(address), k) ==
            NetworkNumber(address, k, 0) * 0x100_0000 + NetworkNumber(address, k, 1) * 0x1_0000
            + NetworkNumber(address, k, 2) * 0x100
  {
    MaskArithmetic(Number(AddressOctet(address, 0)), Number(AddressOctet(address, 1)),
                   Number(AddressOctet(address, 2)), Number(AddressOctet(address, 3)), k);
  }

  lemma DottedMask(address: string, k: nat)
    requires ValidAddress(address) && 1 <= k <= 3
    ensures Dotted(Masked(AddressValue(address), k)) ==
            Join([NetworkOctet(address, k, 0), NetworkOctet(address, k, 1), NetworkOctet(address, k, 2), "0"], ".")
  {
    var a, b, c := NetworkNumber(address, k, 0), NetworkNumber(address, k, 1), NetworkNumber(address, k, 2);
    MaskedValue(address, k);
    OctetsOfValue(a, b, c);
    DottedOf(Masked(AddressValue(address), k), a, b, c);
    assert Decimal(0) == "0";
  }

  lemma NetworkOctets(address: string, k: nat)
    requires ValidAddress(address) && 1 <= k <= 3
    ensures Padded(Split(address, '.')[..k]) ==
            [NetworkOctet(address, k, 0), NetworkOctet(address, k, 1), NetworkOctet(address, k, 2), "0"]
  {
    var front := Split(address, '.')[..k];
    var padded := Padded(front);
    PaddedOctets(front);
    assert padded[0] == NetworkOctet(address, k, 0);
    assert padded[1] == NetworkOctet(address, k, 1);
    assert padded[2] == NetworkOctet(address, k, 2);
    assert padded[3] == "0";
    assert padded == [padded[0], padded[1], padded[2], padded[3]];
  }

  lemma NetworkText(address: string, k: nat)
    requires ValidAddress(address) && 1 <= k <= 3
    ensures Join(Padded(Split(address, '.')[..k]), ".") == Dotted(Masked(AddressValue(address), k))
  {
    DottedMask(address, k);
    NetworkOctets(address, k);
  }

  lemma NetworkOfParts(parts: seq<string>, front: seq<string>, network: string)
    requires parts == Reverse(front) && Join(Padded(front), ".") == network
    requires |front| <= 3
    ensures NetworkIdOf(parts) == network + "/" + Decimal(8 * |parts|)
  {
    ReverseTwice(front);
    assert 8 * |parts| == |parts| * 8;
  }

  // For an address under its zone, the network the script creates is that address masked
  // to eight bits per label, in CIDR form.
  lemma {:induction false} NetworkIdIsMaskedAddress(zone: string, address: string)
    requires AcceptedZone(zone) && Undotted(zone) && ValidAddress(address) && Under(zone, address)
    ensures var k := |ZoneLabels(zone)|;
            1 <= k <= 3 && NetworkId(zone) == Dotted(Masked(AddressValue(address), k)) + "/" + Decimal(8 * k)
  {
    ZoneShape(zone);
    var k := |ZoneLabels(zone)|;
    NetworkText(address, k);
    NetworkOfParts(ZoneLabels(zone), Split(address, '.')[..k], Dotted(Masked(AddressValue(address), k)));
  }

  lemma ReverseTwice(s: seq<string>)
    ensures Reverse(Reverse(s)) == s
  {
  }

  lemma PaddedOctets(front: seq<string>)
    requires 1 <= |front| <= 3
    ensures |Padded(front)| == 4
    ensures forall i | 0 <= i < 4 :: Padded(front)[i] == if i < |front| then front[i] else "0"
  {
    if |front| == 1 {
      assert Padded(front) == Padded(front + ["0"]) == Padded(front + ["0"] + ["0"]) == front + ["0"] + ["0"] + ["0"];
    } else if |front| == 2 {
      assert Padded(front) == Padded(front + ["0"]) == front + ["0"] + ["0"];
    } else {
      assert Padded(front) == front + ["0"];
    }
  }

  // ---- The zone that gets created ------------------------------------------

  function PrefixOctets(length: string): (k: nat)
    ensures k <= 3
  {
    if length == "8" then 1 else if length == "16" then 2 else if length == "24" then 3 else 0
  }

  // The reverse zone a DNS server makes for a classful network id: none unless the id is a
  // canonical address and a prefix of one, two or three octets.
  function ZoneOfNetwork(networkId: string): Option<string> {
    var halves := Split(networkId, '/');
    if |halves| != 2 || !ValidAddress(halves[0]) then None
    else
      var k := PrefixOctets(halves[1]);
      if k == 0 then None else Some(Join(Reverse(Split(halves[0], '.')[..k]), ".") + ARPA)
  }

  lemma NetworkIdHalves(octets: seq<string>, k: nat)
    requires octets != [] && forall octet | octet in octets :: AllDigits(octet)
    ensures Split(Join(octets, ".") + "/" + Decimal(8 * k), '/') == [Join(octets, "."), Decimal(8 * k)]
    ensures Split(Join(octets, "."), '.') == octets
  {
    DigitsHoldNoDot(octets);
    SplitJoin(octets, '.');
    assert ['.'] == ".";
    NumberOfDecimal(8 * k);
    DigitsHoldNoDot([Decimal(8 * k)]);
    assert Decimal(8 * k) in [Decimal(8 * k)];
    SplitSolid(Decimal(8 * k), '/');
    JoinedDigits(octets);
    SplitSolid(Join(octets, "."), '/');
    SplitConcat(Join(octets, "."), '/', Decimal(8 * k));
    assert ['/'] == "/";
  }

  lemma {:induction false} JoinedDigits(octets: seq<string>)
    requires forall octet | octet in octets :: AllDigits(octet)
    ensures '/' !in Join(octets, ".")
  {
    if octets != [] {
      assert octets[0] in octets;
      if |octets| > 1 { JoinedDigits(octets[1..]); }
    }
  }

  lemma PrefixText(k: nat)
    requires 1 <= k <= 3
    ensures PrefixOctets(Decimal(8 * k)) == k
  {
    assert Decimal(1) == "1" && Decimal(2) == "2";
    assert Decimal(8) == "8" && Decimal(16) == "16" && Decimal(24) == "24";
  }

  lemma JoinedAddress(octets: seq<string>)
    requires |octets| == 4 && Split(Join(octets, "."), '.') == octets
    requires forall octet | octet in octets :: AllDigits(octet) && Number(octet) <= 255
    ensures ValidAddress(Join(octets, ".")) <==> forall octet | octet in octets :: Canonical(octet)
  {
  }

  lemma ZoneOfOctets(octets: seq<string>, k: nat)
    requires |octets| == 4 && 1 <= k <= 3
    requires forall octet | octet in octets :: AllDigits(octet) && Number(octet) <= 255
    ensures ZoneOfNetwork(Join(octets, ".") + "/" + Decimal(8 * k)) ==
            if forall octet | octet in octets :: Canonical(octet)
            then Some(Join(Reverse(octets[..k]), ".") + ARPA) else None
  {
    NetworkIdHalves(octets, k);
    JoinedAddress(octets);
    PrefixText(k);
  }

  lemma NoZoneOfOctets(octets: seq<string>, k: nat)
    requires [] in octets && forall octet | octet in octets :: AllDigits(octet)
    ensures ZoneOfNetwork(Join(octets, ".") + "/" + Decimal(8 * k)) == None
  {
    NetworkIdHalves(octets, k);
    assert !Canonical([]);
  }

  lemma ZoneOfParts(parts: seq<string>)
    requires 1 <= |parts| <= 3 && Octets(parts)
    ensures ZoneOfNetwork(NetworkIdOf(parts)) ==
            if forall part | part in parts :: Canonical(part) then Some(Join(parts, ".") + ARPA) else None
  {
    PaddedParts(parts);
    ZoneOfPadded(parts, Padded(Reverse(parts)));
  }

  lemma ZoneOfPadded(parts: seq<string>, octets: seq<string>)
    requires 1 <= |parts| <= 3 && |octets| == 4 && Reverse(octets[..|parts|]) == parts
    requires forall octet | octet in octets :: AllDigits(octet) && Number(octet) <= 255
    requires (forall octet | octet in octets :: Canonical(octet)) <==> (forall part | part in parts :: Canonical(part))
    ensures ZoneOfNetwork(Join(octets, ".") + "/" + Decimal(|parts| * 8)) ==
            if forall part | part in parts :: Canonical(part) then Some(Join(parts, ".") + ARPA) else None
  {
    ZoneOfOctets(octets, |parts|);
    assert 8 * |parts| == |parts| * 8;
  }

  lemma PaddedParts(parts: seq<string>)
    requires 1 <= |parts| <= 3 && Octets(parts)
    ensures var octets := Padded(Reverse(parts));
            && |octets| == 4
            && (forall octet | octet in octets :: AllDigits(octet) && Number(octet) <= 255)
            && ((forall octet | octet in octets :: Canonical(octet))
                <==> (forall part | part in parts :: Canonical(part)))
            && Reverse(octets[..|parts|]) == parts
  {
    var octets := Padded(Reverse(parts));
    PaddedOctets(Reverse(parts));
    OctetsThroughout(parts, octets);
    CanonicalThroughout(parts, octets);
    PaddedPrefix(Reverse(parts));
    ReverseTwice(parts);
  }

  lemma PaddedPrefix(front: seq<string>)
    requires 1 <= |front| <= 3
    ensures |Padded(front)| == 4 && Padded(front)[..|front|] == front
  {
    PaddedOctets(front);
  }

  // A label list that ends in the empty label makes a network id that starts with one.
  lemma EmptyLastLabel(parts: seq<string>)
    requires 2 <= |parts| <= 4 && parts[|parts| - 1] == [] && forall part | part in parts :: AllDigits(part)
    ensures var octets := Padded(Reverse(parts));
            [] in octets && forall octet | octet in octets :: AllDigits(octet)
  {
    var front := Reverse(parts);
    var octets := Padded(front);
    if |parts| < 4 { PaddedOctets(front); }
    assert octets[0] == front[0] == [];
    forall octet | octet in octets ensures AllDigits(octet) {
      var i :| 0 <= i < |octets| && octets[i] == octet;
      if i < |parts| { assert front[i] in parts; } else { ZeroOctet(); }
    }
  }

  lemma UndottedZoneIsCreated(zone: string, parts: seq<string>)
    requires AcceptedZone(zone) && Undotted(zone) && parts == ZoneLabels(zone)
    ensures ZoneOfNetwork(NetworkIdOf(parts)) ==
            if forall part | part in parts :: Canonical(part) then Some(Fold(zone)) else None
  {
    ZoneShape(zone);
    ZoneOfParts(parts);
  }

  lemma NoNetworkOfDotted(parts: seq<string>)
    requires 2 <= |parts| <= 4 && parts[|parts| - 1] == [] && forall part | part in parts :: AllDigits(part)
    ensures ZoneOfNetwork(NetworkIdOf(parts)) == None
  {
    EmptyLastLabel(parts);
    NoZoneOfOctets(Padded(Reverse(parts)), |parts|);
    assert 8 * |parts| == |parts| * 8;
  }

  // Creating the zone by network id creates the zone that was asked for exactly when it
  // was spelled without a trailing dot and without leading zeros; in every other spelling
  // the id is no network.
  lemma CreatesTheZoneAskedFor(zone: string)
    requires AcceptedZone(zone)
    ensures var good := Undotted(zone) && forall part | part in ZoneLabels(zone) :: Canonical(part);
            ZoneOfNetwork(NetworkId(zone)) == if good then Some(Fold(zone)) else None
  {
    if Undotted(zone) {
      UndottedZoneIsCreated(zone, ZoneLabels(zone));
    } else {
      DottedZoneLabels(zone);
      NoNetworkOfDotted(ZoneLabels(zone));
    }
  }

  lemma OctetsThroughout(parts: seq<string>, octets: seq<string>)
    requires |parts| <= 4 && |octets| == 4 && Octets(parts)
    requires forall i | 0 <= i < 4 :: octets[i] == if i < |parts| then Reverse(parts)[i] else "0"
    ensures forall octet | octet in octets :: AllDigits(octet) && Number(octet) <= 255
  {
    forall octet | octet in octets ensures AllDigits(octet) && Number(octet) <= 255 {
      var i :| 0 <= i < 4 && octets[i] == octet;
      if i < |parts| { assert Reverse(parts)[i] in parts; } else { ZeroOctet(); }
    }
  }

  lemma ZeroOctet()
    ensures Canonical("0") && Number("0") == 0
  {
    assert "0"[..0] == [];
  }

  lemma CanonicalThroughout(parts: seq<string>, octets: seq<string>)
    requires 1 <= |parts| <= 3 && |octets| == 4
    requires forall i | 0 <= i < 4 :: octets[i] == if i < |parts| then Reverse(parts)[i] else "0"
    ensures (forall octet | octet in octets :: Canonical(octet)) <==> (forall part | part in parts :: Canonical(part))
  {
    ZeroOctet();
    forall part | part in parts ensures part in octets {
      var i :| 0 <= i < |parts| && parts[i] == part;
      assert octets[|parts| - 1 - i] == part;
    }
    forall octet | octet in octets ensures octet in parts || octet == "0" {
      var i :| 0 <= i < 4 && octets[i] == octet;
    }
  }

  // ---- Zones that come out wrong -------------------------------------------

  predicate IsOctet(octet: string) {
    1 <= |octet| <= 3 && AllDigits(octet) && Number(octet) <= 255
  }

  lemma {:induction false} SplitThree(a: string, b: string, c: string)
    requires '.' !in a && '.' !in b && '.' !in c
    ensures Split(a + ['.'] + (b + ['.'] + c), '.') == [a, b, c]
  {
    SplitConcat(a, '.', b + ['.'] + c);
    SplitConcat(b, '.', c);
    SplitSolid(a, '.');
    SplitSolid(b, '.');
    SplitSolid(c, '.');
    assert [a] + ([b] + [c]) == [a, b, c];
  }

  lemma {:induction false} LabelsMakeAName(name: string)
    requires 1 <= |name| <= 62 && Undotted(name)
    requires forall part | part in Split(name, '.') :: ValidLabel(part)
    ensures ValidDnsName(name)
  {
    WidthBound(name);
  }

  lemma {:induction false} ThreeLabels(name: string, a: string, b: string, c: string)
    requires name == a + ['.'] + (b + ['.'] + c)
    requires ValidLabel(a) && ValidLabel(b) && ValidLabel(c)
    requires '.' !in a && '.' !in b && '.' !in c && |a| + |b| + |c| <= 60
    ensures ValidDnsName(name) && Undotted(name)
  {
    SplitThree(a, b, c);
    assert name[|name| - 1] == c[|c| - 1] && c[|c| - 1] in c;
    LabelsMakeAName(name);
  }

  predicate Lowercase(s: string) {
    forall c | c in s :: !('A' <= c <= 'Z')
  }

  lemma {:induction false} LowercaseStays(s: string)
    requires Lowercase(s)
    ensures ToLower(s) == s
  {
    forall i | 0 <= i < |s| ensures ToLower(s)[i] == s[i] { assert s[i] in s; }
  }

  lemma {:induction false} OctetIsLabel(octet: string)
    requires IsOctet(octet)
    ensures ValidLabel(octet) && '.' !in octet && Lowercase(octet) && ParsesAsU8(octet)
  {
    WidthBound(octet);
    assert octet[0] in octet && octet[|octet| - 1] in octet;
  }

  // A suffix of two lower-case labels, as in-addr.arpa is.
  ghost predicate SuffixOf(suffix: string, a: string, b: string) {
    && suffix == ['.'] + (a + ['.'] + b) && Lowercase(suffix)
    && ValidLabel(a) && ValidLabel(b) && '.' !in a && '.' !in b && |a| + |b| <= 50
  }

  const IN_ADDR: string := ['i', 'n', '-', 'a', 'd', 'd', 'r']
  const TOP: string := ['a', 'r', 'p', 'a']

  lemma ArpaText()
    ensures ARPA == ['.'] + (IN_ADDR + ['.'] + TOP)
  {
  }

  lemma ArpaIsLowercase()
    ensures Lowercase(ARPA)
  {
  }

  lemma {:induction false} ArpaLabels()
    ensures ValidLabel(IN_ADDR) && ValidLabel(TOP) && '.' !in IN_ADDR && '.' !in TOP
  {
    WidthBound(IN_ADDR);
    WidthBound(TOP);
  }

  lemma ArpaIsSuffix()
    ensures SuffixOf(ARPA, IN_ADDR, TOP)
  {
    ArpaText();
    ArpaIsLowercase();
    ArpaLabels();
  }

  lemma {:induction false} OctetUnderSuffix(octet: string, suffix: string, a: string, b: string)
    requires IsOctet(octet) && SuffixOf(suffix, a, b)
    ensures ValidDnsName(octet + suffix) && Undotted(octet + suffix)
  {
    var rest := a + ['.'] + b;
    assert octet + ['.'] + rest == octet + (['.'] + rest);
    OctetIsLabel(octet);
    ThreeLabels(octet + suffix, octet, a, b);
  }

  lemma {:induction false} LowercaseZoneFolds(octet: string, suffix: string)
    requires Lowercase(octet) && Lowercase(suffix) && Undotted(octet + suffix)
    ensures Fold(octet + suffix) == ToLower(octet + suffix) == octet + suffix
  {
    LowercaseStays(octet + suffix);
  }

  lemma {:induction false} SuffixStrips(prefix: string, suffix: string)
    ensures StripSuffix(prefix + suffix, suffix) == Some(prefix)
  {
    assert (prefix + suffix)[|prefix|..] == suffix && (prefix + suffix)[..|prefix|] == prefix;
  }

  lemma {:induction false} OctetIsPrefix(octet: string)
    requires IsOctet(octet)
    ensures NumericPrefix(octet) && Split(octet, '.') == [octet] && DigitsAndDots(octet)
  {
    OctetIsLabel(octet);
    SplitSolid(octet, '.');
  }

  // Every octet, leading zeros or not, names an accepted zone of one label.
  lemma {:induction false} OctetZoneIsAccepted(octet: string)
    requires IsOctet(octet)
    ensures AcceptedZone(octet + ARPA) && Undotted(octet + ARPA)
    ensures Fold(octet + ARPA) == ToLower(octet + ARPA) == octet + ARPA
    ensures ZoneLabels(octet + ARPA) == [octet]
  {
    ArpaIsSuffix();
    OctetUnderSuffix(octet, ARPA, IN_ADDR, TOP);
    OctetIsLabel(octet);
    LowercaseZoneFolds(octet, ARPA);
    SuffixStrips(octet, ARPA);
    OctetIsPrefix(octet);
    LabelsOf(octet + ARPA, octet);
  }

  // And so does the same spelling with a trailing dot.
  lemma {:induction false} DottedOctetZoneIsAccepted(octet: string)
    requires IsOctet(octet)
    ensures var zone := octet + ARPA + ".";
            AcceptedZone(zone) && !Undotted(zone) && |ZoneLabels(zone)| == 2
  {
    var bare, zone := octet + ARPA, octet + ARPA + ".";
    OctetZoneIsAccepted(octet);
    FinalDotFolds(zone, bare);
    assert WithoutFinalDot(zone) == bare && WithoutFinalDot(bare) == bare;
    SameFoldSameVerdict(bare, zone);
    OctetIsPrefix(octet);
    LabelsOfDotted(zone, octet);
  }

  // For every octet and every address: the zone with a trailing dot is accepted, is not
  // created, and gets no address its reverse name.
  lemma {:induction false} DottedZoneFails(octet: string, address: string)
    requires IsOctet(octet) && ValidAddress(address)
    ensures var zone := octet + ARPA + ".";
            && AcceptedZone(zone)
            && ZoneOfNetwork(NetworkId(zone)) == None
            && FullName(RelativeName(zone, address), zone) != ReverseName(address)
  {
    var zone := octet + ARPA + ".";
    DottedOctetZoneIsAccepted(octet);
    CreatesTheZoneAskedFor(zone);
    PtrNameInADottedZone(zone, address);
  }

  // The same of every octet with a leading zero, without any dot.
  lemma {:induction false} LeadingZeroFails(octet: string, address: string)
    requires IsOctet(octet) && !Canonical(octet) && ValidAddress(address)
    ensures var zone := octet + ARPA;
            && AcceptedZone(zone) && Undotted(zone)
            && ZoneOfNetwork(NetworkId(zone)) == None
            && FullName(RelativeName(zone, address), zone) != ReverseName(address)
  {
    var zone := octet + ARPA;
    OctetZoneIsAccepted(octet);
    assert octet in ZoneLabels(zone);
    CreatesTheZoneAskedFor(zone);
    PtrNameIsReverseName(zone, address);
    if Under(zone, address) { UnderIsCanonical(zone, address); }
  }

  lemma {:induction false} UnderIsCanonical(zone: string, address: string)
    requires ValidAddress(address) && Under(zone, address)
    ensures forall part | part in ZoneLabels(zone) :: Canonical(part)
  {
    var octets, parts := Split(address, '.'), ZoneLabels(zone);
    forall part | part in parts ensures Canonical(part) {
      var i :| 0 <= i < |parts| && parts[i] == part;
      assert part == octets[|parts| - 1 - i];
    }
  }

  lemma {:induction false} NumberOfTwo(a: char, b: char)
    requires IsDigit(a) && IsDigit(b)
    ensures AllDigits([a, b]) && Number([a, b]) == DigitValue(a) * 10 + DigitValue(b)
  {
    assert [a, b][..1] == [a] && [a][..0] == [];
    assert Number([a]) == DigitValue(a);
  }

  lemma {:induction false} NumberOfThree(a: char, b: char, c: char)
    requires IsDigit(a) && IsDigit(b) && IsDigit(c)
    ensures AllDigits([a, b, c])
    ensures Number([a, b, c]) == DigitValue(a) * 100 + DigitValue(b) * 10 + DigitValue(c)
  {
    assert [a, b, c][..2] == [a, b];
    NumberOfTwo(a, b);
  }

  lemma {:induction false} FourOctets(a: string, b: string, c: string, d: string)
    requires Canonical(a) && Canonical(b) && Canonical(c) && Canonical(d)
    requires Number(a) <= 255 && Number(b) <= 255 && Number(c) <= 255 && Number(d) <= 255
    ensures ValidAddress(a + ['.'] + (b + ['.'] + (c + ['.'] + d)))
  {
    DigitsHoldNoDot([a, b, c, d]);
    assert a in [a, b, c, d] && b in [a, b, c, d] && c in [a, b, c, d] && d in [a, b, c, d];
    SplitSolid(a, '.');
    SplitThree(b, c, d);
    SplitConcat(a, '.', b + ['.'] + (c + ['.'] + d));
    assert [a] + [b, c, d] == [a, b, c, d];
  }

  lemma {:induction false} OneDigit(c: char)
    requires IsDigit(c)
    ensures Canonical([c]) && Number([c]) <= 9
  {
    assert [c][..0] == [];
  }

  const SAMPLE_ADDRESS: string := ['1', '0'] + ['.'] + (['1'] + ['.'] + (['2'] + ['.'] + ['3']))
  const DOTTED_ZONE: string := ['1', '0'] + ARPA + "."
  const PADDED_ZONE: string := ['0', '1', '0'] + ARPA

  lemma {:induction false} SampleAddressIsValid()
    ensures ValidAddress(SAMPLE_ADDRESS)
  {
    NumberOfTwo('1', '0');
    OneDigit('1');
    OneDigit('2');
    OneDigit('3');
    FourOctets(['1', '0'], ['1'], ['2'], ['3']);
  }

  // 10.in-addr.arpa. with a trailing dot, and 010.in-addr.arpa, for 10.1.2.3.
  lemma {:induction false} ZonesThatFail()
    ensures ValidAddress(SAMPLE_ADDRESS) && AcceptedZone(DOTTED_ZONE) && AcceptedZone(PADDED_ZONE)
    ensures FullName(RelativeName(DOTTED_ZONE, SAMPLE_ADDRESS), DOTTED_ZONE) != ReverseName(SAMPLE_ADDRESS)
    ensures FullName(RelativeName(PADDED_ZONE, SAMPLE_ADDRESS), PADDED_ZONE) != ReverseName(SAMPLE_ADDRESS)
    ensures ZoneOfNetwork(NetworkId(DOTTED_ZONE)) == None && ZoneOfNetwork(NetworkId(PADDED_ZONE)) == None
  {
    SampleAddressIsValid();
    NumberOfTwo('1', '0');
    NumberOfThree('0', '1', '0');
    DottedZoneFails(['1', '0'], SAMPLE_ADDRESS);
    LeadingZeroFails(['0', '1', '0'], SAMPLE_ADDRESS);
  }
}
