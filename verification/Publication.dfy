// The publication lists of src/commands/ca.rs: newline-separated parameters, checked entry
// by entry and handed to certutil as one argument with a two-character separator.
module Publication {
  import opened Wrappers
  import opened Text
  import opened Grammar
  import opened Numerals
  import opened Registry
  import opened Report

  // The separator certutil reads: a backslash and an n, not a newline.
  const PAIR: string := ['\\', 'n']

  const MAX_FLAGS: nat := 1023
  const MAX_LOCATION: nat := 300

  // ---- The entries of a parameter ------------------------------------------

  function TrimmedNonEmpty(parts: seq<string>): seq<string> {
    if parts == [] then []
    else
      var entry := Trim(parts[0]);
      (if entry == [] then [] else [entry]) + TrimmedNonEmpty(parts[1..])
  }

  function Entries(raw: string): seq<string> {
    TrimmedNonEmpty(Split(raw, '\n'))
  }

  // ---- One entry -----------------------------------------------------------

  function SplitOnce(s: string, c: char): (r: Option<(string, string)>)
    ensures r.Some? ==> s == r.value.0 + [c] + r.value.1 && c !in r.value.0
    ensures r.None? ==> c !in s
  {
    if s == [] then None
    else if s[0] == c then Some(([], s[1..]))
    else
      match SplitOnce(s[1..], c)
      case None => None
      case Some((before, after)) => Some(([s[0]] + before, after))
  }

  predicate FlagsOk(flags: string) {
    flags != [] && AllDigits(flags) && Number(flags) <= MAX_FLAGS
  }

  predicate Anchored(location: string) {
    || StartsWith(location, "ldap:///") || StartsWith(location, "http://")
    || StartsWith(location, "https://") || StartsWith(location, "file://")
    || StartsWith(location, "\\\\")
    || OnDrive(location)
  }

  predicate OnDrive(location: string) {
    && |location| >= 3 && Utf8Len(location) > 3
    && IsAlphabetic(location[0]) && location[1] == ':' && location[2] == '\\'
  }

  // What could end or extend the argument in the script that receives it.
  predicate Forbidden(c: char) {
    c in "\"'`;$\n\r"
  }

  predicate ValidPublicationEntry(entry: string) {
    match SplitOnce(entry, ':')
    case None => false
    case Some((flags, location)) =>
      && FlagsOk(flags)
      && location != [] && Utf8Len(location) <= MAX_LOCATION
      && Anchored(location)
      && forall c | c in location :: !Forbidden(c)
  }

  // ---- ... and what it amounts to ------------------------------------------

  ghost predicate Continues(s: string, prefix: string) {
    exists rest :: s == prefix + rest
  }

  ghost predicate DriveText(location: string) {
    exists drive, rest :: IsAlphabetic(drive) && rest != [] && location == [drive] + ":\\" + rest
  }

  // A location starts in one of these ways, and not with the drive alone.
  ghost predicate AnchoredText(location: string) {
    || Continues(location, "ldap:///") || Continues(location, "http://") || Continues(location, "https://")
    || Continues(location, "file://") || Continues(location, "\\\\") || DriveText(location)
  }

  predicate ForbiddenCharacter(c: char) {
    c == '"' || c == '\'' || c == '`' || c == ';' || c == '$' || c == '\n' || c == '\r'
  }

  ghost predicate EntryOf(entry: string, flags: string, location: string) {
    && entry == flags + ":" + location
    && (exists n: nat :: n <= 1023 && NumeralText(flags, n))
    && AnchoredText(location) && Utf8Len(location) <= 300
    && forall i | 0 <= i < |location| :: !ForbiddenCharacter(location[i])
  }

  // A number of at most 1023, a colon, and a plain anchored location.
  ghost predicate EntryText(entry: string) {
    exists flags, location :: EntryOf(entry, flags, location)
  }

  lemma StartsExactly(s: string, prefix: string)
    ensures StartsWith(s, prefix) <==> Continues(s, prefix)
  {
    if StartsWith(s, prefix) { assert s == prefix + s[|prefix|..]; }
    if rest :| s == prefix + rest { assert s[..|prefix|] == prefix; }
  }

  lemma {:induction false} OneThenMore(a: char, rest: string)
    requires a as int < 0x80
    ensures Utf8Len([a] + rest) == 1 + Utf8Len(rest)
  {
    assert ([a] + rest)[1..] == rest;
  }

  lemma {:induction false} ThreeThenMore(a: char, b: char, c: char, rest: string)
    requires a as int < 0x80 && b as int < 0x80 && c as int < 0x80
    ensures Utf8Len([a, b, c] + rest) == 3 + Utf8Len(rest)
    ensures Utf8Len(rest) == 0 <==> rest == []
  {
    assert [a, b, c] + rest == [a] + ([b] + ([c] + rest));
    OneThenMore(a, [b] + ([c] + rest));
    OneThenMore(b, [c] + rest);
    OneThenMore(c, rest);
  }

  lemma {:induction false} DriveExactly(location: string)
    ensures OnDrive(location) <==> DriveText(location)
  {
    if |location| >= 3 && IsAlphabetic(location[0]) && location[1] == ':' && location[2] == '\\' {
      var rest := location[3..];
      assert location == [location[0]] + ":\\" + rest == [location[0], ':', '\\'] + rest;
      ThreeThenMore(location[0], ':', '\\', rest);
    }
    if drive, rest :| IsAlphabetic(drive) && rest != [] && location == [drive] + ":\\" + rest {
      assert location == [drive, ':', '\\'] + rest;
      ThreeThenMore(drive, ':', '\\', rest);
    }
  }

  lemma {:induction false} AnchoredExactly(location: string)
    ensures Anchored(location) <==> AnchoredText(location)
  {
    StartsExactly(location, "ldap:///");
    StartsExactly(location, "http://");
    StartsExactly(location, "https://");
    StartsExactly(location, "file://");
    StartsExactly(location, "\\\\");
    DriveExactly(location);
  }

  lemma ForbiddenExactly(c: char)
    ensures Forbidden(c) <==> ForbiddenCharacter(c)
  {
    var extra := "\"'`;$\n\r";
    assert extra[0] == '"' && extra[1] == '\'' && extra[2] == '`' && extra[3] == ';';
    assert extra[4] == '$' && extra[5] == '\n' && extra[6] == '\r';
  }

  lemma {:induction false} PlainExactly(location: string)
    ensures (forall c | c in location :: !Forbidden(c))
            <==> forall i | 0 <= i < |location| :: !ForbiddenCharacter(location[i])
  {
    forall c ensures Forbidden(c) <==> ForbiddenCharacter(c) { ForbiddenExactly(c); }
    if forall c | c in location :: !Forbidden(c) {
      forall i | 0 <= i < |location| ensures !ForbiddenCharacter(location[i]) { assert location[i] in location; }
    }
  }

  lemma {:induction false} FlagsExactly(flags: string)
    ensures FlagsOk(flags) <==> exists n: nat :: n <= 1023 && NumeralText(flags, n)
    ensures FlagsOk(flags) ==> ':' !in flags
  {
    if FlagsOk(flags) { NumeralExactly(flags, Number(flags)); }
    if n: nat :| n <= 1023 && NumeralText(flags, n) { NumeralExactly(flags, n); }
  }

  lemma {:induction false} AnchoredIsNotEmpty(location: string)
    requires AnchoredText(location)
    ensures location != []
  {
  }

  // An entry is accepted exactly if it is such a text.
  lemma {:induction false} EntryExactly(entry: string)
    ensures ValidPublicationEntry(entry) <==> EntryText(entry)
  {
    if ValidPublicationEntry(entry) {
      var (flags, location) := SplitOnce(entry, ':').value;
      FlagsExactly(flags);
      AnchoredExactly(location);
      PlainExactly(location);
      assert [':'] == ":";
      assert EntryOf(entry, flags, location);
    }
    if flags, location :| EntryOf(entry, flags, location) {
      EntryOfIsValid(entry, flags, location);
    }
  }

  lemma {:induction false} EntryOfIsValid(entry: string, flags: string, location: string)
    requires EntryOf(entry, flags, location)
    ensures ValidPublicationEntry(entry)
  {
    FlagsExactly(flags);
    AnchoredExactly(location);
    AnchoredIsNotEmpty(location);
    PlainExactly(location);
    assert [':'] == ":";
    SplitOnceAtFirst(flags, ':', location);
  }

  // ---- The argument and how certutil reads it ------------------------------

  predicate HasPair(s: string) {
    exists i :: 0 <= i < |s| - 1 && s[i] == '\\' && s[i + 1] == 'n'
  }

  function SplitPair(s: string): (parts: seq<string>)
    ensures parts != []
  {
    if s == [] then [[]]
    else if |s| >= 2 && s[0] == '\\' && s[1] == 'n' then [[]] + SplitPair(s[2..])
    else
      var rest := SplitPair(s[1..]);
      [[s[0]] + rest[0]] + rest[1..]
  }

  lemma {:induction false} PairSplitConcat(a: string, b: string)
    requires !HasPair(a)
    ensures SplitPair(a + PAIR + b) == [a] + SplitPair(b)
  {
    var s := a + PAIR + b;
    if a == [] {
      assert s[2..] == b;
    } else {
      assert s[1..] == a[1..] + PAIR + b;
      forall i | 0 <= i < |a[1..]| - 1 ensures !(a[1..][i] == '\\' && a[1..][i + 1] == 'n') {
        assert a[i + 1] == a[1..][i] && a[i + 2] == a[1..][i + 1];
      }
      PairSplitConcat(a[1..], b);
      assert |a| == 1 ==> s[1] == '\\';
      assert |a| > 1 ==> s[1] == a[1];
      assert !(s[0] == '\\' && s[1] == 'n');
      assert [s[0]] + a[1..] == a;
    }
  }

  lemma {:induction false} PairSplitSolid(a: string)
    requires !HasPair(a)
    ensures SplitPair(a) == [a]
  {
    if a != [] {
      forall i | 0 <= i < |a[1..]| - 1 ensures !(a[1..][i] == '\\' && a[1..][i + 1] == 'n') {
        assert a[i + 1] == a[1..][i] && a[i + 2] == a[1..][i + 1];
      }
      PairSplitSolid(a[1..]);
      assert [a[0]] + a[1..] == a;
    }
  }

  lemma {:induction false} FirstPieceIsPrefix(s: string)
    ensures SplitPair(s)[0] <= s
  {
    if s != [] && !(|s| >= 2 && s[0] == '\\' && s[1] == 'n') {
      FirstPieceIsPrefix(s[1..]);
      assert s == [s[0]] + s[1..];
    }
  }

  lemma {:induction false} PiecesHaveNoPair(s: string)
    ensures forall part | part in SplitPair(s) :: !HasPair(part)
  {
    if s == [] {
    } else if |s| >= 2 && s[0] == '\\' && s[1] == 'n' {
      PiecesHaveNoPair(s[2..]);
    } else {
      var rest := SplitPair(s[1..]);
      PiecesHaveNoPair(s[1..]);
      FirstPieceIsPrefix(s[1..]);
      assert rest[0] in rest;
      var first := [s[0]] + rest[0];
      forall i | 0 <= i < |first| - 1 ensures !(first[i] == '\\' && first[i + 1] == 'n') {
        if i == 0 {
          assert rest[0][0] == s[1..][0];
        } else {
          assert first[i] == rest[0][i - 1] && first[i + 1] == rest[0][i];
        }
      }
      assert SplitPair(s)[0] == first && SplitPair(s)[1..] == rest[1..];
    }
  }

  lemma {:induction false} JoinGrows(x: char, parts: seq<string>, separator: string)
    requires parts != []
    ensures Join([[x] + parts[0]] + parts[1..], separator) == [x] + Join(parts, separator)
  {
    var grown := [[x] + parts[0]] + parts[1..];
    assert grown[1..] == parts[1..];
    if |parts| > 1 {
      assert ([x] + parts[0]) + separator + Join(parts[1..], separator)
          == [x] + (parts[0] + separator + Join(parts[1..], separator));
    }
  }

  lemma {:induction false} JoinAfterEmpty(parts: seq<string>, separator: string)
    requires parts != []
    ensures Join([[]] + parts, separator) == separator + Join(parts, separator)
  {
    assert ([[]] + parts)[1..] == parts;
  }

  // Split at every separator: nothing is lost, and no piece holds one.
  lemma {:induction false} PairJoinSplit(s: string)
    ensures Join(SplitPair(s), PAIR) == s
  {
    if s == [] {
    } else if |s| >= 2 && s[0] == '\\' && s[1] == 'n' {
      PairJoinSplit(s[2..]);
      JoinAfterEmpty(SplitPair(s[2..]), PAIR);
      assert s == PAIR + s[2..];
    } else {
      PairJoinSplit(s[1..]);
      JoinGrows(s[0], SplitPair(s[1..]), PAIR);
      assert s == [s[0]] + s[1..];
    }
  }

  lemma {:induction false} PairSplitJoin(entries: seq<string>)
    requires entries != []
    requires forall e | e in entries :: !HasPair(e)
    ensures SplitPair(Join(entries, PAIR)) == entries
  {
    if |entries| == 1 {
      PairSplitSolid(entries[0]);
    } else {
      PairSplitJoin(entries[1..]);
      PairSplitConcat(entries[0], Join(entries[1..], PAIR));
    }
  }

  // certutil reads back exactly the entries if and only if none of them contains the
  // separator itself.
  lemma ListSurvivesExactly(entries: seq<string>)
    requires entries != []
    ensures SplitPair(Join(entries, PAIR)) == entries <==> forall e | e in entries :: !HasPair(e)
  {
    PiecesHaveNoPair(Join(entries, PAIR));
    if forall e | e in entries :: !HasPair(e) { PairSplitJoin(entries); }
  }

  lemma {:induction false} SplitOnceAtFirst(before: string, c: char, after: string)
    requires c !in before
    ensures SplitOnce(before + [c] + after, c) == Some((before, after))
  {
    var s := before + [c] + after;
    if before == [] {
      assert s[1..] == after;
    } else {
      assert s[1..] == before[1..] + [c] + after;
      SplitOnceAtFirst(before[1..], c, after);
      assert before[0] != c && [before[0]] + before[1..] == before;
    }
  }

  lemma ShareIsAnchored(location: string, host: string)
    requires location == ['\\', '\\'] + host
    ensures Anchored(location)
  {
    assert location[..2] == "\\\\";
  }

  lemma ShareLength(location: string, host: string)
    requires location == ['\\', '\\'] + host
    ensures Utf8Len(location) == 2 + Utf8Len(host)
    ensures (forall c | c in host :: !Forbidden(c)) ==> forall c | c in location :: !Forbidden(c)
  {
    assert location[1..] == ['\\'] + host && location[1..][1..] == host;
  }

  lemma ShareEntryIsValid(flags: string, location: string)
    requires FlagsOk(flags) && Anchored(location)
    requires location != [] && Utf8Len(location) <= MAX_LOCATION && forall c | c in location :: !Forbidden(c)
    ensures ValidPublicationEntry(flags + [':'] + location)
  {
    assert ':' !in flags;
    SplitOnceAtFirst(flags, ':', location);
  }

  lemma PairSplitsSingle(entry: string, i: nat)
    requires i < |entry| - 1 && entry[i] == '\\' && entry[i + 1] == 'n'
    ensures SplitPair(Join([entry], PAIR)) != [entry]
  {
    assert HasPair(entry) && entry in [entry];
    ListSurvivesExactly([entry]);
  }

  // Validation does not exclude such entries: every file share on a host whose name starts
  // with n is accepted, and certutil reads it as two entries.
  lemma ValidEntryCanBeSplit(flags: string, host: string)
    requires FlagsOk(flags)
    requires host != [] && host[0] == 'n' && Utf8Len(host) + 2 <= MAX_LOCATION
    requires forall c | c in host :: !Forbidden(c)
    ensures var entry := flags + [':'] + (['\\', '\\'] + host);
            ValidPublicationEntry(entry) && SplitPair(Join([entry], PAIR)) != [entry]
  {
    var location := ['\\', '\\'] + host;
    ShareIsAnchored(location, host);
    ShareLength(location, host);
    ShareEntryIsValid(flags, location);
    PairSplitsSingle(flags + [':'] + location, |flags| + 2);
  }

  // ---- The list parameter itself -------------------------------------------

  lemma {:induction false} TrimStartShape(s: string)
    ensures forall c | c in TrimStart(s) :: c in s
    ensures TrimStart(s) != [] ==> !IsWhitespace(TrimStart(s)[0])
  {
    if s != [] && IsWhitespace(s[0]) { TrimStartShape(s[1..]); }
  }

  lemma {:induction false} TrimEndShape(s: string)
    ensures TrimEnd(s) <= s
    ensures TrimEnd(s) != [] ==> !IsWhitespace(TrimEnd(s)[|TrimEnd(s)| - 1])
    decreases |s|
  {
    if s != [] && IsWhitespace(s[|s| - 1]) { TrimEndShape(s[..|s| - 1]); }
  }

  lemma TrimIsTrimmed(s: string)
    ensures Trim(Trim(s)) == Trim(s)
    ensures forall c | c in Trim(s) :: c in s
  {
    TrimStartShape(s);
    TrimEndShape(TrimStart(s));
    TrimKeeps(Trim(s));
  }

  predicate EntryShape(entry: string) {
    entry != [] && '\n' !in entry && Trim(entry) == entry
  }

  lemma {:induction false} EntriesShape(parts: seq<string>)
    requires forall part | part in parts :: '\n' !in part
    ensures forall e | e in TrimmedNonEmpty(parts) :: EntryShape(e)
  {
    if parts != [] {
      EntriesShape(parts[1..]);
      TrimIsTrimmed(parts[0]);
      assert parts[0] in parts;
    }
  }

  // A parameter's entries are those it was written with, whatever blanks stand around them
  // and however many lines are blank.
  function Padded(before: seq<string>, entries: seq<string>, after: seq<string>): seq<string>
    requires |before| == |entries| == |after|
  {
    if entries == [] then []
    else [before[0] + entries[0] + after[0]] + Padded(before[1..], entries[1..], after[1..])
  }

  function NonEmptyOnes(entries: seq<string>): seq<string> {
    if entries == [] then []
    else (if entries[0] == [] then [] else [entries[0]]) + NonEmptyOnes(entries[1..])
  }

  predicate Tight(entry: string) {
    entry != [] ==> !IsWhitespace(entry[0]) && !IsWhitespace(entry[|entry| - 1])
  }

  lemma {:induction false} PaddedTrims(before: seq<string>, entries: seq<string>, after: seq<string>)
    requires |before| == |entries| == |after|
    requires forall i | 0 <= i < |entries| :: Blank(before[i]) && Blank(after[i]) && Tight(entries[i])
    ensures TrimmedNonEmpty(Padded(before, entries, after)) == NonEmptyOnes(entries)
    decreases |entries|
  {
    if entries != [] {
      TrimExactly(before[0], entries[0], after[0]);
      PaddedTrims(before[1..], entries[1..], after[1..]);
      assert Padded(before, entries, after)[1..] == Padded(before[1..], entries[1..], after[1..]);
    }
  }

  lemma {:induction false} EntriesExactly(before: seq<string>, entries: seq<string>, after: seq<string>)
    requires |before| == |entries| == |after| && entries != []
    requires forall i | 0 <= i < |entries| :: Blank(before[i]) && Blank(after[i]) && Tight(entries[i])
    requires forall part | part in Padded(before, entries, after) :: '\n' !in part
    ensures Entries(Join(Padded(before, entries, after), ['\n'])) == NonEmptyOnes(entries)
  {
    SplitJoin(Padded(before, entries, after), '\n');
    PaddedTrims(before, entries, after);
  }

  lemma {:induction false} ShapedEntriesStay(entries: seq<string>)
    requires forall e | e in entries :: EntryShape(e)
    ensures TrimmedNonEmpty(entries) == entries
  {
    if entries != [] {
      assert EntryShape(entries[0]);
      ShapedEntriesStay(entries[1..]);
      assert entries == [entries[0]] + entries[1..];
    }
  }

  // The entries, joined with newlines and read again, are the same entries.
  lemma ListReadsBack(raw: string)
    ensures Entries(Join(Entries(raw), ['\n'])) == Entries(raw)
  {
    var entries := Entries(raw);
    SplitPieces(raw, '\n');
    EntriesShape(Split(raw, '\n'));
    if entries == [] {
      assert Trim([]) == [];
      assert Split([], '\n')[1..] == [];
    } else {
      forall e | e in entries ensures '\n' !in e { assert EntryShape(e); }
      SplitJoin(entries, '\n');
      ShapedEntriesStay(entries);
    }
  }

  // ---- What reaches the script ---------------------------------------------

  lemma ValidEntryIsInert(entry: string)
    requires ValidPublicationEntry(entry)
    ensures forall c | c in entry :: !Forbidden(c)
  {
    var (flags, location) := SplitOnce(entry, ':').value;
    forall c | c in entry ensures !Forbidden(c) {
      assert c in flags || c == ':' || c in location;
      if c in flags { assert IsDigit(c); }
    }
  }

  // No character of the joined argument can end or extend it.
  lemma {:induction false} ArgumentIsInert(entries: seq<string>)
    requires forall e | e in entries :: ValidPublicationEntry(e)
    ensures forall c | c in Join(entries, PAIR) :: !Forbidden(c)
  {
    if entries != [] {
      assert entries[0] in entries;
      ValidEntryIsInert(entries[0]);
      ArgumentIsInert(entries[1..]);
    }
  }

  // ---- The command ---------------------------------------------------------

  function Refusal(param: string, bad: string): CommandError {
    InvalidParam(param, "entry '" + bad + "' is not a flag-prefixed publication URL")
  }

  ghost predicate AllValid(entries: seq<string>) {
    forall i | 0 <= i < |entries| :: EntryText(entries[i])
  }

  ghost predicate IsFirstBad(entries: seq<string>, bad: string) {
    exists i :: 0 <= i < |entries| && entries[i] == bad && !EntryText(bad) && AllValid(entries[..i])
  }

  // The first entry that does not validate.
  method FindBad(entries: seq<string>) returns (bad: Option<string>)
    ensures bad.None? <==> AllValid(entries)
    ensures bad.Some? ==> IsFirstBad(entries, bad.value)
  {
    for i := 0 to |entries|
      invariant forall j | 0 <= j < i :: EntryText(entries[j])
    {
      EntryExactly(entries[i]);
      if !ValidPublicationEntry(entries[i]) {
        var front := entries[..i];
        assert forall j | 0 <= j < i :: front[j] == entries[j];
        return Some(entries[i]);
      }
    }
    bad := None;
  }

  // The two registry arrays of the certificate authority.
  datatype Arrays = Arrays(aia: seq<string>, cdp: seq<string>)

  // What certutil keeps for a list: its reading of the joined argument; an empty argument
  // leaves the array alone.
  function Stored(entries: seq<string>, before: seq<string>): seq<string> {
    if entries == [] then before else SplitPair(Join(entries, PAIR))
  }

  // The arrays after some of the script's three steps: the AIA array, the CDP array, then
  // the restart.
  function After(before: Arrays, aia: seq<string>, cdp: seq<string>, steps: nat): Arrays {
    Arrays(if steps >= 1 then Stored(aia, before.aia) else before.aia,
           if steps >= 2 then Stored(cdp, before.cdp) else before.cdp)
  }

  // Safe to re-run: wherever earlier runs of the same lists stopped, however many they
  // were, one run that completes leaves what it leaves on its own.
  lemma {:induction false} RerunsConverge(before: Arrays, aia: seq<string>, cdp: seq<string>, stops: seq<nat>)
    ensures After(Interrupted(before, aia, cdp, stops), aia, cdp, 3) == After(before, aia, cdp, 3)
    decreases |stops|
  {
    if stops != [] { RerunsConverge(After(before, aia, cdp, stops[0]), aia, cdp, stops[1..]); }
  }

  // A sequence of runs, each of which gets through so many steps.
  function Interrupted(before: Arrays, aia: seq<string>, cdp: seq<string>, stops: seq<nat>): Arrays
    decreases |stops|
  {
    if stops == [] then before
    else Interrupted(After(before, aia, cdp, stops[0]), aia, cdp, stops[1..])
  }

  class CertificateAuthority {
    var aia: seq<string>
    var cdp: seq<string>
    var tickets: set<string>       // the machine's cached Kerberos tickets
    var reports: seq<OpRunState>   // the progress frames, in order

    constructor (aia: seq<string>, cdp: seq<string>, tickets: set<string>)
      ensures this.aia == aia && this.cdp == cdp && this.tickets == tickets && reports == []
    {
      this.aia := aia;
      this.cdp := cdp;
      this.tickets := tickets;
      reports := [];
    }

    function Contents(): Arrays
      reads this`aia, this`cdp
    {
      Arrays(aia, cdp)
    }

    // Between the arrays and the restart the tickets are purged, if that works.
    method RunScript(aiaEntries: seq<string>, cdpEntries: seq<string>, steps: nat, purges: bool)
        returns (exited: bool)
      modifies this`aia, this`cdp, this`tickets
      ensures exited <==> steps >= 3
      ensures Contents() == After(old(Contents()), aiaEntries, cdpEntries, steps)
      ensures aia == if steps >= 1 && aiaEntries != [] then SplitPair(Join(aiaEntries, PAIR)) else old(aia)
      ensures cdp == if steps >= 2 && cdpEntries != [] then SplitPair(Join(cdpEntries, PAIR)) else old(cdp)
      ensures tickets == if steps >= 2 && purges then {} else old(tickets)
    {
      if steps >= 1 && aiaEntries != [] { aia := SplitPair(Join(aiaEntries, PAIR)); }
      if steps >= 2 && cdpEntries != [] { cdp := SplitPair(Join(cdpEntries, PAIR)); }
      if steps >= 2 && purges { tickets := {}; }
      exited := steps >= 3;
    }

    // Both lists are validated before either array is touched. On success an array whose
    // list is not empty holds exactly the entries, provided none contains the separator;
    // an array whose list is empty is untouched.
    method ConfigureCdpAia(aiaUrls: Option<string>, cdpUrls: Option<string>,
                           steps: nat, purges: bool, message: string)
        returns (r: Result<(seq<string>, seq<string>), CommandError>)
      modifies this
      ensures
        var a := if aiaUrls.Some? then Entries(aiaUrls.value) else [];
        var c := if cdpUrls.Some? then Entries(cdpUrls.value) else [];
        && (a == [] && c == [] ==> r == Err(MissingParam("aiaUrls or cdpUrls")))
        && (!AllValid(a) ==> exists bad :: IsFirstBad(a, bad) && r == Err(InvalidParam(
              "aiaUrls", "entry '" + bad + "' is not a flag-prefixed publication URL")))
        && (AllValid(a) && !AllValid(c) ==> exists bad :: IsFirstBad(c, bad) && r == Err(InvalidParam(
              "cdpUrls", "entry '" + bad + "' is not a flag-prefixed publication URL")))
        && (r.Err? && !r.error.Shell? ==> Contents() == old(Contents()) && tickets == old(tickets))
        && ((a != [] || c != []) && AllValid(a) && AllValid(c) ==>
              && r == (if steps >= 3 then Ok((a, c)) else Err(Shell(message)))
              && aia == (if steps >= 1 && a != [] then SplitPair(Join(a, PAIR)) else old(aia))
              && cdp == (if steps >= 2 && c != [] then SplitPair(Join(c, PAIR)) else old(cdp))
              && tickets == if steps >= 2 && purges then {} else old(tickets))
        && (r.Ok? ==>
              && (a == [] ==> aia == old(aia)) && (c == [] ==> cdp == old(cdp))
              && (a != [] ==> (aia == a <==> forall e | e in a :: !HasPair(e)))
              && (c != [] ==> (cdp == c <==> forall e | e in c :: !HasPair(e))))
      ensures old(reports) <= reports && ReportsDoneIffOk(reports[|old(reports)|..], r.Ok?)
    {
      var a := if aiaUrls.Some? then Entries(aiaUrls.value) else [];
      var c := if cdpUrls.Some? then Entries(cdpUrls.value) else [];
      if a == [] && c == [] { return Err(MissingParam("aiaUrls or cdpUrls")); }
      var bad := FindBad(a);
      if bad.Some? { return Err(Refusal("aiaUrls", bad.value)); }
      bad := FindBad(c);
      if bad.Some? { return Err(Refusal("cdpUrls", bad.value)); }
      r := Configure(a, c, steps, purges, message);
    }

    // What follows the checks.
    method Configure(a: seq<string>, c: seq<string>, steps: nat, purges: bool, message: string)
        returns (r: Result<(seq<string>, seq<string>), CommandError>)
      modifies this
      ensures r == if steps >= 3 then Ok((a, c)) else Err(Shell(message))
      ensures aia == if steps >= 1 && a != [] then SplitPair(Join(a, PAIR)) else old(aia)
      ensures cdp == if steps >= 2 && c != [] then SplitPair(Join(c, PAIR)) else old(cdp)
      ensures tickets == if steps >= 2 && purges then {} else old(tickets)
      ensures r.Ok? ==>
                && (a == [] ==> aia == old(aia)) && (c == [] ==> cdp == old(cdp))
                && (a != [] ==> (aia == a <==> forall e | e in a :: !HasPair(e)))
                && (c != [] ==> (cdp == c <==> forall e | e in c :: !HasPair(e)))
      ensures old(reports) <= reports && ReportsDoneIffOk(reports[|old(reports)|..], r.Ok?)
    {
      reports := reports + [InProgress("configuring CDP/AIA", 40.0)];
      var exited := RunScript(a, c, steps, purges);
      if !exited { return Err(Shell(message)); }
      if a != [] { ListSurvivesExactly(a); }
      if c != [] { ListSurvivesExactly(c); }
      reports := reports + [Completed(Join(a + c, PAIR))];
      r := Ok((a, c));
    }
  }
}
