// The managed hosts block of src/commands/certsecure.rs: the entries parser and the
// strip-then-append rewrite of /etc/hosts.
module Hosts {
  import opened Wrappers
  import opened Text
  import opened Util
  import opened Grammar
  import opened Numerals
  import opened Registry
  import opened Report

  const HOSTS_BEGIN: string := "# BEGIN pki-executor managed entries"
  const HOSTS_END: string := "# END pki-executor managed entries"

  datatype EntryError = NoAddress | NoHost | BadHostName | NoEntry

  function Refusal(error: EntryError): CommandError {
    InvalidParam("entries",
      match error
      case NoAddress => "each line must start with an IPv4 address"
      case NoHost => "each line must name at least one host"
      case BadHostName => "host names must be valid DNS names"
      case NoEntry => "must contain at least one entry")
  }

  // ---- The entries parser --------------------------------------------------

  predicate ValidOctet(octet: string) {
    octet != [] && |octet| <= 3 && AllDigits(octet) && Number(octet) <= 255
  }

  predicate ValidIpv4(value: string) {
    var octets := Split(value, '.');
    |octets| == 4 && forall octet | octet in octets :: ValidOctet(octet)
  }

  // The lines of a parameter: split at newlines, the empty last piece dropped, a carriage
  // return before a newline dropped too.
  function Lines(raw: string): seq<string> {
    var parts := Split(raw, '\n');
    var n := |parts| - 1;
    WithoutReturns(parts[..n]) + if parts[n] == [] then [] else [parts[n]]
  }

  function WithoutReturns(lines: seq<string>): seq<string> {
    if lines == [] then []
    else
      var line := lines[0];
      [if line != [] && line[|line| - 1] == '\r' then line[..|line| - 1] else line] + WithoutReturns(lines[1..])
  }

  // One line: skipped, refused, or normalised to single spaces.
  function CheckLine(line: string): Result<Option<string>, EntryError> {
    var trimmed := Trim(line);
    if trimmed == [] then Ok(None)
    else
      var fields := Fields(trimmed);
      var ip := if fields == [] then [] else fields[0];
      var names := if fields == [] then [] else fields[1..];
      if !ValidIpv4(ip) then Err(NoAddress)
      else if names == [] then Err(NoHost)
      else if exists name | name in names :: !ValidDnsName(name) then Err(BadHostName)
      else Ok(Some(ip + " " + Join(names, " ")))
  }

  function Listed(row: Option<string>): seq<string> {
    if row.Some? then [row.value] else []
  }

  // What a parse is, from what the lines so far gave and what is left.
  function Continued(lines: seq<string>, rest: Result<seq<string>, EntryError>): Result<seq<string>, EntryError> {
    if rest.Ok? then Ok(lines + rest.value) else rest
  }

  function ParseLines(lines: seq<string>): Result<seq<string>, EntryError> {
    if lines == [] then Ok([])
    else
      match CheckLine(lines[0])
      case Err(error) => Err(error)
      case Ok(row) => Continued(Listed(row), ParseLines(lines[1..]))
  }

  function ParseHostsEntries(raw: string): Result<string, EntryError> {
    match ParseLines(Lines(raw))
    case Err(error) => Err(error)
    case Ok(rows) => if rows == [] then Err(NoEntry) else Ok(Join(rows, "\n"))
  }

  method ParseLine(line: string) returns (row: Result<Option<string>, EntryError>)
    ensures row == CheckLine(line)
  {
    var trimmed := Trim(line);
    if trimmed == [] { return Ok(None); }
    var fields := Fields(trimmed);
    var ip := if fields == [] then [] else fields[0];
    if !ValidIpv4(ip) { return Err(NoAddress); }
    var names := if fields == [] then [] else fields[1..];
    if names == [] { return Err(NoHost); }
    if exists name | name in names :: !ValidDnsName(name) { return Err(BadHostName); }
    row := Ok(Some(ip + " " + Join(names, " ")));
  }

  // ---- ... and what it amounts to ------------------------------------------

  // The decimal of a number up to 255, filled up with zeros to three digits at most.
  ghost predicate OctetText(s: string) {
    |s| <= 3 && exists n: nat :: n <= 255 && NumeralText(s, n)
  }

  ghost predicate QuadOf(text: string, octets: seq<string>) {
    |octets| == 4 && (forall i | 0 <= i < 4 :: OctetText(octets[i])) && text == Join(octets, ".")
  }

  ghost predicate QuadText(text: string) {
    exists octets :: QuadOf(text, octets)
  }

  lemma {:induction false} OctetExactly(s: string)
    ensures ValidOctet(s) <==> OctetText(s)
    ensures OctetText(s) ==> '.' !in s
  {
    if ValidOctet(s) { NumeralExactly(s, Number(s)); }
    if n: nat :| n <= 255 && NumeralText(s, n) { NumeralExactly(s, n); }
  }

  // An address is accepted exactly if it is four such numbers joined by dots.
  lemma {:induction false} Ipv4Exactly(text: string)
    ensures ValidIpv4(text) <==> QuadText(text)
  {
    if ValidIpv4(text) {
      var octets := Split(text, '.');
      JoinSplit(text, '.');
      assert ['.'] == ".";
      forall i | 0 <= i < 4 ensures OctetText(octets[i]) {
        assert octets[i] in octets;
        OctetExactly(octets[i]);
      }
      assert QuadOf(text, octets);
    }
    if octets :| QuadOf(text, octets) { QuadIsIpv4(text, octets); }
  }

  lemma {:induction false} QuadIsIpv4(text: string, octets: seq<string>)
    requires QuadOf(text, octets)
    ensures ValidIpv4(text)
  {
    forall i | 0 <= i < 4 ensures ValidOctet(octets[i]) && '.' !in octets[i] { OctetExactly(octets[i]); }
    SplitJoin(octets, '.');
    assert ['.'] == ".";
    forall octet | octet in octets ensures ValidOctet(octet) {
      var i :| 0 <= i < 4 && octets[i] == octet;
    }
  }

  lemma {:induction false} ShortDecimal(n: nat)
    requires n <= 255
    ensures OctetText(Decimal(n))
  {
    assert n / 10 <= 25 && n / 10 / 10 <= 2;
    assert |Decimal(n / 10 / 10)| == 1;
    assert |Decimal(n / 10)| <= 2;
    assert Decimal(n) == Zeros(0) + Decimal(n);
    assert NumeralText(Decimal(n), n);
  }

  lemma {:induction false} DottedIsQuad(value: nat)
    requires value < 0x1_0000_0000
    ensures QuadText(Dotted(value))
  {
    var a, b, c, d := value / 0x100_0000, value / 0x1_0000 % 0x100, value / 0x100 % 0x100, value % 0x100;
    ShortDecimal(a);
    ShortDecimal(b);
    ShortDecimal(c);
    ShortDecimal(d);
    assert QuadOf(Dotted(value), [Decimal(a), Decimal(b), Decimal(c), Decimal(d)]);
  }

  // An address and at least one host name, as texts.
  ghost predicate GoodRow(row: seq<string>) {
    |row| >= 2 && QuadText(row[0]) && forall i | 1 <= i < |row| :: DnsNameText(row[i])
  }

  ghost predicate GoodRows(rows: seq<seq<string>>) {
    forall i | 0 <= i < |rows| :: GoodRow(rows[i])
  }

  // Which error a row that is not good gets.
  ghost predicate BadRow(row: seq<string>, error: EntryError) {
    match error
    case NoAddress => row == [] || !QuadText(row[0])
    case NoHost => |row| == 1 && QuadText(row[0])
    case BadHostName => |row| >= 2 && QuadText(row[0]) && !GoodRow(row)
    case NoEntry => false
  }

  lemma {:induction false} RowExactly(row: seq<string>)
    ensures ValidRow(row) <==> GoodRow(row)
  {
    if |row| >= 2 {
      Ipv4Exactly(row[0]);
      forall i | 1 <= i < |row| ensures ValidDnsName(row[i]) <==> DnsNameText(row[i]) { DnsNameExactly(row[i]); }
      var names := row[1..];
      if ValidRow(row) {
        forall i | 1 <= i < |row| ensures ValidDnsName(row[i]) { assert names[i - 1] in names; }
      }
      if GoodRow(row) {
        forall name | name in names ensures ValidDnsName(name) {
          var i :| 0 <= i < |names| && names[i] == name;
          assert row[i + 1] == name;
        }
      }
    }
  }

  lemma {:induction false} RowsExactly(rows: seq<seq<string>>)
    ensures AllValid(rows) <==> GoodRows(rows)
  {
    forall i | 0 <= i < |rows| ensures ValidRow(rows[i]) <==> GoodRow(rows[i]) { RowExactly(rows[i]); }
    if AllValid(rows) {
      forall i | 0 <= i < |rows| ensures GoodRow(rows[i]) { assert rows[i] in rows; }
    }
  }

  lemma {:induction false} LineError(line: string)
    requires CheckLine(line).Err?
    ensures Trim(line) != [] && BadRow(Fields(Trim(line)), CheckLine(line).error)
  {
    var row := Fields(Trim(line));
    if row != [] { Ipv4Exactly(row[0]); }
    LineByRow(line);
    RowExactly(row);
  }

  ghost predicate BadRowAt(rows: seq<seq<string>>, error: EntryError, i: nat) {
    i < |rows| && BadRow(rows[i], error) && GoodRows(rows[..i])
  }

  // The error is that of the first row that is not good, or that there is none.
  ghost predicate FirstBadRow(rows: seq<seq<string>>, error: EntryError) {
    if rows == [] then error == NoEntry else exists i: nat :: BadRowAt(rows, error, i)
  }

  lemma {:induction false} BadRowFirst(row: seq<string>, rest: seq<seq<string>>, error: EntryError)
    requires BadRow(row, error)
    ensures BadRowAt([row] + rest, error, 0)
  {
    assert ([row] + rest)[..0] == [];
  }

  lemma {:induction false} BadRowLater(row: seq<string>, rest: seq<seq<string>>, error: EntryError, i: nat)
    requires GoodRow(row) && BadRowAt(rest, error, i)
    ensures BadRowAt([row] + rest, error, i + 1)
  {
    var front := ([row] + rest)[..i + 1];
    assert front == [row] + rest[..i];
    assert ([row] + rest)[i + 1] == rest[i];
    forall j | 0 <= j < i + 1 ensures GoodRow(front[j]) {
      if j > 0 { assert front[j] == rest[..i][j - 1]; }
    }
  }

  lemma {:induction false} LinesError(lines: seq<string>) returns (i: nat)
    requires ParseLines(lines).Err?
    ensures BadRowAt(RowsOf(lines), ParseLines(lines).error, i)
  {
    var rest := RowsOf(lines[1..]);
    var row := Fields(Trim(lines[0]));
    if CheckLine(lines[0]).Err? {
      LineError(lines[0]);
      BadRowFirst(row, rest, ParseLines(lines).error);
      i := 0;
    } else {
      var later := LinesError(lines[1..]);
      if Trim(lines[0]) == [] {
        assert [] + rest == rest;
        i := later;
      } else {
        LineByRow(lines[0]);
        RowExactly(row);
        BadRowLater(row, rest, ParseLines(lines).error, later);
        i := later + 1;
      }
    }
  }

  // What the parser does, told by the rows: it accepts exactly good ones, and otherwise
  // names the first fault.
  lemma {:induction false} ParsedExactly(raw: string)
    ensures ParseHostsEntries(raw).Ok? <==> Rows(raw) != [] && GoodRows(Rows(raw))
    ensures ParseHostsEntries(raw).Ok? ==> ParseHostsEntries(raw).value == Join(Render(Rows(raw)), "\n")
    ensures ParseHostsEntries(raw).Err? ==> FirstBadRow(Rows(raw), ParseHostsEntries(raw).error)
  {
    AcceptedByRows(raw);
    RowsExactly(Rows(raw));
    if ParseLines(Lines(raw)).Err? {
      var i := LinesError(Lines(raw));
    } else if ParseHostsEntries(raw).Err? {
      ParseByRows(Lines(raw));
      RenderSize(Rows(raw));
    }
  }

  // The text that goes with each fault.
  ghost predicate EntryRefusals<T>(rows: seq<seq<string>>, r: Result<T, CommandError>) {
    && (FirstBadRow(rows, NoAddress) ==>
          r == Err(InvalidParam("entries", "each line must start with an IPv4 address")))
    && (FirstBadRow(rows, NoHost) ==> r == Err(InvalidParam("entries", "each line must name at least one host")))
    && (FirstBadRow(rows, BadHostName) ==> r == Err(InvalidParam("entries", "host names must be valid DNS names")))
    && (FirstBadRow(rows, NoEntry) ==> r == Err(InvalidParam("entries", "must contain at least one entry")))
  }

  lemma {:induction false} FirstBadRowIsOne(rows: seq<seq<string>>, one: EntryError, other: EntryError)
    requires FirstBadRow(rows, one) && FirstBadRow(rows, other)
    ensures one == other && (rows == [] || !GoodRows(rows))
  {
    if rows != [] {
      var i: nat :| BadRowAt(rows, one, i);
      var j: nat :| BadRowAt(rows, other, j);
      GoodUpTo(rows, i);
      GoodUpTo(rows, j);
    }
  }

  lemma {:induction false} GoodUpTo(rows: seq<seq<string>>, n: nat)
    requires n <= |rows|
    ensures GoodRows(rows[..n]) <==> forall k | 0 <= k < n :: GoodRow(rows[k])
  {
    var front := rows[..n];
    assert forall k | 0 <= k < n :: front[k] == rows[k];
  }

  lemma {:induction false} RefusalFits(raw: string, r: Result<(nat, nat), CommandError>)
    requires ParseHostsEntries(raw).Err? && r == Err(Refusal(ParseHostsEntries(raw).error))
    ensures EntryRefusals(Rows(raw), r)
  {
    ParsedExactly(raw);
    var error := ParseHostsEntries(raw).error;
    forall other | FirstBadRow(Rows(raw), other) ensures other == error {
      FirstBadRowIsOne(Rows(raw), error, other);
    }
  }

  lemma {:induction false} GoodHasNoFault(rows: seq<seq<string>>)
    requires rows != [] && GoodRows(rows)
    ensures forall error :: !FirstBadRow(rows, error)
  {
    forall error ensures !FirstBadRow(rows, error) {
      if FirstBadRow(rows, error) { FirstBadRowIsOne(rows, error, error); }
    }
  }

  lemma {:induction false} RenderSize(rows: seq<seq<string>>)
    ensures |Render(rows)| == |rows|
  {
    if rows != [] { RenderSize(rows[1..]); }
  }

  // An entry as one would write it: a 32-bit address in decimal, and names.
  lemma {:induction false} PlainEntryIsItsOwnBlock(value: nat, names: seq<string>)
    requires value < 0x1_0000_0000 && names != []
    requires forall i | 0 <= i < |names| :: DnsNameText(names[i])
    ensures var entry := Dotted(value) + " " + Join(names, " "); ParseHostsEntries(entry) == Ok(entry)
  {
    var row := [Dotted(value)] + names;
    DottedIsQuad(value);
    forall i | 1 <= i < |row| ensures DnsNameText(row[i]) { assert row[i] == names[i - 1]; }
    RowExactly(row);
    assert row[1..] == names;
    assert Join(row, " ") == Dotted(value) + " " + Join(names, " ");
    OneRowIsAccepted(row);
  }

  // What lines a text has: each ended by a newline, with or without a carriage return, and
  // perhaps one more that is not ended.
  function Ended(lines: seq<string>, crs: seq<bool>): string
    requires |lines| == |crs|
  {
    if lines == [] then [] else LineWithEnd(lines[0], crs[0]) + ['\n'] + Ended(lines[1..], crs[1..])
  }

  function LineWithEnd(line: string, cr: bool): string {
    line + if cr then ['\r'] else []
  }

  predicate EndsPlainly(line: string, cr: bool) {
    '\n' !in line && (!cr && line != [] ==> line[|line| - 1] != '\r')
  }

  lemma WithoutReturn(line: string, cr: bool, rest: seq<string>)
    requires EndsPlainly(line, cr)
    ensures WithoutReturns([LineWithEnd(line, cr)] + rest) == [line] + WithoutReturns(rest)
  {
    var first := LineWithEnd(line, cr);
    assert ([first] + rest)[1..] == rest;
    if cr { assert first[..|first| - 1] == line; } else { assert first == line; }
  }

  lemma {:induction false} SplitEnded(lines: seq<string>, crs: seq<bool>, last: string)
    requires |lines| == |crs| && '\n' !in last
    requires forall i | 0 <= i < |lines| :: EndsPlainly(lines[i], crs[i])
    ensures Tail(Ended(lines, crs) + last) == last
    ensures WithoutReturns(Whole(Ended(lines, crs) + last)) == lines
    decreases |lines|
  {
    if lines == [] {
      NoWholeLine(last);
      assert Ended(lines, crs) + last == last;
    } else {
      var first := LineWithEnd(lines[0], crs[0]);
      var later := Ended(lines[1..], crs[1..]) + last;
      assert Ended(lines, crs) + last == first + ['\n'] + later;
      SplitEnded(lines[1..], crs[1..], last);
      LineFirst(first, later);
      WithoutReturn(lines[0], crs[0], Whole(later));
      assert [lines[0]] + lines[1..] == lines;
    }
  }

  // The lines of a text are those it was made of.
  lemma {:induction false} LinesExactly(lines: seq<string>, crs: seq<bool>, last: string)
    requires |lines| == |crs| && '\n' !in last
    requires forall i | 0 <= i < |lines| :: EndsPlainly(lines[i], crs[i])
    ensures Lines(Ended(lines, crs) + last) == lines + if last == [] then [] else [last]
  {
    SplitEnded(lines, crs, last);
    LinesAndTail(Ended(lines, crs) + last);
  }

  lemma ContinuedTwice(a: seq<string>, b: seq<string>, rest: Result<seq<string>, EntryError>)
    ensures Continued(a, Continued(b, rest)) == Continued(a + b, rest)
    ensures Continued([], rest) == rest
  {
    if rest.Ok? {
      assert a + (b + rest.value) == a + b + rest.value;
      assert [] + rest.value == rest.value;
    }
  }

  // The loop itself: the first bad line decides the error.
  method ParseEntries(raw: string) returns (block: Result<string, EntryError>)
    ensures block == ParseHostsEntries(raw)
    ensures block.Ok? <==> Rows(raw) != [] && GoodRows(Rows(raw))
    ensures block.Ok? ==> block.value == Join(Render(Rows(raw)), "\n")
    ensures block.Err? ==> FirstBadRow(Rows(raw), block.error)
  {
    ParsedExactly(raw);
    var input := Lines(raw);
    var lines: seq<string> := [];
    assert input[0..] == input;
    ContinuedTwice([], [], ParseLines(input));
    for i := 0 to |input|
      invariant ParseLines(input) == Continued(lines, ParseLines(input[i..]))
    {
      var row := ParseLine(input[i]);
      assert input[i..][0] == input[i] && input[i..][1..] == input[i + 1..];
      if row.Err? { return Err(row.error); }
      ContinuedTwice(lines, Listed(row.value), ParseLines(input[i + 1..]));
      lines := lines + Listed(row.value);
    }
    assert input[|input|..] == [];
    assert lines + [] == lines;
    if lines == [] { return Err(NoEntry); }
    block := Ok(Join(lines, "\n"));
  }

  // ---- What the parser guarantees ------------------------------------------

  // The meaning of an entries text: the fields of its non-blank lines.
  function RowsOf(lines: seq<string>): seq<seq<string>> {
    if lines == [] then []
    else (if Trim(lines[0]) == [] then [] else [Fields(Trim(lines[0]))]) + RowsOf(lines[1..])
  }

  function Rows(raw: string): seq<seq<string>> {
    RowsOf(Lines(raw))
  }

  // An address and at least one host name.
  predicate ValidRow(row: seq<string>) {
    |row| >= 2 && ValidIpv4(row[0]) && forall name | name in row[1..] :: ValidDnsName(name)
  }

  function Render(rows: seq<seq<string>>): seq<string> {
    if rows == [] then [] else [Join(rows[0], " ")] + Render(rows[1..])
  }

  lemma LineByRow(line: string)
    ensures var trimmed := Trim(line);
            if trimmed == [] then CheckLine(line) == Ok(None)
            else if ValidRow(Fields(trimmed)) then CheckLine(line) == Ok(Some(Join(Fields(trimmed), " ")))
            else CheckLine(line).Err?
  {
    var fields := Fields(Trim(line));
    if Trim(line) != [] && ValidRow(fields) {
      assert Join(fields, " ") == fields[0] + " " + Join(fields[1..], " ");
    }
  }

  ghost predicate AllValid(rows: seq<seq<string>>) {
    forall row | row in rows :: ValidRow(row)
  }

  lemma {:induction false} ParseByRows(lines: seq<string>)
    ensures var rows := RowsOf(lines);
            if AllValid(rows) then ParseLines(lines) == Ok(Render(rows)) else ParseLines(lines).Err?
  {
    if lines != [] {
      LineByRow(lines[0]);
      ParseByRows(lines[1..]);
      var rest := RowsOf(lines[1..]);
      if Trim(lines[0]) != [] {
        RenderCons(Fields(Trim(lines[0])), rest);
      } else {
        assert RowsOf(lines) == [] + rest == rest;
        assert [] + Render(rest) == Render(rest);
      }
    }
  }

  lemma RenderCons(row: seq<string>, rest: seq<seq<string>>)
    ensures Render([row] + rest) == [Join(row, " ")] + Render(rest)
    ensures AllValid([row] + rest) <==> ValidRow(row) && AllValid(rest)
  {
    assert ([row] + rest)[1..] == rest;
    assert row in [row] + rest;
    assert forall r | r in rest :: r in [row] + rest;
  }

  // A text is accepted exactly when it has rows and each is an address with valid host
  // names; what comes out is those rows, single-spaced.
  lemma AcceptedByRows(raw: string)
    ensures ParseHostsEntries(raw).Ok? <==> Rows(raw) != [] && AllValid(Rows(raw))
    ensures ParseHostsEntries(raw).Ok? ==> ParseHostsEntries(raw).value == Join(Render(Rows(raw)), "\n")
  {
    ParseByRows(Lines(raw));
  }

  // A rendered row starts with a digit and holds no control character.
  lemma RowText(row: seq<string>)
    requires ValidRow(row)
    ensures forall f | f in row :: Solid(f)
    ensures var s := Join(row, " ");
            && s != [] && IsDigit(s[0]) && '\n' !in s && '\r' !in s && s[|s| - 1] != '\r'
            && Trim(s) == s && Fields(s) == row
  {
    Ipv4Characters(row[0]);
    forall f | f in row ensures Solid(f) && '\n' !in f && '\r' !in f {
      if f != row[0] {
        assert f in row[1..];
        DnsNameCharacters(f);
      }
    }
    FieldsOfJoined(row);
    JoinedEnds(row);
    TrimKeeps(Join(row, " "));
    JoinedCharacters(row, '\n');
    JoinedCharacters(row, '\r');
  }

  lemma Ipv4Characters(value: string)
    requires ValidIpv4(value)
    ensures Solid(value) && IsDigit(value[0])
    ensures forall c | c in value :: IsDigit(c) || c == '.'
  {
    var octets := Split(value, '.');
    forall c | c in value ensures IsDigit(c) || c == '.' {
      if c != '.' {
        SplitCovers(value, '.', c);
        var octet :| octet in octets && c in octet;
        assert ValidOctet(octet);
      }
    }
    var first := octets[0];
    assert ValidOctet(first);
    assert value != [];
    assert value[0] == '.' ==> first == [];
    assert value[0] in value;
  }

  lemma {:induction false} JoinedCharacters(fields: seq<string>, x: char)
    requires x != ' ' && forall f | f in fields :: x !in f
    ensures x !in Join(fields, " ")
  {
    if fields != [] {
      assert fields[0] in fields;
      if |fields| > 1 { JoinedCharacters(fields[1..], x); }
    }
  }

  lemma {:induction false} RenderedRows(rows: seq<seq<string>>)
    requires AllValid(rows)
    ensures forall line | line in Render(rows) :: line != [] && IsDigit(line[0]) && '\n' !in line
    ensures WithoutReturns(Render(rows)) == Render(rows)
    ensures RowsOf(Render(rows)) == rows
    ensures |Render(rows)| == |rows|
  {
    if rows != [] {
      assert rows[0] in rows;
      RowText(rows[0]);
      RenderedRows(rows[1..]);
      assert Render(rows)[1..] == Render(rows[1..]);
    }
  }

  lemma {:induction false} WithoutReturnsConcat(a: seq<string>, b: seq<string>)
    ensures WithoutReturns(a + b) == WithoutReturns(a) + WithoutReturns(b)
  {
    if a == [] {
      assert a + b == b;
    } else {
      assert (a + b)[1..] == a[1..] + b;
      WithoutReturnsConcat(a[1..], b);
    }
  }

  // Rendered rows survive being written out and split into lines again.
  lemma RenderedLines(rows: seq<seq<string>>)
    requires rows != [] && AllValid(rows)
    ensures var block := Join(Render(rows), "\n");
            Split(block, '\n') == Render(rows) && Lines(block) == Render(rows)
  {
    var text := Render(rows);
    var n := |rows| - 1;
    RenderedRows(rows);
    SplitJoin(text, '\n');
    assert text[n] in text;
    assert text == text[..n] + [text[n]];
    WithoutReturnsConcat(text[..n], [text[n]]);
    WithoutReturnsLength(text[..n]);
    WithoutReturnsLength([text[n]]);
    assert WithoutReturns(text[..n]) == text[..n];
  }

  // The parser is a normaliser: its output is accepted, is its own parse, and means what
  // the input meant, row by row.
  lemma ParserNormalises(raw: string)
    requires ParseHostsEntries(raw).Ok?
    ensures var block := ParseHostsEntries(raw).value;
            ParseHostsEntries(block) == Ok(block) && Rows(block) == Rows(raw)
  {
    AcceptedByRows(raw);
    RenderedLines(Rows(raw));
    RenderedRows(Rows(raw));
    AcceptedByRows(ParseHostsEntries(raw).value);
  }

  lemma {:induction false} WithoutReturnsLength(lines: seq<string>)
    ensures |WithoutReturns(lines)| == |lines|
  {
    if lines != [] { WithoutReturnsLength(lines[1..]); }
  }

  // What the rewrite relies on: no line of a block is a marker.
  lemma BlockLinesAreNoMarkers(raw: string)
    requires ParseHostsEntries(raw).Ok?
    ensures var lines := Split(ParseHostsEntries(raw).value, '\n');
            MARKERS.begin !in lines && MARKERS.end !in lines
  {
    AcceptedByRows(raw);
    RenderedRows(Rows(raw));
    RenderedLines(Rows(raw));
  }

  // ---- The rewrite ---------------------------------------------------------

  // The script's first two arguments.
  datatype Markers = Markers(begin: string, end: string)

  const MARKERS: Markers := Markers(HOSTS_BEGIN, HOSTS_END)

  ghost predicate Proper(m: Markers) {
    m.begin != m.end && m.begin != [] && '\n' !in m.begin && '\n' !in m.end
  }

  lemma MarkersAreProper()
    ensures Proper(MARKERS)
  {
    MarkersAreLines();
    MarkersDiffer();
  }

  lemma MarkersAreLines()
    ensures '\n' !in HOSTS_BEGIN && '\n' !in HOSTS_END
  {
  }

  lemma MarkersDiffer()
    ensures HOSTS_BEGIN != HOSTS_END
  {
    assert HOSTS_BEGIN[2] != HOSTS_END[2];
  }

  // sed's range delete, begin line to end line: an open range runs to the end of the file.
  function Sed(m: Markers, lines: seq<string>, inRange: bool): seq<string> {
    if lines == [] then []
    else if inRange then Sed(m, lines[1..], lines[0] != m.end)
    else if lines[0] == m.begin then Sed(m, lines[1..], true)
    else [lines[0]] + Sed(m, lines[1..], false)
  }

  // Whether the range is still open after these lines.
  function Open(m: Markers, lines: seq<string>, inRange: bool): bool {
    if lines == [] then inRange
    else Open(m, lines[1..], if inRange then lines[0] != m.end else lines[0] == m.begin)
  }

  function Unlines(lines: seq<string>): string {
    if lines == [] then [] else lines[0] + "\n" + Unlines(lines[1..])
  }

  // The terminated lines of a text, and what follows the last newline.
  function Whole(text: string): seq<string> {
    var parts := Split(text, '\n');
    parts[..|parts| - 1]
  }

  function Tail(text: string): string {
    var parts := Split(text, '\n');
    parts[|parts| - 1]
  }

  // A last line without a newline that sed keeps.
  predicate Dangling(m: Markers, text: string) {
    Tail(text) != [] && !Open(m, Whole(text), false) && Tail(text) != m.begin
  }

  // The output of sed: kept lines keep their newline or the lack of one.
  function Strip(m: Markers, text: string): string {
    Unlines(Sed(m, Whole(text), false)) + if Dangling(m, text) then Tail(text) else []
  }

  function Rewrite(m: Markers, text: string, block: string): string {
    Strip(m, text) + m.begin + "\n" + block + "\n" + m.end + "\n"
  }

  lemma {:induction false} SedConcat(m: Markers, a: seq<string>, b: seq<string>, inRange: bool)
    ensures Sed(m, a + b, inRange) == Sed(m, a, inRange) + Sed(m, b, Open(m, a, inRange))
    ensures Open(m, a + b, inRange) == Open(m, b, Open(m, a, inRange))
  {
    if a == [] {
      assert a + b == b;
    } else {
      assert (a + b)[1..] == a[1..] + b;
      SedConcat(m, a[1..], b, if inRange then a[0] != m.end else a[0] == m.begin);
    }
  }

  // A line stands in an open range: after a begin line, with no end line in between.
  ghost predicate InRange(m: Markers, lines: seq<string>, i: nat)
    requires i <= |lines|
  {
    exists j :: 0 <= j < i && lines[j] == m.begin && forall k | j < k < i :: lines[k] != m.end
  }

  ghost predicate Deleted(m: Markers, lines: seq<string>, i: nat)
    requires i < |lines|
  {
    lines[i] == m.begin || InRange(m, lines, i)
  }

  lemma {:induction false} InRangeStep(m: Markers, lines: seq<string>, n: nat)
    requires n < |lines| && m.begin != m.end
    ensures InRange(m, lines, n + 1) <==> lines[n] == m.begin || (InRange(m, lines, n) && lines[n] != m.end)
  {
    if InRange(m, lines, n + 1) && lines[n] != m.begin {
      var j :| 0 <= j < n + 1 && lines[j] == m.begin && forall k | j < k < n + 1 :: lines[k] != m.end;
      assert j < n && lines[n] != m.end;
    }
  }

  lemma {:induction false} SedLast(m: Markers, lines: seq<string>, n: nat)
    requires n < |lines|
    ensures var open := Open(m, lines[..n], false);
            && Open(m, lines[..n + 1], false) == (if open then lines[n] != m.end else lines[n] == m.begin)
            && Sed(m, lines[..n + 1], false) ==
               Sed(m, lines[..n], false) + if open || lines[n] == m.begin then [] else [lines[n]]
  {
    assert lines[..n + 1] == lines[..n] + [lines[n]];
    SedConcat(m, lines[..n], [lines[n]], false);
    assert [lines[n]][1..] == [];
  }

  lemma {:induction false} OpenExactly(m: Markers, lines: seq<string>, n: nat)
    requires n <= |lines| && m.begin != m.end
    ensures Open(m, lines[..n], false) <==> InRange(m, lines, n)
  {
    if n > 0 {
      OpenExactly(m, lines, n - 1);
      InRangeStep(m, lines, n - 1);
      SedLast(m, lines, n - 1);
    }
  }

  // The lines at the increasing positions `at` are those of the first n that are not deleted.
  ghost predicate KeptAt(m: Markers, lines: seq<string>, n: nat, kept: seq<string>, at: seq<nat>)
    requires n <= |lines|
  {
    && |kept| == |at|
    && (forall k | 0 <= k < |at| :: at[k] < n && kept[k] == lines[at[k]])
    && (forall k | 1 <= k < |at| :: at[k - 1] < at[k])
    && (forall i | 0 <= i < n :: i in at <==> !Deleted(m, lines, i))
  }

  lemma {:induction false} KeptOneMore(m: Markers, lines: seq<string>, n: nat, kept: seq<string>, at: seq<nat>)
    requires n < |lines| && KeptAt(m, lines, n, kept, at)
    ensures Deleted(m, lines, n) ==> KeptAt(m, lines, n + 1, kept, at)
    ensures !Deleted(m, lines, n) ==> KeptAt(m, lines, n + 1, kept + [lines[n]], at + [n])
  {
    if Deleted(m, lines, n) {
      forall i | 0 <= i < n + 1 ensures i in at <==> !Deleted(m, lines, i) {}
    } else {
      var at' := at + [n];
      forall i | 0 <= i < n + 1 ensures i in at' <==> !Deleted(m, lines, i) {
        assert i in at' <==> i in at || i == n;
      }
    }
  }

  lemma {:induction false} SedExactly(m: Markers, lines: seq<string>, n: nat) returns (at: seq<nat>)
    requires n <= |lines| && m.begin != m.end
    ensures KeptAt(m, lines, n, Sed(m, lines[..n], false), at)
  {
    at := [];
    if n > 0 {
      var before := SedExactly(m, lines, n - 1);
      SedLast(m, lines, n - 1);
      OpenExactly(m, lines, n - 1);
      var kept := Sed(m, lines[..n - 1], false);
      KeptOneMore(m, lines, n - 1, kept, before);
      if Deleted(m, lines, n - 1) {
        assert kept + [] == kept;
        at := before;
      } else {
        at := before + [n - 1];
      }
    }
  }

  // The rewrite's first half, for every text: its lines are those sed keeps, in order, and
  // an unterminated last line is kept on the same terms.
  lemma {:induction false} StripExactly(m: Markers, text: string) returns (kept: seq<string>, at: seq<nat>)
    requires m.begin != m.end
    ensures var lines, tail := Whole(text), Tail(text);
            && text == Unlines(lines) + tail
            && '\n' !in tail && (forall i | 0 <= i < |lines| :: '\n' !in lines[i])
            && KeptAt(m, lines, |lines|, kept, at)
            && (Dangling(m, text) <==> tail != [] && !Deleted(m, lines + [tail], |lines|))
            && Strip(m, text) == Unlines(kept) + if Dangling(m, text) then tail else []
  {
    var lines, tail := Whole(text), Tail(text);
    TextIsLines(text);
    assert lines[..|lines|] == lines == (lines + [tail])[..|lines|];
    kept := Sed(m, lines, false);
    at := SedExactly(m, lines, |lines|);
    OpenExactly(m, lines + [tail], |lines|);
  }

  lemma {:induction false} TextIsLines(text: string)
    ensures text == Unlines(Whole(text)) + Tail(text) && '\n' !in Tail(text)
    ensures forall i | 0 <= i < |Whole(text)| :: '\n' !in Whole(text)[i]
  {
    var lines, tail := Whole(text), Tail(text);
    SplitPieces(text, '\n');
    LinesAndTail(text);
    assert tail in Split(text, '\n');
    forall i | 0 <= i < |lines| ensures '\n' !in lines[i] { assert lines[i] in Split(text, '\n'); }
    JoinSplit(text, '\n');
    UnlinesTail(lines, tail);
  }

  lemma {:induction false} UnlinesTail(lines: seq<string>, tail: string)
    ensures Join(lines + [tail], ['\n']) == Unlines(lines) + tail
  {
    if lines == [] {
      assert lines + [tail] == [tail];
    } else {
      UnlinesTail(lines[1..], tail);
      assert (lines + [tail])[1..] == lines[1..] + [tail];
      FirstLineApart(lines, tail);
    }
  }

  lemma {:induction false} SedKeepsTheRest(m: Markers, lines: seq<string>)
    requires m.begin !in lines
    ensures Sed(m, lines, false) == lines && !Open(m, lines, false)
  {
    if lines != [] { SedKeepsTheRest(m, lines[1..]); }
  }

  lemma {:induction false} SedLeavesNoMarker(m: Markers, lines: seq<string>, inRange: bool)
    ensures m.begin !in Sed(m, lines, inRange)
    ensures forall line | line in Sed(m, lines, inRange) :: line in lines
  {
    if lines != [] {
      SedLeavesNoMarker(m, lines[1..], if inRange then lines[0] != m.end else lines[0] == m.begin);
    }
  }

  lemma {:induction false} SedDropsTheBlock(m: Markers, body: seq<string>)
    requires m.end !in body
    ensures Sed(m, body + [m.end], true) == []
  {
    var lines := body + [m.end];
    if body == [] {
      assert lines[1..] == [];
    } else {
      assert lines[1..] == body[1..] + [m.end];
      SedDropsTheBlock(m, body[1..]);
    }
  }

  // Lines after an end marker inside a block are left behind, the real end marker too.
  lemma {:induction false} SedLeaks(m: Markers, body: seq<string>)
    requires Proper(m) && m.end in body && m.begin !in body
    ensures Sed(m, body + [m.end], true) != []
  {
    var lines := body + [m.end];
    assert lines[1..] == body[1..] + [m.end];
    if body[0] == m.end {
      SedKeepsTheRest(m, lines[1..]);
    } else {
      SedLeaks(m, body[1..]);
    }
  }

  lemma {:induction false} UnlinesConcat(a: seq<string>, b: seq<string>)
    ensures Unlines(a + b) == Unlines(a) + Unlines(b)
  {
    if a == [] {
      assert a + b == b;
    } else {
      assert (a + b)[1..] == a[1..] + b;
      UnlinesConcat(a[1..], b);
      assert a[0] + "\n" + (Unlines(a[1..]) + Unlines(b)) == a[0] + "\n" + Unlines(a[1..]) + Unlines(b);
    }
  }

  lemma {:induction false} UnlinesJoin(lines: seq<string>)
    ensures Unlines(lines) == Join(lines + [[]], "\n")
  {
    if lines != [] {
      UnlinesJoin(lines[1..]);
      assert (lines + [[]])[1..] == lines[1..] + [[]];
    }
  }

  lemma LinesAndTail(text: string)
    ensures Split(text, '\n') == Whole(text) + [Tail(text)]
  {
  }

  // A newline-terminated text is its lines, and lines written out are read back.
  lemma TerminatedText(text: string)
    requires Tail(text) == []
    ensures Unlines(Whole(text)) == text
  {
    var lines := Whole(text);
    LinesAndTail(text);
    JoinSplit(text, '\n');
    UnlinesJoin(lines);
    assert ['\n'] == "\n";
  }

  lemma WrittenLines(lines: seq<string>)
    requires forall line | line in lines :: '\n' !in line
    ensures Whole(Unlines(lines)) == lines && Tail(Unlines(lines)) == []
  {
    UnlinesJoin(lines);
    SplitJoin(lines + [[]], '\n');
  }

  // The lines a rewrite leaves.
  function RewrittenLines(m: Markers, text: string, block: string): seq<string> {
    var first := if Dangling(m, text) then Tail(text) + m.begin else m.begin;
    Sed(m, Whole(text), false) + ([first] + (Split(block, '\n') + [m.end]))
  }

  lemma BlockText(first: string, body: seq<string>, end: string)
    requires body != []
    ensures Unlines([first] + (body + [end])) == first + "\n" + Join(body, "\n") + "\n" + end + "\n"
  {
    var lines := body + [end];
    UnlinesJoin(lines);
    assert lines + [[]] == body + [end, []];
    JoinConcat(body, [end, []], "\n");
    assert [end, []][1..] == [[]];
    assert Join([end, []], "\n") == end + "\n" + [];
    assert ([first] + lines)[1..] == lines;
  }

  lemma NoLineHoldsANewline(m: Markers, text: string, block: string)
    requires Proper(m)
    ensures forall line | line in RewrittenLines(m, text, block) :: '\n' !in line
  {
    SplitPieces(text, '\n');
    SplitPieces(block, '\n');
    SedLeavesNoMarker(m, Whole(text), false);
    assert Tail(text) in Split(text, '\n');
    assert forall l | l in Whole(text) :: l in Split(text, '\n');
  }

  lemma RewriteByLines(m: Markers, text: string, block: string)
    requires Proper(m)
    ensures Rewrite(m, text, block) == Unlines(RewrittenLines(m, text, block))
    ensures Whole(Rewrite(m, text, block)) == RewrittenLines(m, text, block)
    ensures Tail(Rewrite(m, text, block)) == []
  {
    var kept := Sed(m, Whole(text), false);
    var tail := if Dangling(m, text) then Tail(text) else [];
    var first := if Dangling(m, text) then Tail(text) + m.begin else m.begin;
    var body := Split(block, '\n');
    BlockText(first, body, m.end);
    JoinSplit(block, '\n');
    var rest := [first] + (body + [m.end]);
    UnlinesConcat(kept, rest);
    assert tail + m.begin == first;
    Associate(Unlines(kept), tail, m.begin, block, m.end);
    NoLineHoldsANewline(m, text, block);
    WrittenLines(kept + rest);
  }

  lemma Associate(kept: string, tail: string, begin: string, block: string, end: string)
    ensures kept + tail + begin + "\n" + block + "\n" + end + "\n"
         == kept + ((tail + begin) + "\n" + block + "\n" + end + "\n")
  {
  }

  // Stripping what a rewrite wrote: the kept lines, and what sed leaves of the block.
  lemma StripRewritten(m: Markers, text: string, block: string)
    requires Proper(m) && !Dangling(m, text)
    ensures Strip(m, Rewrite(m, text, block))
         == Strip(m, text) + Unlines(Sed(m, Split(block, '\n') + [m.end], true))
  {
    RewriteByLines(m, text, block);
    var kept := Sed(m, Whole(text), false);
    var rest := Split(block, '\n') + [m.end];
    SedLeavesNoMarker(m, Whole(text), false);
    SedKeepsTheRest(m, kept);
    SedConcat(m, kept, [m.begin] + rest, false);
    assert ([m.begin] + rest)[1..] == rest;
    UnlinesConcat(kept, Sed(m, rest, true));
  }

  // A block appended to a kept unterminated line is not recognised later.
  lemma StripAfterDangling(m: Markers, text: string, block: string)
    requires Proper(m) && Dangling(m, text) && m.begin !in Split(block, '\n')
    ensures Strip(m, Rewrite(m, text, block)) == Rewrite(m, text, block)
  {
    RewriteByLines(m, text, block);
    var kept := Sed(m, Whole(text), false);
    SedLeavesNoMarker(m, Whole(text), false);
    assert |Tail(text) + m.begin| != |m.begin|;
    SedKeepsTheRest(m, RewrittenLines(m, text, block));
    TerminatedText(Rewrite(m, text, block));
  }

  // Last writer wins, for every file and any two accepted entry texts: writing one block
  // and then another leaves exactly what writing the second alone leaves, if and only if
  // the file has no kept last line without a newline. Repeated, unterminated or truncated
  // managed blocks in the file make no difference.
  lemma LastWriterWins(text: string, raw1: string, raw2: string)
    requires ParseHostsEntries(raw1).Ok? && ParseHostsEntries(raw2).Ok?
    ensures var b1, b2 := ParseHostsEntries(raw1).value, ParseHostsEntries(raw2).value;
            Rewrite(MARKERS, Rewrite(MARKERS, text, b1), b2) == Rewrite(MARKERS, text, b2)
            <==> !Dangling(MARKERS, text)
  {
    var b1, b2 := ParseHostsEntries(raw1).value, ParseHostsEntries(raw2).value;
    MarkersAreProper();
    BlockLinesAreNoMarkers(raw1);
    SecondRewrite(MARKERS, text, b1, b2);
  }

  lemma SecondRewrite(m: Markers, text: string, b1: string, b2: string)
    requires Proper(m) && m.begin !in Split(b1, '\n') && m.end !in Split(b1, '\n')
    ensures Rewrite(m, Rewrite(m, text, b1), b2) == Rewrite(m, text, b2) <==> !Dangling(m, text)
  {
    if Dangling(m, text) {
      StripAfterDangling(m, text, b1);
      assert |Rewrite(m, Rewrite(m, text, b1), b2)| > |Rewrite(m, text, b2)|;
    } else {
      StripRewritten(m, text, b1);
      SedDropsTheBlock(m, Split(b1, '\n'));
    }
  }

  // In particular for every file that ends in a newline, and for the empty one.
  lemma TerminatedTextIsNotDangling(m: Markers, text: string)
    requires text == [] || text[|text| - 1] == '\n'
    ensures !Dangling(m, text)
  {
    if text != [] {
      var n := |text| - 1;
      SplitConcat(text[..n], '\n', []);
      assert text == text[..n] + [text[n]] + [];
    }
  }

  // Everything outside the managed block stays, line by line, exactly because the parser
  // lets no end marker into a block: with one, lines after it would be left behind.
  lemma OutsideIsKeptExactly(m: Markers, text: string, block: string)
    requires Proper(m) && !Dangling(m, text) && m.begin !in Split(block, '\n')
    ensures Strip(m, Rewrite(m, text, block)) == Strip(m, text) <==> m.end !in Split(block, '\n')
  {
    StripRewritten(m, text, block);
    if m.end in Split(block, '\n') {
      SedLeaks(m, Split(block, '\n'));
    } else {
      SedDropsTheBlock(m, Split(block, '\n'));
    }
  }

  // ---- A file the rewrite breaks -------------------------------------------

  lemma {:induction false} OneRowIsAccepted(row: seq<string>)
    requires ValidRow(row)
    ensures ParseHostsEntries(Join(row, " ")) == Ok(Join(row, " "))
  {
    var rows := [row];
    assert rows[1..] == [];
    assert Render(rows) == [Join(row, " ")];
    RenderedLines(rows);
    RenderedRows(rows);
    AcceptedByRows(Join(row, " "));
  }

  lemma {:induction false} FourOctets(octet: string)
    requires ValidOctet(octet) && '.' !in octet
    ensures ValidIpv4(octet + ['.'] + (octet + ['.'] + (octet + ['.'] + octet)))
  {
    var two := octet + ['.'] + octet;
    var three := octet + ['.'] + two;
    SplitSolid(octet, '.');
    SplitConcat(octet, '.', octet);
    SplitConcat(octet, '.', two);
    SplitConcat(octet, '.', three);
    assert [octet] + ([octet] + ([octet] + [octet])) == [octet, octet, octet, octet];
  }

  const SAMPLE_IP: string := ['1'] + ['.'] + (['1'] + ['.'] + (['1'] + ['.'] + ['1']))
  const SAMPLE_HOST: string := ['a']
  const SAMPLE_ENTRY: string := SAMPLE_IP + [' '] + SAMPLE_HOST
  const SAMPLE_FILE: string := ['x']

  lemma {:induction false} SampleIpIsValid()
    ensures ValidIpv4(SAMPLE_IP)
  {
    assert ['1'][..0] == [];
    FourOctets(['1']);
  }

  lemma {:induction false} SampleHostIsValid()
    ensures ValidDnsName(SAMPLE_HOST)
  {
    SplitSolid(SAMPLE_HOST, '.');
    assert ValidLabel(SAMPLE_HOST);
  }

  lemma {:induction false} ShortTextDangles(m: Markers, text: string)
    requires text != [] && '\n' !in text && text != m.begin
    ensures Dangling(m, text)
  {
    SplitSolid(text, '\n');
  }

  lemma SampleFileIsNoMarker()
    ensures SAMPLE_FILE != MARKERS.begin
  {
  }

  // A file of one letter without a newline, and one entry written twice: the second run
  // does not find the first one's block.
  lemma {:induction false} LastWriterDoesNotAlwaysWin()
    ensures ParseHostsEntries(SAMPLE_ENTRY) == Ok(SAMPLE_ENTRY) && Dangling(MARKERS, SAMPLE_FILE)
    ensures Rewrite(MARKERS, Rewrite(MARKERS, SAMPLE_FILE, SAMPLE_ENTRY), SAMPLE_ENTRY)
         != Rewrite(MARKERS, SAMPLE_FILE, SAMPLE_ENTRY)
  {
    var row := [SAMPLE_IP, SAMPLE_HOST];
    assert row[1..] == [SAMPLE_HOST];
    SampleIpIsValid();
    SampleHostIsValid();
    assert Join(row, " ") == SAMPLE_IP + " " + SAMPLE_HOST == SAMPLE_ENTRY;
    OneRowIsAccepted(row);
    SampleFileIsNoMarker();
    ShortTextDangles(MARKERS, SAMPLE_FILE);
    LastWriterWins(SAMPLE_FILE, SAMPLE_ENTRY, SAMPLE_ENTRY);
  }

  // ---- Interrupted runs ----------------------------------------------------

  lemma {:induction false} LineFirst(first: string, rest: string)
    requires '\n' !in first
    ensures var text := first + ['\n'] + rest;
            Whole(text) == [first] + Whole(rest) && Tail(text) == Tail(rest)
  {
    SplitLine(first, rest);
  }

  lemma {:induction false} NoWholeLine(text: string)
    requires '\n' !in text
    ensures Whole(text) == [] && Tail(text) == text
  {
    SplitSolid(text, '\n');
  }

  // The whole lines of a cut-off list of lines are its first lines; all of them only if
  // nothing follows.
  lemma {:induction false} CutLines(lines: seq<string>, cut: string)
    requires forall line | line in lines :: '\n' !in line
    requires cut <= Unlines(lines)
    ensures Whole(cut) <= lines && (Whole(cut) == lines ==> Tail(cut) == [])
  {
    if lines != [] {
      var first := lines[0];
      assert Unlines(lines) == first + ['\n'] + Unlines(lines[1..]);
      if |cut| <= |first| {
        assert cut <= first;
        assert forall c | c in cut :: c in first;
        NoWholeLine(cut);
      } else {
        var rest := cut[|first| + 1..];
        assert cut == first + ['\n'] + rest;
        assert rest <= Unlines(lines[1..]);
        CutLines(lines[1..], rest);
        LineFirst(first, rest);
        assert lines == [first] + lines[1..];
      }
    }
  }

  lemma {:induction false} SedDropsAnOpenBlock(m: Markers, body: seq<string>)
    requires m.end !in body
    ensures Sed(m, body, true) == [] && Open(m, body, true)
  {
    if body != [] { SedDropsAnOpenBlock(m, body[1..]); }
  }

  // Cut off anywhere after its begin line, a block is dropped to the end of the file.
  lemma {:induction false} CutBlockIsDropped(m: Markers, body: seq<string>, cut: string)
    requires Proper(m) && m.end !in body && forall line | line in body :: '\n' !in line
    requires cut <= Unlines(body + [m.end])
    ensures Sed(m, Whole(cut), true) == [] && (Open(m, Whole(cut), true) || Tail(cut) == [])
  {
    CutLines(body + [m.end], cut);
    if |Whole(cut)| <= |body| {
      assert Whole(cut) == body[..|Whole(cut)|];
      SedDropsAnOpenBlock(m, Whole(cut));
    } else {
      assert Whole(cut) == body + [m.end];
      SedDropsTheBlock(m, body);
    }
  }

  // Stripping kept lines and whatever follows them: the lines, and what follows, stripped.
  lemma {:induction false} StripAfterKept(m: Markers, kept: seq<string>, rest: string)
    requires m.begin !in kept && forall line | line in kept :: '\n' !in line
    ensures Strip(m, Unlines(kept) + rest) == Unlines(kept) + Strip(m, rest)
    decreases |kept|
  {
    if kept == [] {
      assert Unlines(kept) + rest == rest;
    } else {
      var first, later := kept[0], Unlines(kept[1..]) + rest;
      assert kept[0] in kept;
      FirstLineApart(kept, rest);
      StripAfterKept(m, kept[1..], rest);
      StripAfterLine(m, first, later);
      assert first + "\n" + (Unlines(kept[1..]) + Strip(m, rest)) == Unlines(kept) + Strip(m, rest);
    }
  }

  lemma {:induction false} StripAfterLine(m: Markers, first: string, later: string)
    requires first != m.begin && '\n' !in first
    ensures Strip(m, first + ['\n'] + later) == first + "\n" + Strip(m, later)
  {
    var text := first + ['\n'] + later;
    LineFirst(first, later);
    assert ([first] + Whole(later))[1..] == Whole(later);
    assert Unlines([first] + Sed(m, Whole(later), false)) == first + "\n" + Unlines(Sed(m, Whole(later), false)) by {
      assert ([first] + Sed(m, Whole(later), false))[1..] == Sed(m, Whole(later), false);
    }
  }

  // What a rewrite appends to the stripped text.
  function Appended(m: Markers, block: string): string {
    m.begin + ['\n'] + (block + "\n" + m.end + "\n")
  }

  lemma RewriteAppends(m: Markers, text: string, block: string)
    ensures Rewrite(m, text, block) == Strip(m, text) + Appended(m, block)
  {
    AppendRegroups(Strip(m, text), m.begin, block, m.end);
  }

  lemma AppendRegroups(stripped: string, begin: string, block: string, end: string)
    ensures stripped + begin + "\n" + block + "\n" + end + "\n"
         == stripped + (begin + ['\n'] + (block + "\n" + end + "\n"))
  {
    var rest := block + "\n" + end + "\n";
    assert stripped + begin + "\n" + block + "\n" + end + "\n" == stripped + begin + "\n" + rest;
  }

  lemma {:induction false} BlockLines(block: string, end: string)
    ensures Unlines(Split(block, '\n') + [end]) == block + "\n" + end + "\n"
  {
    var body := Split(block, '\n');
    var last: seq<string> := [end, []];
    UnlinesJoin(body + [end]);
    assert body + [end] + [[]] == body + last;
    JoinConcat(body, last, "\n");
    JoinSplit(block, '\n');
    assert ['\n'] == "\n";
    assert last[1..] == [[]];
    assert Join(last, "\n") == end + "\n" + [];
  }

  // A cut in the appended part leaves nothing to strip away later exactly if it falls
  // before the begin marker or after it, not inside.
  lemma {:induction false} CutAppended(m: Markers, block: string, n: nat)
    requires Proper(m) && m.end !in Split(block, '\n') && n <= |Appended(m, block)|
    ensures Strip(m, Appended(m, block)[..n]) == [] <==> n == 0 || n >= |m.begin|
  {
    var cut := Appended(m, block)[..n];
    if n <= |m.begin| {
      assert cut == m.begin[..n];
      assert forall c | c in cut :: c in m.begin;
      NoWholeLine(cut);
    } else {
      var rest := cut[|m.begin| + 1..];
      assert cut == m.begin + ['\n'] + rest;
      SplitPieces(block, '\n');
      BlockLines(block, m.end);
      CutBlockIsDropped(m, Split(block, '\n'), rest);
      LineFirst(m.begin, rest);
      assert ([m.begin] + Whole(rest))[1..] == Whole(rest);
    }
  }

  lemma {:induction false} SedShortens(m: Markers, lines: seq<string>, inRange: bool)
    ensures |Unlines(Sed(m, lines, inRange))| <= |Unlines(lines)|
  {
    if lines != [] {
      SedShortens(m, lines[1..], if inRange then lines[0] != m.end else lines[0] == m.begin);
    }
  }

  lemma {:induction false} StripShortens(m: Markers, text: string)
    ensures |Strip(m, text)| <= |text|
  {
    SedShortens(m, Whole(text), false);
    UnlinesJoin(Whole(text));
    LinesAndTail(text);
    JoinSplit(text, '\n');
    JoinLast(Whole(text), Tail(text), ['\n']);
    JoinLast(Whole(text), [], ['\n']);
    assert ['\n'] == "\n";
  }

  lemma {:induction false} JoinLast(lines: seq<string>, last: string, separator: string)
    ensures |Join(lines + [last], separator)| == |Join(lines + [[]], separator)| + |last|
  {
    if lines != [] {
      assert (lines + [last])[1..] == lines[1..] + [last];
      assert (lines + [[]])[1..] == lines[1..] + [[]];
      JoinLast(lines[1..], last, separator);
    }
  }

  // The stripped text as its kept lines and what sed keeps of an unterminated last one.
  function Kept(m: Markers, text: string): string {
    if Dangling(m, text) then Tail(text) else []
  }

  // After a kept last line without a newline, what a rewrite appends begins on that line
  // and is never recognised again.
  lemma {:induction false} CutAfterDangling(m: Markers, tail: string, block: string, n: nat)
    requires Proper(m) && tail != [] && '\n' !in tail && tail != m.begin && n <= |Appended(m, block)|
    ensures Strip(m, tail + Appended(m, block)[..n]) == tail <==> n == 0
  {
    var cut := tail + Appended(m, block)[..n];
    if n <= |m.begin| {
      assert Appended(m, block)[..n] == m.begin[..n];
      assert forall c | c in cut :: c in tail || c in m.begin;
      NoWholeLine(cut);
    } else {
      var first, rest := tail + m.begin, Appended(m, block)[..n][|m.begin| + 1..];
      assert Appended(m, block)[..n] == m.begin + ['\n'] + rest;
      assert cut == first + ['\n'] + rest;
      assert |first| != |m.begin|;
      StripAfterLine(m, first, rest);
    }
  }

  lemma {:induction false} CutRest(m: Markers, text: string, block: string, n: nat)
    requires Proper(m) && m.end !in Split(block, '\n') && n <= |Appended(m, block)|
    ensures Strip(m, Kept(m, text) + Appended(m, block)[..n]) == Kept(m, text)
            <==> n == 0 || (!Dangling(m, text) && n >= |m.begin|)
  {
    if Dangling(m, text) {
      SplitPieces(text, '\n');
      assert Tail(text) in Split(text, '\n');
      CutAfterDangling(m, Tail(text), block, n);
    } else {
      assert [] + Appended(m, block)[..n] == Appended(m, block)[..n];
      CutAppended(m, block, n);
    }
  }

  lemma {:induction false} CutRewrite(m: Markers, text: string, block: string, k: nat)
    requires Proper(m) && m.end !in Split(block, '\n') && k <= |Rewrite(m, text, block)|
    ensures Strip(m, Rewrite(m, text, block)[..k]) == Strip(m, text)
            <==> k == |Strip(m, text)| || (!Dangling(m, text) && k >= |Strip(m, text)| + |m.begin|)
  {
    var kept := Sed(m, Whole(text), false);
    var stripped, cut := Strip(m, text), Rewrite(m, text, block)[..k];
    RewriteAppends(m, text, block);
    if k < |stripped| {
      StripShortens(m, cut);
    } else {
      var n := k - |stripped|;
      var rest := Kept(m, text) + Appended(m, block)[..n];
      assert cut == Unlines(kept) + rest && stripped == Unlines(kept) + Kept(m, text);
      SedLeavesNoMarker(m, Whole(text), false);
      SplitPieces(text, '\n');
      assert forall l | l in Whole(text) :: l in Split(text, '\n');
      StripAfterKept(m, kept, rest);
      SamePrefixSameRest(Unlines(kept), Strip(m, rest), Kept(m, text));
      CutRest(m, text, block, n);
    }
  }

  lemma SamePrefixSameRest(a: string, b: string, c: string)
    ensures a + b == a + c <==> b == c
  {
    if a + b == a + c { assert b == (a + b)[|a|..] && c == (a + c)[|a|..]; }
  }

  // Whatever the file, after a run that stopped while it wrote: the next run leaves what it
  // would have left without the interrupted one exactly if the write stopped right before
  // the block, or not before its begin marker was out and that marker has its own line.
  lemma {:induction false} InterruptedRunConverges(text: string, raw1: string, raw2: string, k: nat)
    requires ParseHostsEntries(raw1).Ok? && ParseHostsEntries(raw2).Ok?
    requires k <= |Rewrite(MARKERS, text, ParseHostsEntries(raw1).value)|
    ensures var b1, b2 := ParseHostsEntries(raw1).value, ParseHostsEntries(raw2).value;
            Rewrite(MARKERS, Rewrite(MARKERS, text, b1)[..k], b2) == Rewrite(MARKERS, text, b2)
            <==> || k == |Strip(MARKERS, text)|
                 || (!Dangling(MARKERS, text) && k >= |Strip(MARKERS, text)| + |MARKERS.begin|)
  {
    var b1, b2 := ParseHostsEntries(raw1).value, ParseHostsEntries(raw2).value;
    MarkersAreProper();
    BlockLinesAreNoMarkers(raw1);
    CutRewrite(MARKERS, text, b1, k);
    SameRewriteSameStrip(MARKERS, Rewrite(MARKERS, text, b1)[..k], text, b2);
  }

  lemma {:induction false} SameRewriteSameStrip(m: Markers, a: string, b: string, block: string)
    ensures Rewrite(m, a, block) == Rewrite(m, b, block) <==> Strip(m, a) == Strip(m, b)
  {
    RewriteAppends(m, a, block);
    RewriteAppends(m, b, block);
    if Rewrite(m, a, block) == Rewrite(m, b, block) {
      var x, y, z := Strip(m, a), Strip(m, b), Appended(m, block);
      assert x == (x + z)[..|x|] && y == (y + z)[..|y|];
    }
  }

  // ---- Counting lines ------------------------------------------------------

  function NonEmpty(lines: seq<string>): nat {
    if lines == [] then 0 else (if lines[0] == [] then 0 else 1) + NonEmpty(lines[1..])
  }

  // `grep -c .`
  function CountLines(text: string): nat {
    NonEmpty(Split(text, '\n'))
  }

  lemma {:induction false} NonEmptyConcat(a: seq<string>, b: seq<string>)
    ensures NonEmpty(a + b) == NonEmpty(a) + NonEmpty(b)
  {
    if a == [] {
      assert a + b == b;
    } else {
      assert (a + b)[1..] == a[1..] + b;
      NonEmptyConcat(a[1..], b);
    }
  }

  function NonEmptyAt(lines: seq<string>): set<int> {
    set i | 0 <= i < |lines| && lines[i] != []
  }

  lemma {:induction false} NonEmptyExactly(lines: seq<string>)
    ensures NonEmpty(lines) == |NonEmptyAt(lines)|
  {
    if lines == [] {
      assert NonEmptyAt(lines) == {};
    } else {
      var n := |lines| - 1;
      NonEmptyExactly(lines[..n]);
      assert lines == lines[..n] + [lines[n]];
      NonEmptyConcat(lines[..n], [lines[n]]);
      NonEmptyOne(lines[n]);
      assert NonEmptyAt(lines) == NonEmptyAt(lines[..n]) + if lines[n] == [] then {} else {n};
    }
  }

  lemma {:induction false} AllNonEmpty(lines: seq<string>)
    requires forall i | 0 <= i < |lines| :: lines[i] != []
    ensures NonEmpty(lines) == |lines|
  {
    if lines != [] { AllNonEmpty(lines[1..]); }
  }

  lemma NonEmptyOne(line: string)
    ensures NonEmpty([line]) == if line == [] then 0 else 1
  {
    assert [line][1..] == [];
  }

  lemma FirstLineApart(kept: seq<string>, rest: string)
    requires kept != []
    ensures Unlines(kept) + rest == kept[0] + ['\n'] + (Unlines(kept[1..]) + rest)
  {
    assert kept[0] + "\n" + Unlines(kept[1..]) + rest == kept[0] + "\n" + (Unlines(kept[1..]) + rest);
  }

  lemma {:induction false} SplitLine(first: string, later: string)
    requires '\n' !in first
    ensures Split(first + ['\n'] + later, '\n') == [first] + Split(later, '\n')
  {
    SplitSolid(first, '\n');
    SplitConcat(first, '\n', later);
  }

  lemma HeadApart(lines: seq<string>, more: seq<string>)
    requires lines != []
    ensures [lines[0]] + (lines[1..] + more) == lines + more
  {
  }

  lemma {:induction false} SplitUnlines(kept: seq<string>, rest: string, text: string)
    requires forall i | 0 <= i < |kept| :: '\n' !in kept[i]
    requires text == Unlines(kept) + rest
    ensures Split(text, '\n') == kept + Split(rest, '\n')
    decreases |kept|
  {
    if kept == [] {
      assert text == rest;
    } else {
      var later := Unlines(kept[1..]) + rest;
      FirstLineApart(kept, rest);
      SplitLine(kept[0], later);
      SplitUnlines(kept[1..], rest, later);
      HeadApart(kept, Split(rest, '\n'));
    }
  }

  lemma {:induction false} CountStrip(m: Markers, text: string)
    ensures CountLines(Strip(m, text)) == NonEmpty(Sed(m, Whole(text), false)) + if Dangling(m, text) then 1 else 0
  {
    var kept := Sed(m, Whole(text), false);
    SedLeavesNoMarker(m, Whole(text), false);
    SplitPieces(text, '\n');
    assert Tail(text) in Split(text, '\n');
    assert forall l | l in Whole(text) :: l in Split(text, '\n');
    SplitUnlines(kept, Kept(m, text), Strip(m, text));
    SplitSolid(Kept(m, text), '\n');
    NonEmptyConcat(kept, [Kept(m, text)]);
    NonEmptyOne(Kept(m, text));
  }

  lemma {:induction false} CountRewrite(m: Markers, text: string, block: string)
    requires Proper(m) && m.end != [] && forall line | line in Split(block, '\n') :: line != []
    ensures CountLines(Rewrite(m, text, block)) ==
            NonEmpty(Sed(m, Whole(text), false)) + |Split(block, '\n')| + 2
  {
    var kept, body := Sed(m, Whole(text), false), Split(block, '\n');
    var first := if Dangling(m, text) then Tail(text) + m.begin else m.begin;
    var last: seq<string> := [[]];
    RewriteByLines(m, text, block);
    LinesAndTail(Rewrite(m, text, block));
    NonEmptyConcat(kept + ([first] + (body + [m.end])), last);
    NonEmptyConcat(kept, [first] + (body + [m.end]));
    NonEmptyConcat([first], body + [m.end]);
    NonEmptyConcat(body, [m.end]);
    NonEmptyOne(first);
    NonEmptyOne(m.end);
    NonEmptyOne([]);
    assert forall i | 0 <= i < |body| :: body[i] in body;
    AllNonEmpty(body);
  }

  lemma EndIsNotEmpty()
    ensures MARKERS.end != []
  {
  }

  // The total a run reports is what was outside the block, its entries and its two markers;
  // one less if the begin marker went onto a line that was there.
  lemma {:induction false} TotalIsOutsideAndBlock(text: string, raw: string)
    requires ParseHostsEntries(raw).Ok?
    ensures CountLines(Rewrite(MARKERS, text, ParseHostsEntries(raw).value)) ==
            CountLines(Strip(MARKERS, text)) + |Rows(raw)| + if Dangling(MARKERS, text) then 1 else 2
  {
    MarkersAreProper();
    EndIsNotEmpty();
    AcceptedByRows(raw);
    RenderedRows(Rows(raw));
    RenderedLines(Rows(raw));
    CountRewrite(MARKERS, text, ParseHostsEntries(raw).value);
    CountStrip(MARKERS, text);
  }

  // ---- The file ------------------------------------------------------------

  // sed over a file's lines, one at a time.
  method StripLines(m: Markers, text: string) returns (kept: string)
    ensures kept == Strip(m, text)
  {
    var lines := Whole(text);
    kept := [];
    var inRange := false;
    for i := 0 to |lines|
      invariant inRange == Open(m, lines[..i], false)
      invariant kept == Unlines(Sed(m, lines[..i], false))
    {
      assert lines[..i + 1] == lines[..i] + [lines[i]];
      SedConcat(m, lines[..i], [lines[i]], false);
      UnlinesConcat(Sed(m, lines[..i], false), Sed(m, [lines[i]], inRange));
      assert [lines[i]][1..] == [];
      if inRange {
        inRange := lines[i] != m.end;
      } else if lines[i] == m.begin {
        inRange := true;
      } else {
        kept := kept + (lines[i] + "\n");
      }
    }
    assert lines[..|lines|] == lines;
    var tail := Tail(text);
    if tail != [] && !inRange && tail != m.begin {
      kept := kept + tail;
    }
  }

  // A count read back as an unsigned 32-bit number, zero if it is none.
  function Reported(count: nat): nat {
    if count < 0x1_0000_0000 then count else 0
  }

  // How far the script gets: all the way, not to its last write, or to a number of
  // characters into it.
  datatype ScriptRun = Completes | StopsBefore | StopsWriting(written: nat)

  class HostsFile {
    var text: string
    var reports: seq<OpRunState>   // the progress frames, in order

    constructor (text: string)
      ensures this.text == text && reports == []
    {
      this.text := text;
      reports := [];
    }

    method RunScript(block: string, run: ScriptRun) returns (exited: bool)
      modifies this`text
      ensures exited <==> run.Completes?
      ensures match run
              case Completes => text == Rewrite(MARKERS, old(text), block)
              case StopsBefore => text == old(text)
              case StopsWriting(n) =>
                text <= Rewrite(MARKERS, old(text), block)
                && (|text| == n || text == Rewrite(MARKERS, old(text), block))
    {
      exited := run.Completes?;
      var tmp := StripLines(MARKERS, text);
      tmp := tmp + MARKERS.begin + "\n";
      tmp := tmp + block + "\n";
      tmp := tmp + MARKERS.end + "\n";
      match run {
        case Completes => text := tmp;
        case StopsBefore =>
        case StopsWriting(n) => text := if n < |tmp| then tmp[..n] else tmp;
      }
    }

    // `certsecure.write_hosts`: missing or bad entries leave the file alone; a script that
    // stops leaves the old file or a beginning of the new one.
    method Write(entries: Option<string>, run: ScriptRun, message: string)
        returns (r: Result<(nat, nat), CommandError>)
      modifies this
      ensures entries.None? ==> r == Err(MissingParam("entries")) && text == old(text)
      ensures entries.Some? ==> EntryRefusals(Rows(entries.value), r)
      ensures entries.Some? ==>
                match ParseHostsEntries(entries.value)
                case Err(error) => r == Err(Refusal(error)) && text == old(text)
                case Ok(block) =>
                  && r == (if run.Completes? then Ok((
                                  |Rows(entries.value)|,
                                  if CountLines(text) < 0x1_0000_0000 then CountLines(text) else 0))
                           else Err(Shell(message)))
                  && (run.Completes? ==> text == Rewrite(MARKERS, old(text), block))
                  && (run.StopsBefore? ==> text == old(text))
                  && (run.StopsWriting? ==>
                        && text <= Rewrite(MARKERS, old(text), block)
                        && (|text| == run.written || text == Rewrite(MARKERS, old(text), block)))
      ensures old(reports) <= reports && ReportsDoneIffOk(reports[|old(reports)|..], r.Ok?)
    {
      if entries.None? { return Err(MissingParam("entries")); }
      var block := ParseEntries(entries.value);
      if block.Err? {
        RefusalFits(entries.value, Err(Refusal(block.error)));
        return Err(Refusal(block.error));
      }
      GoodHasNoFault(Rows(entries.value));
      reports := reports + [InProgress("writing hosts entries", 50.0)];
      var exited := RunScript(block.value, run);
      if !exited { return Err(Shell(message)); }
      RowsCounted(entries.value);
      var n := |Split(block.value, '\n')|;
      reports := reports + [Completed(Decimal(n))];
      r := Ok((n, Reported(CountLines(text))));
    }
  }

  lemma {:induction false} RowsCounted(raw: string)
    requires ParseHostsEntries(raw).Ok?
    ensures |Split(ParseHostsEntries(raw).value, '\n')| == |Rows(raw)|
  {
    AcceptedByRows(raw);
    RenderedRows(Rows(raw));
    RenderedLines(Rows(raw));
  }
}
