// String operations the commands are built from, as the Rust library defines them.
module Text {
  // Bytes a character takes in UTF-8; `len` counts these.
  function Utf8Width(c: char): nat {
    var n := c as int;
    if n < 0x80 then 1 else if n < 0x800 then 2 else if n < 0x10000 then 3 else 4
  }

  function Utf8Len(s: string): nat {
    if s == [] then 0 else Utf8Width(s[0]) + Utf8Len(s[1..])
  }

  lemma {:induction false} WidthBound(s: string)
    ensures Utf8Len(s) <= 4 * |s|
  {
    if s != [] { WidthBound(s[1..]); }
  }

  // A character takes the fewest bytes whose payload holds its code: 7 bits in one, then
  // five more and six for each further byte but the first.
  function Payload(width: nat): nat {
    if width == 1 then 0x80 else if width == 2 then 0x800 else if width == 3 then 0x1_0000 else 0x20_0000
  }

  lemma WidthIsLeast(c: char)
    ensures 1 <= Utf8Width(c) <= 4 && c as int < Payload(Utf8Width(c))
    ensures forall fewer: nat | 1 <= fewer < Utf8Width(c) :: Payload(fewer) <= c as int
  {
  }

  ghost predicate Ascii(s: string) {
    forall i | 0 <= i < |s| :: s[i] as int < 0x80
  }

  lemma {:induction false} AsciiLength(s: string)
    requires Ascii(s)
    ensures Utf8Len(s) == |s|
  {
    if s != [] { AsciiLength(s[1..]); }
  }

  predicate IsDigit(c: char) { '0' <= c <= '9' }

  predicate IsAlphabetic(c: char) { 'a' <= c <= 'z' || 'A' <= c <= 'Z' }

  predicate IsAlphanumeric(c: char) { IsDigit(c) || IsAlphabetic(c) }

  // ASCII case folding, character by character.
  function Lower(c: char): char {
    if 'A' <= c <= 'Z' then (c as int + 32) as char else c
  }

  function ToLower(s: string): (r: string)
    ensures |r| == |s|
    ensures forall i | 0 <= i < |s| :: r[i] == Lower(s[i])
  {
    if s == [] then [] else [Lower(s[0])] + ToLower(s[1..])
  }

  // Equal but for the case of letters.
  predicate SameIgnoringCase(a: string, b: string) {
    && |a| == |b|
    && forall i | 0 <= i < |a| ::
         || a[i] == b[i]
         || ('a' <= a[i] <= 'z' && a[i] as int == b[i] as int + 32)
         || ('a' <= b[i] <= 'z' && b[i] as int == a[i] as int + 32)
  }

  lemma {:induction false} LoweredExactly(a: string, b: string)
    ensures ToLower(a) == ToLower(b) <==> SameIgnoringCase(a, b)
  {
    if ToLower(a) == ToLower(b) {
      forall i | 0 <= i < |a| ensures Lower(a[i]) == Lower(b[i]) {
        assert ToLower(a)[i] == ToLower(b)[i];
      }
    }
    if SameIgnoringCase(a, b) {
      forall i | 0 <= i < |a| ensures ToLower(a)[i] == ToLower(b)[i] {}
    }
  }

  predicate StartsWith(s: string, prefix: string) {
    |s| >= |prefix| && s[..|prefix|] == prefix
  }

  // Unicode White_Space.
  predicate IsWhitespace(c: char) {
    var n := c as int;
    || 0x09 <= n <= 0x0D || n == 0x20 || n == 0x85 || n == 0xA0 || n == 0x1680
    || 0x2000 <= n <= 0x200A || n == 0x2028 || n == 0x2029 || n == 0x202F || n == 0x205F || n == 0x3000
  }

  lemma WhitespaceExactly(c: char)
    ensures IsWhitespace(c) <==>
            c as int in {0x9, 0xA, 0xB, 0xC, 0xD, 0x20, 0x85, 0xA0, 0x1680, 0x2000, 0x2001, 0x2002, 0x2003, 0x2004,
                         0x2005, 0x2006, 0x2007, 0x2008, 0x2009, 0x200A, 0x2028, 0x2029, 0x202F, 0x205F, 0x3000}
  {
  }

  // ---- Splitting at a character, joining with a separator ------------------

  function Split(s: string, c: char): (parts: seq<string>)
    ensures parts != []
  {
    if s == [] then [[]]
    else
      var rest := Split(s[1..], c);
      if s[0] == c then [[]] + rest else [[s[0]] + rest[0]] + rest[1..]
  }

  function Join(parts: seq<string>, separator: string): string {
    if parts == [] then []
    else if |parts| == 1 then parts[0]
    else parts[0] + separator + Join(parts[1..], separator)
  }

  lemma {:induction false} SplitPieces(s: string, c: char)
    ensures forall part | part in Split(s, c) :: c !in part
    ensures forall part, x | part in Split(s, c) && x in part :: x in s
  {
    if s != [] {
      SplitPieces(s[1..], c);
      var rest := Split(s[1..], c);
      assert s == [s[0]] + s[1..];
      forall part | part in Split(s, c)
        ensures c !in part && forall x | x in part :: x in s
      {
        if s[0] == c {
          assert part == [] || part in rest;
        } else {
          assert part == [s[0]] + rest[0] || part in rest;
          assert rest[0] in rest;
        }
      }
    }
  }

  lemma {:induction false} SplitSolid(s: string, c: char)
    requires c !in s
    ensures Split(s, c) == [s]
  {
    if s != [] {
      SplitSolid(s[1..], c);
      assert s == [s[0]] + s[1..];
    }
  }

  // A character put in front of the first piece.
  function Prepend(x: char, parts: seq<string>): seq<string>
    requires parts != []
  {
    [[x] + parts[0]] + parts[1..]
  }

  lemma {:induction false} PrependConcat(x: char, l: seq<string>, r: seq<string>)
    requires l != []
    ensures Prepend(x, l + r) == Prepend(x, l) + r
  {
    assert (l + r)[1..] == l[1..] + r;
  }

  lemma {:induction false} SplitCons(x: char, s: string, c: char)
    ensures Split([x] + s, c) == if x == c then [[]] + Split(s, c) else Prepend(x, Split(s, c))
  {
    assert ([x] + s)[1..] == s;
  }

  lemma {:induction false} SplitStep(x: char, t: string, front: string, c: char, r: seq<string>)
    requires Split(t, c) == Split(front, c) + r
    ensures Split([x] + t, c) == Split([x] + front, c) + r
  {
    var l := Split(front, c);
    SplitCons(x, t, c);
    SplitCons(x, front, c);
    if x == c {
      assert [[]] + (l + r) == [[]] + l + r;
    } else {
      PrependConcat(x, l, r);
    }
  }

  lemma {:induction false} SplitConcat(a: string, c: char, b: string)
    ensures Split(a + [c] + b, c) == Split(a, c) + Split(b, c)
  {
    if a == [] {
      assert a + [c] + b == [c] + b;
      SplitCons(c, b, c);
    } else {
      var front := a[1..];
      SplitConcat(front, c, b);
      SplitStep(a[0], front + [c] + b, front, c, Split(b, c));
      assert a == [a[0]] + front;
      assert a + [c] + b == [a[0]] + (front + [c] + b);
    }
  }

  lemma {:induction false} SplitJoin(parts: seq<string>, c: char)
    requires parts != []
    requires forall part | part in parts :: c !in part
    ensures Split(Join(parts, [c]), c) == parts
  {
    SplitSolid(parts[0], c);
    if |parts| > 1 {
      SplitJoin(parts[1..], c);
      SplitConcat(parts[0], c, Join(parts[1..], [c]));
    }
  }

  lemma {:induction false} JoinSplit(s: string, c: char)
    ensures Join(Split(s, c), [c]) == s
  {
    if s != [] {
      JoinSplit(s[1..], c);
      var rest := Split(s[1..], c);
      if s[0] == c {
        assert ([[]] + rest)[1..] == rest;
      } else {
        var parts := [[s[0]] + rest[0]] + rest[1..];
        assert parts[1..] == rest[1..];
        assert s == [s[0]] + s[1..];
      }
    }
  }

  lemma {:induction false} JoinConcat(a: seq<string>, b: seq<string>, separator: string)
    requires a != [] && b != []
    ensures Join(a + b, separator) == Join(a, separator) + separator + Join(b, separator)
  {
    if |a| == 1 {
      assert (a + b)[1..] == b;
    } else {
      assert (a + b)[1..] == a[1..] + b;
      JoinConcat(a[1..], b, separator);
    }
  }

  // ---- Trimming and whitespace-separated fields ----------------------------

  function TrimStart(s: string): string {
    if s != [] && IsWhitespace(s[0]) then TrimStart(s[1..]) else s
  }

  function TrimEnd(s: string): string {
    if s != [] && IsWhitespace(s[|s| - 1]) then TrimEnd(s[..|s| - 1]) else s
  }

  function Trim(s: string): string {
    TrimEnd(TrimStart(s))
  }

  predicate Solid(word: string) {
    word != [] && forall c | c in word :: !IsWhitespace(c)
  }

  function WordLength(s: string): (n: nat)
    ensures n <= |s|
    ensures forall i | 0 <= i < n :: !IsWhitespace(s[i])
    ensures n < |s| ==> IsWhitespace(s[n])
  {
    if s == [] || IsWhitespace(s[0]) then 0 else 1 + WordLength(s[1..])
  }

  // The maximal runs of non-whitespace, in order.
  function Fields(s: string): (fields: seq<string>)
    ensures forall f | f in fields :: Solid(f)
    decreases |s|
  {
    if s == [] then []
    else
      var n := WordLength(s);
      if n == 0 then Fields(s[1..]) else [s[..n]] + Fields(s[n..])
  }

  lemma WordThenSpace(word: string, rest: string)
    requires Solid(word)
    requires rest == [] || IsWhitespace(rest[0])
    ensures Fields(word + rest) == [word] + Fields(rest)
  {
    var s := word + rest;
    var n := WordLength(s);
    assert forall i | 0 <= i < |word| :: s[i] == word[i] && word[i] in word;
    assert rest != [] ==> s[|word|] == rest[0];
    assert s[..n] == word && s[n..] == rest;
  }

  lemma WordThenOneSpace(word: string, s: string)
    requires Solid(word)
    ensures Fields(word + " " + s) == [word] + Fields(s)
  {
    var rest := " " + s;
    assert rest[1..] == s;
    assert WordLength(rest) == 0;
    assert word + " " + s == word + rest;
    WordThenSpace(word, rest);
  }

  lemma {:induction false} FieldsOfJoined(fields: seq<string>)
    requires forall f | f in fields :: Solid(f)
    ensures Fields(Join(fields, " ")) == fields
  {
    if |fields| == 1 {
      WordThenSpace(fields[0], []);
      assert fields[0] + [] == fields[0];
    } else if fields != [] {
      FieldsOfJoined(fields[1..]);
      WordThenOneSpace(fields[0], Join(fields[1..], " "));
    }
  }

  // Text that neither starts nor ends with whitespace is its own trimming.
  lemma TrimKeeps(s: string)
    requires s != [] ==> !IsWhitespace(s[0]) && !IsWhitespace(s[|s| - 1])
    ensures Trim(s) == s
  {
  }

  lemma {:induction false} JoinedEnds(fields: seq<string>)
    requires fields != [] && forall f | f in fields :: Solid(f)
    ensures var s := Join(fields, " "); s != [] && !IsWhitespace(s[0]) && !IsWhitespace(s[|s| - 1])
  {
    assert fields[0] in fields;
    assert fields[0][0] in fields[0] && fields[0][|fields[0]| - 1] in fields[0];
    if |fields| > 1 { JoinedEnds(fields[1..]); }
  }

  // ---- Trimming and fields, from the text's own parts ----------------------

  ghost predicate Blank(s: string) {
    forall i | 0 <= i < |s| :: IsWhitespace(s[i])
  }

  lemma {:induction false} TrimStartBlank(blank: string, s: string)
    requires Blank(blank)
    ensures TrimStart(blank + s) == TrimStart(s)
  {
    if blank == [] {
      assert blank + s == s;
    } else {
      assert (blank + s)[1..] == blank[1..] + s;
      TrimStartBlank(blank[1..], s);
    }
  }

  lemma {:induction false} TrimEndBlank(s: string, blank: string)
    requires Blank(blank)
    ensures TrimEnd(s + blank) == TrimEnd(s)
    decreases |blank|
  {
    if blank == [] {
      assert s + blank == s;
    } else {
      assert (s + blank)[..|s + blank| - 1] == s + blank[..|blank| - 1];
      TrimEndBlank(s, blank[..|blank| - 1]);
    }
  }

  // Trimming takes off all whitespace around a text and nothing of the text.
  lemma {:induction false} TrimExactly(before: string, s: string, after: string)
    requires Blank(before) && Blank(after)
    requires s != [] ==> !IsWhitespace(s[0]) && !IsWhitespace(s[|s| - 1])
    ensures Trim(before + s + after) == s
  {
    assert before + s + after == before + (s + after);
    TrimStartBlank(before, s + after);
    if s == [] {
      assert s + after == after + [];
      TrimStartBlank(after, []);
    } else {
      TrimEndBlank(s, after);
    }
  }

  // Words with gaps around them.
  function Spaced(gaps: seq<string>, words: seq<string>): string
    requires |gaps| == |words| + 1
  {
    if words == [] then gaps[0] else gaps[0] + (words[0] + Spaced(gaps[1..], words[1..]))
  }

  lemma {:induction false} FieldsAfterBlank(blank: string, s: string)
    requires Blank(blank)
    ensures Fields(blank + s) == Fields(s)
  {
    if blank == [] {
      assert blank + s == s;
    } else {
      assert (blank + s)[1..] == blank[1..] + s;
      assert WordLength(blank + s) == 0;
      FieldsAfterBlank(blank[1..], s);
    }
  }

  // The fields of a text are the words it is made of, whatever the gaps between them.
  lemma {:induction false} FieldsExactly(gaps: seq<string>, words: seq<string>)
    requires |gaps| == |words| + 1
    requires forall i | 0 <= i < |gaps| :: Blank(gaps[i]) && (0 < i < |words| ==> gaps[i] != [])
    requires forall i | 0 <= i < |words| :: Solid(words[i])
    ensures Fields(Spaced(gaps, words)) == words
    decreases |words|
  {
    if words == [] {
      FieldsAfterBlank(gaps[0], []);
      assert gaps[0] + [] == gaps[0];
    } else {
      var rest := Spaced(gaps[1..], words[1..]);
      FieldsAfterBlank(gaps[0], words[0] + rest);
      FieldsExactly(gaps[1..], words[1..]);
      assert gaps[1..][0] == gaps[1];
      assert rest != [] ==> IsWhitespace(rest[0]);
      WordThenSpace(words[0], rest);
      assert [words[0]] + words[1..] == words;
    }
  }
}
