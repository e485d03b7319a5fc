// Base64 as section 4 of RFC 4648 defines it.
module Base64 {
  import opened Wrappers

  type Byte = n: int | 0 <= n < 256
  type Sextet = n: int | 0 <= n < 64

  // ---- The alphabet --------------------------------------------------------

  function CharOf(n: Sextet): char {
    if n < 26 then (65 + n) as char
    else if n < 52 then (71 + n) as char
    else if n < 62 then (n - 4) as char
    else if n == 62 then '+' else '/'
  }

  function SextetOf(c: char): Option<Sextet> {
    var n := c as int;
    if 65 <= n <= 90 then Some(n - 65)
    else if 97 <= n <= 122 then Some(n - 71)
    else if 48 <= n <= 57 then Some(n + 4)
    else if c == '+' then Some(62)
    else if c == '/' then Some(63)
    else None
  }

  lemma AlphabetRoundTrip(n: Sextet)
    ensures SextetOf(CharOf(n)) == Some(n) && CharOf(n) != '='
  {
  }

  lemma AlphabetIsOneToOne(c: char)
    ensures SextetOf(c).Some? ==> CharOf(SextetOf(c).value) == c
    ensures SextetOf('=') == None
  {
  }

  // ---- Encoding ------------------------------------------------------------

  function Encode(bytes: seq<Byte>): string {
    if bytes == [] then []
    else if |bytes| == 1 then
      [CharOf(bytes[0] / 4), CharOf(bytes[0] % 4 * 16), '=', '=']
    else if |bytes| == 2 then
      [CharOf(bytes[0] / 4), CharOf(bytes[0] % 4 * 16 + bytes[1] / 16), CharOf(bytes[1] % 16 * 4), '=']
    else Group(bytes[0], bytes[1], bytes[2]) + Encode(bytes[3..])
  }

  function Group(a: Byte, b: Byte, c: Byte): string {
    [CharOf(a / 4), CharOf(a % 4 * 16 + b / 16), CharOf(b % 16 * 4 + c / 64), CharOf(c % 64)]
  }

  // ---- Decoding ------------------------------------------------------------

  function Whole(s: string): Option<seq<Byte>>
    requires |s| == 4
  {
    var w, x, y, z := SextetOf(s[0]), SextetOf(s[1]), SextetOf(s[2]), SextetOf(s[3]);
    if w.None? || x.None? || y.None? || z.None? then None
    else Some([w.value * 4 + x.value / 16, x.value % 16 * 16 + y.value / 4, y.value % 4 * 64 + z.value])
  }

  // The last group may be padded; bits that fall under the padding are ignored.
  function Last(s: string): Option<seq<Byte>>
    requires |s| == 4
  {
    var w, x, y := SextetOf(s[0]), SextetOf(s[1]), SextetOf(s[2]);
    if s[3] != '=' then Whole(s)
    else if w.None? || x.None? then None
    else if s[2] == '=' then Some([w.value * 4 + x.value / 16])
    else if y.None? then None
    else Some([w.value * 4 + x.value / 16, x.value % 16 * 16 + y.value / 4])
  }

  function Decode(s: string): Option<seq<Byte>> {
    if s == [] then Some([])
    else if |s| < 4 then None
    else if |s| == 4 then Last(s)
    else
      var first, rest := Whole(s[..4]), Decode(s[4..]);
      if first.None? || rest.None? then None else Some(first.value + rest.value)
  }

  // GNU `base64 -d` reads every group by itself, so that any group may be padded.
  function DecodeGroups(s: string): Option<seq<Byte>> {
    if s == [] then Some([])
    else if |s| < 4 then None
    else
      var first, rest := Last(s[..4]), DecodeGroups(s[4..]);
      if first.None? || rest.None? then None else Some(first.value + rest.value)
  }

  // Padding before the last group.
  predicate InnerPadded(s: string) {
    |s| > 4 && (s[3] == '=' || InnerPadded(s[4..]))
  }

  // Whether the bits under the padding are zero, as an encoder leaves them.
  predicate ZeroTail(s: string) {
    && (|s| >= 4 && s[|s| - 1] == '=' && s[|s| - 2] == '=' && SextetOf(s[|s| - 3]).Some? ==>
          SextetOf(s[|s| - 3]).value % 16 == 0)
    && (|s| >= 4 && s[|s| - 1] == '=' && s[|s| - 2] != '=' && SextetOf(s[|s| - 2]).Some? ==>
          SextetOf(s[|s| - 2]).value % 4 == 0)
  }

  // ---- Size and alphabet of an encoding ------------------------------------

  lemma {:induction false} EncodedLength(bytes: seq<Byte>)
    ensures |Encode(bytes)| == (|bytes| + 2) / 3 * 4
  {
    var n := |bytes|;
    if n >= 3 {
      EncodedLength(bytes[3..]);
      assert (n + 2) / 3 == (n - 3 + 2) / 3 + 1;
      assert |Encode(bytes)| == 4 + |Encode(bytes[3..])|;
    }
  }

  lemma {:induction false} EncodedAlphabet(bytes: seq<Byte>)
    ensures forall c | c in Encode(bytes) :: SextetOf(c).Some? || c == '='
  {
    forall n: Sextet ensures SextetOf(CharOf(n)).Some? { AlphabetRoundTrip(n); }
    if |bytes| >= 3 { EncodedAlphabet(bytes[3..]); }
  }

  // ---- Round trips ---------------------------------------------------------

  lemma GroupRoundTrip(a: Byte, b: Byte, c: Byte)
    ensures Whole(Group(a, b, c)) == Some([a, b, c])
    ensures Group(a, b, c)[3] != '='
  {
    var w, x, y, z := a / 4, a % 4 * 16 + b / 16, b % 16 * 4 + c / 64, c % 64;
    AlphabetRoundTrip(w);
    AlphabetRoundTrip(x);
    AlphabetRoundTrip(y);
    AlphabetRoundTrip(z);
    assert w * 4 + x / 16 == a;
    assert x % 16 * 16 + y / 4 == b;
    assert y % 4 * 64 + z == c;
  }

  // A full group in front of something encoded.
  lemma DecodeGroup(a: Byte, b: Byte, c: Byte, rest: string)
    requires Decode(rest).Some?
    ensures Decode(Group(a, b, c) + rest) == Some([a, b, c] + Decode(rest).value)
  {
    var group := Group(a, b, c);
    GroupRoundTrip(a, b, c);
    if rest == [] {
      assert group + rest == group;
      assert [a, b, c] + [] == [a, b, c];
    } else {
      assert |rest| >= 4;
      assert (group + rest)[..4] == group && (group + rest)[4..] == rest;
    }
  }

  lemma DecodeOne(a: Byte)
    ensures Decode(Encode([a])) == Some([a])
  {
    var w: int, x: int := a / 4, a % 4 * 16;
    AlphabetRoundTrip(w);
    AlphabetRoundTrip(x);
    assert Encode([a]) == [CharOf(w), CharOf(x), '=', '='];
    assert w * 4 + x / 16 == a;
  }

  lemma DecodeTwo(a: Byte, b: Byte)
    ensures Decode(Encode([a, b])) == Some([a, b])
  {
    var w: int, x: int, y: int := a / 4, a % 4 * 16 + b / 16, b % 16 * 4;
    AlphabetRoundTrip(w);
    AlphabetRoundTrip(x);
    AlphabetRoundTrip(y);
    assert Encode([a, b]) == [CharOf(w), CharOf(x), CharOf(y), '='];
    assert w * 4 + x / 16 == a;
    assert x % 16 * 16 + y / 4 == b;
  }

  // Decoding an encoding gives the bytes back.
  lemma {:induction false} DecodeEncode(bytes: seq<Byte>)
    ensures Decode(Encode(bytes)) == Some(bytes)
  {
    if |bytes| == 1 {
      DecodeOne(bytes[0]);
      assert bytes == [bytes[0]];
    } else if |bytes| == 2 {
      DecodeTwo(bytes[0], bytes[1]);
      assert bytes == [bytes[0], bytes[1]];
    } else if |bytes| >= 3 {
      DecodeEncode(bytes[3..]);
      DecodeGroup(bytes[0], bytes[1], bytes[2], Encode(bytes[3..]));
      assert bytes == [bytes[0], bytes[1], bytes[2]] + bytes[3..];
    }
  }

  lemma GroupOf(w: Sextet, x: Sextet, y: Sextet, z: Sextet)
    ensures var a: int, b: int, c: int := w * 4 + x / 16, x % 16 * 16 + y / 4, y % 4 * 64 + z;
            Group(a, b, c) == [CharOf(w), CharOf(x), CharOf(y), CharOf(z)]
  {
    Unpack(w, x, y, z);
  }

  lemma WholeDetermines(s: string)
    requires |s| == 4
    ensures var bytes := Whole(s);
            bytes.Some? ==> |bytes.value| == 3 && Group(bytes.value[0], bytes.value[1], bytes.value[2]) == s
  {
    if Whole(s).Some? {
      AlphabetIsOneToOne(s[0]);
      AlphabetIsOneToOne(s[1]);
      AlphabetIsOneToOne(s[2]);
      AlphabetIsOneToOne(s[3]);
      GroupOf(SextetOf(s[0]).value, SextetOf(s[1]).value, SextetOf(s[2]).value, SextetOf(s[3]).value);
      assert s == [s[0], s[1], s[2], s[3]];
    }
  }

  lemma Unpack(w: Sextet, x: Sextet, y: Sextet, z: Sextet)
    ensures var a: int, b: int, c: int := w * 4 + x / 16, x % 16 * 16 + y / 4, y % 4 * 64 + z;
            a / 4 == w && a % 4 * 16 + b / 16 == x && b % 16 * 4 + c / 64 == y && c % 64 == z
  {
  }

  lemma LastDetermines(s: string)
    requires |s| == 4 && Last(s).Some?
    ensures 1 <= |Last(s).value| <= 3
    ensures Encode(Last(s).value) == s <==> ZeroTail(s)
  {
    AlphabetIsOneToOne(s[0]);
    AlphabetIsOneToOne(s[1]);
    AlphabetIsOneToOne(s[2]);
    if s[3] != '=' {
      WholeDetermines(s);
      var bytes := Last(s).value;
      assert Encode(bytes[3..]) == [];
      assert Encode(bytes) == Group(bytes[0], bytes[1], bytes[2]) + [];
    } else {
      LastPadded(s);
    }
  }

  lemma LastPadded(s: string)
    requires |s| == 4 && Last(s).Some? && s[3] == '='
    ensures 1 <= |Last(s).value| <= 2
    ensures Encode(Last(s).value) == s <==> ZeroTail(s)
  {
    AlphabetIsOneToOne(s[0]);
    AlphabetIsOneToOne(s[1]);
    AlphabetIsOneToOne(s[2]);
    var w: int, x: int := SextetOf(s[0]).value, SextetOf(s[1]).value;
    assert s == [s[0], s[1], s[2], s[3]];
    if s[2] == '=' {
      assert Last(s).value == [w * 4 + x / 16];
      PaddedTwice(s, w, x);
    } else {
      var y: int := SextetOf(s[2]).value;
      assert Last(s).value == [w * 4 + x / 16, x % 16 * 16 + y / 4];
      PaddedOnce(s, w, x, y);
    }
  }

  lemma PaddedTwice(s: string, w: Sextet, x: Sextet)
    requires s == [CharOf(w), CharOf(x), '=', '=']
    ensures Encode([w * 4 + x / 16]) == s <==> x % 16 == 0
  {
    var a: int := w * 4 + x / 16;
    var x': int := a % 4 * 16;
    AlphabetRoundTrip(x);
    AlphabetRoundTrip(x');
    assert a / 4 == w;
    assert x' == x <==> x % 16 == 0;
    assert Encode([a]) == [CharOf(w), CharOf(x'), '=', '='];
    assert Encode([a])[1] == CharOf(x');
  }

  lemma PaddedOnce(s: string, w: Sextet, x: Sextet, y: Sextet)
    requires s == [CharOf(w), CharOf(x), CharOf(y), '=']
    ensures Encode([w * 4 + x / 16, x % 16 * 16 + y / 4]) == s <==> y % 4 == 0
  {
    var a: int, b: int := w * 4 + x / 16, x % 16 * 16 + y / 4;
    var y': int := b % 16 * 4;
    Unpack(w, x, y, 0);
    AlphabetRoundTrip(y);
    AlphabetRoundTrip(y');
    assert y' == y - y % 4;
    assert Encode([a, b]) == [CharOf(w), CharOf(x), CharOf(y'), '='];
    assert Encode([a, b])[2] == CharOf(y');
  }

  lemma GroupAndRest(s: string, first: seq<Byte>, rest: seq<Byte>)
    requires |s| > 4 && |first| == 3 && Group(first[0], first[1], first[2]) == s[..4]
    ensures Encode(first + rest) == s[..4] + Encode(rest)
    ensures Encode(first + rest) == s <==> Encode(rest) == s[4..]
  {
    var bytes := first + rest;
    assert bytes[3..] == rest;
    assert bytes[0] == first[0] && bytes[1] == first[1] && bytes[2] == first[2];
    assert s == s[..4] + s[4..];
    if Encode(bytes) == s { assert (s[..4] + Encode(rest))[4..] == Encode(rest); }
  }

  lemma DecodeSplit(s: string)
    requires |s| > 4 && Decode(s).Some?
    ensures |s| >= 8 && Whole(s[..4]).Some? && Decode(s[4..]).Some?
    ensures Decode(s).value == Whole(s[..4]).value + Decode(s[4..]).value
  {
    assert |s[4..]| >= 4;
  }

  lemma LastLength(s: string)
    requires |s| == 4 && Decode(s).Some?
    ensures (|Decode(s).value| + 2) / 3 == 1
    ensures Encode(Decode(s).value) == s <==> ZeroTail(s)
  {
    LastDetermines(s);
    var n := |Last(s).value|;
    assert n == 1 || n == 2 || n == 3;
  }

  lemma GroupCount(n: nat)
    ensures (n + 3 + 2) / 3 * 4 == (n + 2) / 3 * 4 + 4
  {
  }

  // Whatever decodes has the length of its bytes' encoding, and is that encoding exactly
  // when the bits under its padding are zero.
  lemma {:induction false} EncodeDecode(s: string)
    requires Decode(s).Some?
    ensures |s| == (|Decode(s).value| + 2) / 3 * 4
    ensures Encode(Decode(s).value) == s <==> ZeroTail(s)
    decreases |s|
  {
    if |s| == 4 {
      LastLength(s);
    } else if s != [] {
      DecodeSplit(s);
      var first, rest := Whole(s[..4]).value, Decode(s[4..]).value;
      EncodeDecode(s[4..]);
      WholeDetermines(s[..4]);
      GroupAndRest(s, first, rest);
      GroupCount(|rest|);
      TailOfRest(s);
    }
  }

  lemma TailOfRest(s: string)
    requires |s| >= 8
    ensures ZeroTail(s) <==> ZeroTail(s[4..])
  {
  }

  // ---- The two decoders ----------------------------------------------------

  lemma LastIsWhole(s: string)
    requires |s| == 4
    ensures s[3] != '=' ==> Last(s) == Whole(s)
    ensures s[3] == '=' ==> Whole(s).None?
    ensures Last(s).Some? ==> 1 <= |Last(s).value| <= 3
  {
    AlphabetIsOneToOne('=');
  }

  lemma DecodeGroupsSplit(s: string)
    requires |s| >= 4 && DecodeGroups(s).Some?
    ensures Last(s[..4]).Some? && DecodeGroups(s[4..]).Some?
    ensures DecodeGroups(s).value == Last(s[..4]).value + DecodeGroups(s[4..]).value
  {
  }

  lemma DecodersOnOneGroup(s: string)
    requires |s| == 4
    ensures Decode(s) == DecodeGroups(s)
  {
    assert s[..4] == s && s[4..] == [];
    if Last(s).Some? { assert Last(s).value + [] == Last(s).value; }
  }

  // What the strict decoder reads, the lenient one reads alike; the lenient one reads more
  // exactly where a group before the last is padded.
  lemma {:induction false} DecodersAgreeExactly(s: string)
    ensures Decode(s).Some? ==> DecodeGroups(s) == Decode(s)
    ensures DecodeGroups(s).Some? ==> (Decode(s) == DecodeGroups(s) <==> !InnerPadded(s))
    decreases |s|
  {
    if |s| == 4 {
      DecodersOnOneGroup(s);
    } else if |s| > 4 {
      LastIsWhole(s[..4]);
      DecodersAgreeExactly(s[4..]);
      assert s[..4][3] == s[3];
    }
  }

  // A lenient decoding takes one to three bytes from each group.
  lemma {:induction false} GroupsCount(s: string)
    requires DecodeGroups(s).Some?
    ensures |s| <= 4 * |DecodeGroups(s).value| <= 3 * |s|
    decreases |s|
  {
    if s != [] {
      DecodeGroupsSplit(s);
      LastIsWhole(s[..4]);
      GroupsCount(s[4..]);
      assert |s[4..]| == |s| - 4;
    }
  }

  // Whatever the lenient decoder reads is the encoding of its bytes exactly when only the
  // last group is padded and the bits under the padding are zero.
  lemma {:induction false} EncodeDecodeGroups(s: string)
    requires DecodeGroups(s).Some?
    ensures Encode(DecodeGroups(s).value) == s <==> !InnerPadded(s) && ZeroTail(s)
  {
    var bytes := DecodeGroups(s).value;
    DecodersAgreeExactly(s);
    if Encode(bytes) == s { DecodeEncode(bytes); }
    if Decode(s).Some? { EncodeDecode(s); }
  }

  lemma ReadsOne(w: Sextet, x: Sextet)
    ensures Last([CharOf(w), CharOf(x), '=', '=']) == Some([w * 4 + x / 16])
  {
    AlphabetRoundTrip(w);
    AlphabetRoundTrip(x);
  }

  const INNER_PADDED: string := ['Q', 'Q', '=', '=', 'Q', 'Q', '=', '=']

  // Such content: the lenient decoder reads two bytes where the strict one refuses.
  lemma {:induction false} InnerPaddingSeparatesTheDecoders()
    ensures InnerPadded(INNER_PADDED)
    ensures Decode(INNER_PADDED) == None && DecodeGroups(INNER_PADDED) == Some([65, 65])
  {
    var s, group: string := INNER_PADDED, ['Q', 'Q', '=', '='];
    assert s[..4] == group && s[4..] == group && group[..4] == group && group[4..] == [];
    assert CharOf(16) == 'Q';
    ReadsOne(16, 16);
    LastIsWhole(group);
    assert DecodeGroups(group) == Some([65] + []);
    assert [65] + [] == [65] && [65] + [65] == [65, 65];
  }

  // ---- The code itself, as section 4 of RFC 4648 gives it ------------------

  // Capitals, small letters, digits, plus, slash.
  lemma {:induction false} AlphabetIsStandard(n: Sextet)
    ensures n < 26 ==> CharOf(n) as int - 'A' as int == n && 'A' <= CharOf(n) <= 'Z'
    ensures 26 <= n < 52 ==> CharOf(n) as int - 'a' as int == n - 26 && 'a' <= CharOf(n) <= 'z'
    ensures 52 <= n < 62 ==> CharOf(n) as int - '0' as int == n - 52 && '0' <= CharOf(n) <= '9'
    ensures CharOf(62) == '+' && CharOf(63) == '/'
  {
  }

  // A number of 24 bits, most significant byte first, is its four digits of six bits.
  lemma {:induction false} DigitsOfThree(a: Byte, b: Byte, c: Byte)
    ensures var bits: int := a * 0x1_0000 + b * 0x100 + c;
            && bits / 0x4_0000 == a / 4
            && bits / 0x1000 % 64 == a % 4 * 16 + b / 16
            && bits / 64 % 64 == b % 16 * 4 + c / 64
            && bits % 64 == c % 64
  {
    var bits: int := a * 0x1_0000 + b * 0x100 + c;
    assert bits / 0x1000 == a * 16 + b / 16;
    assert bits / 64 == (a * 0x100 + b) * 4 + c / 64;
  }

  lemma {:induction false} GroupIsBigEndian(a: Byte, b: Byte, c: Byte)
    ensures var bits: int := a * 0x1_0000 + b * 0x100 + c;
            Encode([a, b, c]) == [CharOf(bits / 0x4_0000), CharOf(bits / 0x1000 % 64),
                                  CharOf(bits / 64 % 64), CharOf(bits % 64)]
  {
    DigitsOfThree(a, b, c);
    assert [a, b, c][3..] == [];
    assert Encode([a, b, c]) == Group(a, b, c) + [] == Group(a, b, c);
  }

  // What is short of three bytes is filled up with zero bits.
  lemma {:induction false} DigitsOfTwo(a: Byte, b: Byte)
    ensures var bits: int := (a * 0x100 + b) * 4;
            && bits / 0x1000 == a / 4
            && bits / 64 % 64 == a % 4 * 16 + b / 16
            && bits % 64 == b % 16 * 4
  {
    var bits: int := (a * 0x100 + b) * 4;
    assert bits / 64 == a * 16 + b / 16;
  }

  lemma {:induction false} TwoAreBigEndian(a: Byte, b: Byte)
    ensures var bits: int := (a * 0x100 + b) * 4;
            Encode([a, b]) == [CharOf(bits / 0x1000), CharOf(bits / 64 % 64), CharOf(bits % 64), '=']
  {
    DigitsOfTwo(a, b);
  }

  lemma {:induction false} OneIsBigEndian(a: Byte)
    ensures var bits: int := a * 16; Encode([a]) == [CharOf(bits / 64), CharOf(bits % 64), '=', '=']
  {
    assert a * 16 / 64 == a / 4 && a * 16 % 64 == a % 4 * 16;
  }

  // Whole groups are encoded one after the other.
  lemma {:induction false} EncodeConcat(a: seq<Byte>, b: seq<Byte>)
    requires |a| % 3 == 0
    ensures Encode(a + b) == Encode(a) + Encode(b)
  {
    if a == [] {
      assert a + b == b;
    } else {
      assert |a| >= 3 && (a + b)[3..] == a[3..] + b;
      EncodeConcat(a[3..], b);
      if b == [] { assert a + b == a; }
    }
  }

  // What falls under the padding is ignored.
  lemma ReadsTwo(w: Sextet, x: Sextet, y: Sextet)
    ensures Last([CharOf(w), CharOf(x), CharOf(y), '=']) == Some([w * 4 + x / 16, x % 16 * 16 + y / 4])
  {
    AlphabetRoundTrip(w);
    AlphabetRoundTrip(x);
    AlphabetRoundTrip(y);
  }
}
