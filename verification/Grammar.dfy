// What the validators accept, written out as texts made from parts: DNS names from labels,
// addresses from numbers, numerals with leading zeros.
module Grammar {
  import opened Text
  import opened Util
  import opened Numerals

  // ---- Labels and names ----------------------------------------------------

  predicate LabelCharacter(c: char) {
    'a' <= c <= 'z' || 'A' <= c <= 'Z' || '0' <= c <= '9' || c == '-'
  }

  // 1 to 63 letters, digits and hyphens, no hyphen at either end.
  predicate LabelText(s: string) {
    && 1 <= |s| <= 63
    && (forall i | 0 <= i < |s| :: LabelCharacter(s[i]))
    && s[0] != '-' && s[|s| - 1] != '-'
  }

  ghost predicate Labels(labels: seq<string>) {
    labels != [] && forall i | 0 <= i < |labels| :: LabelText(labels[i])
  }

  // Labels joined by dots, at most 253 characters, and perhaps a final dot.
  ghost predicate DnsNameOf(name: string, labels: seq<string>) {
    && Labels(labels) && |Join(labels, ".")| <= 253
    && (name == Join(labels, ".") || name == Join(labels, ".") + ".")
  }

  ghost predicate DnsNameText(name: string) {
    exists labels :: DnsNameOf(name, labels)
  }

  lemma {:induction false} LabelExactly(s: string)
    ensures ValidLabel(s) <==> LabelText(s)
    ensures LabelText(s) ==> '.' !in s && Ascii(s)
  {
    if ValidLabel(s) {
      forall i | 0 <= i < |s| ensures LabelCharacter(s[i]) { assert s[i] in s; }
      AsciiLength(s);
    }
    if LabelText(s) {
      assert forall i | 0 <= i < |s| :: LabelCharacter(s[i]);
      AsciiLength(s);
    }
  }

  lemma {:induction false} JoinedLabels(labels: seq<string>)
    requires Labels(labels)
    ensures var text := Join(labels, ".");
            text != [] && Ascii(text) && text[|text| - 1] != '.' && Split(text, '.') == labels
  {
    forall i | 0 <= i < |labels| ensures '.' !in labels[i] { LabelExactly(labels[i]); }
    SplitJoin(labels, '.');
    assert ['.'] == ".";
    JoinedLabelsEnd(labels);
  }

  lemma {:induction false} JoinedLabelsEnd(labels: seq<string>)
    requires Labels(labels)
    ensures var text := Join(labels, "."); text != [] && Ascii(text) && text[|text| - 1] != '.'
  {
    LabelExactly(labels[0]);
    assert labels[0][|labels[0]| - 1] in labels[0];
    if |labels| > 1 { JoinedLabelsEnd(labels[1..]); }
  }

  lemma {:induction false} NameFromLabels(name: string, labels: seq<string>)
    requires DnsNameOf(name, labels)
    ensures ValidDnsName(name) && WithoutFinalDot(name) == Join(labels, ".")
  {
    var text := Join(labels, ".");
    JoinedLabels(labels);
    AsciiLength(text);
    assert WithoutFinalDot(name) == text by {
      if name != text { assert name[..|name| - 1] == text; }
    }
    forall part | part in Split(text, '.') ensures ValidLabel(part) {
      var i :| 0 <= i < |labels| && labels[i] == part;
      LabelExactly(part);
    }
  }

  lemma {:induction false} LabelsFromName(name: string)
    requires ValidDnsName(name)
    ensures DnsNameOf(name, Split(WithoutFinalDot(name), '.'))
  {
    var bare := WithoutFinalDot(name);
    var labels := Split(bare, '.');
    JoinSplit(bare, '.');
    assert ['.'] == ".";
    forall i | 0 <= i < |labels| ensures LabelText(labels[i]) {
      assert labels[i] in labels;
      LabelExactly(labels[i]);
    }
    JoinedLabels(labels);
    AsciiLength(bare);
    assert name == bare || name == bare + ".";
  }

  // A name is accepted exactly if it is made of labels.
  lemma {:induction false} DnsNameExactly(name: string)
    ensures ValidDnsName(name) <==> DnsNameText(name)
  {
    if ValidDnsName(name) { LabelsFromName(name); }
    if labels :| DnsNameOf(name, labels) { NameFromLabels(name, labels); }
  }

  // Without a dot it is one label.
  lemma {:induction false} SingleLabelExactly(name: string)
    ensures ValidDnsName(name) && '.' !in name <==> LabelText(name)
  {
    LabelExactly(name);
    if '.' !in name {
      SplitSolid(name, '.');
      if name != [] { assert name[|name| - 1] in name; }
      assert WithoutFinalDot(name) == name;
      if LabelText(name) { AsciiLength(name); }
    }
  }

  // ---- Numerals ------------------------------------------------------------

  function Zeros(k: nat): (s: string)
    ensures |s| == k && forall i | 0 <= i < k :: s[i] == '0'
  {
    seq(k, _ => '0')
  }

  // The decimal text of a number behind any zeros.
  ghost predicate NumeralText(s: string, n: nat) {
    exists k: nat :: s == Zeros(k) + Decimal(n)
  }

  lemma {:induction false} LeadingZero(s: string)
    requires AllDigits(s)
    ensures AllDigits(['0'] + s) && Number(['0'] + s) == Number(s)
    decreases |s|
  {
    var padded := ['0'] + s;
    if s == [] {
      assert padded[..0] == [];
    } else {
      var front := s[..|s| - 1];
      assert padded[..|padded| - 1] == ['0'] + front;
      assert s[|s| - 1] in s;
      LeadingZero(front);
    }
  }

  lemma {:induction false} NumeralOf(s: string, k: nat, n: nat)
    requires s == Zeros(k) + Decimal(n)
    ensures s != [] && AllDigits(s) && Number(s) == n
    decreases k
  {
    NumberOfDecimal(n);
    if k == 0 {
      assert s == Decimal(n);
    } else {
      var rest := Zeros(k - 1) + Decimal(n);
      assert s == ['0'] + rest;
      NumeralOf(rest, k - 1, n);
      LeadingZero(rest);
    }
  }

  lemma OneMoreZero(k: nat, rest: string)
    ensures ['0'] + (Zeros(k) + rest) == Zeros(k + 1) + rest
  {
  }

  lemma {:induction false} ZerosOf(s: string) returns (k: nat)
    requires s != [] && AllDigits(s)
    ensures s == Zeros(k) + Decimal(Number(s))
    decreases |s|
  {
    assert s[0] in s;
    if s[0] == '0' && |s| > 1 {
      var rest := s[1..];
      assert s == ['0'] + rest;
      var fewer := ZerosOf(rest);
      LeadingZero(rest);
      OneMoreZero(fewer, Decimal(Number(rest)));
      k := fewer + 1;
    } else {
      DecimalOfNumber(s);
      k := 0;
      assert s == Zeros(0) + s;
    }
  }

  // Digits are read as a number exactly if they are its decimal behind zeros.
  lemma {:induction false} NumeralExactly(s: string, n: nat)
    ensures s != [] && AllDigits(s) && Number(s) == n <==> NumeralText(s, n)
  {
    if s != [] && AllDigits(s) { var k := ZerosOf(s); }
    if k: nat :| s == Zeros(k) + Decimal(n) { NumeralOf(s, k, n); }
  }

  // ---- Addresses -----------------------------------------------------------

  ghost predicate AddressText(text: string) {
    exists value: nat :: value < 0x1_0000_0000 && text == Dotted(value)
  }

  lemma {:induction false} FourNumbers(a: nat, b: nat, c: nat, d: nat)
    requires a < 256 && b < 256 && c < 256 && d < 256
    ensures var v := a * 0x100_0000 + b * 0x1_0000 + c * 0x100 + d;
            && v < 0x1_0000_0000
            && v / 0x100_0000 == a && v / 0x1_0000 % 0x100 == b && v / 0x100 % 0x100 == c && v % 0x100 == d
  {
    var v := a * 0x100_0000 + b * 0x1_0000 + c * 0x100 + d;
    assert v / 0x1_0000 == a * 0x100 + b;
    assert v / 0x100 == a * 0x1_0000 + b * 0x100 + c;
  }

  lemma {:induction false} OctetsJoin(octets: seq<string>)
    requires |octets| == 4 && forall i | 0 <= i < 4 :: Canonical(octets[i])
    ensures Split(Join(octets, "."), '.') == octets
  {
    forall i | 0 <= i < 4 ensures '.' !in octets[i] {}
    SplitJoin(octets, '.');
    assert ['.'] == ".";
  }

  lemma {:induction false} DottedIsAddress(value: nat)
    requires value < 0x1_0000_0000
    ensures ValidAddress(Dotted(value))
  {
    var a, b, c, d := value / 0x100_0000, value / 0x1_0000 % 0x100, value / 0x100 % 0x100, value % 0x100;
    NumberOfDecimal(a);
    NumberOfDecimal(b);
    NumberOfDecimal(c);
    NumberOfDecimal(d);
    OctetsJoin([Decimal(a), Decimal(b), Decimal(c), Decimal(d)]);
  }

  lemma {:induction false} DottedOfFour(a: nat, b: nat, c: nat, d: nat)
    requires a < 256 && b < 256 && c < 256 && d < 256
    ensures AddressText(Join([Decimal(a), Decimal(b), Decimal(c), Decimal(d)], "."))
  {
    FourNumbers(a, b, c, d);
    var v := a * 0x100_0000 + b * 0x1_0000 + c * 0x100 + d;
    assert Dotted(v) == Join([Decimal(a), Decimal(b), Decimal(c), Decimal(d)], ".");
  }

  lemma {:induction false} AddressIsDotted(text: string)
    requires ValidAddress(text)
    ensures AddressText(text)
  {
    var octets := Split(text, '.');
    assert octets[0] in octets && octets[1] in octets && octets[2] in octets && octets[3] in octets;
    DecimalOfNumber(octets[0]);
    DecimalOfNumber(octets[1]);
    DecimalOfNumber(octets[2]);
    DecimalOfNumber(octets[3]);
    assert octets == [octets[0], octets[1], octets[2], octets[3]];
    JoinSplit(text, '.');
    assert ['.'] == ".";
    DottedOfFour(Number(octets[0]), Number(octets[1]), Number(octets[2]), Number(octets[3]));
  }

  // A text is read as an address exactly if it is the dotted quad of a 32-bit number.
  lemma {:induction false} AddressExactly(text: string)
    ensures ValidAddress(text) <==> AddressText(text)
  {
    if ValidAddress(text) { AddressIsDotted(text); }
    if value: nat :| value < 0x1_0000_0000 && text == Dotted(value) { DottedIsAddress(value); }
  }
}
