// What file.read and file.write (src/commands/file.rs, src/commands/linux.rs) agree on: which
// paths, and which base64 text under one size cap.
module Relay {
  import opened Wrappers
  import opened Text
  import opened Base64
  import opened RelayPath
  import opened Registry
  import opened Report

  const RELAY_CAP_BYTES: nat := 256 * 1024
  const RELAY_CAP_B64: nat := RELAY_CAP_BYTES / 3 * 4 + 4

  datatype Platform = Windows | Posix

  predicate RelayPathOk(platform: Platform, path: string) {
    match platform
    case Windows => WindowsRelayPathOk(path)
    case Posix => PosixRelayPathOk(path)
  }

  // The accepted paths, as texts.
  ghost predicate RelayPathText(platform: Platform, path: string) {
    match platform
    case Windows => WindowsPathText(path)
    case Posix => PosixPathText(path)
  }

  lemma {:induction false} RelayPathExactly(platform: Platform, path: string)
    ensures RelayPathOk(platform, path) <==> RelayPathText(platform, path)
  {
    match platform
    case Windows => WindowsRelayPathExactly(path);
    case Posix => PosixRelayPathExactly(path);
  }

  function InvalidPath(platform: Platform): (e: CommandError)
    ensures e.InvalidParam? && e.param == "path"
  {
    InvalidParam("path",
      match platform
      case Windows =>
        "must be an absolute path under C:\\Transfer\\, the CertSrv CertEnroll dir, or C:\\CertEnroll\\"
      case Posix => "must be an absolute path under /opt/certsecure-manager/ or /var/lib/pki-executor/transfer/")
  }

  // The decoder each platform's script calls.
  function DecodeOn(platform: Platform, content: string): Option<seq<Byte>> {
    if platform.Windows? then Decode(content) else DecodeGroups(content)
  }

  // Two spellings name one file on Windows exactly if they differ in case alone.
  lemma KeyExactly(platform: Platform, a: string, b: string)
    ensures Key(platform, a) == Key(platform, b) <==> if platform.Windows? then SameIgnoringCase(a, b) else a == b
  {
    LoweredExactly(a, b);
  }

  // Windows file names do not distinguish case.
  function Key(platform: Platform, path: string): string {
    if platform.Windows? then ToLower(path) else path
  }

  predicate Base64Character(c: char) {
    IsAlphanumeric(c) || c == '+' || c == '/' || c == '='
  }

  predicate Base64Text(content: string) {
    forall i | 0 <= i < |content| :: Base64Character(content[i])
  }

  // file.write's checks on its content, as the code makes them.
  predicate Admitted(content: string) {
    Utf8Len(content) <= RELAY_CAP_B64 && content != "" && Base64Text(content)
  }

  // ---- What the checks admit -----------------------------------------------

  lemma AdmittedSize(content: string)
    requires Base64Text(content)
    ensures Admitted(content) <==> 1 <= |content| <= RELAY_CAP_B64
  {
    forall i | 0 <= i < |content| ensures content[i] as int < 0x80 {
      assert Base64Character(content[i]);
    }
    AsciiLength(content);
  }

  lemma EncodingIsBase64Text(bytes: seq<Byte>)
    ensures Base64Text(Encode(bytes))
  {
    EncodedAlphabet(bytes);
    forall i | 0 <= i < |Encode(bytes)| ensures Base64Character(Encode(bytes)[i]) {
      assert Encode(bytes)[i] in Encode(bytes);
    }
  }

  lemma WholeGroups(n: nat, size: nat)
    requires size == (n + 2) / 3 * 4
    ensures 1 <= size <= RELAY_CAP_B64 <==> 1 <= n <= RELAY_CAP_BYTES + 2
  {
  }

  lemma CapAdmitsSizes(content: string, n: nat)
    requires Base64Text(content) && |content| == (n + 2) / 3 * 4
    ensures Admitted(content) <==> 1 <= n <= 262146
  {
    AdmittedSize(content);
    WholeGroups(n, |content|);
  }

  // The encodings the cap admits are those of 1 to 262146 bytes: the decoded cap, rounded
  // up to a whole group.
  lemma {:induction false} CapAdmitsExactly(bytes: seq<Byte>)
    ensures Admitted(Encode(bytes)) <==> 1 <= |bytes| <= 262146
  {
    EncodingIsBase64Text(bytes);
    EncodedLength(bytes);
    CapAdmitsSizes(Encode(bytes), |bytes|);
  }

  // Whatever file.read returns for a file that is not empty passes every check of
  // file.write and decodes to the file.
  lemma {:induction false} ReadPassesWrite(bytes: seq<Byte>)
    requires 1 <= |bytes| <= RELAY_CAP_BYTES
    ensures Admitted(Encode(bytes)) && Decode(Encode(bytes)) == Some(bytes)
  {
    CapAdmitsExactly(bytes);
    DecodeEncode(bytes);
  }

  lemma CapInCharacters()
    ensures RELAY_CAP_B64 == 349528
  {
  }

  lemma GroupBounds(size: nat, n: nat)
    requires 1 <= size <= 349528 && size <= 4 * n <= 3 * size
    ensures 1 <= n <= 262146
  {
  }

  // What the checks on content come to: 1 to 349528 characters, each of the alphabet or the
  // padding.
  lemma {:induction false} AdmittedExactly(content: string)
    ensures Admitted(content) <==>
            1 <= |content| <= 349528 && forall i | 0 <= i < |content| :: SextetOf(content[i]).Some? || content[i] == '='
  {
    CapInCharacters();
    forall c: char ensures Base64Character(c) <==> SextetOf(c).Some? || c == '=' {}
    if Base64Text(content) {
      AdmittedSize(content);
    }
  }

  lemma {:induction false} GroupsReadBack(content: string, bytes: seq<Byte>)
    requires 1 <= |content| <= 349528 && DecodeGroups(content) == Some(bytes)
    ensures 1 <= |bytes| <= 262146
    ensures Encode(bytes) == content <==> !InnerPadded(content) && ZeroTail(content)
  {
    GroupsCount(content);
    GroupBounds(|content|, |bytes|);
    EncodeDecodeGroups(content);
  }

  // Of any content, canonical or not, on either platform: what the checks let through is
  // written as 1 to 262146 bytes, and the file read back is the same text unless a group
  // before the last is padded or there are stray bits under the padding.
  lemma {:induction false} WrittenReadsBack(platform: Platform, content: string, bytes: seq<Byte>)
    requires Admitted(content) && DecodeOn(platform, content) == Some(bytes)
    ensures 1 <= |bytes| <= 262146
    ensures Encode(bytes) == content <==> !InnerPadded(content) && ZeroTail(content)
  {
    AdmittedSize(content);
    CapInCharacters();
    DecodersAgreeExactly(content);
    GroupsReadBack(content, bytes);
  }

  // The two platforms write the same file, or both refuse, exactly unless the content is
  // padded before its last group and every group reads by itself: then only Linux writes it.
  lemma {:induction false} PlatformsWriteAlike(content: string)
    ensures DecodeOn(Windows, content) == DecodeOn(Posix, content)
            <==> !(InnerPadded(content) && DecodeOn(Posix, content).Some?)
    ensures DecodeOn(Windows, content).Some? ==> DecodeOn(Posix, content) == DecodeOn(Windows, content)
  {
    DecodersAgreeExactly(content);
  }

  // Such content passes every check.
  lemma {:induction false} InnerPaddingIsAdmitted()
    ensures Admitted(INNER_PADDED)
    ensures DecodeOn(Windows, INNER_PADDED) == None && DecodeOn(Posix, INNER_PADDED) == Some([65, 65])
  {
    AdmittedSize(INNER_PADDED);
    InnerPaddingSeparatesTheDecoders();
  }

  function EncodedSize(n: nat): nat {
    (n + 2) / 3 * 4
  }

  // The largest file whose encoding fits into one argument.
  lemma LargestInOneArgument(n: nat, limit: nat)
    ensures EncodedSize(n) <= limit <==> n <= limit / 4 * 3
  {
    var groups := (n + 2) / 3;
    assert groups * 4 <= limit <==> groups <= limit / 4;
  }

  // The encoding of some bytes, on its way to the target.
  lemma {:induction false} EncodingFits(content: string, bytes: seq<Byte>, platform: Platform, limit: nat)
    requires Decode(content) == Some(bytes) && ZeroTail(content)
    ensures content == Encode(bytes) && DecodeOn(platform, content) == Some(bytes)
    ensures |content| <= limit <==> |bytes| <= limit / 4 * 3
  {
    EncodeDecode(content);
    DecodersAgreeExactly(content);
    LargestInOneArgument(|bytes|, limit);
  }
}
