// The file.read and file.write handlers of src/commands/file.rs (Windows) and
// src/commands/linux.rs (Linux), each with its own script, and one artifact carried from
// host to host.
module RelayHost {
  import opened Wrappers
  import opened Text
  import opened Base64
  import opened RelayPath
  import opened Registry
  import opened Relay
  import opened Report

  // What a path can name, with the size `stat` gives.
  datatype Node = Regular(bytes: seq<Byte>) | Directory(size: nat)

  // What starting a shell allows at least one argument to be; no accepted path is longer.
  type ArgumentLimit = n: int | 200 <= n witness 200

  datatype Output = Output(contentB64: string, sha256: string, size: nat)

  datatype FileContent = FileContent(path: string, output: Output)

  datatype Written = Written(path: string, sha256: string)

  type Digest = seq<Byte> -> string

  // How the outside world treats one run of the read script.
  datatype ReadRun = ReadRun(
    starts: bool,             // the shell starts and the path can be looked up
    breaksAt: Option<nat>,    // reading the file fails after so many bytes
    digests: bool,            // the digest is computed
    parses: bool,             // the output of a script that exits well reads as JSON
    message: string)          // what a failing run says

  // The same of the write script.
  datatype WriteRun = WriteRun(
    works: bool,                // the shell starts and the disk does what it is asked
    left: Option<seq<Byte>>,    // if not, what a write that stopped left in its file
    partial: seq<Byte>,         // what `base64 -d` gets out of content it then rejects
    digests: bool,
    message: string)

  // ---- The read scripts ----------------------------------------------------

  function Size(node: Node): nat {
    match node
    case Regular(bytes) => |bytes|
    case Directory(size) => size
  }

  // What a reader gets out of a node before the end or an error: nothing of a directory.
  function Got(node: Node, run: ReadRun): seq<Byte> {
    match node
    case Directory(_) => []
    case Regular(bytes) =>
      if run.breaksAt.Some? && run.breaksAt.value < |bytes| then bytes[..run.breaksAt.value] else bytes
  }

  // Whether the node is a file and is read to its end.
  predicate ReadThrough(node: Node, run: ReadRun) {
    node.Regular? && (run.breaksAt.Some? ==> |node.bytes| <= run.breaksAt.value)
  }

  // When the script exits well. On Windows every step that fails stops it. On Linux only
  // the lookup and the size test can: base64 and sha256sum run inside arguments of printf,
  // where their failure is not seen.
  predicate Exits(platform: Platform, node: Option<Node>, run: ReadRun) {
    && run.starts && node.Some? && Size(node.value) <= RELAY_CAP_BYTES
    && (platform.Windows? ==> ReadThrough(node.value, run) && run.digests)
  }

  function DigestOf(node: Node, run: ReadRun, sha256: Digest): string {
    if node.Regular? && run.digests then sha256(node.bytes) else ""
  }

  // What it then prints: the canonical encoding of what was got, the digest or nothing in
  // its place, and the size looked up.
  ghost predicate Prints(node: Node, run: ReadRun, sha256: Digest, output: Output) {
    && Decode(output.contentB64) == Some(Got(node, run)) && ZeroTail(output.contentB64)
    && output.sha256 == DigestOf(node, run, sha256)
    && output.size == Size(node)
  }

  // ---- What a receiver can tell --------------------------------------------

  ghost predicate NeverEmpty(sha256: Digest) {
    forall bytes :: sha256(bytes) != ""
  }

  // The digest separates what was got from what the file holds.
  ghost predicate Separates(sha256: Digest, node: Node, run: ReadRun) {
    node.Regular? && sha256(Got(node, run)) == sha256(node.bytes) ==> Got(node, run) == node.bytes
  }

  lemma GotIsWholeExactly(node: Node, run: ReadRun)
    ensures node.Regular? ==> (Got(node, run) == node.bytes <==> ReadThrough(node, run))
  {
  }

  // An output is the file and its digest exactly if the path names a file and both
  // commands read it through.
  lemma {:induction false} ReadIsTheFile(node: Node, run: ReadRun, sha256: Digest, output: Output)
    requires Prints(node, run, sha256, output) && NeverEmpty(sha256)
    ensures node.Regular? && output.contentB64 == Encode(node.bytes) && output.sha256 == sha256(node.bytes)
            <==> ReadThrough(node, run) && run.digests
  {
    GotIsWholeExactly(node, run);
    EncodeDecode(output.contentB64);
    if node.Regular? { DecodeEncode(node.bytes); }
  }

  // A receiver that compares the digest with that of the decoded content learns just this.
  lemma {:induction false} DigestTells(node: Node, run: ReadRun, sha256: Digest, output: Output)
    requires Prints(node, run, sha256, output) && NeverEmpty(sha256) && Separates(sha256, node, run)
    ensures output.sha256 == sha256(Decode(output.contentB64).value) <==> ReadThrough(node, run) && run.digests
  {
    GotIsWholeExactly(node, run);
  }

  // One that compares sizes learns as much of the content alone, save for a directory that
  // `stat` gives no size.
  lemma {:induction false} SizeTells(node: Node, run: ReadRun, sha256: Digest, output: Output)
    requires Prints(node, run, sha256, output)
    ensures output.size == |Decode(output.contentB64).value| <==> ReadThrough(node, run) || node == Directory(0)
  {
    GotIsWholeExactly(node, run);
  }

  // ---- A directory ---------------------------------------------------------

  // Linux reports a directory as read, with no content and no digest; Windows does not.
  lemma {:induction false} DirectoryReadsAsDone(size: nat, run: ReadRun, sha256: Digest, output: Output)
    requires size <= RELAY_CAP_BYTES && run.starts
    ensures Exits(Posix, Some(Directory(size)), run) && !Exits(Windows, Some(Directory(size)), run)
    ensures Prints(Directory(size), run, sha256, output) <==> output == Output("", "", size)
  {
    if Decode(output.contentB64) == Some([]) { EncodeDecode(output.contentB64); }
  }

  const CONF_DIRECTORY: string := POSIX_PREFIXES[0] + ['c', 'o', 'n', 'f']

  // The path check lets directories through: /opt/certsecure-manager/conf, say.
  lemma {:induction false} ConfDirectoryIsAccepted()
    ensures PosixRelayPathOk(CONF_DIRECTORY)
  {
    FirstPrefixIsPlain();
    PlainPathIsAllowed(POSIX_PREFIXES[0], ['c', 'o', 'n', 'f'], POSIX_PREFIXES);
  }

  ghost predicate Plain(s: string) {
    forall i | 0 <= i < |s| :: IsAlphanumeric(s[i]) || s[i] == '/' || s[i] == '-'
  }

  lemma FirstPrefixIsPlain()
    ensures Plain(POSIX_PREFIXES[0]) && 1 <= |POSIX_PREFIXES[0]| <= 40 && POSIX_PREFIXES[0][0] == '/'
  {
  }

  lemma {:induction false} PlainPathIsAllowed(prefix: string, name: string, prefixes: seq<string>)
    requires prefix in prefixes && Plain(prefix) && Plain(name)
    requires 1 <= |prefix| <= 40 && 1 <= |name| <= 10 && prefix[0] == '/'
    ensures PosixAllowed(prefix + name, prefixes)
  {
    var path := prefix + name;
    assert Plain(path);
    assert Ascii(path) && Ascii(prefix);
    AsciiLength(path);
    AsciiLength(prefix);
    forall c | c in path[1..] ensures IsAlphanumeric(c) || c in " ._-/" {
      var i :| 0 <= i < |path| - 1 && path[1..][i] == c;
      assert path[i + 1] == c;
      assert " ._-/"[3] == '-' && " ._-/"[4] == '/';
    }
    assert StartsWith(path, prefix);
  }

  // ---- The handlers --------------------------------------------------------

  class Host {
    const platform: Platform
    const argumentLimit: ArgumentLimit
    var nodes: map<string, Node>
    var reports: seq<OpRunState>   // the progress frames, in order

    constructor (platform: Platform, argumentLimit: ArgumentLimit, nodes: map<string, Node>)
      ensures this.platform == platform && this.argumentLimit == argumentLimit
      ensures this.nodes == nodes && reports == []
    {
      this.platform := platform;
      this.argumentLimit := argumentLimit;
      this.nodes := nodes;
      reports := [];
    }

    function NodeAt(path: string): Option<Node>
      reads this`nodes
    {
      var key := Key(platform, path);
      if key in nodes then Some(nodes[key]) else None
    }

    // PowerShell reads the whole file, then compares, digests and encodes it.
    method RunWindowsRead(path: string, sha256: Digest, run: ReadRun) returns (output: Option<Output>)
      ensures output.Some? <==> Exits(Windows, NodeAt(path), run)
      ensures output.Some? <==>
                && run.starts && run.digests && NodeAt(path).Some? && NodeAt(path).value.Regular?
                && |NodeAt(path).value.bytes| <= 262144
                && (run.breaksAt.Some? ==> run.breaksAt.value >= |NodeAt(path).value.bytes|)
      ensures output.Some? ==> var bytes := NodeAt(path).value.bytes;
                               output.value == Output(Encode(bytes), sha256(bytes), |bytes|)
      ensures output.Some? ==> Prints(NodeAt(path).value, run, sha256, output.value)
    {
      var node := NodeAt(path);
      if !run.starts || node.None? || node.value.Directory? { return None; }
      var bytes := node.value.bytes;
      if run.breaksAt.Some? && run.breaksAt.value < |bytes| { return None; }
      if |bytes| > RELAY_CAP_BYTES || !run.digests { return None; }
      DecodeEncode(bytes);
      EncodeDecode(Encode(bytes));
      output := Some(Output(Encode(bytes), sha256(bytes), |bytes|));
    }

    // The Linux script looks up the size, compares, and prints whatever the two commands
    // get out.
    method RunLinuxRead(path: string, sha256: Digest, run: ReadRun) returns (output: Option<Output>)
      ensures output.Some? <==> Exits(Posix, NodeAt(path), run)
      ensures output.Some? <==>
                && run.starts && NodeAt(path).Some?
                && match NodeAt(path).value
                   case Regular(bytes) => |bytes| <= 262144
                   case Directory(size) => size <= 262144
      ensures output.Some? ==>
                match NodeAt(path).value
                case Directory(size) => output.value == Output("", "", size)
                case Regular(bytes) =>
                  var whole := run.breaksAt.None? || run.breaksAt.value >= |bytes|;
                  output.value == Output(Encode(if whole then bytes else bytes[..run.breaksAt.value]),
                                         if run.digests then sha256(bytes) else "", |bytes|)
      ensures output.Some? ==> Prints(NodeAt(path).value, run, sha256, output.value)
    {
      var node := NodeAt(path);
      if !run.starts || node.None? { return None; }
      var size := Size(node.value);
      if size > RELAY_CAP_BYTES { return None; }
      var got := Got(node.value, run);
      DecodeEncode(got);
      EncodeDecode(Encode(got));
      output := Some(Output(Encode(got), DigestOf(node.value, run, sha256), size));
    }

    method ReadChecked(path: string, sha256: Digest, run: ReadRun) returns (r: Result<FileContent, CommandError>)
      modifies this`reports
      ensures r.Ok? <==> Exits(platform, NodeAt(path), run) && run.parses
      ensures r.Ok? ==>
                && r.value.path == path && Prints(NodeAt(path).value, run, sha256, r.value.output)
                && reports == old(reports) +
                     [InProgress("reading file", 30.0), Completed(r.value.output.contentB64)]
      ensures r.Err? ==>
                && reports == old(reports) + [InProgress("reading file", 30.0)]
                && r.error == if Exits(platform, NodeAt(path), run)
                              then InvalidParam("path", "file could not be read") else Shell(run.message)
      ensures |old(reports)| <= |reports| && ReportsDoneIffOk(reports[|old(reports)|..], r.Ok?)
    {
      reports := reports + [InProgress("reading file", 30.0)];
      var output;
      if platform.Windows? {
        output := RunWindowsRead(path, sha256, run);
      } else {
        output := RunLinuxRead(path, sha256, run);
      }
      if output.None? { return Err(Shell(run.message)); }
      if !run.parses { return Err(InvalidParam("path", "file could not be read")); }
      reports := reports + [Completed(output.value.contentB64)];
      r := Ok(FileContent(path, output.value));
    }

    method FileRead(path: Option<string>, sha256: Digest, run: ReadRun) returns (r: Result<FileContent, CommandError>)
      modifies this`reports
      ensures r.Ok? <==>
                && path.Some? && RelayPathText(platform, path.value)
                && Exits(platform, NodeAt(path.value), run) && run.parses
      ensures r.Ok? ==> r.value.path == path.value && Prints(NodeAt(path.value).value, run, sha256, r.value.output)
      ensures path.None? ==> r == Err(MissingParam("path"))
      ensures path.Some? && !RelayPathText(platform, path.value) ==> r == Err(InvalidPath(platform))
      ensures path.Some? && RelayPathText(platform, path.value) && r.Err? ==>
                r.error == if Exits(platform, NodeAt(path.value), run)
                           then InvalidParam("path", "file could not be read") else Shell(run.message)
      ensures reports == old(reports) +
                (if r.Ok? then [InProgress("reading file", 30.0), Completed(r.value.output.contentB64)]
                 else if path.Some? && RelayPathText(platform, path.value) then [InProgress("reading file", 30.0)]
                 else [])
      ensures ReportsDoneIffOk(reports[|old(reports)|..], r.Ok?)
    {
      if path.None? { return Err(MissingParam("path")); }
      RelayPathExactly(platform, path.value);
      if !RelayPathOk(platform, path.value) { return Err(InvalidPath(platform)); }
      r := ReadChecked(path.value, sha256, run);
    }

    // The checks both forms of file.write make before they start the shell.
    method CheckWrite(path: Option<string>, contentB64: Option<string>) returns (r: Option<CommandError>)
      ensures r.None? <==>
                && path.Some? && RelayPathText(platform, path.value)
                && contentB64.Some? && Admitted(contentB64.value)
      ensures r.Some? ==> !r.value.Shell?
      ensures path.None? ==> r == Some(MissingParam("path"))
      ensures path.Some? && !RelayPathText(platform, path.value) ==> r == Some(InvalidPath(platform))
      ensures path.Some? && RelayPathText(platform, path.value) ==>
                && (contentB64.None? ==> r == Some(MissingParam("contentB64")))
                && (contentB64.Some? && !Admitted(contentB64.value) ==>
                      r == Some(InvalidParam("contentB64",
                                             if Utf8Len(contentB64.value) > RELAY_CAP_B64
                                             then "exceeds the 256 KiB relay cap" else "must be base64")))
    {
      if path.None? { return Some(MissingParam("path")); }
      RelayPathExactly(platform, path.value);
      if !RelayPathOk(platform, path.value) { return Some(InvalidPath(platform)); }
      if contentB64.None? { return Some(MissingParam("contentB64")); }
      if Utf8Len(contentB64.value) > RELAY_CAP_B64 {
        return Some(InvalidParam("contentB64", "exceeds the 256 KiB relay cap"));
      }
      if contentB64.value == "" || !Base64Text(contentB64.value) {
        return Some(InvalidParam("contentB64", "must be base64"));
      }
      r := None;
    }

    predicate NamesDirectory(path: string)
      reads this`nodes
    {
      NodeAt(path).Some? && NodeAt(path).value.Directory?
    }

    // The script decodes and then writes. Nothing is touched by content that does not
    // decode; a digest that fails comes too late to undo the write.
    method RunWindowsWrite(path: string, contentB64: string, sha256: Digest, run: WriteRun)
        returns (digest: Option<string>)
      modifies this`nodes
      ensures digest.Some? <==> run.works && Decode(contentB64).Some? && !old(NamesDirectory(path)) && run.digests
      ensures digest.Some? ==> digest.value == sha256(Decode(contentB64).value)
      ensures run.works ==>
                nodes == if Decode(contentB64).Some? && !old(NamesDirectory(path))
                         then old(nodes)[Key(platform, path) := Regular(Decode(contentB64).value)] else old(nodes)
      ensures nodes - {Key(platform, path)} == old(nodes) - {Key(platform, path)}
    {
      if !run.works {
        if run.left.Some? { nodes := nodes[Key(platform, path) := Regular(run.left.value)]; }
        return None;
      }
      var bytes := Decode(contentB64);
      if bytes.None? || NamesDirectory(path) { return None; }
      nodes := nodes[Key(platform, path) := Regular(bytes.value)];
      if !run.digests { return None; }
      digest := Some(sha256(bytes.value));
    }

    // The shell truncates the file before base64 runs, and what base64 managed to decode
    // stays in it. A digest that fails is masked by the pipe it stands in.
    method RunLinuxWrite(path: string, contentB64: string, sha256: Digest, run: WriteRun)
        returns (digest: Option<string>)
      modifies this`nodes
      ensures digest.Some? <==> run.works && DecodeGroups(contentB64).Some? && !old(NamesDirectory(path))
      ensures digest.Some? ==> digest.value == if run.digests then sha256(DecodeGroups(contentB64).value) else ""
      ensures run.works ==>
                nodes == if old(NamesDirectory(path)) then old(nodes)
                         else if DecodeGroups(contentB64).Some?
                         then old(nodes)[Key(platform, path) := Regular(DecodeGroups(contentB64).value)]
                         else old(nodes)[Key(platform, path) := Regular(run.partial)]
      ensures nodes - {Key(platform, path)} == old(nodes) - {Key(platform, path)}
    {
      if !run.works {
        if run.left.Some? { nodes := nodes[Key(platform, path) := Regular(run.left.value)]; }
        return None;
      }
      if NamesDirectory(path) { return None; }
      var bytes := DecodeGroups(contentB64);
      if bytes.None? {
        nodes := nodes[Key(platform, path) := Regular(run.partial)];
        return None;
      }
      nodes := nodes[Key(platform, path) := Regular(bytes.value)];
      digest := Some(if run.digests then sha256(bytes.value) else "");
    }

    // Whether the shell takes the content as an argument, and the script can decode it and
    // write to its path.
    predicate Processable(path: string, contentB64: string)
      reads this`nodes
    {
      |contentB64| <= argumentLimit && DecodeOn(platform, contentB64).Some? && !NamesDirectory(path)
    }

    // Whether the handler reports success: a digest that fails shows on Windows only.
    predicate Reported(path: string, contentB64: string, run: WriteRun)
      reads this`nodes
    {
      Processable(path, contentB64) && run.works && (platform.Windows? ==> run.digests)
    }

    // What follows the checks: no shell is started with an argument that is too long.
    method WriteChecked(path: string, contentB64: string, sha256: Digest, run: WriteRun)
        returns (r: Result<Written, CommandError>)
      modifies this
      ensures r.Ok? <==> old(Reported(path, contentB64, run))
      ensures r.Ok? ==>
                && r.value == Written(path, if run.digests then sha256(DecodeOn(platform, contentB64).value) else "")
                && reports == old(reports) + [InProgress("writing file", 30.0), Completed(path)]
      ensures r.Err? ==>
                r.error == Shell(run.message) && reports == old(reports) + [InProgress("writing file", 30.0)]
      ensures run.works && old(Processable(path, contentB64)) ==>
                nodes == old(nodes)[Key(platform, path) := Regular(DecodeOn(platform, contentB64).value)]
      ensures run.works && !old(Processable(path, contentB64)) ==>
                nodes == if platform.Posix? && |contentB64| <= argumentLimit && !old(NamesDirectory(path))
                         then old(nodes)[Key(platform, path) := Regular(run.partial)] else old(nodes)
      ensures nodes - {Key(platform, path)} == old(nodes) - {Key(platform, path)}
      ensures |old(reports)| <= |reports| && ReportsDoneIffOk(reports[|old(reports)|..], r.Ok?)
    {
      reports := reports + [InProgress("writing file", 30.0)];
      if |contentB64| > argumentLimit { return Err(Shell(run.message)); }
      var digest;
      if platform.Windows? {
        digest := RunWindowsWrite(path, contentB64, sha256, run);
      } else {
        digest := RunLinuxWrite(path, contentB64, sha256, run);
      }
      if digest.None? { return Err(Shell(run.message)); }
      reports := reports + [Completed(path)];
      r := Ok(Written(path, digest.value));
    }

    method FileWrite(path: Option<string>, contentB64: Option<string>, sha256: Digest, run: WriteRun)
        returns (r: Result<Written, CommandError>)
      modifies this
      ensures r.Ok? || r.error.Shell? <==>
                && path.Some? && RelayPathText(platform, path.value)
                && contentB64.Some? && Admitted(contentB64.value)
      ensures r.Err? && !r.error.Shell? ==> nodes == old(nodes)
      ensures r.Ok? || r.error.Shell? ==>
                && (r.Ok? <==> old(Reported(path.value, contentB64.value, run)))
                && (run.works && old(Processable(path.value, contentB64.value)) ==>
                      nodes == old(nodes)[Key(platform, path.value) :=
                                            Regular(DecodeOn(platform, contentB64.value).value)])
                && (run.works && !old(Processable(path.value, contentB64.value)) ==>
                      nodes == if platform.Posix? && |contentB64.value| <= argumentLimit
                                  && !old(NamesDirectory(path.value))
                               then old(nodes)[Key(platform, path.value) := Regular(run.partial)] else old(nodes))
                && nodes - {Key(platform, path.value)} == old(nodes) - {Key(platform, path.value)}
      ensures r.Ok? ==>
                r.value == Written(path.value,
                                   if run.digests then sha256(DecodeOn(platform, contentB64.value).value) else "")
      ensures r.Err? && r.error.Shell? ==> r.error.message == run.message
      ensures reports == old(reports) +
                (if r.Ok? then [InProgress("writing file", 30.0), Completed(path.value)]
                 else if r.error.Shell? then [InProgress("writing file", 30.0)]
                 else [])
      ensures ReportsDoneIffOk(reports[|old(reports)|..], r.Ok?)
    {
      var refused := CheckWrite(path, contentB64);
      if refused.Some? { return Err(refused.value); }
      r := WriteChecked(path.value, contentB64.value, sha256, run);
    }
  }

  // ---- One artifact carried by the backend ---------------------------------

  // Read on one host, written on another. What arrives is what the reader got, and it
  // arrives exactly when both handlers report success and that is not empty and small
  // enough for its encoding to be one argument. Equal digests that are there say that it
  // is the whole file, equal digests alone do not.
  method Carry(source: Host, from: string, target: Host, to: string, sha256: Digest,
               reading: ReadRun, writing: WriteRun)
      returns (r: Result<(string, string), CommandError>)
    modifies source`reports, target
    ensures r.Ok? <==>
              && RelayPathText(source.platform, from) && RelayPathText(target.platform, to)
              && Exits(source.platform, old(source.NodeAt(from)), reading) && reading.parses
              && 1 <= |Got(old(source.NodeAt(from)).value, reading)| <= target.argumentLimit / 4 * 3
              && !old(target.NamesDirectory(to)) && writing.works
              && (target.platform.Windows? ==> writing.digests)
    ensures r.Ok? ==>
              && target.nodes ==
                 old(target.nodes)[Key(target.platform, to) := Regular(Got(old(source.NodeAt(from)).value, reading))]
              && r.value.0 == DigestOf(old(source.NodeAt(from)).value, reading, sha256)
              && r.value.1 == if writing.digests then sha256(Got(old(source.NodeAt(from)).value, reading)) else ""
    ensures r.Ok? && NeverEmpty(sha256) && Separates(sha256, old(source.NodeAt(from)).value, reading) ==>
              (r.value.0 == r.value.1 && r.value.0 != ""
               <==> ReadThrough(old(source.NodeAt(from)).value, reading) && reading.digests && writing.digests)
    ensures r.Err? && writing.works && (target.platform.Windows? ==> writing.digests) ==>
              target.nodes == old(target.nodes)
  {
    var read := source.FileRead(Some(from), sha256, reading);
    if read.Err? { return Err(read.error); }
    ghost var node := source.NodeAt(from).value;
    var content := read.value.output.contentB64;
    GotIsWholeExactly(node, reading);
    EncodingFits(content, Got(node, reading), target.platform, target.argumentLimit);
    CapAdmitsExactly(Got(node, reading));
    var written := target.FileWrite(Some(to), Some(content), sha256, writing);
    if written.Err? { return Err(written.error); }
    r := Ok((read.value.output.sha256, written.value.sha256));
  }
}
