// The relay allowlists of src/commands/file.rs and src/commands/linux.rs against lexical
// path normalisation.
module RelayPath {
  import opened Text
  import opened Util

  const POSIX_PREFIXES: seq<string> := ["/opt/certsecure-manager/", "/var/lib/pki-executor/transfer/"]

  const WINDOWS_PREFIXES: seq<string> :=
    ["C:\\Transfer\\", "C:\\Windows\\System32\\CertSrv\\CertEnroll\\", "C:\\CertEnroll\\"]

  predicate DoubleDot(path: string) {
    exists i :: 0 <= i < |path| - 1 && path[i] == '.' && path[i + 1] == '.'
  }

  predicate PosixAllowed(path: string, prefixes: seq<string>) {
    && ValidPosixPath(path)
    && !DoubleDot(path)
    && exists prefix | prefix in prefixes :: Utf8Len(path) > Utf8Len(prefix) && StartsWith(path, prefix)
  }

  // The comparison slices the path at a byte offset; IsBoundary says the slice is legal.
  predicate WindowsAllowed(path: string, prefixes: seq<string>) {
    && ValidWindowsPath(path)
    && !DoubleDot(path)
    && exists prefix | prefix in prefixes ::
         Utf8Len(path) > Utf8Len(prefix) && StartsWith(ToLower(path), ToLower(prefix))
  }

  predicate PosixRelayPathOk(path: string) {
    PosixAllowed(path, POSIX_PREFIXES)
  }

  predicate WindowsRelayPathOk(path: string) {
    WindowsAllowed(path, WINDOWS_PREFIXES)
  }

  // An allowlist of directories: every prefix ends with the separator.
  predicate Directories(prefixes: seq<string>, separator: char) {
    forall prefix | prefix in prefixes :: prefix != [] && prefix[|prefix| - 1] == separator
  }

  // ---- Lexical normalisation -----------------------------------------------

  // Segments resolved onto a stack: empty and "." segments vanish, ".." removes the last.
  function Resolve(segments: seq<string>, stack: seq<string>): seq<string> {
    if segments == [] then stack
    else
      var s := segments[0];
      Resolve(segments[1..],
              if s == "" || s == "." then stack
              else if s == ".." then (if stack == [] then [] else stack[..|stack| - 1])
              else stack + [s])
  }

  function Normal(path: string, separator: char): seq<string> {
    Resolve(Split(path, separator), [])
  }

  lemma {:induction false} ResolveConcat(a: seq<string>, b: seq<string>, stack: seq<string>)
    ensures Resolve(a + b, stack) == Resolve(b, Resolve(a, stack))
  {
    if a == [] {
      assert a + b == b;
    } else {
      assert (a + b)[1..] == a[1..] + b;
      ResolveConcat(a[1..], b, if a[0] == "" || a[0] == "." then stack
                               else if a[0] == ".." then (if stack == [] then [] else stack[..|stack| - 1])
                               else stack + [a[0]]);
    }
  }

  lemma {:induction false} ResolveGrows(segments: seq<string>, stack: seq<string>)
    requires ".." !in segments
    ensures stack <= Resolve(segments, stack)
  {
    if segments != [] {
      assert segments[0] in segments;
      ResolveGrows(segments[1..], if segments[0] == "" || segments[0] == "." then stack else stack + [segments[0]]);
    }
  }

  ghost predicate At(path: string, i: nat, segment: string) {
    i + |segment| <= |path| && path[i..i + |segment|] == segment
  }

  lemma AtShifts(path: string, i: nat, segment: string)
    requires path != [] && At(path[1..], i, segment)
    ensures At(path, i + 1, segment)
  {
    assert path[1..][i..i + |segment|] == path[i + 1..i + 1 + |segment|];
  }

  lemma AtExtends(path: string, segment: string)
    requires path != [] && At(path[1..], 0, segment)
    ensures At(path, 0, [path[0]] + segment)
  {
    assert path[..1 + |segment|] == [path[0]] + path[1..][..|segment|];
  }

  // A segment is a stretch of the path it came from.
  lemma {:induction false} SegmentIsSlice(path: string, separator: char, k: nat) returns (at: nat)
    requires k < |Split(path, separator)|
    ensures At(path, at, Split(path, separator)[k])
    ensures k == 0 ==> at == 0
  {
    at := 0;
    if path != [] {
      var rest := Split(path[1..], separator);
      if path[0] == separator {
        if k > 0 {
          var i := SegmentIsSlice(path[1..], separator, k - 1);
          AtShifts(path, i, rest[k - 1]);
          at := i + 1;
        }
      } else {
        var i := SegmentIsSlice(path[1..], separator, k);
        if k > 0 {
          AtShifts(path, i, rest[k]);
          at := i + 1;
        } else {
          AtExtends(path, rest[0]);
        }
      }
    }
  }

  lemma NoDotDotSegment(path: string, separator: char)
    requires !DoubleDot(path)
    ensures ".." !in Split(path, separator)
  {
    forall k | 0 <= k < |Split(path, separator)| ensures Split(path, separator)[k] != ".." {
      var at := SegmentIsSlice(path, separator, k);
      assert at + 2 <= |path| ==> path[at..at + 2] == [path[at], path[at + 1]];
    }
  }

  // Nothing that starts with a directory prefix and holds no ".." leaves that directory.
  lemma StaysBeneath(path: string, prefix: string, separator: char)
    requires !DoubleDot(path) && StartsWith(path, prefix)
    requires prefix != [] && prefix[|prefix| - 1] == separator
    ensures Normal(prefix, separator) <= Normal(path, separator)
  {
    var front, rest := prefix[..|prefix| - 1], path[|prefix|..];
    var root := Split(front, separator);
    var tail: seq<string> := [[]];
    assert path == front + [separator] + rest;
    assert prefix == front + [separator] + [];
    SplitConcat(front, separator, rest);
    SplitConcat(front, separator, []);
    NoDotDotSegment(path, separator);
    ResolveConcat(root, Split(rest, separator), []);
    ResolveConcat(root, tail, []);
    assert tail[1..] == [] && Split([], separator) == tail;
    assert Normal(prefix, separator) == Resolve(root, []);
    forall s | s in Split(rest, separator) ensures s in Split(path, separator) {}
    ResolveGrows(Split(rest, separator), Resolve(root, []));
  }

  // Normalised, the path is one of the directories or lies beneath it.
  ghost predicate Beneath(path: string, prefixes: seq<string>) {
    exists prefix | prefix in prefixes :: Normal(prefix, '/') <= Normal(path, '/')
  }

  ghost predicate BeneathFolded(path: string, prefixes: seq<string>) {
    exists prefix | prefix in prefixes :: Normal(ToLower(prefix), '\\') <= Normal(ToLower(path), '\\')
  }

  // Under any allowlist of directories, every accepted POSIX path, normalised, is an
  // allowlisted root or lies beneath one.
  lemma {:induction false} PosixPathsAreContained(path: string, prefixes: seq<string>)
    requires Directories(prefixes, '/') && PosixAllowed(path, prefixes)
    ensures Beneath(path, prefixes)
  {
    var prefix :| prefix in prefixes && StartsWith(path, prefix);
    StaysBeneath(path, prefix, '/');
  }

  lemma LoweringAddsNoDots(path: string)
    requires !DoubleDot(path)
    ensures !DoubleDot(ToLower(path))
  {
    forall i | 0 <= i < |path| - 1 ensures !(ToLower(path)[i] == '.' && ToLower(path)[i + 1] == '.') {
      assert !(path[i] == '.' && path[i + 1] == '.');
    }
  }

  // The same for Windows paths, names compared without regard to case.
  lemma {:induction false} WindowsPathsAreContained(path: string, prefixes: seq<string>)
    requires Directories(prefixes, '\\') && WindowsAllowed(path, prefixes)
    ensures BeneathFolded(path, prefixes)
  {
    var prefix :| prefix in prefixes && StartsWith(ToLower(path), ToLower(prefix));
    LoweringAddsNoDots(path);
    StaysBeneath(ToLower(path), ToLower(prefix), '\\');
  }

  // The two allowlists of the code are such.
  lemma AllowlistsAreDirectories()
    ensures Directories(POSIX_PREFIXES, '/') && Directories(WINDOWS_PREFIXES, '\\')
  {
  }

  lemma RelayPathsAreContained(path: string)
    ensures PosixRelayPathOk(path) ==> Beneath(path, POSIX_PREFIXES)
    ensures WindowsRelayPathOk(path) ==> BeneathFolded(path, WINDOWS_PREFIXES)
  {
    AllowlistsAreDirectories();
    if PosixRelayPathOk(path) { PosixPathsAreContained(path, POSIX_PREFIXES); }
    if WindowsRelayPathOk(path) { WindowsPathsAreContained(path, WINDOWS_PREFIXES); }
  }

  lemma ThreeSegments(a: string, b: string, c: string, separator: char)
    requires separator !in a && separator !in b && separator !in c
    ensures Split(a + [separator] + (b + [separator] + c), separator) == [a, b, c]
  {
    SplitSolid(a, separator);
    SplitSolid(b, separator);
    SplitSolid(c, separator);
    SplitConcat(b, separator, c);
    SplitConcat(a, separator, b + [separator] + c);
  }

  const UP: string := ['.', '.']

  lemma UpAndAcross(root: string, sibling: string)
    requires root != "" && root != "." && root != ".."
    requires sibling != "" && sibling != "." && sibling != ".."
    ensures Resolve([root, UP, sibling], []) == [sibling]
  {
    var three, two, one := [root, UP, sibling], [UP, sibling], [sibling];
    assert three[1..] == two && two[1..] == one && one[1..] == [];
    assert Resolve(two, [root]) == Resolve(one, []);
    assert Resolve(one, []) == [sibling];
  }

  // The ".." check is needed: without it a path that starts with the prefix can leave it.
  lemma {:induction false} PrefixAloneIsNotEnough(root: string, sibling: string)
    requires root != "" && root != "." && root != ".." && '/' !in root
    requires sibling != "" && sibling != "." && sibling != ".." && '/' !in sibling && sibling != root
    ensures var prefix := root + ['/'];
            var path := prefix + (UP + ['/'] + sibling);
            StartsWith(path, prefix) && !(Normal(prefix, '/') <= Normal(path, '/'))
  {
    ThreeSegments(root, UP, sibling, '/');
    UpAndAcross(root, sibling);
    SplitSolid(root, '/');
    SplitConcat(root, '/', []);
    var outer: seq<string> := [root, []];
    assert root + ['/'] + [] == root + ['/'];
    assert Split(root + ['/'], '/') == outer;
    assert outer[1..] == [[]] && outer[1..][1..] == [];
    assert Resolve(outer[1..], [root]) == [root];
    assert Normal(root + ['/'], '/') == [root];
  }

  // ---- Character boundaries ------------------------------------------------

  // A byte offset between two characters.
  ghost predicate IsBoundary(s: string, offset: nat) {
    exists k :: 0 <= k <= |s| && Utf8Len(s[..k]) == offset
  }

  lemma WindowsPathIsAscii(path: string)
    requires ValidWindowsPath(path)
    ensures Ascii(path)
  {
    forall i | 0 <= i < |path| ensures path[i] as int < 0x80 {
      if i >= 3 {
        var c := path[3..][i - 3];
        assert c in path[3..];
        assert c == path[i];
      }
    }
  }

  // An accepted Windows path is ASCII, so every byte offset is a character boundary and
  // the prefix slice cannot split a character.
  lemma PrefixSliceIsOnABoundary(path: string, offset: nat)
    requires ValidWindowsPath(path) && offset <= Utf8Len(path)
    ensures IsBoundary(path, offset) && Utf8Len(path) == |path|
  {
    WindowsPathIsAscii(path);
    AsciiLength(path);
    AsciiLength(path[..offset]);
  }

  // ---- Exactly which paths -------------------------------------------------

  predicate PosixCharacter(c: char) {
    || 'a' <= c <= 'z' || 'A' <= c <= 'Z' || '0' <= c <= '9'
    || c == ' ' || c == '.' || c == '_' || c == '-' || c == '/'
  }

  predicate WindowsCharacter(c: char) {
    || 'a' <= c <= 'z' || 'A' <= c <= 'Z' || '0' <= c <= '9'
    || c == ' ' || c == '.' || c == '_' || c == '-' || c == '\\' || c == '(' || c == ')'
  }

  ghost predicate PosixRest(rest: string) {
    rest != [] && !DoubleDot(rest) && forall i | 0 <= i < |rest| :: PosixCharacter(rest[i])
  }

  ghost predicate WindowsRest(rest: string) {
    rest != [] && !DoubleDot(rest) && forall i | 0 <= i < |rest| :: WindowsCharacter(rest[i])
  }

  // A directory and something plain under it, 200 characters at most.
  ghost predicate PosixUnder(path: string, dir: string) {
    |path| <= 200 && exists rest :: path == dir + rest && PosixRest(rest)
  }

  // The same with the directory spelled in any case.
  ghost predicate WindowsUnder(path: string, dir: string) {
    && |path| <= 200
    && exists spelled, rest :: path == spelled + rest && SameIgnoringCase(spelled, dir) && WindowsRest(rest)
  }

  ghost predicate PosixPathText(path: string) {
    PosixUnder(path, "/opt/certsecure-manager/") || PosixUnder(path, "/var/lib/pki-executor/transfer/")
  }

  ghost predicate WindowsPathText(path: string) {
    || WindowsUnder(path, "C:\\Transfer\\")
    || WindowsUnder(path, "C:\\Windows\\System32\\CertSrv\\CertEnroll\\")
    || WindowsUnder(path, "C:\\CertEnroll\\")
  }

  // What the directories have in common.
  predicate PosixDirectory(dir: string) {
    && 2 <= |dir| <= 100 && dir[0] == '/' && dir[|dir| - 1] == '/'
    && forall i | 0 <= i < |dir| :: PosixCharacter(dir[i]) && dir[i] != '.'
  }

  predicate WindowsDirectory(dir: string) {
    && 3 <= |dir| <= 100 && IsAlphabetic(dir[0]) && dir[1] == ':' && dir[2] == '\\' && dir[|dir| - 1] == '\\'
    && forall i | 3 <= i < |dir| :: IsAlphanumeric(dir[i]) || dir[i] == '\\'
  }

  lemma PosixCharacters(c: char)
    ensures PosixCharacter(c) <==> IsAlphanumeric(c) || c in " ._-/"
  {
    var extra := " ._-/";
    assert extra[0] == ' ' && extra[1] == '.' && extra[2] == '_' && extra[3] == '-' && extra[4] == '/';
  }

  lemma WindowsCharacters(c: char)
    ensures WindowsCharacter(c) <==> IsAlphanumeric(c) || c in " ._-\\()"
  {
    var extra := " ._-\\()";
    assert extra[0] == ' ' && extra[1] == '.' && extra[2] == '_' && extra[3] == '-';
    assert extra[4] == '\\' && extra[5] == '(' && extra[6] == ')';
  }

  lemma {:induction false} PosixPathShape(path: string)
    ensures ValidPosixPath(path) <==>
            1 <= |path| <= 200 && path[0] == '/' && forall i | 1 <= i < |path| :: PosixCharacter(path[i])
  {
    if path != [] && path[0] == '/' {
      var tail := path[1..];
      forall c ensures PosixCharacter(c) <==> IsAlphanumeric(c) || c in " ._-/" { PosixCharacters(c); }
      if forall c | c in tail :: PosixCharacter(c) {
        forall i | 1 <= i < |path| ensures PosixCharacter(path[i]) { assert tail[i - 1] in tail; }
        AsciiLength(path);
      }
      if forall i | 1 <= i < |path| :: PosixCharacter(path[i]) {
        forall c | c in tail ensures PosixCharacter(c) {
          var i :| 0 <= i < |tail| && tail[i] == c;
          assert path[i + 1] == c;
        }
        AsciiLength(path);
      }
    }
  }

  lemma {:induction false} WindowsPathShape(path: string)
    ensures ValidWindowsPath(path) <==>
            && 3 <= |path| <= 200 && IsAlphabetic(path[0]) && path[1] == ':' && path[2] == '\\'
            && forall i | 3 <= i < |path| :: WindowsCharacter(path[i])
  {
    if |path| >= 3 && IsAlphabetic(path[0]) && path[1] == ':' && path[2] == '\\' {
      var tail := path[3..];
      forall c ensures WindowsCharacter(c) <==> IsAlphanumeric(c) || c in " ._-\\()" { WindowsCharacters(c); }
      if forall c | c in tail :: WindowsCharacter(c) {
        forall i | 3 <= i < |path| ensures WindowsCharacter(path[i]) { assert tail[i - 3] in tail; }
        AsciiLength(path);
      }
      if forall i | 3 <= i < |path| :: WindowsCharacter(path[i]) {
        forall c | c in tail ensures WindowsCharacter(c) {
          var i :| 0 <= i < |tail| && tail[i] == c;
          assert path[i + 3] == c;
        }
        AsciiLength(path);
      }
    }
  }

  lemma {:induction false} DotsInRest(path: string, dir: string, rest: string)
    requires path == dir + rest && forall i | 0 <= i < |dir| :: dir[i] != '.'
    ensures DoubleDot(path) <==> DoubleDot(rest)
  {
    forall i | 0 <= i < |dir| ensures path[i] != '.' { assert path[i] == dir[i]; }
    if i :| 0 <= i < |rest| - 1 && rest[i] == '.' && rest[i + 1] == '.' {
      assert path[|dir| + i] == '.' && path[|dir| + i + 1] == '.';
    }
    if i :| 0 <= i < |path| - 1 && path[i] == '.' && path[i + 1] == '.' {
      assert rest[i - |dir|] == '.' && rest[i - |dir| + 1] == '.';
    }
  }

  lemma {:induction false} PosixUnderExactly(path: string, dir: string)
    requires PosixDirectory(dir)
    ensures ValidPosixPath(path) && !DoubleDot(path) && Utf8Len(path) > Utf8Len(dir) && StartsWith(path, dir)
            <==> PosixUnder(path, dir)
  {
    PosixPathShape(path);
    AsciiLength(dir);
    if StartsWith(path, dir) {
      var rest := path[|dir|..];
      assert path == dir + rest;
      DotsInRest(path, dir, rest);
      if ValidPosixPath(path) {
        AsciiLength(path);
        forall i | 0 <= i < |rest| ensures PosixCharacter(rest[i]) { assert rest[i] == path[|dir| + i]; }
      }
    }
    if |path| <= 200 {
      if rest :| path == dir + rest && PosixRest(rest) {
        DotsInRest(path, dir, rest);
        forall i | 1 <= i < |path| ensures PosixCharacter(path[i]) {
          assert path[i] == if i < |dir| then dir[i] else rest[i - |dir|];
        }
        AsciiLength(path);
      }
    }
  }

  lemma {:induction false} SpelledDirectory(spelled: string, dir: string)
    requires WindowsDirectory(dir) && SameIgnoringCase(spelled, dir)
    ensures |spelled| == |dir| && IsAlphabetic(spelled[0]) && spelled[1] == ':' && spelled[2] == '\\'
    ensures forall i | 3 <= i < |spelled| :: WindowsCharacter(spelled[i])
    ensures forall i | 0 <= i < |spelled| :: spelled[i] != '.'
  {
    forall i | 3 <= i < |spelled| ensures WindowsCharacter(spelled[i]) && spelled[i] != '.' {
      assert IsAlphanumeric(dir[i]) || dir[i] == '\\';
    }
  }

  lemma {:induction false} PrefixIgnoringCase(path: string, dir: string)
    requires |path| >= |dir|
    ensures StartsWith(ToLower(path), ToLower(dir)) <==> SameIgnoringCase(path[..|dir|], dir)
  {
    var spelled := path[..|dir|];
    LoweredExactly(spelled, dir);
    assert ToLower(spelled) == ToLower(path)[..|dir|];
  }

  lemma {:induction false} AllowedIsSpelled(path: string, dir: string)
    requires WindowsDirectory(dir) && ValidWindowsPath(path) && !DoubleDot(path)
    requires Utf8Len(path) > Utf8Len(dir) && StartsWith(ToLower(path), ToLower(dir))
    ensures WindowsUnder(path, dir)
  {
    WindowsPathShape(path);
    WindowsPathIsAscii(path);
    AsciiLength(path);
    AsciiLength(dir);
    PrefixIgnoringCase(path, dir);
    var spelled, rest := path[..|dir|], path[|dir|..];
    assert path == spelled + rest;
    SpelledDirectory(spelled, dir);
    DotsInRest(path, spelled, rest);
    forall i | 0 <= i < |rest| ensures WindowsCharacter(rest[i]) { assert rest[i] == path[|dir| + i]; }
  }

  lemma {:induction false} WindowsUnderExactly(path: string, dir: string)
    requires WindowsDirectory(dir)
    ensures && ValidWindowsPath(path) && !DoubleDot(path)
            && Utf8Len(path) > Utf8Len(dir) && StartsWith(ToLower(path), ToLower(dir))
            <==> WindowsUnder(path, dir)
  {
    if && ValidWindowsPath(path) && !DoubleDot(path)
       && Utf8Len(path) > Utf8Len(dir) && StartsWith(ToLower(path), ToLower(dir))
    {
      AllowedIsSpelled(path, dir);
    } else if WindowsUnder(path, dir) {
      var spelled, rest :| path == spelled + rest && SameIgnoringCase(spelled, dir) && WindowsRest(rest);
      SpelledIsAllowed(path, dir, spelled, rest);
    }
  }

  lemma {:induction false} SpelledIsAllowed(path: string, dir: string, spelled: string, rest: string)
    requires WindowsDirectory(dir) && |path| <= 200
    requires path == spelled + rest && SameIgnoringCase(spelled, dir) && WindowsRest(rest)
    ensures ValidWindowsPath(path) && !DoubleDot(path)
    ensures Utf8Len(path) > Utf8Len(dir) && StartsWith(ToLower(path), ToLower(dir))
  {
    SpelledDirectory(spelled, dir);
    DotsInRest(path, spelled, rest);
    forall i | 3 <= i < |path| ensures WindowsCharacter(path[i]) {
      assert path[i] == if i < |spelled| then spelled[i] else rest[i - |spelled|];
    }
    WindowsPathShape(path);
    WindowsPathIsAscii(path);
    AsciiLength(path);
    AsciiLength(dir);
    assert path[..|dir|] == spelled;
    PrefixIgnoringCase(path, dir);
  }

  lemma PosixAllowlist(prefix: string)
    ensures prefix in POSIX_PREFIXES <==>
            prefix == "/opt/certsecure-manager/" || prefix == "/var/lib/pki-executor/transfer/"
  {
    assert POSIX_PREFIXES[0] == "/opt/certsecure-manager/" && POSIX_PREFIXES[1] == "/var/lib/pki-executor/transfer/";
  }

  lemma WindowsAllowlist(prefix: string)
    ensures prefix in WINDOWS_PREFIXES <==>
            || prefix == "C:\\Transfer\\" || prefix == "C:\\Windows\\System32\\CertSrv\\CertEnroll\\"
            || prefix == "C:\\CertEnroll\\"
  {
    assert WINDOWS_PREFIXES[0] == "C:\\Transfer\\";
    assert WINDOWS_PREFIXES[1] == "C:\\Windows\\System32\\CertSrv\\CertEnroll\\";
    assert WINDOWS_PREFIXES[2] == "C:\\CertEnroll\\";
  }

  lemma PosixDirectories()
    ensures PosixDirectory("/opt/certsecure-manager/") && PosixDirectory("/var/lib/pki-executor/transfer/")
  {
  }

  lemma ShortWindowsDirectories()
    ensures WindowsDirectory("C:\\Transfer\\") && WindowsDirectory("C:\\CertEnroll\\")
  {
  }

  lemma LongWindowsDirectory()
    ensures WindowsDirectory("C:\\Windows\\System32\\CertSrv\\CertEnroll\\")
  {
  }

  lemma {:induction false} PosixAllowedOne(path: string, a: string, b: string, prefixes: seq<string>)
    requires PosixDirectory(a) && PosixDirectory(b)
    requires forall prefix :: prefix in prefixes <==> prefix == a || prefix == b
    ensures PosixAllowed(path, prefixes) <==> PosixUnder(path, a) || PosixUnder(path, b)
  {
    PosixUnderExactly(path, a);
    PosixUnderExactly(path, b);
  }

  lemma {:induction false} WindowsAllowedOne(path: string, a: string, b: string, c: string, prefixes: seq<string>)
    requires WindowsDirectory(a) && WindowsDirectory(b) && WindowsDirectory(c)
    requires forall prefix :: prefix in prefixes <==> prefix == a || prefix == b || prefix == c
    ensures WindowsAllowed(path, prefixes) <==> WindowsUnder(path, a) || WindowsUnder(path, b) || WindowsUnder(path, c)
  {
    WindowsUnderExactly(path, a);
    WindowsUnderExactly(path, b);
    WindowsUnderExactly(path, c);
  }

  // The two checks accept exactly these paths.
  lemma {:induction false} PosixRelayPathExactly(path: string)
    ensures PosixRelayPathOk(path) <==> PosixPathText(path)
  {
    PosixDirectories();
    forall prefix
      ensures prefix in POSIX_PREFIXES <==>
              prefix == "/opt/certsecure-manager/" || prefix == "/var/lib/pki-executor/transfer/"
    {
      PosixAllowlist(prefix);
    }
    PosixAllowedOne(path, "/opt/certsecure-manager/", "/var/lib/pki-executor/transfer/", POSIX_PREFIXES);
  }

  lemma {:induction false} WindowsRelayPathExactly(path: string)
    ensures WindowsRelayPathOk(path) <==> WindowsPathText(path)
  {
    ShortWindowsDirectories();
    LongWindowsDirectory();
    forall prefix
      ensures prefix in WINDOWS_PREFIXES <==>
              || prefix == "C:\\Transfer\\" || prefix == "C:\\Windows\\System32\\CertSrv\\CertEnroll\\"
              || prefix == "C:\\CertEnroll\\"
    {
      WindowsAllowlist(prefix);
    }
    WindowsAllowedOne(path, "C:\\Transfer\\", "C:\\Windows\\System32\\CertSrv\\CertEnroll\\",
                      "C:\\CertEnroll\\", WINDOWS_PREFIXES);
  }
}
