// The validators of src/commands/util.rs.
module Util {
  import opened Text

  predicate ValidLabel(part: string) {
    && part != [] && Utf8Len(part) <= 63
    && (forall c | c in part :: IsAlphanumeric(c) || c == '-')
    && part[0] != '-' && part[|part| - 1] != '-'
  }

  // One trailing dot is allowed.
  function WithoutFinalDot(name: string): string {
    if name != [] && name[|name| - 1] == '.' then name[..|name| - 1] else name
  }

  predicate ValidDnsName(name: string) {
    var bare := WithoutFinalDot(name);
    && bare != [] && Utf8Len(bare) <= 253
    && forall part | part in Split(bare, '.') :: ValidLabel(part)
  }

  predicate ValidWindowsPath(path: string) {
    && |path| >= 3 && path[1] == ':' && path[2] == '\\'
    && IsAlphabetic(path[0]) && Utf8Len(path) <= 200
    && forall c | c in path[3..] :: IsAlphanumeric(c) || c in " ._-\\()"
  }

  predicate ValidPosixPath(path: string) {
    && path != [] && path[0] == '/' && Utf8Len(path) <= 200
    && forall c | c in path[1..] :: IsAlphanumeric(c) || c in " ._-/"
  }

  // A DNS name is a non-empty run of letters, digits, hyphens and dots.
  lemma DnsNameCharacters(name: string)
    requires ValidDnsName(name)
    ensures Solid(name)
    ensures forall c | c in name :: IsAlphanumeric(c) || c == '-' || c == '.'
  {
    var bare := WithoutFinalDot(name);
    forall c | c in bare ensures IsAlphanumeric(c) || c == '-' || c == '.' {
      if c != '.' {
        SplitCovers(bare, '.', c);
        var part :| part in Split(bare, '.') && c in part;
        assert ValidLabel(part);
      }
    }
    forall c | c in name ensures IsAlphanumeric(c) || c == '-' || c == '.' {
      assert name == bare || name == bare + ".";
    }
  }

  lemma {:induction false} SplitCovers(s: string, c: char, x: char)
    requires x in s && x != c
    ensures exists part :: part in Split(s, c) && x in part
  {
    var rest := Split(s[1..], c);
    if s[0] == x {
      assert ([s[0]] + rest[0]) in Split(s, c);
    } else {
      SplitCovers(s[1..], c, x);
      var part :| part in rest && x in part;
      if s[0] == c {
        assert Split(s, c) == [[]] + rest;
        assert part in Split(s, c);
      } else if part == rest[0] {
        assert ([s[0]] + rest[0]) in Split(s, c);
      } else {
        assert part in rest[1..];
        assert part in Split(s, c);
      }
    }
  }
}
