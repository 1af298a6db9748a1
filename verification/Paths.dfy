/**
 Logical ctxfs paths: which strings are accepted as paths, and when a path lies under a prefix.
 Normalisation returns an accepted path unchanged, so it is modelled as the predicate IsPath.
 */
module Paths {

  type Path = string

  predicate IsControl(c: char) {
    c < ' ' || c == '\U{7F}'
  }

  predicate IsAsciiLetter(c: char) {
    'a' <= c <= 'z' || 'A' <= c <= 'Z'
  }

  function SplitAt(s: string, separator: char): (parts: seq<string>)
    ensures parts != []
  {
    if s == [] then [""]
    else if s[0] == separator then [""] + SplitAt(s[1..], separator)
    else
      var rest := SplitAt(s[1..], separator);
      [[s[0]] + rest[0]] + rest[1..]
  }

  function Join(parts: seq<string>, separator: char): string
    requires parts != []
  {
    if |parts| == 1 then parts[0] else parts[0] + [separator] + Join(parts[1..], separator)
  }

  /** Splitting and joining are inverse to each other, on parts that do not hold the separator. */
  lemma {:induction false} SplitJoins(s: string, separator: char)
    ensures Join(SplitAt(s, separator), separator) == s
    ensures forall part :: part in SplitAt(s, separator) ==> separator !in part
  {
    if s != [] {
      SplitJoins(s[1..], separator);
      var rest := SplitAt(s[1..], separator);
      if s[0] == separator {
        assert ([""] + rest)[1..] == rest;
        assert Join([""] + rest, separator) == [separator] + s[1..];
      } else {
        var parts := [[s[0]] + rest[0]] + rest[1..];
        assert |rest| > 1 ==> parts[1..] == rest[1..];
        assert Join(parts, separator) == [s[0]] + Join(rest, separator);
      }
    }
  }

  lemma {:induction false} JoinSplits(parts: seq<string>, separator: char)
    requires parts != [] && forall part :: part in parts ==> separator !in part
    ensures SplitAt(Join(parts, separator), separator) == parts
  {
    if |parts| == 1 {
      SplitOnce(parts[0], [], separator);
      assert parts[0] + [] == parts[0];
      assert parts == [parts[0]];
    } else {
      var rest := Join(parts[1..], separator);
      JoinSplits(parts[1..], separator);
      assert parts[0] in parts;
      SplitOnce(parts[0], [separator] + rest, separator);
      assert parts[0] + ([separator] + rest) == parts[0] + [separator] + rest;
      assert ([separator] + rest)[1..] == rest;
      assert parts == [parts[0]] + parts[1..];
    }
  }

  lemma {:induction false} SplitOnce(part: string, rest: string, separator: char)
    requires separator !in part && (rest == [] || rest[0] == separator)
    ensures SplitAt(part + rest, separator) == [part] + SplitAt(rest, separator)[1..]
  {
    if part == [] {
      assert part + rest == rest;
      assert SplitAt(rest, separator)[0] == "";
    } else {
      SplitOnce(part[1..], rest, separator);
      assert (part + rest)[1..] == part[1..] + rest;
      assert [part[0]] + part[1..] == part;
    }
  }

  predicate IsPath(path: string) {
    && path != "" && path[0] != '/'
    && (forall c :: c in path ==> !IsControl(c))
    && !(|path| >= 2 && IsAsciiLetter(path[0]) && path[1] == ':')
    && (forall part :: part in SplitAt(path, '/') ==> part !in {"", ".", ".."})
  }

  predicate Within(path: Path, prefix: Path) {
    path == prefix || prefix + "/" <= path
  }

  predicate Overlap(left: Path, right: Path) {
    Within(left, right) || Within(right, left)
  }

  /** Prefixes that share a path overlap, so the paths under disjoint prefixes are disjoint. */
  lemma SharedPathMeansOverlap(path: Path, left: Path, right: Path)
    requires Within(path, left) && Within(path, right)
    ensures Overlap(left, right)
  {
    if |left| < |right| {
      assert left + "/" <= path;
      assert right <= path;
      assert left + "/" == path[..|left| + 1] == right[..|left| + 1];
    } else if |right| < |left| {
      assert right + "/" <= path;
      assert left <= path;
      assert right + "/" == path[..|right| + 1] == left[..|right| + 1];
    } else {
      assert left == path[..|left|];
      assert right == path[..|right|];
    }
  }

  lemma WithinTransitive(path: Path, middle: Path, prefix: Path)
    requires Within(path, middle) && Within(middle, prefix)
    ensures Within(path, prefix)
  {
  }

  /** Components joined by slashes are a path exactly if each is a proper name and the first is no drive. */
  lemma PathOfParts(parts: seq<string>)
    requires parts != [] && forall part :: part in parts ==> '/' !in part
    ensures IsPath(Join(parts, '/')) <==>
      && (forall part :: part in parts ==> part != "" && part != "." && part != "..")
      && (forall part, c :: part in parts && c in part ==> c as int >= 32 && c as int != 127)
      && !(|parts[0]| >= 2 && parts[0][1] == ':' && (65 <= parts[0][0] as int <= 90 || 97 <= parts[0][0] as int <= 122))
  {
    hide Join, SplitAt;
    JoinSplits(parts, '/');
    JoinBegins(parts);
    JoinHasNoControl(parts);
    assert parts[0] in parts;
  }

  /** A joined string begins as its first part does, with a slash after it if there are more. */
  lemma JoinBegins(parts: seq<string>)
    requires parts != [] && '/' !in parts[0]
    ensures var path, first := Join(parts, '/'), parts[0];
      first != "" ==>
        && path != "" && path[0] == first[0] != '/'
        && (|path| >= 2 && path[1] == ':' <==> |first| >= 2 && first[1] == ':')
  {
    var path, first := Join(parts, '/'), parts[0];
    assert |parts| > 1 ==> path == first + ['/'] + Join(parts[1..], '/') && path[|first|] == '/';
  }

  lemma JoinHasNoControl(parts: seq<string>)
    requires parts != []
    ensures (forall c :: c in Join(parts, '/') ==> !IsControl(c)) <==>
      forall part, c :: part in parts && c in part ==> c as int >= 32 && c as int != 127
  {
    var path := Join(parts, '/');
    JoinHolds(parts, '/');
    if forall c :: c in path ==> !IsControl(c) {
      forall part, c | part in parts && c in part ensures c as int >= 32 && c as int != 127 {
        assert c in path && !IsControl(c);
      }
    }
    if forall part, c :: part in parts && c in part ==> c as int >= 32 && c as int != 127 {
      forall c | c in path ensures !IsControl(c) {}
    }
  }

  /** A joined string holds the characters of its parts, and separators if there are several. */
  lemma {:induction false} JoinHolds(parts: seq<string>, separator: char)
    requires parts != []
    ensures forall c :: c in Join(parts, separator) <==>
      (c == separator && |parts| > 1) || exists part :: part in parts && c in part
  {
    if |parts| > 1 {
      JoinHolds(parts[1..], separator);
      assert parts == [parts[0]] + parts[1..];
    }
  }

  /** A path lies under a prefix if it is the prefix, or continues it after a slash. */
  lemma WithinIff(path: Path, prefix: Path)
    ensures Within(path, prefix) <==> path == prefix || exists rest: string :: path == prefix + "/" + rest
  {
    if prefix + "/" <= path {
      assert path == prefix + "/" + path[|prefix| + 1..];
    }
  }

  /** Prefixes overlap exactly if one is the other or continues it after a slash, and then share a path. */
  lemma OverlapIff(left: Path, right: Path) returns (path: Path)
    ensures Overlap(left, right) <==> left == right || left + "/" <= right || right + "/" <= left
    ensures Overlap(left, right) ==> (path == left || left + "/" <= path) && (path == right || right + "/" <= path)
  {
    path := if Within(left, right) then left else right;
  }
}
