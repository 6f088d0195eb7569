/**
 Path normalization and splitting.

 Two normalizers (dispatch: `fastNormalizePath`, registration: `canonicalRoutePath`), two
 splitters (dispatch: `splitPathToParts`, registration: `strings.Split(strings.Trim(..))`)
 and the joining of group prefixes.
 */
module Paths {
  import opened Text

  /** A path without its leading and trailing slashes; what both normalizers preserve. */
  function Core(path: string): string {
    Trim(path, '/')
  }

  /** No slash at either end. */
  predicate Bare(x: string) {
    x == "" || (x[0] != '/' && x[|x| - 1] != '/')
  }

  lemma CoreIsBare(path: string)
    ensures Bare(Core(path))
  {
    TrimLeftLast(TrimRight(path, '/'), '/');
  }

  lemma CoreOfBare(x: string)
    requires Bare(x)
    ensures Core(x) == x && Core("/" + x) == x
  {
    if x == "" {
      assert TrimRight("/", '/') == "";
    } else {
      assert TrimRight("/" + x, '/') == "/" + x;
      assert ("/" + x)[1..] == x;
    }
  }

  /** What dispatch works on: the result of `FastNormalizePath`. */
  function DispatchPath(path: string): string {
    if path == "" then "/"
    else if path[0] == '/' then "/" + Core(path)
    else TrimRight(path, '/')
  }

  /** What registration works on: the result of `CanonicalRoutePath`. */
  function CanonicalPath(path: string): string {
    "/" + Core(path)
  }

  // The index loops, related to the recursive trims.

  lemma {:induction false} TrimRightAt(s: string, end: nat)
    requires end <= |s|
    requires forall k :: end <= k < |s| ==> s[k] == '/'
    ensures TrimRight(s, '/') == TrimRight(s[..end], '/')
  {
    if end < |s| {
      assert s[..|s| - 1][..end] == s[..end];
      TrimRightAt(s[..|s| - 1], end);
    } else {
      assert s[..end] == s;
    }
  }

  lemma {:induction false} TrimLeftAt(s: string, start: nat)
    requires start <= |s|
    requires forall k :: 0 <= k < start ==> s[k] == '/'
    ensures TrimLeft(s, '/') == TrimLeft(s[start..], '/')
  {
    if start > 0 {
      assert s[1..][start - 1..] == s[start..];
      TrimLeftAt(s[1..], start - 1);
    } else {
      assert s[start..] == s;
    }
  }

  lemma TrimBetween(path: string, start: nat, end: nat)
    requires start <= end <= |path|
    requires forall k :: 0 <= k < start ==> path[k] == '/'
    requires forall k :: end <= k < |path| ==> path[k] == '/'
    requires start < end ==> path[start] != '/' && path[end - 1] != '/'
    ensures Core(path) == path[start..end]
  {
    TrimRightAt(path, end);
    if start < end {
      assert TrimRight(path[..end], '/') == path[..end];
      TrimLeftAt(path[..end], start);
      assert path[..end][start..] == path[start..end];
    } else {
      TrimRightAt(path[..end], 0);
      assert path[..end][..0] == "";
    }
  }

  /** `fastNormalizePath`: index arithmetic only, no rebuilding of the string. */
  method FastNormalizePath(path: string) returns (r: string)
    ensures r == DispatchPath(path)
  {
    if |path| == 0 {
      return "/";
    }
    var end := |path|;
    while end > 1 && path[end - 1] == '/'
      invariant 1 <= end <= |path|
      invariant forall k :: end <= k < |path| ==> path[k] == '/'
    {
      end := end - 1;
    }
    if |path| >= 2 && path[0] == '/' && path[1] == '/' {
      var start := 1;
      while start < end && path[start] == '/'
        invariant 1 <= start <= end
        invariant forall k :: 0 <= k < start ==> path[k] == '/'
      {
        start := start + 1;
      }
      if start >= end {
        TrimBetween(path, end, end);
        return "/";
      }
      TrimBetween(path, start, end);
      assert path[start - 1..end] == "/" + path[start..end];
      return path[start - 1..end];
    }
    if path[0] == '/' {
      TrimBetween(path, 1, end);
      assert path[..end] == "/" + path[1..end];
    } else {
      TrimRightAt(path, end);
      assert TrimRight(path[..end], '/') == path[..end];
    }
    if end == |path| {
      assert path[..end] == path;
      return path;
    }
    return path[..end];
  }

  /** `canonicalRoutePath`. */
  method CanonicalRoutePath(path: string) returns (r: string)
    ensures r == CanonicalPath(path)
  {
    var p := TrimRight(path, '/');
    if p == "" {
      return "/";
    }
    if p[0] != '/' {
      p := "/" + p;
    }
    ghost var whole := p;
    assert TrimRight(whole, '/') == whole;
    assert whole[0] == '/' && (whole == "/" + TrimRight(path, '/') || whole == TrimRight(path, '/'));
    var firstNonSlash := 0;
    while firstNonSlash < |p| && p[firstNonSlash] == '/'
      invariant 0 <= firstNonSlash <= |p|
      invariant forall k :: 0 <= k < firstNonSlash ==> p[k] == '/'
    {
      firstNonSlash := firstNonSlash + 1;
    }
    TrimLeftAt(whole, firstNonSlash);
    assert TrimLeft(whole, '/') == whole[firstNonSlash..];
    assert whole == "/" + TrimRight(path, '/') ==> whole[1..] == TrimRight(path, '/');
    if firstNonSlash > 1 {
      p := "/" + p[firstNonSlash..];
    }
    return p;
  }

  /** `joinRoutePath`. */
  method JoinRoutePath(prefix: string, path: string) returns (r: string)
    ensures r == JoinedPath(prefix, path)
  {
    var pre := TrimRight(prefix, '/');
    var p := path;
    if p != "" && p[0] != '/' {
      p := "/" + p;
    } else if pre != "" && p != "" {
      p := "/" + TrimLeft(p, '/');
    }
    p := TrimRight(p, '/');
    JoinedPathFromPieces(prefix, path, pre, p);
    r := CanonicalRoutePath(pre + p);
  }

  /** Joins two slash-free-ended pieces; the empty piece is neutral. */
  function JoinCores(x: string, y: string): string {
    if x == "" then y else if y == "" then x else x + "/" + y
  }

  /** The meaning of `joinRoutePath`: one slash in front, one between the two cores. */
  function JoinedPath(prefix: string, path: string): string {
    "/" + JoinCores(Core(prefix), Core(path))
  }

  lemma TrimRightAppend(x: string, y: string)
    requires y != "" && y[|y| - 1] != '/'
    ensures TrimRight(x + y, '/') == x + y
  {
  }

  lemma {:induction false} TrimsCommute(s: string)
    ensures TrimRight(TrimLeft(s, '/'), '/') == Core(s)
  {
    if s != "" && s[0] == '/' {
      TrimsCommute(s[1..]);
      TrimRightStep(s);
    } else if s != "" {
      TrimRightFirst(s, '/');
    }
  }

  lemma {:induction false} TrimRightStep(s: string)
    requires s != "" && s[0] == '/'
    ensures TrimLeft(TrimRight(s, '/'), '/') == TrimLeft(TrimRight(s[1..], '/'), '/')
  {
    if s[|s| - 1] == '/' && |s| > 1 {
      assert s[1..][..|s| - 2] == s[..|s| - 1][1..];
      TrimRightStep(s[..|s| - 1]);
    }
  }

  lemma {:induction false} TrimLeftAppend(x: string, y: string)
    requires TrimLeft(x, '/') != ""
    ensures TrimLeft(x + y, '/') == TrimLeft(x, '/') + y
  {
    if x[0] == '/' {
      assert (x + y)[1..] == x[1..] + y;
      TrimLeftAppend(x[1..], y);
    }
  }

  lemma JoinedPathFromPieces(prefix: string, path: string, pre: string, p: string)
    requires pre == TrimRight(prefix, '/')
    requires p == TrimRight(
                    if path != "" && path[0] != '/' then "/" + path
                    else if pre != "" && path != "" then "/" + TrimLeft(path, '/')
                    else path, '/')
    ensures CanonicalPath(pre + p) == JoinedPath(prefix, path)
  {
    if pre == "" {
      assert pre + p == p;
      if path != "" && path[0] != '/' {
        SlashTrim(path);
        SlashFrontCore(TrimRight(path, '/'));
      }
    } else {
      TailPiece(path);
      PrefixedPieces(pre, path, p);
    }
  }

  lemma PrefixedPieces(pre: string, path: string, p: string)
    requires pre != "" && pre[|pre| - 1] != '/' && p == if Core(path) == "" then "" else "/" + Core(path)
    ensures Core(pre + p) == JoinCores(TrimLeft(pre, '/'), Core(path))
  {
    CoreIsBare(path);
    if Core(path) == "" {
      assert pre + p == pre;
      NotAllSlashes(pre);
    } else {
      AppendTail(pre, Core(path));
      assert pre + p == pre + "/" + Core(path);
    }
  }

  lemma SlashFrontCore(x: string)
    ensures TrimLeft("/" + x, '/') == TrimLeft(x, '/')
  {
    assert ("/" + x)[1..] == x;
  }

  lemma TailPiece(path: string)
    ensures TrimRight("/" + TrimLeft(path, '/'), '/') == if Core(path) == "" then "" else "/" + Core(path)
    ensures path != "" && path[0] != '/' ==>
              TrimRight("/" + path, '/') == if Core(path) == "" then "" else "/" + Core(path)
  {
    TrimsCommute(path);
    SlashTrim(TrimLeft(path, '/'));
  }

  lemma AppendTail(pre: string, c: string)
    requires pre != "" && pre[|pre| - 1] != '/' && Bare(c) && c != ""
    ensures Core(pre + "/" + c) == TrimLeft(pre, '/') + "/" + c
    ensures TrimLeft(pre, '/') != ""
  {
    NotAllSlashes(pre);
    TrimLeftAppend(pre, "/");
    CoreAppend(pre + "/", c);
  }

  lemma CoreAppend(pre: string, tail: string)
    requires TrimLeft(pre, '/') != "" && tail != "" && tail[|tail| - 1] != '/'
    ensures Core(pre + tail) == TrimLeft(pre, '/') + tail
  {
    TrimRightAppend(pre, tail);
    TrimLeftAppend(pre, tail);
  }

  /** Trimming on the right does not see a slash put in front, unless nothing else is left. */
  lemma {:induction false} SlashTrim(x: string)
    ensures TrimRight("/" + x, '/') == if TrimRight(x, '/') == "" then "" else "/" + TrimRight(x, '/')
  {
    var s := "/" + x;
    if x == "" {
      assert s[..0] == "";
    } else if x[|x| - 1] == '/' {
      assert s[..|s| - 1] == "/" + x[..|x| - 1];
      SlashTrim(x[..|x| - 1]);
    }
  }

  lemma {:induction false} NotAllSlashes(s: string)
    requires s != "" && s[|s| - 1] != '/'
    ensures TrimLeft(s, '/') != ""
  {
    if s[0] == '/' {
      NotAllSlashes(s[1..]);
    }
  }

  /** The two normalizers agree exactly on the paths that are empty or start with a slash. */
  lemma NormalizersAgree(path: string)
    ensures DispatchPath(path) == CanonicalPath(path) <==> path == "" || path[0] == '/'
  {
    if path != "" && path[0] != '/' {
      TrimRightFirst(path, '/');
    }
  }

  lemma NormalizersIdempotent(path: string)
    ensures DispatchPath(DispatchPath(path)) == DispatchPath(path)
    ensures CanonicalPath(CanonicalPath(path)) == CanonicalPath(path)
  {
    CoreIsBare(path);
    CoreOfBare(Core(path));
    if path != "" && path[0] != '/' {
      TrimRightFirst(path, '/');
    }
  }

  lemma CoreOfJoined(prefix: string, path: string)
    ensures Core(JoinedPath(prefix, path)) == JoinCores(Core(prefix), Core(path))
  {
    CoreIsBare(prefix);
    CoreIsBare(path);
    CoreOfBare(JoinCores(Core(prefix), Core(path)));
  }

  lemma JoinCoresAssociative(x: string, y: string, z: string)
    ensures JoinCores(JoinCores(x, y), z) == JoinCores(x, JoinCores(y, z))
  {
    assert x + "/" + y + "/" + z == x + "/" + (y + "/" + z);
  }

  /** Nesting groups gives the same full path however the nesting is bracketed. */
  lemma JoinAssociative(a: string, b: string, c: string)
    ensures JoinedPath(JoinedPath(a, b), c) == JoinedPath(a, JoinedPath(b, c))
  {
    CoreOfJoined(a, b);
    CoreOfJoined(b, c);
    JoinCoresAssociative(Core(a), Core(b), Core(c));
  }

  /** `normalizeGroupPrefix`: the prefix a nested group carries. */
  function GroupPrefix(parent: string, child: string): string {
    var combined := JoinedPath(parent, child);
    if combined == "/" then "" else combined
  }

  /** Registering `path` on a nested group is registering the joined path on the outer one. */
  lemma NestedGroups(parent: string, child: string, path: string)
    ensures JoinedPath(GroupPrefix(parent, child), path) == JoinedPath(parent, JoinedPath(child, path))
  {
    JoinAssociative(parent, child, path);
    CoreOfJoined(parent, child);
    CoreOfBare("");
  }

  // Splitting

  /** The parts `splitPathToParts` yields. */
  function PathParts(path: string): seq<string> {
    if path == "" || path == "/" then []
    else
      var start := if path[0] == '/' then 1 else 0;
      var end := if |path| > start && path[|path| - 1] == '/' then |path| - 1 else |path|;
      Split(path[start..end], '/')
  }

  lemma SplitStep(path: string, start: nat, i: nat, end: nat, parts: seq<string>)
    requires start <= i < end <= |path| && path[i] == '/'
    requires forall k :: start <= k < i ==> path[k] != '/'
    ensures parts + Split(path[start..end], '/') == parts + [path[start..i]] + Split(path[i + 1..end], '/')
  {
    SplitCut(path[start..i], path[i + 1..end], '/');
    assert path[start..end] == path[start..i] + "/" + path[i + 1..end];
    var rest := Split(path[i + 1..end], '/');
    assert parts + ([path[start..i]] + rest) == parts + [path[start..i]] + rest;
  }

  /** `splitPathToParts`. */
  method SplitPathToParts(path: string) returns (parts: seq<string>)
    ensures parts == PathParts(path)
  {
    parts := [];
    if path == "" || path == "/" {
      return;
    }
    var start := 0;
    var end := |path|;
    if path[0] == '/' {
      start := 1;
    }
    if end > start && path[end - 1] == '/' {
      end := end - 1;
    }
    ghost var all := Split(path[start..end], '/');
    for i := start to end
      invariant 0 <= start <= i
      invariant forall k :: start <= k < i ==> path[k] != '/'
      invariant parts + Split(path[start..end], '/') == all
    {
      if path[i] == '/' {
        SplitStep(path, start, i, end, parts);
        parts := parts + [path[start..i]];
        start := i + 1;
      }
    }
    SplitWhole(path[start..end], '/');
    parts := parts + [path[start..end]];
  }

  /** The registration splitter: `strings.Split(strings.Trim(path, "/"), "/")`. */
  function RouteParts(path: string): (parts: seq<string>)
    ensures |parts| >= 1 && Join(parts, '/') == Core(path)
  {
    JoinSplit(Core(path), '/');
    Split(Core(path), '/')
  }

  /** On a normalized path other than "/" both splitters agree, and joining undoes them. */
  lemma SplittersAgree(path: string)
    requires path == CanonicalPath(path) && path != "/"
    ensures PathParts(path) == RouteParts(path)
    ensures path == "/" + Join(PathParts(path), '/')
  {
    var c := Core(path);
    CoreIsBare(path);
    assert path[1..|path|] == c;
  }

  /** Dispatch always sees a path that its parts rebuild, with or without the leading slash. */
  lemma DispatchParts(path: string)
    requires path == DispatchPath(path) && path != "/"
    ensures var parts := PathParts(path);
            && |parts| >= 1
            && path == (if path[0] == '/' then "/" else "") + Join(parts, '/')
  {
    if path[0] == '/' {
      SplittersAgree(path);
    } else {
      assert path[0..|path|] == path;
      JoinSplit(path, '/');
    }
  }

  lemma PartsOfBare(c: string)
    requires Bare(c)
    ensures PathParts("/" + c) == if c == "" then [] else Split(c, '/')
  {
    if c != "" {
      var path := "/" + c;
      assert path[|path| - 1] == c[|c| - 1];
      assert path[1..|path|] == c;
    }
  }

  /** The parts of a joined path are those of the prefix followed by those of the path. */
  lemma JoinedParts(prefix: string, path: string)
    ensures PathParts(JoinedPath(prefix, path)) == PathParts(CanonicalPath(prefix)) + PathParts(CanonicalPath(path))
  {
    var x, y := Core(prefix), Core(path);
    CoreIsBare(prefix);
    CoreIsBare(path);
    PartsOfBare(x);
    PartsOfBare(y);
    PartsOfBare(JoinCores(x, y));
    if x != "" && y != "" {
      SplitAppend(x, y, '/');
    }
  }
}
