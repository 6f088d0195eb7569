/**
 Route patterns: compiling a canonical path into segments and validating them.
 */
module Patterns {
  import opened Text
  import opened Paths

  /** One compiled segment: literal text, `:name`, or `*name`. */
  datatype Segment = Static(raw: string) | Param(name: string) | Wild(name: string)

  /** The segment as written in the pattern. */
  function Raw(seg: Segment): string {
    match seg
    case Static(raw) => raw
    case Param(name) => ":" + name
    case Wild(name) => "*" + name
  }

  /** The path its trie node is stored under: parameter names are not part of it. */
  function Head(seg: Segment): string {
    match seg
    case Static(raw) => raw
    case Param(_) => ":"
    case Wild(_) => "*"
  }

  /** The parameter name of a capturing segment. */
  function Name(seg: Segment): string {
    match seg
    case Static(_) => ""
    case Param(name) => name
    case Wild(name) => name
  }

  function ParseSegment(part: string): (seg: Segment)
    ensures Raw(seg) == part
  {
    if part != "" && part[0] == ':' then Param(part[1..])
    else if part != "" && part[0] == '*' then Wild(part[1..])
    else Static(part)
  }

  /** `compilePathSegments`. */
  function CompilePathSegments(path: string): (segs: seq<Segment>)
    ensures path != "/" ==> |segs| == |RouteParts(path)|
  {
    if path == "/" then []
    else
      var parts := RouteParts(path);
      seq(|parts|, i requires 0 <= i < |parts| => ParseSegment(parts[i]))
  }

  function Raws(segs: seq<Segment>): (raws: seq<string>)
    ensures |raws| == |segs|
  {
    seq(|segs|, i requires 0 <= i < |segs| => Raw(segs[i]))
  }

  /** A position in a trie: the heads on the way from the root, last one outermost. */
  datatype Position = Root | Under(parent: Position, head: string)

  function Depth(p: Position): nat {
    match p
    case Root => 0
    case Under(parent, _) => Depth(parent) + 1
  }

  /** The position reached after the first `i` segments. */
  function At(segs: seq<Segment>, i: nat): (p: Position)
    requires i <= |segs|
    ensures Depth(p) == i
  {
    if i == 0 then Root else Under(At(segs, i - 1), Head(segs[i - 1]))
  }

  /** The position a pattern ends at. */
  function End(segs: seq<Segment>): Position {
    At(segs, |segs|)
  }

  /** `p` lies on the way of the pattern. */
  predicate Passes(segs: seq<Segment>, p: Position) {
    Depth(p) <= |segs| && At(segs, Depth(p)) == p
  }

  /** The names of the capturing segments, in order. */
  function ParamKeys(segs: seq<Segment>): seq<string> {
    if segs == [] then []
    else if segs[|segs| - 1].Static? then ParamKeys(segs[..|segs| - 1])
    else ParamKeys(segs[..|segs| - 1]) + [Name(segs[|segs| - 1])]
  }

  lemma ParamKeysStep(segs: seq<Segment>, i: nat)
    requires i < |segs|
    ensures ParamKeys(segs[..i + 1]) == ParamKeys(segs[..i]) + if segs[i].Static? then [] else [Name(segs[i])]
  {
    assert segs[..i + 1][..i] == segs[..i];
  }

  /** The names of a pattern, first segment first. */
  lemma {:induction false} ParamKeysCons(segs: seq<Segment>)
    requires |segs| >= 1
    ensures ParamKeys(segs) == (if segs[0].Static? then [] else [Name(segs[0])]) + ParamKeys(segs[1..])
  {
    if |segs| > 1 {
      var front := segs[..|segs| - 1];
      ParamKeysCons(front);
      assert front[1..] == segs[1..][..|segs| - 2];
    } else {
      assert segs[..0] == [] && segs[1..] == [];
    }
  }

  /** The text of a pattern: what its segments were compiled from. */
  function PatternText(segs: seq<Segment>): string {
    "/" + Join(Raws(segs), '/')
  }

  /** Compiling loses nothing: a canonical pattern is the text of its segments. */
  lemma CompileRoundTrip(path: string)
    requires path == CanonicalPath(path)
    ensures PatternText(CompilePathSegments(path)) == path
  {
    if path != "/" {
      SplittersAgree(path);
      assert Raws(CompilePathSegments(path)) == RouteParts(path);
    } else {
      assert Raws([]) == [];
    }
  }

  // Validation

  predicate IsParamNameStart(b: char) {
    b == '_' || 'A' <= b <= 'Z' || 'a' <= b <= 'z'
  }

  predicate IsParamNameChar(b: char) {
    IsParamNameStart(b) || '0' <= b <= '9'
  }

  /** `isRouteParamName`. */
  predicate IsRouteParamName(name: string) {
    name != "" && IsParamNameStart(name[0]) && forall i :: 1 <= i < |name| ==> IsParamNameChar(name[i])
  }

  predicate SegmentOk(seg: Segment) {
    match seg
    case Static(raw) => raw != "" && raw[0] != ':' && raw[0] != '*'
    case Param(name) => IsRouteParamName(name)
    case Wild(name) => IsRouteParamName(name)
  }

  /** Non-empty segments, proper names, a wildcard only at the end, no name twice. */
  ghost predicate WellFormed(segs: seq<Segment>) {
    && (forall i :: 0 <= i < |segs| ==> SegmentOk(segs[i]))
    && (forall i :: 0 <= i < |segs| - 1 ==> !segs[i].Wild?)
    && (forall i, j :: 0 <= i < j < |segs| && !segs[i].Static? && !segs[j].Static? ==> Name(segs[i]) != Name(segs[j]))
  }

  datatype SegmentError =
    | EmptySegment | EmptyParamName | InvalidParamName | EmptyWildName | InvalidWildName
    | NonTerminalWildcard | DuplicateParamName

  /** What an error reported at segment `i` says about the pattern. */
  ghost predicate Explains(err: SegmentError, segs: seq<Segment>, i: nat)
    requires i < |segs|
  {
    match err
    case EmptySegment => segs[i] == Static("")
    case EmptyParamName => segs[i] == Param("")
    case InvalidParamName => segs[i].Param? && segs[i].name != "" && !IsRouteParamName(segs[i].name)
    case EmptyWildName => segs[i] == Wild("")
    case InvalidWildName => segs[i].Wild? && segs[i].name != "" && !IsRouteParamName(segs[i].name)
    case NonTerminalWildcard => segs[i].Wild? && i < |segs| - 1
    case DuplicateParamName =>
      exists j :: 0 <= j < i && !segs[i].Static? && !segs[j].Static? && Name(segs[j]) == Name(segs[i])
  }

  /** Segments that come out of `CompilePathSegments`: literal text never looks like a capture. */
  ghost predicate Compiled(segs: seq<Segment>) {
    forall i :: 0 <= i < |segs| && segs[i].Static? && segs[i].raw != "" ==>
                  segs[i].raw[0] != ':' && segs[i].raw[0] != '*'
  }

  lemma CompiledSegments(path: string)
    ensures Compiled(CompilePathSegments(path))
  {
  }

  /** `validateRouteSegments`. */
  method ValidateRouteSegments(segs: seq<Segment>) returns (err: Option<SegmentError>)
    requires Compiled(segs)
    ensures err.None? <==> WellFormed(segs)
    ensures err.Some? ==> exists i :: 0 <= i < |segs| && Explains(err.value, segs, i) && WellFormed(segs[..i])
  {
    var seen: set<string> := {};
    for i := 0 to |segs|
      invariant forall j :: 0 <= j < i ==> SegmentOk(segs[j]) && (j < |segs| - 1 ==> !segs[j].Wild?)
      invariant forall x :: x in seen <==> exists j :: 0 <= j < i && !segs[j].Static? && Name(segs[j]) == x
      invariant forall j, k :: 0 <= j < k < i && !segs[j].Static? && !segs[k].Static? ==> Name(segs[j]) != Name(segs[k])
    {
      err := CheckSegment(segs, i, seen);
      if err.Some? {
        return;
      }
      if !segs[i].Static? {
        seen := seen + {Name(segs[i])};
      }
    }
    err := None;
  }

  /** The checks on one segment, in the order the source makes them. */
  method CheckSegment(segs: seq<Segment>, i: nat, seen: set<string>) returns (err: Option<SegmentError>)
    requires Compiled(segs) && i < |segs|
    requires forall x :: x in seen <==> exists j :: 0 <= j < i && !segs[j].Static? && Name(segs[j]) == x
    ensures err.Some? ==> Explains(err.value, segs, i)
    ensures err.None? ==> SegmentOk(segs[i]) && (i < |segs| - 1 ==> !segs[i].Wild?)
    ensures err.None? && !segs[i].Static? ==> Name(segs[i]) !in seen
  {
    match segs[i] {
      case Static(raw) =>
        if raw == "" { return Some(EmptySegment); }
      case Param(name) =>
        if name == "" { return Some(EmptyParamName); }
        if !IsRouteParamName(name) { return Some(InvalidParamName); }
        if name in seen { return Some(DuplicateParamName); }
      case Wild(name) =>
        if name == "" { return Some(EmptyWildName); }
        if !IsRouteParamName(name) { return Some(InvalidWildName); }
        if i != |segs| - 1 { return Some(NonTerminalWildcard); }
        if name in seen { return Some(DuplicateParamName); }
    }
    return None;
  }
}
