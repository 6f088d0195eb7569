/**
 Reverse routing: building the URL of a named route, and when dispatching that URL comes back to
 the route with the values it was built from.
 */
module ReverseRouting {
  import opened Text
  import opened Paths
  import opened Patterns
  import opened RouteTable
  import opened MatchLaws
  import opened Routing
  import opened Percent

  // Building a URL

  datatype UrlError = RouteNotFound | UnpairedKey | DuplicateKey | UnknownKey | MissingParam | EmptyParam

  datatype UrlResult = Url(url: string) | NoUrl(error: UrlError)

  /** The map built from the first `n` key-value pairs. */
  function Pairs(params: seq<string>, n: nat): map<string, string>
    requires 2 * n <= |params|
  {
    if n == 0 then map[] else Pairs(params, n - 1)[params[2 * n - 2] := params[2 * n - 1]]
  }

  ghost predicate KeysOk(params: seq<string>, n: nat, paramPos: map<string, int>)
    requires 2 * n <= |params|
  {
    && (forall i :: 0 <= i < n ==> params[2 * i] in paramPos)
    && (forall i, j :: 0 <= i < j < n ==> params[2 * i] != params[2 * j])
  }

  lemma {:induction false} PairsKeys(params: seq<string>, n: nat)
    requires 2 * n <= |params|
    ensures forall k :: k in Pairs(params, n) <==> exists i :: 0 <= i < n && params[2 * i] == k
  {
    if n > 0 {
      PairsKeys(params, n - 1);
      assert params[2 * (n - 1)] == params[2 * n - 2];
    }
  }

  /** Each of the distinct keys has the value that follows it. */
  lemma {:induction false} PairsValues(params: seq<string>, n: nat, i: nat)
    requires 2 * n <= |params| && i < n && forall j, k :: 0 <= j < k < n ==> params[2 * j] != params[2 * k]
    ensures params[2 * i] in Pairs(params, n) && Pairs(params, n)[params[2 * i]] == params[2 * i + 1]
  {
    if i < n - 1 {
      PairsValues(params, n - 1, i);
      assert params[2 * i] != params[2 * (n - 1)];
    }
  }

  /** Pair `n` is the first with a wrong key: one given before, or one the pattern does not have. */
  ghost predicate BadPair(params: seq<string>, n: nat, paramPos: map<string, int>, e: UrlError) {
    && 2 * n < |params| && KeysOk(params, n, paramPos)
    && if exists i :: 0 <= i < n && params[2 * i] == params[2 * n] then e == DuplicateKey
       else params[2 * n] !in paramPos && e == UnknownKey
  }

  /** The loop that pairs keys with values. */
  method PairParams(params: seq<string>, paramPos: map<string, int>) returns (vals: map<string, string>, err: Option<UrlError>)
    requires |params| % 2 == 0
    ensures err.None? <==> KeysOk(params, |params| / 2, paramPos)
    ensures err.None? ==> vals == Pairs(params, |params| / 2)
    ensures err.Some? ==> exists n: nat :: BadPair(params, n, paramPos, err.value)
  {
    vals := map[];
    var n := 0;
    while 2 * n < |params|
      invariant 0 <= 2 * n <= |params| && KeysOk(params, n, paramPos) && vals == Pairs(params, n)
    {
      var key := params[2 * n];
      PairsKeys(params, n);
      if key in vals {
        var i :| 0 <= i < n && params[2 * i] == key;
        assert BadPair(params, n, paramPos, DuplicateKey);
        return vals, Some(DuplicateKey);
      }
      if key !in paramPos {
        assert BadPair(params, n, paramPos, UnknownKey);
        return vals, Some(UnknownKey);
      }
      vals := vals[key := params[2 * n + 1]];
      n := n + 1;
    }
    return vals, None;
  }

  function EscapeEach(parts: seq<string>): seq<string>
    requires forall i :: 0 <= i < |parts| ==> Bytes(parts[i])
  {
    if parts == [] then [] else [PathEscape(parts[0])] + EscapeEach(parts[1..])
  }

  lemma {:induction false} SplitBytes(s: string, sep: char)
    requires Bytes(s)
    ensures forall i :: 0 <= i < |Split(s, sep)| ==> Bytes(Split(s, sep)[i])
  {
    if s != "" {
      SplitBytes(s[1..], sep);
    }
  }

  function EscapeWild(v: string): string
    requires Bytes(v)
  {
    SplitBytes(v, '/');
    Join(EscapeEach(Split(v, '/')), '/')
  }

  predicate Supplied(seg: Segment, vals: map<string, string>) {
    seg.Static? || (Name(seg) in vals && vals[Name(seg)] != "" && Bytes(vals[Name(seg)]))
  }

  predicate AllSupplied(segs: seq<Segment>, vals: map<string, string>) {
    forall i :: 0 <= i < |segs| ==> Supplied(segs[i], vals)
  }

  function RenderPart(seg: Segment, vals: map<string, string>): string
    requires Supplied(seg, vals)
  {
    match seg
    case Static(raw) => raw
    case Param(name) => PathEscape(vals[name])
    case Wild(name) => EscapeWild(vals[name])
  }

  function Render(segs: seq<Segment>, vals: map<string, string>): (parts: seq<string>)
    requires AllSupplied(segs, vals)
    ensures |parts| == |segs|
  {
    seq(|segs|, i requires 0 <= i < |segs| => RenderPart(segs[i], vals))
  }

  /** The segments `strings.Split(strings.Trim(pattern, "/"), "/")` yields. */
  function PatternSegments(pattern: string): (segs: seq<Segment>)
    ensures |segs| >= 1
  {
    var parts := RouteParts(pattern);
    seq(|parts|, i requires 0 <= i < |parts| => ParseSegment(parts[i]))
  }

  /** Segment `i` is the first capture without a value: none was given, or an empty one. */
  ghost predicate LacksValue(segs: seq<Segment>, vals: map<string, string>, i: nat, e: UrlError) {
    && i < |segs| && (forall k :: 0 <= k < i ==> Supplied(segs[k], vals)) && !segs[i].Static?
    && if Name(segs[i]) !in vals then e == MissingParam else vals[Name(segs[i])] == "" && e == EmptyParam
  }

  /** Why there is no URL: the earliest check that fails. */
  ghost predicate NoUrlBecause(named: map<string, NamedRoute>, name: string, params: seq<string>, e: UrlError) {
    if name !in named then e == RouteNotFound
    else if |params| % 2 != 0 then e == UnpairedKey
    else if !KeysOk(params, |params| / 2, named[name].paramPos) then exists n: nat :: BadPair(params, n, named[name].paramPos, e)
    else exists i: nat :: LacksValue(PatternSegments(named[name].pattern), Pairs(params, |params| / 2), i, e)
  }

  /** `urlForNamedRoute`: succeeds exactly when the keys are right and every capture has a value. */
  method UrlForNamedRoute(named: map<string, NamedRoute>, name: string, params: seq<string>) returns (r: UrlResult)
    requires forall i :: 0 <= i < |params| ==> Bytes(params[i])
    ensures r.Url? <==>
            && name in named && |params| % 2 == 0 && KeysOk(params, |params| / 2, named[name].paramPos)
            && AllSupplied(PatternSegments(named[name].pattern), Pairs(params, |params| / 2))
    ensures r.Url? ==>
              r.url == "/" + Join(Render(PatternSegments(named[name].pattern), Pairs(params, |params| / 2)), '/')
    ensures r.NoUrl? ==> NoUrlBecause(named, name, params, r.error)
  {
    if name !in named {
      return NoUrl(RouteNotFound);
    }
    if |params| % 2 != 0 {
      return NoUrl(UnpairedKey);
    }
    var vals, err := PairParams(params, named[name].paramPos);
    if err.Some? {
      return NoUrl(err.value);
    }
    PairsBytes(params, |params| / 2);
    var parts, bad := RenderAll(PatternSegments(named[name].pattern), vals);
    if bad.Some? {
      return NoUrl(bad.value);
    }
    return Url("/" + Join(parts, '/'));
  }

  /** The loop over the pattern's parts; the first capture without a value stops it. */
  method RenderAll(segs: seq<Segment>, vals: map<string, string>) returns (parts: seq<string>, err: Option<UrlError>)
    requires forall k :: k in vals ==> Bytes(vals[k])
    ensures err.None? <==> AllSupplied(segs, vals)
    ensures err.None? ==> parts == Render(segs, vals)
    ensures err.Some? ==> exists i: nat :: LacksValue(segs, vals, i, err.value)
  {
    parts := [];
    for i := 0 to |segs|
      invariant |parts| == i
      invariant forall k :: 0 <= k < i ==> Supplied(segs[k], vals) && parts[k] == RenderPart(segs[k], vals)
    {
      if !segs[i].Static? {
        if Name(segs[i]) !in vals {
          assert LacksValue(segs, vals, i, MissingParam);
          return parts, Some(MissingParam);
        }
        if vals[Name(segs[i])] == "" {
          assert LacksValue(segs, vals, i, EmptyParam);
          return parts, Some(EmptyParam);
        }
      }
      parts := parts + [RenderPart(segs[i], vals)];
    }
    err := None;
  }

  lemma {:induction false} PairsBytes(params: seq<string>, n: nat)
    requires 2 * n <= |params| && forall i :: 0 <= i < |params| ==> Bytes(params[i])
    ensures forall k :: k in Pairs(params, n) ==> Bytes(Pairs(params, n)[k])
  {
    if n > 0 {
      PairsBytes(params, n - 1);
    }
  }

  // What the URL decodes to

  /** The supplied values in the order of the captures. */
  function ValuesOf(segs: seq<Segment>, vals: map<string, string>): seq<string>
    requires AllSupplied(segs, vals)
  {
    if segs == [] then []
    else
      assert Supplied(segs[0], vals);
      (if segs[0].Static? then [] else [vals[Name(segs[0])]]) + ValuesOf(segs[1..], vals)
  }

  ghost predicate NoPercent(segs: seq<Segment>) {
    forall i :: 0 <= i < |segs| && segs[i].Static? ==> '%' !in segs[i].raw
  }

  lemma {:induction false} DecodeEach(parts: seq<string>, rest: string)
    requires |parts| >= 1 && forall i :: 0 <= i < |parts| ==> Bytes(parts[i])
    ensures Unescape(Join(EscapeEach(parts), '/') + rest) == PrependAll(Join(parts, '/'), Unescape(rest))
  {
    var rest' := EscapeEach(parts[1..]);
    if |parts| == 1 {
      assert rest' == [];
      UnescapeEscaped(parts[0], rest);
    } else {
      var tail := Join(rest', '/') + rest;
      DecodeEach(parts[1..], rest);
      JoinAppend([PathEscape(parts[0])], rest', '/');
      Append3(PathEscape(parts[0]), Join(rest', '/'), rest);
      UnescapeEscaped(parts[0], "/" + tail);
      UnescapeText("/", tail);
      Joined3(parts[0], Join(parts[1..], '/'), Unescape(rest));
    }
  }

  lemma Append3(a: string, b: string, c: string)
    ensures a + "/" + b + c == a + ("/" + (b + c))
  {
  }

  lemma Joined3(a: string, b: string, s: Option<string>)
    ensures PrependAll(a, PrependAll("/", PrependAll(b, s))) == PrependAll(a + "/" + b, s)
  {
    if s.Some? {
      assert a + ("/" + (b + s.value)) == a + "/" + b + s.value;
    }
  }

  /** The text a segment stands for with its value put in. */
  function PlainPart(seg: Segment, vals: map<string, string>): string
    requires Supplied(seg, vals)
  {
    if seg.Static? then seg.raw else vals[Name(seg)]
  }

  lemma DecodePart(seg: Segment, vals: map<string, string>, rest: string)
    requires Supplied(seg, vals) && (seg.Static? ==> '%' !in seg.raw)
    ensures Unescape(RenderPart(seg, vals) + rest) == PrependAll(PlainPart(seg, vals), Unescape(rest))
  {
    match seg
    case Static(raw) =>
      UnescapeText(raw, rest);
    case Param(name) =>
      UnescapeEscaped(vals[name], rest);
    case Wild(name) =>
      SplitBytes(vals[name], '/');
      DecodeEach(Split(vals[name], '/'), rest);
      JoinSplit(vals[name], '/');
  }

  /** The built URL decodes to the pattern with the supplied values put in. */
  lemma {:induction false} DecodeRendered(segs: seq<Segment>, vals: map<string, string>)
    requires |segs| >= 1 && AllSupplied(segs, vals) && NoPercent(segs)
    ensures Unescape(Join(Render(segs, vals), '/')) == Some(Join(Substitute(segs, ValuesOf(segs, vals)), '/'))
  {
    SubstituteFirst(segs, vals);
    RenderFirst(segs, vals);
    var first, plain := RenderPart(segs[0], vals), PlainPart(segs[0], vals);
    var restParts, restPlain := Render(segs[1..], vals), Substitute(segs[1..], ValuesOf(segs[1..], vals));
    if |segs| == 1 {
      DecodePart(segs[0], vals, "");
      assert first + "" == first && plain + "" == plain;
      assert restParts == [] && restPlain == [];
    } else {
      DecodeRendered(segs[1..], vals);
      DecodePart(segs[0], vals, "/" + Join(restParts, '/'));
      UnescapeText("/", Join(restParts, '/'));
      Slashed(first, Join(restParts, '/'));
      Slashed(plain, Join(restPlain, '/'));
      JoinAppend([first], restParts, '/');
      JoinAppend([plain], restPlain, '/');
    }
  }

  // Percent signs in the literal text are copied as they are, and then decoded

  function StaticPercents(segs: seq<Segment>): nat {
    if segs == [] then 0 else (if segs[0].Static? then Percents(segs[0].raw) else 0) + StaticPercents(segs[1..])
  }

  lemma {:induction false} StaticPercentsNone(segs: seq<Segment>)
    ensures StaticPercents(segs) == 0 <==> NoPercent(segs)
  {
    if segs != [] {
      StaticPercentsNone(segs[1..]);
      if segs[0].Static? {
        PercentsNone(segs[0].raw);
      }
      assert segs == [segs[0]] + segs[1..];
    }
  }

  lemma PartLength(seg: Segment, vals: map<string, string>)
    requires Supplied(seg, vals)
    ensures |RenderPart(seg, vals)| - 2 * Percents(RenderPart(seg, vals)) ==
            |PlainPart(seg, vals)| - 2 * if seg.Static? then Percents(seg.raw) else 0
  {
    if !seg.Static? {
      DecodePart(seg, vals, "");
      assert RenderPart(seg, vals) + "" == RenderPart(seg, vals) && PlainPart(seg, vals) + "" == PlainPart(seg, vals);
      UnescapeLength(RenderPart(seg, vals));
    }
  }

  lemma {:induction false} RenderedLength(segs: seq<Segment>, vals: map<string, string>)
    requires |segs| >= 1 && AllSupplied(segs, vals)
    ensures var url, plain := Join(Render(segs, vals), '/'), Join(Substitute(segs, ValuesOf(segs, vals)), '/');
            |url| - 2 * Percents(url) == |plain| - 2 * StaticPercents(segs)
  {
    SubstituteFirst(segs, vals);
    RenderFirst(segs, vals);
    PartLength(segs[0], vals);
    var first, plain := RenderPart(segs[0], vals), PlainPart(segs[0], vals);
    var restParts, restPlain := Render(segs[1..], vals), Substitute(segs[1..], ValuesOf(segs[1..], vals));
    if |segs| == 1 {
      assert restParts == [] && restPlain == [] && segs[1..] == [];
    } else {
      RenderedLength(segs[1..], vals);
      JoinAppend([first], restParts, '/');
      JoinAppend([plain], restPlain, '/');
      PercentsConcat(first + "/", Join(restParts, '/'));
      PercentsConcat(first, "/");
      assert Percents("/") == 0;
    }
  }

  /** A URL that decodes gives the plain path back exactly when the pattern's text has no percent sign; else it is shorter. */
  lemma DecodesIff(segs: seq<Segment>, vals: map<string, string>)
    requires |segs| >= 1 && AllSupplied(segs, vals)
    ensures var url, plain := Join(Render(segs, vals), '/'), Join(Substitute(segs, ValuesOf(segs, vals)), '/');
            && (Unescape(url) == Some(plain) <==> NoPercent(segs))
            && (!NoPercent(segs) && Unescape(url).Some? ==> |Unescape(url).value| < |plain|)
  {
    StaticPercentsNone(segs);
    RenderedLength(segs, vals);
    UnescapeLength(Join(Render(segs, vals), '/'));
    if NoPercent(segs) {
      DecodeRendered(segs, vals);
    }
  }

  lemma Slashed(plain: string, rest: string)
    ensures PrependAll(plain, PrependAll("/", Some(rest))) == Some(plain + "/" + rest)
    ensures plain + ("/" + rest) == plain + "/" + rest
  {
    assert plain + ("/" + rest) == plain + "/" + rest;
  }

  lemma RenderFirst(segs: seq<Segment>, vals: map<string, string>)
    requires |segs| >= 1 && AllSupplied(segs, vals)
    ensures Supplied(segs[0], vals) && Render(segs, vals) == [RenderPart(segs[0], vals)] + Render(segs[1..], vals)
  {
    assert Supplied(segs[0], vals);
  }

  lemma SubstituteFirst(segs: seq<Segment>, vals: map<string, string>)
    requires |segs| >= 1 && AllSupplied(segs, vals)
    ensures Supplied(segs[0], vals)
    ensures Substitute(segs, ValuesOf(segs, vals)) ==
            [PlainPart(segs[0], vals)] + Substitute(segs[1..], ValuesOf(segs[1..], vals))
  {
    assert Supplied(segs[0], vals);
    var values := ValuesOf(segs, vals);
    if segs[0].Static? {
      assert values == ValuesOf(segs[1..], vals);
    } else {
      assert values[1..] == ValuesOf(segs[1..], vals);
    }
  }
}
