/**
 What a match says about the request: the values captured, in order, put back into the matched
 pattern, give the request path again.
 */
module MatchLaws {
  import opened Text
  import opened Paths
  import opened Patterns
  import opened RouteTable

  /** A request segment that is literally ":" or "*" is found as a static child and not captured. */
  predicate LiteralHit(segs: seq<Segment>, parts: seq<string>, k: nat)
    requires k < |segs| && k < |parts|
  {
    (segs[k].Param? && parts[k] == ":") || (segs[k].Wild? && parts[k] == "*")
  }

  /** From segment `k` on, the parts have the form of the pattern. */
  predicate Fits(segs: seq<Segment>, parts: seq<string>, k: nat)
    requires k <= |segs|
    decreases |segs| - k
  {
    if k == |segs| then |parts| == k
    else
      && k < |parts| && parts[k] != ""
      && match segs[k]
         case Static(raw) => parts[k] == raw && Fits(segs, parts, k + 1)
         case Param(_) => Fits(segs, parts, k + 1)
         case Wild(_) => k == |segs| - 1 && (parts[k] == "*" ==> |parts| == k + 1)
  }

  /** The values captured from segment `k` on. */
  function Captured(segs: seq<Segment>, parts: seq<string>, raw: string, k: nat): seq<string>
    requires k <= |segs| && Fits(segs, parts, k)
    decreases |segs| - k
  {
    if k == |segs| then []
    else
      var here :=
        match segs[k]
        case Static(_) => []
        case Param(_) => [parts[k]]
        case Wild(_) => [Suffix(raw, Offset(parts, k))];
      var rest := if segs[k].Wild? then [] else Captured(segs, parts, raw, k + 1);
      if LiteralHit(segs, parts, k) then rest else here + rest
  }

  lemma StepSegment(routes: seq<Route>, p: Position, h: string, j: nat)
    requires Consistent(routes) && j < |routes| && Passes(routes[j].segs, Under(p, h))
    ensures Passes(routes[j].segs, p) && Depth(p) < |routes[j].segs|
    ensures var seg := routes[j].segs[Depth(p)];
            Head(seg) == h && SegmentOk(seg) && (seg.Wild? ==> Depth(p) == |routes[j].segs| - 1)
  {
    PassesStep(routes[j].segs, p, h);
    assert WellFormed(routes[j].segs);
  }

  lemma FitsExact(segs: seq<Segment>, parts: seq<string>, raw: string, i: nat)
    requires i < |segs| && i < |parts| && parts[i] != "" && Head(segs[i]) == parts[i] && SegmentOk(segs[i])
    requires Fits(segs, parts, i + 1) && (segs[i].Wild? ==> i == |segs| - 1)
    ensures Fits(segs, parts, i) && Captured(segs, parts, raw, i) == Captured(segs, parts, raw, i + 1)
  {
  }

  lemma FitsParam(segs: seq<Segment>, parts: seq<string>, raw: string, i: nat, values: seq<string>)
    requires i < |segs| && i < |parts| && parts[i] != "" && parts[i] != ":" && segs[i].Param?
    requires Fits(segs, parts, i + 1)
    ensures Fits(segs, parts, i)
    ensures values + Captured(segs, parts, raw, i) == values + [parts[i]] + Captured(segs, parts, raw, i + 1)
  {
  }

  lemma FitsWild(segs: seq<Segment>, parts: seq<string>, raw: string, i: nat)
    requires i == |segs| - 1 && i < |parts| && parts[i] != "" && parts[i] != "*" && segs[i].Wild?
    ensures Fits(segs, parts, i) && Captured(segs, parts, raw, i) == [Suffix(raw, Offset(parts, i))]
  {
  }

  lemma KeepsDiffer(cands: seq<Route>, i: nat, g: string, h: string)
    requires Keep(cands, i, g) == [] && Keep(cands, i, h) != []
    ensures g != h
  {
  }

  lemma ExactStep(routes: seq<Route>, p: Position, i: nat, parts: seq<string>, raw: string, j: nat)
    requires Consistent(routes) && i == Depth(p) && j < |routes| && i < |parts| && parts[i] != ""
    requires Passes(routes[j].segs, Under(p, parts[i])) && i < |routes[j].segs|
    requires Fits(routes[j].segs, parts, i + 1)
    ensures Passes(routes[j].segs, p) && Fits(routes[j].segs, parts, i)
    ensures Captured(routes[j].segs, parts, raw, i) == Captured(routes[j].segs, parts, raw, i + 1)
  {
    StepSegment(routes, p, parts[i], j);
    FitsExact(routes[j].segs, parts, raw, i);
  }

  lemma ParamStep(routes: seq<Route>, p: Position, i: nat, parts: seq<string>, raw: string, values: seq<string>, j: nat)
    requires Consistent(routes) && i == Depth(p) && j < |routes| && i < |parts| && parts[i] != "" && parts[i] != ":"
    requires Passes(routes[j].segs, Under(p, ":")) && i < |routes[j].segs|
    requires Fits(routes[j].segs, parts, i + 1)
    ensures Passes(routes[j].segs, p) && Fits(routes[j].segs, parts, i)
    ensures values + Captured(routes[j].segs, parts, raw, i) ==
            values + [parts[i]] + Captured(routes[j].segs, parts, raw, i + 1)
  {
    StepSegment(routes, p, ":", j);
    FitsParam(routes[j].segs, parts, raw, i, values);
  }

  lemma FinishFits(routes: seq<Route>, p: Position, i: nat, parts: seq<string>, raw: string, values: seq<string>)
    returns (j: nat)
    requires Consistent(routes) && i == Depth(p) && i < |parts| && parts[i] != "" && parts[i] != "*"
    requires Finish(Keep(Through(routes, p), i, "*"), i + 1, values + [Suffix(raw, Offset(parts, i))]).Some?
    ensures j < |routes| && i < |routes[j].segs| && Passes(routes[j].segs, p) && Fits(routes[j].segs, parts, i)
    ensures Finish(Keep(Through(routes, p), i, "*"), i + 1, values + [Suffix(raw, Offset(parts, i))]) ==
            Some(ResultOf(routes[j], values + Captured(routes[j].segs, parts, raw, i)))
  {
    var q := Under(p, "*");
    assert Depth(q) == i + 1;
    KeepThrough(routes, p, "*");
    j := EndingWitness(routes, q);
    StepSegment(routes, p, "*", j);
    FitsWild(routes[j].segs, parts, raw, i);
  }

  /** The route at `j` accounts for a result reached at position `p`. */
  ghost predicate Accounts(routes: seq<Route>, p: Position, i: nat, parts: seq<string>, raw: string, values: seq<string>,
                           j: nat, result: Option<MatchResult>)
  {
    && j < |routes| && i <= |routes[j].segs| && Passes(routes[j].segs, p) && Fits(routes[j].segs, parts, i)
    && result == Some(ResultOf(routes[j], values + Captured(routes[j].segs, parts, raw, i)))
  }

  /** A match comes from an accepted route whose form the parts have, with the values of that form. */
  lemma {:induction false} NarrowFits(routes: seq<Route>, p: Position, i: nat, parts: seq<string>, raw: string,
                                      values: seq<string>) returns (j: nat)
    requires Consistent(routes) && Depth(p) == i <= |parts|
    requires Narrow(Through(routes, p), i, parts, raw, values).Some?
    ensures Accounts(routes, p, i, parts, raw, values, j, Narrow(Through(routes, p), i, parts, raw, values))
    decreases |parts| - i, 1
  {
    var cands := Through(routes, p);
    if i == |parts| {
      j := EndingWitness(routes, p);
      assert values + [] == values;
    } else {
      NarrowStep(cands, i, parts, raw, values);
      if Keep(cands, i, parts[i]) != [] {
        j := ExactFits(routes, p, i, parts, raw, values);
      } else if Keep(cands, i, ":") != [] {
        j := ParamFits(routes, p, i, parts, raw, values);
      } else {
        KeepsDiffer(cands, i, parts[i], "*");
        j := FinishFits(routes, p, i, parts, raw, values);
      }
    }
  }

  /** A match carries the handler, the pattern, the name and the capture names of one accepted route the parts fit. */
  lemma MatchCarriesRoute(routes: seq<Route>, parts: seq<string>, raw: string) returns (j: nat)
    requires Consistent(routes) && GreedyMatch(routes, parts, raw).Some?
    ensures j < |routes| && Fits(routes[j].segs, parts, 0)
    ensures var res := GreedyMatch(routes, parts, raw).value;
            && res.handler == routes[j].handler && res.pattern == routes[j].pattern
            && res.routeName == routes[j].meta.name && res.keys == ParamKeys(routes[j].segs)
  {
    ThroughRoot(routes);
    j := NarrowFits(routes, Root, 0, parts, raw, []);
  }

  lemma {:induction false} ExactFits(routes: seq<Route>, p: Position, i: nat, parts: seq<string>, raw: string,
                                     values: seq<string>) returns (j: nat)
    requires Consistent(routes) && Depth(p) == i < |parts| && parts[i] != ""
    requires Narrow(Keep(Through(routes, p), i, parts[i]), i + 1, parts, raw, values).Some?
    ensures Accounts(routes, p, i, parts, raw, values, j, Narrow(Keep(Through(routes, p), i, parts[i]), i + 1, parts, raw, values))
    decreases |parts| - i, 0
  {
    KeepThrough(routes, p, parts[i]);
    j := NarrowFits(routes, Under(p, parts[i]), i + 1, parts, raw, values);
    ExactStep(routes, p, i, parts, raw, j);
  }

  lemma {:induction false} ParamFits(routes: seq<Route>, p: Position, i: nat, parts: seq<string>, raw: string,
                                     values: seq<string>) returns (j: nat)
    requires Consistent(routes) && Depth(p) == i < |parts| && parts[i] != ""
    requires Keep(Through(routes, p), i, parts[i]) == [] && Keep(Through(routes, p), i, ":") != []
    requires Narrow(Keep(Through(routes, p), i, ":"), i + 1, parts, raw, values + [parts[i]]).Some?
    ensures Accounts(routes, p, i, parts, raw, values, j,
                     Narrow(Keep(Through(routes, p), i, ":"), i + 1, parts, raw, values + [parts[i]]))
    decreases |parts| - i, 0
  {
    KeepsDiffer(Through(routes, p), i, parts[i], ":");
    KeepThrough(routes, p, ":");
    j := NarrowFits(routes, Under(p, ":"), i + 1, parts, raw, values + [parts[i]]);
    ParamStep(routes, p, i, parts, raw, values, j);
  }

  // The wildcard value

  lemma JoinSplitAt(parts: seq<string>, i: nat)
    requires 0 < i < |parts|
    ensures Join(parts, '/') == Join(parts[..i], '/') + "/" + Join(parts[i..], '/')
    ensures |Join(parts[..i], '/')| + 2 == Offset(parts, i)
  {
    assert parts == parts[..i] + parts[i..];
    JoinAppend(parts[..i], parts[i..], '/');
    JoinLength(parts[..i]);
    OffsetPrefix(parts, i);
  }

  /**
   The value cut out by offset is the join of the remaining segments; on a path without a
   leading slash it lacks that join's first byte.
   */
  lemma WildcardValue(parts: seq<string>, i: nat)
    requires i < |parts| && parts[i] != ""
    ensures Suffix("/" + Join(parts, '/'), Offset(parts, i)) == Join(parts[i..], '/')
    ensures Join(parts[i..], '/') != ""
    ensures Suffix(Join(parts, '/'), Offset(parts, i)) == Join(parts[i..], '/')[1..]
  {
    var tail := Join(parts[i..], '/');
    assert parts[i..][0] == parts[i];
    if i == 0 {
      assert parts[0..] == parts;
      assert ("/" + tail)[1..] == tail;
    } else {
      JoinSplitAt(parts, i);
      var head := Join(parts[..i], '/') + "/";
      assert Join(parts, '/') == head + tail;
      assert (head + tail)[|head| + 1..] == tail[1..];
      assert ("/" + (head + tail))[1 + |head|..] == tail;
    }
  }

  // Substitution

  /** The segments of a pattern with its captures replaced by values, in order. */
  function Substitute(segs: seq<Segment>, values: seq<string>): (parts: seq<string>)
    ensures |parts| == |segs|
  {
    if segs == [] then []
    else if segs[0].Static? || values == [] then [Raw(segs[0])] + Substitute(segs[1..], values)
    else [values[0]] + Substitute(segs[1..], values[1..])
  }

  /** No request segment hits a capture literally. */
  ghost predicate NoLiteralHit(segs: seq<Segment>, parts: seq<string>, k: nat) {
    forall i :: k <= i < |segs| && i < |parts| ==> !LiteralHit(segs, parts, i)
  }

  /** From `k` on: as many values as names, exactly when nothing is hit literally. */
  lemma {:induction false} CapturedCount(segs: seq<Segment>, parts: seq<string>, raw: string, k: nat)
    requires k <= |segs| && Fits(segs, parts, k)
    ensures |ParamKeys(segs[..k])| + |Captured(segs, parts, raw, k)| <= |ParamKeys(segs)|
    ensures |ParamKeys(segs[..k])| + |Captured(segs, parts, raw, k)| == |ParamKeys(segs)| <==> NoLiteralHit(segs, parts, k)
    decreases |segs| - k
  {
    if k == |segs| {
      assert segs[..k] == segs;
    } else {
      ParamKeysStep(segs, k);
      if segs[k].Wild? {
        assert segs[..k + 1] == segs;
      } else {
        CapturedCount(segs, parts, raw, k + 1);
      }
      assert NoLiteralHit(segs, parts, k) <==>
             !LiteralHit(segs, parts, k) && (segs[k].Wild? || NoLiteralHit(segs, parts, k + 1));
    }
  }

  lemma {:induction false} SubstituteFits(segs: seq<Segment>, parts: seq<string>, raw: string, k: nat)
    requires k < |segs| && Fits(segs, parts, k) && NoLiteralHit(segs, parts, k)
    requires raw == "/" + Join(parts, '/')
    ensures Join(Substitute(segs[k..], Captured(segs, parts, raw, k)), '/') == Join(parts[k..], '/')
    decreases |segs| - k
  {
    assert !LiteralHit(segs, parts, k);
    var values := Captured(segs, parts, raw, k);
    if segs[k].Wild? {
      WildcardValue(parts, k);
      assert segs[k..] == [segs[k]];
      assert Substitute(segs[k..], values) == [values[0]];
    } else {
      var rest := Captured(segs, parts, raw, k + 1);
      assert segs[k..][1..] == segs[k + 1..];
      assert values == (if segs[k].Static? then [] else [parts[k]]) + rest;
      assert Substitute(segs[k..], values) == [parts[k]] + Substitute(segs[k + 1..], rest) by {
        assert segs[k].Param? ==> values[1..] == rest;
        assert segs[k].Static? ==> values == rest;
      }
      assert parts[k..] == [parts[k]] + parts[k + 1..];
      if k + 1 < |segs| {
        SubstituteFits(segs, parts, raw, k + 1);
        JoinAppend([parts[k]], Substitute(segs[k + 1..], rest), '/');
        JoinAppend([parts[k]], parts[k + 1..], '/');
      } else {
        assert parts[k + 1..] == [] && Substitute(segs[k + 1..], rest) == [];
      }
    }
  }

  // A literal hit leaves a name where the request had one byte, so the text put together is longer

  function StaticBytes(segs: seq<Segment>): nat {
    if segs == [] then 0 else (if segs[0].Static? then |segs[0].raw| else 0) + StaticBytes(segs[1..])
  }

  function Total(values: seq<string>): nat {
    if values == [] then 0 else |values[0]| + Total(values[1..])
  }

  /** Every name left in place takes two bytes at least. */
  lemma {:induction false} SubstituteLength(segs: seq<Segment>, values: seq<string>)
    requires |segs| >= 1 && |values| <= |ParamKeys(segs)| && forall i :: 0 <= i < |segs| ==> SegmentOk(segs[i])
    ensures |Join(Substitute(segs, values), '/')| >=
            StaticBytes(segs) + Total(values) + 2 * (|ParamKeys(segs)| - |values|) + |segs| - 1
  {
    ParamKeysCons(segs);
    assert SegmentOk(segs[0]);
    var rest := if segs[0].Static? || values == [] then values else values[1..];
    if |segs| > 1 {
      SubstituteLength(segs[1..], rest);
      JoinAppend(Substitute(segs, values)[..1], Substitute(segs[1..], rest), '/');
    } else {
      assert segs[1..] == [] && ParamKeys([]) == [];
    }
  }

  /** What one segment before the last adds to the captured values and their length. */
  lemma CapturedStep(segs: seq<Segment>, parts: seq<string>, raw: string, k: nat)
    requires k < |segs| && Fits(segs, parts, k) && !segs[k].Wild?
    ensures var now, later := Captured(segs, parts, raw, k), Captured(segs, parts, raw, k + 1);
            if segs[k].Static? || LiteralHit(segs, parts, k) then now == later
            else |now| == |later| + 1 && Total(now) == |parts[k]| + Total(later)
  {
    var now := Captured(segs, parts, raw, k);
    if segs[k].Param? && !LiteralHit(segs, parts, k) {
      assert now[1..] == Captured(segs, parts, raw, k + 1);
    }
  }

  /** The request has the values, the literal text, and one byte for every literal hit. */
  lemma {:induction false} FitsLength(segs: seq<Segment>, parts: seq<string>, raw: string, k: nat)
    requires k < |segs| && Fits(segs, parts, k) && raw == "/" + Join(parts, '/')
    ensures |Join(parts[k..], '/')| == StaticBytes(segs[k..]) + Total(Captured(segs, parts, raw, k)) +
                                       (|ParamKeys(segs[k..])| - |Captured(segs, parts, raw, k)|) + |segs| - k - 1
    decreases |segs| - k
  {
    ParamKeysCons(segs[k..]);
    assert segs[k..][1..] == segs[k + 1..];
    if k + 1 == |segs| {
      assert segs[k + 1..] == [] && ParamKeys([]) == [];
      LastLength(segs, parts, raw, k);
    } else {
      FitsLength(segs, parts, raw, k + 1);
      StepLength(segs, parts, raw, k);
    }
  }

  /** One segment before the last: its bytes and a slash. */
  lemma StepLength(segs: seq<Segment>, parts: seq<string>, raw: string, k: nat)
    requires k + 1 < |segs| && Fits(segs, parts, k)
    ensures var now, later := Captured(segs, parts, raw, k), Captured(segs, parts, raw, k + 1);
            |Join(parts[k..], '/')| - |Join(parts[k + 1..], '/')| - 1 ==
            Total(now) - Total(later) + if segs[k].Static? then |segs[k].raw| else 1 - (|now| - |later|)
  {
    CapturedStep(segs, parts, raw, k);
    assert parts[k..] == [parts[k]] + parts[k + 1..];
    JoinAppend([parts[k]], parts[k + 1..], '/');
  }

  lemma LastLength(segs: seq<Segment>, parts: seq<string>, raw: string, k: nat)
    requires k + 1 == |segs| && Fits(segs, parts, k) && raw == "/" + Join(parts, '/')
    ensures var values := Captured(segs, parts, raw, k);
            |Join(parts[k..], '/')| == Total(values) + if segs[k].Static? then |segs[k].raw| else 1 - |values|
  {
    if segs[k].Wild? {
      WildcardValue(parts, k);
      assert LiteralHit(segs, parts, k) ==> parts[k..] == ["*"];
    } else {
      assert parts[k..] == [parts[k]];
      CapturedStep(segs, parts, raw, k);
    }
  }

  /**
   The law of a match on a path with a leading slash. The values put into the pattern of the matched
   route give the path back byte for byte if and only if no request segment hits one of its captures
   literally, and exactly then there are as many values as names.
   */
  lemma MatchReproducesPath(routes: seq<Route>, parts: seq<string>) returns (j: nat)
    requires Consistent(routes) && |parts| >= 1
    requires GreedyMatch(routes, parts, "/" + Join(parts, '/')).Some?
    ensures j < |routes| && |routes[j].segs| >= 1
    ensures var res := GreedyMatch(routes, parts, "/" + Join(parts, '/')).value;
            && res == ResultOf(routes[j], res.values)
            && (|res.values| == |res.keys| <==> NoLiteralHit(routes[j].segs, parts, 0))
            && ("/" + Join(Substitute(routes[j].segs, res.values), '/') == "/" + Join(parts, '/') <==>
                NoLiteralHit(routes[j].segs, parts, 0))
  {
    var raw := "/" + Join(parts, '/');
    ThroughRoot(routes);
    j := NarrowFits(routes, Root, 0, parts, raw, []);
    var segs := routes[j].segs;
    var values := Captured(segs, parts, raw, 0);
    assert [] + values == values;
    CapturedCount(segs, parts, raw, 0);
    assert segs[0..] == segs && parts[0..] == parts && ParamKeys(segs[..0]) == [];
    if NoLiteralHit(segs, parts, 0) {
      SubstituteFits(segs, parts, raw, 0);
    } else {
      assert WellFormed(segs);
      FitsLength(segs, parts, raw, 0);
      SubstituteLength(segs, values);
    }
  }

  /** The literal hit is real: "/:" is matched by "/:id" with a name and no value. */
  lemma LiteralColonLosesValue(h: Handler)
    ensures var routes := [Route("/:id", [Param("id")], h, RouteMeta("", []))];
            GreedyMatch(routes, [":"], "/:") == Some(MatchResult(h, [], ["id"], "/:id", "", ""))
  {
    var segs := [Param("id")];
    var r := Route("/:id", segs, h, RouteMeta("", []));
    assert Keep([r], 0, ":") == [r];
    NarrowStep([r], 0, [":"], "/:", []);
    assert Ending([r], 1) == Some(r);
    assert Narrow([r], 1, [":"], "/:", []) == Finish([r], 1, []);
    assert segs[..0] == [] && ParamKeys(segs) == ["id"];
  }
}
