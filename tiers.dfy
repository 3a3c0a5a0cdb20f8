/** Tier assignment: recursive longest-path relaxation from every root, as
    `assign_tier` does it over the shared `tiers` dictionary. A label whose
    tier is still `None` is a label absent from the map. */
module Tiers {
  import opened Seqs
  import opened Graph

  type TierMap = map<Label, nat>

  /** `t` is the number of edges on the longest walk from a root to `v`. */
  ghost predicate LongestPathTier(g: seq<Edge>, v: Label, t: nat) {
    && (exists p {:trigger RootWalk(g, p)} :: RootWalk(g, p) && Last(p) == v && |p| == t + 1)
    && (forall p {:trigger RootWalk(g, p)} :: RootWalk(g, p) && Last(p) == v ==> |p| <= t + 1)
  }

  /** The tiering the relaxation is meant to compute: exactly the nodes
      reachable from a root get a tier, and that tier is their longest-path
      distance from the roots. */
  ghost predicate IsLongestPathTiering(g: seq<Edge>, tiers: TierMap) {
    && (forall v :: v in tiers <==> Reachable(g, v))
    && (forall v :: v in tiers ==> LongestPathTier(g, v, tiers[v]))
  }

  /** Every edge out of a tiered node that is not on `stack` leads to a
      tiered node at least one tier further. */
  predicate ClosedExcept(g: seq<Edge>, tiers: TierMap, stack: seq<Label>) {
    forall k :: 0 <= k < |g| && g[k].source in tiers && g[k].source !in stack ==>
      g[k].target in tiers && tiers[g[k].target] >= tiers[g[k].source] + 1
  }

  /** Each tier is the length of a root walk, kept in `wit`. */
  ghost predicate Witnessed(g: seq<Edge>, tiers: TierMap, wit: map<Label, seq<Label>>) {
    && tiers.Keys <= wit.Keys
    && forall v {:trigger wit[v]} :: v in tiers && v in wit ==>
         RootWalk(g, wit[v]) && |wit[v]| == tiers[v] + 1 && Last(wit[v]) == v
  }

  /** `assign_tier(lbl, c)`. The ghost `stack` holds the labels of the calls
      in progress, root first, so `stack + [lbl]` is the walk along which the
      call was reached. The call raises `lbl` to `c` when it has no tier or a
      lower one, and then visits every edge out of `lbl` in table order. */
  method AssignTier(g: seq<Edge>, lbl: Label, c: nat, tiers: TierMap,
                    ghost stack: seq<Label>, ghost wit: map<Label, seq<Label>>)
    returns (tiers': TierMap, ghost wit': map<Label, seq<Label>>)
    requires AcyclicFromRoots(g)
    requires RootWalk(g, stack + [lbl]) && |stack| == c
    requires Witnessed(g, tiers, wit)
    requires ClosedExcept(g, tiers, stack)
    ensures Witnessed(g, tiers', wit')
    ensures ClosedExcept(g, tiers', stack)
    // tiers are only ever raised
    ensures forall v :: v in tiers ==> v in tiers' && tiers'[v] >= tiers[v]
    ensures lbl in tiers' && tiers'[lbl] >= c
    // a tier that changed was set along a walk through this call
    ensures Raised(tiers, tiers', wit, wit', stack + [lbl])
    decreases |Labels(g)| - c
  {
    ghost var path := stack + [lbl];
    RootWalkLength(g, path);
    if lbl !in tiers || c > tiers[lbl] {
      tiers', wit' := tiers[lbl := c], wit[lbl := path];
      RaiseKeeps(g, tiers, wit, stack, lbl, c);
      var i := 0;
      while i < |g|
        invariant 0 <= i <= |g|
        invariant Witnessed(g, tiers', wit')
        invariant ClosedExcept(g, tiers', path)
        invariant lbl in tiers' && tiers'[lbl] == c
        invariant ChildrenTiered(g, tiers', lbl, i, c)
        invariant Raised(tiers, tiers', wit, wit', path)
      {
        if g[i].source == lbl {
          var child := g[i].target;
          assert IsEdge(g, lbl, child);
          WalkSnoc(g, path, child);
          RootWalkLength(g, path + [child]);
          ghost var before, witBefore := tiers', wit';
          tiers', wit' := AssignTier(g, child, c + 1, tiers', path, wit');
          CallerNotRaised(g, path, child, before, tiers', wit');
          RaisedTrans(tiers, before, tiers', wit, witBefore, wit', path, child);
          ChildrenStay(g, before, tiers', lbl, i, c);
        } else {
          ChildrenSkip(g, tiers', lbl, i, c);
        }
        i := i + 1;
      }
      ChildrenDone(g, tiers', stack, lbl, c);
    } else {
      tiers', wit' := tiers, wit;
    }
  }

  /** How a call changes the tiers: it only raises them, and every tier it
      changes is witnessed by a walk through `path`; the others keep their
      witnesses. */
  ghost predicate Raised(tiers: TierMap, tiers': TierMap, wit: map<Label, seq<Label>>,
                         wit': map<Label, seq<Label>>, path: seq<Label>) {
    && (forall v :: v in tiers ==> v in tiers' && tiers'[v] >= tiers[v])
    && (forall v {:trigger wit'[v]} :: v in tiers' && v in wit' && (v !in tiers || tiers'[v] != tiers[v]) ==>
          IsPrefix(path, wit'[v]))
    && (forall v {:trigger wit'[v]} :: v in tiers && v in wit && v in wit' && tiers'[v] == tiers[v] ==>
          wit'[v] == wit[v])
  }

  /** Setting `lbl` to `c` keeps every tier witnessed and leaves open only
      the edges out of the calls in progress, now including `lbl`. */
  lemma RaiseKeeps(g: seq<Edge>, tiers: TierMap, wit: map<Label, seq<Label>>,
                   stack: seq<Label>, lbl: Label, c: nat)
    requires RootWalk(g, stack + [lbl]) && |stack| == c
    requires Witnessed(g, tiers, wit)
    requires ClosedExcept(g, tiers, stack)
    requires lbl !in tiers || c > tiers[lbl]
    ensures Witnessed(g, tiers[lbl := c], wit[lbl := stack + [lbl]])
    ensures ClosedExcept(g, tiers[lbl := c], stack + [lbl])
    ensures Raised(tiers, tiers[lbl := c], wit, wit[lbl := stack + [lbl]], stack + [lbl])
  {
    var t1 := tiers[lbl := c];
    forall k | 0 <= k < |g| && g[k].source in t1 && g[k].source !in stack + [lbl]
      ensures g[k].target in t1 && t1[g[k].target] >= t1[g[k].source] + 1
    {
      assert g[k].source != lbl && g[k].source !in stack;
    }
    assert IsPrefix(stack + [lbl], stack + [lbl]);
  }

  /** Edges out of `lbl` already visited stay satisfied when tiers rise,
      and so does the one just visited. */
  lemma ChildrenStay(g: seq<Edge>, before: TierMap, after: TierMap, lbl: Label, i: nat, c: nat)
    requires i < |g| && g[i].source == lbl
    requires ChildrenTiered(g, before, lbl, i, c)
    requires forall v :: v in before ==> v in after && after[v] >= before[v]
    requires g[i].target in after && after[g[i].target] >= c + 1
    ensures ChildrenTiered(g, after, lbl, i + 1, c)
  {
  }

  /** An edge out of another node adds nothing to check. */
  lemma ChildrenSkip(g: seq<Edge>, tiers: TierMap, lbl: Label, i: nat, c: nat)
    requires i < |g| && g[i].source != lbl
    requires ChildrenTiered(g, tiers, lbl, i, c)
    ensures ChildrenTiered(g, tiers, lbl, i + 1, c)
  {
  }

  /** The edges out of `lbl` among the first `i` rows reach a tier past `c`. */
  predicate ChildrenTiered(g: seq<Edge>, tiers: TierMap, lbl: Label, i: nat, c: nat)
    requires i <= |g|
  {
    forall k :: 0 <= k < i && g[k].source == lbl ==>
      g[k].target in tiers && tiers[g[k].target] >= c + 1
  }

  /** Raising composes: a nested call made with `path + [child]` changes
      tiers the way the enclosing call is allowed to. */
  lemma RaisedTrans(t0: TierMap, t1: TierMap, t2: TierMap,
                    w0: map<Label, seq<Label>>, w1: map<Label, seq<Label>>, w2: map<Label, seq<Label>>,
                    path: seq<Label>, child: Label)
    requires Raised(t0, t1, w0, w1, path)
    requires t0.Keys <= w0.Keys && t1.Keys <= w1.Keys && t2.Keys <= w2.Keys
    requires forall v :: v in t1 ==> v in t2 && t2[v] >= t1[v]
    requires forall v {:trigger w2[v]} :: v in t2 && v in w2 && (v !in t1 || t2[v] != t1[v]) ==>
               IsPrefix(path + [child], w2[v])
    requires forall v {:trigger w2[v]} :: v in t1 && v in w1 && v in w2 && t2[v] == t1[v] ==> w2[v] == w1[v]
    ensures Raised(t0, t2, w0, w2, path)
  {
    forall v | v in t2 && v in w2 && (v !in t0 || t2[v] != t0[v])
      ensures IsPrefix(path, w2[v])
    {
      if v in t1 && t2[v] == t1[v] {
        assert w2[v] == w1[v];
      } else {
        PrefixOfSnoc(path, child, w2[v]);
      }
    }
  }

  /** Once every edge out of `lbl` reaches a tier past `lbl`'s, only the
      callers' edges remain open. */
  lemma ChildrenDone(g: seq<Edge>, tiers: TierMap, stack: seq<Label>, lbl: Label, c: nat)
    requires NoDup(stack + [lbl])
    requires ClosedExcept(g, tiers, stack + [lbl])
    requires lbl in tiers && tiers[lbl] == c
    requires ChildrenTiered(g, tiers, lbl, |g|, c)
    ensures ClosedExcept(g, tiers, stack)
  {
    forall m | 0 <= m < |stack|
      ensures stack[m] != lbl
    {
      assert (stack + [lbl])[m] == stack[m] && (stack + [lbl])[|stack|] == lbl;
    }
  }

  lemma PrefixOfSnoc(path: seq<Label>, child: Label, w: seq<Label>)
    requires IsPrefix(path + [child], w)
    ensures IsPrefix(path, w)
  {
    assert w[..|path|] == (path + [child])[..|path|] == path;
  }

  /** A call made from the end of `path` leaves the tier of `Last(path)`
      alone: raising it again would need a root walk through `path` that
      comes back to it. */
  lemma CallerNotRaised(g: seq<Edge>, path: seq<Label>, child: Label,
                        before: TierMap, after: TierMap, wit: map<Label, seq<Label>>)
    requires AcyclicFromRoots(g) && |path| > 0
    requires Last(path) in before
    requires Witnessed(g, after, wit)
    requires forall v :: v in before ==> v in after && after[v] >= before[v]
    requires forall v {:trigger wit[v]} :: v in after && v in wit && (v !in before || after[v] != before[v]) ==>
               IsPrefix(path + [child], wit[v])
    requires before[Last(path)] + 1 == |path|
    ensures after[Last(path)] == before[Last(path)]
  {
    var v := Last(path);
    var w := wit[v];
    if after[v] != before[v] {
      PrefixedWalkLeaves(w, path, child);
      assert false;
    }
  }

  /** A duplicate-free walk that goes on past `path` does not end where
      `path` ends. */
  lemma PrefixedWalkLeaves(w: seq<Label>, path: seq<Label>, child: Label)
    requires NoDup(w) && |path| > 0 && IsPrefix(path + [child], w)
    ensures Last(w) != Last(path)
  {
    assert w[|path| - 1] == (path + [child])[|path| - 1] == Last(path);
  }

  /** `for root in roots: assign_tier(root, 0)`, starting from a map in
      which every label is untiered. */
  method AssignTiers(g: seq<Edge>, roots: seq<Label>) returns (tiers: TierMap)
    requires AcyclicFromRoots(g)
    requires roots == Roots(Labels(g), g)
    ensures IsLongestPathTiering(g, tiers)
  {
    tiers := map[];
    ghost var wit: map<Label, seq<Label>> := map[];
    for k := 0 to |roots|
      invariant Witnessed(g, tiers, wit)
      invariant ClosedExcept(g, tiers, [])
      invariant forall j :: 0 <= j < k ==> roots[j] in tiers
    {
      RootIsRootWalk(g, roots, k);
      ghost var before := tiers;
      tiers, wit := AssignTier(g, roots[k], 0, tiers, [], wit);
      RootsStayTiered(roots, k, before, tiers);
    }
    ClosureBound(g, tiers, roots);
    TieringFromClosure(g, tiers, wit);
  }

  lemma RootsStayTiered(roots: seq<Label>, k: nat, before: TierMap, after: TierMap)
    requires k < |roots|
    requires forall j :: 0 <= j < k ==> roots[j] in before
    requires forall v :: v in before ==> v in after && after[v] >= before[v]
    requires roots[k] in after
    ensures forall j :: 0 <= j < k + 1 ==> roots[j] in after
  {
  }

  lemma RootIsRootWalk(g: seq<Edge>, roots: seq<Label>, k: nat)
    requires roots == Roots(Labels(g), g) && k < |roots|
    ensures RootWalk(g, [] + [roots[k]])
  {
    RootsSpec(g);
    assert roots[k] in roots;
  }

  /** Along a walk that starts at a tiered node of a closed tiering, every
      step goes at least one tier further. */
  lemma {:induction false} WalkRises(g: seq<Edge>, tiers: TierMap, p: seq<Label>)
    requires ClosedExcept(g, tiers, [])
    requires IsWalk(g, p) && p[0] in tiers
    ensures forall j :: 0 <= j < |p| ==> p[j] in tiers && tiers[p[j]] >= tiers[p[0]] + j
  {
    if |p| > 1 {
      var n := |p| - 1;
      WalkPrefix(g, p, n);
      WalkRises(g, tiers, p[..n]);
      assert forall j :: 0 <= j < n ==> p[..n][j] == p[j];
      assert IsEdge(g, p[n - 1], p[n]);
      var k :| 0 <= k < |g| && g[k].source == p[n - 1] && g[k].target == p[n];
    }
  }

  /** Once every root is tiered and no edge is left open, every root walk
      ends at a tiered node whose tier is at least the walk's length. */
  lemma ClosureBound(g: seq<Edge>, tiers: TierMap, roots: seq<Label>)
    requires roots == Roots(Labels(g), g)
    requires forall j :: 0 <= j < |roots| ==> roots[j] in tiers
    requires ClosedExcept(g, tiers, [])
    ensures forall p {:trigger RootWalk(g, p)} :: RootWalk(g, p) ==>
              Last(p) in tiers && |p| <= tiers[Last(p)] + 1
  {
    RootsSpec(g);
    forall p {:trigger RootWalk(g, p)} | RootWalk(g, p)
      ensures Last(p) in tiers && |p| <= tiers[Last(p)] + 1
    {
      assert p[0] in roots;
      WalkRises(g, tiers, p);
    }
  }

  /** What the relaxation leaves behind once every call has returned is the
      longest-path tiering: each tier is the length of some root walk and
      bounds the length of all of them. */
  lemma TieringFromClosure(g: seq<Edge>, tiers: TierMap, wit: map<Label, seq<Label>>)
    requires Witnessed(g, tiers, wit)
    requires forall p {:trigger RootWalk(g, p)} :: RootWalk(g, p) ==>
               Last(p) in tiers && |p| <= tiers[Last(p)] + 1
    ensures IsLongestPathTiering(g, tiers)
  {
    forall v | v in tiers
      ensures LongestPathTier(g, v, tiers[v])
    {
      assert RootWalk(g, wit[v]) && Last(wit[v]) == v;
    }
    forall v | v in tiers
      ensures Reachable(g, v)
    {
      assert RootWalk(g, wit[v]) && Last(wit[v]) == v;
    }
  }

  /** Tier monotonicity: every edge out of a tiered node reaches a strictly
      higher tier, so no link points backwards or sideways. */
  lemma TierEdgeStep(g: seq<Edge>, tiers: TierMap, k: nat)
    requires IsLongestPathTiering(g, tiers)
    requires k < |g| && g[k].source in tiers
    ensures g[k].target in tiers && tiers[g[k].target] >= tiers[g[k].source] + 1
  {
    var s, t := g[k].source, g[k].target;
    var p :| RootWalk(g, p) && Last(p) == s && |p| == tiers[s] + 1;
    assert IsEdge(g, s, t);
    WalkSnoc(g, p, t);
    assert RootWalk(g, p + [t]);
  }

  /** Along an edge the longest-path tier grows by at least one. */
  lemma LongestPathEdge(g: seq<Edge>, k: nat, ts: nat, tt: nat)
    requires k < |g|
    requires LongestPathTier(g, g[k].source, ts) && LongestPathTier(g, g[k].target, tt)
    ensures tt >= ts + 1
  {
    var s, t := g[k].source, g[k].target;
    var p :| RootWalk(g, p) && Last(p) == s && |p| == ts + 1;
    assert IsEdge(g, s, t);
    WalkSnoc(g, p, t);
    assert RootWalk(g, p + [t]);
  }

  /** A node's longest-path tier is 0 exactly when it is a root. */
  lemma LongestPathTierZero(g: seq<Edge>, v: Label, t: nat)
    requires LongestPathTier(g, v, t)
    ensures t == 0 <==> IsRoot(g, v)
  {
    var p :| RootWalk(g, p) && Last(p) == v && |p| == t + 1;
    if t == 0 {
      assert p[0] == v;
    }
    if |p| > 1 {
      assert IsEdge(g, p[|p| - 2], p[|p| - 1]);
      assert IsTarget(g, v);
    }
  }

  /** Roots have tier 0 and are the only nodes that do. */
  lemma TierZeroIffRoot(g: seq<Edge>, tiers: TierMap, v: Label)
    requires IsLongestPathTiering(g, tiers)
    ensures IsRoot(g, v) ==> v in tiers && tiers[v] == 0
    ensures v in tiers && tiers[v] == 0 ==> IsRoot(g, v)
  {
    if IsRoot(g, v) {
      assert RootWalk(g, [v]) && Last([v]) == v;
      var p :| RootWalk(g, p) && Last(p) == v && |p| == tiers[v] + 1;
      if |p| > 1 {
        assert IsEdge(g, p[|p| - 2], p[|p| - 1]);
        assert IsTarget(g, v);
      }
    }
    if v in tiers && tiers[v] == 0 {
      var p :| RootWalk(g, p) && Last(p) == v && |p| == 1;
      assert p[0] == v;
    }
  }

  /** Conversely, a graph that has a longest-path tiering has no cycle
      reachable from a root, so the precondition of `AssignTiers` is exactly
      what makes its result possible. */
  lemma LongestPathTieringIsAcyclic(g: seq<Edge>, tiers: TierMap)
    requires IsLongestPathTiering(g, tiers)
    ensures AcyclicFromRoots(g)
  {
    forall k | 0 <= k < |g| && g[k].source in tiers
      ensures g[k].target in tiers && tiers[g[k].target] >= tiers[g[k].source] + 1
    {
      TierEdgeStep(g, tiers, k);
    }
    forall p {:trigger RootWalk(g, p)} | RootWalk(g, p)
      ensures NoDup(p)
    {
      forall i, j | 0 <= i < j < |p|
        ensures p[i] != p[j]
      {
        assert RootWalk(g, p) && Last(p) == Last(p);
        WalkPrefix(g, p, j + 1);
        assert RootWalk(g, p[..j + 1]) && Last(p[..j + 1]) == p[j];
        WalkPrefix(g, p, i + 1);
        assert RootWalk(g, p[..i + 1]) && Last(p[..i + 1]) == p[i];
        WalkSuffix(g, p, i);
        WalkRises(g, tiers, p[i..]);
        assert p[i..][j - i] == p[j];
      }
    }
  }

  /** `max(tiers.values())` over a non-empty list of tiers. */
  function MaxOf(s: seq<nat>): (m: nat)
    requires |s| > 0
    ensures m in s
    ensures forall i :: 0 <= i < |s| ==> s[i] <= m
  {
    if |s| == 1 then s[0]
    else
      var m := MaxOf(s[..|s| - 1]);
      assert forall i :: 0 <= i < |s| - 1 ==> s[..|s| - 1][i] == s[i];
      if s[|s| - 1] > m then s[|s| - 1] else m
  }

  /** The tier of each registry label, in registry order. */
  function TierList(labels: seq<Label>, tiers: TierMap): (ts: seq<nat>)
    requires forall i :: 0 <= i < |labels| ==> labels[i] in tiers
    ensures |ts| == |labels|
    ensures forall i :: 0 <= i < |labels| ==> ts[i] == tiers[labels[i]]
  {
    seq(|labels|, i requires 0 <= i < |labels| => tiers[labels[i]])
  }
}
