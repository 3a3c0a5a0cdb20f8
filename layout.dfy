/** Node placement. A node's horizontal position is its tier scaled by the
    deepest tier. Each tier owns a horizontal band of height 1/(M+1), where
    M is the deepest tier; tier 0 is at the top. Inside its band a tier's
    nodes are stacked in registry order, with a 5% margin at each end and
    equal steps between them. Positions are exact rationals here. */
module Layout {
  import opened Seqs

  /** `tiers[lbl]/max_tier if max_tier > 0 else 0.5` */
  function XPos(t: nat, maxTier: nat): real
  {
    if maxTier > 0 then (t as real) / (maxTier as real) else 0.5
  }

  /** The x list, one entry per registry label, from the labels' tiers. */
  function XPositions(ts: seq<nat>, maxTier: nat): (x: seq<real>)
    ensures |x| == |ts|
    ensures forall i :: 0 <= i < |ts| ==> x[i] == XPos(ts[i], maxTier)
  {
    seq(|ts|, i requires 0 <= i < |ts| => XPos(ts[i], maxTier))
  }

  /** Every x lies in [0, 1]. With more than one tier, x is 0 exactly at
      tier 0 and 1 exactly at the deepest tier; with a single tier every
      node sits at 0.5. */
  lemma XBounds(t: nat, maxTier: nat)
    requires t <= maxTier
    ensures 0.0 <= XPos(t, maxTier) <= 1.0
    ensures maxTier == 0 ==> XPos(t, maxTier) == 0.5
    ensures maxTier > 0 ==> (XPos(t, maxTier) == 0.0 <==> t == 0)
    ensures maxTier > 0 ==> (XPos(t, maxTier) == 1.0 <==> t == maxTier)
  {
    if maxTier > 0 {
      var m := maxTier as real;
      assert XPos(t, maxTier) * m == t as real;
    }
  }

  /** Deeper tiers are placed further right. */
  lemma XMonotone(t1: nat, t2: nat, maxTier: nat)
    requires t1 < t2 <= maxTier
    ensures XPos(t1, maxTier) < XPos(t2, maxTier)
  {
    var m := maxTier as real;
    assert XPos(t1, maxTier) * m == t1 as real;
    assert XPos(t2, maxTier) * m == t2 as real;
  }

  /** Positions in `ts` holding tier `t`, in increasing order: the list
      `tier_groups[t]` that the grouping loop builds. */
  function IndicesAt(ts: seq<nat>, t: nat): (r: seq<nat>)
    ensures forall j :: 0 <= j < |r| ==> r[j] < |ts| && ts[r[j]] == t
    ensures forall j, k :: 0 <= j < k < |r| ==> r[j] < r[k]
    ensures forall i :: 0 <= i < |ts| && ts[i] == t ==> i in r
  {
    if ts == [] then []
    else
      var n := |ts| - 1;
      var r := IndicesAt(ts[..n], t);
      if ts[n] == t then r + [n] else r
  }

  /** Positions in a tier's index list follow registry order. */
  lemma IndicesAtOrdered(ts: seq<nat>, t: nat, j1: nat, j2: nat)
    requires j1 < |IndicesAt(ts, t)| && j2 < |IndicesAt(ts, t)|
    requires IndicesAt(ts, t)[j1] < IndicesAt(ts, t)[j2]
    ensures j1 < j2
  {
  }

  lemma IndicesAtSnoc(ts: seq<nat>, i: nat, t: nat)
    requires i < |ts|
    ensures IndicesAt(ts[..i + 1], t) == if ts[i] == t then IndicesAt(ts[..i], t) + [i] else IndicesAt(ts[..i], t)
  {
    assert ts[..i + 1][..i] == ts[..i];
  }

  /** `tier_groups.setdefault(tiers[lbl], []).append(i)` over the labels in
      order. The keys appear in `order` in first-appearance order, as in a
      dictionary, and each group lists its positions in registry order. */
  method GroupByTier(ts: seq<nat>) returns (groups: map<nat, seq<nat>>, order: seq<nat>)
    ensures order == Unique(ts)
    ensures forall t :: t in groups <==> t in ts
    ensures forall t :: t in groups ==> groups[t] == IndicesAt(ts, t)
  {
    groups, order := map[], [];
    for i := 0 to |ts|
      invariant order == Unique(ts[..i])
      invariant forall t :: t in groups <==> t in ts[..i]
      invariant forall t :: t in groups ==> groups[t] == IndicesAt(ts[..i], t)
    {
      var t := ts[i];
      ghost var previous, previousOrder := groups, order;
      if t !in groups {
        order := order + [t];
      }
      groups := SetdefaultAppend(groups, t, i);
      OrderStep(ts, i, previousOrder, order);
      GroupStep(ts, i, previous, groups);
    }
    assert ts[..|ts|] == ts;
  }

  /** One round of the grouping loop: appending position `i` to the group
      of its tier, or opening that group, keeps every group equal to the
      positions of its tier seen so far. */
  lemma GroupStep(ts: seq<nat>, i: nat, groups: map<nat, seq<nat>>, groups': map<nat, seq<nat>>)
    requires i < |ts|
    requires forall t :: t in groups <==> t in ts[..i]
    requires forall t :: t in groups ==> groups[t] == IndicesAt(ts[..i], t)
    requires groups' == SetdefaultAppend(groups, ts[i], i)
    ensures forall t :: t in groups' <==> t in ts[..i + 1]
    ensures forall t :: t in groups' ==> groups'[t] == IndicesAt(ts[..i + 1], t)
  {
    assert ts[..i + 1] == ts[..i] + [ts[i]];
    forall u | u in groups'
      ensures groups'[u] == IndicesAt(ts[..i + 1], u)
    {
      IndicesAtSnoc(ts, i, u);
      if u !in groups {
        IndicesAtAbsent(ts[..i], u);
      }
    }
  }

  /** A tier seen for the first time is appended to the key order. */
  lemma OrderStep(ts: seq<nat>, i: nat, order: seq<nat>, order': seq<nat>)
    requires i < |ts| && order == Unique(ts[..i])
    requires order' == if ts[i] in ts[..i] then order else order + [ts[i]]
    ensures order' == Unique(ts[..i + 1])
  {
    assert ts[..i + 1] == ts[..i] + [ts[i]];
    UniqueSnoc(ts[..i], ts[i]);
  }

  /** `groups.setdefault(t, []).append(i)` */
  function SetdefaultAppend(groups: map<nat, seq<nat>>, t: nat, i: nat): (g': map<nat, seq<nat>>)
    ensures g'.Keys == groups.Keys + {t}
    ensures g'[t] == (if t in groups then groups[t] else []) + [i]
    ensures forall u :: u in groups && u != t ==> g'[u] == groups[u]
  {
    if t in groups then groups[t := groups[t] + [i]] else groups[t := [i]]
  }

  /** A tier that does not occur has no positions. */
  lemma {:induction false} IndicesAtAbsent(ts: seq<nat>, t: nat)
    requires t !in ts
    ensures IndicesAt(ts, t) == []
  {
    if ts != [] {
      var n := |ts| - 1;
      assert ts[n] in ts;
      assert forall x :: x in ts[..n] ==> x in ts;
      IndicesAtAbsent(ts[..n], t);
    }
  }

  function BandTop(t: nat, maxTier: nat): real
  {
    1.0 - (t as real) / ((maxTier + 1) as real)
  }

  function BandBottom(t: nat, maxTier: nat): real
  {
    1.0 - ((t + 1) as real) / ((maxTier + 1) as real)
  }

  /** The 5% margin left free at each end of a band; it is used only when
      the band holds more than one node. */
  function Margin(t: nat, maxTier: nat): real
  {
    0.05 * (BandTop(t, maxTier) - BandBottom(t, maxTier))
  }

  /** The distance between neighbouring nodes of a tier of `count` > 1. */
  function Step(t: nat, maxTier: nat, count: nat): real
    requires count > 1
  {
    ((BandTop(t, maxTier) - BandBottom(t, maxTier)) - 2.0 * Margin(t, maxTier)) / ((count - 1) as real)
  }

  /** The y of the `j`-th of the `count` nodes of tier `t`. */
  function YOf(t: nat, maxTier: nat, count: nat, j: nat): real
    requires j < count
  {
    if count == 1 then (BandTop(t, maxTier) + BandBottom(t, maxTier)) / 2.0
    else BandBottom(t, maxTier) + Margin(t, maxTier) + (j as real) * Step(t, maxTier, count)
  }

  /** A band is 1/(M+1) high; its margin is a twentieth of that. */
  lemma BandHeight(t: nat, maxTier: nat)
    ensures BandTop(t, maxTier) - BandBottom(t, maxTier) == 1.0 / ((maxTier + 1) as real)
    ensures Margin(t, maxTier) == 0.05 / ((maxTier + 1) as real)
    ensures 0.0 < Margin(t, maxTier)
  {
    var m := (maxTier + 1) as real;
    assert (t as real) / m + 1.0 / m == ((t + 1) as real) / m;
  }

  /** The step of a tier with several nodes is positive, and the nodes take
      up the band minus its two margins. */
  lemma StepSpan(t: nat, maxTier: nat, count: nat)
    requires count > 1
    ensures 0.0 < Step(t, maxTier, count)
    ensures ((count - 1) as real) * Step(t, maxTier, count) ==
            BandTop(t, maxTier) - BandBottom(t, maxTier) - 2.0 * Margin(t, maxTier)
  {
    BandHeight(t, maxTier);
    var h := BandTop(t, maxTier) - BandBottom(t, maxTier);
    assert h - 2.0 * Margin(t, maxTier) == 0.9 * h;
    assert 0.0 < 0.9 * h;
  }

  /** A lone node sits at the middle of its band. Otherwise the nodes run
      from `bottom + margin` to `top - margin` in equal steps, in the order
      of their positions in the registry. */
  lemma YPlacement(t: nat, maxTier: nat, count: nat)
    requires count > 0
    ensures count == 1 ==>
      YOf(t, maxTier, 1, 0) == (BandTop(t, maxTier) + BandBottom(t, maxTier)) / 2.0
    ensures count > 1 ==>
      && YOf(t, maxTier, count, 0) == BandBottom(t, maxTier) + Margin(t, maxTier)
      && YOf(t, maxTier, count, count - 1) == BandTop(t, maxTier) - Margin(t, maxTier)
      && forall j :: 0 <= j < count - 1 ==>
           YOf(t, maxTier, count, j + 1) - YOf(t, maxTier, count, j) == Step(t, maxTier, count)
  {
    if count > 1 {
      StepSpan(t, maxTier, count);
      forall j | 0 <= j < count - 1
        ensures YOf(t, maxTier, count, j + 1) - YOf(t, maxTier, count, j) == Step(t, maxTier, count)
      {
        var s := Step(t, maxTier, count);
        assert ((j + 1) as real) * s == (j as real) * s + s;
      }
    }
  }

  /** Within a tier, a node further along the registry sits strictly
      higher. */
  lemma YIncreasing(t: nat, maxTier: nat, count: nat, j1: nat, j2: nat)
    requires j1 < j2 < count
    ensures YOf(t, maxTier, count, j1) < YOf(t, maxTier, count, j2)
  {
    StepSpan(t, maxTier, count);
    var s := Step(t, maxTier, count);
    assert (j2 as real) * s == (j1 as real) * s + ((j2 - j1) as real) * s;
    assert 0.0 < ((j2 - j1) as real) * s;
  }

  /** Every node lies inside its tier's band, clear of the band's edges. */
  lemma YInBand(t: nat, maxTier: nat, count: nat, j: nat)
    requires j < count
    ensures BandBottom(t, maxTier) < YOf(t, maxTier, count, j) < BandTop(t, maxTier)
    ensures count > 1 ==>
      BandBottom(t, maxTier) + Margin(t, maxTier) <= YOf(t, maxTier, count, j) <= BandTop(t, maxTier) - Margin(t, maxTier)
  {
    BandHeight(t, maxTier);
    if count > 1 {
      StepSpan(t, maxTier, count);
      var s := Step(t, maxTier, count);
      assert 0.0 <= (j as real) * s <= ((count - 1) as real) * s;
    }
  }

  /** The bands of the tiers 0..M tile [0, 1], so every y is in [0, 1]. */
  lemma YInUnit(t: nat, maxTier: nat, count: nat, j: nat)
    requires t <= maxTier && j < count
    ensures 0.0 <= YOf(t, maxTier, count, j) <= 1.0
  {
    YInBand(t, maxTier, count, j);
    var m := (maxTier + 1) as real;
    assert ((t + 1) as real) / m <= 1.0;
  }

  /** Bands of different tiers do not overlap: any node of a deeper tier
      sits strictly below any node of a shallower one. */
  lemma BandsOrdered(t1: nat, t2: nat, maxTier: nat, c1: nat, j1: nat, c2: nat, j2: nat)
    requires t1 < t2 && j1 < c1 && j2 < c2
    ensures YOf(t2, maxTier, c2, j2) < YOf(t1, maxTier, c1, j1)
  {
    YInBand(t1, maxTier, c1, j1);
    YInBand(t2, maxTier, c2, j2);
    var m := (maxTier + 1) as real;
    DivMonotone(((t1 + 1) as real), t2 as real, m);
  }

  lemma DivMonotone(a: real, b: real, m: real)
    requires 0.0 < m && a <= b
    ensures a / m <= b / m
  {
    assert b / m - a / m == (b - a) / m;
  }

  /** `y = [0]*len(labels)` followed by the loop over `tier_groups`: the
      `j`-th position of tier `t` gets the `j`-th place of that tier's
      band, and every position is set by exactly this rule. */
  method VerticalPositions(ts: seq<nat>, maxTier: nat) returns (y: seq<real>)
    ensures |y| == |ts|
    ensures forall t, j {:trigger IndicesAt(ts, t)[j]} :: 0 <= j < |IndicesAt(ts, t)| ==>
              y[IndicesAt(ts, t)[j]] == YOf(t, maxTier, |IndicesAt(ts, t)|, j)
  {
    var groups, order := GroupByTier(ts);
    var a := new real[|ts|](_ => 0.0);
    for k := 0 to |order|
      invariant Placed(ts, order, k, maxTier, a[..])
    {
      var tier := order[k];
      assert tier in ts;
      ghost var before := a[..];
      PlaceTier(a, tier, maxTier, groups[tier]);
      PlacedStep(ts, order, k, maxTier, before, a[..]);
    }
    y := a[..];
    PlacedAll(ts, order, maxTier, y);
  }

  /** The positions of the first `k` tiers of `order` hold their places. */
  ghost predicate Placed(ts: seq<nat>, order: seq<nat>, k: nat, maxTier: nat, ys: seq<real>)
    requires k <= |order|
  {
    && |ys| == |ts|
    && forall m, j {:trigger IndicesAt(ts, order[m])[j]} ::
         0 <= m < k && 0 <= j < |IndicesAt(ts, order[m])| ==>
           ys[IndicesAt(ts, order[m])[j]] == YOf(order[m], maxTier, |IndicesAt(ts, order[m])|, j)
  }

  /** Placing one more tier leaves the tiers placed before it alone, since
      distinct tiers own distinct positions. */
  lemma PlacedStep(ts: seq<nat>, order: seq<nat>, k: nat, maxTier: nat, before: seq<real>, after: seq<real>)
    requires k < |order| && NoDup(order)
    requires Placed(ts, order, k, maxTier, before)
    requires |after| == |before|
    requires forall j :: 0 <= j < |IndicesAt(ts, order[k])| ==>
               after[IndicesAt(ts, order[k])[j]] == YOf(order[k], maxTier, |IndicesAt(ts, order[k])|, j)
    requires forall x :: 0 <= x < |after| && x !in IndicesAt(ts, order[k]) ==> after[x] == before[x]
    ensures Placed(ts, order, k + 1, maxTier, after)
  {
    forall m, j | 0 <= m < k + 1 && 0 <= j < |IndicesAt(ts, order[m])|
      ensures after[IndicesAt(ts, order[m])[j]] == YOf(order[m], maxTier, |IndicesAt(ts, order[m])|, j)
    {
      if m < k {
        var x := IndicesAt(ts, order[m])[j];
        assert order[m] != order[k];
        assert ts[x] == order[m];
      }
    }
  }

  /** Once every tier in `order` is placed, every position is. */
  lemma PlacedAll(ts: seq<nat>, order: seq<nat>, maxTier: nat, ys: seq<real>)
    requires order == Unique(ts)
    requires Placed(ts, order, |order|, maxTier, ys)
    ensures forall t, j {:trigger IndicesAt(ts, t)[j]} :: 0 <= j < |IndicesAt(ts, t)| ==>
              ys[IndicesAt(ts, t)[j]] == YOf(t, maxTier, |IndicesAt(ts, t)|, j)
  {
    forall t, j {:trigger IndicesAt(ts, t)[j]} | 0 <= j < |IndicesAt(ts, t)|
      ensures ys[IndicesAt(ts, t)[j]] == YOf(t, maxTier, |IndicesAt(ts, t)|, j)
    {
      assert ts[IndicesAt(ts, t)[j]] == t;
      var m := FirstIndex(order, t);
    }
  }

  /** The inner loop for one tier: the `j`-th of its positions gets the
      `j`-th place of the band; no other position changes. */
  method PlaceTier(a: array<real>, tier: nat, maxTier: nat, indices: seq<nat>)
    requires forall j :: 0 <= j < |indices| ==> indices[j] < a.Length
    requires forall j, k :: 0 <= j < k < |indices| ==> indices[j] < indices[k]
    modifies a
    ensures forall j :: 0 <= j < |indices| ==> a[indices[j]] == YOf(tier, maxTier, |indices|, j)
    ensures forall x :: 0 <= x < a.Length && x !in indices ==> a[x] == old(a[x])
  {
    var count := |indices|;
    for j := 0 to count
      invariant forall j' :: 0 <= j' < j ==> a[indices[j']] == YOf(tier, maxTier, count, j')
      invariant forall x :: 0 <= x < a.Length && x !in indices[..j] ==> a[x] == old(a[x])
    {
      var idx := indices[j];
      if count == 1 {
        a[idx] := (BandTop(tier, maxTier) + BandBottom(tier, maxTier)) / 2.0;
      } else {
        var top, bottom := BandTop(tier, maxTier), BandBottom(tier, maxTier);
        var margin := 0.05 * (top - bottom);
        var step := ((top - bottom) - 2.0 * margin) / ((count - 1) as real);
        a[idx] := bottom + margin + (j as real) * step;
      }
      assert indices[..j + 1] == indices[..j] + [idx];
    }
    assert indices[..count] == indices;
  }
}
