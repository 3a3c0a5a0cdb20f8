/** What a node shows under its label: its flow value, rounded to the
    chosen factor, or its share of the total that leaves tier 0. */
module Values {
  import opened Arith
  import opened Seqs
  import opened Graph
  import opened Tiers

  /** `df[df["target"] == v]["value"].sum()` */
  function Inflow(g: seq<Edge>, v: Label): int
  {
    if g == [] then 0
    else Inflow(g[..|g| - 1], v) + (if Last(g).target == v then Last(g).value else 0)
  }

  /** `df[df["source"] == v]["value"].sum()` */
  function Outflow(g: seq<Edge>, v: Label): int
  {
    if g == [] then 0
    else Outflow(g[..|g| - 1], v) + (if Last(g).source == v then Last(g).value else 0)
  }

  /** `inflow or outflow`: the inbound total, or the outbound total when the
      inbound total is zero. */
  function NodeValue(g: seq<Edge>, v: Label): int
  {
    var inflow := Inflow(g, v);
    if inflow != 0 then inflow else Outflow(g, v)
  }

  lemma {:induction false} InflowOfNonTarget(g: seq<Edge>, v: Label)
    requires !IsTarget(g, v)
    ensures Inflow(g, v) == 0
  {
    if g != [] {
      var n := |g| - 1;
      assert forall k :: 0 <= k < n ==> g[..n][k] == g[k];
      assert !IsTarget(g[..n], v);
      InflowOfNonTarget(g[..n], v);
      assert g[n].target != v;
    }
  }

  /** A node that is no edge's target shows its outbound total; in
      particular a root does. */
  lemma RootValue(g: seq<Edge>, v: Label)
    requires !IsTarget(g, v)
    ensures NodeValue(g, v) == Outflow(g, v)
  {
    InflowOfNonTarget(g, v);
  }

  lemma {:induction false} InflowOfSingleEdge(g: seq<Edge>, v: Label, k: nat)
    requires k < |g| && g[k].target == v
    requires forall k' :: 0 <= k' < |g| && k' != k ==> g[k'].target != v
    ensures Inflow(g, v) == g[k].value
  {
    var n := |g| - 1;
    assert forall j :: 0 <= j < n ==> g[..n][j] == g[j];
    if k == n {
      assert !IsTarget(g[..n], v);
      InflowOfNonTarget(g[..n], v);
    } else {
      InflowOfSingleEdge(g[..n], v, k);
    }
  }

  /** A node with exactly one inbound edge, of non-zero value, shows that
      edge's value. */
  lemma SingleInboundValue(g: seq<Edge>, v: Label, k: nat)
    requires k < |g| && g[k].target == v && g[k].value != 0
    requires forall k' :: 0 <= k' < |g| && k' != k ==> g[k'].target != v
    ensures NodeValue(g, v) == g[k].value
  {
    InflowOfSingleEdge(g, v, k);
  }

  /** `[lbl for lbl, t in tiers.items() if t == 0]`, as a set. */
  function Tier0Nodes(tiers: TierMap): (s: set<Label>)
    ensures forall v :: v in s <==> v in tiers && tiers[v] == 0
  {
    set v | v in tiers && tiers[v] == 0
  }

  /** `df[df['source'].isin(nodes)]['value'].sum()` */
  function SourceSum(g: seq<Edge>, nodes: set<Label>): int
  {
    if g == [] then 0
    else SourceSum(g[..|g| - 1], nodes) + (if Last(g).source in nodes then Last(g).value else 0)
  }

  /** `tier0_sum`, the denominator of every percentage. */
  function Tier0Sum(g: seq<Edge>, tiers: TierMap): int
  {
    SourceSum(g, Tier0Nodes(tiers))
  }

  /** Under the longest-path tiering the tier-0 nodes are exactly the roots,
      so `tier0_sum` is the total of the edges that leave a root. */
  lemma Tier0NodesAreRoots(g: seq<Edge>, tiers: TierMap)
    requires IsLongestPathTiering(g, tiers)
    ensures Tier0Nodes(tiers) == set r | r in Roots(Labels(g), g)
  {
    RootsSpec(g);
    forall v
      ensures v in Tier0Nodes(tiers) <==> v in Roots(Labels(g), g)
    {
      TierZeroIffRoot(g, tiers, v);
    }
  }

  /** The sum of the outbound totals of the nodes in `rs`. */
  function SumOutflows(g: seq<Edge>, rs: seq<Label>): int
  {
    if rs == [] then 0 else SumOutflows(g, rs[..|rs| - 1]) + Outflow(g, Last(rs))
  }

  lemma {:induction false} SumOutflowsSnocEdge(g: seq<Edge>, e: Edge, rs: seq<Label>)
    requires NoDup(rs)
    ensures SumOutflows(g + [e], rs) == SumOutflows(g, rs) + (if e.source in rs then e.value else 0)
  {
    assert (g + [e])[..|g|] == g;
    if rs != [] {
      var n := |rs| - 1;
      var front := rs[..n];
      assert rs == front + [rs[n]];
      assert NoDup(front) by {
        forall i, j | 0 <= i < j < |front|
          ensures front[i] != front[j]
        {
          assert front[i] == rs[i] && front[j] == rs[j];
        }
      }
      assert rs[n] !in front by {
        forall i | 0 <= i < n
          ensures front[i] != rs[n]
        {
          assert front[i] == rs[i];
        }
      }
      SumOutflowsSnocEdge(g, e, front);
      assert e.source in rs <==> e.source in front || e.source == rs[n];
    }
  }

  /** Summing the outbound totals of distinct nodes gives the total of the
      edges leaving any of them, each edge counted once. */
  lemma {:induction false} SumOutflowsIsSourceSum(g: seq<Edge>, rs: seq<Label>)
    requires NoDup(rs)
    ensures SumOutflows(g, rs) == SourceSum(g, set r | r in rs)
  {
    if g == [] {
      SumOutflowsOfEmpty(rs);
    } else {
      var n := |g| - 1;
      assert g == g[..n] + [g[n]];
      SumOutflowsIsSourceSum(g[..n], rs);
      SumOutflowsSnocEdge(g[..n], g[n], rs);
    }
  }

  lemma {:induction false} SumOutflowsOfEmpty(rs: seq<Label>)
    ensures SumOutflows([], rs) == 0
  {
    if rs != [] {
      SumOutflowsOfEmpty(rs[..|rs| - 1]);
    }
  }

  /** `f"{val/tier0_sum*100}"` before formatting, for a non-zero total. */
  function Share(value: int, total: int): real
    requires total != 0
  {
    (value as real) / (total as real) * 100.0
  }

  lemma ShareAdd(a: int, b: int, total: int)
    requires total != 0
    ensures Share(a, total) + Share(b, total) == Share(a + b, total)
  {
    var x, y, t := a as real, b as real, total as real;
    assert x / t + y / t == (x + y) / t;
  }

  /** The shares shown by the nodes of `rs`, added up. */
  function SumShares(g: seq<Edge>, rs: seq<Label>, total: int): real
    requires total != 0
  {
    if rs == [] then 0.0 else SumShares(g, rs[..|rs| - 1], total) + Share(NodeValue(g, Last(rs)), total)
  }

  lemma {:induction false} SumSharesOfRoots(g: seq<Edge>, rs: seq<Label>, total: int)
    requires total != 0
    requires forall i :: 0 <= i < |rs| ==> !IsTarget(g, rs[i])
    ensures SumShares(g, rs, total) == Share(SumOutflows(g, rs), total)
  {
    if rs != [] {
      var n := |rs| - 1;
      assert forall i :: 0 <= i < n ==> rs[..n][i] == rs[i];
      SumSharesOfRoots(g, rs[..n], total);
      RootValue(g, rs[n]);
      ShareAdd(SumOutflows(g, rs[..n]), Outflow(g, rs[n]), total);
    }
  }

  /** In percentage mode the tier-0 nodes' shares add up to 100%. */
  lemma RootSharesSumTo100(g: seq<Edge>, tiers: TierMap)
    requires IsLongestPathTiering(g, tiers)
    requires Tier0Sum(g, tiers) != 0
    ensures SumShares(g, Roots(Labels(g), g), Tier0Sum(g, tiers)) == 100.0
  {
    var rs := Roots(Labels(g), g);
    var total := Tier0Sum(g, tiers);
    RootsSpec(g);
    Tier0NodesAreRoots(g, tiers);
    SumOutflowsIsSourceSum(g, rs);
    assert SumOutflows(g, rs) == total;
    forall i | 0 <= i < |rs|
      ensures !IsTarget(g, rs[i])
    {
      assert rs[i] in rs;
    }
    SumSharesOfRoots(g, rs, total);
    ShareOfTotal(total);
  }

  lemma ShareOfTotal(total: int)
    requires total != 0
    ensures Share(total, total) == 100.0
  {
    var t := total as real;
    assert t / t == 1.0;
  }

  function Abs(x: int): nat
  {
    if x < 0 then -x else x
  }

  /** Python's `round` of the exact quotient `n / d`: the nearest integer,
      and the even one of the two nearest on a tie. */
  function RoundHalfEven(n: int, d: int): int
    requires d > 0
  {
    var q, r := n / d, n % d;
    if 2 * r < d then q
    else if 2 * r > d then q + 1
    else if q % 2 == 0 then q
    else q + 1
  }

  /** `round(val/round_factor)*round_factor` */
  function Rounded(n: int, factor: int): int
    requires factor > 0
  {
    RoundHalfEven(n, factor) * factor
  }

  lemma MulMod(q: int, d: int)
    requires d > 0
    ensures (q * d) % d == 0
  {
    var m, r := (q * d) / d, (q * d) % d;
    assert q * d == m * d + r;
    assert (q - m) * d == r;
    MulSign(q - m, d);
    MulSign(m - q, d);
    assert (m - q) * d == -r;
  }

  /** The rounded value is a multiple of the factor, within half a factor
      of the value, no further from it than any other multiple, and on a
      tie it is the even multiple. */
  lemma RoundedSpec(n: int, factor: int)
    requires factor > 0
    ensures Rounded(n, factor) % factor == 0
    ensures 2 * Abs(Rounded(n, factor) - n) <= factor
    ensures forall k :: Abs(Rounded(n, factor) - n) <= Abs(k * factor - n)
    ensures 2 * Abs(Rounded(n, factor) - n) == factor ==> RoundHalfEven(n, factor) % 2 == 0
  {
    MulMod(RoundHalfEven(n, factor), factor);
    RoundedOffset(n, factor);
    forall k
      ensures Abs(Rounded(n, factor) - n) <= Abs(k * factor - n)
    {
      MultipleDistance(n, factor, k);
    }
  }

  /** The rounded value lies no further from `n` than the multiples of the
      factor just below and just above `n`. */
  lemma RoundedOffset(n: int, d: int)
    requires d > 0
    ensures Abs(Rounded(n, d) - n) <= n % d
    ensures Abs(Rounded(n, d) - n) <= d - n % d
    ensures 2 * Abs(Rounded(n, d) - n) == d ==> RoundHalfEven(n, d) % 2 == 0
  {
    var q0, r := n / d, n % d;
    var q := RoundHalfEven(n, d);
    assert n == q0 * d + r;
    if q == q0 {
      assert q * d - n == -r;
      assert 2 * r <= d;
    } else {
      assert q == q0 + 1;
      assert q * d == q0 * d + d;
      assert q * d - n == d - r;
      assert 2 * r >= d;
    }
  }

  /** Every multiple of `d` is at least as far from `n` as one of the two
      multiples around it. */
  lemma MultipleDistance(n: int, d: int, k: int)
    requires d > 0
    ensures n % d <= Abs(k * d - n) || d - n % d <= Abs(k * d - n)
  {
    var q0, r := n / d, n % d;
    assert n == q0 * d + r;
    assert k * d - n == (k - q0) * d - r;
    MulSign(k - q0, d);
  }

  /** The two display modes: values rounded to a factor, or percentages
      shown with a number of decimals. */
  datatype DisplayMode = ShowValues(roundFactor: int) | ShowPercentages(decimals: nat)

  /** What a node shows: a rounded amount, a percentage, or, when
      `tier0_sum` is zero, the non-finite value that dividing by it gives. */
  datatype Shown = Amount(amount: int) | Percent(percent: real) | NotFinite

  datatype NodeDisplay = NodeDisplay(name: Label, shown: Shown)

  predicate ValidMode(mode: DisplayMode) {
    mode.ShowValues? ==> mode.roundFactor > 0
  }

  /** The value part of `f"{lbl}\n({val_text})"`. */
  function ShownValue(g: seq<Edge>, v: Label, mode: DisplayMode, tier0Sum: int): Shown
    requires ValidMode(mode)
  {
    match mode
    case ShowValues(f) => Amount(Rounded(NodeValue(g, v), f))
    case ShowPercentages(_) =>
      if tier0Sum != 0 then Percent(Share(NodeValue(g, v), tier0Sum)) else NotFinite
  }

  /** The loop that appends one display per registry label. */
  method NodeDisplays(g: seq<Edge>, labels: seq<Label>, mode: DisplayMode, tier0Sum: int)
    returns (ds: seq<NodeDisplay>)
    requires ValidMode(mode)
    ensures |ds| == |labels|
    ensures forall i :: 0 <= i < |labels| ==>
              ds[i] == NodeDisplay(labels[i], ShownValue(g, labels[i], mode, tier0Sum))
  {
    ds := [];
    for i := 0 to |labels|
      invariant |ds| == i
      invariant forall j :: 0 <= j < i ==> ds[j] == NodeDisplay(labels[j], ShownValue(g, labels[j], mode, tier0Sum))
    {
      var val := NodeValue(g, labels[i]);
      var shown;
      if mode.ShowValues? {
        shown := Amount(RoundHalfEven(val, mode.roundFactor) * mode.roundFactor);
      } else if tier0Sum != 0 {
        shown := Percent((val as real) / (tier0Sum as real) * 100.0);
      } else {
        shown := NotFinite;
      }
      ds := ds + [NodeDisplay(labels[i], shown)];
    }
  }
}
