/** What `create_sankey` produces, stated on the edge table: the node and
    link arrays that depict the graph, and what they promise. */
module Diagrams {
  import opened Seqs
  import opened Graph
  import opened Tiers
  import opened Layout
  import opened Values
  import opened Colors

  /** What the figure is built from: one entry per registry label for the
      node arrays, and the link arrays. `tiers` is the tier of each label,
      from which `x` and `y` are computed. */
  datatype Diagram = Diagram(
    labels: seq<Label>,
    tiers: seq<nat>,
    x: seq<real>,
    y: seq<real>,
    nodes: seq<NodeDisplay>,
    nodeColors: seq<string>,
    links: LinkArrays)

  /** One entry per edge: the registry indices of its endpoints, its value
      and its colour. */
  datatype LinkArrays = LinkArrays(
    sources: seq<nat>,
    targets: seq<nat>,
    values: seq<int>,
    colors: seq<string>)

  /** The exceptions `create_sankey` can raise. `UnreachedNode` is the
      `TypeError` from a tier that is still `None`; `BadColor` is
      the `ValueError` from `int(..., 16)` on a field of a source node's
      colour. */
  datatype Failure = UnreachedNode | BadColor

  /** `None` for an empty table, an exception, or a figure. */
  datatype Outcome = NoFigure | Fails(failure: Failure) | Figure(diagram: Diagram)

  /** `tier0_sum` stated on the graph alone: the total of the edges that
      leave a root. */
  function RootTotal(g: seq<Edge>): int
  {
    SourceSum(g, set r | r in Roots(Labels(g), g))
  }

  /** Some link's source colour does not convert. */
  predicate SomeColorFails(g: seq<Edge>, palette: seq<string>)
    requires |palette| > 0
  {
    var srcs := SourceIndices(g, Labels(g));
    var colors := NodeColors(palette, |Labels(g)|);
    exists k :: 0 <= k < |g| && HexToRgba(colors[srcs[k]]).None?
  }

  /** `d` is the diagram of `g`: the registry, the longest-path tier of
      every label, the positions computed from those tiers, the node texts
      with `tier0_sum` as the total of the root edges, the cycled palette,
      and per edge its endpoints' indices, its value and the translucent
      colour of its source. */
  ghost predicate Depicts(g: seq<Edge>, palette: seq<string>, mode: DisplayMode, d: Diagram)
    requires |palette| > 0 && ValidMode(mode)
  {
    && d.labels == Labels(g) && |d.labels| > 0
    && |d.tiers| == |d.labels|
    && (forall i :: 0 <= i < |d.labels| ==> LongestPathTier(g, d.labels[i], d.tiers[i]))
    && Positioned(d.tiers, d.x, d.y)
    && NodesOf(g, mode, d.labels, d.nodes)
    && LinksOf(g, palette, d.labels, d.nodeColors, d.links)
  }

  /** Read off a longest-path tiering, the tier list of the registry holds
      the longest-path tier of each label. */
  lemma TierListLongest(g: seq<Edge>, tiers: TierMap, ts: seq<nat>)
    requires IsLongestPathTiering(g, tiers)
    requires forall i :: 0 <= i < |Labels(g)| ==> Labels(g)[i] in tiers
    requires ts == TierList(Labels(g), tiers)
    ensures |ts| == |Labels(g)|
    ensures forall i :: 0 <= i < |Labels(g)| ==> LongestPathTier(g, Labels(g)[i], ts[i])
  {
  }

  /** `x` and `y` as functions of the tier list `ts`: the column of the
      node's tier, and the node's slot in its tier's band. */
  ghost predicate Positioned(ts: seq<nat>, x: seq<real>, y: seq<real>) {
    && |ts| > 0
    && x == XPositions(ts, MaxOf(ts))
    && |y| == |ts|
    && forall t, j {:trigger IndicesAt(ts, t)[j]} :: 0 <= j < |IndicesAt(ts, t)| ==>
         y[IndicesAt(ts, t)[j]] == YOf(t, MaxOf(ts), |IndicesAt(ts, t)|, j)
  }

  /** One display per label, with `tier0_sum` as the total of the root
      edges. */
  predicate NodesOf(g: seq<Edge>, mode: DisplayMode, labels: seq<Label>, nodes: seq<NodeDisplay>)
    requires ValidMode(mode)
  {
    && |nodes| == |labels|
    && forall i :: 0 <= i < |labels| ==>
         nodes[i] == NodeDisplay(labels[i], ShownValue(g, labels[i], mode, RootTotal(g)))
  }

  /** The cycled palette, and per edge its endpoints' indices, its value
      and the translucent colour of its source. */
  predicate LinksOf(g: seq<Edge>, palette: seq<string>, labels: seq<Label>, nodeColors: seq<string>,
                    links: LinkArrays)
    requires |palette| > 0
  {
    && labels == Labels(g)
    && nodeColors == NodeColors(palette, |labels|)
    && links.sources == SourceIndices(g, labels)
    && links.targets == TargetIndices(g, labels)
    && |links.values| == |g| && (forall k {:trigger links.values[k]} :: 0 <= k < |g| ==> links.values[k] == g[k].value)
    && |links.colors| == |g|
    && forall k {:trigger links.colors[k]} :: 0 <= k < |g| ==>
         HexToRgba(nodeColors[links.sources[k]]) == Some(links.colors[k])
  }

  /** Every label of `ls` is reachable from a root. */
  ghost predicate AllReachable(g: seq<Edge>, ls: seq<Label>) {
    ls == [] || (Reachable(g, ls[0]) && AllReachable(g, ls[1..]))
  }

  lemma {:induction false} AllReachableSpec(g: seq<Edge>, ls: seq<Label>)
    ensures AllReachable(g, ls) <==> forall v :: v in ls ==> Reachable(g, v)
  {
    if ls != [] {
      AllReachableSpec(g, ls[1..]);
      assert forall v :: v in ls <==> v == ls[0] || v in ls[1..];
    }
  }

  /** When exactly the reachable nodes are tiered, the labels of `ls` are
      all reachable exactly when they are all tiered. */
  lemma {:induction false} AllReachableIffTiered(g: seq<Edge>, tiers: TierMap, ls: seq<Label>)
    requires forall v :: v in tiers <==> Reachable(g, v)
    ensures AllReachable(g, ls) <==> forall i :: 0 <= i < |ls| ==> ls[i] in tiers
  {
    if ls != [] {
      AllReachableIffTiered(g, tiers, ls[1..]);
      assert forall i :: 1 <= i < |ls| ==> ls[i] == ls[1..][i - 1];
    }
  }

  /** Every node is placed inside the unit square. */
  lemma NodesInUnitSquare(g: seq<Edge>, palette: seq<string>, mode: DisplayMode, d: Diagram)
    requires |palette| > 0 && ValidMode(mode)
    requires Depicts(g, palette, mode, d)
    ensures forall i :: 0 <= i < |d.labels| ==> 0.0 <= d.x[i] <= 1.0 && 0.0 <= d.y[i] <= 1.0
  {
    var m := MaxOf(d.tiers);
    forall i | 0 <= i < |d.labels|
      ensures 0.0 <= d.x[i] <= 1.0 && 0.0 <= d.y[i] <= 1.0
    {
      XBounds(d.tiers[i], m);
      var j := PositionInTier(d.tiers, i);
      YInUnit(d.tiers[i], m, |IndicesAt(d.tiers, d.tiers[i])|, j);
    }
  }

  /** Where node `i` stands among the nodes of its tier. */
  lemma PositionInTier(ts: seq<nat>, i: nat) returns (j: nat)
    requires i < |ts|
    ensures j < |IndicesAt(ts, ts[i])| && IndicesAt(ts, ts[i])[j] == i
  {
    var r := IndicesAt(ts, ts[i]);
    assert i in r;
    j :| 0 <= j < |r| && r[j] == i;
  }

  /** Every link runs from left to right and from a higher band to a lower
      one, because its target's tier exceeds its source's. */
  lemma LinksRunForward(g: seq<Edge>, palette: seq<string>, mode: DisplayMode, d: Diagram)
    requires |palette| > 0 && ValidMode(mode)
    requires Depicts(g, palette, mode, d)
    ensures forall k :: 0 <= k < |g| ==>
              d.tiers[d.links.sources[k]] < d.tiers[d.links.targets[k]]
              && d.x[d.links.sources[k]] < d.x[d.links.targets[k]]
              && d.y[d.links.targets[k]] < d.y[d.links.sources[k]]
  {
    var m := MaxOf(d.tiers);
    forall k | 0 <= k < |g|
      ensures d.tiers[d.links.sources[k]] < d.tiers[d.links.targets[k]]
      ensures d.x[d.links.sources[k]] < d.x[d.links.targets[k]]
      ensures d.y[d.links.targets[k]] < d.y[d.links.sources[k]]
    {
      var s, t := d.links.sources[k], d.links.targets[k];
      LongestPathEdge(g, k, d.tiers[s], d.tiers[t]);
      XMonotone(d.tiers[s], d.tiers[t], m);
      var js := PositionInTier(d.tiers, s);
      var jt := PositionInTier(d.tiers, t);
      BandsOrdered(d.tiers[s], d.tiers[t], m, |IndicesAt(d.tiers, d.tiers[s])|, js,
                   |IndicesAt(d.tiers, d.tiers[t])|, jt);
    }
  }

  /** Nodes of one tier share a column, stacked upwards in registry order. */
  lemma TierColumnsStack(g: seq<Edge>, palette: seq<string>, mode: DisplayMode, d: Diagram, i1: nat, i2: nat)
    requires |palette| > 0 && ValidMode(mode)
    requires Depicts(g, palette, mode, d)
    requires i1 < i2 < |d.labels| && d.tiers[i1] == d.tiers[i2]
    ensures d.x[i1] == d.x[i2]
    ensures d.y[i1] < d.y[i2]
  {
    var t := d.tiers[i1];
    var r := IndicesAt(d.tiers, t);
    var j1 := PositionInTier(d.tiers, i1);
    var j2 := PositionInTier(d.tiers, i2);
    IndicesAtOrdered(d.tiers, t, j1, j2);
    YIncreasing(t, MaxOf(d.tiers), |r|, j1, j2);
  }

  /** When some node has a positive tier, the roots and only the roots sit
      on the left edge, and the deepest nodes on the right edge. */
  lemma RootsOnLeftEdge(g: seq<Edge>, palette: seq<string>, mode: DisplayMode, d: Diagram, i: nat)
    requires |palette| > 0 && ValidMode(mode)
    requires Depicts(g, palette, mode, d)
    requires i < |d.labels| && MaxOf(d.tiers) > 0
    ensures d.x[i] == 0.0 <==> IsRoot(g, d.labels[i])
    ensures d.x[i] == 1.0 <==> d.tiers[i] == MaxOf(d.tiers)
  {
    XBounds(d.tiers[i], MaxOf(d.tiers));
    LongestPathTierZero(g, d.labels[i], d.tiers[i]);
  }

  /** Each link is coloured like its source node, which takes the palette
      colour at its registry index, cycling. */
  lemma LinkColorOfSource(g: seq<Edge>, palette: seq<string>, mode: DisplayMode, d: Diagram, k: nat)
    requires |palette| > 0 && ValidMode(mode)
    requires Depicts(g, palette, mode, d)
    requires k < |g|
    ensures d.labels[d.links.sources[k]] == g[k].source
    ensures Some(d.links.colors[k]) == HexToRgba(palette[d.links.sources[k] % |palette|])
  {
  }

  /** With the offered palettes no conversion fails. */
  lemma OfferedPalettesConvert(g: seq<Edge>, palette: seq<string>)
    requires palette == DefaultPalette || palette == HighContrastPalette || palette == EarthyPalette
    ensures !SomeColorFails(g, palette)
  {
    PalettesWellFormed();
    var srcs := SourceIndices(g, Labels(g));
    var colors := NodeColors(palette, |Labels(g)|);
    forall k | 0 <= k < |g|
      ensures HexToRgba(colors[srcs[k]]).Some?
    {
      HexColorComponents(colors[srcs[k]]);
    }
  }
}
