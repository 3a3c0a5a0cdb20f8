/** `create_sankey`: the whole layout pipeline from an edge table to the
    node and link arrays handed to the plotting library. */
module Sankey {
  import opened Seqs
  import opened Graph
  import opened Tiers
  import opened Layout
  import opened Values
  import opened Colors
  import opened Diagrams

  /** `create_sankey(df, ...)` for the layout. An empty table gives no
      figure; a label that no root reaches leaves a tier at `None`, which
      `max` cannot compare when there are several labels, and which
      `max_tier > 0` cannot compare when there is only one; a source node's
      colour whose three two-character fields do not all parse with
      `int(..., 16)` makes the conversion fail; otherwise the result
      depicts the graph. */
  method CreateSankey(g: seq<Edge>, palette: seq<string>, mode: DisplayMode) returns (out: Outcome)
    requires AcyclicFromRoots(g)
    requires |palette| > 0
    requires ValidMode(mode)
    ensures if g == [] then out == NoFigure
            else if !AllReachable(g, Labels(g)) then out == Fails(UnreachedNode)
            else if SomeColorFails(g, palette) then out == Fails(BadColor)
            else out.Figure? && Depicts(g, palette, mode, out.diagram)
  {
    if g == [] {
      out := NoFigure;
    } else {
      out := Build(g, palette, mode);
    }
  }

  /** `create_sankey` on a non-empty table: tiers first, and the figure
      only if every label got one. */
  method Build(g: seq<Edge>, palette: seq<string>, mode: DisplayMode) returns (out: Outcome)
    requires AcyclicFromRoots(g)
    requires |palette| > 0
    requires ValidMode(mode)
    requires g != []
    ensures if !AllReachable(g, Labels(g)) then out == Fails(UnreachedNode)
            else if SomeColorFails(g, palette) then out == Fails(BadColor)
            else out.Figure? && Depicts(g, palette, mode, out.diagram)
  {
    var tiers, complete := Tiering(g);
    if !complete {
      out := Fails(UnreachedNode);
    } else {
      out := Draw(g, palette, mode, tiers);
    }
  }

  /** `assign_tier` from every root, and whether every label got a tier. */
  method Tiering(g: seq<Edge>) returns (tiers: TierMap, complete: bool)
    requires AcyclicFromRoots(g)
    ensures IsLongestPathTiering(g, tiers)
    ensures complete <==> AllReachable(g, Labels(g))
    ensures complete ==> forall i :: 0 <= i < |Labels(g)| ==> Labels(g)[i] in tiers
  {
    var labels := Labels(g);
    var roots := Roots(labels, g);
    tiers := AssignTiers(g, roots);
    AllReachableIffTiered(g, tiers, labels);
    complete := forall i :: 0 <= i < |labels| ==> labels[i] in tiers;
  }

  /** The rest of `create_sankey` once every label has its tier: positions,
      node texts, node colours and the link arrays. */
  method Draw(g: seq<Edge>, palette: seq<string>, mode: DisplayMode, tiers: TierMap) returns (out: Outcome)
    requires |palette| > 0 && ValidMode(mode)
    requires g != [] && IsLongestPathTiering(g, tiers)
    requires forall i :: 0 <= i < |Labels(g)| ==> Labels(g)[i] in tiers
    ensures if SomeColorFails(g, palette) then out == Fails(BadColor)
            else out.Figure? && Depicts(g, palette, mode, out.diagram)
  {
    var ts, x, y := Positions(g, tiers);
    TierListLongest(g, tiers, ts);
    var nodes := Texts(g, mode, tiers);
    var colors, links := Links(g, palette);
    if links.None? {
      return Fails(BadColor);
    }
    out := Figure(Diagram(Labels(g), ts, x, y, nodes, colors, links.value));
  }

  /** The tier of every label, `max_tier`, then each node's column and its
      place in its tier's band. */
  method Positions(g: seq<Edge>, tiers: TierMap) returns (ts: seq<nat>, x: seq<real>, y: seq<real>)
    requires g != []
    requires forall i :: 0 <= i < |Labels(g)| ==> Labels(g)[i] in tiers
    ensures |Labels(g)| > 0 && ts == TierList(Labels(g), tiers)
    ensures Positioned(ts, x, y)
  {
    var labels := Labels(g);
    assert g[0].source in labels;
    ts := TierList(labels, tiers);
    x, y := Place(ts);
  }

  /** `max_tier`, then each node's column and its place in its tier's
      band. */
  method Place(ts: seq<nat>) returns (x: seq<real>, y: seq<real>)
    requires |ts| > 0
    ensures Positioned(ts, x, y)
  {
    var maxTier := MaxOf(ts);
    x := XPositions(ts, maxTier);
    y := VerticalPositions(ts, maxTier);
  }

  /** The node texts, with `tier0_sum` summed over the tier-0 nodes. */
  method Texts(g: seq<Edge>, mode: DisplayMode, tiers: TierMap) returns (nodes: seq<NodeDisplay>)
    requires ValidMode(mode) && IsLongestPathTiering(g, tiers)
    ensures NodesOf(g, mode, Labels(g), nodes)
  {
    var total := Tier0Sum(g, tiers);
    Tier0NodesAreRoots(g, tiers);
    assert total == RootTotal(g);
    nodes := NodeDisplays(g, Labels(g), mode, total);
  }

  /** The cycled node colours, and the link arrays unless a source colour
      fails to convert. */
  method Links(g: seq<Edge>, palette: seq<string>) returns (colors: seq<string>, links: Option<LinkArrays>)
    requires |palette| > 0
    ensures links.None? <==> SomeColorFails(g, palette)
    ensures links.Some? ==> LinksOf(g, palette, Labels(g), colors, links.value)
  {
    var labels := Labels(g);
    colors := NodeColors(palette, |labels|);
    var linkColors := LinkColors(g, labels, colors);
    if linkColors.None? {
      links := None;
    } else {
      var values := seq(|g|, k requires 0 <= k < |g| => g[k].value);
      links := Some(LinkArrays(SourceIndices(g, labels), TargetIndices(g, labels), values, linkColors.value));
    }
  }
}
