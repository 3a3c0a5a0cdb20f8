/** The worked example of a three-edge table, A feeding B and C and B
    feeding D, and a single edge whose value is rounded away. */
module Scenarios {
  import opened Seqs
  import opened Graph
  import opened Tiers
  import opened Values
  import opened Layout
  import opened Diagrams

  function Table(): seq<Edge> {
    [Edge("A", "B", 100), Edge("A", "C", 200), Edge("B", "D", 50)]
  }

  /** The root A shows its outbound total, B and D their inbound totals. */
  lemma TableValues()
    ensures NodeValue(Table(), "A") == 300
    ensures NodeValue(Table(), "B") == 100
    ensures NodeValue(Table(), "D") == 50
  {
    var g := Table();
    var g2, g1 := g[..2], g[..1];
    assert g2 == [Edge("A", "B", 100), Edge("A", "C", 200)];
    assert g2[..1] == g1 == [Edge("A", "B", 100)];
    assert g1[..0] == [];
    assert Inflow(g1, "A") == 0 && Inflow(g2, "A") == 0 && Inflow(g, "A") == 0;
    assert Outflow(g1, "A") == 100 && Outflow(g2, "A") == 300 && Outflow(g, "A") == 300;
    assert Inflow(g1, "B") == 100 && Inflow(g2, "B") == 100 && Inflow(g, "B") == 100;
    assert Inflow(g1, "D") == 0 && Inflow(g2, "D") == 0 && Inflow(g, "D") == 50;
  }

  /** `tier0_sum` of the table is A's outbound total, 300. */
  lemma TableTotal()
    ensures RootTotal(Table()) == 300
  {
    forall v
      ensures IsRoot(Table(), v) <==> v == "A"
    {
      TableRoot(v);
    }
    SingleRootTotal(Table(), "A");
    TableSourceSum();
  }

  /** With `a` the only root, `tier0_sum` is the total of the edges that
      leave `a`. */
  lemma SingleRootTotal(g: seq<Edge>, a: Label)
    requires forall v :: IsRoot(g, v) <==> v == a
    ensures RootTotal(g) == SourceSum(g, {a})
  {
    RootsSpec(g);
    assert (set r | r in Roots(Labels(g), g)) == {a};
  }

  lemma TableSourceSum()
    ensures SourceSum(Table(), {"A"}) == 300
  {
    var g := Table();
    var g2, g1 := g[..2], g[..1];
    assert g2 == [Edge("A", "B", 100), Edge("A", "C", 200)];
    assert g2[..1] == g1 == [Edge("A", "B", 100)];
    assert g1[..0] == [];
    assert SourceSum(g1, {"A"}) == 100 && SourceSum(g2, {"A"}) == 300;
  }

  /** In Percentages mode D shows 50/3 percent of the tier-0 total 300,
      and in Values mode at factor 100 B shows 100. */
  lemma TableShown()
    ensures ShownValue(Table(), "D", ShowPercentages(1), 300) == Percent(50.0 / 3.0)
    ensures ShownValue(Table(), "B", ShowValues(100), 300) == Amount(100)
  {
    TableValues();
  }

  /** With the tiers of A, B, C and D the columns are 0, 0.5, 0.5 and 1. */
  lemma TableColumns()
    ensures var ts := [TableTiers["A"], TableTiers["B"], TableTiers["C"], TableTiers["D"]];
      XPositions(ts, MaxOf(ts)) == [0.0, 0.5, 0.5, 1.0]
  {
    var ts := [TableTiers["A"], TableTiers["B"], TableTiers["C"], TableTiers["D"]];
    assert ts == [0, 1, 1, 2];
    assert MaxOf(ts) == 2;
  }

  /** A single edge X to Y of value 10 shows 0 for Y at factor 100. */
  lemma SmallValueRoundsAway()
    ensures ShownValue([Edge("X", "Y", 10)], "Y", ShowValues(100), 0) == Amount(0)
  {
    var g := [Edge("X", "Y", 10)];
    assert g[..0] == [];
    assert Inflow(g, "Y") == 10;
  }

  /** A is the table's only root. */
  lemma TableRoot(v: Label)
    ensures IsRoot(Table(), v) <==> v == "A"
  {
    var g := Table();
    assert g[0].source == "A" && g[0].target == "B";
    assert IsTarget(g, "B");
    if v == "A" {
      assert g[0].source == v;
    }
    if IsSource(g, v) {
      var k :| 0 <= k < |g| && g[k].source == v;
      assert v == "A" || v == "B";
    }
  }

  const TableTiers: TierMap := map["A" := 0, "B" := 1, "C" := 1, "D" := 2]

  /** A sits in tier 0, B and C in tier 1 and D in tier 2. */
  lemma TableTiering()
    ensures IsLongestPathTiering(Table(), TableTiers)
  {
    TableClosed();
    TableWitnessed();
    TieringFromClosure(Table(), TableTiers, TableWalks);
  }

  const TableWalks: map<Label, seq<Label>> :=
    map["A" := ["A"], "B" := ["A", "B"], "C" := ["A", "C"], "D" := ["A", "B", "D"]]

  /** Every root walk of the table ends at a tiered node no further down
      than its tier. */
  lemma TableClosed()
    ensures forall p {:trigger RootWalk(Table(), p)} :: RootWalk(Table(), p) ==>
              Last(p) in TableTiers && |p| <= TableTiers[Last(p)] + 1
  {
    var roots := Roots(Labels(Table()), Table());
    TableRootsTiered(roots);
    TableEdgesClosed();
    ClosureBound(Table(), TableTiers, roots);
  }

  lemma TableRootsTiered(roots: seq<Label>)
    requires roots == Roots(Labels(Table()), Table())
    ensures forall j :: 0 <= j < |roots| ==> roots[j] in TableTiers
  {
    RootsSpec(Table());
    forall j | 0 <= j < |roots|
      ensures roots[j] in TableTiers
    {
      TableRoot(roots[j]);
    }
  }

  /** Every edge of the table climbs one tier. */
  lemma TableEdgesClosed()
    ensures ClosedExcept(Table(), TableTiers, [])
  {
    var g, t := Table(), TableTiers;
    forall k | 0 <= k < |g| && g[k].source in t && g[k].source !in []
      ensures g[k].target in t && t[g[k].target] >= t[g[k].source] + 1
    {
      if k == 0 {
        assert g[k] == Edge("A", "B", 100);
      } else if k == 1 {
        assert g[k] == Edge("A", "C", 200);
      } else {
        assert g[k] == Edge("B", "D", 50);
      }
    }
  }

  /** Each tier is the length of a walk from A. */
  lemma TableWitnessed()
    ensures Witnessed(Table(), TableTiers, TableWalks)
  {
    var g := Table();
    TableRoot("A");
    assert IsEdge(g, "A", "B") by { assert g[0].source == "A" && g[0].target == "B"; }
    assert IsEdge(g, "A", "C") by { assert g[1].source == "A" && g[1].target == "C"; }
    assert IsEdge(g, "B", "D") by { assert g[2].source == "B" && g[2].target == "D"; }
    assert RootWalk(g, ["A"]);
    assert RootWalk(g, ["A", "B"]);
    assert RootWalk(g, ["A", "C"]);
    assert RootWalk(g, ["A", "B", "D"]);
  }
}
