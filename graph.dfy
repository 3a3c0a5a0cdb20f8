/** The edge table of a Sankey diagram, the node registry built from it
    (labels in first-appearance order and the label-to-index map), root
    detection, and the walks in which tiering is specified. */
module Graph {
  import opened Seqs

  type Label = string

  /** One row of the edge table: a flow of `value` from `source` to `target`.
      Rows with a missing field are dropped before the layout runs, so an
      edge always has all three. */
  datatype Edge = Edge(source: Label, target: Label, value: int)

  /** The source and target columns read row by row: s0, t0, s1, t1, ... */
  function Flatten(g: seq<Edge>): (r: seq<Label>)
    ensures |r| == 2 * |g|
    ensures forall k :: 0 <= k < |g| ==> r[2 * k] == g[k].source && r[2 * k + 1] == g[k].target
  {
    if g == [] then [] else [g[0].source, g[0].target] + Flatten(g[1..])
  }

  /** The node registry: every label once, in first-appearance order of the
      row-major scan. */
  function Labels(g: seq<Edge>): (r: seq<Label>)
    ensures forall k :: 0 <= k < |g| ==> g[k].source in r && g[k].target in r
  {
    var f := Flatten(g);
    assert forall k :: 0 <= k < |g| ==> f[2 * k] in f && f[2 * k + 1] in f;
    Unique(f)
  }

  predicate IsSource(g: seq<Edge>, v: Label) {
    exists k :: 0 <= k < |g| && g[k].source == v
  }

  predicate IsTarget(g: seq<Edge>, v: Label) {
    exists k :: 0 <= k < |g| && g[k].target == v
  }

  predicate IsEdge(g: seq<Edge>, s: Label, t: Label) {
    exists k :: 0 <= k < |g| && g[k].source == s && g[k].target == t
  }

  /** The registry holds each source and each target exactly once, nothing
      else, and in the order in which they first appear. */
  lemma LabelsSpec(g: seq<Edge>)
    ensures NoDup(Labels(g))
    ensures forall v :: v in Labels(g) <==> IsSource(g, v) || IsTarget(g, v)
    ensures forall i, j :: 0 <= i < j < |Labels(g)| ==>
              FirstIndex(Flatten(g), Labels(g)[i]) < FirstIndex(Flatten(g), Labels(g)[j])
  {
    var f := Flatten(g);
    var u := Labels(g);
    forall v | v in u
      ensures IsSource(g, v) || IsTarget(g, v)
    {
      var m := FirstIndex(f, v);
      var k := m / 2;
      assert m == 2 * k || m == 2 * k + 1;
      assert g[k].source == v || g[k].target == v;
    }
    forall v | IsSource(g, v) || IsTarget(g, v)
      ensures v in u
    {
      var k :| 0 <= k < |g| && (g[k].source == v || g[k].target == v);
      assert f[2 * k] == g[k].source && f[2 * k + 1] == g[k].target;
    }
    UniqueFirstAppearance(f);
  }

  /** `{lbl: i for i, lbl in enumerate(labels)}`: later positions overwrite
      earlier ones, as in a dictionary comprehension. */
  function IndexMap(labels: seq<Label>): (m: map<Label, nat>)
    ensures forall x :: x in m <==> x in labels
    ensures forall x :: x in m ==> m[x] < |labels| && labels[m[x]] == x
  {
    if labels == [] then map[]
    else
      var n := |labels| - 1;
      IndexMap(labels[..n])[labels[n] := n]
  }

  /** On a duplicate-free registry the map is the inverse of indexing. */
  lemma IndexMapInverse(labels: seq<Label>, i: nat)
    requires NoDup(labels) && i < |labels|
    ensures labels[i] in IndexMap(labels) && IndexMap(labels)[labels[i]] == i
  {
  }

  /** The link source column as node indices. */
  function SourceIndices(g: seq<Edge>, labels: seq<Label>): (r: seq<nat>)
    requires forall k :: 0 <= k < |g| ==> g[k].source in labels
    ensures |r| == |g|
    ensures forall k :: 0 <= k < |g| ==> r[k] < |labels| && labels[r[k]] == g[k].source
  {
    var idx := IndexMap(labels);
    seq(|g|, k requires 0 <= k < |g| => idx[g[k].source])
  }

  /** The link target column as node indices. */
  function TargetIndices(g: seq<Edge>, labels: seq<Label>): (r: seq<nat>)
    requires forall k :: 0 <= k < |g| ==> g[k].target in labels
    ensures |r| == |g|
    ensures forall k :: 0 <= k < |g| ==> r[k] < |labels| && labels[r[k]] == g[k].target
  {
    var idx := IndexMap(labels);
    seq(|g|, k requires 0 <= k < |g| => idx[g[k].target])
  }

  /** A root is a node that is never the target of an edge. */
  predicate IsRoot(g: seq<Edge>, v: Label) {
    IsSource(g, v) && !IsTarget(g, v)
  }

  /** `[lbl for lbl in labels if lbl not in df['target'].values]` */
  function Roots(labels: seq<Label>, g: seq<Edge>): (r: seq<Label>)
    ensures forall v :: v in r <==> v in labels && !IsTarget(g, v)
    ensures NoDup(labels) ==> NoDup(r)
  {
    if labels == [] then []
    else
      var n := |labels| - 1;
      var r := Roots(labels[..n], g);
      assert NoDup(labels) ==> labels[n] !in labels[..n];
      if IsTarget(g, labels[n]) then r else r + [labels[n]]
  }

  /** Of the registry's labels, the roots are exactly the nodes that are no
      edge's target. */
  lemma RootsSpec(g: seq<Edge>)
    ensures NoDup(Roots(Labels(g), g))
    ensures forall v :: v in Roots(Labels(g), g) <==> IsRoot(g, v)
  {
    LabelsSpec(g);
  }

  /** A walk follows edges of `g` from its first node to its last. */
  predicate IsWalk(g: seq<Edge>, p: seq<Label>) {
    |p| > 0 && forall i :: 0 <= i < |p| - 1 ==> IsEdge(g, p[i], p[i + 1])
  }

  /** A walk that starts at a root. */
  predicate RootWalk(g: seq<Edge>, p: seq<Label>) {
    IsWalk(g, p) && IsRoot(g, p[0])
  }

  /** Some walk from a root ends at `v`. */
  ghost predicate Reachable(g: seq<Edge>, v: Label) {
    exists p {:trigger RootWalk(g, p)} :: RootWalk(g, p) && Last(p) == v
  }

  /** No walk from a root comes back to a node it has visited, that is, no
      cycle can be reached from a root. */
  ghost predicate AcyclicFromRoots(g: seq<Edge>) {
    forall p {:trigger RootWalk(g, p)} :: RootWalk(g, p) ==> NoDup(p)
  }

  lemma WalkSnoc(g: seq<Edge>, p: seq<Label>, t: Label)
    requires IsWalk(g, p) && IsEdge(g, Last(p), t)
    ensures IsWalk(g, p + [t]) && Last(p + [t]) == t && (p + [t])[0] == p[0]
  {
    var q := p + [t];
    forall i | 0 <= i < |q| - 1
      ensures IsEdge(g, q[i], q[i + 1])
    {
      if i < |p| - 1 {
        assert q[i] == p[i] && q[i + 1] == p[i + 1];
      }
    }
  }

  lemma WalkPrefix(g: seq<Edge>, p: seq<Label>, m: nat)
    requires IsWalk(g, p) && 0 < m <= |p|
    ensures IsWalk(g, p[..m]) && p[..m][0] == p[0]
  {
    forall i | 0 <= i < m - 1
      ensures IsEdge(g, p[..m][i], p[..m][i + 1])
    {
      assert p[..m][i] == p[i] && p[..m][i + 1] == p[i + 1];
    }
  }

  lemma WalkSuffix(g: seq<Edge>, p: seq<Label>, m: nat)
    requires IsWalk(g, p) && m < |p|
    ensures IsWalk(g, p[m..]) && p[m..][0] == p[m]
  {
    forall i | 0 <= i < |p| - m - 1
      ensures IsEdge(g, p[m..][i], p[m..][i + 1])
    {
      assert p[m..][i] == p[m + i] && p[m..][i + 1] == p[m + i + 1];
    }
  }

  /** Every node of a root walk is in the registry. */
  lemma RootWalkInLabels(g: seq<Edge>, p: seq<Label>)
    requires RootWalk(g, p)
    ensures forall i :: 0 <= i < |p| ==> p[i] in Labels(g)
  {
    LabelsSpec(g);
    forall i | 0 <= i < |p|
      ensures IsSource(g, p[i]) || IsTarget(g, p[i])
    {
      if i > 0 {
        assert IsEdge(g, p[i - 1], p[i]);
      }
    }
  }

  /** Without reachable cycles a root walk visits each label at most once,
      so it is no longer than the registry. */
  lemma RootWalkLength(g: seq<Edge>, p: seq<Label>)
    requires AcyclicFromRoots(g) && RootWalk(g, p)
    ensures |p| <= |Labels(g)|
  {
    RootWalkInLabels(g, p);
    LabelsSpec(g);
    NoDupSubsetLength(p, Labels(g));
  }
}
