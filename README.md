# Sankey layout engine, modelled in Dafny

The Sankey app turns an edge table of `source`, `target` and `value` rows
into a Sankey figure. Its core is the layout engine in `create_sankey`.
This project models that engine and proves its properties. It covers:

- **Registry.** The node registry is every label once, in order of first
  appearance, with a label-to-index map.
- **Roots.** A root is a label that is no edge's target.
- **Tiering.** The recursive `assign_tier` relaxation gives every node its
  tier.
- **Horizontal position.** `x` is the node's tier over `max_tier`, or 0.5
  when every node is in tier 0.
- **Vertical position.** Grouping the nodes by tier gives `y`: each tier
  owns a horizontal band, and its nodes are spread evenly inside it.
- **Node values.** A node's value is its inbound total, or its outbound
  total when that is zero.
- **Tier-0 total.** The denominator for percentages is the total flow out
  of tier 0.
- **Displayed value.** A node shows its rounded amount or its percentage.
- **Colours.** The palette is cycled across the nodes. The `hex_to_rgba`
  conversion of each link's source colour gives the link's colour.
- **Link arrays.** Each edge gives a source index, a target index and a
  value.

The modules follow the engine's stages:

| file | module | contents |
|---|---|---|
| `arith.dfy` | `Arith` | an integer arithmetic fact used by the rounding and colour proofs |
| `seqs.dfy` | `Seqs` | sequence helpers: no duplicates, prefixes, first index, first-appearance dedup |
| `graph.dfy` | `Graph` | edges, the registry (`pd.unique` and `label_idx`), roots, walks, reachability |
| `tiers.dfy` | `Tiers` | `assign_tier` as a recursive method over a tier map, proved to compute longest-path tiers |
| `layout.dfy` | `Layout` | `x`, `tier_groups` (a loop building a map), `y` (a loop writing into an array) |
| `values.dfy` | `Values` | inflow/outflow aggregation, `tier0_sum`, half-to-even rounding, the node-text loop |
| `colors.dfy` | `Colors` | palettes, colour cycling, `int(s, 16)`, `hex_to_rgba`, link colours |
| `diagram.dfy` | `Diagrams` | the figure's node and link arrays, `Depicts`, and the properties any depiction has |
| `sankey.dfy` | `Sankey` | `create_sankey` as methods, proved to produce a depiction or the right failure |
| `scenarios.dfy` | `Scenarios` | a worked three-edge example |

### What `Sankey.CreateSankey` promises

- An empty table gives no figure.
- A label that no root reaches gives `Fails(UnreachedNode)`. Its tier stays
  `None`, and Python raises `TypeError`. When the registry holds two or
  more labels, `max` raises while comparing that `None` with another tier,
  even when every tier is `None` (as in the table A→B, B→A, which has no
  root). When the registry holds a single label and it has no tier,
  `max_tier` itself is `None`, and `max_tier > 0` raises instead. The
  table with the single row A→A is an example of the second case.
- Otherwise, `Fails(BadColor)` results when the colour of some row's
  source node has three two-character fields (taken after stripping the
  leading `#` characters) that do not all parse with `int(..., 16)`. This
  is the `ValueError` from `int`. The check is on those fields alone, so
  `"41484f"`, `"##41484f"`, `"#41484f99"` and even `"#-1-2-3"` all
  convert; the last gives `rgba(-1,-2,-3,0.3)`.
- Otherwise the result is a `Diagram` that `Depicts` the graph:
  - the registry;
  - the longest-path tier of every label;
  - `x` and `y` computed from those tiers;
  - one display per label, with the tier-0 total as the sum over the
    roots' edges;
  - the cycled palette;
  - per edge, its endpoints' indices, its value and the translucent
    colour of its source.

### Properties proved of every depiction

- Each node lies in the unit square.
- Each link runs rightwards and downwards, because its target's tier
  exceeds its source's.
- The nodes of one tier share a column and stack upwards in registry
  order.
- When there is more than one tier, exactly the roots sit on the left
  edge, and the deepest tier sits on the right edge.

### Failure behaviour kept from the code

- **Cycles reachable from a root.** `assign_tier` has no cycle check: on
  such a cycle it recurses until Python raises `RecursionError`. These
  graphs are excluded by `AcyclicFromRoots`.
- **A tier-0 total of zero in Percentages mode.** `create_sankey` divides
  by it, and numpy gives `inf` or `nan` instead of raising. This is
  `Shown.NotFinite`.
- **Malformed palette colours.** No colour is checked in advance. A colour
  is parsed only when it belongs to the source node of some row, at the
  moment that row's link colour is converted. A malformed colour that only
  target-only nodes receive is never parsed by `hex_to_rgba`.

## Model

| member | source | states |
|---|---|---|
| Graph.Flatten | sankey_app.py:74 | the source and target columns read row by row: entry 2k is row k's source, entry 2k+1 its target |
| Graph.Labels | sankey_app.py:74 | every row's source and target is in the registry |
| Graph.LabelsSpec | sankey_app.py:74 | the registry has no duplicates; a label is in it iff it is some row's source or target; labels appear in order of first appearance in the row-major scan |
| Seqs.UniqueFirstAppearance | sankey_app.py:74 | deduplication keeps elements in the order of their first occurrence |
| Graph.IndexMap | sankey_app.py:75 | `label_idx` has exactly the registry's labels as keys and maps each to a position holding that label |
| Graph.IndexMapInverse | sankey_app.py:75 | on a duplicate-free registry, `label_idx` of the i-th label is i |
| Graph.SourceIndices | sankey_app.py:138 | one entry per row, each the registry index of that row's source |
| Graph.TargetIndices | sankey_app.py:139 | one entry per row, each the registry index of that row's target |
| Graph.Roots | sankey_app.py:84 | a label is kept iff it is in the registry and no row's target; duplicates are not introduced |
| Graph.RootsSpec | sankey_app.py:84 | the roots computed from the registry are duplicate-free and are exactly the labels that are a source but never a target |
| Graph.AcyclicFromRoots | sankey_app.py:79-83 | the condition under which the recursion of `assign_tier` ends: every walk from a root is free of repeats. `Tiers.LongestPathTieringIsAcyclic` shows it is also necessary for a longest-path tiering |
| Graph.RootWalkLength | sankey_app.py:79-83 | when no cycle is reachable, a walk from a root is no longer than the registry, which bounds the recursion depth |
| Tiers.LongestPathTier | sankey_app.py:79-86 | the reference definition of a node's tier: the length, minus one, of the longest walk from a root that ends at the node. `Tiers.LongestPathEdge` and `Tiers.LongestPathTierZero` state its properties |
| Tiers.IsLongestPathTiering | sankey_app.py:78-86 | the reference definition of the tier map `assign_tier` should leave: exactly the reachable nodes are tiered, each at its longest-path tier. `Tiers.AssignTiers` proves the code meets it; `Tiers.TierEdgeStep` and `Tiers.TierZeroIffRoot` state its consequences |
| Tiers.AssignTier | sankey_app.py:79-83 | `assign_tier(lbl, c)` only ever raises tiers, leaves `lbl` at c or above, keeps every tier equal to the length of some root walk, and leaves every edge out of a finished node pointing one or more tiers further |
| Tiers.RaiseKeeps | sankey_app.py:80-81 | raising `lbl` to c keeps every tier witnessed by a root walk, and leaves open only the edges out of the calls in progress |
| Tiers.AssignTiers | sankey_app.py:84-86 | after `assign_tier(root, 0)` for every root, exactly the nodes reachable from a root have a tier, and each tier is the node's longest-path distance from the roots |
| Tiers.ClosureBound | sankey_app.py:84-86 | once every root is tiered and every edge closed, each root walk ends at a tiered node whose tier is at least the walk's length minus one |
| Tiers.TierEdgeStep | sankey_app.py:80-83 | under a longest-path tiering, every edge out of a tiered node leads to a tiered node at least one tier further |
| Tiers.LongestPathEdge | sankey_app.py:80-83 | an edge's target has a longest-path tier above its source's |
| Tiers.LongestPathTierZero | sankey_app.py:84-86 | a node's longest-path tier is 0 iff it is a root |
| Tiers.TierZeroIffRoot | sankey_app.py:84-86 | under the computed tiering, every root has tier 0 and only roots have tier 0 |
| Tiers.LongestPathTieringIsAcyclic | sankey_app.py:79-83 | a longest-path tiering can exist only when no cycle is reachable from a root, so excluding such cycles loses no graph the relaxation can finish on |
| Tiers.MaxOf | sankey_app.py:87 | `max_tier` is one of the tiers and no tier exceeds it |
| Tiers.TierList | sankey_app.py:90 | the tier of each registry label, in registry order; `Diagrams.TierListLongest` shows these are the longest-path tiers |
| Diagrams.TierListLongest | sankey_app.py:87-90 | read off the computed tiering, the registry's tier list holds each label's longest-path tier |
| Diagrams.AllReachableSpec | sankey_app.py:78-87 | the recursive "all reachable" check holds iff every listed label is reachable from a root |
| Diagrams.AllReachableIffTiered | sankey_app.py:78-87 | when exactly the reachable nodes are tiered, all labels are reachable iff none is left at `None` |
| Layout.XPos | sankey_app.py:90 | a node's column: `tier/max_tier`, or 0.5 when `max_tier` is 0. `Layout.XBounds` and `Layout.XMonotone` state its range, its edge cases and its monotonicity |
| Layout.XPositions | sankey_app.py:90 | one x per label, the column of that label's tier; its range and order are stated by `Layout.XBounds` and `Layout.XMonotone` |
| Layout.XBounds | sankey_app.py:90 | x lies in [0, 1]; it is 0.5 when `max_tier` is 0; otherwise it is 0 iff the tier is 0 and 1 iff the tier is `max_tier` |
| Layout.XMonotone | sankey_app.py:90 | a higher tier sits strictly further right |
| Layout.IndicesAt | sankey_app.py:91-93 | the registry indices of one tier: all of them, in increasing order, each holding that tier |
| Layout.GroupByTier | sankey_app.py:91-93 | the `setdefault(...).append(i)` loop yields a map whose keys are the tiers that occur, each mapped to that tier's indices in order, with the keys in first-insertion order |
| Layout.GroupStep | sankey_app.py:93 | one `setdefault(...).append(i)` extends the grouping of the first i labels to the first i+1 |
| Layout.SetdefaultAppend | sankey_app.py:93 | the key is added if absent, `i` is appended to its list, and the other keys are unchanged |
| Layout.BandTop | sankey_app.py:97 | the top of a tier's band, `1 - t/(max_tier+1)`. `Layout.BandHeight` gives the band's height, and `Layout.BandsOrdered` shows that deeper tiers get lower bands |
| Layout.BandBottom | sankey_app.py:98 | the bottom of a tier's band, `1 - (t+1)/(max_tier+1)`; see `Layout.BandHeight` and `Layout.YInUnit` |
| Layout.Margin | sankey_app.py:102 | 5% of the band height, left free at each end; `Layout.BandHeight` shows it is positive |
| Layout.Step | sankey_app.py:103 | the spacing of several nodes in one band; `Layout.StepSpan` shows it is positive and that the steps span the band between the margins |
| Layout.YOf | sankey_app.py:99-105 | the y of the j-th of `count` nodes of a tier, with the single-node branch at the midpoint. `Layout.YPlacement`, `Layout.YIncreasing`, `Layout.YInBand` and `Layout.BandsOrdered` state where it lies |
| Layout.BandHeight | sankey_app.py:97-102 | each tier's band is 1/(max_tier+1) high and its margin is 5% of that, positive |
| Layout.StepSpan | sankey_app.py:102-103 | the step is positive, and count-1 steps span the band minus both margins |
| Layout.YPlacement | sankey_app.py:99-105 | a lone node sits at the band's midpoint; otherwise the first node sits one margin above the band's bottom, the last one margin below its top, and consecutive nodes are one step apart |
| Layout.YIncreasing | sankey_app.py:104-105 | within a band, a later slot is strictly higher |
| Layout.YInBand | sankey_app.py:97-105 | every node lies strictly inside its tier's band, and within the margins when the band holds several nodes |
| Layout.YInUnit | sankey_app.py:94-105 | every y lies in [0, 1] |
| Layout.BandsOrdered | sankey_app.py:97-105 | every node of a higher tier lies strictly below every node of a lower tier |
| Layout.PlaceTier | sankey_app.py:104-105 | writing one tier's slots into the `y` array sets each of its indices to its slot's height and leaves every other entry unchanged |
| Layout.PlacedAll | sankey_app.py:95-105 | once all groups are written, every label's y is its slot's height in its tier's band |
| Layout.VerticalPositions | sankey_app.py:94-105 | one y per label, and the j-th node of tier t gets slot j of t's band among that tier's nodes |
| Values.Inflow | sankey_app.py:112 | the sum of the values of the rows whose target is the label; `Values.InflowOfNonTarget` and `Values.InflowOfSingleEdge` state its values |
| Values.Outflow | sankey_app.py:112 | the sum of the values of the rows whose source is the label; `Values.RootValue` and `Values.SumOutflowsIsSourceSum` relate it to the node value and the tier-0 total |
| Values.NodeValue | sankey_app.py:112 | `inflow or outflow`: the inbound total, and the outbound total when that is zero. `Values.RootValue` and `Values.SingleInboundValue` state it for roots and for nodes with one inbound row |
| Values.InflowOfNonTarget | sankey_app.py:112 | a label that is no row's target has inbound total 0 |
| Values.RootValue | sankey_app.py:112 | a label that is never a target shows its outbound total |
| Values.InflowOfSingleEdge | sankey_app.py:112 | a label with exactly one inbound row has that row's value as its inbound total |
| Values.SingleInboundValue | sankey_app.py:112 | a label with exactly one inbound row of non-zero value shows that value |
| Values.Tier0Nodes | sankey_app.py:108 | a label is a tier-0 node iff it is tiered with tier 0; `Values.Tier0NodesAreRoots` shows that under the computed tiering these are exactly the roots |
| Values.SourceSum | sankey_app.py:109 | the `isin` filter and sum: the total of the rows whose source is in the set. `Values.SumOutflowsIsSourceSum` equates it with the sum of the nodes' outbound totals |
| Values.Tier0Sum | sankey_app.py:108-109 | `tier0_sum`, the source sum over the tier-0 nodes; `Values.Tier0NodesAreRoots` and `Values.RootSharesSumTo100` state what it totals |
| Values.Tier0NodesAreRoots | sankey_app.py:108-109 | under the computed tiering, the tier-0 nodes are exactly the roots |
| Values.SumOutflowsIsSourceSum | sankey_app.py:109 | summing each listed node's outbound total equals summing the values of the rows whose source is one of them |
| Values.SumOutflowsSnocEdge | sankey_app.py:109 | one more row adds its value to the sum of outbound totals exactly when its source is listed |
| Values.Share | sankey_app.py:116 | `val/tier0_sum*100`, a percentage of the total; `Values.ShareAdd`, `Values.ShareOfTotal` and `Values.RootSharesSumTo100` state how shares add up |
| Values.ShareAdd | sankey_app.py:116 | percentages of the same total add up |
| Values.ShareOfTotal | sankey_app.py:116 | the total is 100 percent of itself |
| Values.SumSharesOfRoots | sankey_app.py:112-116 | the roots' percentages add up to the percentage of their combined outbound total |
| Values.RootSharesSumTo100 | sankey_app.py:108-116 | when the tier-0 total is not zero, the roots' percentages sum to exactly 100 |
| Values.RoundHalfEven | sankey_app.py:114 | Python's `round` of the quotient: the nearest integer, and the even one on a tie. `Values.RoundedSpec` and `Values.RoundedOffset` state this |
| Values.Rounded | sankey_app.py:114 | `round(val/round_factor)*round_factor`; `Values.RoundedSpec` shows it is a nearest multiple of the factor |
| Values.RoundedSpec | sankey_app.py:114 | the rounded amount is a multiple of the factor, within half a factor of the value, and at least as close as any other multiple; on a tie the quotient is even |
| Values.RoundedOffset | sankey_app.py:114 | the rounding error is at most the distance down to the multiple below, and at most the distance up to the multiple above |
| Values.ShownValue | sankey_app.py:113-116 | the value part of a node's text: in Values mode the rounded node value, in Percentages mode its share of the tier-0 total, and `NotFinite` when that total is zero. `Values.RoundedSpec` and `Values.RootSharesSumTo100` state the properties of the two branches |
| Values.NodeDisplays | sankey_app.py:110-117 | one display per registry label, in order, each naming its label and showing its value in the chosen mode |
| Colors.NodeColors | sankey_app.py:120 | one colour per label, the i-th being palette entry i mod the palette's length; `Colors.NodeColorsCycle` states the cycling |
| Colors.NodeColorsCycle | sankey_app.py:120 | the first labels take the palette in order, and colours repeat with the palette's period |
| Colors.ParseInt16 | sankey_app.py:125 | `int(s, 16)`: surrounding spaces, tabs, newlines, carriage returns, vertical tabs and form feeds skipped, an optional sign, then one or more hex digits, and otherwise failure. `Colors.TwoHexDigits`, `Colors.LeadingJunkFails`, `Colors.StripLeftSpec` and `Colors.StripRightSpec` state its behaviour |
| Colors.LeadingJunkFails | sankey_app.py:125 | a two-character field whose first character is not whitespace, a sign or a hex digit fails to parse |
| Colors.SeparatorFails | sankey_app.py:123-125 | `\x1c` is not skipped as whitespace: the field `\x1c1` fails to parse, and so does the colour `#\x1c1ffff` |
| Colors.LStripHash | sankey_app.py:124 | `lstrip("#")`: every leading `#` removed; `Colors.HexColorComponents` uses it on `#rrggbb` colours |
| Colors.Slice | sankey_app.py:125 | Python slicing `s[i:j]` with the bounds clipped to the string; `Colors.SliceOfTwo` states the in-bounds case |
| Colors.ParseRgb | sankey_app.py:124-125 | the three `int(..., 16)` calls on the fields 0:2, 2:4 and 4:6, failing at the first field that does not parse. `Colors.HexColorComponents` and `Colors.HexColorRoundTrip` state its results |
| Colors.DecimalString | sankey_app.py:126 | `str(n)`; `Colors.DecimalRoundTrip` shows it reads back as n for every non-negative n |
| Colors.RgbaText | sankey_app.py:126 | the text `rgba(r,g,b,0.3)`; `Colors.HexColorRoundTrip` ties it to the colour it came from |
| Colors.StripLeftSpec | sankey_app.py:125 | stripping before parsing removes exactly a leading run of spaces, tabs, newlines, carriage returns, vertical tabs and form feeds, the characters `int()` skips |
| Colors.StripRightSpec | sankey_app.py:125 | stripping before parsing removes exactly a trailing run of spaces, tabs, newlines, carriage returns, vertical tabs and form feeds, the characters `int()` skips |
| Colors.TwoHexDigits | sankey_app.py:125 | two hex digits parse to 16 times the first plus the second, a byte |
| Colors.HexField | sankey_app.py:125 | a two-character slice made of hex digits parses to the byte those digits spell |
| Colors.SliceOfTwo | sankey_app.py:125 | a two-character slice inside the string is those two characters |
| Colors.HexToRgba | sankey_app.py:123-126 | conversion succeeds iff all three fields parse, and then gives the `rgba(r,g,b,0.3)` text of them; `Colors.HexColorComponents` and `Colors.HexColorRoundTrip` state its results |
| Colors.HexColorComponents | sankey_app.py:123-126 | a `#rrggbb` colour converts, each component being the byte its two digits spell |
| Colors.HexColorRoundTrip | sankey_app.py:123-126 | writing any three bytes as `#rrggbb` and converting gives back the same bytes and their `rgba` text |
| Colors.DecimalRoundTrip | sankey_app.py:126 | the decimal text of a non-negative number is non-empty, all digits, and reads back as that number |
| Colors.PalettesWellFormed | sankey_app.py:48-51 | every colour of the three offered palettes has the form `#rrggbb` |
| Colors.LinkColors | sankey_app.py:127 | conversion of the link colours succeeds iff every row's source colour converts, and then the k-th link colour is the conversion of row k's source node colour; `Diagrams.LinkColorOfSource` ties it to the palette |
| Diagrams.Depicts | sankey_app.py:74-140 | what a figure of the graph is: the registry, the longest-path tier of each label, x and y from those tiers, one display per label over the roots' total, the cycled palette, and per row its endpoint indices, value and source colour. `Sankey.CreateSankey` produces it, and `Diagrams.NodesInUnitSquare`, `Diagrams.LinksRunForward`, `Diagrams.TierColumnsStack`, `Diagrams.RootsOnLeftEdge` and `Diagrams.LinkColorOfSource` state its consequences |
| Diagrams.NodesInUnitSquare | sankey_app.py:90-105 | every node of a depiction lies in the unit square |
| Diagrams.PositionInTier | sankey_app.py:91-93 | every node has a slot in its tier's group |
| Diagrams.LinksRunForward | sankey_app.py:78-105 | every link goes from a lower tier to a higher one, from left to right and from a higher band to a lower one |
| Diagrams.TierColumnsStack | sankey_app.py:90-105 | two nodes of one tier share their x, and the one earlier in the registry sits lower |
| Diagrams.RootsOnLeftEdge | sankey_app.py:84-90 | when `max_tier` > 0, a node sits at x = 0 iff it is a root, and at x = 1 iff its tier is `max_tier` |
| Diagrams.LinkColorOfSource | sankey_app.py:120-127 | link k starts at row k's source, and its colour is the conversion of the palette colour at its source's index, cycling |
| Diagrams.OfferedPalettesConvert | sankey_app.py:48-51 | with any of the three offered palettes no colour conversion fails |
| Sankey.CreateSankey | sankey_app.py:70-140 | an empty table gives no figure; otherwise a label no root reaches is a tier failure; otherwise a source node's colour whose fields do not all parse is a colour failure; otherwise the figure depicts the graph |
| Sankey.Build | sankey_app.py:74-140 | the same for a non-empty table |
| Sankey.Tiering | sankey_app.py:78-87 | the computed tiers are the longest-path tiers of exactly the reachable nodes, and the completeness flag holds iff every label is reachable |
| Sankey.Draw | sankey_app.py:87-140 | with every label tiered, a colour failure iff some source colour does not convert, and otherwise a depiction |
| Sankey.Positions | sankey_app.py:87-105 | the tier list of the registry, and the x and y computed from it |
| Sankey.Place | sankey_app.py:87-105 | x and y as the column and band slot of each tier in the list |
| Sankey.Texts | sankey_app.py:107-117 | the node displays of the registry, with the tier-0 total equal to the sum of the roots' rows |
| Sankey.Links | sankey_app.py:119-140 | no link arrays iff some source colour does not convert; otherwise the cycled node colours and, per row, its source index, target index, value and link colour |
| Scenarios.TableValues | sankey_app.py:112 | for A feeding B (100) and C (200), and B feeding D (50): A shows 300, B 100 and D 50 |
| Scenarios.TableRoot | sankey_app.py:84 | in that table, A is the only root |
| Scenarios.TableTiering | sankey_app.py:78-86 | in that table, the longest-path tiers are A 0, B 1, C 1 and D 2 |
| Scenarios.TableTotal | sankey_app.py:108-109 | in that table, `tier0_sum` is 300 |
| Scenarios.TableShown | sankey_app.py:113-116 | with that total, D shows 50/3 percent, and at factor 100 B shows 100 |
| Scenarios.TableColumns | sankey_app.py:90 | with those tiers, the columns are 0, 0.5, 0.5 and 1 |
| Scenarios.SmallValueRoundsAway | sankey_app.py:112-114 | for the single row X→Y of value 10, Y shows 0 at factor 100 |
| Scenarios.SingleRootTotal | sankey_app.py:108-109 | with a single root, `tier0_sum` is the total of the rows leaving it |

## Left out

- The Streamlit interface is not part of this model: the editable table,
  the options widgets, the download button and the rendering of the
  figure.
- The data editor (`st.data_editor` over the default table) and
  `dropna` are not modelled. The model takes the cleaned table: every row
  has a source, a target and a value.
- The plotly figure and its styling are not modelled: fonts, `pad`,
  `thickness`, hover templates, arrangement and title. The model stops at
  the arrays handed to it.
- Plotly's own checks of the node and link colours are not modelled.
  `Figure` means the arrays handed to `go.Sankey`, not a figure plotly
  accepts: a malformed palette entry on a target-only node, or a link
  colour such as `rgba(-1,-2,-3,0.3)`, is handed over without any check
  made by the model. This does not affect the offered palettes. Their
  entries are `#rrggbb` colours (`Colors.PalettesWellFormed`), and each
  of those converts to components of one byte each
  (`Colors.HexColorComponents`, `Colors.TwoHexDigits`).
- Text formatting of node labels is not modelled: the unit suffix, the
  thousands separators, the `percent_format` decimals and the
  `label\n(value)` layout. `Shown` carries the exact value that would be
  formatted, and `DisplayMode.ShowPercentages` keeps the decimals only as
  data.
- Values are integers and positions are exact reals. Floating-point
  rounding of `tiers[lbl]/max_tier`, of the band arithmetic and of the
  percentages is not modelled.
- Values.Rounded: the model rounds the exact quotient `val/round_factor`
  half to even, whereas Python rounds the floating-point quotient. The
  two can differ when the quotient is not exactly representable.
- `NotFinite` stands for both `inf` and `nan`. The model does not say
  which one numpy would give.
- Graphs with a cycle reachable from a root are excluded by
  `AcyclicFromRoots`. On them the code recurses until `RecursionError`;
  the model does not capture that exception or the recursion limit.
  `Tiers.LongestPathTieringIsAcyclic` shows that no longest-path tiering
  exists for such graphs.
- Python's recursion limit is not modelled for acyclic graphs either. A
  root walk of roughly a thousand nodes makes `assign_tier` raise
  `RecursionError`, while `Sankey.CreateSankey` returns a figure.
- The wrap-around of numpy's 64-bit integer sums is not modelled.
  `Inflow`, `Outflow`, `SourceSum` and the other sums are unbounded
  integers, so they differ from the code once a total passes 2^63 - 1.
- The recursion's running time is not modelled. `assign_tier` revisits
  children each time a tier is raised, which can take exponential time.
- Colors.ParseInt16: whitespace outside the ASCII range (such as
  `\x85`, `\xa0` or `\u2003`) and non-ASCII digits are not modelled;
  `int()` accepts both. The ASCII separators `\x1c` to `\x1f` are
  rejected, as `int()` rejects them.
  For the two-character fields that `hex_to_rgba` cuts out, the `0x`
  prefix and `_` separators cannot occur validly.
- A palette must be non-empty, and a rounding factor positive. These are
  requires; the offered options always meet them. On an empty palette the
  code would raise `ZeroDivisionError` (from `i % 0`), and that case is not
  modelled.
- `Failure` records only which exception the code raises, not its
  message.
- `Diagram.tiers` is not handed to the figure. The diagram keeps it so
  that properties about positions can be stated.
- Tiers.AssignTier: its ghost `stack` and `wit` parameters are proof
  bookkeeping, not state of `create_sankey`.
