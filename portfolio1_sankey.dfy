/** The Sankey view of the first portfolio page: fifteen rows per age-bucket
    file, group `i` coloured `schemeCategory10[i % 10]`, and emphasis levels
    1 / 0.5 / 0.1. */
module Portfolio1Sankey {
  import opened Wrappers
  import opened Sequences
  import opened SankeyGraph
  import opened LinkGroups
  import opened SankeyColours

  /** `parsedData.slice(0, 15)`. */
  const RowsPerFile: nat := 15

  /** Widths of the nine fixed links, in the order of `FixedEdges`. */
  const FixedValues: seq<real> := [15.29, 10.18, 10.79, 14.62, 21.87, 33.29, 43.93, 31.12, 18.91]

  /** `loadData` of this view. The five files are given as the `항목` column
      of their parsed rows. */
  method LoadData(files: seq<seq<string>>) returns (nodes: seq<Node>, links: seq<Link>)
    requires |files| == FileCount
    ensures forall i :: 0 <= i < |nodes| ==> nodes[i].id == i
    ensures Names(nodes) == Dedup(FixedNames + NamesOf(TakenRows(files, RowsPerFile)))
    ensures |links| == |FixedEdges| + |TakenRows(files, RowsPerFile)| == |FixedEdges| + TakenCount(files, RowsPerFile)
    ensures forall p :: 0 <= p < |TakenRows(files, RowsPerFile)| ==>
              AddedLink(links[|FixedEdges| + p], TakenRows(files, RowsPerFile)[p], nodes, RowsPerFile)
    ensures Distinct(Names(nodes))
    ensures |FixedNames| <= |nodes| && Names(nodes)[..|FixedNames|] == FixedNames
    ensures forall t :: t in TakenRows(files, RowsPerFile) ==> t.name in Names(nodes)
    ensures forall i :: 0 <= i < |nodes| ==> Names(nodes)[i] in FixedNames + NamesOf(TakenRows(files, RowsPerFile))
    ensures links[..|FixedEdges|] == FixedLinks(FixedValues)
    ensures forall i :: 0 <= i < |links| ==> links[i].source < |nodes| && links[i].target < |nodes|
    ensures forall i :: |FixedEdges| <= i < |links| ==>
              links[i].source < FileCount && 1.0 <= links[i].value <= RowsPerFile as real
    ensures forall i, j :: |FixedEdges| <= i < j < |links| && links[i].source == links[j].source ==>
              links[i].value > links[j].value
    ensures forall b :: 0 <= b < FileCount && |files[b]| > 0 ==> Leaves(links, b)
  {
    nodes, links := SankeyGraph.LoadData(RowsPerFile, FixedValues, files);
    LoadedFacts(RowsPerFile, FixedValues, files, nodes, links);
  }

  /** `d3.schemeCategory10`: #1f77b4, #ff7f0e, #2ca02c, #d62728, #9467bd,
      #8c564b, #e377c2, #7f7f7f, #bcbd22, #17becf. */
  const Category10: seq<Rgb> := [
    Rgb(31.0, 119.0, 180.0), Rgb(255.0, 127.0, 14.0), Rgb(44.0, 160.0, 44.0),
    Rgb(214.0, 39.0, 40.0), Rgb(148.0, 103.0, 189.0), Rgb(140.0, 86.0, 75.0),
    Rgb(227.0, 119.0, 194.0), Rgb(127.0, 127.0, 127.0), Rgb(188.0, 189.0, 34.0),
    Rgb(23.0, 190.0, 207.0)]

  lemma Category10Facts()
    ensures |Category10| == 10 && Distinct(Category10)
    ensures forall k :: 0 <= k < 10 ==> Within(Category10[k], 0.0, 255.0)
  {
  }

  /** `groupColorMap` after `linkGroups.forEach((group, i) => groupColorMap[i] = ...)`
      over `groupCount` groups: keys `0 .. groupCount - 1` only. */
  function Palette(groupCount: nat): nat -> Option<Rgb> {
    g => if g < groupCount then Some(Category10[g % 10]) else None
  }

  /** Every group has a colour; colours repeat every ten groups and differ
      between groups less than ten apart. */
  lemma PaletteCycles(groupCount: nat, g: nat, h: nat)
    requires g < groupCount && h < groupCount
    ensures Palette(groupCount)(g).Some? && Within(Palette(groupCount)(g).value, 0.0, 255.0)
    ensures Palette(groupCount)(g) == Palette(groupCount)(h) <==> g % 10 == h % 10
  {
    Category10Facts();
  }

  /** The `fill` of node `id`. */
  function Fill(links: seq<Link>, groups: seq<nat>, lg: seq<seq<nat>>, id: nat): Fill
    requires ValidGroups(links, lg) && |groups| == |links|
    requires forall g :: 0 <= g < |lg| ==> |lg[g]| > 0
  {
    NodeFill(links, groups, lg, id, Palette(|lg|))
  }

  /** Every node is grey exactly when no link touches it, and painted with a
      valid colour otherwise: this palette never leaves a fill unset. */
  lemma FillIsDefined(links: seq<Link>, groups: seq<nat>, lg: seq<seq<nat>>, id: nat)
    requires Grouped(links, groups, lg)
    ensures var f := Fill(links, groups, lg, id);
      && (f == Grey || (f.Paint? && Within(f.c, 0.0, 255.0)))
      && (f == Grey <==> forall i :: 0 <= i < |links| ==> !Touches(links[i], id))
  {
    Category10Facts();
    GreyIffUntouched(links, groups, lg, id, Palette(|lg|));
    PaintedWithin(links, groups, lg, id, Palette(|lg|), 0.0, 255.0);
  }

  /** `stroke` of link `i`: `groupColorMap[d.group]`, always a colour. */
  function LinkStroke(groups: seq<nat>, lg: seq<seq<nat>>, i: nat): (c: Option<Rgb>)
    requires i < |groups| && groups[i] < |lg|
    ensures c == Some(Category10[groups[i] % 10])
  {
    Palette(|lg|)(groups[i])
  }

  /** `highlightGroup`'s levels. */
  const Levels: Emphasis := Emphasis(1.0, 0.5, 0.1)

  /** Hovering link `j` highlights its own group (`linkGroups[d.group]`):
      exactly the links connected to `j` are lit, and exactly the nodes they
      touch. */
  lemma HoverLink(links: seq<Link>, groups: seq<nat>, lg: seq<seq<nat>>, j: nat, i: nat, id: nat,
                  highlight: bool)
    requires Grouped(links, groups, lg) && j < |links| && i < |links|
    requires forall a, b :: 0 <= a < |links| && 0 <= b < |links| ==>
               (groups[a] == groups[b] <==> Connected(links, a, b))
    ensures var on := if highlight then 1.0 else 0.5;
      && LinkOpacity(Levels, groups, lg[groups[j]], i, highlight) == (if Connected(links, i, j) then on else 0.1)
      && (NodeOpacity(Levels, links, lg[groups[j]], id, highlight) == on <==>
          exists a :: 0 <= a < |links| && Connected(links, a, j) && Touches(links[a], id))
  {
    var g := groups[j];
    LinkOpacityByGroup(Levels, links, groups, lg, g, i, highlight);
    assert i in lg[g] <==> groups[i] == g;
    if exists a :: 0 <= a < |links| && Connected(links, a, j) && Touches(links[a], id) {
      var a :| 0 <= a < |links| && Connected(links, a, j) && Touches(links[a], id);
      var k :| 0 <= k < |lg[g]| && lg[g][k] == a;
      assert Touches(links[lg[g][k]], id);
    }
  }

  /** Hovering a node highlights the first group touching it. */
  lemma HoverNode(links: seq<Link>, groups: seq<nat>, lg: seq<seq<nat>>, id: nat, i: nat)
    requires Grouped(links, groups, lg) && i < |links|
    requires FindTouching(links, lg, id, 0).Some?
    ensures var g := FindTouching(links, lg, id, 0).value;
      && g < |lg| && GroupTouches(links, lg[g], id)
      && LinkOpacity(Levels, groups, lg[g], i, true) == (if i in lg[g] then 1.0 else 0.1)
      && forall n :: NodeOpacity(Levels, links, lg[g], n, true) ==
           if exists a :: 0 <= a < |links| && groups[a] == g && Touches(links[a], n) then 1.0 else 0.1
  {
    var g := FindTouching(links, lg, id, 0).value;
    FindIsFirstOfFilter(links, lg, id, 0);
    LinkOpacityByGroup(Levels, links, groups, lg, g, i, true);
    forall n
      ensures NodeOpacity(Levels, links, lg[g], n, true) ==
              if exists a :: 0 <= a < |links| && groups[a] == g && Touches(links[a], n) then 1.0 else 0.1
    {
      GroupTouchesByIds(links, groups, lg, g, n);
    }
  }
}
