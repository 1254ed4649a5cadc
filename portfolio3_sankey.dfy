/** The Sankey view of the third portfolio page: twelve rows per age-bucket
    file, a fixed five-colour palette that has no colour for a sixth group,
    and emphasis levels 1 / 0.8 / 0.3. */
module Portfolio3Sankey {
  import opened Wrappers
  import opened Sequences
  import opened SankeyGraph
  import opened LinkGroups
  import opened SankeyColours

  /** `parsedData.slice(0, 12)`. */
  const RowsPerFile: nat := 12

  /** Widths of the nine fixed links, in the order of `FixedEdges`. */
  const FixedValues: seq<real> := [30.58, 20.36, 21.58, 29.24, 43.74, 66.58, 87.86, 62.24, 37.82]

  /** `loadData` of this view. The five files are given as the `항목` column
      of their parsed rows. */
  method LoadData(files: seq<seq<string>>) returns (nodes: seq<Node>, links: seq<Link>)
    requires |files| == FileCount
    ensures forall i :: 0 <= i < |nodes| ==> nodes[i].id == i
    ensures Names(nodes) == Dedup(FixedNames + NamesOf(TakenRows(files, RowsPerFile)))
    ensures |links| == |FixedEdges| + |TakenRows(files, RowsPerFile)| == |FixedEdges| + TakenCount(files, RowsPerFile)
    ensures forall p :: 0 <= p < |TakenRows(files, RowsPerFile)| ==>
              AddedLink(links[|FixedEdges| + p], TakenRows(files, RowsPerFile)[p], nodes, RowsPerFile)
    ensures Distinct(Names(nodes))
    ensures |FixedNames| <= |nodes| && Names(nodes)[..|FixedNames|] == FixedNames
    ensures forall t :: t in TakenRows(files, RowsPerFile) ==> t.name in Names(nodes)
    ensures forall i :: 0 <= i < |nodes| ==> Names(nodes)[i] in FixedNames + NamesOf(TakenRows(files, RowsPerFile))
    ensures links[..|FixedEdges|] == FixedLinks(FixedValues)
    ensures forall i :: 0 <= i < |links| ==> links[i].source < |nodes| && links[i].target < |nodes|
    ensures forall i :: |FixedEdges| <= i < |links| ==>
              links[i].source < FileCount && 1.0 <= links[i].value <= RowsPerFile as real
    ensures forall i, j :: |FixedEdges| <= i < j < |links| && links[i].source == links[j].source ==>
              links[i].value > links[j].value
    ensures forall b :: 0 <= b < FileCount && |files[b]| > 0 ==> Leaves(links, b)
  {
    nodes, links := SankeyGraph.LoadData(RowsPerFile, FixedValues, files);
    LoadedFacts(RowsPerFile, FixedValues, files, nodes, links);
  }

  /** `groupColorMap`: #f39821, #d9b643, #f5f1b3, #bbcee2, #4f7bbf for groups
      0 to 4, and nothing for any later group. */
  function Palette(g: nat): (c: Option<Rgb>)
    ensures c.Some? <==> g < 5
    ensures c.Some? ==> Within(c.value, 0.0, 255.0)
  {
    if g == 0 then Some(Rgb(243.0, 152.0, 33.0))
    else if g == 1 then Some(Rgb(217.0, 182.0, 67.0))
    else if g == 2 then Some(Rgb(245.0, 241.0, 179.0))
    else if g == 3 then Some(Rgb(187.0, 206.0, 226.0))
    else if g == 4 then Some(Rgb(79.0, 123.0, 191.0))
    else None
  }

  /** The `fill` of node `id`. */
  function Fill(links: seq<Link>, groups: seq<nat>, lg: seq<seq<nat>>, id: nat): Fill
    requires ValidGroups(links, lg) && |groups| == |links|
    requires forall g :: 0 <= g < |lg| ==> |lg[g]| > 0
  {
    NodeFill(links, groups, lg, id, Palette)
  }

  /** With at most five groups every node is grey or painted with a valid
      colour; grey exactly when no link touches it. */
  lemma FillWithFewGroups(links: seq<Link>, groups: seq<nat>, lg: seq<seq<nat>>, id: nat)
    requires Grouped(links, groups, lg) && |lg| <= 5
    ensures var f := Fill(links, groups, lg, id);
      && (f == Grey || (f.Paint? && Within(f.c, 0.0, 255.0)))
      && (f == Grey <==> forall i :: 0 <= i < |links| ==> !Touches(links[i], id))
  {
    GreyIffUntouched(links, groups, lg, id, Palette);
    PaintedWithin(links, groups, lg, id, Palette, 0.0, 255.0);
  }

  /** A node touched by a sixth (or later) group is left without a fill when
      that is its only group, and makes the fill callback throw otherwise. */
  lemma FillBeyondPalette(links: seq<Link>, groups: seq<nat>, lg: seq<seq<nat>>, id: nat, g: nat)
    requires Grouped(links, groups, lg) && 5 <= g < |lg| && GroupTouches(links, lg[g], id)
    ensures Fill(links, groups, lg, id) ==
            if |TouchingGroups(links, lg, id, |lg|)| == 1 then NoFill else Throws
  {
    MissingColour(links, groups, lg, id, Palette, g);
  }

  /** `stroke` of link `i`: `groupColorMap[d.group]`. */
  function LinkStroke(groups: seq<nat>, i: nat): (c: Option<Rgb>)
    requires i < |groups|
    ensures c.Some? <==> groups[i] < 5
  {
    Palette(groups[i])
  }

  /** `highlightGroup`'s levels. */
  const Levels: Emphasis := Emphasis(1.0, 0.8, 0.3)

  /** Hovering a node highlights the first group touching it; its links are
      lit, all other links fade to 0.3. */
  lemma HoverNode(links: seq<Link>, groups: seq<nat>, lg: seq<seq<nat>>, id: nat, i: nat)
    requires Grouped(links, groups, lg) && i < |links|
    requires FindTouching(links, lg, id, 0).Some?
    ensures var g := FindTouching(links, lg, id, 0).value;
      && g < |lg| && GroupTouches(links, lg[g], id)
      && LinkOpacity(Levels, groups, lg[g], i, true) == (if i in lg[g] then 1.0 else 0.3)
      && forall n :: NodeOpacity(Levels, links, lg[g], n, true) ==
           if exists a :: 0 <= a < |links| && groups[a] == g && Touches(links[a], n) then 1.0 else 0.3
  {
    var g := FindTouching(links, lg, id, 0).value;
    FindIsFirstOfFilter(links, lg, id, 0);
    LinkOpacityByGroup(Levels, links, groups, lg, g, i, true);
    forall n
      ensures NodeOpacity(Levels, links, lg[g], n, true) ==
              if exists a :: 0 <= a < |links| && groups[a] == g && Touches(links[a], n) then 1.0 else 0.3
    {
      GroupTouchesByIds(links, groups, lg, g, n);
    }
  }

  /** The drawing effect after loading, in a run where the layout returns
      (it throws on a cycle of links): the links are grouped and every node
      filled. When every file has at least one row, each group holds the fixed
      link into some bucket, so there are at most five groups, the palette
      covers them all, and every node is grey exactly when untouched and
      otherwise painted with a valid colour. */
  method Draw(files: seq<seq<string>>) returns (nodes: seq<Node>, links: seq<Link>,
                                                groups: seq<nat>, linkGroups: seq<seq<nat>>)
    requires |files| == FileCount
    ensures |nodes| > 0 && |links| > 0
    ensures Grouped(links, groups, linkGroups)
    ensures (forall f :: 0 <= f < FileCount ==> |files[f]| > 0) ==> |linkGroups| <= 5
    ensures (forall f :: 0 <= f < FileCount ==> |files[f]| > 0) ==>
              forall id :: var fill := Fill(links, groups, linkGroups, id);
                && (fill == Grey || (fill.Paint? && Within(fill.c, 0.0, 255.0)))
                && (fill == Grey <==> forall i :: 0 <= i < |links| ==> !Touches(links[i], id))
  {
    nodes, links := LoadData(files);
    groups, linkGroups := AssignGroups(links);
    if forall f :: 0 <= f < FileCount ==> |files[f]| > 0 {
      AtMostOneGroupPerBucket(links, FixedValues, groups, linkGroups);
      forall id
        ensures var fill := Fill(links, groups, linkGroups, id);
          && (fill == Grey || (fill.Paint? && Within(fill.c, 0.0, 255.0)))
          && (fill == Grey <==> forall i :: 0 <= i < |links| ==> !Touches(links[i], id))
      {
        FillWithFewGroups(links, groups, linkGroups, id);
      }
    }
  }
}
