# HealthAccessViz data transforms in Dafny

HealthAccessViz is a React/d3 site that visualises Korean health-care data.
Almost all of it is drawing. This project models the small data transforms
under the drawing and proves what they compute:

- **The two age-bucket Sankey views** (portfolio 3 and portfolio 1).
  - `loadData` builds the node and link lists. It starts from fourteen fixed
    nodes and nine fixed links, then adds one link per row for the first 12
    (or 15) rows of each of five files. A name gets a new node only when no
    node has that name yet.
  - `assignGroup` flood-fills link groups. Two links are joined only
    head-to-tail, and the groups are the connected components of that
    relation.
  - Node colouring: grey when untouched, the group colour for one group, and
    `mixColors` (a left fold of pairwise averages) for several groups.
  - Hover emphasis through `highlightGroup`.
  - In portfolio 3, when every file has at least one row, each group holds
    the fixed link into some bucket. So there are at most five groups, and
    the five-colour palette covers every node. With an empty file, the fixed
    links into that bucket are joined only through its added links. They can
    then form groups of their own, and `FillBeyondPalette` states what a
    sixth group does to the fill.
- **`processData`** of the age-group Sankey diagram. It de-duplicates
  disease nodes and "age group - disease" nodes through one `nodeMap`,
  pushes one link per item, and runs a dangling-endpoint check that never
  fires.
- **`parseCSV`**: trim, split into lines, split the header and each line at
  commas, and build header-keyed row objects.
- **The rank-change list**: the previous-rank map, the change, its arrow,
  colour and class, the 1-based label, and where an entering row starts.
- **The disease selector**: unique diseases, case-insensitive search,
  checkbox toggling, and the departments of the selected diseases. It is a
  class whose methods update the component's state.

Modules:

| Module | Holds |
|---|---|
| `Wrappers`, `Sequences`, `Text` | shared definitions and the JavaScript string operations used |
| `SankeyGraph` | `loadData` with the row count and the fixed widths as parameters |
| `LinkGroups` | the grouping |
| `SankeyColours` | colour mixing, node fill and emphasis, with the palette as a parameter |
| `Portfolio3Sankey`, `Portfolio1Sankey` | the constants, palettes and emphasis levels of each view |
| `SankeyDiagram` | `processData` |
| `CsvData` | `parseCSV` |
| `RankChange` | the rank-change list |
| `DiseaseSelection` | the disease selector |

Modelling choices:

- **Inputs.** File contents, fetched rows and CSV text are inputs.
- **Colours.** Colours are RGB triples of reals. A palette is a function
  from a group id to an optional colour, which models a missing key.
- **Numbers.** JavaScript numbers are `real` (link widths, colour channels)
  or `int` (ranks, parsed totals).
- **`NaN`.** A `parseInt` that finds no digit, or a lookup of a missing
  previous rank, is `None`.
- **Node fill.** The fill callback returns a `Fill` value:
  - `Grey`;
  - `Paint(colour)`;
  - `NoFill`, when the palette lacks the key and the attribute stays unset;
  - `Throws`, when `mixColors` meets a missing colour and `d3.color(undefined)`
    is null.
- **Group field.** The `group` field that `assignGroup` writes into each
  link object is a sequence indexed by link position, with -1 for
  `undefined`.

## Model

| member | source | states |
|---|---|---|
| Sequences.Dedup | src/components/portfolio2/DiseaseSelector.jsx:15 | the de-duplicated list is free of repeats, keeps every input element and adds none |
| Sequences.DedupFirstOccurrenceOrder | src/components/portfolio2/DiseaseSelector.jsx:15 | the survivors of `new Set` keep the order of their first occurrences in the input |
| Sequences.FirstIndex | src/components/portfolio1/RankChangeChart.jsx:64 | `findIndex` returns a position holding the element, with no earlier occurrence |
| Sequences.LastIndex | src/components/portfolio1/RankChangeChart.jsx:23-26 | the last position holding the element: no later occurrence |
| Text.TrimStart | src/components/portfolio1/Data.jsx:10 | the result is a suffix; everything dropped is whitespace; it does not start with whitespace |
| Text.TrimEnd | src/components/portfolio1/Data.jsx:10 | the result is a prefix; everything dropped is whitespace; it does not end with whitespace |
| Text.TrimShape | src/components/portfolio1/Data.jsx:10 | `trim` leaves an infix with non-whitespace ends, cutting only whitespace on both sides; trimming again changes nothing |
| Text.Split | src/components/portfolio1/Data.jsx:12 | `split` gives at least one piece and no piece contains the separator |
| Text.SplitThenJoin | src/components/portfolio1/Data.jsx:12 | joining the pieces with the separator gives back the string: splitting loses nothing |
| Text.JoinThenSplit | src/components/portfolio1/Data.jsx:15 | pieces without the separator, joined and split again, come back unchanged |
| Text.SplitCount | src/components/portfolio1/Data.jsx:10 | there is exactly one more piece than there are separators |
| Text.ToLowerProperties | src/components/portfolio2/DiseaseSelector.jsx:30 | lowering keeps the length, is idempotent, changes only A-Z and leaves no A-Z |
| Text.IncludesEmpty | src/components/portfolio2/DiseaseSelector.jsx:30 | every string includes the empty string |
| Text.Decimal | src/components/portfolio1/RankChangeChart.jsx:60 | `${n}` is a non-empty run of digits with no leading zero unless n is 0 |
| Text.DecimalValue | src/components/portfolio1/RankChangeChart.jsx:77 | the rendered digits have the value n |
| Text.DigitPrefix | src/components/portfolio1/SankeyDiagram.jsx:24 | the longest run of leading digits, stopped by a non-digit or the end |
| Text.ParseIntOfDecimal | src/components/portfolio1/SankeyDiagram.jsx:24 | `parseInt` reads a rendered number back and stops at the first non-digit |
| SankeyGraph.TakenRowsShape | src/components/portfolio3/Sankey.jsx:55 | the rows taken are the first min(k, rows) of each file, file after file and row after row, and there are TakenCount of them |
| SankeyGraph.FindByName | src/components/portfolio3/Sankey.jsx:56 | `nodes.find` finds nothing exactly when no node has the name, and otherwise the first node that has it |
| SankeyGraph.AddRow | src/components/portfolio3/Sankey.jsx:56-64 | one row keeps the loading invariant: ids equal positions, names are the de-duplicated names so far, and one more link goes from bucket `f` to the node named by the row with value k - index |
| SankeyGraph.LoadFile | src/components/portfolio3/Sankey.jsx:55-65 | one file adds its first min(k, rows) rows, in order, to the loading invariant |
| SankeyGraph.LoadData | src/components/portfolio3/Sankey.jsx:22-69 | ids equal positions; node names are the de-duplication of the fixed names followed by the taken names; links are the fixed links followed by one link per taken row, from its file's bucket to the node with its name, valued k - index |
| SankeyGraph.FixedEdgesShape | src/components/portfolio1/Sankey.jsx:39-49 | the nine fixed links run from the age-range nodes 5..13, in order, into the bucket nodes 0..4 |
| SankeyGraph.FixedNodesFirst | src/components/portfolio3/Sankey.jsx:23-38 | the fourteen fixed nodes stay first and unchanged whatever the files hold |
| SankeyGraph.TakenNamesHaveNodes | src/components/portfolio3/Sankey.jsx:56-63 | every taken row's name has a node |
| SankeyGraph.LoadedEndpoints | src/components/portfolio3/Sankey.jsx:40-63 | every fixed and added link joins two existing nodes; an added link leaves the bucket of its file |
| SankeyGraph.TakenRowOfFile | src/components/portfolio3/Sankey.jsx:52-66 | with k > 0, a file with at least one row contributes a taken row |
| SankeyGraph.LoadedBuckets | src/components/portfolio3/Sankey.jsx:52-66 | with k > 0, every file with at least one row has an added link leaving its bucket |
| SankeyGraph.LoadedValues | src/components/portfolio3/Sankey.jsx:59-63 | added link values lie in [1, k] |
| SankeyGraph.LoadedValuesDecrease | src/components/portfolio3/Sankey.jsx:55-65 | among the added links of one bucket, later links have strictly smaller values |
| Portfolio3Sankey.LoadData | src/components/portfolio3/Sankey.jsx:22-69 | with K = 12 and this view's fixed widths: ids are positions; node names are the de-duplication of the fixed names followed by the taken names; the links are the fixed links followed by, for each taken row in order, a link from its file's bucket to the node with its name, valued 12 - index; hence names are distinct; fixed names first; every taken name has a node and every node name comes from the fixed names or the rows; 9 + TakenCount links, the fixed ones first; endpoints exist; added links start at bucket 0..4 with value in [1, 12], strictly decreasing per bucket; every bucket whose file has a row has an added link leaving it |
| Portfolio1Sankey.LoadData | src/components/portfolio1/Sankey.jsx:21-70 | the same facts with K = 15 and this view's fixed widths: names are `Dedup(fixed + taken)`, and each taken row gives a link from its file's bucket to the node with its name, valued 15 - index |
| SankeyGraph.LoadedFacts | src/components/portfolio3/Sankey.jsx:22-69 | for any row count k > 0 and fixed widths, the load result has distinct names with the fixed ones first, a node for every taken name and only for fixed or taken names, existing endpoints, added values in [1, k] decreasing within a bucket, and a link leaving every bucket whose file has a row |
| LinkGroups.JoinsSymmetric | src/components/portfolio3/Sankey.jsx:145 | the push condition of the flood fill is symmetric |
| LinkGroups.SharedEndpointIsNotEnough | src/components/portfolio3/Sankey.jsx:145 | two links sharing only a target, or only a source, are not joined directly |
| LinkGroups.ConnectedSymmetric | src/components/portfolio3/Sankey.jsx:144-147 | reachability through joined links is symmetric |
| LinkGroups.ConnectedTransitive | src/components/portfolio3/Sankey.jsx:144-147 | reachability through joined links is transitive |
| LinkGroups.Pushed | src/components/portfolio3/Sankey.jsx:144-148 | the pushes of one scan: exactly the links joined to the current link that have no group, in increasing index order |
| LinkGroups.PushNeighbours | src/components/portfolio3/Sankey.jsx:144-148 | the old stack is kept, and what follows it is exactly `Pushed` over all links: every ungrouped link joined to the current one, each once, in index order, each reachable from the seed |
| LinkGroups.AssignGroup | src/components/portfolio3/Sankey.jsx:134-151 | the fill gives the new id to the seed and only to ungrouped links, leaves earlier groups alone, appends one group headed by the seed, and leaves no link of the new group joined to an ungrouped one |
| LinkGroups.GroupsAreComponents | src/components/portfolio3/Sankey.jsx:131-157 | once every link has a group, two links share a group exactly when they are connected |
| LinkGroups.SettledGroups | src/components/portfolio3/Sankey.jsx:131-157 | the finished scan lists each link in its own group, the groups are the components, and each group's first link has no ungrouped link before it |
| LinkGroups.AssignGroups | src/components/portfolio3/Sankey.jsx:131-157 | every link gets one group id below the group count and is listed in that group; groups are non-empty and without repeats; listed links carry their group's id; same id exactly when connected; ids are issued in order of the scan |
| LinkGroups.ConnectedToAnchor | src/components/portfolio3/Sankey.jsx:40-63 | when a link leaves every bucket, each link is connected to the fixed link into its bucket: an added link starts where that fixed link ends, and a fixed link reaches it through an added link of its bucket |
| LinkGroups.AtMostOneGroupPerBucket | src/components/portfolio3/Sankey.jsx:131-157 | when a link leaves every bucket, the grouping of the loaded links has at most five groups |
| SankeyColours.MixPerChannel | src/components/portfolio3/Sankey.jsx:161-169 | `mixColors` works channel by channel, as the same fold on each channel |
| SankeyColours.FoldIsWeighted | src/components/portfolio3/Sankey.jsx:167 | the fold equals a weighted sum: of n colours the last weighs 1/2, the k-th 1/2^(n-k), the first two 1/2^(n-1) |
| SankeyColours.MixOfSame | src/components/portfolio3/Sankey.jsx:167 | mixing copies of one colour gives that colour |
| SankeyColours.MixWithin | src/components/portfolio3/Sankey.jsx:167 | the mix stays within the channel range of its inputs |
| SankeyColours.MixIsNotTheMean | src/components/portfolio3/Sankey.jsx:167 | black, black, white mixes to 127.5 but white, black, black to 63.75: not the mean, and order matters |
| SankeyColours.TouchingGroups | src/components/portfolio3/Sankey.jsx:213 | the filter lists, in increasing order, exactly the groups with a link touching the node |
| SankeyColours.FindIsFirstOfFilter | src/components/portfolio3/Sankey.jsx:225 | `linkGroups.find` returns the first group of the fill's filtered list, or nothing when the list is empty |
| SankeyColours.ColourKeysAreGroups | src/components/portfolio3/Sankey.jsx:215 | after grouping, `g.links[0].group` of each touching group is the group's own index |
| SankeyColours.GreyIffUntouched | src/components/portfolio3/Sankey.jsx:212-222 | a node is grey exactly when no link touches it, whatever the palette |
| SankeyColours.PaintedWhenPaletteComplete | src/components/portfolio3/Sankey.jsx:212-222 | with a colour for every group, one touching group paints its colour and several paint the mix of their colours in group order |
| SankeyColours.PaintedWithin | src/components/portfolio3/Sankey.jsx:212-222 | with a complete palette within a channel range, every fill is grey or a colour within that range |
| SankeyColours.MissingColour | src/components/portfolio3/Sankey.jsx:212-222 | a touching group without a palette entry leaves the fill unset if it is the only group, and makes the callback throw otherwise |
| SankeyColours.GroupTouchesByIds | src/components/portfolio3/Sankey.jsx:186-188 | after grouping, `group.links.some(touches)` holds for group g exactly when some link carrying id g touches the node |
| SankeyColours.LinkOpacityByGroup | src/components/portfolio3/Sankey.jsx:186-191 | highlighting group g gives exactly g's links the on or dim level and every other link the rest level |
| Portfolio3Sankey.Palette | src/components/portfolio3/Sankey.jsx:159 | groups 0 to 4 have a colour, all within 0..255, and no later group has one |
| Portfolio3Sankey.FillWithFewGroups | src/components/portfolio3/Sankey.jsx:212-222 | with at most five groups every node is grey or painted within 0..255, grey exactly when untouched |
| Portfolio3Sankey.FillBeyondPalette | src/components/portfolio3/Sankey.jsx:212-222 | a node touched by a group numbered 5 or more has no fill if that is its only group, and throws otherwise |
| Portfolio3Sankey.Draw | src/components/portfolio3/Sankey.jsx:74-222 | in a run where the layout returns: the loaded lists are never empty, so the drawing effect never returns early; when every file has a row, the links form at most five groups, and every node is grey exactly when untouched and otherwise painted within 0..255 |
| Portfolio3Sankey.LinkStroke | src/components/portfolio3/Sankey.jsx:251 | a link has a stroke colour exactly when its group is below 5 |
| Portfolio3Sankey.HoverNode | src/components/portfolio3/Sankey.jsx:186-229 | hovering a touched node highlights the first group touching it. Its links get stroke opacity 1 and all other links 0.3. A node touched by a link of that group gets fill opacity 1 and every other node 0.3 |
| Portfolio1Sankey.Category10Facts | src/components/portfolio1/Sankey.jsx:124 | the ten scheme colours are distinct and within 0..255 |
| Portfolio1Sankey.PaletteCycles | src/components/portfolio1/Sankey.jsx:122-125 | every group has a colour within 0..255; two groups share a colour exactly when their ids agree modulo 10 |
| Portfolio1Sankey.FillIsDefined | src/components/portfolio1/Sankey.jsx:166-175 | every node is grey exactly when untouched and otherwise painted within 0..255: the fill is never unset and never throws |
| Portfolio1Sankey.LinkStroke | src/components/portfolio1/Sankey.jsx:202 | the stroke of a link is the scheme colour of its group modulo 10 |
| Portfolio1Sankey.HoverLink | src/components/portfolio1/Sankey.jsx:204-207 | hovering link j lights exactly the links connected to j, and exactly the nodes such links touch; all others get 0.1 |
| Portfolio1Sankey.HoverNode | src/components/portfolio1/Sankey.jsx:151-181 | hovering a touched node highlights the first group touching it. Its links get stroke opacity 1 and all other links 0.1. A node touched by a link of that group gets fill opacity 1 and every other node 0.1 |
| SankeyDiagram.FirstByNameNames | src/components/portfolio1/SankeyDiagram.jsx:13-20 | offering candidates through the name map keeps one node per distinct name, in order of first appearance |
| SankeyDiagram.FirstByNameKeepsFirst | src/components/portfolio1/SankeyDiagram.jsx:13-20 | each node is the first candidate that carried its name |
| SankeyDiagram.KeepsFirstStep | src/components/portfolio1/SankeyDiagram.jsx:13-20 | offering one more candidate keeps every node equal to the first candidate with its name |
| SankeyDiagram.NodesForSnoc | src/components/portfolio1/SankeyDiagram.jsx:12-20 | an item offers its disease node and then its scoped node |
| SankeyDiagram.AddNode | src/components/portfolio1/SankeyDiagram.jsx:13-16 | a node is added exactly when its name is not mapped; the map keeps indexing the node list by name and keeps every earlier entry |
| SankeyDiagram.VisitItem | src/components/portfolio1/SankeyDiagram.jsx:11-26 | one item keeps the invariant: nodes are those of the items so far, the map indexes them, one link per item from its scoped node to its disease node with the parsed total |
| SankeyDiagram.VisitGroup | src/components/portfolio1/SankeyDiagram.jsx:11-26 | one age group's items extend the invariant in row order |
| SankeyDiagram.VisitGroups | src/components/portfolio1/SankeyDiagram.jsx:10-27 | all age groups, in key order, establish the invariant for every item |
| SankeyDiagram.Dangling | src/components/portfolio1/SankeyDiagram.jsx:30-34 | the reported links are links with a missing endpoint, and none is reported exactly when every endpoint exists |
| SankeyDiagram.CheckLinks | src/components/portfolio1/SankeyDiagram.jsx:30-34 | the check reports the dangling links in order |
| SankeyDiagram.ProcessData | src/components/portfolio1/SankeyDiagram.jsx:5-37 | nodes are the first-by-name candidates of all items; one link per item, in order, from the scoped node to the disease node with value `parseInt(총)`; the check reports nothing |
| SankeyDiagram.CandidateNames | src/components/portfolio1/SankeyDiagram.jsx:12-19 | the keys offered are, for item p, its disease at position 2p and its scoped label at 2p + 1 |
| SankeyDiagram.NodesAreDistinctKeys | src/components/portfolio1/SankeyDiagram.jsx:10-20 | node names are the distinct keys in first-appearance order; every disease and scoped label has a node; each node is the first candidate with its name |
| SankeyDiagram.CandidateCategories | src/components/portfolio1/SankeyDiagram.jsx:15-19 | every candidate's category is "Disease" or an age-group key |
| SankeyDiagram.CategoriesAreKnown | src/components/portfolio1/SankeyDiagram.jsx:15-19 | every node's category is "Disease" or one of the age-group keys |
| CsvData.AssignFields | src/components/portfolio1/Data.jsx:16-19 | a row has exactly the keys "ageGroup" and the headers; each header holds the field under its last occurrence, or undefined if the line is short; the age group survives unless a header is literally "ageGroup" |
| CsvData.AssignIgnoresExtraFields | src/components/portfolio1/Data.jsx:17-19 | fields beyond the header count are dropped |
| CsvData.Lines | src/components/portfolio1/Data.jsx:10 | the trimmed text splits into one more line than it has line breaks |
| CsvData.BuildRow | src/components/portfolio1/Data.jsx:15-19 | the inner loop builds the row object of its comma-split line |
| CsvData.ParseCsv | src/components/portfolio1/Data.jsx:9-24 | one row per line after the header, in line order, as many as the trimmed text has line breaks, each built from the header line and its own line |
| RankChange.PreviousRanksAreLastIndices | src/components/portfolio1/RankChangeChart.jsx:23-26 | the map has exactly the previous names, each mapped to its last index |
| RankChange.FirstIndexOfDistinct | src/components/portfolio1/RankChangeChart.jsx:64 | in a ranking without repeats, `findIndex` finds the entry itself |
| RankChange.RankChangeMeaning | src/components/portfolio1/RankChangeChart.jsx:64 | the change is last previous index minus first current index, `NaN` exactly for a new name; without repeats, previous index minus own index |
| RankChange.ArrowText | src/components/portfolio1/RankChangeChart.jsx:75-77 | the arrow text is never empty |
| RankChange.ArrowAgrees | src/components/portfolio1/RankChangeChart.jsx:63-77 | the class is "rank-arrow " plus the fill; green goes with ↑, red with ↓, gray with "-" exactly when the change is 0 or `NaN`; the digits after an arrow parse back to the size of the change |
| RankChange.LabelRank | src/components/portfolio1/RankChangeChart.jsx:60 | the label starts with the 1-based rank, which parses back, followed by ". " and the name |
| RankChange.EnterStartMeaning | src/components/portfolio1/RankChangeChart.jsx:34-41 | an entering row starts at the bottom exactly when its name is new or has a previous index of 15 or more (16th place or lower), throws exactly when its previous index is below 15 but past the end of the new ranking, and otherwise starts at its old rank's band |
| DiseaseSelection.UniqueDiseasesSpec | src/components/portfolio2/DiseaseSelector.jsx:15 | every disease of the table appears exactly once, and in first-mention order |
| DiseaseSelection.FilterBySearch | src/components/portfolio2/DiseaseSelector.jsx:28-32 | a disease is kept exactly when it is listed and its lower-case form includes the lower-case term |
| DiseaseSelection.FilterIsSubsequence | src/components/portfolio2/DiseaseSelector.jsx:28-32 | the filtered list keeps the order of the full list |
| DiseaseSelection.EmptySearchKeepsAll | src/components/portfolio2/DiseaseSelector.jsx:28-32 | an empty term keeps every disease |
| DiseaseSelection.SearchIgnoresCase | src/components/portfolio2/DiseaseSelector.jsx:30 | searching with the lowered term gives the same list |
| DiseaseSelection.Remove | src/components/portfolio2/DiseaseSelector.jsx:43 | the value is gone and every other value is present exactly as before |
| DiseaseSelection.RemoveAppend | src/components/portfolio2/DiseaseSelector.jsx:43 | filtering a concatenation filters each part |
| DiseaseSelection.RemoveAbsent | src/components/portfolio2/DiseaseSelector.jsx:43 | filtering out an absent value changes nothing |
| DiseaseSelection.RemoveKeepsDistinct | src/components/portfolio2/DiseaseSelector.jsx:43 | filtering keeps a list free of repeats |
| DiseaseSelection.RemoveIsSubsequence | src/components/portfolio2/DiseaseSelector.jsx:43 | filtering keeps the order of the rest |
| DiseaseSelection.ToggleSpec | src/components/portfolio2/DiseaseSelector.jsx:39-46 | toggling a selected value removes it and keeps the rest in order; toggling an unselected one appends it; repeats never appear; toggling an unselected value twice restores the selection |
| DiseaseSelection.ToggleOffDeletesEntry | src/components/portfolio2/DiseaseSelector.jsx:41-45 | in a selection without repeats, unticking entry i deletes exactly that entry |
| DiseaseSelection.SelectedDepartments | src/components/portfolio2/DiseaseSelector.jsx:49-51 | at most one department per table row |
| DiseaseSelection.DepartmentsAppend | src/components/portfolio2/DiseaseSelector.jsx:49-51 | departments come row by row in table order, duplicates kept |
| DiseaseSelection.DepartmentsOfSelected | src/components/portfolio2/DiseaseSelector.jsx:49-51 | a department is listed exactly when some row with a selected disease names it; an empty selection lists nothing |
| DiseaseSelection.DepartmentsIgnoreSelectionOrder | src/components/portfolio2/DiseaseSelector.jsx:49-51 | only which diseases are selected matters, not their order or copies |
| DiseaseSelection.DiseaseSelector.constructor | src/components/portfolio2/DiseaseSelector.jsx:5-9 | all five pieces of state start empty |
| DiseaseSelection.DiseaseSelector.LoadDiseases | src/components/portfolio2/DiseaseSelector.jsx:11-25 | a failed load changes nothing; a successful one stores the table and its unique diseases, refilters by the current term and reports the departments of the selection |
| DiseaseSelection.DiseaseSelector.HandleSearchChange | src/components/portfolio2/DiseaseSelector.jsx:27-37 | the term is replaced and the filtered list is the unique diseases matching it; nothing else changes |
| DiseaseSelection.DiseaseSelector.HandleCheckboxChange | src/components/portfolio2/DiseaseSelector.jsx:39-53 | the selection is toggled, stays free of repeats, and the departments of the new selection are reported; nothing else changes |

## Left out

- Rendering: scales, the d3-sankey layout and its adjustment (src/components/portfolio3/Sankey.jsx:95-128), tooltips with their group totals, axes and transitions. These are floating-point geometry and presentation on top of third-party libraries.
- File loading (`fetch`, `d3.csv`, `d3.csvParse`, `fetchData`). Their results are parameters: a file is the `항목` column of its parsed rows, the disease table is a list of rows, and a failed load is `None`.
- A parsed row without a `항목` column, whose name would be `undefined`. Names are always strings here.
- `d3.color` parsing of the hex palette entries, and the `rgb(...)` string `mixColors` returns. Palettes are given as RGB triples, and a mix is the triple itself.
- JavaScript numbers are modelled as unbounded reals and integers. Double rounding is not modelled.
- Text.ParseInt: does not model the `0x` prefix, which `parseInt` without a radix reads as hexadecimal. Decimal totals are assumed.
- Text.ToLower: folds only A-Z. Full Unicode case mapping is not modelled.
- RankChange.PreviousRanks: does not model names that clash with `Object.prototype` keys such as "constructor", which a plain-object lookup would find.
- CsvData.Assign: does not model a header named `__proto__`, which sets the object's prototype instead of adding a key.
- Portfolio3Sankey.Draw: describes the run in which the d3-sankey layout (src/components/portfolio3/Sankey.jsx:80-90, and likewise src/components/portfolio1/Sankey.jsx:81-91) returns. The layout throws "circular link" when the links form a cycle, and the loader can build one: a row of the first file named "유아" adds the link 0→0, and one named "0-9세" adds 0→5, which the fixed link 5→0 closes. The effect then stops before the grouping, whereas the model still groups and fills. Cycle detection is the layout library's and is not modelled.
- Portfolio3Sankey.HoverNode, Portfolio1Sankey.HoverNode: only the highlight at mouse-over is stated. The mouse-out level follows from SankeyColours.LinkOpacityByGroup. The portfolio 3 `isMouseOver` flag, and the `setTimeout` reset to node opacity 1 and link opacity 0.5, are timing and are not modelled.
- The `group` field written into each link object is a sequence indexed by link position. Aliasing between link objects is not modelled.
- The component around `processData` (its effect and the `dataFiles` import, which the data module does not export under that name) is not part of this model.
- DiseaseSelection.DiseaseSelector: React effects are modelled as already run when a handler returns. `onDiseaseChange` is modelled as a returned value. The report made at mount, with an empty table, is not modelled.
- RankChange: the d3 data join is assumed to give entering rows in data order, so the label's index is the data index. A band of the scale is given as its index in the de-duplicated domain.
