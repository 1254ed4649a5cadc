/** The node and link lists both Sankey views build before layout (`loadData`):
    fourteen fixed nodes and nine fixed links, then, for each of the five
    age-bucket files in order, one link per row among its first `k` rows, from
    the bucket node to the node named by the row, with value `k - index`; a
    row's name gets a new node only when no node has that name yet. */
module SankeyGraph {
  import opened Sequences
  import opened Wrappers

  /** A node as `loadData` creates it; `id` is what links refer to. */
  datatype Node = Node(id: nat, name: string)

  /** A link between node ids. */
  datatype Link = Link(source: nat, target: nat, value: real)

  /** One row taken from an age-bucket file: the file's position `f` (its
      `id` is `f + 1`, so its links start at node `file.id - 1 == f`), the
      row's index in the parsed file and its name column `항목`. */
  datatype Taken = Taken(file: nat, row: nat, name: string)

  /** Ids 0-4 are the five life-stage buckets, ids 5-13 the nine age ranges. */
  const FixedNames: seq<string> := [
    "유아", "청소년", "청년", "중년", "노년",
    "0-9세", "10-19세", "20-29세", "30-39세", "40-49세",
    "50-59세", "60-69세", "70-79세", "80세 이상"]

  /** Source and target of the nine fixed links: each age range flows into its bucket. */
  const FixedEdges: seq<(nat, nat)> := [
    (5, 0), (6, 1), (7, 2), (8, 2), (9, 3), (10, 3), (11, 4), (12, 4), (13, 4)]

  /** Number of age-bucket files (the `files` table has ids 1 to 5). */
  const FileCount: nat := 5

  function Min(a: nat, b: nat): nat {
    if a <= b then a else b
  }

  function FixedNodes(): seq<Node> {
    seq(|FixedNames|, i requires 0 <= i < |FixedNames| => Node(i, FixedNames[i]))
  }

  /** The fixed links with the view's own widths. */
  function FixedLinks(values: seq<real>): seq<Link>
    requires |values| == |FixedEdges|
  {
    seq(|FixedEdges|, i requires 0 <= i < |FixedEdges| =>
      Link(FixedEdges[i].0, FixedEdges[i].1, values[i]))
  }

  function Names(nodes: seq<Node>): seq<string> {
    seq(|nodes|, i requires 0 <= i < |nodes| => nodes[i].name)
  }

  function NamesOf(taken: seq<Taken>): seq<string> {
    seq(|taken|, i requires 0 <= i < |taken| => taken[i].name)
  }

  /** The first `n` rows of file `f`. */
  function FileRows(f: nat, rows: seq<string>, n: nat): seq<Taken>
    requires n <= |rows|
  {
    seq(n, i requires 0 <= i < n => Taken(f, i, rows[i]))
  }

  /** `parsedData.slice(0, k)` of every file, in loading order. */
  function TakenRows(files: seq<seq<string>>, k: nat): seq<Taken> {
    if files == [] then []
    else
      var f := |files| - 1;
      TakenRows(files[..f], k) + FileRows(f, files[f], Min(k, |files[f]|))
  }

  /** Total number of rows taken: `min(k, rows)` per file. */
  function TakenCount(files: seq<seq<string>>, k: nat): nat {
    if files == [] then 0
    else TakenCount(files[..|files| - 1], k) + Min(k, |files[|files| - 1]|)
  }

  /** What the rows taken are: the first `min(k, rows)` rows of each file,
      file after file and row after row, with nothing else in between. */
  lemma {:induction false} TakenRowsShape(files: seq<seq<string>>, k: nat)
    ensures var t := TakenRows(files, k);
      && |t| == TakenCount(files, k)
      && (forall p :: 0 <= p < |t| ==>
            && t[p].file < |files|
            && t[p].row < Min(k, |files[t[p].file]|)
            && t[p].name == files[t[p].file][t[p].row])
      && (forall p, q :: 0 <= p < q < |t| ==>
            t[p].file < t[q].file || (t[p].file == t[q].file && t[p].row < t[q].row))
  {
    if files != [] {
      var f := |files| - 1;
      TakenRowsShape(files[..f], k);
      var t0 := TakenRows(files[..f], k);
      var t := TakenRows(files, k);
      forall p | 0 <= p < |t0| ensures t[p] == t0[p] && t[p].file < f {
      }
    }
  }

  /** `nodes.find(node => node.name === name)`. */
  function FindByName(nodes: seq<Node>, name: string): (r: Option<Node>)
    ensures r.None? <==> name !in Names(nodes)
    ensures r.Some? ==> r.value == nodes[FirstIndex(Names(nodes), name)]
  {
    if nodes == [] then None
    else if nodes[0].name == name then
      assert Names(nodes)[0] == name;
      Some(nodes[0])
    else
      assert Names(nodes) == [nodes[0].name] + Names(nodes[1..]);
      FindByName(nodes[1..], name)
  }

  /** Link `l` is the one added for taken row `t`. */
  ghost predicate AddedLink(l: Link, t: Taken, nodes: seq<Node>, k: nat) {
    && l.source == t.file
    && l.target < |nodes|
    && nodes[l.target].name == t.name
    && l.value == (k - t.row) as real
  }

  /** The nodes after the rows `taken`, started from nodes named `init`:
      ids are positions, names are the de-duplicated names seen so far. */
  ghost predicate NodesLoaded(nodes: seq<Node>, init: seq<string>, taken: seq<Taken>) {
    && (forall i :: 0 <= i < |nodes| ==> nodes[i].id == i)
    && Names(nodes) == Dedup(init + NamesOf(taken))
  }

  /** The links after the rows `taken`, started from `initLinks`: one per row. */
  ghost predicate LinksLoaded(links: seq<Link>, nodes: seq<Node>, initLinks: seq<Link>,
                              taken: seq<Taken>, k: nat)
  {
    && |links| == |initLinks| + |taken|
    && links[..|initLinks|] == initLinks
    && (forall p :: 0 <= p < |taken| ==> AddedLink(links[|initLinks| + p], taken[p], nodes, k))
  }

  /** The state of `loadData` after the rows `taken`. */
  ghost predicate Loaded(nodes: seq<Node>, links: seq<Link>, init: seq<string>,
                         initLinks: seq<Link>, taken: seq<Taken>, k: nat)
  {
    NodesLoaded(nodes, init, taken) && LinksLoaded(links, nodes, initLinks, taken, k)
  }

  lemma FixedNamesDistinct()
    ensures Distinct(FixedNames)
  {
  }

  /** Before any file is read: the fixed nodes, with ids equal to positions. */
  lemma {:induction false} Start(fixedValues: seq<real>, k: nat)
    requires |fixedValues| == |FixedEdges|
    ensures Loaded(FixedNodes(), FixedLinks(fixedValues), FixedNames, FixedLinks(fixedValues), [], k)
  {
    FixedNamesDistinct();
    DedupOfDistinct(FixedNames);
    assert Names(FixedNodes()) == FixedNames;
    assert FixedNames + NamesOf([]) == FixedNames;
  }

  lemma {:induction false} NamesSnoc(init: seq<string>, taken: seq<Taken>, t: Taken)
    ensures Dedup(init + NamesOf(taken + [t])) ==
            if t.name in Dedup(init + NamesOf(taken)) then Dedup(init + NamesOf(taken))
            else Dedup(init + NamesOf(taken)) + [t.name]
  {
    assert NamesOf(taken + [t]) == NamesOf(taken) + [t.name];
    assert init + NamesOf(taken + [t]) == (init + NamesOf(taken)) + [t.name];
    DedupSnoc(init + NamesOf(taken), t.name);
  }

  lemma {:induction false} LinksSnoc(links: seq<Link>, nodes: seq<Node>, nodes': seq<Node>, initLinks: seq<Link>,
                  taken: seq<Taken>, k: nat, t: Taken, target: nat)
    requires LinksLoaded(links, nodes, initLinks, taken, k)
    requires |nodes| <= |nodes'| && nodes'[..|nodes|] == nodes
    requires target < |nodes'| && nodes'[target].name == t.name
    ensures LinksLoaded(links + [Link(t.file, target, (k - t.row) as real)], nodes', initLinks, taken + [t], k)
  {
    var links' := links + [Link(t.file, target, (k - t.row) as real)];
    assert links'[..|initLinks|] == links[..|initLinks|];
    forall p | 0 <= p < |taken| + 1
      ensures AddedLink(links'[|initLinks| + p], (taken + [t])[p], nodes', k)
    {
      if p < |taken| {
        assert AddedLink(links[|initLinks| + p], taken[p], nodes, k);
        assert nodes'[links[|initLinks| + p].target] == nodes[links[|initLinks| + p].target];
      }
    }
  }

  /** A row whose name already has a node only adds a link to that node. */
  lemma {:induction false} StepExisting(nodes: seq<Node>, links: seq<Link>, init: seq<string>,
                     initLinks: seq<Link>, taken: seq<Taken>, k: nat, t: Taken, target: nat)
    requires Loaded(nodes, links, init, initLinks, taken, k)
    requires target < |nodes| && nodes[target].name == t.name
    ensures Loaded(nodes, links + [Link(t.file, target, (k - t.row) as real)],
                   init, initLinks, taken + [t], k)
  {
    assert NodesLoaded(nodes, init, taken + [t]) by {
      assert Names(nodes)[target] == t.name;
      NamesSnoc(init, taken, t);
    }
    assert LinksLoaded(links + [Link(t.file, target, (k - t.row) as real)], nodes, initLinks, taken + [t], k) by {
      LinksSnoc(links, nodes, nodes, initLinks, taken, k, t, target);
    }
  }

  /** A row with an unseen name adds a node with the next id and a link to it. */
  lemma {:induction false} StepNew(nodes: seq<Node>, links: seq<Link>, init: seq<string>,
                initLinks: seq<Link>, taken: seq<Taken>, k: nat, t: Taken)
    requires Loaded(nodes, links, init, initLinks, taken, k)
    requires t.name !in Names(nodes)
    ensures Loaded(nodes + [Node(|nodes|, t.name)],
                   links + [Link(t.file, |nodes|, (k - t.row) as real)],
                   init, initLinks, taken + [t], k)
  {
    var nodes' := nodes + [Node(|nodes|, t.name)];
    NodesSnocNew(nodes, init, taken, t);
    assert nodes'[..|nodes|] == nodes;
    LinksSnoc(links, nodes, nodes', initLinks, taken, k, t, |nodes|);
  }

  lemma {:induction false} NodesSnocNew(nodes: seq<Node>, init: seq<string>, taken: seq<Taken>, t: Taken)
    requires NodesLoaded(nodes, init, taken) && t.name !in Names(nodes)
    ensures NodesLoaded(nodes + [Node(|nodes|, t.name)], init, taken + [t])
  {
    var nodes' := nodes + [Node(|nodes|, t.name)];
    NamesSnoc(init, taken, t);
    assert t.name !in Dedup(init + NamesOf(taken));
    forall i | 0 <= i < |nodes'|
      ensures nodes'[i].id == i && Names(nodes')[i] == (Names(nodes) + [t.name])[i]
    {
      if i < |nodes| {
        assert nodes'[i] == nodes[i];
      }
    }
    assert Names(nodes') == Names(nodes) + [t.name];
  }

  lemma {:induction false} FileRowsSnoc(f: nat, rows: seq<string>, index: nat, before: seq<Taken>)
    requires index < |rows|
    ensures before + FileRows(f, rows, index + 1)
         == (before + FileRows(f, rows, index)) + [Taken(f, index, rows[index])]
  {
    assert FileRows(f, rows, index + 1) == FileRows(f, rows, index) + [Taken(f, index, rows[index])];
  }

  /** The `forEach` callback for row `index` of the file at position `f`:
      a link from bucket node `f` to the node named `name`, created first if
      no node has that name, with value `k - index`. */
  method AddRow(k: nat, f: nat, index: nat, name: string, nodes: seq<Node>, links: seq<Link>,
                ghost init: seq<string>, ghost initLinks: seq<Link>, ghost taken: seq<Taken>)
    returns (nodes': seq<Node>, links': seq<Link>)
    requires Loaded(nodes, links, init, initLinks, taken, k)
    ensures Loaded(nodes', links', init, initLinks, taken + [Taken(f, index, name)], k)
  {
    var existing := FindByName(nodes, name);
    if existing.Some? {
      assert existing.value.id < |nodes| && nodes[existing.value.id].name == name by {
        ghost var at := FirstIndex(Names(nodes), name);
        assert existing.value == nodes[at] && nodes[at].id == at;
      }
      StepExisting(nodes, links, init, initLinks, taken, k, Taken(f, index, name), existing.value.id);
      nodes' := nodes;
      links' := links + [Link(f, existing.value.id, (k - index) as real)];
    } else {
      StepNew(nodes, links, init, initLinks, taken, k, Taken(f, index, name));
      var nodeId := |nodes|;
      nodes' := nodes + [Node(nodeId, name)];
      links' := links + [Link(f, nodeId, (k - index) as real)];
    }
  }

  /** `parsedData.slice(0, k).forEach(...)` for the file at position `f`:
      one link per row taken, a node for each name not seen before. */
  method LoadFile(k: nat, f: nat, rows: seq<string>, nodes: seq<Node>, links: seq<Link>,
                  ghost init: seq<string>, ghost initLinks: seq<Link>, ghost before: seq<Taken>)
    returns (nodes': seq<Node>, links': seq<Link>)
    requires Loaded(nodes, links, init, initLinks, before, k)
    ensures Loaded(nodes', links', init, initLinks, before + FileRows(f, rows, Min(k, |rows|)), k)
  {
    nodes', links' := nodes, links;
    var n := Min(k, |rows|);
    var index := 0;
    assert before + FileRows(f, rows, 0) == before;
    while index < n
      invariant 0 <= index <= n
      invariant Loaded(nodes', links', init, initLinks, before + FileRows(f, rows, index), k)
    {
      FileRowsSnoc(f, rows, index, before);
      nodes', links' := AddRow(k, f, index, rows[index], nodes', links', init, initLinks,
                               before + FileRows(f, rows, index));
      index := index + 1;
    }
  }

  lemma TakenRowsNext(files: seq<seq<string>>, f: nat, k: nat)
    requires f < |files|
    ensures TakenRows(files[..f + 1], k) == TakenRows(files[..f], k) + FileRows(f, files[f], Min(k, |files[f]|))
  {
    assert files[..f + 1][..f] == files[..f];
  }

  /** `loadData` for a view that keeps the first `k` rows of each file and
      gives the fixed links the widths `fixedValues`; `files[f]` holds the
      `항목` column of the parsed rows of the file with id `f + 1`. */
  method LoadData(k: nat, fixedValues: seq<real>, files: seq<seq<string>>)
    returns (nodes: seq<Node>, links: seq<Link>)
    requires |fixedValues| == |FixedEdges|
    ensures forall i :: 0 <= i < |nodes| ==> nodes[i].id == i
    ensures Names(nodes) == Dedup(FixedNames + NamesOf(TakenRows(files, k)))
    ensures |links| == |FixedEdges| + |TakenRows(files, k)|
    ensures links[..|FixedEdges|] == FixedLinks(fixedValues)
    ensures forall p :: 0 <= p < |TakenRows(files, k)| ==>
              AddedLink(links[|FixedEdges| + p], TakenRows(files, k)[p], nodes, k)
  {
    nodes := FixedNodes();
    links := FixedLinks(fixedValues);
    ghost var init, initLinks := FixedNames, links;
    assert Loaded(nodes, links, init, initLinks, TakenRows(files[..0], k), k) by {
      Start(fixedValues, k);
      assert files[..0] == [];
    }
    var f := 0;
    while f < |files|
      invariant 0 <= f <= |files|
      invariant Loaded(nodes, links, init, initLinks, TakenRows(files[..f], k), k)
    {
      TakenRowsNext(files, f, k);
      nodes, links := LoadFile(k, f, files[f], nodes, links, init, initLinks, TakenRows(files[..f], k));
      f := f + 1;
    }
    assert files[..f] == files;
    LoadedAll(k, fixedValues, files, nodes, links);
  }

  /** The state after every file, restated on the whole input. */
  lemma LoadedAll(k: nat, fixedValues: seq<real>, files: seq<seq<string>>, nodes: seq<Node>, links: seq<Link>)
    requires |fixedValues| == |FixedEdges|
    requires Loaded(nodes, links, FixedNames, FixedLinks(fixedValues), TakenRows(files, k), k)
    ensures forall i :: 0 <= i < |nodes| ==> nodes[i].id == i
    ensures Names(nodes) == Dedup(FixedNames + NamesOf(TakenRows(files, k)))
    ensures |links| == |FixedEdges| + |TakenRows(files, k)|
    ensures links[..|FixedEdges|] == FixedLinks(fixedValues)
    ensures forall p :: 0 <= p < |TakenRows(files, k)| ==>
              AddedLink(links[|FixedEdges| + p], TakenRows(files, k)[p], nodes, k)
  {
    var initLinks := FixedLinks(fixedValues);
    LoadedParts(nodes, links, FixedNames, initLinks, TakenRows(files, k), k);
    assert |initLinks| == |FixedEdges|;
  }

  /** The state after the rows `taken`, spelt out. */
  lemma LoadedParts(nodes: seq<Node>, links: seq<Link>, init: seq<string>,
                    initLinks: seq<Link>, taken: seq<Taken>, k: nat)
    requires Loaded(nodes, links, init, initLinks, taken, k)
    ensures forall i :: 0 <= i < |nodes| ==> nodes[i].id == i
    ensures Names(nodes) == Dedup(init + NamesOf(taken))
    ensures |links| == |initLinks| + |taken|
    ensures links[..|initLinks|] == initLinks
    ensures forall p :: 0 <= p < |taken| ==> AddedLink(links[|initLinks| + p], taken[p], nodes, k)
  {
  }

  /** What `LoadData` guarantees about its result (ids aside). */
  ghost predicate LoadResult(k: nat, fixedValues: seq<real>, files: seq<seq<string>>,
                             nodes: seq<Node>, links: seq<Link>) {
    && |fixedValues| == |FixedEdges|
    && Names(nodes) == Dedup(FixedNames + NamesOf(TakenRows(files, k)))
    && |links| == |FixedEdges| + |TakenRows(files, k)|
    && links[..|FixedEdges|] == FixedLinks(fixedValues)
    && (forall p :: 0 <= p < |TakenRows(files, k)| ==>
          AddedLink(links[|FixedEdges| + p], TakenRows(files, k)[p], nodes, k))
  }

  /** The nine fixed links run from the age-range nodes 5..13 to the bucket
      nodes 0..4, each age range exactly once and in order. */
  lemma FixedEdgesShape()
    ensures forall i :: 0 <= i < |FixedEdges| ==>
              FixedEdges[i].0 == 5 + i && FixedEdges[i].1 < FileCount
  {
  }

  /** The fourteen fixed nodes stay first, whatever the files hold. */
  lemma FixedNodesFirst(k: nat, files: seq<seq<string>>, nodes: seq<Node>)
    requires Names(nodes) == Dedup(FixedNames + NamesOf(TakenRows(files, k)))
    ensures |FixedNames| <= |nodes| && Names(nodes)[..|FixedNames|] == FixedNames
  {
    FixedNamesDistinct();
    DedupKeepsDistinctPrefix(FixedNames, NamesOf(TakenRows(files, k)));
  }

  /** Every name taken from a file has a node. */
  lemma TakenNamesHaveNodes(k: nat, files: seq<seq<string>>, nodes: seq<Node>)
    requires Names(nodes) == Dedup(FixedNames + NamesOf(TakenRows(files, k)))
    ensures forall t :: t in TakenRows(files, k) ==> t.name in Names(nodes)
  {
    var taken := TakenRows(files, k);
    forall t | t in taken ensures t.name in Names(nodes) {
      var p :| 0 <= p < |taken| && taken[p] == t;
      assert (FixedNames + NamesOf(taken))[|FixedNames| + p] == t.name;
    }
  }

  /** Every link joins two existing nodes; an added link leaves the bucket
      node of its file. */
  lemma LoadedEndpoints(k: nat, fixedValues: seq<real>, files: seq<seq<string>>, nodes: seq<Node>, links: seq<Link>)
    requires LoadResult(k, fixedValues, files, nodes, links) && |files| <= FileCount
    ensures forall i :: 0 <= i < |links| ==> links[i].source < |nodes| && links[i].target < |nodes|
    ensures forall i :: |FixedEdges| <= i < |links| ==> links[i].source < |files|
  {
    FixedNodesFirst(k, files, nodes);
    FixedEdgesShape();
    TakenRowsShape(files, k);
    var t := TakenRows(files, k);
    forall i | 0 <= i < |links|
      ensures links[i].source < |nodes| && links[i].target < |nodes|
      ensures i >= |FixedEdges| ==> links[i].source < |files|
    {
      if i < |FixedEdges| {
        assert links[i] == links[..|FixedEdges|][i] == FixedLinks(fixedValues)[i];
      } else {
        assert AddedLink(links[|FixedEdges| + (i - |FixedEdges|)], t[i - |FixedEdges|], nodes, k);
      }
    }
  }

  /** Added links carry the values `k - index`, so they lie in [1, k]. */
  lemma LoadedValues(k: nat, fixedValues: seq<real>, files: seq<seq<string>>, nodes: seq<Node>, links: seq<Link>)
    requires LoadResult(k, fixedValues, files, nodes, links)
    ensures forall i :: |FixedEdges| <= i < |links| ==> 1.0 <= links[i].value <= k as real
  {
    TakenRowsShape(files, k);
    var t := TakenRows(files, k);
    forall i | |FixedEdges| <= i < |links| ensures 1.0 <= links[i].value <= k as real {
      assert AddedLink(links[|FixedEdges| + (i - |FixedEdges|)], t[i - |FixedEdges|], nodes, k);
    }
  }

  /** Within one file, later rows get strictly smaller values. */
  lemma LoadedValuesDecrease(k: nat, fixedValues: seq<real>, files: seq<seq<string>>, nodes: seq<Node>, links: seq<Link>)
    requires LoadResult(k, fixedValues, files, nodes, links)
    ensures forall i, j :: |FixedEdges| <= i < j < |links| && links[i].source == links[j].source ==>
              links[i].value > links[j].value
  {
    TakenRowsShape(files, k);
    var t := TakenRows(files, k);
    forall i, j | |FixedEdges| <= i < j < |links| && links[i].source == links[j].source
      ensures links[i].value > links[j].value
    {
      assert AddedLink(links[|FixedEdges| + (i - |FixedEdges|)], t[i - |FixedEdges|], nodes, k);
      assert AddedLink(links[|FixedEdges| + (j - |FixedEdges|)], t[j - |FixedEdges|], nodes, k);
    }
  }

  /** A file with at least one row contributes a taken row. */
  lemma {:induction false} TakenRowOfFile(files: seq<seq<string>>, k: nat, b: nat)
    requires b < |files| && |files[b]| > 0 && k > 0
    ensures exists p :: 0 <= p < |TakenRows(files, k)| && TakenRows(files, k)[p].file == b
  {
    var f := |files| - 1;
    var before := TakenRows(files[..f], k);
    var own := FileRows(f, files[f], Min(k, |files[f]|));
    assert TakenRows(files, k) == before + own;
    if b == f {
      assert own[0].file == b;
      assert TakenRows(files, k)[|before|] == own[0];
    } else {
      assert files[..f][b] == files[b];
      TakenRowOfFile(files[..f], k, b);
      var p :| 0 <= p < |before| && before[p].file == b;
      assert TakenRows(files, k)[p] == before[p];
    }
  }

  /** Every file with at least one row has an added link leaving its bucket. */
  lemma LoadedBuckets(k: nat, fixedValues: seq<real>, files: seq<seq<string>>, nodes: seq<Node>, links: seq<Link>)
    requires LoadResult(k, fixedValues, files, nodes, links) && k > 0
    ensures forall b :: 0 <= b < |files| && |files[b]| > 0 ==>
              exists i :: |FixedEdges| <= i < |links| && links[i].source == b
  {
    forall b | 0 <= b < |files| && |files[b]| > 0
      ensures exists i :: |FixedEdges| <= i < |links| && links[i].source == b
    {
      var t := TakenRows(files, k);
      TakenRowOfFile(files, k, b);
      var p :| 0 <= p < |t| && t[p].file == b;
      assert AddedLink(links[|FixedEdges| + p], t[p], nodes, k);
    }
  }

  /** Everything a view's `loadData` promises beyond the load result itself,
      for any row count `k > 0` and fixed widths: distinct names with the
      fixed ones first, a node for every taken name and only for fixed or
      taken names, existing endpoints, added links leaving a bucket with
      values in [1, k] that decrease within a bucket, and a link leaving
      every bucket whose file has a row. */
  lemma LoadedFacts(k: nat, fixedValues: seq<real>, files: seq<seq<string>>, nodes: seq<Node>, links: seq<Link>)
    requires LoadResult(k, fixedValues, files, nodes, links) && |files| == FileCount && k > 0
    ensures Distinct(Names(nodes))
    ensures |FixedNames| <= |nodes| && Names(nodes)[..|FixedNames|] == FixedNames
    ensures forall t :: t in TakenRows(files, k) ==> t.name in Names(nodes)
    ensures forall i :: 0 <= i < |nodes| ==> Names(nodes)[i] in FixedNames + NamesOf(TakenRows(files, k))
    ensures |TakenRows(files, k)| == TakenCount(files, k)
    ensures forall i :: 0 <= i < |links| ==> links[i].source < |nodes| && links[i].target < |nodes|
    ensures forall i :: |FixedEdges| <= i < |links| ==>
              links[i].source < FileCount && 1.0 <= links[i].value <= k as real
    ensures forall i, j :: |FixedEdges| <= i < j < |links| && links[i].source == links[j].source ==>
              links[i].value > links[j].value
    ensures forall b :: 0 <= b < FileCount && |files[b]| > 0 ==>
              exists i :: |FixedEdges| <= i < |links| && links[i].source == b
  {
    LoadedBuckets(k, fixedValues, files, nodes, links);
    LoadedEndpoints(k, fixedValues, files, nodes, links);
    LoadedValues(k, fixedValues, files, nodes, links);
    LoadedValuesDecrease(k, fixedValues, files, nodes, links);
    FixedNodesFirst(k, files, nodes);
    TakenRowsShape(files, k);
    TakenNamesHaveNodes(k, files, nodes);
  }
}
