/** `processData` of the age-group Sankey diagram: every item of every age
    group contributes a disease node and an "age group - disease" node, each
    created only when no node of that name exists yet (one `nodeMap` serves
    both kinds of key), and one link from the second to the first, valued
    `parseInt(item.총)`. A final pass reports links whose endpoints are not
    nodes. */
module SankeyDiagram {
  import opened Wrappers
  import opened Sequences
  import opened Text

  /** One parsed row: its `항목` (the disease) and `총` (the total) columns. */
  datatype Item = Item(disease: string, total: string)

  datatype Node = Node(name: string, category: string)

  /** Endpoints are node indices; `None` stands for the `NaN` of a `parseInt`
      that finds no digits. */
  datatype Link = Link(source: nat, target: nat, value: Option<int>)

  /** The label of a disease within an age group, `${ageGroup} - ${disease}`. */
  function Scoped(ageGroup: string, disease: string): string {
    ageGroup + " - " + disease
  }

  /** The items of one age group, each paired with the group's key. */
  function Entries(ageGroup: string, items: seq<Item>): (r: seq<(string, Item)>)
    ensures |r| == |items| && forall k :: 0 <= k < |items| ==> r[k] == (ageGroup, items[k])
  {
    seq(|items|, k requires 0 <= k < |items| => (ageGroup, items[k]))
  }

  /** The order in which the two nested `forEach` loops visit the items:
      age groups in key order, items in row order. */
  function Flatten(data: seq<(string, seq<Item>)>): seq<(string, Item)> {
    if data == [] then []
    else Flatten(data[..|data| - 1]) + Entries(data[|data| - 1].0, data[|data| - 1].1)
  }

  /** The two nodes an item asks for, disease first. */
  function Candidates(done: seq<(string, Item)>): (cs: seq<Node>)
    ensures |cs| == 2 * |done|
  {
    if done == [] then []
    else
      var e := done[|done| - 1];
      Candidates(done[..|done| - 1]) + [Node(e.1.disease, "Disease"), Node(Scoped(e.0, e.1.disease), e.0)]
  }

  function Names(nodes: seq<Node>): (r: seq<string>)
    ensures |r| == |nodes| && forall i :: 0 <= i < |nodes| ==> r[i] == nodes[i].name
  {
    seq(|nodes|, i requires 0 <= i < |nodes| => nodes[i].name)
  }

  lemma NamesAppend(a: seq<Node>, b: seq<Node>)
    ensures Names(a + b) == Names(a) + Names(b)
  {
  }

  /** `if (!nodeMap.has(n.name)) nodes.push(n)`. */
  function AddByName(nodes: seq<Node>, n: Node): seq<Node> {
    if n.name in Names(nodes) then nodes else nodes + [n]
  }

  /** The node list after offering the candidates in order. */
  function FirstByName(cs: seq<Node>): seq<Node> {
    if cs == [] then [] else AddByName(FirstByName(cs[..|cs| - 1]), cs[|cs| - 1])
  }

  /** One node per distinct name, in order of first appearance. */
  lemma {:induction false} FirstByNameNames(cs: seq<Node>)
    ensures Names(FirstByName(cs)) == Dedup(Names(cs))
  {
    if cs != [] {
      var init, x := cs[..|cs| - 1], cs[|cs| - 1];
      var p := FirstByName(init);
      FirstByNameNames(init);
      assert FirstByName(cs) == AddByName(p, x);
      assert cs == init + [x];
      NamesAppend(init, [x]);
      assert Names([x]) == [x.name];
      DedupSnoc(Names(init), x.name);
      if x.name !in Names(p) {
        NamesAppend(p, [x]);
      }
    }
  }

  /** Each node is the first candidate that carried its name, so its
      category is that candidate's. */
  lemma {:induction false} FirstByNameKeepsFirst(cs: seq<Node>)
    ensures var r := FirstByName(cs);
      forall i :: 0 <= i < |r| ==> r[i].name in Names(cs) && r[i] == cs[FirstIndex(Names(cs), r[i].name)]
  {
    if cs != [] {
      var init, x := cs[..|cs| - 1], cs[|cs| - 1];
      FirstByNameKeepsFirst(init);
      FirstByNameNames(init);
      var p := FirstByName(init);
      assert FirstByName(cs) == AddByName(p, x);
      assert cs == init + [x];
      NamesAppend(init, [x]);
      assert Names(cs) == Names(init) + [x.name];
      forall i | 0 <= i < |AddByName(p, x)|
        ensures AddByName(p, x)[i].name in Names(cs)
        ensures AddByName(p, x)[i] == cs[FirstIndex(Names(cs), AddByName(p, x)[i].name)]
      {
        KeepsFirstStep(init, x, i);
      }
    }
  }

  /** One step of `FirstByNameKeepsFirst`: offering `x` after `init`. */
  lemma KeepsFirstStep(init: seq<Node>, x: Node, i: nat)
    requires forall k :: 0 <= k < |FirstByName(init)| ==>
               FirstByName(init)[k].name in Names(init) &&
               FirstByName(init)[k] == init[FirstIndex(Names(init), FirstByName(init)[k].name)]
    requires Names(FirstByName(init)) == Dedup(Names(init))
    requires i < |AddByName(FirstByName(init), x)|
    ensures var r := AddByName(FirstByName(init), x);
      r[i].name in Names(init + [x]) && r[i] == (init + [x])[FirstIndex(Names(init + [x]), r[i].name)]
  {
    var p := FirstByName(init);
    NamesAppend(init, [x]);
    assert Names(init + [x]) == Names(init) + [x.name];
    if i < |p| {
      assert AddByName(p, x)[i] == p[i];
      FirstIndexAppend(Names(init), [x.name], p[i].name);
    } else {
      assert AddByName(p, x) == p + [x];
      assert x.name !in Names(init);
      FirstIndexAppend(Names(init), [x.name], x.name);
    }
  }

  /** The node list `processData` builds for the items visited so far. */
  function NodesFor(done: seq<(string, Item)>): seq<Node> {
    FirstByName(Candidates(done))
  }

  /** An item visited adds its two candidates, in order. */
  lemma NodesForSnoc(done: seq<(string, Item)>, ageGroup: string, item: Item)
    ensures NodesFor(done + [(ageGroup, item)]) ==
            AddByName(AddByName(NodesFor(done), Node(item.disease, "Disease")),
                      Node(Scoped(ageGroup, item.disease), ageGroup))
  {
    var cs := Candidates(done);
    var a, b := Node(item.disease, "Disease"), Node(Scoped(ageGroup, item.disease), ageGroup);
    assert (done + [(ageGroup, item)])[..|done|] == done;
    assert Candidates(done + [(ageGroup, item)]) == cs + [a, b];
    assert (cs + [a, b])[..|cs| + 1] == cs + [a];
    assert FirstByName(cs + [a, b]) == AddByName(FirstByName(cs + [a]), b);
    assert (cs + [a])[..|cs|] == cs;
    assert FirstByName(cs + [a]) == AddByName(FirstByName(cs), a);
  }

  /** `nodeMap` maps exactly the node names, each to its node's index. */
  ghost predicate Indexed(nodes: seq<Node>, nodeMap: map<string, nat>) {
    && (forall name :: name in nodeMap <==> name in Names(nodes))
    && (forall name :: name in nodeMap ==> nodeMap[name] < |nodes| && nodes[nodeMap[name]].name == name)
  }

  /** The link pushed for an item: from its scoped node to its disease node. */
  ghost predicate LinkFor(l: Link, nodes: seq<Node>, e: (string, Item)) {
    && l.source < |nodes| && nodes[l.source].name == Scoped(e.0, e.1.disease)
    && l.target < |nodes| && nodes[l.target].name == e.1.disease
    && l.value == ParseInt(e.1.total)
  }

  /** The state after visiting `done`. */
  ghost predicate Processed(nodes: seq<Node>, nodeMap: map<string, nat>, links: seq<Link>,
                            done: seq<(string, Item)>) {
    && nodes == NodesFor(done)
    && Indexed(nodes, nodeMap)
    && |links| == |done|
    && forall p :: 0 <= p < |done| ==> LinkFor(links[p], nodes, done[p])
  }

  /** Adds node `n` unless its name is already mapped. */
  method AddNode(nodes: seq<Node>, nodeMap: map<string, nat>, n: Node)
    returns (nodes': seq<Node>, nodeMap': map<string, nat>)
    requires Indexed(nodes, nodeMap)
    ensures nodes' == AddByName(nodes, n) && Indexed(nodes', nodeMap')
    ensures n.name in nodeMap' && forall name :: name in nodeMap ==> name in nodeMap' && nodeMap'[name] == nodeMap[name]
  {
    nodes', nodeMap' := nodes, nodeMap;
    if n.name !in nodeMap {
      nodeMap' := nodeMap[n.name := |nodes|];
      nodes' := nodes + [n];
      assert Names(nodes') == Names(nodes) + [n.name];
    }
  }

  lemma LinksKept(nodes: seq<Node>, nodes': seq<Node>, links: seq<Link>, done: seq<(string, Item)>)
    requires |links| == |done| && forall p :: 0 <= p < |done| ==> LinkFor(links[p], nodes, done[p])
    requires |nodes| <= |nodes'| && nodes'[..|nodes|] == nodes
    ensures forall p :: 0 <= p < |done| ==> LinkFor(links[p], nodes', done[p])
  {
    forall p | 0 <= p < |done| ensures LinkFor(links[p], nodes', done[p]) {
      assert nodes'[links[p].source] == nodes[links[p].source];
      assert nodes'[links[p].target] == nodes[links[p].target];
    }
  }

  lemma AddByNameExtends(nodes: seq<Node>, n: Node)
    ensures |nodes| <= |AddByName(nodes, n)| && AddByName(nodes, n)[..|nodes|] == nodes
  {
  }

  lemma LinksSnoc(links: seq<Link>, nodes: seq<Node>, done: seq<(string, Item)>, l: Link, e: (string, Item))
    requires |links| == |done| && forall p :: 0 <= p < |done| ==> LinkFor(links[p], nodes, done[p])
    requires LinkFor(l, nodes, e)
    ensures forall p :: 0 <= p < |done| + 1 ==> LinkFor((links + [l])[p], nodes, (done + [e])[p])
  {
  }

  /** The body of the inner `forEach`. */
  method VisitItem(nodes: seq<Node>, nodeMap: map<string, nat>, links: seq<Link>,
                   ageGroup: string, item: Item, ghost done: seq<(string, Item)>)
    returns (nodes': seq<Node>, nodeMap': map<string, nat>, links': seq<Link>)
    requires Processed(nodes, nodeMap, links, done)
    ensures Processed(nodes', nodeMap', links', done + [(ageGroup, item)])
  {
    var disease := item.disease;
    var withDisease, map1 := AddNode(nodes, nodeMap, Node(disease, "Disease"));
    var key := Scoped(ageGroup, disease);
    nodes', nodeMap' := AddNode(withDisease, map1, Node(key, ageGroup));
    var link := Link(nodeMap'[key], nodeMap'[disease], ParseInt(item.total));
    links' := links + [link];
    NodesForSnoc(done, ageGroup, item);
    AddByNameExtends(nodes, Node(disease, "Disease"));
    AddByNameExtends(withDisease, Node(key, ageGroup));
    LinksKept(nodes, nodes', links, done);
    LinksSnoc(links, nodes', done, link, (ageGroup, item));
  }

  /** Links whose source or target is not a node: what the check logs. */
  function Dangling(nodes: seq<Node>, links: seq<Link>): (r: seq<Link>)
    ensures forall k :: 0 <= k < |r| ==> r[k] in links && (r[k].source >= |nodes| || r[k].target >= |nodes|)
    ensures r == [] <==> forall i :: 0 <= i < |links| ==> links[i].source < |nodes| && links[i].target < |nodes|
  {
    if links == [] then []
    else
      var l := links[|links| - 1];
      var r := Dangling(nodes, links[..|links| - 1]);
      assert links == links[..|links| - 1] + [l];
      if l.source < |nodes| && l.target < |nodes| then r else r + [l]
  }

  /** `links.forEach(link => { if (!nodes[link.source] || !nodes[link.target]) console.error(...) })`:
      returns the links it would report, in order; the links themselves are
      left as they are. */
  method CheckLinks(nodes: seq<Node>, links: seq<Link>) returns (logged: seq<Link>)
    ensures logged == Dangling(nodes, links)
  {
    logged := [];
    var i := 0;
    while i < |links|
      invariant 0 <= i <= |links| && logged == Dangling(nodes, links[..i])
    {
      assert links[..i + 1][..i] == links[..i];
      var l := links[i];
      if !(l.source < |nodes|) || !(l.target < |nodes|) {
        logged := logged + [l];
      }
      i := i + 1;
    }
    assert links[..i] == links;
  }

  lemma FlattenNext(data: seq<(string, seq<Item>)>, a: nat)
    requires a < |data|
    ensures Flatten(data[..a + 1]) == Flatten(data[..a]) + Entries(data[a].0, data[a].1)
  {
    assert data[..a + 1][..a] == data[..a];
  }

  lemma EntriesNext(ageGroup: string, items: seq<Item>, j: nat)
    requires j < |items|
    ensures Entries(ageGroup, items[..j + 1]) == Entries(ageGroup, items[..j]) + [(ageGroup, items[j])]
  {
  }

  /** The inner `forEach` over the items of one age group. */
  method VisitGroup(nodes: seq<Node>, nodeMap: map<string, nat>, links: seq<Link>,
                    ageGroup: string, items: seq<Item>, ghost done: seq<(string, Item)>)
    returns (nodes': seq<Node>, nodeMap': map<string, nat>, links': seq<Link>)
    requires Processed(nodes, nodeMap, links, done)
    ensures Processed(nodes', nodeMap', links', done + Entries(ageGroup, items))
  {
    nodes', nodeMap', links' := nodes, nodeMap, links;
    assert done + Entries(ageGroup, items[..0]) == done;
    var j := 0;
    while j < |items|
      invariant 0 <= j <= |items|
      invariant Processed(nodes', nodeMap', links', done + Entries(ageGroup, items[..j]))
    {
      ghost var before := done + Entries(ageGroup, items[..j]);
      EntriesNext(ageGroup, items, j);
      assert done + Entries(ageGroup, items[..j + 1]) == before + [(ageGroup, items[j])];
      nodes', nodeMap', links' := VisitItem(nodes', nodeMap', links', ageGroup, items[j], before);
      j := j + 1;
    }
    assert items[..j] == items;
  }

  /** The outer `forEach` over the age groups. */
  method VisitGroups(data: seq<(string, seq<Item>)>)
    returns (nodes: seq<Node>, nodeMap: map<string, nat>, links: seq<Link>)
    ensures Processed(nodes, nodeMap, links, Flatten(data))
  {
    nodes, nodeMap, links := [], map[], [];
    var a := 0;
    while a < |data|
      invariant 0 <= a <= |data|
      invariant Processed(nodes, nodeMap, links, Flatten(data[..a]))
    {
      FlattenNext(data, a);
      nodes, nodeMap, links := VisitGroup(nodes, nodeMap, links, data[a].0, data[a].1, Flatten(data[..a]));
      a := a + 1;
    }
    assert data[..a] == data;
  }

  /** `processData(data)`, `data` given as its `Object.keys` order of age
      groups with their items. Returns the nodes, the links, and what the
      dangling-endpoint check logs. */
  method ProcessData(data: seq<(string, seq<Item>)>)
    returns (nodes: seq<Node>, links: seq<Link>, logged: seq<Link>)
    ensures nodes == NodesFor(Flatten(data))
    ensures |links| == |Flatten(data)|
    ensures forall p :: 0 <= p < |links| ==> LinkFor(links[p], nodes, Flatten(data)[p])
    ensures logged == Dangling(nodes, links) && logged == []
  {
    var nodeMap;
    nodes, nodeMap, links := VisitGroups(data);
    logged := CheckLinks(nodes, links);
  }

  /** The keys offered to `nodeMap`: disease, then scoped label, per item. */
  lemma CandidateNames(done: seq<(string, Item)>)
    ensures forall p :: 0 <= p < |done| ==>
              Names(Candidates(done))[2 * p] == done[p].1.disease &&
              Names(Candidates(done))[2 * p + 1] == Scoped(done[p].0, done[p].1.disease)
  {
    if done != [] {
      CandidateNames(done[..|done| - 1]);
      assert forall p :: 0 <= p < |done| - 1 ==> done[..|done| - 1][p] == done[p];
    }
  }

  /** One node per distinct key, disease names and scoped labels together,
      in order of first appearance; every node's category is that of the
      item that first asked for its name ("Disease", or the age group). */
  lemma NodesAreDistinctKeys(data: seq<(string, seq<Item>)>)
    ensures var done := Flatten(data);
      var nodes := NodesFor(done);
      && Names(nodes) == Dedup(Names(Candidates(done)))
      && Distinct(Names(nodes))
      && (forall p :: 0 <= p < |done| ==>
            done[p].1.disease in Names(nodes) && Scoped(done[p].0, done[p].1.disease) in Names(nodes))
      && (forall i :: 0 <= i < |nodes| ==>
            nodes[i] == Candidates(done)[FirstIndex(Names(Candidates(done)), nodes[i].name)])
  {
    var done := Flatten(data);
    FirstByNameNames(Candidates(done));
    FirstByNameKeepsFirst(Candidates(done));
    CandidateNames(done);
  }

  /** Every node's category is "Disease" or one of the age-group keys. */
  lemma CategoriesAreKnown(data: seq<(string, seq<Item>)>)
    ensures var done := Flatten(data);
      forall i :: 0 <= i < |NodesFor(done)| ==>
        NodesFor(done)[i].category == "Disease" ||
        exists p :: 0 <= p < |done| && NodesFor(done)[i].category == done[p].0
  {
    var done := Flatten(data);
    var cs := Candidates(done);
    var nodes := NodesFor(done);
    assert nodes == FirstByName(cs);
    FirstByNameKeepsFirst(cs);
    CandidateCategories(done);
    forall i | 0 <= i < |nodes|
      ensures nodes[i].category == "Disease" || exists p :: 0 <= p < |done| && nodes[i].category == done[p].0
    {
      assert nodes[i] == cs[FirstIndex(Names(cs), nodes[i].name)];
    }
  }

  lemma {:induction false} CandidateCategories(done: seq<(string, Item)>)
    ensures forall k :: 0 <= k < |Candidates(done)| ==>
              Candidates(done)[k].category == "Disease" ||
              exists p :: 0 <= p < |done| && Candidates(done)[k].category == done[p].0
  {
    if done != [] {
      var init := done[..|done| - 1];
      CandidateCategories(init);
      forall k | 0 <= k < |Candidates(done)|
        ensures Candidates(done)[k].category == "Disease" ||
                exists p :: 0 <= p < |done| && Candidates(done)[k].category == done[p].0
      {
        if k < |Candidates(init)| {
          if Candidates(init)[k].category != "Disease" {
            var p :| 0 <= p < |init| && Candidates(init)[k].category == init[p].0;
            assert done[p] == init[p];
          }
        } else if k == |Candidates(init)| + 1 {
          assert Candidates(done)[k].category == done[|done| - 1].0;
        }
      }
    }
  }
}
