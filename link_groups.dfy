/** The link grouping both Sankey views run after layout (`assignGroup`):
    scanning the links in order, each link that has no group yet starts a new
    group id and a stack-based flood fill gives that id to every ungrouped link
    reachable through the head-to-tail relation `Joins`. The groups are exactly
    the connected components of `Joins`, numbered in order of their first link. */
module LinkGroups {
  import opened Sequences
  import opened SankeyGraph

  /** While visiting `c`, `assignGroup` pushes `l` exactly when `l` starts where
      `c` ends or `l` ends where `c` starts. */
  predicate Joins(c: Link, l: Link) {
    l.source == c.target || l.target == c.source
  }

  /** The relation is symmetric, so the flood fill finds whole components. */
  lemma JoinsSymmetric(a: Link, b: Link)
    ensures Joins(a, b) <==> Joins(b, a)
  {
  }

  /** Two links with the same target only, or the same source only, are not
      joined directly. */
  lemma SharedEndpointIsNotEnough(a: nat, b: nat, c: nat, v: real)
    requires a != b && b != c && a != c
    ensures !Joins(Link(a, b, v), Link(c, b, v))
    ensures !Joins(Link(a, b, v), Link(a, c, v))
  {
  }

  /** Entry `k` of the chain `p` is joined to entry `k + 1`. */
  ghost predicate Step(links: seq<Link>, p: seq<nat>, k: int) {
    0 <= k && k + 1 < |p| && p[k] < |links| && p[k + 1] < |links| && Joins(links[p[k]], links[p[k + 1]])
  }

  /** A chain of link indices, each joined to the next. */
  ghost predicate IsPath(links: seq<Link>, p: seq<nat>) {
    && |p| > 0
    && (forall k :: 0 <= k < |p| ==> p[k] < |links|)
    && (forall k :: 0 <= k < |p| - 1 ==> Step(links, p, k))
  }

  /** Link `j` is reached from link `i` through a chain of joined links. */
  ghost predicate Connected(links: seq<Link>, i: nat, j: nat) {
    exists p :: IsPath(links, p) && p[0] == i && p[|p| - 1] == j
  }

  function Reverse(p: seq<nat>): (r: seq<nat>)
    ensures |r| == |p|
    ensures forall k :: 0 <= k < |p| ==> r[k] == p[|p| - 1 - k]
  {
    seq(|p|, k requires 0 <= k < |p| => p[|p| - 1 - k])
  }

  lemma PathReverse(links: seq<Link>, p: seq<nat>)
    requires IsPath(links, p)
    ensures IsPath(links, Reverse(p))
  {
    var r := Reverse(p);
    forall k | 0 <= k < |r| - 1 ensures Step(links, r, k) {
      var m := |p| - 2 - k;
      assert r[k] == p[m + 1] && r[k + 1] == p[m];
      assert Step(links, p, m);
    }
  }

  lemma PathConcat(links: seq<Link>, p: seq<nat>, q: seq<nat>)
    requires IsPath(links, p) && IsPath(links, q) && p[|p| - 1] == q[0]
    ensures IsPath(links, p + q[1..])
  {
    var r := p + q[1..];
    forall k | 0 <= k < |r| - 1 ensures Step(links, r, k) {
      if k < |p| - 1 {
        assert Step(links, p, k);
      } else if k == |p| - 1 {
        assert r[k] == q[0] && r[k + 1] == q[1];
        assert Step(links, q, 0);
      } else {
        assert r[k] == q[k - |p| + 1] && r[k + 1] == q[k - |p| + 2];
        assert Step(links, q, k - |p| + 1);
      }
    }
  }

  lemma PathExtend(links: seq<Link>, p: seq<nat>, l: nat)
    requires IsPath(links, p) && l < |links| && Joins(links[p[|p| - 1]], links[l])
    ensures IsPath(links, p + [l])
  {
    var r := p + [l];
    forall k | 0 <= k < |r| - 1 ensures Step(links, r, k) {
      if k < |p| - 1 {
        assert r[k] == p[k] && r[k + 1] == p[k + 1];
        assert Step(links, p, k);
      }
    }
  }

  lemma ConnectedReflexive(links: seq<Link>, i: nat)
    requires i < |links|
    ensures Connected(links, i, i)
  {
    assert IsPath(links, [i]);
  }

  lemma ConnectedExtend(links: seq<Link>, i: nat, j: nat, l: nat)
    requires Connected(links, i, j) && l < |links| && Joins(links[j], links[l])
    ensures Connected(links, i, l)
  {
    var p :| IsPath(links, p) && p[0] == i && p[|p| - 1] == j;
    PathExtend(links, p, l);
    assert (p + [l])[0] == i;
  }

  lemma ConnectedSymmetric(links: seq<Link>, i: nat, j: nat)
    requires Connected(links, i, j)
    ensures Connected(links, j, i)
  {
    var p :| IsPath(links, p) && p[0] == i && p[|p| - 1] == j;
    PathReverse(links, p);
  }

  lemma ConnectedTransitive(links: seq<Link>, i: nat, j: nat, k: nat)
    requires Connected(links, i, j) && Connected(links, j, k)
    ensures Connected(links, i, k)
  {
    var p :| IsPath(links, p) && p[0] == i && p[|p| - 1] == j;
    var q :| IsPath(links, q) && q[0] == j && q[|q| - 1] == k;
    PathConcat(links, p, q);
    var r := p + q[1..];
    assert r[0] == i;
    if |q| == 1 {
      assert r == p;
    } else {
      assert r[|r| - 1] == q[|q| - 1];
    }
  }

  /** Ungrouped links (`group === undefined`, written -1). */
  function Ungrouped(s: seq<int>): set<int> {
    set j | 0 <= j < |s| && s[j] == -1
  }

  lemma UngroupedShrinks(s: seq<int>, c: nat, g: nat)
    requires c < |s| && s[c] == -1
    ensures |Ungrouped(s[c := g])| < |Ungrouped(s)|
  {
    assert Ungrouped(s[c := g]) == Ungrouped(s) - {c};
  }

  /** `s[j]` is link `j`'s group or -1; `lg[g]` (the `links` of
      `linkGroups[g]`) lists the links of group `g`, each once. */
  ghost predicate Listed(s: seq<int>, lg: seq<seq<nat>>) {
    && (forall j :: 0 <= j < |s| ==> -1 <= s[j] < |lg|)
    && (forall g :: 0 <= g < |lg| ==> |lg[g]| > 0 && Distinct(lg[g]))
    && (forall g, k :: 0 <= g < |lg| && 0 <= k < |lg[g]| ==> lg[g][k] < |s| && s[lg[g][k]] == g)
    && (forall j :: 0 <= j < |s| && s[j] >= 0 ==> j in lg[s[j]])
  }

  /** Every grouped link is reached from its group's first link. */
  ghost predicate Rooted(links: seq<Link>, s: seq<int>, lg: seq<seq<nat>>) {
    && Listed(s, lg)
    && |s| == |links|
    && (forall j :: 0 <= j < |s| && s[j] >= 0 ==> Connected(links, lg[s[j]][0], j))
  }

  /** Groups below `bound` are closed under `Joins`. */
  ghost predicate ClosedBelow(links: seq<Link>, s: seq<int>, bound: int)
    requires |s| == |links|
  {
    forall i, j :: 0 <= i < |s| && 0 <= j < |s| && 0 <= s[i] < bound && Joins(links[i], links[j]) ==>
      s[j] == s[i]
  }

  /** During the flood fill of group `g`: every link joined to a member of
      `g` is in `g` already or waits on the stack. */
  ghost predicate Frontier(links: seq<Link>, s: seq<int>, g: int, stack: seq<nat>)
    requires |s| == |links|
  {
    forall i, j :: 0 <= i < |s| && 0 <= j < |s| && s[i] == g && Joins(links[i], links[j]) ==>
      s[j] == g || j in stack
  }

  /** Every link on the stack is reached from the seed. */
  ghost predicate StackRooted(links: seq<Link>, stack: seq<nat>, seed: nat) {
    forall k :: 0 <= k < |stack| ==> stack[k] < |links| && Connected(links, seed, stack[k])
  }

  /** Record `c` as the next member of group `g`, creating the group on its
      first member. */
  function Enroll(lg: seq<seq<nat>>, g: nat, c: nat): (r: seq<seq<nat>>)
    requires |lg| == g || |lg| == g + 1
    ensures |r| == g + 1 && r[..g] == lg[..g]
    ensures r[g] == (if |lg| == g then [] else lg[g]) + [c]
  {
    if |lg| == g then lg + [[c]] else lg[g := lg[g] + [c]]
  }

  lemma EnrollKeepsListed(s: seq<int>, lg: seq<seq<nat>>, g: nat, c: nat)
    requires Listed(s, lg) && (|lg| == g || |lg| == g + 1)
    requires c < |s| && s[c] == -1
    ensures Listed(s[c := g], Enroll(lg, g, c))
  {
    var s', lg' := s[c := g], Enroll(lg, g, c);
    assert c !in lg'[g][..|lg'[g]| - 1];
    forall h, k | 0 <= h < |lg'| && 0 <= k < |lg'[h]| ensures lg'[h][k] < |s'| && s'[lg'[h][k]] == h {
      if h < g { assert lg'[h] == lg[h]; }
    }
    forall j | 0 <= j < |s'| && s'[j] >= 0 ensures j in lg'[s'[j]] {
      if j != c && s[j] < g { assert lg'[s[j]] == lg[s[j]]; }
    }
    forall h | 0 <= h < |lg'| ensures |lg'[h]| > 0 && Distinct(lg'[h]) {
      if h < g { assert lg'[h] == lg[h]; }
    }
  }

  lemma EnrollKeepsRooted(links: seq<Link>, s: seq<int>, lg: seq<seq<nat>>, g: nat, c: nat)
    requires Rooted(links, s, lg) && (|lg| == g || |lg| == g + 1)
    requires c < |s| && s[c] == -1
    requires |lg| == g || Connected(links, lg[g][0], c)
    ensures Rooted(links, s[c := g], Enroll(lg, g, c))
  {
    var s', lg' := s[c := g], Enroll(lg, g, c);
    EnrollKeepsListed(s, lg, g, c);
    forall j | 0 <= j < |s'| && s'[j] >= 0 ensures Connected(links, lg'[s'[j]][0], j) {
      if j == c {
        if |lg| == g {
          assert lg'[g] == [c];
          ConnectedReflexive(links, c);
        } else {
          assert lg'[g][0] == lg[g][0];
        }
      } else {
        assert s'[j] == s[j];
        if s[j] < g {
          assert lg'[s[j]] == lg[s[j]];
        } else {
          assert lg'[g][0] == lg[g][0];
        }
      }
    }
  }

  lemma AssignKeepsClosed(links: seq<Link>, s: seq<int>, g: nat, c: nat)
    requires |s| == |links| && c < |s| && s[c] == -1
    requires ClosedBelow(links, s, g)
    ensures ClosedBelow(links, s[c := g], g)
  {
  }

  lemma FrontierAfterAssign(links: seq<Link>, s: seq<int>, g: nat, popped: seq<nat>, stack: seq<nat>)
    requires |popped| > 0
    requires var c := popped[|popped| - 1]; |s| == |links| && c < |s| && s[c] == -1
    requires forall j :: 0 <= j < |s| ==> -1 <= s[j] <= g
    requires ClosedBelow(links, s, g)
    requires Frontier(links, s, g, popped)
    requires |popped| - 1 <= |stack| && stack[..|popped| - 1] == popped[..|popped| - 1]
    requires var c := popped[|popped| - 1];
      forall m :: 0 <= m < |s| && Joins(links[c], links[m]) && s[c := g][m] == -1 ==> m in stack
    ensures Frontier(links, s[popped[|popped| - 1] := g], g, stack)
  {
    var c := popped[|popped| - 1];
    var rest := popped[..|popped| - 1];
    assert popped == rest + [c];
    assert forall x :: x in rest ==> x in stack by {
      forall x | x in rest ensures x in stack {
        var k :| 0 <= k < |rest| && rest[k] == x;
        assert stack[k] == x;
      }
    }
    var s' := s[c := g];
    forall i, j | 0 <= i < |s'| && 0 <= j < |s'| && s'[i] == g && Joins(links[i], links[j])
      ensures s'[j] == g || j in stack
    {
      assert Joins(links[j], links[i]);
    }
  }

  lemma FrontierAfterSkip(links: seq<Link>, s: seq<int>, g: nat, popped: seq<nat>)
    requires |popped| > 0
    requires var c := popped[|popped| - 1]; |s| == |links| && c < |s| && s[c] != -1
    requires forall j :: 0 <= j < |s| ==> -1 <= s[j] <= g
    requires ClosedBelow(links, s, g)
    requires Frontier(links, s, g, popped)
    ensures Frontier(links, s, g, popped[..|popped| - 1])
  {
    var c := popped[|popped| - 1];
    var rest := popped[..|popped| - 1];
    assert popped == rest + [c];
    forall i, j | 0 <= i < |s| && 0 <= j < |s| && s[i] == g && Joins(links[i], links[j])
      ensures s[j] == g || j in rest
    {
      assert Joins(links[j], links[i]);
    }
  }

  /** With the stack empty the new group is closed too. */
  lemma FrontierCloses(links: seq<Link>, s: seq<int>, g: nat)
    requires |s| == |links| && forall j :: 0 <= j < |s| ==> -1 <= s[j] <= g
    requires ClosedBelow(links, s, g) && Frontier(links, s, g, [])
    ensures ClosedBelow(links, s, g + 1)
  {
  }

  /** What `links.forEach(l => ...)` inside `assignGroup` pushes while scanning
      the first `n` links: those joined to `current` with no group yet, in
      index order. */
  function Pushed(links: seq<Link>, groups: seq<int>, current: nat, n: nat): (r: seq<nat>)
    requires |groups| == |links| && current < |links| && n <= |links|
    ensures forall k :: 0 <= k < |r| ==> r[k] < n
    ensures forall k, k' :: 0 <= k < k' < |r| ==> r[k] < r[k']
    ensures forall m :: 0 <= m < n ==> (m in r <==> Joins(links[current], links[m]) && groups[m] == -1)
  {
    if n == 0 then []
    else
      var r := Pushed(links, groups, current, n - 1);
      if Joins(links[current], links[n - 1]) && groups[n - 1] == -1 then r + [n - 1] else r
  }

  /** `links.forEach(l => ...)` inside `assignGroup`: the links joined to
      `current` that have no group yet, pushed in index order. */
  method PushNeighbours(links: seq<Link>, groups: seq<int>, current: nat, stack: seq<nat>, ghost seed: nat)
    returns (stack': seq<nat>)
    requires |groups| == |links| && current < |links|
    requires StackRooted(links, stack, seed) && Connected(links, seed, current)
    ensures StackRooted(links, stack', seed)
    ensures |stack| <= |stack'| && stack'[..|stack|] == stack
    ensures forall m :: 0 <= m < |links| && Joins(links[current], links[m]) && groups[m] == -1 ==> m in stack'
    ensures forall k :: |stack| <= k < |stack'| ==> Joins(links[current], links[stack'[k]]) && groups[stack'[k]] == -1
    ensures stack'[|stack|..] == Pushed(links, groups, current, |links|)
  {
    stack' := stack;
    var l := 0;
    while l < |links|
      invariant 0 <= l <= |links|
      invariant |stack| <= |stack'| && stack'[..|stack|] == stack
      invariant StackRooted(links, stack', seed)
      invariant stack'[|stack|..] == Pushed(links, groups, current, l)
    {
      if Joins(links[current], links[l]) && groups[l] == -1 {
        ConnectedExtend(links, seed, current, l);
        stack' := stack' + [l];
      }
      l := l + 1;
    }
    ghost var r := Pushed(links, groups, current, |links|);
    forall m | 0 <= m < |links| && Joins(links[current], links[m]) && groups[m] == -1 ensures m in stack' {
      var k :| 0 <= k < |r| && r[k] == m;
      assert stack'[|stack| + k] == m;
    }
    forall k | |stack| <= k < |stack'|
      ensures Joins(links[current], links[stack'[k]]) && groups[stack'[k]] == -1
    {
      assert stack'[k] == r[k - |stack|];
    }
  }

  /** The state of `assignGroup(seed, group)` between two pops of its stack:
      `s`/`lg` are the fields and groups now, `groups`/`linkGroups` those on entry. */
  ghost predicate Filling(links: seq<Link>, groups: seq<int>, linkGroups: seq<seq<nat>>,
                          s: seq<int>, lg: seq<seq<nat>>, group: nat, seed: nat, stack: seq<nat>) {
    && |groups| == |links| && seed < |links| && group == |linkGroups| && |s| == |links|
    && (|lg| == group || |lg| == group + 1)
    && lg[..group] == linkGroups
    && (|lg| == group ==> stack == [seed] && s[seed] == -1)
    && Rooted(links, s, lg)
    && (|lg| == group + 1 ==> lg[group][0] == seed)
    && ClosedBelow(links, s, group)
    && Frontier(links, s, group, stack)
    && StackRooted(links, stack, seed)
    && (forall j :: 0 <= j < |links| && groups[j] >= 0 ==> s[j] == groups[j])
    && (forall j :: 0 <= j < |links| && groups[j] == -1 ==> s[j] == -1 || s[j] == group)
  }

  /** Popping an ungrouped link: it joins the group and its ungrouped
      neighbours are pushed. */
  lemma VisitNew(links: seq<Link>, groups: seq<int>, linkGroups: seq<seq<nat>>, group: nat, seed: nat,
                 s: seq<int>, lg: seq<seq<nat>>, popped: seq<nat>, s': seq<int>, lg': seq<seq<nat>>, stack: seq<nat>)
    requires Filling(links, groups, linkGroups, s, lg, group, seed, popped)
    requires |popped| > 0 && popped[|popped| - 1] < |s| && s[popped[|popped| - 1]] == -1
    requires s' == s[popped[|popped| - 1] := group]
    requires lg' == Enroll(lg, group, popped[|popped| - 1])
    requires |popped| - 1 <= |stack| && stack[..|popped| - 1] == popped[..|popped| - 1]
    requires StackRooted(links, stack, seed)
    requires var c := popped[|popped| - 1];
      forall m :: 0 <= m < |links| && Joins(links[c], links[m]) && s'[m] == -1 ==> m in stack
    ensures Filling(links, groups, linkGroups, s', lg', group, seed, stack)
    ensures |Ungrouped(s')| < |Ungrouped(s)|
  {
    var c := popped[|popped| - 1];
    UngroupedShrinks(s, c, group);
    assert Connected(links, seed, c);
    EnrollKeepsRooted(links, s, lg, group, c);
    AssignKeepsClosed(links, s, group, c);
    assert forall j :: 0 <= j < |s| ==> -1 <= s[j] <= group;
    FrontierAfterAssign(links, s, group, popped, stack);
    assert lg'[..group] == lg[..group];
  }

  /** Popping a link that already has a group changes nothing else. */
  lemma VisitSkip(links: seq<Link>, groups: seq<int>, linkGroups: seq<seq<nat>>, group: nat, seed: nat,
                  s: seq<int>, lg: seq<seq<nat>>, popped: seq<nat>)
    requires Filling(links, groups, linkGroups, s, lg, group, seed, popped)
    requires |popped| > 0 && popped[|popped| - 1] < |s| && s[popped[|popped| - 1]] != -1
    ensures Filling(links, groups, linkGroups, s, lg, group, seed, popped[..|popped| - 1])
  {
    assert forall j :: 0 <= j < |s| ==> -1 <= s[j] <= group;
    FrontierAfterSkip(links, s, group, popped);
  }

  /** With the stack empty the new group is complete and closed. */
  lemma FillingDone(links: seq<Link>, groups: seq<int>, linkGroups: seq<seq<nat>>, group: nat, seed: nat,
                    s: seq<int>, lg: seq<seq<nat>>)
    requires Filling(links, groups, linkGroups, s, lg, group, seed, [])
    ensures |lg| == group + 1 && lg[group][0] == seed && s[seed] == group
    ensures ClosedBelow(links, s, group + 1)
  {
    assert forall j :: 0 <= j < |s| ==> -1 <= s[j] <= group;
    FrontierCloses(links, s, group);
    assert s[lg[group][0]] == group;
  }

  /** `assignGroup(link, group)`: flood fill from the ungrouped link `seed`.
      `groups[j]` is the `group` field of link `j` (-1 while unset). */
  method AssignGroup(links: seq<Link>, groups: seq<int>, linkGroups: seq<seq<nat>>, seed: nat, group: nat)
    returns (groups': seq<int>, linkGroups': seq<seq<nat>>)
    requires |groups| == |links| && seed < |links| && groups[seed] == -1 && group == |linkGroups|
    requires Rooted(links, groups, linkGroups)
    requires ClosedBelow(links, groups, group)
    ensures |groups'| == |links|
    ensures |linkGroups'| == group + 1 && linkGroups'[..group] == linkGroups
    ensures Rooted(links, groups', linkGroups')
    ensures linkGroups'[group][0] == seed && groups'[seed] == group
    ensures ClosedBelow(links, groups', group + 1)
    ensures forall j :: 0 <= j < |links| && groups[j] >= 0 ==> groups'[j] == groups[j]
    ensures forall j :: 0 <= j < |links| && groups[j] == -1 ==> groups'[j] == -1 || groups'[j] == group
  {
    groups', linkGroups' := groups, linkGroups;
    var stack: seq<nat> := [seed];
    ConnectedReflexive(links, seed);
    while |stack| > 0
      invariant Filling(links, groups, linkGroups, groups', linkGroups', group, seed, stack)
      decreases |Ungrouped(groups')|, |stack|
    {
      var current := stack[|stack| - 1];
      ghost var popped, st, lg := stack, groups', linkGroups';
      stack := stack[..|stack| - 1];
      if groups'[current] == -1 {
        groups' := groups'[current := group];
        if |linkGroups'| == group {
          linkGroups' := linkGroups' + [[]];
        }
        linkGroups' := linkGroups'[group := linkGroups'[group] + [current]];
        assert linkGroups' == Enroll(lg, group, current);
        stack := PushNeighbours(links, groups', current, stack, seed);
        VisitNew(links, groups, linkGroups, group, seed, st, lg, popped, groups', linkGroups', stack);
      } else {
        VisitSkip(links, groups, linkGroups, group, seed, st, lg, popped);
      }
    }
    FillingDone(links, groups, linkGroups, group, seed, groups', linkGroups');
  }

  /** A group's first link is the first link of the scan without an earlier group. */
  ghost predicate SeedsFirst(s: seq<int>, lg: seq<seq<nat>>)
    requires Listed(s, lg)
  {
    forall g, j :: 0 <= g < |lg| && 0 <= j < lg[g][0] ==> 0 <= s[j] < g
  }

  /** A closed set of groups agrees along any chain that starts inside it. */
  lemma {:induction false} SameGroupAlongPath(links: seq<Link>, s: seq<int>, bound: int, p: seq<nat>)
    requires |s| == |links| && ClosedBelow(links, s, bound) && IsPath(links, p)
    requires 0 <= s[p[0]] < bound
    ensures s[p[|p| - 1]] == s[p[0]]
    decreases |p|
  {
    if |p| > 1 {
      var q := p[..|p| - 1];
      assert IsPath(links, q) by {
        forall k | 0 <= k < |q| - 1 ensures Step(links, q, k) {
          assert Step(links, p, k);
        }
      }
      SameGroupAlongPath(links, s, bound, q);
      assert Step(links, p, |p| - 2);
    }
  }

  /** Once every link has a group, the groups are the connected components. */
  lemma GroupsAreComponents(links: seq<Link>, s: seq<int>, lg: seq<seq<nat>>)
    requires Rooted(links, s, lg) && ClosedBelow(links, s, |lg|)
    requires forall j :: 0 <= j < |s| ==> s[j] >= 0
    ensures forall i, j :: 0 <= i < |s| && 0 <= j < |s| ==> (s[i] == s[j] <==> Connected(links, i, j))
  {
    forall i, j | 0 <= i < |s| && 0 <= j < |s| ensures s[i] == s[j] <==> Connected(links, i, j) {
      if Connected(links, i, j) {
        var p :| IsPath(links, p) && p[0] == i && p[|p| - 1] == j;
        SameGroupAlongPath(links, s, |lg|, p);
      }
      if s[i] == s[j] {
        var r := lg[s[i]][0];
        ConnectedSymmetric(links, r, i);
        ConnectedTransitive(links, i, r, j);
      }
    }
  }

  /** The state of the outer scan before link `i`. */
  ghost predicate Scanned(links: seq<Link>, s: seq<int>, lg: seq<seq<nat>>, i: nat) {
    && i <= |links| && |s| == |links|
    && Rooted(links, s, lg)
    && ClosedBelow(links, s, |lg|)
    && SeedsFirst(s, lg)
    && (forall j :: 0 <= j < i ==> s[j] >= 0)
  }

  lemma ScanStart(links: seq<Link>)
    ensures Scanned(links, seq(|links|, _ => -1), [], 0)
  {
  }

  lemma SeedsFirstKept(s0: seq<int>, lg0: seq<seq<nat>>, s: seq<int>, lg: seq<seq<nat>>, seed: nat)
    requires Listed(s0, lg0) && SeedsFirst(s0, lg0) && Listed(s, lg)
    requires |s0| == |s| && seed < |s| && forall j :: 0 <= j < seed ==> s0[j] >= 0
    requires forall j :: 0 <= j < |s| && s0[j] >= 0 ==> s[j] == s0[j]
    requires |lg| == |lg0| + 1 && lg[..|lg0|] == lg0 && lg[|lg0|][0] == seed
    ensures SeedsFirst(s, lg)
  {
    forall g, j | 0 <= g < |lg| && 0 <= j < lg[g][0] ensures 0 <= s[j] < g {
      if g < |lg0| {
        assert lg[g] == lg0[g];
      }
    }
  }

  /** Link `i` seeded a new group. */
  lemma ScanNew(links: seq<Link>, s0: seq<int>, lg0: seq<seq<nat>>, s: seq<int>, lg: seq<seq<nat>>, i: nat)
    requires Scanned(links, s0, lg0, i) && i < |links| && s0[i] == -1
    requires |s| == |links| && Rooted(links, s, lg) && ClosedBelow(links, s, |lg|)
    requires |lg| == |lg0| + 1 && lg[..|lg0|] == lg0 && lg[|lg0|][0] == i && s[i] == |lg0|
    requires forall j :: 0 <= j < |links| && s0[j] >= 0 ==> s[j] == s0[j]
    ensures Scanned(links, s, lg, i + 1)
  {
    SeedsFirstKept(s0, lg0, s, lg, i);
  }

  /** Link `i` already had a group. */
  lemma ScanSkip(links: seq<Link>, s: seq<int>, lg: seq<seq<nat>>, i: nat)
    requires Scanned(links, s, lg, i) && i < |links| && s[i] != -1
    ensures Scanned(links, s, lg, i + 1)
  {
  }

  /** The `group` fields once every link has one. */
  function Settled(s: seq<int>): (r: seq<nat>)
    requires forall j :: 0 <= j < |s| ==> s[j] >= 0
    ensures |r| == |s| && forall j :: 0 <= j < |s| ==> r[j] == s[j]
  {
    seq(|s|, j requires 0 <= j < |s| => s[j] as nat)
  }

  /** What the completed scan establishes, stated on the settled fields. */
  lemma SettledGroups(links: seq<Link>, s: seq<int>, lg: seq<seq<nat>>)
    requires Scanned(links, s, lg, |links|)
    ensures var groups := Settled(s);
      && (forall i :: 0 <= i < |links| ==> groups[i] < |lg| && i in lg[groups[i]])
      && (forall g, k :: 0 <= g < |lg| && 0 <= k < |lg[g]| ==> lg[g][k] < |links| && groups[lg[g][k]] == g)
      && (forall i, j :: 0 <= i < |links| && 0 <= j < |links| ==> (groups[i] == groups[j] <==> Connected(links, i, j)))
      && (forall g, j :: 0 <= g < |lg| && 0 <= j < lg[g][0] ==> groups[j] < g)
  {
    GroupsAreComponents(links, s, lg);
  }

  /** `links.forEach(link => { if (link.group === undefined) assignGroup(link,
      currentGroup++) })`: every link ends in exactly one group, the groups are
      the connected components of `Joins`, each listed once in `linkGroups`, and
      numbered in the order their first links appear. */
  method AssignGroups(links: seq<Link>) returns (groups: seq<nat>, linkGroups: seq<seq<nat>>)
    ensures |groups| == |links|
    ensures forall i :: 0 <= i < |links| ==> groups[i] < |linkGroups| && i in linkGroups[groups[i]]
    ensures forall g :: 0 <= g < |linkGroups| ==> |linkGroups[g]| > 0 && Distinct(linkGroups[g])
    ensures forall g, k :: 0 <= g < |linkGroups| && 0 <= k < |linkGroups[g]| ==>
              linkGroups[g][k] < |links| && groups[linkGroups[g][k]] == g
    ensures forall i, j :: 0 <= i < |links| && 0 <= j < |links| ==>
              (groups[i] == groups[j] <==> Connected(links, i, j))
    ensures forall g, j :: 0 <= g < |linkGroups| && 0 <= j < linkGroups[g][0] ==> groups[j] < g
  {
    var s: seq<int> := seq(|links|, _ => -1);
    linkGroups := [];
    var currentGroup := 0;
    ScanStart(links);
    var i := 0;
    while i < |links|
      invariant Scanned(links, s, linkGroups, i)
      invariant currentGroup == |linkGroups|
    {
      if s[i] == -1 {
        ghost var s0, lg0 := s, linkGroups;
        s, linkGroups := AssignGroup(links, s, linkGroups, i, currentGroup);
        currentGroup := currentGroup + 1;
        ScanNew(links, s0, lg0, s, linkGroups, i);
      } else {
        ScanSkip(links, s, linkGroups, i);
      }
      i := i + 1;
    }
    SettledGroups(links, s, linkGroups);
    groups := Settled(s);
  }

  /** The fixed link that flows into bucket `b`: the first of `FixedEdges`
      with that target. */
  function BucketAnchor(b: nat): (i: nat)
    requires b < FileCount
    ensures i < |FixedEdges| && FixedEdges[i].1 == b
    ensures forall j :: 0 <= j < i ==> FixedEdges[j].1 != b
  {
    [0, 1, 2, 4, 6][b]
  }

  /** The shape `loadData` gives the links: the fixed links first, then links
      leaving a bucket, with a link leaving every bucket. */
  ghost predicate EveryBucketUsed(links: seq<Link>, values: seq<real>) {
    && |values| == |FixedEdges| && |FixedEdges| <= |links|
    && links[..|FixedEdges|] == FixedLinks(values)
    && (forall i :: |FixedEdges| <= i < |links| ==> links[i].source < FileCount)
    && (forall b :: 0 <= b < FileCount ==> Leaves(links, b))
  }

  /** Some added link leaves bucket `b`. */
  ghost predicate Leaves(links: seq<Link>, b: nat) {
    exists i :: |FixedEdges| <= i < |links| && links[i].source == b
  }

  /** The bucket of a link: the target of a fixed link, the source of an
      added one. */
  function Bucket(links: seq<Link>, i: nat): nat
    requires i < |links|
  {
    if i < |FixedEdges| then links[i].target else links[i].source
  }

  /** Every link is connected to the fixed link into its bucket: an added
      link starts where that fixed link ends, and a fixed link reaches it
      through any added link leaving the same bucket. */
  lemma ConnectedToAnchor(links: seq<Link>, values: seq<real>, i: nat)
    requires EveryBucketUsed(links, values) && i < |links|
    ensures Bucket(links, i) < FileCount
    ensures Connected(links, i, BucketAnchor(Bucket(links, i)))
  {
    var n := |FixedEdges|;
    FixedEdgesShape();
    var b := Bucket(links, i);
    if i < n {
      assert links[i] == links[..n][i] == FixedLinks(values)[i];
    }
    var f := BucketAnchor(b);
    assert links[f] == links[..n][f] == FixedLinks(values)[f];
    if i < n {
      assert Leaves(links, b);
      var a :| n <= a < |links| && links[a].source == b;
      assert Step(links, [i, a, f], 0) && Step(links, [i, a, f], 1);
      assert IsPath(links, [i, a, f]);
    } else {
      assert Step(links, [i, f], 0);
      assert IsPath(links, [i, f]);
    }
  }

  /** With a link leaving every bucket, the grouping has at most one group
      per bucket: each group holds the fixed link into some bucket. */
  lemma AtMostOneGroupPerBucket(links: seq<Link>, values: seq<real>, groups: seq<nat>, lg: seq<seq<nat>>)
    requires EveryBucketUsed(links, values) && |groups| == |links|
    requires forall g :: 0 <= g < |lg| ==> |lg[g]| > 0 && lg[g][0] < |links| && groups[lg[g][0]] == g
    requires forall i, j :: 0 <= i < |links| && 0 <= j < |links| ==>
               (groups[i] == groups[j] <==> Connected(links, i, j))
    ensures |lg| <= FileCount
  {
    var keys := seq(FileCount, b requires 0 <= b < FileCount => groups[BucketAnchor(b)]);
    forall g | 0 <= g < |lg| ensures g in keys {
      var i := lg[g][0];
      ConnectedToAnchor(links, values, i);
      var b := Bucket(links, i);
      assert keys[b] == groups[BucketAnchor(b)] == groups[i] == g;
    }
    CoversRange(|lg|, keys);
  }
}
