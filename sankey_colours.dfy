/** Node colouring and hover emphasis shared by both Sankey views. A node is
    coloured by the link groups that touch it: grey when none does, the
    group's palette colour when one does, and `mixColors` of the groups'
    colours when several do. `mixColors` folds the colours from the left with a
    per-channel average of two, so the last colour always weighs one half. */
module SankeyColours {
  import opened Wrappers
  import opened Sequences
  import opened SankeyGraph

  /** An RGB colour as `d3.color` reports it; channels are reals. */
  datatype Rgb = Rgb(r: real, g: real, b: real)

  datatype Channel = Red | Green | Blue

  function Get(c: Rgb, ch: Channel): real {
    match ch
    case Red => c.r
    case Green => c.g
    case Blue => c.b
  }

  /** `avg([a, b])`: the sum of the two divided by the length two. */
  function Avg2(a: real, b: real): real {
    (a + b) / 2.0
  }

  function Blend(a: Rgb, b: Rgb): Rgb {
    Rgb(Avg2(a.r, b.r), Avg2(a.g, b.g), Avg2(a.b, b.b))
  }

  /** `mixColors(colors)`: `reduce` without an initial value, so the first
      colour seeds the fold (and an empty list would throw). */
  function MixColors(cs: seq<Rgb>): Rgb
    requires |cs| > 0
  {
    if |cs| == 1 then cs[0] else Blend(MixColors(cs[..|cs| - 1]), cs[|cs| - 1])
  }

  function Channels(cs: seq<Rgb>, ch: Channel): (xs: seq<real>)
    ensures |xs| == |cs| && forall k :: 0 <= k < |cs| ==> xs[k] == Get(cs[k], ch)
  {
    seq(|cs|, k requires 0 <= k < |cs| => Get(cs[k], ch))
  }

  /** The same fold on one channel. */
  function Fold(xs: seq<real>): real
    requires |xs| > 0
  {
    if |xs| == 1 then xs[0] else Avg2(Fold(xs[..|xs| - 1]), xs[|xs| - 1])
  }

  /** Mixing works channel by channel. */
  lemma {:induction false} MixPerChannel(cs: seq<Rgb>, ch: Channel)
    requires |cs| > 0
    ensures Get(MixColors(cs), ch) == Fold(Channels(cs, ch))
  {
    if |cs| > 1 {
      MixPerChannel(cs[..|cs| - 1], ch);
      assert Channels(cs, ch)[..|cs| - 1] == Channels(cs[..|cs| - 1], ch);
    }
  }

  function Pow2(n: nat): (p: real)
    ensures p >= 1.0
  {
    if n == 0 then 1.0 else 2.0 * Pow2(n - 1)
  }

  /** The weight of the `k`-th of `n` colours in the fold: the first two
      weigh `1/2^(n-1)` each, the `k`-th (k >= 1) weighs `1/2^(n-k)`. */
  function Weight(n: nat, k: nat): real
    requires k < n
  {
    if k == 0 then 1.0 / Pow2(n - 1) else 1.0 / Pow2(n - k)
  }

  /** The first `|xs|` terms of the weighted sum for `n` colours. */
  function WeightedSum(xs: seq<real>, n: nat): real
    requires |xs| <= n
  {
    if xs == [] then 0.0 else WeightedSum(xs[..|xs| - 1], n) + xs[|xs| - 1] * Weight(n, |xs| - 1)
  }

  lemma HalveWeight(n: nat, k: nat)
    requires k < n
    ensures Weight(n + 1, k) == Weight(n, k) / 2.0
  {
    var p := if k == 0 then Pow2(n - 1) else Pow2(n - k);
    assert Weight(n, k) == 1.0 / p;
    assert Weight(n + 1, k) == 1.0 / (2.0 * p);
  }

  /** One more colour halves the weight of all earlier ones. */
  lemma {:induction false} WeightedSumHalves(xs: seq<real>, n: nat)
    requires |xs| <= n
    ensures WeightedSum(xs, n + 1) == WeightedSum(xs, n) / 2.0
  {
    if xs != [] {
      WeightedSumHalves(xs[..|xs| - 1], n);
      HalveWeight(n, |xs| - 1);
    }
  }

  /** Closed form of the fold: colour `k` of `n` weighs `Weight(n, k)`; in
      particular the last colour weighs one half, whatever `n` is. */
  lemma {:induction false} FoldIsWeighted(xs: seq<real>)
    requires |xs| > 0
    ensures Fold(xs) == WeightedSum(xs, |xs|)
  {
    var n := |xs|;
    if n == 1 {
      assert xs[..0] == [];
    } else {
      var init := xs[..n - 1];
      FoldIsWeighted(init);
      WeightedSumHalves(init, n - 1);
      assert xs[..n - 1] == init;
      assert Weight(n, n - 1) == 1.0 / 2.0;
    }
  }

  /** Mixing copies of one colour gives that colour. */
  lemma {:induction false} MixOfSame(cs: seq<Rgb>, c: Rgb)
    requires |cs| > 0 && forall k :: 0 <= k < |cs| ==> cs[k] == c
    ensures MixColors(cs) == c
  {
    if |cs| > 1 {
      MixOfSame(cs[..|cs| - 1], c);
    }
  }

  predicate Within(c: Rgb, lo: real, hi: real) {
    lo <= c.r <= hi && lo <= c.g <= hi && lo <= c.b <= hi
  }

  /** The mix stays within the channel range of its inputs (so a mix of valid
      colours is a valid colour). */
  lemma {:induction false} MixWithin(cs: seq<Rgb>, lo: real, hi: real)
    requires |cs| > 0 && forall k :: 0 <= k < |cs| ==> Within(cs[k], lo, hi)
    ensures Within(MixColors(cs), lo, hi)
  {
    if |cs| > 1 {
      MixWithin(cs[..|cs| - 1], lo, hi);
    }
  }

  /** Three colours: the mix is not their mean, and the order matters. */
  lemma MixIsNotTheMean()
    ensures var black, white := Rgb(0.0, 0.0, 0.0), Rgb(255.0, 255.0, 255.0);
      && MixColors([black, black, white]) == Rgb(127.5, 127.5, 127.5)
      && MixColors([white, black, black]) == Rgb(63.75, 63.75, 63.75)
  {
    var black, white := Rgb(0.0, 0.0, 0.0), Rgb(255.0, 255.0, 255.0);
    assert [black, black, white][..2] == [black, black];
    assert [black, black][..1] == [black];
    assert MixColors([black, black]) == black;
    assert [white, black, black][..2] == [white, black];
    assert [white, black][..1] == [white];
    assert MixColors([white, black]) == Rgb(127.5, 127.5, 127.5);
  }

  /** `l.source.id === d.id || l.target.id === d.id`. */
  predicate Touches(l: Link, id: nat) {
    l.source == id || l.target == id
  }

  /** Every listed link index exists. */
  predicate ValidGroups(links: seq<Link>, lg: seq<seq<nat>>) {
    forall g, k :: 0 <= g < |lg| && 0 <= k < |lg[g]| ==> lg[g][k] < |links|
  }

  /** `g.links.some(l => touches(l, d))`. */
  predicate GroupTouches(links: seq<Link>, members: seq<nat>, id: nat)
    requires forall k :: 0 <= k < |members| ==> members[k] < |links|
  {
    exists k :: 0 <= k < |members| && Touches(links[members[k]], id)
  }

  /** `linkGroups.filter(g => g.links.some(...))` over the first `n` groups,
      as group indices. */
  function TouchingGroups(links: seq<Link>, lg: seq<seq<nat>>, id: nat, n: nat): (r: seq<nat>)
    requires ValidGroups(links, lg) && n <= |lg|
    ensures forall i :: 0 <= i < |r| ==> r[i] < n
    ensures forall i, j :: 0 <= i < j < |r| ==> r[i] < r[j]
    ensures forall g :: 0 <= g < n ==> (g in r <==> GroupTouches(links, lg[g], id))
  {
    if n == 0 then []
    else
      var r := TouchingGroups(links, lg, id, n - 1);
      if GroupTouches(links, lg[n - 1], id) then r + [n - 1] else r
  }

  /** `linkGroups.find(g => g.links.some(...))`, scanning from group `from`. */
  function FindTouching(links: seq<Link>, lg: seq<seq<nat>>, id: nat, from: nat): Option<nat>
    requires ValidGroups(links, lg) && from <= |lg|
    decreases |lg| - from
  {
    if from == |lg| then None
    else if GroupTouches(links, lg[from], id) then Some(from)
    else FindTouching(links, lg, id, from + 1)
  }

  /** The group a hovered node highlights is the first group of the fill's list. */
  lemma {:induction false} FindIsFirstOfFilter(links: seq<Link>, lg: seq<seq<nat>>, id: nat, from: nat)
    requires ValidGroups(links, lg) && from <= |lg|
    ensures var r := TouchingGroups(links, lg, id, |lg|);
      match FindTouching(links, lg, id, from)
      case None => forall i :: 0 <= i < |r| ==> r[i] < from
      case Some(g) => from <= g && g in r && forall i :: 0 <= i < |r| && r[i] < g ==> r[i] < from
    decreases |lg| - from
  {
    var r := TouchingGroups(links, lg, id, |lg|);
    if from < |lg| && !GroupTouches(links, lg[from], id) {
      FindIsFirstOfFilter(links, lg, id, from + 1);
      assert from !in r;
    }
  }

  /** The fill attribute a node gets. */
  datatype Fill =
    | Grey             // "#ccc": no group touches the node
    | Paint(c: Rgb)    // a palette colour, or the mix of several
    | NoFill           // the palette has no entry: the attribute stays unset
    | Throws           // `mixColors` met a missing colour: `d3.color(undefined)` is null

  function Values(cs: seq<Option<Rgb>>): (vs: seq<Rgb>)
    requires forall k :: 0 <= k < |cs| ==> cs[k].Some?
    ensures |vs| == |cs| && forall k :: 0 <= k < |cs| ==> vs[k] == cs[k].value
  {
    seq(|cs|, k requires 0 <= k < |cs| => cs[k].value)
  }

  /** The fill rule given the palette entries of the touching groups, in
      group order. */
  function FillFor(colours: seq<Option<Rgb>>): Fill {
    if |colours| > 1 then
      if forall k :: 0 <= k < |colours| ==> colours[k].Some? then Paint(MixColors(Values(colours)))
      else Throws
    else if |colours| == 1 then
      if colours[0].Some? then Paint(colours[0].value) else NoFill
    else Grey
  }

  /** The palette keys the fill looks up: `g.links[0].group` of each touching group. */
  function ColourKeys(links: seq<Link>, groups: seq<nat>, lg: seq<seq<nat>>, id: nat): (keys: seq<nat>)
    requires ValidGroups(links, lg) && |groups| == |links|
    requires forall g :: 0 <= g < |lg| ==> |lg[g]| > 0
  {
    var t := TouchingGroups(links, lg, id, |lg|);
    seq(|t|, i requires 0 <= i < |t| => groups[lg[t[i]][0]])
  }

  /** The `fill` callback of a node rectangle. */
  function NodeFill(links: seq<Link>, groups: seq<nat>, lg: seq<seq<nat>>, id: nat,
                    palette: nat -> Option<Rgb>): Fill
    requires ValidGroups(links, lg) && |groups| == |links|
    requires forall g :: 0 <= g < |lg| ==> |lg[g]| > 0
  {
    var keys := ColourKeys(links, groups, lg, id);
    FillFor(seq(|keys|, i requires 0 <= i < |keys| => palette(keys[i])))
  }

  /** What `assignGroups` guarantees that the colouring relies on. */
  ghost predicate Grouped(links: seq<Link>, groups: seq<nat>, lg: seq<seq<nat>>) {
    && |groups| == |links|
    && (forall i :: 0 <= i < |links| ==> groups[i] < |lg| && i in lg[groups[i]])
    && (forall g :: 0 <= g < |lg| ==> |lg[g]| > 0)
    && (forall g, k :: 0 <= g < |lg| && 0 <= k < |lg[g]| ==> lg[g][k] < |links| && groups[lg[g][k]] == g)
  }

  /** After grouping, group `g` touches a node exactly when one of the links
      carrying id `g` touches it. */
  lemma GroupTouchesByIds(links: seq<Link>, groups: seq<nat>, lg: seq<seq<nat>>, g: nat, id: nat)
    requires Grouped(links, groups, lg) && g < |lg|
    ensures GroupTouches(links, lg[g], id) <==>
            exists a :: 0 <= a < |links| && groups[a] == g && Touches(links[a], id)
  {
    if exists a :: 0 <= a < |links| && groups[a] == g && Touches(links[a], id) {
      var a :| 0 <= a < |links| && groups[a] == g && Touches(links[a], id);
      var k :| 0 <= k < |lg[g]| && lg[g][k] == a;
      assert Touches(links[lg[g][k]], id);
    }
    if GroupTouches(links, lg[g], id) {
      var k :| 0 <= k < |lg[g]| && Touches(links[lg[g][k]], id);
      assert groups[lg[g][k]] == g;
    }
  }

  /** After grouping, the key of each touching group is the group itself. */
  lemma ColourKeysAreGroups(links: seq<Link>, groups: seq<nat>, lg: seq<seq<nat>>, id: nat)
    requires Grouped(links, groups, lg)
    ensures ColourKeys(links, groups, lg, id) == TouchingGroups(links, lg, id, |lg|)
  {
  }

  /** A node is grey exactly when no link touches it. */
  lemma GreyIffUntouched(links: seq<Link>, groups: seq<nat>, lg: seq<seq<nat>>, id: nat,
                         palette: nat -> Option<Rgb>)
    requires Grouped(links, groups, lg)
    ensures NodeFill(links, groups, lg, id, palette) == Grey <==>
            forall i :: 0 <= i < |links| ==> !Touches(links[i], id)
  {
    var t := TouchingGroups(links, lg, id, |lg|);
    if exists i :: 0 <= i < |links| && Touches(links[i], id) {
      var i :| 0 <= i < |links| && Touches(links[i], id);
      var k :| 0 <= k < |lg[groups[i]]| && lg[groups[i]][k] == i;
      assert GroupTouches(links, lg[groups[i]], id);
      assert groups[i] in t;
    }
  }

  /** With a palette that has a colour for every group, a touched node is
      painted: with its group's colour, or with the mix of its groups' colours
      in group order. */
  lemma PaintedWhenPaletteComplete(links: seq<Link>, groups: seq<nat>, lg: seq<seq<nat>>, id: nat,
                                   palette: nat -> Option<Rgb>)
    requires Grouped(links, groups, lg)
    requires forall g :: 0 <= g < |lg| ==> palette(g).Some?
    ensures var t := TouchingGroups(links, lg, id, |lg|);
      var f := NodeFill(links, groups, lg, id, palette);
      && (|t| == 1 ==> f == Paint(palette(t[0]).value))
      && (|t| > 1 ==> f == Paint(MixColors(seq(|t|, i requires 0 <= i < |t| => palette(t[i]).value))))
  {
    ColourKeysAreGroups(links, groups, lg, id);
    var t := TouchingGroups(links, lg, id, |lg|);
    var cs := seq(|t|, i requires 0 <= i < |t| => palette(t[i]));
    if |t| > 1 {
      assert Values(cs) == seq(|t|, i requires 0 <= i < |t| => palette(t[i]).value);
    }
  }

  /** With a complete palette of colours within a channel range, every node
      is grey or painted with a colour within that range. */
  lemma PaintedWithin(links: seq<Link>, groups: seq<nat>, lg: seq<seq<nat>>, id: nat,
                      palette: nat -> Option<Rgb>, lo: real, hi: real)
    requires Grouped(links, groups, lg)
    requires forall g :: 0 <= g < |lg| ==> palette(g).Some? && Within(palette(g).value, lo, hi)
    ensures var f := NodeFill(links, groups, lg, id, palette);
      f == Grey || (f.Paint? && Within(f.c, lo, hi))
  {
    PaintedWhenPaletteComplete(links, groups, lg, id, palette);
    var t := TouchingGroups(links, lg, id, |lg|);
    if |t| > 1 {
      var cs := seq(|t|, i requires 0 <= i < |t| => palette(t[i]).value);
      assert forall k :: 0 <= k < |cs| ==> Within(cs[k], lo, hi);
      MixWithin(cs, lo, hi);
    } else if |t| == 1 {
      assert Within(palette(t[0]).value, lo, hi);
    }
  }

  /** A touched group without a palette entry leaves the node unfilled when
      it is the only one, and makes the fill throw when there are several. */
  lemma MissingColour(links: seq<Link>, groups: seq<nat>, lg: seq<seq<nat>>, id: nat,
                      palette: nat -> Option<Rgb>, g: nat)
    requires Grouped(links, groups, lg)
    requires g < |lg| && GroupTouches(links, lg[g], id) && palette(g).None?
    ensures var n := |TouchingGroups(links, lg, id, |lg|)|;
      NodeFill(links, groups, lg, id, palette) == if n == 1 then NoFill else Throws
  {
    ColourKeysAreGroups(links, groups, lg, id);
    var t := TouchingGroups(links, lg, id, |lg|);
    var cs := seq(|t|, i requires 0 <= i < |t| => palette(t[i]));
    var i :| 0 <= i < |t| && t[i] == g;
    assert cs[i].None?;
  }

  /** The opacities `highlightGroup` uses: for nodes and links of the group
      (`on` while hovered, `dim` after) and for everything else (`rest`). */
  datatype Emphasis = Emphasis(on: real, dim: real, rest: real)

  /** `fill-opacity` of a node while group `members` is highlighted. */
  function NodeOpacity(e: Emphasis, links: seq<Link>, members: seq<nat>, id: nat, highlight: bool): real
    requires forall k :: 0 <= k < |members| ==> members[k] < |links|
  {
    if GroupTouches(links, members, id) then (if highlight then e.on else e.dim) else e.rest
  }

  /** `stroke-opacity` of link `i`: `d.group === group.links[0].group`. */
  function LinkOpacity(e: Emphasis, groups: seq<nat>, members: seq<nat>, i: nat, highlight: bool): real
    requires |members| > 0 && members[0] < |groups| && i < |groups|
  {
    if groups[i] == groups[members[0]] then (if highlight then e.on else e.dim) else e.rest
  }

  /** After grouping, highlighting group `g` picks out exactly its own links,
      which are the links connected to its first link. */
  lemma LinkOpacityByGroup(e: Emphasis, links: seq<Link>, groups: seq<nat>, lg: seq<seq<nat>>,
                           g: nat, i: nat, highlight: bool)
    requires Grouped(links, groups, lg) && g < |lg| && i < |links|
    ensures LinkOpacity(e, groups, lg[g], i, highlight) ==
            if i in lg[g] then (if highlight then e.on else e.dim) else e.rest
  {
    if i in lg[g] {
      var k :| 0 <= k < |lg[g]| && lg[g][k] == i;
    }
  }
}
