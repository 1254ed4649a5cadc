/** The rank-change list: each entry of the current ranking `data` (its
    `항목` names, best first) is labelled with its 1-based rank, compared with
    its index in the previous ranking, and marked with an up arrow (green), a
    down arrow (red) or a dash (gray). A name the previous ranking lacks gives
    `NaN`, which compares false both ways and is shown as a gray dash. */
module RankChange {
  import opened Wrappers
  import opened Sequences
  import opened Text

  /** How many of the previous ranks still enter at their old slot. */
  const TopRows: nat := 15

  /** `previousData.reduce((acc, item, index) => { acc[item.항목] = index; ... }, {})`. */
  function PreviousRanks(prev: seq<string>): map<string, nat> {
    if prev == [] then map[]
    else PreviousRanks(prev[..|prev| - 1])[prev[|prev| - 1] := |prev| - 1]
  }

  /** Every previous name is mapped to the index of its last occurrence. */
  lemma {:induction false} PreviousRanksAreLastIndices(prev: seq<string>)
    ensures forall name :: name in PreviousRanks(prev) <==> name in prev
    ensures forall name :: name in prev ==> PreviousRanks(prev)[name] == LastIndex(prev, name)
  {
    if prev != [] {
      var init, x := prev[..|prev| - 1], prev[|prev| - 1];
      PreviousRanksAreLastIndices(init);
      assert prev == init + [x];
      forall name | name in prev && name != x ensures LastIndex(prev, name) == LastIndex(init, name) {
        assert name in init;
      }
    }
  }

  /** `previousRanks[d.항목] - data.findIndex(item => item.항목 === d.항목)`
      for `d = data[i]`; `None` is `NaN`. */
  function RankChange(ranks: map<string, nat>, data: seq<string>, i: nat): Option<int>
    requires i < |data|
  {
    if data[i] in ranks then Some(ranks[data[i]] - FirstIndex(data, data[i])) else None
  }

  /** In a ranking without repeated names, `findIndex` finds the entry itself. */
  lemma FirstIndexOfDistinct(data: seq<string>, i: nat)
    requires Distinct(data) && i < |data|
    ensures FirstIndex(data, data[i]) == i
  {
  }

  /** The change is the old index (last occurrence) minus the new one (first
      occurrence), and `NaN` exactly for a name new to the ranking. */
  lemma RankChangeMeaning(prev: seq<string>, data: seq<string>, i: nat)
    requires i < |data|
    ensures RankChange(PreviousRanks(prev), data, i) ==
            if data[i] in prev then Some(LastIndex(prev, data[i]) - FirstIndex(data, data[i])) else None
    ensures Distinct(data) && data[i] in prev ==>
            RankChange(PreviousRanks(prev), data, i) == Some(LastIndex(prev, data[i]) - i)
  {
    var ranks, name := PreviousRanks(prev), data[i];
    PreviousRanksAreLastIndices(prev);
    if name in prev {
      assert name in ranks && ranks[name] == LastIndex(prev, name);
      assert RankChange(ranks, data, i) == Some(LastIndex(prev, name) - FirstIndex(data, name));
      if Distinct(data) {
        FirstIndexOfDistinct(data, i);
      }
    } else {
      assert name !in ranks;
    }
  }

  /** `rankChange > 0 ? "green" : rankChange < 0 ? "red" : "gray"`. */
  function ArrowFill(change: Option<int>): string {
    if change.Some? && change.value > 0 then "green"
    else if change.Some? && change.value < 0 then "red"
    else "gray"
  }

  /** The arrow's `class`, computed by its own callback. */
  function ArrowClass(change: Option<int>): string {
    "rank-arrow " + (if change.Some? && change.value > 0 then "green"
                     else if change.Some? && change.value < 0 then "red"
                     else "gray")
  }

  /** `rankChange > 0 ? `↑${rankChange}` : rankChange < 0 ? `↓${-rankChange}` : "-"`. */
  function ArrowText(change: Option<int>): (s: string)
    ensures |s| > 0
  {
    if change.Some? && change.value > 0 then ['↑'] + Decimal(change.value)
    else if change.Some? && change.value < 0 then ['↓'] + Decimal(-change.value)
    else "-"
  }

  /** Class, fill and text always tell the same story: the class is the fill
      colour, green goes with an up arrow, red with a down arrow, gray with
      the dash, and the digits after an arrow read back as the size of the
      change. */
  lemma ArrowAgrees(change: Option<int>)
    ensures ArrowClass(change) == "rank-arrow " + ArrowFill(change)
    ensures ArrowFill(change) == "green" <==> ArrowText(change)[0] == '↑'
    ensures ArrowFill(change) == "red" <==> ArrowText(change)[0] == '↓'
    ensures ArrowFill(change) == "gray" <==> ArrowText(change) == "-"
    ensures ArrowFill(change) == "gray" <==> change.None? || change.value == 0
    ensures change.Some? && change.value != 0 ==>
              ParseInt(ArrowText(change)[1..]) == Some(if change.value > 0 then change.value else -change.value)
  {
    if change.Some? && change.value > 0 {
      ParseIntOfDecimal(change.value, []);
      assert ArrowText(change)[1..] == Decimal(change.value) + [];
    } else if change.Some? && change.value < 0 {
      ParseIntOfDecimal(-change.value, []);
      assert ArrowText(change)[1..] == Decimal(-change.value) + [];
    }
  }

  /** `${i + 1}. ${d.항목}`. */
  function Label(i: nat, name: string): string {
    Decimal(i + 1) + ". " + name
  }

  /** The label starts with the 1-based rank, which `parseInt` reads back. */
  lemma LabelRank(i: nat, name: string)
    ensures ParseInt(Label(i, name)) == Some(i + 1)
    ensures Label(i, name)[|Decimal(i + 1)|..] == ". " + name
  {
    assert Label(i, name) == Decimal(i + 1) + (". " + name);
    ParseIntOfDecimal(i + 1, ". " + name);
  }

  /** Where an entering row starts: at a band of the new scale, below the
      chart, or nowhere because `data[previousRank]` is undefined and reading
      its `항목` throws. */
  datatype Start = Slot(band: nat) | Bottom | Throws

  /** The `transform` of an entering row; the band scale's domain keeps the
      first occurrence of each name. */
  function EnterStart(ranks: map<string, nat>, data: seq<string>, i: nat): Start
    requires i < |data|
  {
    if data[i] in ranks && ranks[data[i]] < TopRows then
      var previousRank := ranks[data[i]];
      if previousRank < |data| then Slot(FirstIndex(Dedup(data), data[previousRank])) else Throws
    else Bottom
  }

  /** A row whose name held one of the first fifteen previous ranks starts at
      the band now holding that rank (throwing when the new ranking is shorter
      than that rank); all other rows start at the bottom. */
  lemma EnterStartMeaning(prev: seq<string>, data: seq<string>, i: nat)
    requires i < |data|
    ensures var s := EnterStart(PreviousRanks(prev), data, i);
      && (s == Bottom <==> data[i] !in prev || LastIndex(prev, data[i]) >= TopRows)
      && (s == Throws <==> data[i] in prev && |data| <= LastIndex(prev, data[i]) < TopRows)
      && (Distinct(data) && s.Slot? ==> s.band == LastIndex(prev, data[i]))
  {
    PreviousRanksAreLastIndices(prev);
    if Distinct(data) {
      DedupOfDistinct(data);
    }
  }
}
