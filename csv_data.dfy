/** `parseCSV(csv, ageGroup)`: trims the text, splits it into lines at
    "\n", takes the comma-split first line as headers and turns every further
    line into an object that starts as `{ ageGroup }` and then gets
    `obj[headers[j]] = fields[j]` for every header in order. There is no
    quoting, no per-field trimming and no skipping of short or blank lines. */
module CsvData {
  import opened Wrappers
  import opened Sequences
  import opened Text

  /** A row object; `None` is the `undefined` a missing field gives. */
  type Row = map<string, Option<string>>

  /** The key the age group is stored under. */
  const AgeGroupKey: string := "ageGroup"

  /** `currentline[j]`. */
  function Field(fields: seq<string>, j: nat): Option<string> {
    if j < |fields| then Some(fields[j]) else None
  }

  /** The object after the assignments for the headers `hs`, a prefix of the
      header line, in order. */
  function Assign(hs: seq<string>, fields: seq<string>, ageGroup: string): Row {
    if hs == [] then map[AgeGroupKey := Some(ageGroup)]
    else Assign(hs[..|hs| - 1], fields, ageGroup)[hs[|hs| - 1] := Field(fields, |hs| - 1)]
  }

  /** What a row object holds: the age-group key and every header, each header
      bound to the field under its LAST occurrence in the header line, and the
      age group only where no header is literally "ageGroup". */
  lemma {:induction false} AssignFields(hs: seq<string>, fields: seq<string>, ageGroup: string)
    ensures var row := Assign(hs, fields, ageGroup);
      && (forall k :: k in row <==> k == AgeGroupKey || k in hs)
      && (forall k :: k in hs ==> row[k] == Field(fields, LastIndex(hs, k)))
      && (AgeGroupKey !in hs ==> row[AgeGroupKey] == Some(ageGroup))
  {
    if hs != [] {
      var init, h := hs[..|hs| - 1], hs[|hs| - 1];
      AssignFields(init, fields, ageGroup);
      assert hs == init + [h];
      forall k | k in hs && k != h ensures LastIndex(hs, k) == LastIndex(init, k) {
        assert k in init;
      }
    }
  }

  /** Fields past the header count are dropped: only the first
      `|hs|` fields matter. */
  lemma {:induction false} AssignIgnoresExtraFields(hs: seq<string>, fields: seq<string>, extra: seq<string>,
                                                    ageGroup: string)
    requires |hs| <= |fields|
    ensures Assign(hs, fields + extra, ageGroup) == Assign(hs, fields, ageGroup)
  {
    if hs != [] {
      AssignIgnoresExtraFields(hs[..|hs| - 1], fields, extra, ageGroup);
    }
  }

  /** `csv.trim().split("\n")`. */
  function Lines(csv: string): (lines: seq<string>)
    ensures |lines| == Count(Trim(csv), '\n') + 1
  {
    SplitCount(Trim(csv), '\n');
    Split(Trim(csv), '\n')
  }

  /** The object for one line. */
  method BuildRow(headers: seq<string>, line: string, ageGroup: string) returns (obj: Row)
    ensures obj == Assign(headers, Split(line, ','), ageGroup)
  {
    var currentline := Split(line, ',');
    obj := map[AgeGroupKey := Some(ageGroup)];
    var j := 0;
    while j < |headers|
      invariant 0 <= j <= |headers|
      invariant obj == Assign(headers[..j], currentline, ageGroup)
    {
      assert headers[..j + 1][..j] == headers[..j];
      obj := obj[headers[j] := if j < |currentline| then Some(currentline[j]) else None];
      j := j + 1;
    }
    assert headers[..j] == headers;
  }

  /** `parseCSV(csv, ageGroup)`: one row per line after the header line, in
      line order, so as many rows as the trimmed text has line breaks. */
  method ParseCsv(csv: string, ageGroup: string) returns (result: seq<Row>)
    ensures |result| == Count(Trim(csv), '\n')
    ensures forall i :: 0 <= i < |result| ==>
              result[i] == Assign(Split(Lines(csv)[0], ','), Split(Lines(csv)[i + 1], ','), ageGroup)
  {
    var lines := Lines(csv);
    result := [];
    var headers := Split(lines[0], ',');
    var i := 1;
    while i < |lines|
      invariant 1 <= i <= |lines| && |result| == i - 1
      invariant forall r :: 0 <= r < i - 1 ==> result[r] == Assign(headers, Split(lines[r + 1], ','), ageGroup)
    {
      var obj := BuildRow(headers, lines[i], ageGroup);
      result := result + [obj];
      i := i + 1;
    }
  }
}
