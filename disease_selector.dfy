/** The disease picker: the distinct diseases of the disease/department table
    in order of first appearance, a case-insensitive substring search over
    them, checkboxes that toggle a disease in or out of the selection, and
    the departments of every table row whose disease is selected, which are
    handed to the parent on every change. */
module DiseaseSelection {
  import opened Wrappers
  import opened Sequences
  import opened Text

  /** One row of the table: its `질병` and `진료과목` columns. */
  datatype CsvRow = CsvRow(disease: string, department: string)

  function Diseases(rows: seq<CsvRow>): (r: seq<string>)
    ensures |r| == |rows| && forall i :: 0 <= i < |rows| ==> r[i] == rows[i].disease
  {
    seq(|rows|, i requires 0 <= i < |rows| => rows[i].disease)
  }

  /** `Array.from(new Set(data.map(d => d.질병)))`. */
  function UniqueDiseases(rows: seq<CsvRow>): seq<string> {
    Dedup(Diseases(rows))
  }

  /** Every disease of the table appears exactly once, in the order in which
      the table first mentions it. */
  lemma UniqueDiseasesSpec(rows: seq<CsvRow>)
    ensures var u := UniqueDiseases(rows);
      && Distinct(u)
      && (forall i :: 0 <= i < |rows| ==> rows[i].disease in u)
      && (forall k :: 0 <= k < |u| ==> u[k] in Diseases(rows))
      && (forall k, l :: 0 <= k < l < |u| ==> FirstIndex(Diseases(rows), u[k]) < FirstIndex(Diseases(rows), u[l]))
  {
    DedupFirstOccurrenceOrder(Diseases(rows));
  }

  /** `disease.toLowerCase().includes(searchTerm.toLowerCase())`. */
  predicate Matches(disease: string, term: string) {
    Includes(ToLower(disease), ToLower(term))
  }

  /** `uniqueDiseases.filter(disease => Matches(disease, searchTerm))`. */
  function FilterBySearch(list: seq<string>, term: string): (r: seq<string>)
    ensures forall x :: x in r <==> x in list && Matches(x, term)
    ensures |r| <= |list|
  {
    if list == [] then []
    else
      assert list == [list[0]] + list[1..];
      (if Matches(list[0], term) then [list[0]] else []) + FilterBySearch(list[1..], term)
  }

  /** The filtered list keeps the order of the full list. */
  lemma {:induction false} FilterIsSubsequence(list: seq<string>, term: string)
    ensures IsSubsequence(FilterBySearch(list, term), list)
  {
    if list != [] {
      FilterIsSubsequence(list[1..], term);
      assert list == [list[0]] + list[1..];
      if !Matches(list[0], term) {
        assert FilterBySearch(list, term) == FilterBySearch(list[1..], term);
        SubsequenceCons(FilterBySearch(list[1..], term), list[1..], list[0]);
      } else {
        assert FilterBySearch(list, term)[1..] == FilterBySearch(list[1..], term);
      }
    }
  }

  /** An empty search term keeps every disease. */
  lemma {:induction false} EmptySearchKeepsAll(list: seq<string>)
    ensures FilterBySearch(list, "") == list
  {
    if list != [] {
      IncludesEmpty(ToLower(list[0]));
      assert ToLower("") == "";
      EmptySearchKeepsAll(list[1..]);
      assert list == [list[0]] + list[1..];
    }
  }

  /** Searching is blind to ASCII case in the term. */
  lemma {:induction false} SearchIgnoresCase(list: seq<string>, term: string)
    ensures FilterBySearch(list, ToLower(term)) == FilterBySearch(list, term)
  {
    ToLowerProperties(term);
    if list != [] {
      SearchIgnoresCase(list[1..], term);
    }
  }

  /** `prevState.filter(disease => disease !== value)`. */
  function Remove(s: seq<string>, v: string): (r: seq<string>)
    ensures v !in r && forall x :: x != v ==> (x in r <==> x in s)
    ensures |r| <= |s|
  {
    if s == [] then []
    else
      assert s == [s[0]] + s[1..];
      (if s[0] == v then [] else [s[0]]) + Remove(s[1..], v)
  }

  lemma {:induction false} RemoveAppend(a: seq<string>, b: seq<string>, v: string)
    ensures Remove(a + b, v) == Remove(a, v) + Remove(b, v)
  {
    if a == [] {
      assert a + b == b;
    } else {
      var head: seq<string> := if a[0] == v then [] else [a[0]];
      assert (a + b)[0] == a[0] && (a + b)[1..] == a[1..] + b;
      assert Remove(a + b, v) == head + Remove(a[1..] + b, v);
      assert Remove(a, v) == head + Remove(a[1..], v);
      RemoveAppend(a[1..], b, v);
      assert head + (Remove(a[1..], v) + Remove(b, v)) == (head + Remove(a[1..], v)) + Remove(b, v);
    }
  }

  lemma {:induction false} RemoveAbsent(s: seq<string>, v: string)
    requires v !in s
    ensures Remove(s, v) == s
  {
    if s != [] {
      RemoveAbsent(s[1..], v);
      assert s == [s[0]] + s[1..];
    }
  }

  lemma {:induction false} RemoveKeepsDistinct(s: seq<string>, v: string)
    requires Distinct(s)
    ensures Distinct(Remove(s, v))
  {
    if s != [] {
      assert Distinct(s[1..]);
      RemoveKeepsDistinct(s[1..], v);
      assert s[0] !in s[1..];
    }
  }

  lemma {:induction false} RemoveIsSubsequence(s: seq<string>, v: string)
    ensures IsSubsequence(Remove(s, v), s)
  {
    if s != [] {
      RemoveIsSubsequence(s[1..], v);
      assert s == [s[0]] + s[1..];
      if s[0] == v {
        assert Remove(s, v) == Remove(s[1..], v);
        SubsequenceCons(Remove(s[1..], v), s[1..], s[0]);
      } else {
        assert Remove(s, v)[1..] == Remove(s[1..], v);
      }
    }
  }

  /** `handleCheckboxChange`'s update of the selection. */
  function Toggled(selected: seq<string>, value: string): seq<string> {
    if value in selected then Remove(selected, value) else selected + [value]
  }

  /** Toggling removes a selected value (every copy of it) and keeps the rest
      in order, or appends an unselected one; the selection stays free of
      duplicates, and toggling an unselected value twice restores it. */
  lemma ToggleSpec(selected: seq<string>, value: string)
    ensures var r := Toggled(selected, value);
      && (value in selected ==>
            value !in r && IsSubsequence(r, selected) && forall x :: x != value ==> (x in r <==> x in selected))
      && (value !in selected ==> r == selected + [value])
      && (Distinct(selected) ==> Distinct(r))
      && (value !in selected ==> Toggled(r, value) == selected)
  {
    if value in selected {
      RemoveIsSubsequence(selected, value);
    } else {
      RemoveAppend(selected, [value], value);
      RemoveAbsent(selected, value);
    }
    if Distinct(selected) {
      RemoveKeepsDistinct(selected, value);
    }
  }

  /** In a duplicate-free selection, unticking deletes exactly the one entry. */
  lemma ToggleOffDeletesEntry(selected: seq<string>, i: nat)
    requires Distinct(selected) && i < |selected|
    ensures Toggled(selected, selected[i]) == selected[..i] + selected[i + 1..]
  {
    var v, before, after := selected[i], selected[..i], selected[i + 1..];
    assert selected == (before + [v]) + after;
    assert v !in before && v !in after;
    assert Toggled(selected, v) == Remove((before + [v]) + after, v);
    RemoveAppend(before + [v], after, v);
    RemoveAppend(before, [v], v);
    assert Remove([v], v) == [];
    RemoveAbsent(before, v);
    RemoveAbsent(after, v);
    assert Remove(before + [v], v) == before;
  }

  /** `data.filter(d => selectedDiseases.includes(d.질병)).map(d => d.진료과목)`. */
  function SelectedDepartments(rows: seq<CsvRow>, selected: seq<string>): (r: seq<string>)
    ensures |r| <= |rows|
  {
    if rows == [] then []
    else
      (if rows[0].disease in selected then [rows[0].department] else []) +
      SelectedDepartments(rows[1..], selected)
  }

  /** Departments come row by row, in table order, duplicates kept. */
  lemma {:induction false} DepartmentsAppend(a: seq<CsvRow>, b: seq<CsvRow>, selected: seq<string>)
    ensures SelectedDepartments(a + b, selected) == SelectedDepartments(a, selected) + SelectedDepartments(b, selected)
  {
    if a == [] {
      assert a + b == b;
    } else {
      assert (a + b)[0] == a[0] && (a + b)[1..] == a[1..] + b;
      DepartmentsAppend(a[1..], b, selected);
      var head := if a[0].disease in selected then [a[0].department] else [];
      assert SelectedDepartments(a + b, selected) == head + SelectedDepartments(a[1..] + b, selected);
      assert SelectedDepartments(a, selected) == head + SelectedDepartments(a[1..], selected);
    }
  }

  /** A department is listed exactly when some row with a selected disease
      names it; nothing is listed for an empty selection. */
  lemma {:induction false} DepartmentsOfSelected(rows: seq<CsvRow>, selected: seq<string>)
    ensures forall d :: d in SelectedDepartments(rows, selected) <==>
              exists i :: 0 <= i < |rows| && rows[i].disease in selected && rows[i].department == d
    ensures selected == [] ==> SelectedDepartments(rows, selected) == []
  {
    if rows != [] {
      DepartmentsOfSelected(rows[1..], selected);
      forall d | (exists i :: 0 <= i < |rows| && rows[i].disease in selected && rows[i].department == d)
        ensures d in SelectedDepartments(rows, selected)
      {
        var i :| 0 <= i < |rows| && rows[i].disease in selected && rows[i].department == d;
        if i > 0 {
          assert rows[1..][i - 1] == rows[i];
        }
      }
      forall d | d in SelectedDepartments(rows[1..], selected)
        ensures exists i :: 0 <= i < |rows| && rows[i].disease in selected && rows[i].department == d
      {
        var i :| 0 <= i < |rows[1..]| && rows[1..][i].disease in selected && rows[1..][i].department == d;
        assert rows[i + 1] == rows[1..][i];
      }
    }
  }

  /** Only which diseases are selected matters, not their order or copies. */
  lemma {:induction false} DepartmentsIgnoreSelectionOrder(rows: seq<CsvRow>, s1: seq<string>, s2: seq<string>)
    requires forall x :: x in s1 <==> x in s2
    ensures SelectedDepartments(rows, s1) == SelectedDepartments(rows, s2)
  {
    if rows != [] {
      DepartmentsIgnoreSelectionOrder(rows[1..], s1, s2);
    }
  }

  /** The component's state once its effects have run: the search effect
      keeps the filtered list in step with the term and the diseases. */
  class DiseaseSelector {
    var data: seq<CsvRow>
    var uniqueDiseases: seq<string>
    var searchTerm: string
    var filteredDiseases: seq<string>
    var selectedDiseases: seq<string>

    ghost predicate Valid()
      reads this
    {
      && uniqueDiseases == UniqueDiseases(data)
      && filteredDiseases == FilterBySearch(uniqueDiseases, searchTerm)
      && Distinct(selectedDiseases)
    }

    /** The initial `useState` values. */
    constructor()
      ensures Valid()
      ensures data == [] && uniqueDiseases == [] && searchTerm == ""
      ensures filteredDiseases == [] && selectedDiseases == []
    {
      data, uniqueDiseases, searchTerm := [], [], "";
      filteredDiseases, selectedDiseases := [], [];
    }

    /** `loadDiseases`: `loaded` is the parsed table, or `None` when loading
        failed and the error was only logged. On success the filtered list is
        first set to all diseases and then refiltered by the search effect,
        and the departments effect reports to the parent (returned here). */
    method LoadDiseases(loaded: Option<seq<CsvRow>>) returns (reported: Option<seq<string>>)
      requires Valid()
      modifies this
      ensures Valid()
      ensures loaded.None? ==> unchanged(this) && reported.None?
      ensures loaded.Some? ==>
                && data == loaded.value && uniqueDiseases == UniqueDiseases(loaded.value)
                && filteredDiseases == FilterBySearch(uniqueDiseases, searchTerm)
                && reported == Some(SelectedDepartments(data, selectedDiseases))
      ensures searchTerm == old(searchTerm) && selectedDiseases == old(selectedDiseases)
    {
      reported := None;
      if loaded.Some? {
        var rows := loaded.value;
        var diseases := UniqueDiseases(rows);
        data := rows;
        uniqueDiseases := diseases;
        filteredDiseases := diseases;
        filteredDiseases := FilterBySearch(uniqueDiseases, searchTerm);
        reported := Some(SelectedDepartments(data, selectedDiseases));
      }
    }

    /** `handleSearchChange` and the search effect it triggers. */
    method HandleSearchChange(value: string)
      requires Valid()
      modifies this
      ensures Valid()
      ensures searchTerm == value && filteredDiseases == FilterBySearch(uniqueDiseases, value)
      ensures data == old(data) && uniqueDiseases == old(uniqueDiseases)
      ensures selectedDiseases == old(selectedDiseases)
    {
      searchTerm := value;
      filteredDiseases := FilterBySearch(uniqueDiseases, searchTerm);
    }

    /** `handleCheckboxChange` and the departments effect it triggers, whose
        report to the parent is returned. */
    method HandleCheckboxChange(value: string) returns (departments: seq<string>)
      requires Valid()
      modifies this
      ensures Valid()
      ensures selectedDiseases == Toggled(old(selectedDiseases), value)
      ensures departments == SelectedDepartments(data, selectedDiseases)
      ensures data == old(data) && uniqueDiseases == old(uniqueDiseases)
      ensures searchTerm == old(searchTerm) && filteredDiseases == old(filteredDiseases)
    {
      ToggleSpec(selectedDiseases, value);
      selectedDiseases := if value in selectedDiseases then Remove(selectedDiseases, value)
                          else selectedDiseases + [value];
      departments := SelectedDepartments(data, selectedDiseases);
    }

    /** `checked={selectedDiseases.includes(disease)}`. */
    predicate IsChecked(disease: string)
      reads this
    {
      disease in selectedDiseases
    }
  }
}
