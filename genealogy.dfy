/** The people table and the per-name lineage table built from the "people to test (lineage)"
    sheet, and the lookups over them (Backend/genealogy_service.py, `_convert_dataframe_to_people`,
    `get_person_by_id`, `_find_column`). */
module Genealogy {
  import opened Wrappers
  import opened Text
  import opened Sheets

  /** Tree layout: every person sits in one column, one row of the layout per person. */
  const XStart := 300
  const YStart := 50
  const YSpacing := 120

  /** One supervision record of a lineage JSON document (missing keys read as ""). */
  datatype Relationship = Relationship(
    supervisor: string,   // Name_supervisor
    student: string,      // Name_student
    institution: string,  // Institution_student
    year: string,         // Year_Dissertation_student
    confidence: string)   // Confidence

  /** One row of the lineage sheet; the four JSON columns are given already parsed. */
  datatype LineageRow = LineageRow(
    name: Cell, kind: Cell, gender: Cell,
    oneUp: seq<Relationship>, oneDown: seq<Relationship>,
    allAncestors: seq<Relationship>, allDescendants: seq<Relationship>)

  datatype Person = Person(id: int, name: string, position: string, level: int, x: int, y: int)

  /** What `lineage_data[name]` holds. */
  datatype LineageEntry = LineageEntry(
    personId: int,
    directSupervisor: seq<Relationship>, directStudents: seq<Relationship>,
    allAncestors: seq<Relationship>, allDescendants: seq<Relationship>)

  /** The stripped name of a row whose Name cell holds a value. */
  function RowName(row: LineageRow): string
    requires row.name.Val?
  {
    Strip(row.name.text)
  }

  /** The person created for `row` when `index` people exist already. */
  function NewPerson(index: nat, row: LineageRow): Person
    requires row.name.Val?
  {
    var kind := Strip(CellText(row.kind, "Unknown"));
    var gender := Strip(CellText(row.gender, "Unknown"));
    Person(index + 1, RowName(row), kind + " | " + gender, 0, XStart, YStart + index * YSpacing)
  }

  function NewEntry(id: int, row: LineageRow): LineageEntry {
    LineageEntry(id, row.oneUp, row.oneDown, row.allAncestors, row.allDescendants)
  }

  function Names(people: seq<Person>): set<string> {
    set p | p in people :: p.name
  }

  lemma NamesAppend(people: seq<Person>, p: Person)
    ensures Names(people + [p]) == Names(people) + {p.name}
  {
    forall q | q in people + [p] ensures q in people || q == p { }
  }

  /** The state of the conversion loop: the people so far, the lineage entries written so far
      (keyed by name, so they also play the part of `people_by_name`), and whether a row without
      a Name column has aborted it. */
  datatype Conversion = Conversion(people: seq<Person>, lineage: map<string, LineageEntry>, failed: bool)

  /** The conversion of `rows`, one row after the other. Rows with an empty Name are skipped, a
      name seen before is skipped, and a row lacking the Name column raises and stops the loop. */
  function Convert(rows: seq<LineageRow>): Conversion {
    if rows == [] then Conversion([], map[], false)
    else ConvertStep(Convert(rows[..|rows| - 1]), rows[|rows| - 1])
  }

  /** One iteration of the conversion loop. */
  function ConvertStep(c: Conversion, row: LineageRow): Conversion {
    if c.failed || row.name.Blank? then c
    else if row.name.Absent? then c.(failed := true)
    else if RowName(row) in c.lineage then c
    else
      var n := |c.people|;
      Conversion(c.people + [NewPerson(n, row)], c.lineage[RowName(row) := NewEntry(n + 1, row)], false)
  }

  /** What `_convert_dataframe_to_people` returns: the people, or [] when it raised. */
  function ConvertedPeople(rows: seq<LineageRow>): seq<Person> {
    var c := Convert(rows);
    if c.failed then [] else c.people
  }

  /** The layout and the tables agree: ids count from 1, every person sits at level 0 in the
      column at `XStart` one row of the layout below the previous one, no name occurs twice,
      and the lineage table has exactly one entry per person, carrying that person's id. */
  ghost predicate WellBuilt(c: Conversion) {
    && (forall i :: 0 <= i < |c.people| ==>
          && c.people[i].id == i + 1 && c.people[i].level == 0
          && c.people[i].x == XStart && c.people[i].y == YStart + i * YSpacing)
    && (forall i, j :: 0 <= i < j < |c.people| ==> c.people[i].name != c.people[j].name)
    && c.lineage.Keys == Names(c.people)
    && (forall i :: 0 <= i < |c.people| ==> c.lineage[c.people[i].name].personId == c.people[i].id)
  }

  /** One step of the loop keeps the conversion well built. */
  lemma ConvertStepKeepsWellBuilt(c: Conversion, row: LineageRow)
    requires WellBuilt(c)
    ensures WellBuilt(ConvertStep(c, row))
  {
    if !c.failed && row.name.Val? && RowName(row) !in c.lineage {
      var n := |c.people|;
      var p := NewPerson(n, row);
      var e := NewEntry(n + 1, row);
      var people, lineage := c.people + [p], c.lineage[p.name := e];
      assert ConvertStep(c, row) == Conversion(people, lineage, false);
      NamesAppend(c.people, p);
      forall i | 0 <= i < n ensures c.people[i].name != p.name && people[i] == c.people[i] {
        assert c.people[i] in c.people;
      }
      forall i | 0 <= i <= n ensures lineage[people[i].name].personId == people[i].id {
        if i < n {
          assert lineage[people[i].name] == c.lineage[c.people[i].name];
        }
      }
    }
  }

  /** Every conversion is well built. */
  lemma {:induction false} ConvertWellBuilt(rows: seq<LineageRow>)
    ensures WellBuilt(Convert(rows))
  {
    if rows != [] {
      ConvertWellBuilt(rows[..|rows| - 1]);
      ConvertStepKeepsWellBuilt(Convert(rows[..|rows| - 1]), rows[|rows| - 1]);
    }
  }

  /** The conversion of one more row is one more loop step. */
  lemma ConvertNextRow(rows: seq<LineageRow>, i: nat)
    requires i < |rows|
    ensures Convert(rows[..i + 1]) == ConvertStep(Convert(rows[..i]), rows[i])
  {
    assert rows[..i + 1][..i] == rows[..i];
  }

  /** A failed conversion stays failed: rows after the failing one change nothing. */
  lemma {:induction false} ConvertStopsAtFailure(rows: seq<LineageRow>, n: nat)
    requires n <= |rows| && Convert(rows[..n]).failed
    ensures Convert(rows) == Convert(rows[..n])
    decreases |rows| - n
  {
    if n < |rows| {
      assert rows[..n + 1][..n] == rows[..n];
      ConvertStopsAtFailure(rows, n + 1);
    } else {
      assert rows[..n] == rows;
    }
  }

  predicate NamedAs(row: LineageRow, name: string) {
    row.name.Val? && RowName(row) == name
  }

  /** The index of the first row named `name`, or -1. */
  function FirstNamedRow(rows: seq<LineageRow>, name: string): (j: int)
    ensures -1 <= j < |rows|
    ensures j == -1 <==> forall k :: 0 <= k < |rows| ==> !NamedAs(rows[k], name)
    ensures j >= 0 ==> NamedAs(rows[j], name) && forall k :: 0 <= k < j ==> !NamedAs(rows[k], name)
  {
    if rows == [] then -1
    else
      var j := FirstNamedRow(rows[..|rows| - 1], name);
      if j >= 0 then j
      else if NamedAs(rows[|rows| - 1], name) then |rows| - 1
      else -1
  }

  /** The conversion fails exactly when some row lacks the Name column. */
  lemma {:induction false} ConvertFailsIffNameMissing(rows: seq<LineageRow>)
    ensures Convert(rows).failed <==> exists k :: 0 <= k < |rows| && rows[k].name.Absent?
  {
    if rows != [] {
      var front := rows[..|rows| - 1];
      ConvertFailsIffNameMissing(front);
      if Convert(front).failed {
        var k :| 0 <= k < |front| && front[k].name.Absent?;
        assert rows[k] == front[k];
      } else if rows[|rows| - 1].name.Absent? {
      } else {
        forall k | 0 <= k < |rows| ensures !rows[k].name.Absent? {
          if k < |front| { assert rows[k] == front[k]; }
        }
      }
    }
  }

  /** Every row with a name has a person of that name (unless the conversion raised). */
  lemma {:induction false} ConvertCoversNamedRows(rows: seq<LineageRow>)
    requires !Convert(rows).failed
    ensures forall k :: 0 <= k < |rows| && rows[k].name.Val? ==> RowName(rows[k]) in Convert(rows).lineage
  {
    if rows != [] {
      var n := |rows| - 1;
      var front := rows[..n];
      var c0, c := Convert(front), Convert(rows);
      assert c == ConvertStep(c0, rows[n]);
      assert !c0.failed;
      ConvertCoversNamedRows(front);
      assert c0.lineage.Keys <= c.lineage.Keys;
      forall k | 0 <= k < n && rows[k].name.Val? ensures RowName(rows[k]) in c.lineage {
        assert rows[k] == front[k];
      }
    }
  }

  /** A name that has a person is first carried by a row of the prefix that made that person,
      so adding rows does not move it. */
  lemma FirstNamedRowOfKnownName(rows: seq<LineageRow>, name: string)
    requires rows != [] && FirstNamedRow(rows[..|rows| - 1], name) >= 0
    ensures FirstNamedRow(rows, name) == FirstNamedRow(rows[..|rows| - 1], name)
  {
  }

  /** The first row carrying the name of the person added by the last row is that last row. */
  lemma {:induction false} NewNameFirstRow(rows: seq<LineageRow>)
    requires rows != [] && !Convert(rows[..|rows| - 1]).failed
    requires var row := rows[|rows| - 1];
      row.name.Val? && RowName(row) !in Convert(rows[..|rows| - 1]).lineage
    ensures FirstNamedRow(rows, RowName(rows[|rows| - 1])) == |rows| - 1
  {
    var n := |rows| - 1;
    var front := rows[..n];
    ConvertCoversNamedRows(front);
    forall k | 0 <= k < n ensures !NamedAs(front[k], RowName(rows[n])) { }
  }

  /** Person `i` of `c`, and the lineage entry stored under its name, are made from the first
      row of `rows` carrying that name. */
  ghost predicate MadeFromFirstRow(rows: seq<LineageRow>, c: Conversion, i: nat)
    requires i < |c.people|
  {
    var j := FirstNamedRow(rows, c.people[i].name);
    && 0 <= j && c.people[i] == NewPerson(i, rows[j])
    && c.people[i].name in c.lineage && c.lineage[c.people[i].name] == NewEntry(i + 1, rows[j])
  }

  /** One step of `ConvertKeepsFirstRows`: if the people made from all rows but the last are
      made from first rows, so is person `i` after the last row. */
  lemma KeepsFirstRowStep(rows: seq<LineageRow>, i: nat)
    requires rows != [] && !Convert(rows).failed
    requires var front := rows[..|rows| - 1];
      forall i :: 0 <= i < |Convert(front).people| ==> MadeFromFirstRow(front, Convert(front), i)
    requires i < |Convert(rows).people|
    ensures MadeFromFirstRow(rows, Convert(rows), i)
  {
    var n := |rows| - 1;
    var front, row := rows[..n], rows[n];
    var c0, c := Convert(front), Convert(rows);
    assert c == ConvertStep(c0, row);
    var name := c.people[i].name;
    if i < |c0.people| {
      assert !(row.name.Absent?);
      assert c.people[i] == c0.people[i];
      ConvertWellBuilt(front);
      assert c0.people[i] in c0.people;
      assert name in c0.lineage;
      assert MadeFromFirstRow(front, c0, i);
      FirstNamedRowOfKnownName(rows, name);
      var j := FirstNamedRow(front, name);
      assert rows[j] == front[j];
      assert c.lineage[name] == c0.lineage[name];
    } else {
      NewNameFirstRow(rows);
    }
  }

  /** Each person, and the lineage entry stored under its name, is made from the first row
      carrying that name. */
  lemma {:induction false} ConvertKeepsFirstRows(rows: seq<LineageRow>)
    requires !Convert(rows).failed
    ensures forall i :: 0 <= i < |Convert(rows).people| ==> MadeFromFirstRow(rows, Convert(rows), i)
  {
    if rows != [] {
      var front := rows[..|rows| - 1];
      assert Convert(rows) == ConvertStep(Convert(front), rows[|rows| - 1]);
      ConvertKeepsFirstRows(front);
      forall i | 0 <= i < |Convert(rows).people| ensures MadeFromFirstRow(rows, Convert(rows), i) {
        KeepsFirstRowStep(rows, i);
      }
    }
  }

  /** The people come in the order of the first rows of their names. */
  lemma {:induction false} ConvertKeepsRowOrder(rows: seq<LineageRow>)
    requires !Convert(rows).failed
    ensures var c := Convert(rows);
      forall i, i' :: 0 <= i < i' < |c.people| ==>
        FirstNamedRow(rows, c.people[i].name) < FirstNamedRow(rows, c.people[i'].name)
  {
    if rows != [] {
      var n := |rows| - 1;
      var front, row := rows[..n], rows[n];
      var c0, c := Convert(front), Convert(rows);
      assert c == ConvertStep(c0, row);
      assert !c0.failed;
      ConvertKeepsRowOrder(front);
      ConvertKeepsFirstRows(front);
      var grew := row.name.Val? && RowName(row) !in c0.lineage;
      assert !grew ==> c == c0;
      forall i | 0 <= i < |c0.people|
        ensures 0 <= FirstNamedRow(rows, c.people[i].name) == FirstNamedRow(front, c0.people[i].name) < n
      {
        assert c.people[i] == c0.people[i];
        assert MadeFromFirstRow(front, c0, i);
        FirstNamedRowOfKnownName(rows, c0.people[i].name);
      }
      if grew {
        NewNameFirstRow(rows);
        assert c.people[|c0.people|].name == RowName(row);
      }
      forall i, i' | 0 <= i < i' < |c.people|
        ensures FirstNamedRow(rows, c.people[i].name) < FirstNamedRow(rows, c.people[i'].name)
      {
        if i' < |c0.people| {
          assert FirstNamedRow(front, c0.people[i].name) < FirstNamedRow(front, c0.people[i'].name);
        }
      }
    }
  }

  /** `get_person_by_id`: the first person with that id. */
  function GetPersonById(people: seq<Person>, id: int): (r: Option<Person>)
    ensures r.None? <==> forall i :: 0 <= i < |people| ==> people[i].id != id
    ensures forall i :: 0 <= i < |people| && people[i].id == id && (forall j :: 0 <= j < i ==> people[j].id != id)
              ==> r == Some(people[i])
  {
    if people == [] then None
    else if people[0].id == id then Some(people[0])
    else GetPersonById(people[1..], id)
  }

  /** After a conversion the id `k` finds the `k`-th person, and any other id finds nobody. */
  lemma PersonByIdAfterConvert(rows: seq<LineageRow>, k: int)
    ensures var people := ConvertedPeople(rows);
      GetPersonById(people, k) == if 1 <= k <= |people| then Some(people[k - 1]) else None
  {
    ConvertWellBuilt(rows);
  }

  /** `_find_column`: the first of `possibleNames` that is a column of the sheet. */
  function FindColumn(columns: set<string>, possibleNames: seq<string>): (r: Option<string>)
    ensures r.None? <==> forall i :: 0 <= i < |possibleNames| ==> possibleNames[i] !in columns
    ensures forall i :: 0 <= i < |possibleNames| && possibleNames[i] in columns
                         && (forall j :: 0 <= j < i ==> possibleNames[j] !in columns)
              ==> r == Some(possibleNames[i])
  {
    if possibleNames == [] then None
    else if possibleNames[0] in columns then Some(possibleNames[0])
    else FindColumn(columns, possibleNames[1..])
  }
}
