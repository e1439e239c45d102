/** The biography index built from the "people to test (bio)" sheet and the lookups over it
    (Backend/genealogy_service.py, `load_biography_data`, `get_biography_for_scientist`,
    `get_all_biography_scientists`, `get_scientists_for_model`). */
module Biography {
  import opened Wrappers
  import opened Text
  import opened Sheets
  import opened Dicts

  /** One row of the biography sheet. */
  datatype BioRow = BioRow(name: Cell, model: Cell, kind: Cell, gender: Cell, minimal: Cell, comprehensive: Cell)

  /** What `biography_data[scientist][model]` holds. */
  datatype BioRecord = BioRecord(
    name: string, kind: string, gender: string, model: string,
    minimalBiography: string, comprehensiveBiography: string)

  /** Model name to record, in the order the models were first seen for the scientist. */
  type ModelMap = Dict<string, BioRecord>

  /** Scientist name to model map, in the order the scientists were first seen. */
  type BioIndex = Dict<string, ModelMap>

  /** The scientist and model names of a row with a Name value. */
  function RowScientist(row: BioRow): string
    requires row.name.Val?
  {
    Strip(row.name.text)
  }

  function RowModel(row: BioRow): string {
    Strip(CellText(row.model, "Unknown"))
  }

  /** The record a row with a Name value stores. */
  function RecordOf(row: BioRow): BioRecord
    requires row.name.Val?
  {
    BioRecord(
      RowScientist(row),
      Strip(CellText(row.kind, "Unknown")),
      Strip(CellText(row.gender, "Unknown")),
      RowModel(row),
      Strip(CellText(row.minimal, "")),
      Strip(CellText(row.comprehensive, "")))
  }

  /** `biography_data[scientist][model]`, when both keys are present. */
  function Lookup(d: BioIndex, scientist: string, model: string): Option<BioRecord> {
    match Get(d, scientist)
    case None => None
    case Some(models) => Get(models, model)
  }

  /** The index is consistent: no key twice at either level, every scientist has at least one
      model, and every record is stored under its own scientist and model names. */
  ghost predicate WellFormed(d: BioIndex) {
    && DistinctKeys(d)
    && forall i :: 0 <= i < |d| ==>
         && d[i].1 != []
         && DistinctKeys(d[i].1)
         && forall j :: 0 <= j < |d[i].1| ==> d[i].1[j].1.name == d[i].0 && d[i].1[j].1.model == d[i].1[j].0
  }

  /** Storing one record: `biography_data[scientist][model] = record`, after creating an empty
      map for a scientist not seen before. The stored pair now gives `rec`, and the scientists
      keep their order (a new one goes last). */
  function Store(d: BioIndex, rec: BioRecord): (r: BioIndex)
    ensures Lookup(r, rec.name, rec.model) == Some(rec)
    ensures |r| == if HasKey(d, rec.name) then |d| else |d| + 1
    ensures forall i :: 0 <= i < |d| ==> r[i].0 == d[i].0
  {
    Put(d, rec.name, Put(Get(d, rec.name).GetOr([]), rec.model, rec))
  }

  /** Storing a record leaves every other (scientist, model) pair as it was. */
  lemma StoreLeavesOtherPairs(d: BioIndex, rec: BioRecord, s: string, m: string)
    requires s != rec.name || m != rec.model
    ensures Lookup(Store(d, rec), s, m) == Lookup(d, s, m)
  {
    var models := Get(d, rec.name).GetOr([]);
    var models' := Put(models, rec.model, rec);
    if s == rec.name {
      assert Get(Store(d, rec), s) == Some(models');
    }
  }

  /** Storing a record keeps the index well formed. */
  lemma StoreKeepsWellFormed(d: BioIndex, rec: BioRecord)
    requires WellFormed(d)
    ensures WellFormed(Store(d, rec))
  {
    var models := Get(d, rec.name).GetOr([]);
    var models' := Put(models, rec.model, rec);
    var r := Put(d, rec.name, models');
    assert models' != [];
    forall j | 0 <= j < |models'|
      ensures models'[j].1.name == rec.name && models'[j].1.model == models'[j].0
    {
      if j < |models| && models[j].0 != rec.model {
        var i :| 0 <= i < |d| && d[i].0 == rec.name && d[i].1 == models;
      }
    }
    forall i | 0 <= i < |r|
      ensures r[i].1 != [] && DistinctKeys(r[i].1)
      ensures forall j :: 0 <= j < |r[i].1| ==> r[i].1[j].1.name == r[i].0 && r[i].1[j].1.model == r[i].1[j].0
    {
      if r[i].0 == rec.name {
        assert r[i].1 == models';
      } else {
        assert r[i] == d[i];
      }
    }
  }

  /** The two steps of the source, creating the scientist's empty map and then assigning into
      it, store what `Store` stores. */
  lemma StoreInTwoSteps(d: BioIndex, rec: BioRecord)
    ensures var d1 := if HasKey(d, rec.name) then d else Put(d, rec.name, []);
      Put(d1, rec.name, Put(Get(d1, rec.name).value, rec.model, rec)) == Store(d, rec)
  {
    if !HasKey(d, rec.name) {
      var d1 := Put(d, rec.name, []);
      assert d1 == d + [(rec.name, [])];
      assert IndexOf(d1, rec.name) == Some(|d|);
    }
  }

  /** One iteration of the row loop; None when the row lacks the Name column (`KeyError`). */
  function LoadRow(d: BioIndex, row: BioRow): Option<BioIndex> {
    if row.name.Blank? then Some(d)
    else if row.name.Absent? then None
    else Some(Store(d, RecordOf(row)))
  }

  /** The row loop of `load_biography_data` from index `d`; None when it raised. */
  function LoadRows(d: BioIndex, rows: seq<BioRow>): Option<BioIndex> {
    if rows == [] then Some(d)
    else match LoadRows(d, rows[..|rows| - 1])
      case None => None
      case Some(d') => LoadRow(d', rows[|rows| - 1])
  }

  /** Loading one more row is one more loop step. */
  lemma LoadNextRow(d: BioIndex, rows: seq<BioRow>, i: nat)
    requires i < |rows| && LoadRows(d, rows[..i]).Some?
    ensures LoadRows(d, rows[..i + 1]) == LoadRow(LoadRows(d, rows[..i]).value, rows[i])
  {
    assert rows[..i + 1][..i] == rows[..i];
  }

  /** `biography_data` after loading: the handler of an exception resets it to `{}`. */
  function Loaded(d: BioIndex, rows: seq<BioRow>): BioIndex {
    match LoadRows(d, rows)
    case None => []
    case Some(r) => r
  }

  /** Loading raises exactly when some row lacks the Name column. */
  lemma {:induction false} LoadFailsIffNameMissing(d: BioIndex, rows: seq<BioRow>)
    ensures LoadRows(d, rows).None? <==> exists k :: 0 <= k < |rows| && rows[k].name.Absent?
  {
    if rows != [] {
      var front := rows[..|rows| - 1];
      LoadFailsIffNameMissing(d, front);
      if LoadRows(d, front).None? {
        var k :| 0 <= k < |front| && front[k].name.Absent?;
        assert rows[k] == front[k];
      } else if !rows[|rows| - 1].name.Absent? {
        forall k | 0 <= k < |rows| ensures !rows[k].name.Absent? {
          if k < |front| { assert rows[k] == front[k]; }
        }
      }
    }
  }

  /** Loading keeps the index well formed. */
  lemma {:induction false} LoadKeepsWellFormed(d: BioIndex, rows: seq<BioRow>)
    requires WellFormed(d)
    ensures WellFormed(Loaded(d, rows))
  {
    if rows != [] {
      var front := rows[..|rows| - 1];
      LoadKeepsWellFormed(d, front);
      match LoadRows(d, front)
      case None =>
      case Some(d') =>
        if rows[|rows| - 1].name.Val? {
          StoreKeepsWellFormed(d', RecordOf(rows[|rows| - 1]));
        }
    }
  }

  /** Loading stops at the first failing row: what follows it does not matter. */
  lemma {:induction false} LoadStopsAtFailure(d: BioIndex, rows: seq<BioRow>, n: nat)
    requires n <= |rows| && LoadRows(d, rows[..n]).None?
    ensures LoadRows(d, rows).None?
    decreases |rows| - n
  {
    if n < |rows| {
      assert rows[..n + 1][..n] == rows[..n];
      LoadStopsAtFailure(d, rows, n + 1);
    } else {
      assert rows[..n] == rows;
    }
  }

  /** Some scientist has a record for `model`. */
  ghost predicate ModelOffered(d: BioIndex, model: string) {
    exists i :: 0 <= i < |d| && HasKey(d[i].1, model)
  }

  predicate StoresPair(row: BioRow, scientist: string, model: string) {
    row.name.Val? && RowScientist(row) == scientist && RowModel(row) == model
  }

  /** The index of the last row storing (`scientist`, `model`), or -1. */
  function LastRowFor(rows: seq<BioRow>, scientist: string, model: string): (j: int)
    ensures -1 <= j < |rows|
    ensures j >= 0 ==> StoresPair(rows[j], scientist, model)
  {
    if rows == [] then -1
    else if StoresPair(rows[|rows| - 1], scientist, model) then |rows| - 1
    else LastRowFor(rows[..|rows| - 1], scientist, model)
  }

  /** `LastRowFor` finds the last such row: no row after it stores the pair, and it is -1 only
      when no row stores the pair. */
  lemma {:induction false} LastRowForIsLast(rows: seq<BioRow>, scientist: string, model: string)
    ensures var j := LastRowFor(rows, scientist, model);
      forall k :: j < k < |rows| ==> !StoresPair(rows[k], scientist, model)
  {
    if rows != [] && !StoresPair(rows[|rows| - 1], scientist, model) {
      var front := rows[..|rows| - 1];
      LastRowForIsLast(front, scientist, model);
      assert forall k :: 0 <= k < |front| ==> front[k] == rows[k];
    }
  }

  /** Later rows win: after loading, each (scientist, model) pair gives the record of the last
      row that stored it, and a pair no row stored gives what it gave before loading. */
  lemma {:induction false} LoadLastWriteWins(d: BioIndex, rows: seq<BioRow>, scientist: string, model: string)
    requires LoadRows(d, rows).Some?
    ensures var j := LastRowFor(rows, scientist, model);
      Lookup(LoadRows(d, rows).value, scientist, model)
        == if j >= 0 then Some(RecordOf(rows[j])) else Lookup(d, scientist, model)
  {
    if rows != [] {
      var n := |rows| - 1;
      var front := rows[..n];
      LoadLastWriteWins(d, front, scientist, model);
      if !StoresPair(rows[n], scientist, model) {
        var j := LastRowFor(front, scientist, model);
        assert j >= 0 ==> rows[j] == front[j];
        if rows[n].name.Val? {
          var d' := LoadRows(d, front).value;
          StoreLeavesOtherPairs(d', RecordOf(rows[n]), scientist, model);
        }
      }
    }
  }

  /** What `get_biography_for_scientist` returns: every model of the scientist, or one record. */
  datatype BioAnswer = AllModels(models: ModelMap) | OneModel(record: BioRecord)

  /** `get_biography_for_scientist(name, model)`; an absent or empty model name asks for every
      model, and a model the scientist lacks falls back to the scientist's first model. */
  function GetBiographyForScientist(d: BioIndex, name: string, model: Option<string>): (r: Option<BioAnswer>)
    ensures !HasKey(d, name) ==> r.None?
    ensures HasKey(d, name) && (model.None? || model == Some("")) ==> r == Some(AllModels(Get(d, name).value))
    ensures model.Some? && Lookup(d, name, model.value).Some? && model.value != "" ==>
              r == Some(OneModel(Lookup(d, name, model.value).value))
    ensures model.Some? && model.value != "" && HasKey(d, name) && Lookup(d, name, model.value).None? ==>
              r == (var models := Get(d, name).value; if models == [] then None else Some(OneModel(models[0].1)))
    ensures WellFormed(d) && r.Some? && r.value.OneModel? ==> r.value.record.name == name
  {
    match Get(d, name)
    case None => None
    case Some(models) =>
      if model.Some? && model.value != "" && HasKey(models, model.value) then Some(OneModel(Get(models, model.value).value))
      else if model.None? || model.value == "" then Some(AllModels(models))
      else if models != [] then Some(OneModel(models[0].1))
      else None
  }

  datatype ScientistInfo = ScientistInfo(name: string, kind: string, gender: string)

  function InfoOf(rec: BioRecord): ScientistInfo {
    ScientistInfo(rec.name, rec.kind, rec.gender)
  }

  /** `get_all_biography_scientists`: the name, type and gender of each scientist's first model
      record, in scientist order, skipping scientists with no model. */
  function GetAllBiographyScientists(d: BioIndex): (r: seq<ScientistInfo>)
    ensures |r| <= |d|
  {
    if d == [] then []
    else (if d[0].1 == [] then [] else [InfoOf(d[0].1[0].1)]) + GetAllBiographyScientists(d[1..])
  }

  /** Dropping the first scientist keeps the index well formed, and its lookups are those of
      the whole index for every other scientist. */
  lemma TailOfWellFormed(d: BioIndex)
    requires WellFormed(d) && d != []
    ensures WellFormed(d[1..])
    ensures forall i :: 0 <= i < |d| - 1 ==> d[1..][i].0 != d[0].0
    ensures forall s, m :: s != d[0].0 ==> Lookup(d, s, m) == Lookup(d[1..], s, m)
    ensures forall m :: Lookup(d, d[0].0, m) == Get(d[0].1, m)
  {
    var tail := d[1..];
    forall i, j | 0 <= i < j < |tail| ensures tail[i].0 != tail[j].0 {
      assert tail[i] == d[i + 1] && tail[j] == d[j + 1];
    }
    forall i | 0 <= i < |tail| ensures tail[i].0 != d[0].0 {
      assert tail[i] == d[i + 1];
    }
  }

  /** On a well-formed index every scientist is listed once, in order, under its own name. */
  lemma {:induction false} AllScientistsListsEachOnce(d: BioIndex)
    requires WellFormed(d)
    ensures |GetAllBiographyScientists(d)| == |d|
    ensures forall i :: 0 <= i < |d| ==>
              GetAllBiographyScientists(d)[i] == InfoOf(d[i].1[0].1) && GetAllBiographyScientists(d)[i].name == d[i].0
  {
    if d != [] {
      TailOfWellFormed(d);
      AllScientistsListsEachOnce(d[1..]);
    }
  }

  datatype ModelScientist = ModelScientist(name: string, kind: string, gender: string, model: string)

  /** `get_scientists_for_model`: one entry per scientist that has the model, in scientist order. */
  function GetScientistsForModel(d: BioIndex, model: string): (r: seq<ModelScientist>)
    ensures |r| <= |d|
  {
    if d == [] then []
    else
      var rest := GetScientistsForModel(d[1..], model);
      match Get(d[0].1, model)
      case None => rest
      case Some(rec) => [ModelScientist(rec.name, rec.kind, rec.gender, rec.model)] + rest
  }

  /** Every scientist listed for a model has a record for it, and the entry carries that
      record's name, type, gender and model, the model being the one asked for. */
  lemma {:induction false} ScientistsForModelSound(d: BioIndex, model: string)
    requires WellFormed(d)
    ensures forall i :: 0 <= i < |GetScientistsForModel(d, model)| ==>
              && GetScientistsForModel(d, model)[i].model == model
              && Lookup(d, GetScientistsForModel(d, model)[i].name, model).Some?
              && var rec := Lookup(d, GetScientistsForModel(d, model)[i].name, model).value;
                 GetScientistsForModel(d, model)[i] == ModelScientist(rec.name, rec.kind, rec.gender, rec.model)
  {
    if d != [] {
      TailOfWellFormed(d);
      ScientistsForModelSound(d[1..], model);
      var rest := GetScientistsForModel(d[1..], model);
      forall i | 0 <= i < |rest| ensures rest[i].name != d[0].0 {
      }
      match Get(d[0].1, model)
      case None =>
      case Some(rec) =>
        var k := IndexOf(d[0].1, model).value;
        assert rec == d[0].1[k].1;
    }
  }

  /** The positions in the index of the scientists that have a record for `model`, in index order. */
  function ModelRows(d: BioIndex, model: string): (p: seq<nat>)
    ensures |p| <= |d|
    ensures forall i :: 0 <= i < |p| ==> p[i] < |d| && HasKey(d[p[i]].1, model)
    ensures forall i, j :: 0 <= i < j < |p| ==> p[i] < p[j]
  {
    if d == [] then []
    else
      var t := ModelRows(d[1..], model);
      var shifted := seq(|t|, i requires 0 <= i < |t| => t[i] + 1);
      if HasKey(d[0].1, model) then [0] + shifted else shifted
  }

  /** The entries follow the order of the scientists in the index: the i-th entry is the
      scientist at the i-th position that has the model. */
  lemma {:induction false} ScientistsForModelInOrder(d: BioIndex, model: string)
    requires WellFormed(d)
    ensures |GetScientistsForModel(d, model)| == |ModelRows(d, model)|
    ensures forall i :: 0 <= i < |GetScientistsForModel(d, model)| ==>
              GetScientistsForModel(d, model)[i].name == d[ModelRows(d, model)[i]].0
  {
    if d != [] {
      TailOfWellFormed(d);
      ScientistsForModelInOrder(d[1..], model);
      var rest, r := GetScientistsForModel(d[1..], model), GetScientistsForModel(d, model);
      var t, p := ModelRows(d[1..], model), ModelRows(d, model);
      var shift := |r| - |rest|;
      forall i | shift <= i < |r| ensures r[i].name == d[p[i]].0 {
        assert r[i] == rest[i - shift];
        assert p[i] == t[i - shift] + 1;
        assert d[1..][t[i - shift]] == d[t[i - shift] + 1];
      }
      match Get(d[0].1, model)
      case None =>
      case Some(rec) =>
        var k := IndexOf(d[0].1, model).value;
        assert rec == d[0].1[k].1;
    }
  }

  predicate Listed(r: seq<ModelScientist>, scientist: string) {
    exists i :: 0 <= i < |r| && r[i].name == scientist
  }

  /** Every scientist with a record for the model is listed for it. */
  lemma {:induction false} ScientistsForModelComplete(d: BioIndex, model: string)
    requires WellFormed(d)
    ensures forall s :: Lookup(d, s, model).Some? ==> Listed(GetScientistsForModel(d, model), s)
  {
    if d != [] {
      TailOfWellFormed(d);
      ScientistsForModelComplete(d[1..], model);
      var rest, r := GetScientistsForModel(d[1..], model), GetScientistsForModel(d, model);
      forall s | Lookup(d, s, model).Some? ensures Listed(r, s) {
        var first := Get(d[0].1, model);
        if first.None? {
          assert r == rest;
          assert s != d[0].0;
          assert Lookup(d[1..], s, model).Some?;
        } else {
          var k := IndexOf(d[0].1, model).value;
          assert first.value == d[0].1[k].1;
          if s == d[0].0 {
            assert r[0].name == s;
          } else {
            assert Lookup(d[1..], s, model).Some?;
            assert Listed(rest, s);
            var i :| 0 <= i < |rest| && rest[i].name == s;
            assert r[i + 1].name == s;
          }
        }
      }
    } else {
      forall s ensures Lookup(d, s, model).None? { }
    }
  }

  /** No scientist is listed twice for one model. */
  lemma {:induction false} ScientistsForModelDistinct(d: BioIndex, model: string)
    requires WellFormed(d)
    ensures forall i, j :: 0 <= i < j < |GetScientistsForModel(d, model)| ==>
              GetScientistsForModel(d, model)[i].name != GetScientistsForModel(d, model)[j].name
  {
    if d != [] {
      TailOfWellFormed(d);
      ScientistsForModelDistinct(d[1..], model);
      ScientistsForModelSound(d[1..], model);
      var rest := GetScientistsForModel(d[1..], model);
      forall i | 0 <= i < |rest| ensures rest[i].name != d[0].0 {
      }
      match Get(d[0].1, model)
      case None =>
      case Some(rec) =>
        var k := IndexOf(d[0].1, model).value;
        assert rec == d[0].1[k].1;
    }
  }
}
