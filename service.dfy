/** The in-memory state of the genealogy service and the operations that build and change it
    (Backend/genealogy_service.py, class `GenealogyService`). The spreadsheet reads and writes
    are outside the model: the sheets arrive as rows, and saving stops at the in-memory lists. */
module Service {
  import opened Wrappers
  import opened Text
  import opened Sheets
  import opened Dicts
  import opened Genealogy
  import opened Questions
  import opened Biography
  import opened Ratings

  class GenealogyService {
    var peopleData: seq<Person>
    var lineageData: map<string, LineageEntry>
    var biographyData: BioIndex
    var ratings: seq<ModelRating>
    var genealogyAssessments: seq<GenealogyAssessment>

    /** `__init__`: start empty, then load the lineage sheet and the biography sheet. */
    constructor (lineageRows: seq<LineageRow>, bioRows: seq<BioRow>)
      ensures peopleData == ConvertedPeople(lineageRows)
      ensures lineageData == Convert(lineageRows).lineage
      ensures biographyData == Loaded([], bioRows) && WellFormed(biographyData)
      ensures ratings == [] && genealogyAssessments == []
    {
      peopleData := [];
      lineageData := map[];
      biographyData := [];
      ratings := [];
      genealogyAssessments := [];
      new;
      LoadExcelData(lineageRows);
      LoadBiographyData(bioRows);
      LoadKeepsWellFormed([], bioRows);
    }

    /** `load_excel_data` once the sheet is read: the people list is replaced, the lineage table
        gains (or overwrites) the entries of this sheet. */
    method LoadExcelData(rows: seq<LineageRow>)
      modifies this`peopleData, this`lineageData
      ensures peopleData == ConvertedPeople(rows)
      ensures lineageData == old(lineageData) + Convert(rows).lineage
    {
      peopleData := ConvertDataframeToPeople(rows);
    }

    /** `_convert_dataframe_to_people`. A row lacking the Name column raises: the result is then
        [] while the lineage entries written before that row stay. */
    method ConvertDataframeToPeople(rows: seq<LineageRow>) returns (people: seq<Person>)
      modifies this`lineageData
      ensures people == ConvertedPeople(rows)
      ensures lineageData == old(lineageData) + Convert(rows).lineage
    {
      people := [];
      var peopleByName: map<string, Person> := map[];
      var personId := 1;
      var i := 0;
      ghost var conv := Convert([]);
      while i < |rows|
        invariant 0 <= i <= |rows|
        invariant conv == Convert(rows[..i]) && !conv.failed && conv.people == people
        invariant lineageData == old(lineageData) + conv.lineage
        invariant personId == |people| + 1
        invariant peopleByName.Keys == conv.lineage.Keys
      {
        var row := rows[i];
        ConvertNextRow(rows, i);
        ghost var prev := conv;
        conv := ConvertStep(conv, row);
        if row.name.Absent? {
          ConvertStopsAtFailure(rows, i + 1);
          return [];
        }
        if row.name.Val? {
          var name := Strip(row.name.text);
          var kind := Strip(CellText(row.kind, "Unknown"));
          var gender := Strip(CellText(row.gender, "Unknown"));
          if name !in peopleByName {
            var person := Person(personId, name, kind + " | " + gender, 0, XStart, YStart + |people| * YSpacing);
            var entry := LineageEntry(personId, row.oneUp, row.oneDown, row.allAncestors, row.allDescendants);
            assert person == NewPerson(|people|, row) && entry == NewEntry(|people| + 1, row);
            people := people + [person];
            peopleByName := peopleByName[name := person];
            assert conv.lineage == prev.lineage[name := entry];
            MergeThenSet(old(lineageData), prev.lineage, name, entry);
            lineageData := lineageData[name := entry];
            personId := personId + 1;
          }
        }
        i := i + 1;
      }
      assert rows[..i] == rows;
    }

    /** Writing a key into the merged table is writing it into the merged-in part. */
    static lemma MergeThenSet<K, V>(a: map<K, V>, b: map<K, V>, k: K, v: V)
      ensures a + b[k := v] == (a + b)[k := v]
    {
      assert (a + b[k := v]).Keys == (a + b)[k := v].Keys;
    }

    /** `get_lineage_questions_for_scientist`. */
    method GetLineageQuestionsForScientist(name: string) returns (questions: seq<Question>)
      ensures questions == LineageQuestions(lineageData, peopleData, name)
    {
      if name !in lineageData {
        return [];
      }
      var allRelated := AllRelated(lineageData[name]);
      var found := false;
      var j := 0;
      while j < |peopleData| && !found
        invariant 0 <= j <= |peopleData|
        invariant found <==> exists k :: 0 <= k < j && peopleData[k].name == name
      {
        found := peopleData[j].name == name;
        j := j + 1;
      }
      if !found {
        return [];
      }
      questions := [];
      var usedNames: set<string> := {};
      var k := 0;
      while k < |allRelated|
        invariant 0 <= k <= |allRelated|
        invariant questions == Generate(name, allRelated[..k])
        invariant usedNames == OtherNames(questions)
      {
        GenerateNext(name, allRelated, k);
        // QuestionFor is the supervisor/student test of the loop body (an indirect
        // relationship or an empty other name gives None).
        match QuestionFor(name, allRelated[k]) {
          case None =>
          case Some(question) =>
            if question.otherPerson !in usedNames {
              usedNames := usedNames + {question.otherPerson};
              OtherNamesAppend(questions, question);
              questions := questions + [question];
            }
        }
        k := k + 1;
      }
      assert allRelated[..k] == allRelated;
    }

    /** The row loop of `load_biography_data`; a row lacking the Name column raises, and the
        handler empties the index. */
    method LoadBiographyData(rows: seq<BioRow>)
      modifies this`biographyData
      ensures biographyData == Loaded(old(biographyData), rows)
    {
      var i := 0;
      while i < |rows|
        invariant 0 <= i <= |rows|
        invariant LoadRows(old(biographyData), rows[..i]) == Some(biographyData)
      {
        var row := rows[i];
        LoadNextRow(old(biographyData), rows, i);
        if row.name.Absent? {
          LoadStopsAtFailure(old(biographyData), rows, i + 1);
          biographyData := [];
          return;
        }
        if row.name.Val? {
          var record := RecordOf(row);
          StoreInTwoSteps(biographyData, record);
          if !HasKey(biographyData, record.name) {
            biographyData := Put(biographyData, record.name, []);
          }
          var models := Get(biographyData, record.name).value;
          biographyData := Put(biographyData, record.name, Put(models, record.model, record));
        }
        i := i + 1;
      }
      assert rows[..i] == rows;
    }

    /** `get_available_models`: every model some scientist has, each once. */
    method GetAvailableModels() returns (models: seq<string>)
      ensures forall a, b :: 0 <= a < b < |models| ==> models[a] != models[b]
      ensures forall m :: m in models <==> ModelOffered(biographyData, m)
    {
      models := [];
      var i := 0;
      while i < |biographyData|
        invariant 0 <= i <= |biographyData|
        invariant forall a, b :: 0 <= a < b < |models| ==> models[a] != models[b]
        invariant forall m :: m in models <==> exists i' :: 0 <= i' < i && HasKey(biographyData[i'].1, m)
      {
        var scientistModels := biographyData[i].1;
        var j := 0;
        while j < |scientistModels|
          invariant 0 <= j <= |scientistModels|
          invariant forall a, b :: 0 <= a < b < |models| ==> models[a] != models[b]
          invariant forall m :: m in models <==>
                      (exists i' :: 0 <= i' < i && HasKey(biographyData[i'].1, m))
                      || exists j' :: 0 <= j' < j && scientistModels[j'].0 == m
        {
          var m := scientistModels[j].0;
          if m !in models {
            models := models + [m];
          }
          j := j + 1;
        }
        i := i + 1;
      }
    }

    /** `save_rating`: append the rating, or report False and change nothing when a required
        key is missing. */
    method SaveRating(req: RatingRequest) returns (ok: bool)
      modifies this`ratings
      ensures ok <==> HasRequiredRatingKeys(req)
      ensures ratings == if ok then old(ratings) + [MakeRating(req).value] else old(ratings)
    {
      var rating := MakeRating(req);
      if rating.None? {
        return false;
      }
      ratings := ratings + [rating.value];
      ok := true;
    }

    /** The `/api/ratings` POST handler: fill in the scientist's name from the prompt, then save. */
    method PostRating(req: RatingRequest) returns (ok: bool)
      modifies this`ratings
      ensures ok <==> HasRequiredRatingKeys(req)
      ensures ratings == if ok then old(ratings) + [MakeRating(FillScientistName(req)).value] else old(ratings)
    {
      ok := SaveRating(FillScientistName(req));
    }

    /** `save_genealogy_assessment`: append the assessment, or report False and change nothing
        when a required key is missing. */
    method SaveGenealogyAssessment(req: AssessmentRequest) returns (ok: bool)
      modifies this`genealogyAssessments
      ensures ok <==> HasRequiredAssessmentKeys(req)
      ensures genealogyAssessments == if ok then old(genealogyAssessments) + [MakeAssessment(req).value] else old(genealogyAssessments)
    {
      var assessment := MakeAssessment(req);
      if assessment.None? {
        return false;
      }
      genealogyAssessments := genealogyAssessments + [assessment.value];
      ok := true;
    }
  }
}
