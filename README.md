# Genealogy service data layer, in Dafny

This project models the in-memory data layer of `GenealogyService` (Backend/genealogy_service.py),
the backend that serves scientists, their supervision lineage, AI-written biographies and the
ratings that evaluators submit. The model covers:

- the conversion of the "people to test (lineage)" sheet into the people list and the per-name
  lineage table;
- the supervision questions generated for one scientist;
- the biography index built from the "people to test (bio)" sheet, and its four lookups;
- the rating and assessment records, the score helpers, and the rule that recovers a scientist's
  name from a prompt.

Spreadsheet rows arrive as values. A cell is `Absent` when its column is missing, `Blank` when
pandas reads it as NA, and `Val(text)` otherwise. The four lineage JSON columns arrive already
parsed into lists of relationships. A Python dict whose order matters (the biography index and
each scientist's model map) is a list of key/value pairs. Assigning to a key that is already
present keeps its place; a new key goes last. The lineage table is a Dafny `map`, since no
operation depends on its order.

Modules:

- `Wrappers`: `Option`.
- `Text`: `str.strip()` and the first occurrence of a separator.
- `Dicts`: the insertion-ordered dict.
- `Sheets`: cells.
- `Genealogy`: people, lineage table, person and column lookups.
- `Questions`: lineage questions.
- `Biography`: biography index and lookups.
- `Ratings`: ratings, assessments and the prompt rule.
- `Service`: the `GenealogyService` class. Its fields are the service's state, and its methods
  are the loops and the appends that change that state.

## Model

| member | source | states |
|---|---|---|
| Text.StripKeepsCore | Backend/genealogy_service.py:134-136 | `strip()` keeps one slice of the string, removes only whitespace around it, and leaves no whitespace at either end |
| Text.SplitHead | Backend/genealogy_service.py:757-759 | the text before the first occurrence of the separator; None exactly when the separator does not occur |
| Dicts.IndexOf | Backend/genealogy_service.py:327-328 | the position of the first entry with the key; None exactly when no entry has it |
| Dicts.Put | Backend/genealogy_service.py:330-338 | dict assignment gives the new value for the key, leaves every other key's value and every key's position unchanged, appends a new key last, and keeps keys distinct |
| Genealogy.ConvertWellBuilt | Backend/genealogy_service.py:127-158 | ids count from 1; every person has level 0, x = 300 and y = 50 + 120 × index; no name appears twice; the lineage table has exactly one entry per person, carrying that person's id |
| Genealogy.ConvertStepKeepsWellBuilt | Backend/genealogy_service.py:139-160 | one row of the loop keeps those layout and table invariants |
| Genealogy.ConvertFailsIffNameMissing | Backend/genealogy_service.py:130-134 | the conversion raises exactly when some row lacks the Name column |
| Genealogy.ConvertStopsAtFailure | Backend/genealogy_service.py:164-168 | once a row has raised, later rows change nothing |
| Genealogy.FirstNamedRow | Backend/genealogy_service.py:130-139 | reference: the index of the first row whose stripped Name is the given name, or -1 when there is none |
| Genealogy.ConvertCoversNamedRows | Backend/genealogy_service.py:130-158 | every row with a Name value has a lineage entry under its stripped name |
| Genealogy.ConvertKeepsFirstRows | Backend/genealogy_service.py:139-158 | each person and its lineage entry are built from the first row carrying that name |
| Genealogy.ConvertKeepsRowOrder | Backend/genealogy_service.py:139-149 | people come in the order of the first rows of their names |
| Genealogy.GetPersonById | Backend/genealogy_service.py:210-222 | the first person with the id; None exactly when no person has it |
| Genealogy.PersonByIdAfterConvert | Backend/genealogy_service.py:146-147 | after a conversion, id k finds the k-th person for 1 ≤ k ≤ n and nobody otherwise |
| Genealogy.FindColumn | Backend/genealogy_service.py:187-192 | the first candidate name that is a column; None exactly when none is |
| Questions.QuestionFor | Backend/genealogy_service.py:270-296 | a relationship gives a question only when the scientist is its supervisor or its student and the other name is non-empty; the supervisor test comes first; `supervises` exactly when the scientist is the supervisor; `A_supervises_B` exactly for `supervises`; fields copied |
| Questions.QuestionLabels | Backend/genealogy_service.py:277-296 | the relationship type sent is `supervises` exactly when the scientist is the supervisor, else `supervised_by`; the expected answer is `A_supervises_B` exactly for `supervises`, else `B_supervises_A` |
| Questions.Generate | Backend/genealogy_service.py:268-297 | every question is about the scientist and has a non-empty other person, and no two questions share an other person |
| Questions.FirstYielding | Backend/genealogy_service.py:269-287 | reference: the index of the first relationship giving a question about the other person, or -1 |
| Questions.GenerateCovers | Backend/genealogy_service.py:287-288 | every relationship that gives a question has its other person among the questions |
| Questions.GenerateKeepsFirst | Backend/genealogy_service.py:287-297 | each question is the one given by the first relationship about its other person |
| Questions.GenerateKeepsOrder | Backend/genealogy_service.py:269-297 | questions come in the order of those first relationships |
| Questions.LineageQuestions | Backend/genealogy_service.py:230-298 | no questions when the scientist has no lineage entry or is not among the people; otherwise the questions are distinct by other person and non-empty |
| Biography.Store | Backend/genealogy_service.py:326-338 | the stored (scientist, model) pair gives the new record; the scientists keep their order and a new one goes last |
| Biography.StoreLeavesOtherPairs | Backend/genealogy_service.py:330-338 | storing a record leaves every other (scientist, model) pair as it was |
| Biography.StoreKeepsWellFormed | Backend/genealogy_service.py:326-338 | storing keeps keys distinct at both levels, keeps every model map non-empty, and keeps each record under its own names |
| Biography.StoreInTwoSteps | Backend/genealogy_service.py:326-338 | creating the empty model map and then assigning into it stores what `Store` stores |
| Biography.LoadFailsIffNameMissing | Backend/genealogy_service.py:314-318 | loading raises exactly when some row lacks the Name column |
| Biography.LoadStopsAtFailure | Backend/genealogy_service.py:347-350 | a row that raised makes the whole load fail, whatever follows |
| Biography.LoadKeepsWellFormed | Backend/genealogy_service.py:314-350 | loading keeps the index well formed, including the reset to `{}` after an error |
| Biography.LastRowFor | Backend/genealogy_service.py:314-338 | reference: the index of the last row storing a (scientist, model) pair; the row at that index stores the pair |
| Biography.LastRowForIsLast | Backend/genealogy_service.py:314-338 | no row after that index stores the pair; -1 means no row does |
| Biography.LoadLastWriteWins | Backend/genealogy_service.py:330-338 | after loading, each pair gives the record of the last row that stored it, and a pair no row stored is unchanged |
| Biography.GetBiographyForScientist | Backend/genealogy_service.py:352-366 | an unknown scientist gives None; no model (or an empty one) gives the whole model map; a present model gives its record; another model falls back to the first model's record, or None when the map is empty; a record returned is the scientist's |
| Biography.AllScientistsListsEachOnce | Backend/genealogy_service.py:368-380 | on a well-formed index, one entry per scientist, in order, from the first model's record, under the scientist's own name |
| Biography.ScientistsForModelSound | Backend/genealogy_service.py:389-401 | every scientist listed for a model has a record for that model, and the entry carries that record's name, type, gender and model, which is the model asked for |
| Biography.ModelRows | Backend/genealogy_service.py:391-393 | reference: the positions in the index of the scientists that have the model, strictly increasing, each holding the model |
| Biography.ScientistsForModelInOrder | Backend/genealogy_service.py:391-400 | the entries follow the index order: the i-th entry is the scientist at the i-th position holding the model |
| Biography.ScientistsForModelComplete | Backend/genealogy_service.py:389-401 | every scientist with a record for the model is listed |
| Biography.ScientistsForModelDistinct | Backend/genealogy_service.py:389-401 | no scientist is listed twice |
| Ratings.GetScoreByCategory | Backend/genealogy_service.py:437-442 | the score of the first entry with the category (0 when that entry has no score), and 0 when no entry has the category |
| Ratings.ScoreToLabel | Backend/genealogy_service.py:472-479 | 1, 3 and 5 map to `Incorrect`, `Not applicable` and `Correct`, and exactly the other scores map to `Unknown` |
| Ratings.MakeRating | Backend/genealogy_service.py:403-421 | a rating is built exactly when id, model, technique, prompt, response and timestamp are all present; it copies them, defaults the scientist name to `Unknown`, and takes the three category scores |
| Ratings.MakeAssessment | Backend/genealogy_service.py:485-497 | an assessment is built exactly when id, person name, supervisors, supervisees and timestamp are all present; it copies them |
| Ratings.FillScientistName | Backend/genealogy_service.py:754-760 | only a missing scientist name changes; it becomes the prompt's text before the first ` — `, and it is filled whenever the prompt holds the separator |
| Ratings.SavedScientistName | Backend/genealogy_service.py:754-762 | the saved name is the submitted one, else the prompt prefix, else `Unknown` |
| Service.GenealogyService.constructor | Backend/genealogy_service.py:80-90 | the service starts from empty tables and lists, then loads the lineage sheet and the biography sheet; the biography index is well formed |
| Service.GenealogyService.LoadExcelData | Backend/genealogy_service.py:92-107 | the people list is replaced by the converted one, and the lineage table gains the entries of the sheet |
| Service.GenealogyService.ConvertDataframeToPeople | Backend/genealogy_service.py:114-168 | the loop returns the converted people, or [] when a row raised; the lineage table gains the entries written before any failure |
| Service.GenealogyService.GetLineageQuestionsForScientist | Backend/genealogy_service.py:230-298 | the loop returns the questions that `LineageQuestions` specifies |
| Service.GenealogyService.LoadBiographyData | Backend/genealogy_service.py:314-350 | the row loop leaves the loaded index, or `{}` when a row raised |
| Service.GenealogyService.GetAvailableModels | Backend/genealogy_service.py:382-387 | no model appears twice, and a model appears exactly when some scientist has it |
| Service.GenealogyService.SaveRating | Backend/genealogy_service.py:403-435 | True exactly when the required keys are present; then exactly one rating is appended, and otherwise the list is unchanged |
| Service.GenealogyService.PostRating | Backend/genealogy_service.py:754-762 | the name is filled from the prompt first, then the rating is saved |
| Service.GenealogyService.SaveGenealogyAssessment | Backend/genealogy_service.py:485-510 | True exactly when the required keys are present; then exactly one assessment is appended, and otherwise the list is unchanged |

## Left out

- Flask routes, CORS, `jsonify`, status codes and `app.run` are request plumbing. The only part of them modelled is the prompt-prefix rule of the `/api/ratings` POST handler; its 400 answer to an empty body is not.
- Reading the sheets with pandas, `os.path.exists` and the early return when the workbook is missing, and the two `_save_*_to_excel` writers are file I/O. The sheets are parameters, and saving stops at the in-memory lists.
- `_parse_lineage_json` depends on `json.loads` and its exceptions. Rows carry the parsed relationship lists, with a missing key read as "".
- JSON values of unexpected types are not modelled. A score is an optional integer, and every other submitted field is an optional string.
- `str()` of a cell is modelled only for text cells and for pandas NA, which reads as "nan". A number in a cell is given as its text.
- The exceptions modelled are a missing Name column in either sheet and a missing required key in a submitted rating or assessment (`MakeRating` and `MakeAssessment` give None, and `SaveRating` and `SaveGenealogyAssessment` return False). Other exceptions are not modelled. In particular, a lineage JSON cell that holds a value which is neither NA nor a string makes `json_str.strip()` (Backend/genealogy_service.py:172, outside the helper's `try`) raise, so that `_convert_dataframe_to_people` returns [] for the whole sheet. The model cannot produce that failure, because its rows carry relationship lists that are already parsed.
- Logging, environment variables and the module-level service instance have no behaviour to state.
- `get_people`, `get_lineage_for_scientist`, `get_all_ratings` and `get_all_genealogy_assessments` only read or serialise a field of the class, and the model exposes those fields directly.
- Service.GenealogyService.GetAvailableModels: the order of the result is not stated, because the source builds it from a Python `set`.
- Biography.GetAllBiographyScientists: its own contract is only a length bound. The full statement needs a well-formed index and is proved in `AllScientistsListsEachOnce`.
- Text.Strip: its own contract is only a length bound. What it removes is proved in `StripKeepsCore`.
- The client-side rating controller, model anonymisation and rating aggregation are not part of this model.
