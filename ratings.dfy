/** Ratings and genealogy assessments as submitted by the client, the score helpers, and the
    rule that recovers a scientist's name from a prompt (Backend/genealogy_service.py,
    `save_rating`, `_get_score_by_category`, `_score_to_label`, `save_genealogy_assessment`,
    and the `/api/ratings` POST handler). */
module Ratings {
  import opened Wrappers
  import opened Text

  /** One `{category, score}` entry of the submitted `ratings` list; a missing key is None. */
  datatype RatingEntry = RatingEntry(category: Option<string>, score: Option<int>)

  /** `_get_score_by_category`: the score of the first entry of that category (0 when that entry
      has no score), or 0 when no entry has it. */
  function GetScoreByCategory(entries: seq<RatingEntry>, category: string): (score: int)
    ensures (forall k :: 0 <= k < |entries| ==> entries[k].category != Some(category)) ==> score == 0
    ensures forall k :: 0 <= k < |entries| && entries[k].category == Some(category)
                        && (forall j :: 0 <= j < k ==> entries[j].category != Some(category))
              ==> score == entries[k].score.GetOr(0)
  {
    if entries == [] then 0
    else if entries[0].category == Some(category) then entries[0].score.GetOr(0)
    else GetScoreByCategory(entries[1..], category)
  }

  /** `_score_to_label`: the three anchors of the scale have names, anything else is "Unknown". */
  function ScoreToLabel(score: int): (text: string)
    ensures text == "Incorrect" <==> score == 1
    ensures text == "Not applicable" <==> score == 3
    ensures text == "Correct" <==> score == 5
    ensures text == "Unknown" <==> score !in {1, 3, 5}
  {
    match score
    case 1 => "Incorrect"
    case 3 => "Not applicable"
    case 5 => "Correct"
    case _ => "Unknown"
  }

  /** The JSON body of a rating submission; a missing key is None, a missing `ratings` is []. */
  datatype RatingRequest = RatingRequest(
    id: Option<string>, scientistName: Option<string>, model: Option<string>,
    technique: Option<string>, prompt: Option<string>, response: Option<string>,
    timestamp: Option<string>, notes: Option<string>, ratings: seq<RatingEntry>)

  datatype ModelRating = ModelRating(
    id: string, scientistName: string, model: string, technique: string,
    prompt: string, response: string,
    affiliationScore: int, researchScore: int, genderScore: int,
    timestamp: string, notes: Option<string>)

  /** The keys `save_rating` reads with `rating_data[...]`, which raise when missing. */
  predicate HasRequiredRatingKeys(req: RatingRequest) {
    && req.id.Some? && req.model.Some? && req.technique.Some?
    && req.prompt.Some? && req.response.Some? && req.timestamp.Some?
  }

  /** The `ModelRating` that `save_rating` builds, or None when building it raises. */
  function MakeRating(req: RatingRequest): (r: Option<ModelRating>)
    ensures r.Some? <==> HasRequiredRatingKeys(req)
    ensures r.Some? ==>
      && r.value.id == req.id.value && r.value.model == req.model.value
      && r.value.technique == req.technique.value && r.value.prompt == req.prompt.value
      && r.value.response == req.response.value && r.value.timestamp == req.timestamp.value
      && r.value.notes == req.notes
      && r.value.scientistName == (if req.scientistName.Some? then req.scientistName.value else "Unknown")
      && r.value.affiliationScore == GetScoreByCategory(req.ratings, "affiliation")
      && r.value.researchScore == GetScoreByCategory(req.ratings, "research")
      && r.value.genderScore == GetScoreByCategory(req.ratings, "gender")
  {
    if !HasRequiredRatingKeys(req) then None
    else Some(ModelRating(
      req.id.value, req.scientistName.GetOr("Unknown"), req.model.value, req.technique.value,
      req.prompt.value, req.response.value,
      GetScoreByCategory(req.ratings, "affiliation"),
      GetScoreByCategory(req.ratings, "research"),
      GetScoreByCategory(req.ratings, "gender"),
      req.timestamp.value, req.notes))
  }

  /** The JSON body of a genealogy assessment submission; a missing key is None. */
  datatype AssessmentRequest = AssessmentRequest(
    id: Option<string>, personName: Option<string>, supervisors: Option<string>,
    supervisees: Option<string>, sourceUrl: Option<string>, timestamp: Option<string>,
    notes: Option<string>)

  datatype GenealogyAssessment = GenealogyAssessment(
    id: string, personName: string, supervisors: string, supervisees: string,
    sourceUrl: Option<string>, timestamp: string, notes: Option<string>)

  predicate HasRequiredAssessmentKeys(req: AssessmentRequest) {
    && req.id.Some? && req.personName.Some? && req.supervisors.Some?
    && req.supervisees.Some? && req.timestamp.Some?
  }

  /** The `GenealogyAssessment` that `save_genealogy_assessment` builds, or None when it raises. */
  function MakeAssessment(req: AssessmentRequest): (r: Option<GenealogyAssessment>)
    ensures r.Some? <==> HasRequiredAssessmentKeys(req)
    ensures r.Some? ==>
      && r.value.id == req.id.value && r.value.personName == req.personName.value
      && r.value.supervisors == req.supervisors.value && r.value.supervisees == req.supervisees.value
      && r.value.sourceUrl == req.sourceUrl && r.value.timestamp == req.timestamp.value
      && r.value.notes == req.notes
  {
    if !HasRequiredAssessmentKeys(req) then None
    else Some(GenealogyAssessment(
      req.id.value, req.personName.value, req.supervisors.value, req.supervisees.value,
      req.sourceUrl, req.timestamp.value, req.notes))
  }

  /** The separator between the scientist's name and the rest of a prompt: space, em dash, space. */
  const PromptSeparator: string := " \U{2014} "

  /** The `/api/ratings` handler: with no `scientist_name` but a `prompt` holding the separator,
      the scientist's name becomes the text of the prompt before the first separator. Nothing
      else of the request changes. */
  function FillScientistName(req: RatingRequest): (r: RatingRequest)
    ensures r.(scientistName := req.scientistName) == req
    ensures req.scientistName.Some? ==> r == req
    ensures r.scientistName != req.scientistName ==>
      var name := r.scientistName.value;
      && req.scientistName.None? && req.prompt.Some?
      && name + PromptSeparator <= req.prompt.value
      && forall k: nat :: k < |name| ==> !OccursAt(req.prompt.value, PromptSeparator, k)
    ensures (&& req.scientistName.None? && req.prompt.Some?
             && exists k: nat :: OccursAt(req.prompt.value, PromptSeparator, k)) ==> r.scientistName.Some?
  {
    if req.scientistName.None? && req.prompt.Some? then
      match SplitHead(req.prompt.value, PromptSeparator)
      case None => req
      case Some(name) => req.(scientistName := Some(name))
    else req
  }

  /** The scientist name a rating is saved under: the one submitted, else the prompt's text
      before the first separator, else "Unknown". */
  lemma SavedScientistName(req: RatingRequest)
    requires HasRequiredRatingKeys(req)
    ensures var saved := MakeRating(FillScientistName(req)).value.scientistName;
      && (req.scientistName.Some? ==> saved == req.scientistName.value)
      && (req.scientistName.None? && SplitHead(req.prompt.value, PromptSeparator).Some? ==>
            saved == SplitHead(req.prompt.value, PromptSeparator).value)
      && (req.scientistName.None? && SplitHead(req.prompt.value, PromptSeparator).None? ==>
            saved == "Unknown")
  {
  }
}
