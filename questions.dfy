/** The supervision questions asked about one scientist, generated from the lineage table
    (Backend/genealogy_service.py, `get_lineage_questions_for_scientist`). */
module Questions {
  import opened Wrappers
  import opened Genealogy

  datatype RelationType = Supervises | SupervisedBy

  /** A is the scientist asked about, B the other person. */
  datatype Answer = ASupervisesB | BSupervisesA

  datatype Question = Question(
    scientist: string, otherPerson: string, relationType: RelationType,
    institution: string, year: string, confidence: string, expectedAnswer: Answer)

  /** The `relationship_type` string sent to the client. */
  function RelationLabel(t: RelationType): string {
    match t
    case Supervises => "supervises"
    case SupervisedBy => "supervised_by"
  }

  /** The `expected_answer` string sent to the client. */
  function AnswerLabel(a: Answer): string {
    match a
    case ASupervisesB => "A_supervises_B"
    case BSupervisesA => "B_supervises_A"
  }

  /** `all_related`: direct supervisors, direct students, ancestors, descendants, in that order. */
  function AllRelated(e: LineageEntry): seq<Relationship> {
    e.directSupervisor + e.directStudents + e.allAncestors + e.allDescendants
  }

  /** The question one relationship gives about `name`, before duplicates are dropped: none when
      `name` is neither its supervisor nor its student, or when the other name is empty. The
      supervisor test comes first, so a relationship naming `name` on both sides is `supervises`. */
  function QuestionFor(name: string, r: Relationship): (q: Option<Question>)
    ensures q.None? <==> if r.supervisor == name then r.student == "" else r.student != name || r.supervisor == ""
    ensures q.Some? ==>
      && q.value.scientist == name
      && (q.value.relationType == Supervises <==> r.supervisor == name)
      && q.value.otherPerson == (if r.supervisor == name then r.student else r.supervisor)
      && (q.value.expectedAnswer == ASupervisesB <==> q.value.relationType == Supervises)
      && q.value.institution == r.institution && q.value.year == r.year && q.value.confidence == r.confidence
  {
    if r.supervisor == name then
      if r.student == "" then None
      else Some(Question(name, r.student, Supervises, r.institution, r.year, r.confidence, ASupervisesB))
    else if r.student == name then
      if r.supervisor == "" then None
      else Some(Question(name, r.supervisor, SupervisedBy, r.institution, r.year, r.confidence, BSupervisesA))
    else None
  }

  /** The strings a question carries to the client: `supervises` exactly when `name` is the
      relationship's supervisor, and `A_supervises_B` exactly when the type is `supervises`. */
  lemma QuestionLabels(name: string, r: Relationship)
    requires QuestionFor(name, r).Some?
    ensures RelationLabel(QuestionFor(name, r).value.relationType)
            == if r.supervisor == name then "supervises" else "supervised_by"
    ensures AnswerLabel(QuestionFor(name, r).value.expectedAnswer)
            == if RelationLabel(QuestionFor(name, r).value.relationType) == "supervises" then "A_supervises_B" else "B_supervises_A"
  {
  }

  function OtherNames(qs: seq<Question>): set<string> {
    set q | q in qs :: q.otherPerson
  }

  lemma OtherNamesAppend(qs: seq<Question>, q: Question)
    ensures OtherNames(qs + [q]) == OtherNames(qs) + {q.otherPerson}
  {
    forall o | o in OtherNames(qs + [q]) ensures o in OtherNames(qs) + {q.otherPerson} {
      var p :| p in qs + [q] && p.otherPerson == o;
      if p != q { assert p in qs; }
    }
  }

  /** The questions for `name` from `rels`, in order, keeping the first question per other person. */
  function Generate(name: string, rels: seq<Relationship>): (qs: seq<Question>)
    ensures |qs| <= |rels|
    ensures forall i :: 0 <= i < |qs| ==> qs[i].scientist == name && qs[i].otherPerson != ""
    ensures forall i, j :: 0 <= i < j < |qs| ==> qs[i].otherPerson != qs[j].otherPerson
  {
    if rels == [] then []
    else
      var prev := Generate(name, rels[..|rels| - 1]);
      match QuestionFor(name, rels[|rels| - 1])
      case None => prev
      case Some(q) => if q.otherPerson in OtherNames(prev) then prev else prev + [q]
  }

  /** Generating from one more relationship is one more loop step. */
  lemma GenerateNext(name: string, rels: seq<Relationship>, k: nat)
    requires k < |rels|
    ensures Generate(name, rels[..k + 1]) ==
      match QuestionFor(name, rels[k])
      case None => Generate(name, rels[..k])
      case Some(q) =>
        if q.otherPerson in OtherNames(Generate(name, rels[..k])) then Generate(name, rels[..k])
        else Generate(name, rels[..k]) + [q]
  {
    assert rels[..k + 1][..k] == rels[..k];
  }

  predicate Yields(name: string, r: Relationship, other: string) {
    var q := QuestionFor(name, r);
    q.Some? && q.value.otherPerson == other
  }

  /** The index of the first relationship giving a question about `other`, or -1. */
  function FirstYielding(name: string, rels: seq<Relationship>, other: string): (k: int)
    ensures -1 <= k < |rels|
    ensures k == -1 <==> forall j :: 0 <= j < |rels| ==> !Yields(name, rels[j], other)
    ensures k >= 0 ==> Yields(name, rels[k], other) && forall j :: 0 <= j < k ==> !Yields(name, rels[j], other)
  {
    if rels == [] then -1
    else
      var k := FirstYielding(name, rels[..|rels| - 1], other);
      if k >= 0 then k
      else if Yields(name, rels[|rels| - 1], other) then |rels| - 1
      else -1
  }

  /** No relationship that concerns `name` is lost: its other person gets a question. */
  lemma {:induction false} GenerateCovers(name: string, rels: seq<Relationship>)
    ensures forall k :: 0 <= k < |rels| && QuestionFor(name, rels[k]).Some? ==>
              QuestionFor(name, rels[k]).value.otherPerson in OtherNames(Generate(name, rels))
  {
    if rels != [] {
      var n := |rels| - 1;
      var front := rels[..n];
      var prev, qs := Generate(name, front), Generate(name, rels);
      GenerateCovers(name, front);
      assert OtherNames(prev) <= OtherNames(qs);
      forall k | 0 <= k < |rels| && QuestionFor(name, rels[k]).Some?
        ensures QuestionFor(name, rels[k]).value.otherPerson in OtherNames(qs)
      {
        if k < n {
          assert rels[k] == front[k];
        } else if QuestionFor(name, rels[n]).value.otherPerson !in OtherNames(prev) {
          assert qs[|prev|] == QuestionFor(name, rels[n]).value;
        }
      }
    }
  }

  /** The first relationship giving a question about the other person of the question added by
      the last relationship is that last relationship. */
  lemma NewOtherFirstYielding(name: string, rels: seq<Relationship>)
    requires rels != [] && QuestionFor(name, rels[|rels| - 1]).Some?
    requires QuestionFor(name, rels[|rels| - 1]).value.otherPerson !in OtherNames(Generate(name, rels[..|rels| - 1]))
    ensures FirstYielding(name, rels, QuestionFor(name, rels[|rels| - 1]).value.otherPerson) == |rels| - 1
  {
    var n := |rels| - 1;
    var front := rels[..n];
    GenerateCovers(name, front);
    var other := QuestionFor(name, rels[n]).value.otherPerson;
    forall j | 0 <= j < n ensures !Yields(name, front[j], other) { }
  }

  /** An other person who has a question keeps the first relationship that named them. */
  lemma FirstYieldingOfKnownOther(name: string, rels: seq<Relationship>, other: string)
    requires rels != [] && FirstYielding(name, rels[..|rels| - 1], other) >= 0
    ensures FirstYielding(name, rels, other) == FirstYielding(name, rels[..|rels| - 1], other)
  {
  }

  /** Question `i` is exactly the one given by the first relationship about its other person. */
  ghost predicate FromFirstYielding(name: string, rels: seq<Relationship>, qs: seq<Question>, i: nat)
    requires i < |qs|
  {
    var k := FirstYielding(name, rels, qs[i].otherPerson);
    0 <= k && QuestionFor(name, rels[k]) == Some(qs[i])
  }

  /** Each question comes from the first relationship that names its other person. */
  lemma {:induction false} GenerateKeepsFirst(name: string, rels: seq<Relationship>)
    ensures forall i :: 0 <= i < |Generate(name, rels)| ==> FromFirstYielding(name, rels, Generate(name, rels), i)
  {
    if rels != [] {
      var n := |rels| - 1;
      var front := rels[..n];
      var prev, qs := Generate(name, front), Generate(name, rels);
      GenerateKeepsFirst(name, front);
      forall i | 0 <= i < |qs| ensures FromFirstYielding(name, rels, qs, i) {
        if i < |prev| {
          assert qs[i] == prev[i];
          assert FromFirstYielding(name, front, prev, i);
          FirstYieldingOfKnownOther(name, rels, prev[i].otherPerson);
          var k := FirstYielding(name, front, prev[i].otherPerson);
          assert rels[k] == front[k];
        } else {
          NewOtherFirstYielding(name, rels);
        }
      }
    }
  }

  /** The questions keep the order of the relationships that first named their other persons. */
  lemma {:induction false} GenerateKeepsOrder(name: string, rels: seq<Relationship>)
    ensures var qs := Generate(name, rels);
      forall i, i' :: 0 <= i < i' < |qs| ==>
        FirstYielding(name, rels, qs[i].otherPerson) < FirstYielding(name, rels, qs[i'].otherPerson)
  {
    if rels != [] {
      var n := |rels| - 1;
      var front := rels[..n];
      var prev, qs := Generate(name, front), Generate(name, rels);
      GenerateKeepsOrder(name, front);
      GenerateKeepsFirst(name, front);
      forall i | 0 <= i < |prev|
        ensures 0 <= FirstYielding(name, rels, qs[i].otherPerson) == FirstYielding(name, front, prev[i].otherPerson)
      {
        assert qs[i] == prev[i];
        assert FromFirstYielding(name, front, prev, i);
        FirstYieldingOfKnownOther(name, rels, prev[i].otherPerson);
      }
      if |qs| > |prev| {
        NewOtherFirstYielding(name, rels);
      }
    }
  }

  /** `get_lineage_questions_for_scientist` on the lineage table and the people list. */
  function LineageQuestions(lineage: map<string, LineageEntry>, people: seq<Person>, name: string): (qs: seq<Question>)
    ensures name !in lineage ==> qs == []
    ensures (forall i :: 0 <= i < |people| ==> people[i].name != name) ==> qs == []
    ensures forall i :: 0 <= i < |qs| ==> qs[i].scientist == name && qs[i].otherPerson != ""
    ensures forall i, j :: 0 <= i < j < |qs| ==> qs[i].otherPerson != qs[j].otherPerson
  {
    if name !in lineage then []
    else if forall i :: 0 <= i < |people| ==> people[i].name != name then []
    else Generate(name, AllRelated(lineage[name]))
  }
}
