/** The small-group finder's questions: their data, the shipped question set and the rule
    that decides whether a question is asked. */
module FinderQuestions {
  import opened Wrappers

  /** One entry of `possible_answers`: the answer's key and its display text. */
  datatype Answer = Answer(key: string, text: string)

  /** One entry of `dependance`; `negation` is `comparison_type == "negation"`. */
  datatype Dependency = Dependency(question: string, negation: bool, verifiedValues: seq<string>)

  /** One entry of `templates`: the placeholder `{qname}` is filled from the answer to the
      question `qname` through `replacements`. */
  datatype Template = Template(qname: string, replacements: map<string, string>)

  /** A question of the finder. `dependance` is `None` when the question has none;
      `chosenAnswer` is `None` while unanswered. */
  datatype Question = Question(
    text: string,
    templates: seq<Template>,
    possibleAnswers: seq<Answer>,
    answersReverse: bool,
    retrieveAnswers: Option<string>,
    dependance: Option<seq<Dependency>>,
    chosenAnswer: Option<string>)

  /** The key `possible_answers` uses for its answer count; it is never shown. */
  const CountKey: string := "answers"

  function QuestionOrder(): (order: seq<string>)
    ensures |order| == 9
    ensures forall i, j :: 0 <= i < j < |order| ==> order[i] != order[j]
  {
    ["gender", "relationship", "attend_with", "age", "children", "same_gender", "neighborhood", "focus", "most_important"]
  }

  function YesNo(): seq<Answer>
  {
    [Answer("yes", "Yes"), Answer("no", "No"), Answer(CountKey, "2")]
  }

  function AttendWithDependance(): seq<Dependency>
  {
    [Dependency("relationship", false, ["married"])]
  }

  function SameGenderDependance(): seq<Dependency>
  {
    [Dependency("relationship", true, ["married"]), Dependency("attend_with", false, ["no"])]
  }

  /** "Would you prefer a small group with only other {gender}?" */
  function SameGenderText(): string
  {
    SameGenderLead() + "{gender}?"
  }

  /** The text before the placeholder. It is written as a join of short literals so that
      facts about its characters (it holds no `{`) are proved piece by piece rather than
      character by character over the whole sentence. */
  function SameGenderLead(): string
  {
    "Would you " + "prefer a " + "small group " + "with only " + "other "
  }

  function SameGenderTemplates(): seq<Template>
  {
    [Template("gender", map["male" := "men", "female" := "women"])]
  }

  /** The questions of a fresh finder, all unanswered. The count entry of
      `possible_answers` is kept with its number written as text. */
  function QuestionsObject(): map<string, Question>
  {
    map[
      "gender" := Question("Are you a man or a woman?", [],
        [Answer("male", "Man"), Answer("female", "Woman"), Answer(CountKey, "2")], false, None, None, None),
      "relationship" := Question("What is your relationship status?", [],
        [Answer("single", "Single"), Answer("dating", "Dating"), Answer("engaged", "Engaged"),
         Answer("married", "Married"), Answer(CountKey, "4")], false, None, None, None),
      "age" := Question("What Age Group are you part of?", [],
        [Answer("CA", "College Age (18-21)"), Answer("YA", "Young Adult (22-29)"), Answer("Z30", "30's"),
         Answer("Z40", "40's"), Answer("Z50", "50's"), Answer("Z60", "60's"), Answer("Z70", "70's"),
         Answer("Z80", "80's"), Answer(CountKey, "8")], false, None, None, None),
      "attend_with" := Question("Would you like to attend with your spouse", [],
        YesNo(), false, None, Some(AttendWithDependance()), None),
      "same_gender" := Question(SameGenderText(), SameGenderTemplates(),
        YesNo(), false, None, Some(SameGenderDependance()), None),
      "children" := Question("Do you have children living at home?", [],
        YesNo(), false, None, None, None),
      "neighborhood" := Question("Which neighborhood do you live closest to?", [],
        [], true, Some("get_neighborhoods"), None, None),
      "focus" := Question("What interests you the most?", [],
        [Answer("biblestudy", "Studying the Bible"), Answer("sermonbased", "Sermon based"),
         Answer("topical", "A Topical Study")], false, Some("get_primaryactivities"), None, None),
      "most_important" := Question("Which is most important to you when choosing a small group?", [],
        [Answer("similar_life", "People in similar life stage"), Answer("close_home", "Meets close to my home"),
         Answer("topic_interest", "A topic that interests me")], false, None, None, None)
    ]
  }

  // ---- The dependency rule ---------------------------------------------------

  /** Every question a dependency or a template names exists (otherwise the finder throws). */
  predicate RefersToKnown(q: Question, qs: map<string, Question>)
  {
    && (q.dependance.Some? ==> forall k :: 0 <= k < |q.dependance.value| ==> q.dependance.value[k].question in qs)
    && (forall k :: 0 <= k < |q.templates| ==> q.templates[k].qname in qs)
  }

  /** A question set whose questions all refer to known questions. */
  predicate WellFormed(qs: map<string, Question>)
  {
    forall n :: n in qs ==> RefersToKnown(qs[n], qs)
  }

  /** A dependency holds when its question is answered and the answer is among the
      verified values, or, for a negation, is not among them. */
  predicate DependencyMet(d: Dependency, qs: map<string, Question>)
    requires d.question in qs
  {
    qs[d.question].chosenAnswer.Some? &&
    ((qs[d.question].chosenAnswer.value in d.verifiedValues) != d.negation)
  }

  /** A question without dependencies is always asked; otherwise some dependency must
      hold. An empty dependency list therefore never lets the question run. */
  predicate ShouldRun(q: Question, qs: map<string, Question>)
    requires RefersToKnown(q, qs)
  {
    match q.dependance
    case None => true
    case Some(ds) => exists k :: 0 <= k < |ds| && DependencyMet(ds[k], qs)
  }

  /** `question_should_run`: the loops over the dependencies and their verified values,
      with their early exits. */
  method QuestionShouldRun(q: Question, qs: map<string, Question>) returns (shouldRun: bool)
    requires RefersToKnown(q, qs)
    ensures shouldRun == ShouldRun(q, qs)
  {
    shouldRun := false;
    if q.dependance.None? {
      return true;
    }
    var ds := q.dependance.value;
    var i := 0;
    while i < |ds|
      invariant 0 <= i <= |ds|
      invariant !shouldRun
      invariant forall j :: 0 <= j < i ==> !DependencyMet(ds[j], qs)
    {
      var d := ds[i];
      var answer := qs[d.question].chosenAnswer;
      if answer.Some? {
        if d.negation {
          shouldRun := true;
        }
        var k := 0;
        while k < |d.verifiedValues|
          invariant 0 <= k <= |d.verifiedValues|
          invariant d.negation ==> (shouldRun <==> answer.value !in d.verifiedValues[..k])
          invariant !d.negation ==> !shouldRun && answer.value !in d.verifiedValues[..k]
        {
          if d.verifiedValues[k] == answer.value {
            shouldRun := !d.negation;
            if shouldRun {
              break;
            }
          }
          k := k + 1;
        }
        assert d.verifiedValues[..|d.verifiedValues|] == d.verifiedValues;
        if shouldRun {
          return;
        }
      }
      i := i + 1;
    }
  }

  /** The position of the first question of `order` that is asked, if any. */
  function FirstRunnable(qs: map<string, Question>, order: seq<string>): (r: Option<nat>)
    requires forall k :: 0 <= k < |order| ==> order[k] in qs && RefersToKnown(qs[order[k]], qs)
    ensures r.Some? ==> r.value < |order| && ShouldRun(qs[order[r.value]], qs)
    ensures r.Some? ==> forall j :: 0 <= j < r.value ==> !ShouldRun(qs[order[j]], qs)
    ensures r.None? ==> forall j :: 0 <= j < |order| ==> !ShouldRun(qs[order[j]], qs)
    decreases |order|
  {
    if order == [] then None
    else if ShouldRun(qs[order[0]], qs) then Some(0)
    else
      match FirstRunnable(qs, order[1..])
      case Some(k) => Some(k + 1)
      case None => None
  }

  // ---- The shipped question set ----------------------------------------------

  /** In a fresh question set every dependency and template names an existing question. */
  lemma QuestionsObjectWellFormed()
    ensures WellFormed(QuestionsObject())
  {
    var qs := QuestionsObject();
    forall n | n in qs ensures RefersToKnown(qs[n], qs) {
      if n == "attend_with" {
        assert qs[n].dependance == Some(AttendWithDependance()) && qs[n].templates == [];
      } else if n == "same_gender" {
        assert qs[n].dependance == Some(SameGenderDependance()) && qs[n].templates == SameGenderTemplates();
        assert SameGenderDependance()[0].question in qs && SameGenderDependance()[1].question in qs;
        assert SameGenderTemplates()[0].qname in qs;
      } else {
        assert qs[n].dependance.None? && qs[n].templates == [];
      }
    }
  }

  /** Every question of the order exists in a fresh question set. */
  lemma QuestionOrderKnown()
    ensures forall k :: 0 <= k < |QuestionOrder()| ==> QuestionOrder()[k] in QuestionsObject()
  {
    var qs := QuestionsObject();
    var order := QuestionOrder();
    forall k | 0 <= k < |order| ensures order[k] in qs {
      assert order[k] in {"gender", "relationship", "attend_with", "age", "children", "same_gender", "neighborhood", "focus", "most_important"};
    }
  }

  /** A fresh question set has no answers. */
  lemma QuestionsObjectUnanswered()
    ensures forall n :: n in QuestionsObject() ==> QuestionsObject()[n].chosenAnswer.None?
  {
    var qs := QuestionsObject();
    forall n | n in qs ensures qs[n].chosenAnswer.None? {
    }
  }

  /** "Would you like to attend with your spouse" is asked exactly when the relationship
      answer is "married", whatever else has been answered. */
  lemma AttendWithIffMarried(qs: map<string, Question>, q: Question)
    requires q.dependance == Some(AttendWithDependance()) && "relationship" in qs
    ensures RefersToKnown(q, qs) && q.templates == [] ==> (ShouldRun(q, qs) <==> qs["relationship"].chosenAnswer == Some("married"))
  {
    if RefersToKnown(q, qs) && q.templates == [] {
      var d := AttendWithDependance()[0];
      if qs["relationship"].chosenAnswer == Some("married") {
        assert DependencyMet(d, qs);
      }
    }
  }

  /** The same-gender question is asked exactly when the relationship is answered and is
      not "married", or the answer to attending with the spouse is "no". */
  lemma SameGenderRule(qs: map<string, Question>, q: Question)
    requires q.dependance == Some(SameGenderDependance()) && "relationship" in qs && "attend_with" in qs
    requires RefersToKnown(q, qs)
    ensures ShouldRun(q, qs) <==>
      (qs["relationship"].chosenAnswer.Some? && qs["relationship"].chosenAnswer != Some("married"))
      || qs["attend_with"].chosenAnswer == Some("no")
  {
    var ds := SameGenderDependance();
    var rel := qs["relationship"].chosenAnswer;
    assert DependencyMet(ds[0], qs) <==> rel.Some? && rel != Some("married") by {
      if rel.Some? {
        assert (rel.value in ["married"]) <==> rel.value == "married";
      }
    }
    assert DependencyMet(ds[1], qs) <==> qs["attend_with"].chosenAnswer == Some("no") by {
      var aw := qs["attend_with"].chosenAnswer;
      if aw.Some? {
        assert (aw.value in ["no"]) <==> aw.value == "no";
      }
    }
  }

  /** An unanswered dependency never lets a question run. */
  lemma UnansweredNeverEnables(q: Question, qs: map<string, Question>)
    requires RefersToKnown(q, qs) && q.dependance.Some?
    requires forall k :: 0 <= k < |q.dependance.value| ==> qs[q.dependance.value[k].question].chosenAnswer.None?
    ensures !ShouldRun(q, qs)
  {
  }
}
