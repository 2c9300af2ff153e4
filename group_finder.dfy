/** The question sequencer of the small-group finder: the shared question set and the
    queue of question names that `run_question` consumes. */
module GroupFinder {
  import opened Wrappers
  import opened FinderQuestions
  import opened FinderText

  /** What `run_question` does next: show a question, or send the answers off. */
  datatype Step = Ask(name: string, text: string, answers: seq<Answer>) | ProcessResults

  /** A question with the answers fetched for it (`retrieve_answers`) merged into its own. */
  function WithRetrieved(q: Question, fetched: map<string, seq<Answer>>): (r: Question)
    ensures r == q.(possibleAnswers := r.possibleAnswers)
    ensures q.retrieveAnswers.Some? && q.retrieveAnswers.value in fetched ==>
      Keys(r.possibleAnswers) == Keys(q.possibleAnswers) + Keys(fetched[q.retrieveAnswers.value])
    ensures !(q.retrieveAnswers.Some? && q.retrieveAnswers.value in fetched) ==> r == q
  {
    if q.retrieveAnswers.Some? && q.retrieveAnswers.value in fetched
    then q.(possibleAnswers := Extend(q.possibleAnswers, fetched[q.retrieveAnswers.value]))
    else q
  }

  /** Changing a question's answer or answer list keeps the set well formed. */
  lemma WellFormedUpdate(qs: map<string, Question>, n: string, q: Question)
    requires WellFormed(qs) && n in qs
    requires q.dependance == qs[n].dependance && q.templates == qs[n].templates
    ensures WellFormed(qs[n := q])
  {
    var qs' := qs[n := q];
    forall m | m in qs' ensures RefersToKnown(qs'[m], qs') {
      assert RefersToKnown(qs[m], qs);
    }
  }

  class Finder {
    var questions: map<string, Question>
    var questionOrder: seq<string>

    /** Every name in the queue is a question, and every question refers to known ones. */
    ghost predicate Valid()
      reads this
    {
      WellFormed(questions) && forall k :: 0 <= k < |questionOrder| ==> questionOrder[k] in questions
    }

    /** `run_introduction`: a fresh question set and the full question order. */
    constructor ()
      ensures Valid() && questions == QuestionsObject() && questionOrder == QuestionOrder()
    {
      questions := QuestionsObject();
      questionOrder := QuestionOrder();
      new;
      QuestionsObjectWellFormed();
      QuestionOrderKnown();
    }

    /** The restart: every answer is forgotten and the nine questions are queued again. */
    method Restart()
      modifies this`questions, this`questionOrder
      ensures Valid() && questions == QuestionsObject() && questionOrder == QuestionOrder()
      ensures forall n :: n in questions ==> questions[n].chosenAnswer.None?
      ensures |questionOrder| == 9
    {
      questions := QuestionsObject();
      questionOrder := QuestionOrder();
      QuestionsObjectWellFormed();
      QuestionOrderKnown();
      QuestionsObjectUnanswered();
    }

    /** `answer_was_clicked`: records the answer of exactly the clicked question. */
    method AnswerWasClicked(name: string, answer: string)
      requires Valid() && name in questions
      modifies this`questions
      ensures Valid()
      ensures questions == old(questions)[name := old(questions)[name].(chosenAnswer := Some(answer))]
      ensures questions.Keys == old(questions).Keys
      ensures forall n :: n in questions && n != name ==> questions[n] == old(questions)[n]
    {
      var q := questions[name].(chosenAnswer := Some(answer));
      WellFormedUpdate(questions, name, q);
      questions := questions[name := q];
    }

    /** `run_question`: names are taken off the front of the queue until one whose question
        should run is found; that question, with its fetched answers merged in, is shown
        with its placeholders filled and its answers in display order. An empty queue
        leads to the results. Skipped questions record nothing. */
    method RunQuestion(fetched: map<string, seq<Answer>>) returns (step: Step)
      requires Valid()
      modifies this`questionOrder, this`questions
      ensures Valid()
      ensures var r := FirstRunnable(old(questions), old(questionOrder));
        (r.None? <==> step.ProcessResults?) &&
        (r.None? ==> questionOrder == [] && questions == old(questions)) &&
        (r.Some? ==>
          step.Ask? && step.name == old(questionOrder)[r.value] &&
          questionOrder == old(questionOrder)[r.value + 1..] &&
          questions == old(questions)[step.name := WithRetrieved(old(questions)[step.name], fetched)])
      ensures step.Ask? ==>
        (step.name in questions &&
         step.text == ApplyTemplates(questions[step.name].text, questions[step.name].templates, questions) &&
         step.answers == DisplayedAnswers(questions[step.name].possibleAnswers, questions[step.name].answersReverse))
      decreases |questionOrder|
    {
      if |questionOrder| == 0 {
        return ProcessResults;
      }
      var next := questionOrder[0];
      questionOrder := questionOrder[1..];
      var q := questions[next];
      var run := QuestionShouldRun(q, questions);
      if run {
        var q' := WithRetrieved(q, fetched);
        WellFormedUpdate(questions, next, q');
        questions := questions[next := q'];
        var text := ApplyTemplates(q'.text, q'.templates, questions);
        var shown := OrderAnswers(q'.possibleAnswers, q'.answersReverse);
        step := Ask(next, text, shown);
      } else {
        step := RunQuestion(fetched);
      }
    }
  }
}
