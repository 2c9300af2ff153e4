/** What the finder shows: question text with its `{name}` placeholders filled, the answer
    buttons in display order, the three best matches and their descriptions. */
module FinderText {
  import opened Wrappers
  import opened FinderQuestions

  // ---- Placeholder substitution ---------------------------------------------

  predicate OccursAt(s: string, pat: string, i: nat)
  {
    i + |pat| <= |s| && s[i..i + |pat|] == pat
  }

  /** The first position at or after `from` where `pat` occurs. */
  function FindFrom(s: string, pat: string, from: nat): (r: Option<nat>)
    ensures r.Some? ==> from <= r.value && OccursAt(s, pat, r.value)
    ensures r.Some? ==> forall j :: from <= j < r.value ==> !OccursAt(s, pat, j)
    ensures r.None? ==> forall j :: from <= j ==> !OccursAt(s, pat, j)
    decreases |s| + 1 - from
  {
    if from + |pat| > |s| then None
    else if s[from..from + |pat|] == pat then Some(from)
    else FindFrom(s, pat, from + 1)
  }

  /** `String.prototype.replace` with a string pattern: only the first occurrence is
      replaced. */
  function ReplaceFirst(s: string, pat: string, rep: string): (r: string)
    ensures (forall j: nat :: !OccursAt(s, pat, j)) ==> r == s
    ensures forall i: nat :: OccursAt(s, pat, i) && (forall j: nat :: j < i ==> !OccursAt(s, pat, j)) ==>
      r == s[..i] + rep + s[i + |pat|..]
    ensures |pat| > 0 && pat[0] !in s ==> r == s
  {
    match FindFrom(s, pat, 0)
    case None => s
    case Some(i) => s[..i] + rep + s[i + |pat|..]
  }

  /** The text put in place of `{qname}`: the replacement for the named question's answer.
      An unanswered question is looked up under "undefined", and a missing replacement is
      written as "undefined". */
  function ReplacementFor(t: Template, qs: map<string, Question>): string
    requires t.qname in qs
  {
    var key := if qs[t.qname].chosenAnswer.Some? then qs[t.qname].chosenAnswer.value else "undefined";
    if key in t.replacements then t.replacements[key] else "undefined"
  }

  function Placeholder(qname: string): string
  {
    "{" + qname + "}"
  }

  /** The question text with each template applied in turn. */
  function ApplyTemplates(text: string, templates: seq<Template>, qs: map<string, Question>): (r: string)
    requires forall k :: 0 <= k < |templates| ==> templates[k].qname in qs
    ensures '{' !in text ==> r == text
    decreases |templates|
  {
    if templates == [] then text
    else ApplyTemplates(ReplaceFirst(text, Placeholder(templates[0].qname), ReplacementFor(templates[0], qs)), templates[1..], qs)
  }

  /** Text without the pattern is left as it is. */
  lemma ReplaceAbsent(s: string, pat: string, rep: string)
    requires forall j :: 0 <= j ==> !OccursAt(s, pat, j)
    ensures ReplaceFirst(s, pat, rep) == s
  {
  }

  /** When the text before the pattern cannot start it, exactly that occurrence is
      replaced, and any later one in `b` is kept. */
  lemma {:induction false} ReplaceAtFirst(a: string, pat: string, b: string, rep: string)
    requires |pat| > 0 && pat[0] !in a
    ensures ReplaceFirst(a + pat + b, pat, rep) == a + rep + b
  {
    var s := a + pat + b;
    assert OccursAt(s, pat, |a|) by {
      assert s[|a|..|a| + |pat|] == pat;
    }
    assert s[..|a|] == a;
    assert s[|a| + |pat|..] == b;
  }

  /** The shipped same-gender text around its one placeholder. */
  lemma SameGenderTextShape()
    ensures SameGenderText() == SameGenderLead() + Placeholder("gender") + "?"
    ensures '{' !in SameGenderLead()
  {
    assert "{gender}?" == Placeholder("gender") + "?";
    LeadHasNoBrace();
  }

  /** The text before the placeholder holds no opening brace. */
  lemma LeadHasNoBrace()
    ensures '{' !in SameGenderLead()
  {
    var a, b, c, d, e := "Would you ", "prefer a ", "small group ", "with only ", "other ";
    assert '{' !in a && '{' !in b;
    NoBraceInJoin(a, b);
    assert '{' !in c;
    NoBraceInJoin(a + b, c);
    assert '{' !in d;
    NoBraceInJoin(a + b + c, d);
    assert '{' !in e;
    NoBraceInJoin(a + b + c + d, e);
  }

  lemma NoBraceInJoin(x: string, y: string)
    requires '{' !in x && '{' !in y
    ensures '{' !in x + y
  {
  }

  /** The shipped same-gender question reads "men" for a man, "women" for a woman, and
      "undefined" while the gender is unanswered. */
  lemma SameGenderQuestionText(qs: map<string, Question>)
    requires "gender" in qs
    ensures ApplyTemplates(SameGenderText(), SameGenderTemplates(), qs) ==
      SameGenderLead() + ReplacementFor(SameGenderTemplates()[0], qs) + "?"
    ensures qs["gender"].chosenAnswer == Some("male") ==> ReplacementFor(SameGenderTemplates()[0], qs) == "men"
    ensures qs["gender"].chosenAnswer == Some("female") ==> ReplacementFor(SameGenderTemplates()[0], qs) == "women"
    ensures qs["gender"].chosenAnswer.None? ==> ReplacementFor(SameGenderTemplates()[0], qs) == "undefined"
  {
    SameGenderTextShape();
    var t := SameGenderTemplates()[0];
    var rep := ReplacementFor(t, qs);
    ReplaceAtFirst(SameGenderLead(), Placeholder("gender"), "?", rep);
    assert SameGenderTemplates()[1..] == [];
    assert ApplyTemplates(SameGenderText(), SameGenderTemplates(), qs)
        == ApplyTemplates(ReplaceFirst(SameGenderText(), Placeholder("gender"), rep), [], qs);
  }

  // ---- Answer order ----------------------------------------------------------

  /** The answers that get a button: all but the count entry, in declaration order. */
  function Visible(answers: seq<Answer>): (v: seq<Answer>)
    ensures |v| <= |answers|
    ensures forall a :: a in v <==> a in answers && a.key != CountKey
  {
    if answers == [] then []
    else
      var last := answers[|answers| - 1];
      var init := answers[..|answers| - 1];
      assert answers == init + [last];
      Visible(init) + (if last.key != CountKey then [last] else [])
  }

  function Reversed<T>(s: seq<T>): (r: seq<T>)
    ensures |r| == |s|
  {
    if s == [] then [] else [s[|s| - 1]] + Reversed(s[..|s| - 1])
  }

  /** `Reversed` puts the element at `k` from the end at position `k`. */
  lemma {:induction false} ReversedAt<T>(s: seq<T>, k: nat)
    requires k < |s|
    ensures Reversed(s)[k] == s[|s| - 1 - k]
    decreases |s|
  {
    if k > 0 {
      ReversedAt(s[..|s| - 1], k - 1);
    }
  }

  /** The buttons in display order: reversed when `answers_reverse` is set. */
  function DisplayedAnswers(answers: seq<Answer>, reverse: bool): seq<Answer>
  {
    if reverse then Reversed(Visible(answers)) else Visible(answers)
  }

  /** The answer loop of `run_question`: visible answers are appended, or pushed on a stack
      that is then emptied by popping. */
  method OrderAnswers(answers: seq<Answer>, reverse: bool) returns (shown: seq<Answer>)
    ensures shown == DisplayedAnswers(answers, reverse)
  {
    shown := [];
    var stack: seq<Answer> := [];
    var i := 0;
    while i < |answers|
      invariant 0 <= i <= |answers|
      invariant (if reverse then stack else shown) == Visible(answers[..i])
      invariant reverse ==> shown == []
      invariant !reverse ==> stack == []
    {
      VisibleStep(answers, i);
      if answers[i].key != CountKey {
        if reverse {
          stack := stack + [answers[i]];
        } else {
          shown := shown + [answers[i]];
        }
      }
      i := i + 1;
    }
    assert answers[..|answers|] == answers;
    if reverse {
      shown := PopAll(stack);
    }
  }

  /** One more answer extends the visible prefix by that answer, unless it is the count. */
  lemma VisibleStep(answers: seq<Answer>, i: nat)
    requires i < |answers|
    ensures Visible(answers[..i + 1]) ==
      Visible(answers[..i]) + (if answers[i].key != CountKey then [answers[i]] else [])
  {
    assert answers[..i + 1][..i] == answers[..i];
  }

  /** The `while (tempAnswers.length > 0)` loop: popping everything yields the stack reversed. */
  method PopAll(stack: seq<Answer>) returns (shown: seq<Answer>)
    ensures shown == Reversed(stack)
  {
    shown := [];
    var rest := stack;
    while |rest| > 0
      invariant shown + Reversed(rest) == Reversed(stack)
      decreases |rest|
    {
      assert Reversed(rest) == [rest[|rest| - 1]] + Reversed(rest[..|rest| - 1]);
      shown := shown + [rest[|rest| - 1]];
      rest := rest[..|rest| - 1];
    }
  }

  /** Reversal shows the same buttons, last declared first. */
  lemma ReversedDisplayMirrors(answers: seq<Answer>, k: nat)
    requires k < |Visible(answers)|
    ensures DisplayedAnswers(answers, true)[k] == DisplayedAnswers(answers, false)[|Visible(answers)| - 1 - k]
  {
    var v := Visible(answers);
    ReversedAt(v, k);
    assert DisplayedAnswers(answers, true) == Reversed(v);
    assert DisplayedAnswers(answers, false) == v;
  }

  // ---- Fetched answers ---------------------------------------------------------

  function Keys(answers: seq<Answer>): set<string>
  {
    set a | a in answers :: a.key
  }

  /** Sets one key: its entry is overwritten in place, or appended when new. */
  function Put(answers: seq<Answer>, a: Answer): (r: seq<Answer>)
    ensures Keys(r) == Keys(answers) + {a.key}
    ensures a in r
    ensures forall b :: b in answers && b.key != a.key ==> b in r
  {
    if answers == [] then [a]
    else
      assert answers == [answers[0]] + answers[1..];
      KeysCons(answers[0], answers[1..]);
      if answers[0].key == a.key then
        KeysCons(a, answers[1..]);
        [a] + answers[1..]
      else
        KeysCons(answers[0], Put(answers[1..], a));
        [answers[0]] + Put(answers[1..], a)
  }

  lemma KeysCons(x: Answer, t: seq<Answer>)
    ensures Keys([x] + t) == {x.key} + Keys(t)
  {
    var r := [x] + t;
    forall k | k in Keys(r) ensures k in {x.key} + Keys(t) {
      var y :| y in r && y.key == k;
      if y != x {
        assert y in t;
      }
    }
    forall k | k in Keys(t) ensures k in Keys(r) {
      var y :| y in t && y.key == k;
      assert y in r;
    }
    assert x in r;
  }

  /** `$.extend(possible_answers, fetched)`: every fetched entry is set in turn. */
  function Extend(answers: seq<Answer>, fetched: seq<Answer>): (r: seq<Answer>)
    ensures Keys(r) == Keys(answers) + Keys(fetched)
    decreases |fetched|
  {
    if fetched == [] then answers
    else
      assert Keys(fetched) == {fetched[0].key} + Keys(fetched[1..]) by {
        assert fetched == [fetched[0]] + fetched[1..];
      }
      Extend(Put(answers, fetched[0]), fetched[1..])
  }

  /** The merge keeps every declared entry whose key was not fetched. */
  lemma {:induction false} ExtendKeepsUnfetched(answers: seq<Answer>, fetched: seq<Answer>, b: Answer)
    requires b in answers && b.key !in Keys(fetched)
    ensures b in Extend(answers, fetched)
    decreases |fetched|
  {
    if fetched != [] {
      var rest := fetched[1..];
      assert fetched == [fetched[0]] + rest;
      KeysCons(fetched[0], rest);
      assert b in Put(answers, fetched[0]);
      ExtendKeepsUnfetched(Put(answers, fetched[0]), rest, b);
    }
  }

  /** Each fetched key ends with its last fetched entry. */
  lemma {:induction false} ExtendSetsLastFetched(answers: seq<Answer>, fetched: seq<Answer>, j: nat)
    requires j < |fetched|
    requires forall k :: j < k < |fetched| ==> fetched[k].key != fetched[j].key
    ensures fetched[j] in Extend(answers, fetched)
    decreases |fetched|
  {
    var rest := fetched[1..];
    var p := Put(answers, fetched[0]);
    if j == 0 {
      forall y | y in rest ensures y.key != fetched[0].key {
        var k :| 0 <= k < |rest| && rest[k] == y;
        assert fetched[k + 1] == y;
      }
      assert fetched[0].key !in Keys(rest);
      ExtendKeepsUnfetched(p, rest, fetched[0]);
    } else {
      assert rest[j - 1] == fetched[j];
      forall k | j - 1 < k < |rest| ensures rest[k].key != rest[j - 1].key {
        assert rest[k] == fetched[k + 1];
      }
      ExtendSetsLastFetched(p, rest, j - 1);
    }
  }

  // ---- Results -----------------------------------------------------------------

  /** `Array.prototype.pop`: the last element (undefined on an empty array) and the rest. */
  function Pop(s: seq<string>): (r: (Option<string>, seq<string>))
    ensures s == [] ==> r.0.None? && r.1 == []
    ensures s != [] ==> r.0.Some? && r.1 + [r.0.value] == s
  {
    if s == [] then (None, []) else (Some(s[|s| - 1]), s[..|s| - 1])
  }

  /** `results_processed`: the three top small groups are popped from the end of the score
      list, best first. With fewer than three scores the handler throws. */
  method ResultsProcessed(scores: seq<string>) returns (top: Option<seq<string>>)
    ensures top.Some? <==> |scores| >= 3
    ensures top.Some? ==> top.value == Reversed(scores)[..3]
  {
    var remaining := scores;
    var first, second, third;
    first, remaining := Pop(remaining).0, Pop(remaining).1;
    second, remaining := Pop(remaining).0, Pop(remaining).1;
    third, remaining := Pop(remaining).0, Pop(remaining).1;
    if first.None? || second.None? || third.None? {
      return None;
    }
    top := Some([first.value, second.value, third.value]);
    ReversedAt(scores, 0);
    ReversedAt(scores, 1);
    ReversedAt(scores, 2);
  }

  // ---- Result text -------------------------------------------------------------

  /** A small group as the best-fit response describes it; `None` stands for null. */
  datatype SmallGroup = SmallGroup(
    name: string,
    frequency: string,
    meetingDay: string,
    startingTime: string,
    locationName: Option<string>,
    locationType: string,
    neighborhood: string,
    activity: Option<string>,
    groupType: string)

  /** The meeting frequencies the day line spells out. */
  predicate KnownFrequency(f: string)
  {
    f == "weekly" || f == "bi-weekly" || f == "monthly"
  }

  /** The day line: the frequency and day, then " at " and the starting time. An unknown
      frequency leaves only the time part. */
  function DayText(sg: SmallGroup): (r: string)
    ensures r == " at " + sg.startingTime <==> !KnownFrequency(sg.frequency)
  {
    var day := sg.meetingDay;
    var dayOfWeek :=
      if sg.frequency == "weekly" then "Every " + day
      else if sg.frequency == "bi-weekly" then "Every other " + day
      else if sg.frequency == "monthly" then "One " + day + " a month"
      else "";
    dayOfWeek + " at " + sg.startingTime
  }

  /** The location line: the location's name when there is one, otherwise the neighborhood
      for a home, business or church, and "Meets at " for anything else. */
  function LocationText(sg: SmallGroup): (r: string)
    ensures sg.locationName.Some? ==> r == sg.locationName.value
    ensures sg.locationName.None? && sg.locationType in {"residence", "commercial", "church"} ==>
      |r| >= |sg.neighborhood| && r[..|sg.neighborhood|] == sg.neighborhood
  {
    if sg.locationName.Some? then sg.locationName.value
    else if sg.locationType == "residence" || sg.locationType == "commercial" then sg.neighborhood + " " + sg.locationType
    else if sg.locationType == "church" then sg.neighborhood
    else "Meets at "
  }

  /** The topic line: the activity followed by " Group", else the group type's title. */
  function TopicText(sg: SmallGroup): (r: string)
    ensures sg.activity.Some? ==>
      |r| == |sg.activity.value| + 6 && r[..|sg.activity.value|] == sg.activity.value &&
      r[|sg.activity.value|..] == " Group"
    ensures sg.activity.None? ==> r in {"Topical Study", "Bible Study", "Sermon-based Discussion", ""}
  {
    if sg.activity.Some? then sg.activity.value + " Group"
    else if sg.groupType == "topical" then "Topical Study"
    else if sg.groupType == "biblestudy" then "Bible Study"
    else if sg.groupType == "sermonbased" then "Sermon-based Discussion"
    else ""
  }

  /** The lines shown for one matched group. */
  function ResultLines(sg: SmallGroup): (lines: seq<string>)
    ensures |lines| == 4 && lines[0] == sg.name
  {
    [sg.name, DayText(sg), LocationText(sg), TopicText(sg)]
  }

  /** The closing message: an apology after a failed request, thanks otherwise. */
  function RestartText(failed: bool): (r: string)
    ensures failed ==> |r| > 23 && r[..23] == "We are extremely sorry."
    ensures !failed ==> |r| > 9 && r[..9] == "Thank you"
  {
    var lead := if failed then "We are extremely sorry." else "Thank you";
    var rest :=
      if failed then " There was an error. Please try again."
      else " for using the Interactive Small Group Finder! Let a friend know about it!";
    assert (lead + rest)[..|lead|] == lead;
    lead + rest
  }

  /** The day line always ends with " at " and the starting time. */
  lemma DayTextEndsWithTime(sg: SmallGroup)
    ensures |DayText(sg)| >= |sg.startingTime| + 4
    ensures DayText(sg)[|DayText(sg)| - |sg.startingTime| - 4..] == " at " + sg.startingTime
  {
  }

  /** For the same day and time, the day line tells the three frequencies apart, and an
      unknown frequency gives exactly " at " and the time. */
  lemma DayTextDeterminesFrequency(a: SmallGroup, b: SmallGroup)
    requires a.meetingDay == b.meetingDay && a.startingTime == b.startingTime
    requires KnownFrequency(a.frequency) && KnownFrequency(b.frequency)
    ensures DayText(a) == DayText(b) <==> a.frequency == b.frequency
  {
    var d, t := a.meetingDay, a.startingTime;
    var fa, fb := a.frequency, b.frequency;
    if fa != fb {
      if fa == "weekly" || fb == "weekly" {
        // "Every " + d is shorter than the two other forms
        assert |DayText(a)| != |DayText(b)|;
      } else {
        // "Every other " and "One " differ in their first character
        var other := DayText(if fa == "bi-weekly" then a else b);
        var once := DayText(if fa == "bi-weekly" then b else a);
        assert other == "Every other " + (d + " at " + t);
        assert once == "One " + (d + " a month" + " at " + t);
        assert other[0] == 'E' && once[0] == 'O';
      }
    }
  }

  /** The topic line is empty exactly when the group has no activity and an unknown type. */
  lemma TopicEmptyIff(sg: SmallGroup)
    ensures TopicText(sg) == "" <==>
      sg.activity.None? && sg.groupType != "topical" && sg.groupType != "biblestudy" && sg.groupType != "sermonbased"
  {
    if sg.activity.Some? {
      assert |TopicText(sg)| >= 6;
    }
  }

  /** The location line falls back to "Meets at " only for a group with no location name
      and an unknown location type. */
  lemma LocationFallbackIff(sg: SmallGroup)
    requires sg.locationName.None?
    ensures LocationText(sg) == "Meets at " <==>
      (sg.locationType !in {"residence", "commercial", "church"} ||
       (sg.locationType == "church" && sg.neighborhood == "Meets at "))
  {
    if sg.locationType == "residence" || sg.locationType == "commercial" {
      var t := LocationText(sg);
      assert t[|t| - 1] != ' ';
    }
  }

  /** The restart message tells failure from success. */
  lemma RestartTextDistinguishes(failed: bool, other: bool)
    ensures RestartText(failed) == RestartText(other) <==> failed == other
  {
    if failed != other {
      assert |RestartText(true)| != |RestartText(false)|;
    }
  }
}
