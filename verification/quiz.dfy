/** The quiz-taking part of the page: the per-session `QuizState` and the
    handlers that change it, the per-question correctness check and the
    completion statistics. `startTime` is left out (it is `Date.now()`). */
module Quiz {
  import opened Types
  import opened Seqs
  import opened Lex

  /** The question on screen, the labels selected per question index and
      which indices have been submitted. A missing key reads as `[]` and as
      not submitted. */
  datatype QuizState = QuizState(
    current: int,
    answers: map<int, seq<string>>,
    submitted: map<int, bool>)

  /** The state a chapter starts with. */
  function Fresh(): QuizState {
    QuizState(0, map[], map[])
  }

  /** `answers[i] || []`. */
  function AnswersAt(st: QuizState, i: int): seq<string> {
    if i in st.answers then st.answers[i] else []
  }

  /** `submitted[i]`, undefined reading as false. */
  predicate IsSubmitted(st: QuizState, i: int) {
    i in st.submitted && st.submitted[i]
  }

  /** Every stored selection is sorted with no choice twice. */
  predicate SelectionsNormal(st: QuizState) {
    forall i :: i in st.answers ==> StrictlySorted(st.answers[i])
  }

  /** The multi-select toggle: drop `choice` if selected, otherwise add it
      and sort. */
  function Toggle(selection: seq<string>, choice: string): (r: seq<string>)
    ensures choice in selection ==> forall x :: x in r <==> x in selection && x != choice
    ensures choice !in selection ==> forall x :: x in r <==> x in selection || x == choice
    ensures choice !in selection ==> Sorted(r)
    ensures choice in selection ==> multiset(r) == multiset(selection)[choice := 0]
    ensures choice !in selection ==> multiset(r) == multiset(selection + [choice])
    ensures StrictlySorted(selection) ==> StrictlySorted(r)
  {
    if choice in selection then
      var r := Filter(selection, (a: string) => a != choice);
      FilterKeepsOrder(selection, choice);
      FilterDropsAll(selection, choice);
      r
    else
      var r := Sort(selection + [choice]);
      assert forall x :: x in r <==> x in multiset(selection + [choice]);
      if StrictlySorted(selection) then
        SortOfSorted(selection);
        assert (selection + [choice])[..|selection|] == selection;
        r
      else r
  }

  /** Removing one choice from a strictly sorted selection keeps it strictly sorted. */
  lemma FilterKeepsOrder(selection: seq<string>, choice: string)
    ensures StrictlySorted(selection) ==> StrictlySorted(Filter(selection, (a: string) => a != choice))
  {
    if StrictlySorted(selection) {
      FilterOfStrictlySorted(selection, (a: string) => a != choice);
    }
  }

  /** Removing a choice drops every copy of it and keeps every other
      label as often as it was there. */
  lemma {:induction false} FilterDropsAll(s: seq<string>, choice: string)
    ensures multiset(Filter(s, (a: string) => a != choice)) == multiset(s)[choice := 0]
    decreases |s|
  {
    if |s| > 0 {
      var init, last := s[..|s| - 1], s[|s| - 1];
      assert s == init + [last];
      FilterDropsAll(init, choice);
    }
  }

  lemma {:induction false} FilterOfStrictlySorted(s: seq<string>, p: string -> bool)
    requires StrictlySorted(s)
    ensures StrictlySorted(Filter(s, p))
    decreases |s|
  {
    if |s| > 0 {
      var init := s[..|s| - 1];
      var last := s[|s| - 1];
      assert StrictlySorted(init);
      FilterOfStrictlySorted(init, p);
      var f := Filter(init, p);
      var r := Filter(s, p);
      if p(last) {
        forall i, j | 0 <= i < j < |r| ensures Less(r[i], r[j]) {
          if j == |r| - 1 {
            assert r[i] == f[i] && f[i] in init;
            var k :| 0 <= k < |init| && init[k] == f[i];
          }
        }
      }
    }
  }

  /** `handleAnswerSelect(choice)`: nothing happens once the current question
      is submitted; a single-select question gets exactly `[choice]`; a
      multi-select question toggles `choice`. Defined when the current
      question is submitted or the index is valid: otherwise the handler
      reads a missing question and throws. */
  function SelectAnswer(questions: seq<Question>, st: QuizState, choice: string): (r: QuizState)
    requires IsSubmitted(st, st.current) || 0 <= st.current < |questions|
    ensures IsSubmitted(st, st.current) ==> r == st
    ensures !IsSubmitted(st, st.current) ==>
      && r.current == st.current
      && r.submitted == st.submitted
      && r.answers.Keys == st.answers.Keys + {st.current}
      && OthersKept(st, r)
    ensures !IsSubmitted(st, st.current) && !questions[st.current].multiSelect ==>
      AnswersAt(r, st.current) == [choice]
    ensures !IsSubmitted(st, st.current) && questions[st.current].multiSelect ==>
      Flipped(AnswersAt(st, st.current), AnswersAt(r, st.current), choice)
    ensures SelectionsNormal(st) ==> SelectionsNormal(r)
  {
    if IsSubmitted(st, st.current) then st
    else
      var after := Choose(questions[st.current], AnswersAt(st, st.current), choice);
      var r := QuizState(st.current, st.answers[st.current := after], st.submitted);
      if SelectionsNormal(st) then
        assert StrictlySorted(AnswersAt(st, st.current));
        NormalAfterUpdate(st, st.current, after);
        r
      else r
  }

  /** Every selection other than the current question's is as it was. */
  predicate OthersKept(st: QuizState, r: QuizState) {
    forall i :: i in st.answers && i != st.current ==> i in r.answers && r.answers[i] == st.answers[i]
  }

  /** `after` holds `choice` exactly when `before` does not, and every other
      label exactly when `before` does. */
  ghost predicate Flipped(before: seq<string>, after: seq<string>, choice: string) {
    forall x :: x in after <==> (x in before <==> x != choice)
  }

  /** The selection a click on `choice` leaves on `question`: exactly that
      label on a single-select question, the toggle on a multi-select one. */
  function Choose(question: Question, before: seq<string>, choice: string): (r: seq<string>)
    ensures !question.multiSelect ==> r == [choice]
    ensures question.multiSelect ==> Flipped(before, r, choice)
    ensures StrictlySorted(before) ==> StrictlySorted(r)
  {
    if !question.multiSelect then [choice] else Toggle(before, choice)
  }

  /** Storing a normal selection keeps every selection normal. */
  lemma NormalAfterUpdate(st: QuizState, i: int, selection: seq<string>)
    requires SelectionsNormal(st) && StrictlySorted(selection)
    ensures SelectionsNormal(QuizState(st.current, st.answers[i := selection], st.submitted))
  {
  }

  /** Selecting the same choice twice on a multi-select question gives back
      the selection there was before. */
  lemma ToggleTwice(selection: seq<string>, choice: string)
    requires StrictlySorted(selection)
    ensures Toggle(Toggle(selection, choice), choice) == selection
  {
    var once := Toggle(selection, choice);
    var twice := Toggle(once, choice);
    if choice in selection {
      assert choice !in once;
      assert forall x :: x in twice <==> x in selection;
    } else {
      assert choice in once;
      assert forall x :: x in twice <==> x in selection;
    }
    StrictlySortedUnique(twice, selection);
  }

  /** The same at the level of the quiz state: every question's selection
      is what it was (a question never touched before now holds an explicit
      empty selection), and nothing else moves. */
  lemma SelectTwiceRestores(questions: seq<Question>, st: QuizState, choice: string)
    requires 0 <= st.current < |questions| && questions[st.current].multiSelect
    requires !IsSubmitted(st, st.current)
    requires StrictlySorted(AnswersAt(st, st.current))
    ensures var r := SelectAnswer(questions, SelectAnswer(questions, st, choice), choice);
      && r.current == st.current && r.submitted == st.submitted
      && (forall i :: AnswersAt(r, i) == AnswersAt(st, i))
      && (st.current in st.answers ==> r == st)
  {
    if st.current in st.answers {
      SelectTwiceStored(questions, st, choice);
    } else {
      SelectTwiceUnstored(questions, st, choice);
    }
  }

  lemma SelectTwiceStored(questions: seq<Question>, st: QuizState, choice: string)
    requires 0 <= st.current < |questions| && questions[st.current].multiSelect
    requires !IsSubmitted(st, st.current) && st.current in st.answers
    requires StrictlySorted(st.answers[st.current])
    ensures SelectAnswer(questions, SelectAnswer(questions, st, choice), choice) == st
  {
    var before := st.answers[st.current];
    var once := st.(answers := st.answers[st.current := Toggle(before, choice)]);
    assert SelectAnswer(questions, st, choice) == once by {
      SelectAnswerStores(questions, st, choice);
    }
    assert SelectAnswer(questions, once, choice) == st by {
      SelectAnswerStores(questions, once, choice);
      assert AnswersAt(once, st.current) == Toggle(before, choice);
      ToggleTwice(before, choice);
      assert once.answers[st.current := before] == st.answers;
    }
  }

  /** On a question never clicked before, the second click leaves an
      explicit empty selection behind. */
  lemma SelectTwiceUnstored(questions: seq<Question>, st: QuizState, choice: string)
    requires 0 <= st.current < |questions| && questions[st.current].multiSelect
    requires !IsSubmitted(st, st.current) && st.current !in st.answers
    ensures var r := SelectAnswer(questions, SelectAnswer(questions, st, choice), choice);
      && r.current == st.current && r.submitted == st.submitted
      && (forall i :: AnswersAt(r, i) == AnswersAt(st, i))
  {
    var once := st.(answers := st.answers[st.current := [choice]]);
    assert SelectAnswer(questions, st, choice) == once by {
      SelectAnswerStores(questions, st, choice);
      ToggleFromEmpty(choice);
    }
    var twice := st.(answers := st.answers[st.current := []]);
    assert SelectAnswer(questions, once, choice) == twice by {
      SelectAnswerStores(questions, once, choice);
      assert AnswersAt(once, st.current) == [choice];
      ToggleFromEmpty(choice);
    }
    var r := SelectAnswer(questions, SelectAnswer(questions, st, choice), choice);
    assert r == twice;
    forall i ensures AnswersAt(twice, i) == AnswersAt(st, i) {
      if i == st.current {
        assert AnswersAt(twice, i) == [];
      }
    }
  }

  /** The first click on an empty selection selects exactly that label; the
      second clears it again. */
  lemma ToggleFromEmpty(choice: string)
    ensures Toggle([], choice) == [choice]
    ensures Toggle([choice], choice) == []
  {
    assert Toggle([], choice) == [choice] by {
      assert [] + [choice] == [choice];
      SortOfSorted([choice]);
    }
    var t := Toggle([choice], choice);
    assert forall x :: x !in t;
  }

  /** An unsubmitted click stores the new selection at the current index. */
  lemma SelectAnswerStores(questions: seq<Question>, st: QuizState, choice: string)
    requires 0 <= st.current < |questions| && !IsSubmitted(st, st.current)
    ensures SelectAnswer(questions, st, choice)
      == st.(answers := st.answers[st.current := Choose(questions[st.current], AnswersAt(st, st.current), choice)])
  {
  }

  /** `handleSubmitAnswer()`: without a selection nothing happens; otherwise
      the current question is marked submitted. */
  function Submit(st: QuizState): (r: QuizState)
    ensures |AnswersAt(st, st.current)| == 0 ==> r == st
    ensures |AnswersAt(st, st.current)| > 0 ==>
      && IsSubmitted(r, st.current)
      && r.current == st.current && r.answers == st.answers
      && (forall i :: i != st.current ==> (IsSubmitted(r, i) <==> IsSubmitted(st, i)))
  {
    if |AnswersAt(st, st.current)| == 0 then st
    else QuizState(st.current, st.answers, st.submitted[st.current := true])
  }

  /** Submitting twice is the same as submitting once. */
  lemma SubmitIdempotent(st: QuizState)
    ensures Submit(Submit(st)) == Submit(st)
  {
  }

  /** `handleNextQuestion()`: one forward, unless on the last question. */
  function Next(questions: seq<Question>, st: QuizState): (r: QuizState)
    ensures r.answers == st.answers && r.submitted == st.submitted
    ensures 0 <= st.current < |questions| ==> 0 <= r.current < |questions|
    ensures st.current < |questions| - 1 ==> r == st.(current := st.current + 1)
    ensures st.current >= |questions| - 1 ==> r == st
  {
    if st.current < |questions| - 1 then st.(current := st.current + 1) else st
  }

  /** `handlePreviousQuestion()`: one back, unless on the first question. */
  function Previous(st: QuizState): (r: QuizState)
    ensures r.answers == st.answers && r.submitted == st.submitted
    ensures st.current >= 0 ==> r.current >= 0
    ensures r.current <= st.current
    ensures st.current > 0 ==> r == st.(current := st.current - 1)
    ensures st.current <= 0 ==> r == st
  {
    if st.current > 0 then st.(current := st.current - 1) else st
  }

  /** Next and previous undo each other away from the boundaries. */
  lemma NextPreviousInverse(questions: seq<Question>, st: QuizState)
    ensures 0 <= st.current < |questions| - 1 ==> Previous(Next(questions, st)) == st
    ensures 0 < st.current < |questions| ==> Next(questions, Previous(st)) == st
  {
  }

  /** `handleGoToQuestion(index)`: the index is taken as given. */
  function GoTo(st: QuizState, index: int): (r: QuizState)
    ensures r.current == index
    ensures r.answers == st.answers && r.submitted == st.submitted
  {
    st.(current := index)
  }

  /** `isAnswerCorrect(i)`: as many labels selected as the answer has, each
      of them in the (sorted copy of the) answer. */
  predicate IsAnswerCorrect(question: Question, selection: seq<string>) {
    var correct := Sort(question.answer);
    |selection| == |correct| && forall a :: a in selection ==> a in correct
  }

  /** The same check against the answer as stored. */
  predicate Matches(answer: seq<string>, selection: seq<string>) {
    |selection| == |answer| && forall a :: a in selection ==> a in answer
  }

  /** Sorting the copy of the answer has no effect on the outcome. */
  lemma SortedCopyIrrelevant(question: Question, selection: seq<string>)
    ensures IsAnswerCorrect(question, selection) <==> Matches(question.answer, selection)
  {
    var correct := Sort(question.answer);
    assert |correct| == |multiset(correct)| == |multiset(question.answer)| == |question.answer|;
    forall a ensures a in correct <==> a in question.answer {
      assert a in correct <==> a in multiset(correct);
    }
  }

  /** With no label twice in either, the check is set equality: it does not
      depend on order. */
  lemma CorrectIffSameLabels(question: Question, selection: seq<string>)
    requires NoDup(selection) && NoDup(question.answer)
    ensures IsAnswerCorrect(question, selection) <==> ToSet(selection) == ToSet(question.answer)
  {
    SortedCopyIrrelevant(question, selection);
    if Matches(question.answer, selection) {
      assert ToSet(selection) <= ToSet(question.answer);
      SameSizeSubsetSame(selection, question.answer);
    }
    if ToSet(selection) == ToSet(question.answer) {
      NoDupCard(selection);
      NoDupCard(question.answer);
      forall a | a in selection ensures a in question.answer {
        assert a in ToSet(selection);
      }
    }
  }

  /** Without the no-duplicates invariant the check is not set equality:
      ["A", "A"] passes against the answer ["A", "B"]. */
  lemma DuplicateSelectionPasses()
    ensures var q := Question("saa01-1", "", [], ["A", "B"], true, "");
      IsAnswerCorrect(q, ["A", "A"]) && ToSet(["A", "A"]) != ToSet(q.answer)
  {
    var q := Question("saa01-1", "", [], ["A", "B"], true, "");
    assert Less("A", "B");
    assert Sort(["A", "B"]) == ["A", "B"] by {
      SortOfSorted(["A", "B"]);
    }
    assert "B" !in ToSet(["A", "A"]);
  }

  /** A strictly sorted selection holds no label twice. */
  lemma StrictlySortedNoDup(s: seq<string>)
    requires StrictlySorted(s)
    ensures NoDup(s)
  {
    forall i, j | 0 <= i < j < |s| ensures s[i] != s[j] {
      LessIrreflexive(s[i]);
    }
  }

  /** Selections kept sorted and duplicate-free make the check depend only
      on which labels are selected. */
  lemma NormalSelectionCheck(questions: seq<Question>, st: QuizState, i: int)
    requires SelectionsNormal(st) && 0 <= i < |questions| && NoDup(questions[i].answer)
    ensures IsAnswerCorrect(questions[i], AnswersAt(st, i)) <==>
      ToSet(AnswersAt(st, i)) == ToSet(questions[i].answer)
  {
    if i in st.answers {
      StrictlySortedNoDup(st.answers[i]);
    }
    CorrectIffSameLabels(questions[i], AnswersAt(st, i));
  }

  /** An incorrectly answered question with its index. */
  datatype Missed = Missed(index: nat, question: Question)

  datatype Stats = Stats(correct: nat, incorrect: nat, incorrectQuestions: seq<Missed>)

  /** Whether question `i` is answered correctly by the stored answers;
      `CorrectIsAnswerCorrect` ties it to `isAnswerCorrect`. */
  predicate Correct(questions: seq<Question>, answers: map<int, seq<string>>, i: nat)
    requires i < |questions|
  {
    Matches(questions[i].answer, if i in answers then answers[i] else [])
  }

  lemma CorrectIsAnswerCorrect(questions: seq<Question>, st: QuizState, i: nat)
    requires i < |questions|
    ensures Correct(questions, st.answers, i) <==> IsAnswerCorrect(questions[i], AnswersAt(st, i))
  {
    SortedCopyIrrelevant(questions[i], AnswersAt(st, i));
  }

  /** The incorrectly answered questions among the first `n`, in index order. */
  function MissedUpTo(questions: seq<Question>, answers: map<int, seq<string>>, n: nat): (r: seq<Missed>)
    requires n <= |questions|
    ensures |r| <= n
    decreases n
  {
    if n == 0 then []
    else if Correct(questions, answers, n - 1) then MissedUpTo(questions, answers, n - 1)
    else MissedUpTo(questions, answers, n - 1) + [Missed(n - 1, questions[n - 1])]
  }

  /** Every entry of `r` is an incorrect question among the first `n`,
      carrying its own index, and the indices increase along `r`. */
  predicate OnlyMissed(questions: seq<Question>, answers: map<int, seq<string>>, n: nat, r: seq<Missed>)
    requires n <= |questions|
  {
    && (forall k :: 0 <= k < |r| ==>
          && r[k].index < n
          && r[k].question == questions[r[k].index]
          && !Correct(questions, answers, r[k].index))
    && (forall k, m :: 0 <= k < m < |r| ==> r[k].index < r[m].index)
  }

  /** Every incorrect question among the first `n` has an entry in `r`. */
  predicate AllMissed(questions: seq<Question>, answers: map<int, seq<string>>, n: nat, r: seq<Missed>)
    requires n <= |questions|
  {
    forall i :: 0 <= i < n && !Correct(questions, answers, i) ==>
      exists k :: 0 <= k < |r| && r[k].index == i
  }

  lemma {:induction false} MissedSound(questions: seq<Question>, answers: map<int, seq<string>>, n: nat)
    requires n <= |questions|
    ensures OnlyMissed(questions, answers, n, MissedUpTo(questions, answers, n))
    decreases n
  {
    if n > 0 {
      MissedSound(questions, answers, n - 1);
      MissedSoundStep(questions, answers, n);
    }
  }

  /** Question `n - 1`, when missed, joins the list behind all earlier ones. */
  lemma MissedSoundStep(questions: seq<Question>, answers: map<int, seq<string>>, n: nat)
    requires 0 < n <= |questions|
    requires OnlyMissed(questions, answers, n - 1, MissedUpTo(questions, answers, n - 1))
    ensures OnlyMissed(questions, answers, n, MissedUpTo(questions, answers, n))
  {
    var prev := MissedUpTo(questions, answers, n - 1);
    var r := MissedUpTo(questions, answers, n);
    if !Correct(questions, answers, n - 1) {
      assert r == prev + [Missed(n - 1, questions[n - 1])];
      forall k | 0 <= k < |prev| ensures r[k] == prev[k] {
      }
    }
  }

  lemma {:induction false} MissedComplete(questions: seq<Question>, answers: map<int, seq<string>>, n: nat)
    requires n <= |questions|
    ensures AllMissed(questions, answers, n, MissedUpTo(questions, answers, n))
    decreases n
  {
    if n > 0 {
      MissedComplete(questions, answers, n - 1);
      var r := MissedUpTo(questions, answers, n);
      var prev := MissedUpTo(questions, answers, n - 1);
      forall i | 0 <= i < n && !Correct(questions, answers, i)
        ensures exists k :: 0 <= k < |r| && r[k].index == i
      {
        if i == n - 1 {
          assert r[|prev|].index == i;
        } else {
          var k :| 0 <= k < |prev| && prev[k].index == i;
          assert r[k] == prev[k];
        }
      }
    }
  }

  /** The missed list of the whole quiz lists exactly the incorrect questions. */
  lemma MissedExact(questions: seq<Question>, answers: map<int, seq<string>>)
    ensures OnlyMissed(questions, answers, |questions|, MissedUpTo(questions, answers, |questions|))
    ensures AllMissed(questions, answers, |questions|, MissedUpTo(questions, answers, |questions|))
  {
    MissedSound(questions, answers, |questions|);
    MissedComplete(questions, answers, |questions|);
  }

  /** The number of correctly answered questions among the first `n`. */
  function CorrectUpTo(questions: seq<Question>, answers: map<int, seq<string>>, n: nat): (c: nat)
    requires n <= |questions|
    ensures c + |MissedUpTo(questions, answers, n)| == n
    decreases n
  {
    if n == 0 then 0
    else CorrectUpTo(questions, answers, n - 1) + (if Correct(questions, answers, n - 1) then 1 else 0)
  }

  /** `calculateStats()`: counts the correct and incorrect questions and
      lists the incorrect ones, in index order. */
  method CalculateStats(questions: seq<Question>, answers: map<int, seq<string>>) returns (stats: Stats)
    ensures stats.correct + stats.incorrect == |questions|
    ensures stats.incorrect == |stats.incorrectQuestions|
    ensures stats.correct == CorrectUpTo(questions, answers, |questions|)
    ensures stats.incorrectQuestions == MissedUpTo(questions, answers, |questions|)
    ensures OnlyMissed(questions, answers, |questions|, stats.incorrectQuestions)
    ensures AllMissed(questions, answers, |questions|, stats.incorrectQuestions)
  {
    var correct: nat := 0;
    var incorrect: nat := 0;
    var missed: seq<Missed> := [];
    var idx := 0;
    while idx < |questions|
      invariant 0 <= idx <= |questions|
      invariant correct == CorrectUpTo(questions, answers, idx)
      invariant incorrect == |missed|
      invariant missed == MissedUpTo(questions, answers, idx)
    {
      assert CorrectUpTo(questions, answers, idx + 1) ==
        CorrectUpTo(questions, answers, idx) + (if Correct(questions, answers, idx) then 1 else 0);
      if Correct(questions, answers, idx) {
        correct := correct + 1;
      } else {
        incorrect := incorrect + 1;
        assert MissedUpTo(questions, answers, idx + 1) == missed + [Missed(idx, questions[idx])];
        missed := missed + [Missed(idx, questions[idx])];
      }
      idx := idx + 1;
    }
    stats := Stats(correct, incorrect, missed);
    MissedExact(questions, answers);
  }
}
