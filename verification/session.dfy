/** The page as a whole: which screen is shown, the selected exam and
    chapter, the loaded questions, the shuffle flag and the quiz state, and
    the handlers that move between screens. Loading a chapter is one step
    whose outcome (a response or a thrown error) is a parameter, as is the
    order the shuffle produced. */
module Session {
  import opened Wrappers
  import opened Types
  import opened Text
  import opened Seqs
  import Quiz
  import Chapters
  import Questions

  datatype Screen = ExamSelection | ChapterSelection | QuizScreen | Completion

  datatype App = App(
    screen: Screen,
    selectedExam: Option<string>,
    selectedChapter: Option<string>,
    questions: seq<Question>,
    shuffle: bool,
    quiz: Quiz.QuizState)

  /** The page when it first renders. */
  function Start(): App {
    App(ExamSelection, None, None, [], false, Quiz.Fresh())
  }

  /** What the questions request produced: either it threw, or it answered
      with a body that may or may not carry `data`. */
  datatype FetchOutcome = Thrown | Answered(data: Option<seq<Question>>)

  /** `result.data || []`. */
  function Loaded(outcome: FetchOutcome): seq<Question>
    requires outcome.Answered?
  {
    outcome.data.GetOr([])
  }

  /** The body the questions route sends for `?chapter=<code>`: a question
      list carries `data`, the chapter summary does not. */
  function Response(ds: seq<Question>, code: string): FetchOutcome {
    match Questions.Get(ds, Some(code), None)
    case QuestionList(data, _) => Answered(Some(data))
    case ChapterList(_, _) => Answered(None)
  }

  /** `handleExamSelect(code)`. */
  function SelectExam(app: App, code: string): (r: App)
    ensures r.screen == ChapterSelection && r.selectedExam == Some(code)
    ensures r.(screen := app.screen, selectedExam := app.selectedExam) == app
  {
    app.(screen := ChapterSelection, selectedExam := Some(code))
  }

  /** The back buttons of the chapter list and of the quiz, and the shuffle
      checkbox: each changes one field. */
  function Back(app: App, to: Screen): (r: App)
    ensures r.screen == to && r.(screen := app.screen) == app
  {
    app.(screen := to)
  }

  function SetShuffle(app: App, on: bool): (r: App)
    ensures r.shuffle == on && r.(shuffle := app.shuffle) == app
  {
    app.(shuffle := on)
  }

  /** `handleChapterSelect(code)`. If the request throws nothing changes.
      Otherwise the loaded list, reordered by the shuffle when it is on, becomes
      the question list, the chapter is selected, the quiz starts afresh
      and the quiz screen shows. `shuffled` is the order the random sort
      produced: some arrangement of the loaded list. */
  function SelectChapter(app: App, code: string, outcome: FetchOutcome, shuffled: seq<Question>): (r: App)
    requires outcome.Answered? && app.shuffle ==> multiset(shuffled) == multiset(Loaded(outcome))
    ensures outcome.Thrown? ==> r == app
    ensures outcome.Answered? ==>
      && r.screen == QuizScreen
      && r.selectedChapter == Some(code)
      && r.quiz == Quiz.Fresh()
      && r.selectedExam == app.selectedExam && r.shuffle == app.shuffle
      && multiset(r.questions) == multiset(Loaded(outcome))
      && (!app.shuffle ==> r.questions == Loaded(outcome))
  {
    match outcome
    case Thrown => app
    case Answered(_) =>
      var list := if app.shuffle then shuffled else Loaded(outcome);
      App(QuizScreen, app.selectedExam, Some(code), list, app.shuffle, Quiz.Fresh())
  }

  /** Selecting a chapter against a bank `ds` loads exactly that chapter's
      questions (in bank order unless shuffled); a code no question has
      gives an empty quiz. */
  lemma SelectChapterLoadsChapter(app: App, ds: seq<Question>, code: string, shuffled: seq<Question>)
    requires code != ""
    requires app.shuffle ==> multiset(shuffled) == multiset(Questions.ByChapter(ds, code))
    ensures var r := SelectChapter(app, code, Response(ds, code), shuffled);
      && (forall q :: q in r.questions <==> q in ds && Questions.ChapterOf(q) == code)
      && (!app.shuffle ==> r.questions == Questions.ByChapter(ds, code))
      && (code !in Questions.Prefixes(ds) ==> r.questions == [])
  {
    var data := Questions.ByChapter(ds, code);
    assert Response(ds, code) == Answered(Some(data));
    var r := SelectChapter(app, code, Response(ds, code), shuffled);
    forall q ensures q in r.questions <==> q in data {
      assert q in r.questions <==> q in multiset(r.questions);
    }
    if code !in Questions.Prefixes(ds) && app.shuffle {
      assert |shuffled| == |multiset(shuffled)| == 0;
    }
  }

  /** `handleQuizCompletion()`: offered only on the last question once it is
      submitted, it shows the completion screen. */
  function Complete(app: App): (r: App)
    requires app.screen == QuizScreen && |app.questions| > 0
    requires app.quiz.current == |app.questions| - 1 && Quiz.IsSubmitted(app.quiz, app.quiz.current)
    ensures r.screen == Completion && r.(screen := app.screen) == app
  {
    app.(screen := Completion)
  }

  /** `handleRedoQuiz()`: loads the selected chapter again, or does nothing
      when no chapter is selected. */
  function Redo(app: App, outcome: FetchOutcome, shuffled: seq<Question>): (r: App)
    requires outcome.Answered? && app.shuffle ==> multiset(shuffled) == multiset(Loaded(outcome))
    ensures !Present(app.selectedChapter) || outcome.Thrown? ==> r == app
    ensures Present(app.selectedChapter) ==> r == SelectChapter(app, app.selectedChapter.value, outcome, shuffled)
    ensures Present(app.selectedChapter) && outcome.Answered? ==>
      r.quiz == Quiz.Fresh() && r.selectedChapter == app.selectedChapter && r.screen == QuizScreen
  {
    if !Present(app.selectedChapter) then app
    else SelectChapter(app, app.selectedChapter.value, outcome, shuffled)
  }

  /** Redoing after loading a chapter, from whatever screen (the button sits
      on the completion screen), with the same response and the same shuffle
      order, lands in the state the load produced: every answer and
      submission made in between is discarded. */
  lemma RedoDiscardsProgress(app: App, code: string, outcome: FetchOutcome, shuffled: seq<Question>, progress: Quiz.QuizState, screen: Screen)
    requires code != "" && outcome.Answered?
    requires app.shuffle ==> multiset(shuffled) == multiset(Loaded(outcome))
    ensures var loaded := SelectChapter(app, code, outcome, shuffled);
      Redo(loaded.(quiz := progress, screen := screen), outcome, shuffled) == loaded
  {
  }

  /** `handleShuffleAndReset()`: flips the shuffle flag, deselects the
      chapter, empties the question list, resets the quiz and goes back to
      the chapter list. */
  function ShuffleAndReset(app: App): (r: App)
    ensures r.shuffle == !app.shuffle && r.selectedExam == app.selectedExam
    ensures r.screen == ChapterSelection && r.selectedChapter.None?
    ensures r.questions == [] && r.quiz == Quiz.Fresh()
  {
    App(ChapterSelection, app.selectedExam, None, [], !app.shuffle, Quiz.Fresh())
  }

  /** Pressing shuffle-and-reset twice restores the flag and leaves the
      rest as one press left it. */
  lemma ShuffleAndResetTwice(app: App)
    ensures ShuffleAndReset(ShuffleAndReset(app)).shuffle == app.shuffle
    ensures ShuffleAndReset(ShuffleAndReset(app)).(shuffle := !app.shuffle) == ShuffleAndReset(app)
  {
  }

  /** `handleNextChapter()`: loads the next chapter when there is one. */
  function GoToNextChapter(app: App, outcome: FetchOutcome, shuffled: seq<Question>): (r: App)
    requires outcome.Answered? && app.shuffle ==> multiset(shuffled) == multiset(Loaded(outcome))
    ensures Chapters.NextChapter(app.selectedExam, app.selectedChapter).None? || outcome.Thrown? ==> r == app
    ensures Chapters.NextChapter(app.selectedExam, app.selectedChapter).Some? ==>
      r == SelectChapter(app, Chapters.NextChapter(app.selectedExam, app.selectedChapter).value, outcome, shuffled)
    ensures Chapters.NextChapter(app.selectedExam, app.selectedChapter).Some? && outcome.Answered? ==>
      r.selectedChapter == Chapters.NextChapter(app.selectedExam, app.selectedChapter)
      && r.quiz == Quiz.Fresh() && r.screen == QuizScreen
  {
    match Chapters.NextChapter(app.selectedExam, app.selectedChapter)
    case None => app
    case Some(next) => SelectChapter(app, next, outcome, shuffled)
  }

  /** From chapter `i` of a listed exam, "next chapter" selects chapter
      `i + 1` while there is one, and does nothing after the last. */
  lemma NextChapterAdvances(app: App, e: ExamInfo, i: nat, outcome: FetchOutcome, shuffled: seq<Question>)
    requires e in Chapters.Exams && outcome.Answered?
    requires app.selectedExam == Some(e.code) && app.selectedChapter == Some(Chapters.ChapterCode(e.code, i))
    requires app.shuffle ==> multiset(shuffled) == multiset(Loaded(outcome))
    ensures i < e.chapters ==>
      GoToNextChapter(app, outcome, shuffled).selectedChapter == Some(Chapters.ChapterCode(e.code, i + 1))
    ensures i >= e.chapters ==> GoToNextChapter(app, outcome, shuffled) == app
  {
    Chapters.NextChapterOfCode(e, i);
  }

  /** The user actions on the quiz screen. */
  datatype Action =
    | SelectLabel(choice: string)
    | SubmitAnswer
    | NextQuestion
    | PreviousQuestion
    | GoToQuestion(index: int)

  /** An action can be taken when the quiz screen shows a question. */
  predicate Enabled(app: App) {
    app.screen == QuizScreen && 0 <= app.quiz.current < |app.questions|
  }

  function Step(app: App, action: Action): (r: App)
    requires Enabled(app)
    ensures r.(quiz := app.quiz) == app
  {
    var st := app.quiz;
    var next := match action
      case SelectLabel(choice) => Quiz.SelectAnswer(app.questions, st, choice)
      case SubmitAnswer => Quiz.Submit(st)
      case NextQuestion => Quiz.Next(app.questions, st)
      case PreviousQuestion => Quiz.Previous(st)
      case GoToQuestion(index) => Quiz.GoTo(st, index);
    app.(quiz := next)
  }

  /** No quiz action ever stores a selection that is unsorted or repeats a
      label; so in every state reached from a fresh quiz, correctness
      against a duplicate-free answer is set equality. */
  lemma StepKeepsSelectionsNormal(app: App, action: Action)
    requires Enabled(app) && Quiz.SelectionsNormal(app.quiz)
    ensures Quiz.SelectionsNormal(Step(app, action).quiz)
  {
  }

  /** The actions taken in turn, as long as the quiz screen shows a question. */
  function Run(app: App, actions: seq<Action>): (r: App)
    ensures r.questions == app.questions && r.screen == app.screen
    decreases |actions|
  {
    if |actions| == 0 || !Enabled(app) then app
    else Run(Step(app, actions[0]), actions[1..])
  }

  lemma {:induction false} RunKeepsSelectionsNormal(app: App, actions: seq<Action>)
    requires Quiz.SelectionsNormal(app.quiz)
    ensures Quiz.SelectionsNormal(Run(app, actions).quiz)
    decreases |actions|
  {
    if |actions| > 0 && Enabled(app) {
      StepKeepsSelectionsNormal(app, actions[0]);
      RunKeepsSelectionsNormal(Step(app, actions[0]), actions[1..]);
    }
  }

  /** After any sequence of quiz actions from a freshly loaded chapter, the
      correctness check of every question with a duplicate-free answer is
      set equality of the selected and the correct labels. */
  lemma CheckIsSetEquality(app: App, actions: seq<Action>, i: int)
    requires app.quiz == Quiz.Fresh()
    requires 0 <= i < |app.questions| && NoDup(app.questions[i].answer)
    ensures var r := Run(app, actions);
      Quiz.IsAnswerCorrect(r.questions[i], Quiz.AnswersAt(r.quiz, i)) <==>
      ToSet(Quiz.AnswersAt(r.quiz, i)) == ToSet(r.questions[i].answer)
  {
    RunKeepsSelectionsNormal(app, actions);
    Quiz.NormalSelectionCheck(Run(app, actions).questions, Run(app, actions).quiz, i);
  }
}
