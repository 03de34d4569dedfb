# AWS quiz app — a Dafny model of its quiz logic and API routes

This project models the logic of a small Next.js quiz application for AWS certification exams.

**The quiz page.** A user picks one of four exams (CLF, AIF, SAA, SOA) and one of that exam's numbered chapters. The page then loads the chapter's questions, optionally in shuffled order. The user answers single-select and multi-select questions one at a time, submits each answer, and moves between questions. At the end a completion screen shows:
- the number of correct answers;
- the list of missed questions;
- the elapsed time.

From the completion screen the user can redo the chapter, shuffle and reset, or move on to the next chapter.

**The server side.** Three routes:
- a question bank route: a chapter's questions, an exam's questions, or per-chapter counts;
- a seed route that summarises the bank;
- an in-memory quiz-history ledger of at most 100 entries, newest first.

**How the model works.** Each piece of state is an immutable datatype, and each handler or route is a pure function over it. The model is split into these modules:

| module | what it holds |
|---|---|
| `Types` | the shared records: `Choice`, `Question`, `QuizHistory`, `ExamInfo`, `ChapterInfo` |
| `Quiz` | the per-chapter quiz state and its handlers (select, submit, next/previous/go-to), `isAnswerCorrect` and `calculateStats` |
| `Session` | the page's screen machine and its handlers: exam and chapter selection, completion, redo, shuffle-and-reset, next chapter |
| `Chapters` | the fixed exam list, `getChapters` and `getNextChapter` |
| `TimeFormat` | `formatTime` |
| `Questions` | the question bank route |
| `Seed` | the seed route |
| `History` | the history ledger |
| `Decimal` | the JavaScript conversions the code relies on: `String(n)`, `padStart(2, '0')`, `parseInt` with and without a radix, and NaN as `None` |
| `Text` | the string operations on identifiers: `split('-')[0]`, `startsWith`, `replace(pattern, '')`, `toUpperCase` |
| `Lex` | the default `Array.prototype.sort` order on strings, and an insertion sort |
| `Seqs` | the order-keeping filter and duplicate-free sequences |
| `Wrappers` | the `Option` type |

**What is taken as a parameter.** The question bank is an abstract `seq<Question>`; the JSON file it is read from is not modelled. Three things are parameters of the operations that use them:
- the outcome of the questions fetch, which either throws or answers with a body;
- the order the random shuffle produced, which must be a permutation of the loaded list;
- the time `Date.now()` returns when the history route stores an entry.

## Model

| member | source | states |
|---|---|---|
| Quiz.SelectAnswer | app/page.tsx:85-95 | If the current question is submitted, the state is unchanged. Otherwise only the current index's selection changes. A single-select question then holds exactly the chosen label. A multi-select question toggles the label: afterwards it is selected iff it was not selected before, and every other label keeps its status. Selections that were sorted and duplicate-free stay so. |
| Quiz.Choose | app/page.tsx:88-92 | On a single-select question the selection becomes exactly the clicked label. On a multi-select question the clicked label's status flips and no other label changes. A sorted, duplicate-free selection stays so. |
| Quiz.Toggle | app/page.tsx:92 | Removing a selected label drops every copy of it and keeps every other label as often as before. Adding an unselected one gives the old labels, each as often as before, plus it once, in sorted order. A sorted, duplicate-free selection stays sorted and duplicate-free. |
| Quiz.FilterDropsAll | app/page.tsx:92 | Filtering out a label removes all its copies and keeps every other label's count. |
| Quiz.FilterKeepsOrder | app/page.tsx:92 | Filtering out one label keeps a strictly sorted selection strictly sorted. |
| Quiz.FilterOfStrictlySorted | app/page.tsx:92 | Any filter of a strictly sorted list is strictly sorted. |
| Quiz.ToggleTwice | app/page.tsx:92 | Toggling the same label twice restores a sorted, duplicate-free selection exactly. |
| Quiz.SelectTwiceRestores | app/page.tsx:85-95 | Clicking the same choice twice on an unsubmitted multi-select question gives back every question's earlier selection, with index and submissions unchanged. If the question already had a stored selection, the whole earlier quiz state comes back. |
| Quiz.SelectTwiceUnstored | app/page.tsx:85-95 | On a question never clicked before, two clicks on one label leave an empty selection. |
| Quiz.SelectAnswerStores | app/page.tsx:85-95 | An unsubmitted click stores the chosen selection at the current index and changes nothing else. |
| Quiz.ToggleFromEmpty | app/page.tsx:92 | On an empty multi-select selection, the first click selects exactly that label and the second clears it. |
| Quiz.Submit | app/page.tsx:97-101 | With an empty selection nothing changes. Otherwise the current question becomes submitted, and every other question's submitted status and all answers are unchanged. |
| Quiz.SubmitIdempotent | app/page.tsx:97-101 | Submitting twice is the same as submitting once. |
| Quiz.Next | app/page.tsx:103 | Before the last question the index goes up by one and nothing else changes. On or past the last question nothing changes. A valid index stays valid. |
| Quiz.Previous | app/page.tsx:104 | After the first question the index goes down by one and nothing else changes. At or before the first question nothing changes. The index never becomes negative. |
| Quiz.NextPreviousInverse | app/page.tsx:103-104 | Away from the ends, previous undoes next and next undoes previous. |
| Quiz.GoTo | app/page.tsx:105 | The index becomes the one given, unchecked, and nothing else changes. |
| Quiz.SortedCopyIrrelevant | app/page.tsx:124-129 | Checking against the sorted copy of the answer gives the same verdict as checking against the answer itself. |
| Quiz.CorrectIffSameLabels | app/page.tsx:124-129 | When neither the selection nor the answer repeats a label, the check holds iff both hold the same set of labels. |
| Quiz.DuplicateSelectionPasses | app/page.tsx:124-129 | Without that condition the check is not set equality: `["A","A"]` passes against `["A","B"]`. |
| Quiz.StrictlySortedNoDup | app/page.tsx:92 | A selection kept strictly sorted repeats no label. |
| Quiz.NormalSelectionCheck | app/page.tsx:124-129 | For any state whose selections are sorted and duplicate-free, and an answer without repeats, the check is set equality. |
| Quiz.CorrectIsAnswerCorrect | app/page.tsx:124-129 | The per-index test used by the statistics is `isAnswerCorrect` of that index. |
| Quiz.MissedUpTo | app/page.tsx:139-147 | The missed list of the first `n` questions has at most `n` entries. |
| Quiz.MissedSound | app/page.tsx:139-147 | Every listed question is incorrectly answered and carries its own index, and the indices strictly increase. |
| Quiz.MissedComplete | app/page.tsx:139-147 | Every incorrectly answered question is listed. |
| Quiz.MissedSoundStep | app/page.tsx:142-144 | Visiting one more question keeps the list sound: a missed question joins behind all earlier ones. |
| Quiz.MissedExact | app/page.tsx:139-147 | For the whole quiz the list is sound and complete. |
| Quiz.CorrectUpTo | app/page.tsx:139-147 | The correct count plus the number of missed questions is the number of questions. |
| Quiz.CalculateStats | app/page.tsx:139-147 | Correct plus incorrect is the number of questions. The incorrect count is the length of the list. The list holds exactly the incorrectly answered questions, each with its index, in index order. |
| Chapters.FindExam | app/page.tsx:57 | A found exam is a listed exam with the requested code. When none is found, no listed exam has that code. |
| Chapters.FindListedExam | app/page.tsx:17-22 | Each of the four listed exams is found by its own code. |
| Chapters.GetChapters | app/page.tsx:55-65 | With no exam selected, or an unknown one, the list is empty. For a listed exam it has one entry per chapter 1..n, in order. Entry `k` carries the code `exam + pad2(k+1)`, the exam, the number `k+1` and the displayed name. |
| Chapters.ChapterNumberOfCode | app/page.tsx:114 | Parsing the number back out of a chapter code gives the number the code was made from. |
| Chapters.ChapterCodesDistinct | app/page.tsx:61 | Different chapter numbers of one exam get different codes. |
| Chapters.AdvanceFrom | app/page.tsx:115-116 | From chapter `i` of an exam with `n` chapters, the next is chapter `i+1` when `i < n`, and there is none otherwise. |
| Chapters.AdvanceNaN | app/page.tsx:115-116 | A NaN number passes the bound test and yields the exam code followed by `NaN`. |
| Chapters.NextChapterOfListed | app/page.tsx:110-116 | For a found exam, the next chapter depends only on the parsed number and the chapter count. |
| Chapters.NextChapterOfFound | app/page.tsx:110-117 | For a found exam, the next chapter of chapter `i` is chapter `i+1` while one exists. |
| Chapters.NextChapterOfCode | app/page.tsx:110-117 | The same holds for every listed exam. |
| Chapters.NextChapterUnparsable | app/page.tsx:114-116 | A selected chapter whose number is NaN yields the exam code followed by `NaN`. |
| Chapters.NextChapterWalk | app/page.tsx:110-117 | Pressing "next chapter" repeatedly from chapter `i` meets chapters `i + 1`, `i + 2`, ... in turn, none skipped or repeated, and stops after the exam's last chapter. |
| Chapters.WalkAlong | app/page.tsx:110-117 | Repeated steps of a button that moves from each code to the following one visit the codes in order and stop at the end of the list. |
| Session.SelectExam | app/page.tsx:67 | The chapter list shows for the chosen exam, and nothing else changes. |
| Session.Back | app/page.tsx:207 | Only the screen changes. |
| Session.SetShuffle | app/page.tsx:181 | Only the shuffle flag changes. |
| Session.SelectChapter | app/page.tsx:69-83 | If the fetch throws, nothing changes. Otherwise the quiz screen shows the chapter with a fresh quiz. The questions are the loaded list, or a permutation of it when shuffle is on. |
| Session.SelectChapterLoadsChapter | app/page.tsx:69-83 | Against a bank, the quiz holds exactly the chapter's questions, in bank order unless shuffled, and none for a code without questions. |
| Session.Complete | app/page.tsx:106 | Offered only on the submitted last question; only the screen changes. |
| Session.Redo | app/page.tsx:107 | With no chapter selected, or when the fetch throws, nothing changes. Otherwise the selected chapter is selected again, exactly as `handleChapterSelect` would: a fresh quiz on the quiz screen. |
| Session.RedoDiscardsProgress | app/page.tsx:107 | Redoing, from the completion screen or any other, with the same response and shuffle order returns the state of the original load, whatever was answered in between. |
| Session.ShuffleAndReset | app/page.tsx:108 | The shuffle flag flips; the chapter, questions and quiz are cleared; the chapter list shows. |
| Session.ShuffleAndResetTwice | app/page.tsx:108 | Pressing twice restores the flag and otherwise matches one press. |
| Session.GoToNextChapter | app/page.tsx:119-122 | With no next chapter, or when the fetch throws, nothing changes. Otherwise the next chapter is selected exactly as `handleChapterSelect` would, with a fresh quiz on the quiz screen. |
| Session.NextChapterAdvances | app/page.tsx:110-122 | From chapter `i` of a listed exam the button selects chapter `i+1`, or does nothing after the last chapter. |
| Session.Step | app/page.tsx:85-105 | A quiz action changes only the quiz state. |
| Session.StepKeepsSelectionsNormal | app/page.tsx:85-105 | No quiz action makes a stored selection unsorted or duplicated. |
| Session.Run | app/page.tsx:85-105 | Any run of quiz actions keeps the question list and the screen. |
| Session.RunKeepsSelectionsNormal | app/page.tsx:85-105 | Selections stay sorted and duplicate-free along any run. |
| Session.CheckIsSetEquality | app/page.tsx:124-129 | After any actions from a freshly loaded chapter, the check of a question with a repeat-free answer is set equality. |
| TimeFormat.JsRem | app/page.tsx:133-134 | JavaScript `%`: the dividend is the quotient truncated toward zero times `b` plus the remainder. For a non-negative dividend the remainder is in `[0, b)`, for a negative one in `(-b, 0]`. |
| TimeFormat.Split | app/page.tsx:131-134 | For non-negative seconds, hours·3600 + minutes·60 + secs equals the input with minutes and secs below 60. Hours are positive iff the input is at least 3600. |
| TimeFormat.SplitUnique | app/page.tsx:131-134 | Any such decomposition is the one computed. |
| TimeFormat.FormatReadsBack | app/page.tsx:131-137 | Reading the display back gives exactly the hours, minutes and seconds `Split` computes: zero hours when no hours part is shown. Together they stand for the elapsed seconds. |
| TimeFormat.ReadShow | app/page.tsx:135-136 | Any hours, minutes and seconds shown with their markers read back as those same three numbers. |
| TimeFormat.HoursShownIffHour | app/page.tsx:135-136 | The hour marker appears iff at least one hour has passed. |
| Questions.Prefixes | app/api/questions/route.ts:22-27 | The keys are exactly the chapter codes of the bank's questions. |
| Questions.ByChapter | app/api/questions/route.ts:11-14 | Exactly the questions whose id prefix is the chapter, and none for an unknown chapter. |
| Questions.ByExam | app/api/questions/route.ts:16-19 | Exactly the questions whose id starts with the exam code. |
| Questions.FiltersKeepOrder | app/api/questions/route.ts:11-19 | Both filters keep bank order: filtering a concatenation concatenates the results. |
| Questions.ChapterWithinExam | app/api/questions/route.ts:11-19 | For a chapter code that starts with the exam code, the chapter's questions are the exam's questions of that chapter, in the same order. |
| Questions.ByChapterSize | app/api/questions/route.ts:11-14 | The chapter query returns as many questions as the chapter has. |
| Questions.CountOfAbsent | app/api/questions/route.ts:22-27 | A code absent from the bank counts zero. |
| Questions.CountOfPresent | app/api/questions/route.ts:22-27 | A present code counts at least one. |
| Questions.SumCountsBump | app/api/questions/route.ts:25 | Incrementing one listed key raises the total by one. |
| Questions.SumCountsOther | app/api/questions/route.ts:25 | Changing an unlisted key leaves the total unchanged. |
| Questions.CountStep | app/api/questions/route.ts:23-26 | One step of the tally turns a tally of the first `n` questions into a tally of the first `n+1`. |
| Questions.CountStepCounts | app/api/questions/route.ts:25 | After the step every count matches the chapter's number of questions. |
| Questions.CountStepSum | app/api/questions/route.ts:25 | After the step the counts add up to one more. |
| Questions.CountStepNoDup | app/api/questions/route.ts:25 | After the step no key is listed twice. |
| Questions.CountStepKeys | app/api/questions/route.ts:25 | After the step the listed keys are the counted keys. |
| Questions.Tally | app/api/questions/route.ts:22-27 | Every chapter code appears once, with its number of questions (at least one), and the codes are listed in the order their first questions appear in the bank. The counts add up to the bank size. |
| Questions.FirstIndex | app/api/questions/route.ts:22-27 | A position in the bank that holds a question of the chapter. |
| Questions.FirstIndexIsFirst | app/api/questions/route.ts:22-27 | No earlier position holds a question of that chapter. |
| Questions.CountStepOrder | app/api/questions/route.ts:25 | One step of the tally keeps the keys in first-seen order: a new chapter goes after every chapter seen before it. |
| Questions.Get | app/api/questions/route.ts:6-32 | A list comes back iff a chapter or exam parameter is given; its count is its length. The chapter parameter picks exactly that chapter's questions. The exam parameter alone picks exactly those with that id prefix. Otherwise the counts total the bank size. |
| Questions.ChapterWins | app/api/questions/route.ts:11-19 | With a chapter parameter the exam parameter is ignored. |
| Seed.Summary | app/api/seed/route.ts:4-16 | The total is the bank size and the chapter total is the number of distinct codes. The counts are each chapter's number of questions. The tally is the one the questions route returns. |
| Seed.SeedCount | app/api/seed/route.ts:18-20 | The POST count equals the total the GET summary reports, and the sum of the summary's per-chapter counts. |
| History.Post | app/api/history/route.ts:16-32 | The new entry takes the counter as its id and copies the body, with the given time. The counter advances by one and the entry goes in front. Below capacity the rest is the old store; at capacity the oldest entry is dropped and the size stays. |
| History.InitValid | app/api/history/route.ts:3-14 | The empty ledger is valid: within capacity, ids below the counter and decreasing. |
| History.PostPreservesValid | app/api/history/route.ts:16-32 | Every POST keeps the ledger valid. |
| History.ReplayKeepsRecent | app/api/history/route.ts:14-32 | After `k` POSTs from the start, none of them failing, the ledger holds exactly the `min(k,100)` newest entries, newest first, the `n`-th POST having id `n`. |
| History.Apply | app/api/history/route.ts:16-32 | A good body is stored as by `History.Post`. A body that is not JSON changes nothing. A `null` body stores nothing but still advances the counter, because `nextId++` runs before `body.exam` throws. |
| History.ApplyPreservesValid | app/api/history/route.ts:16-32 | Every request, failed or not, keeps the ledger valid. |
| History.RunKeepsValid | app/api/history/route.ts:14-32 | After any mix of requests the ledger is valid: ids strictly decreasing and below the counter. The counter is one past the number of requests that took an id. The store holds `min(k,100)` entries for `k` stored POSTs. |
| History.NullBodySkipsId | app/api/history/route.ts:20-22 | After a `null` body and then a good POST, the only stored entry has id 2. |
| History.RecentStep | app/api/history/route.ts:20-32 | One more POST on a ledger holding the newest entries of `k` POSTs gives one holding the newest entries of `k+1`. |
| History.PostAt | app/api/history/route.ts:31-32 | After a POST, position 0 holds the new entry and position `j` the entry that was at `j-1`. |
| History.SliceFront | app/api/history/route.ts:57 | `slice(0, end)` is a prefix of the store. A non-negative end keeps `min(end, size)` entries. A negative end counts from the back. NaN keeps none. |
| History.Get | app/api/history/route.ts:51-57 | A prefix of the store: 10 entries by default, none for a non-numeric limit. |
| History.GetWithLimit | app/api/history/route.ts:53-57 | A decimal limit `n` returns the first `min(n, size)` entries. |
| History.GetNonNumeric | app/api/history/route.ts:53-57 | `limit=abc` returns nothing. |
| Decimal.ParseIntToString | app/api/history/route.ts:54 | `parseInt(String(i))` is `i` for every integer. |
| Decimal.ParsePaddedNat | app/page.tsx:114 | `parseInt(String(n).padStart(2,'0'), 10)` is `n`. |
| Decimal.NatToString | app/page.tsx:61 | `String(n)` is a non-empty string of digits with no leading zero. |
| Decimal.ValueOfNatToString | app/page.tsx:61 | Reading the digits of `String(n)` gives `n` back. |
| Decimal.PadStart2 | app/page.tsx:61 | The text is kept at the end and left-filled with zeros to length two. |
| Decimal.TrimStart | app/api/history/route.ts:54 | Only leading whitespace is removed. |
| Decimal.DigitRun | app/page.tsx:114 | The longest prefix of radix digits. |
| Text.IdPrefix | app/api/questions/route.ts:12 | The text before the first hyphen: a hyphen-free prefix that ends at a hyphen or at the end. |
| Text.IdPrefixUnique | app/api/questions/route.ts:12 | Those properties single out that prefix. |
| Text.IndexOf | app/page.tsx:114 | The first occurrence at or after the start index, or none. |
| Text.RemoveFirst | app/page.tsx:114 | Without an occurrence the text is unchanged. Otherwise exactly the first occurrence is cut out: the text before it followed by the text after it. |
| Text.RemoveFirstOfPrefix | app/page.tsx:114 | Removing the exam code from `exam + rest` gives `rest`. |
| Lex.Sort | app/page.tsx:127 | Sorted, and a permutation of its input. |
| Lex.SortedUnique | app/page.tsx:127 | Two sorted lists with the same elements are equal, so the sort's result is determined. |
| Lex.StrictlySortedUnique | app/page.tsx:92 | Two strictly sorted lists with the same members are equal. |
| Lex.LessTransitive | app/page.tsx:92 | The default sort order is transitive. |
| Lex.LessTotal | app/page.tsx:92 | The default sort order is total. |
| Seqs.Filter | app/page.tsx:92 | `Array.prototype.filter`: exactly the elements that pass, never more than the input. |

## Left out

- **Timers.** The page's clock is not modelled: `startTime`, `elapsedTime`, the one-second timer and the page's calls to `Date.now()` are clock I/O. `formatTime` is modelled as a function of the seconds. The history route's `Date.now()` is a parameter of `History.Post`.
- **Shuffle.** The random comparator sort is a parameter: any permutation of the loaded list. The distribution `Math.random` gives is not modelled.
- **Percentage.** `Math.round` of the completion percentage is floating point and is left out.
- **Rendering.** The loading flag, the colours, progress bars, answer dots, explanations and the rest of the JSX are display only. The guard that shows the completion button is kept as the precondition of `Session.Complete`.
- **HTTP.** Request and response objects, and the `500` error answers of the routes, are left out. What a failing POST does to the history ledger is modelled (`History.Apply`): a body that is not JSON changes nothing, and a `null` body uses up an id. The questions fetch of the page is a parameter outcome that either throws or answers.
- **Question bank.** The static JSON file is an abstract sequence, and its content is not modelled.
- **Dataset invariants.** Answers that are choice labels, or multi-select iff more than one answer, are never enforced by the code. They are not assumed anywhere: every contract holds for any bank.
- **Object keys.** The tally uses a map plus the first-seen key order. JavaScript objects list integer-like keys first, and keys such as `constructor` read values from the prototype; neither is modelled.
- **Numbers.** JavaScript numbers are modelled as unbounded integers. Rounding above 2^53 and the value `-0` are not modelled.
- **Sort order.** `Lex.Less` compares code points; JavaScript's default sort compares UTF-16 code units. The two differ only above U+FFFF, which answer labels do not use.
- Text.ToUpperAscii: upper-cases ASCII letters only, not the full Unicode mapping `toUpperCase` applies. It is applied only to the fixed exam codes, which are ASCII.
- TimeFormat.Split: states nothing about negative seconds beyond the hour flag. JavaScript's truncating `%` is modelled by `JsRem`, but elapsed time is never negative.
- Quiz.SelectAnswer: requires a valid current index (unless the question is submitted). With an index outside the list the handler reads an undefined question and throws, so that error path is not modelled.
- **Concurrency.** Concurrent requests on the history ledger are not modelled. Each POST is one atomic step, as in a single Node.js process.
- History.ReplayKeepsRecent: covers only runs where every POST succeeds. Once a `null` body has taken an id, the `n`-th stored entry no longer has id `n`; for mixed runs `History.RunKeepsValid` states what still holds.
- Session.SelectChapter: a chapter load takes effect as one atomic step. In the page, `handleChapterSelect` is async and applies its updates only when the fetch resolves. Only the chapter buttons are disabled while it is pending. The back button, the exam buttons, and the redo and shuffle-and-reset buttons stay live. So a pending load can land after a shuffle-and-reset has cleared the chapter, or after another exam was selected. In the second case the selected chapter no longer starts with the selected exam code, and this is how the `exam + "NaN"` result of `Chapters.NextChapterUnparsable` can be reached. `Session.Redo` and `Session.GoToNextChapter` inherit the same atomicity.

## Notes

- **`GET /api/history?limit=abc`.** A non-numeric limit returns no entries, not the default 10. The test for a missing parameter only catches a missing or empty one. `parseInt("abc")` is NaN, and `slice(0, NaN)` is empty (`History.GetNonNumeric`).
- **Hexadecimal limits.** The history route calls `parseInt` without a radix, so `limit=0x10` is read as 16.
