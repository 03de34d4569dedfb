/** The records shared by the page and the API routes. */
module Types {

  /** One answer option: its label such as "A" (`label` in the source) and its text. */
  datatype Choice = Choice(choiceLabel: string, text: string)

  /** A question of the bank. Its `id` has the shape
      `<chapter code>-<number>`; `answer` lists the correct labels. */
  datatype Question = Question(
    id: string,
    question: string,
    choices: seq<Choice>,
    answer: seq<string>,
    multiSelect: bool,
    explanation: string)

  /** A saved quiz attempt, as the history route stores it (with its id
      always assigned). */
  datatype QuizHistory = QuizHistory(
    id: nat,
    exam: string,
    chapter: string,
    title: string,
    total: int,
    correct: int,
    duration: int,
    startedAt: int)

  /** One certification exam and its number of chapters. */
  datatype ExamInfo = ExamInfo(code: string, name: string, icon: string, chapters: nat)

  /** One entry of the chapter picker. */
  datatype ChapterInfo = ChapterInfo(id: string, exam: string, num: nat, name: string)
}
