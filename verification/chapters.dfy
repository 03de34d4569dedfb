/** The fixed exam list and the chapter codes the quiz page derives from
    it: chapter `i` of exam `e` has the exam code followed by `i` in decimal,
    padded with a leading zero to two digits, and the "next chapter" button
    parses that number back. */
module Chapters {
  import opened Wrappers
  import opened Types
  import opened Text
  import opened Decimal

  /** The four exams offered, with their chapter counts. */
  const Exams: seq<ExamInfo> := [
    ExamInfo("clf", "AWS Cloud Practitioner (CLF-C02)", "\U{2601}\U{FE0F}", 35),
    ExamInfo("aif", "AWS AI Practitioner (AIF-C01)", "\U{1F916}", 45),
    ExamInfo("saa", "AWS Solutions Architect Associate (SAA-C03)", "\U{1F3D7}\U{FE0F}", 105),
    ExamInfo("soa", "AWS SysOps Administrator (SOA-C02)", "\U{2699}\U{FE0F}", 100)
  ]

  /** The first listed exam whose code is `code`, if any. */
  function FindExam(code: string): (r: Option<ExamInfo>)
    ensures r.Some? ==> r.value in Exams && r.value.code == code
    ensures r.None? ==> forall e :: e in Exams ==> e.code != code
  {
    FindIn(Exams, code)
  }

  function FindIn(exams: seq<ExamInfo>, code: string): (r: Option<ExamInfo>)
    ensures r.Some? ==> r.value in exams && r.value.code == code
    ensures r.None? ==> forall e :: e in exams ==> e.code != code
    decreases |exams|
  {
    if |exams| == 0 then None
    else if exams[0].code == code then Some(exams[0])
    else
      var r := FindIn(exams[1..], code);
      assert forall e :: e in exams[1..] ==> e in exams;
      r
  }

  /** Each listed exam is found by its own code. */
  lemma FindListedExam(e: ExamInfo)
    requires e in Exams
    ensures FindExam(e.code) == Some(e)
  {
    var i :| 0 <= i < |Exams| && Exams[i] == e;
    assert FindIn(Exams[3..], Exams[3].code) == Some(Exams[3]);
    assert FindIn(Exams[2..], Exams[2].code) == Some(Exams[2]);
    assert FindIn(Exams[1..], Exams[1].code) == Some(Exams[1]);
  }

  /** The code of chapter `n` of exam `exam`. */
  function ChapterCode(exam: string, n: nat): string {
    exam + PadStart2(NatToString(n))
  }

  /** The chapter number `getNextChapter` reads back from a chapter code. */
  function ChapterNumber(exam: string, chapter: string): Option<int> {
    ParseInt(RemoveFirst(chapter, exam), false)
  }

  /** Reading the number back from a code gives the number it was made from. */
  lemma ChapterNumberOfCode(exam: string, n: nat)
    ensures ChapterNumber(exam, ChapterCode(exam, n)) == Some(n)
  {
    RemoveFirstOfPrefix(exam, PadStart2(NatToString(n)));
    ParsePaddedNat(n);
  }

  /** Different chapter numbers of one exam never share a code. */
  lemma ChapterCodesDistinct(exam: string, m: nat, n: nat)
    requires m != n
    ensures ChapterCode(exam, m) != ChapterCode(exam, n)
  {
    ChapterNumberOfCode(exam, m);
    ChapterNumberOfCode(exam, n);
  }

  /** `getChapters()`: one entry per chapter 1..n of the selected exam;
      none when no exam is selected or the code is not a listed exam. */
  method GetChapters(selectedExam: Option<string>) returns (chapters: seq<ChapterInfo>)
    ensures !Present(selectedExam) || FindExam(selectedExam.value).None? ==> chapters == []
    ensures Present(selectedExam) && FindExam(selectedExam.value).Some? ==>
      var e := FindExam(selectedExam.value).value;
      && |chapters| == e.chapters
      && forall k :: 0 <= k < |chapters| ==>
           && chapters[k].id == ChapterCode(e.code, k + 1)
           && chapters[k].exam == e.code
           && chapters[k].num == k + 1
           && chapters[k].name == ToUpperAscii(e.code) + " - Chapter " + NatToString(k + 1)
  {
    if !Present(selectedExam) {
      return [];
    }
    var found := FindExam(selectedExam.value);
    if found.None? {
      return [];
    }
    var exam := found.value;
    var code := selectedExam.value;
    chapters := [];
    var i := 1;
    while i <= exam.chapters
      invariant 1 <= i <= exam.chapters + 1
      invariant |chapters| == i - 1
      invariant forall k :: 0 <= k < |chapters| ==> chapters[k] == Entry(code, exam.code, k + 1)
    {
      var entry := Entry(code, exam.code, i);
      var next := chapters + [entry];
      forall k | 0 <= k < |next| ensures next[k] == Entry(code, exam.code, k + 1) {
        if k < |chapters| {
          assert next[k] == chapters[k];
        }
      }
      chapters := next;
      i := i + 1;
    }
  }

  /** The entry of chapter `n`: its code, the selected exam, the number and
      the displayed name. */
  function Entry(code: string, examCode: string, n: nat): ChapterInfo {
    ChapterInfo(code + PadStart2(NatToString(n)), code, n, ToUpperAscii(examCode) + " - Chapter " + NatToString(n))
  }

  /** `getNextChapter()`: the code of the chapter after the selected one,
      or None at the last chapter or when nothing is selected. The number is
      whatever `parseInt` reads after removing the exam code; if that is NaN
      the comparison with the chapter count is false and the result is the
      exam code followed by "NaN". */
  function NextChapter(selectedExam: Option<string>, selectedChapter: Option<string>): Option<string> {
    if !Present(selectedChapter) || !Present(selectedExam) then None
    else
      match FindExam(selectedExam.value)
      case None => None
      case Some(e) =>
        Advance(e.chapters, selectedExam.value, ChapterNumber(selectedExam.value, selectedChapter.value))
  }

  /** The part of `getNextChapter()` after the exam has been found and the
      current number parsed, for an exam with `count` chapters. */
  function Advance(count: nat, exam: string, current: Option<int>): Option<string> {
    if current.Some? && current.value >= count as int then None
    else
      var next := match current case Some(c) => Some(c + 1) case None => None;
      Some(exam + PadStart2(NumberToString(next)))
  }

  /** From the code of chapter `i` of a listed exam, the next chapter is the
      code of chapter `i + 1` while `i` is below the chapter count, and
      there is none from the last chapter on. */
  lemma NextChapterOfCode(e: ExamInfo, i: nat)
    requires e in Exams
    ensures NextChapter(Some(e.code), Some(ChapterCode(e.code, i))) ==
      if i < e.chapters then Some(ChapterCode(e.code, i + 1)) else None
  {
    FindListedExam(e);
    NextChapterOfFound(e, i);
  }

  lemma NextChapterOfFound(e: ExamInfo, i: nat)
    requires e.code != "" && FindExam(e.code) == Some(e)
    ensures NextChapter(Some(e.code), Some(ChapterCode(e.code, i))) ==
      if i < e.chapters then Some(ChapterCode(e.code, i + 1)) else None
  {
    NextChapterOfListed(e, ChapterCode(e.code, i));
    ChapterNumberOfCode(e.code, i);
    AdvanceFrom(e.chapters, e.code, i);
  }

  /** For a found exam, the next chapter is what `Advance` makes of the
      parsed number. */
  lemma NextChapterOfListed(e: ExamInfo, chapter: string)
    requires e.code != "" && chapter != "" && FindExam(e.code) == Some(e)
    ensures NextChapter(Some(e.code), Some(chapter)) == Advance(e.chapters, e.code, ChapterNumber(e.code, chapter))
  {
  }

  lemma AdvanceFrom(count: nat, exam: string, i: nat)
    ensures Advance(count, exam, Some(i)) ==
      if i < count then Some(ChapterCode(exam, i + 1)) else None
  {
    if i < count {
      assert NumberToString(Some(i + 1)) == NatToString(i + 1);
    }
  }

  /** A selected chapter whose number does not parse still yields a "next
      chapter": the exam code followed by "NaN". */
  lemma NextChapterUnparsable(e: ExamInfo, chapter: string)
    requires e in Exams && chapter != ""
    requires ChapterNumber(e.code, chapter).None?
    ensures NextChapter(Some(e.code), Some(chapter)) == Some(e.code + "NaN")
  {
    FindListedExam(e);
    NextChapterOfListed(e, chapter);
    AdvanceNaN(e.chapters, e.code);
  }

  lemma AdvanceNaN(count: nat, exam: string)
    ensures Advance(count, exam, None) == Some(exam + "NaN")
  {
    assert PadStart2("NaN") == "NaN";
  }

  /** The chapters met by pressing "next chapter" up to `steps` times from
      `chapter`, stopping when there is no next chapter; `next` is the
      button's effect on the selected chapter. */
  function Walk(next: string -> Option<string>, chapter: string, steps: nat): seq<string>
    decreases steps
  {
    if steps == 0 then []
    else
      match next(chapter)
      case None => []
      case Some(c) => [c] + Walk(next, c, steps - 1)
  }

  /** "Next chapter" with exam `exam` selected. */
  function NextIn(exam: string): string -> Option<string> {
    chapter => NextChapter(Some(exam), Some(chapter))
  }

  /** The chapter codes of `exam`, by number. */
  function CodesOf(exam: string): nat -> string {
    (n: nat) => ChapterCode(exam, n)
  }

  /** `r` lists chapters `i + 1`, `i + 2`, ... of `exam` in turn. */
  predicate ChaptersAfter(r: seq<string>, exam: string, i: nat) {
    forall k :: 0 <= k < |r| ==> r[k] == ChapterCode(exam, i + 1 + k)
  }

  /** From chapter `i`, following "next chapter" visits chapters `i + 1`,
      `i + 2`, ... in turn, none skipped or repeated, and stops after the
      exam's last chapter. */
  lemma NextChapterWalk(e: ExamInfo, i: nat, steps: nat)
    requires e in Exams && i <= e.chapters
    ensures var r := Walk(NextIn(e.code), ChapterCode(e.code, i), steps);
      && |r| == (if steps < e.chapters - i then steps else e.chapters - i)
      && ChaptersAfter(r, e.code, i)
  {
    var at := CodesOf(e.code);
    NextInStepsThrough(e, i);
    WalkAlong(NextIn(e.code), at, i, e.chapters, steps);
    assert at(i) == ChapterCode(e.code, i);
    AlongChapters(Walk(NextIn(e.code), at(i), steps), e.code, i);
  }

  lemma NextInStepsThrough(e: ExamInfo, i: nat)
    requires e in Exams
    ensures StepsThrough(NextIn(e.code), CodesOf(e.code), i, e.chapters)
  {
    forall j: nat | i <= j <= e.chapters {
      NextInStep(e, j);
    }
  }

  lemma AlongChapters(r: seq<string>, exam: string, i: nat)
    requires Along(r, CodesOf(exam), i)
    ensures ChaptersAfter(r, exam, i)
  {
    forall k | 0 <= k < |r| ensures r[k] == ChapterCode(exam, i + 1 + k) {
      assert r[k] == CodesOf(exam)(i + 1 + k);
    }
  }

  lemma NextInStep(e: ExamInfo, j: nat)
    requires e in Exams
    ensures StepsAt(NextIn(e.code), CodesOf(e.code), j, e.chapters)
  {
    NextChapterOfCode(e, j);
  }

  /** `next` takes `at(j)` to `at(j + 1)` for `i <= j < n`, and `at(n)` to
      nothing. */
  predicate StepsThrough(next: string -> Option<string>, at: nat -> string, i: nat, n: nat) {
    forall j: nat :: i <= j <= n ==> StepsAt(next, at, j, n)
  }

  predicate StepsAt(next: string -> Option<string>, at: nat -> string, j: nat, n: nat) {
    next(at(j)) == if j < n then Some(at(j + 1)) else None
  }

  /** `r` lists `at(i + 1)`, `at(i + 2)`, ... in turn. */
  predicate Along(r: seq<string>, at: nat -> string, i: nat) {
    forall k :: 0 <= k < |r| ==> r[k] == at(i + 1 + k)
  }

  /** Walking a `next` that steps along `at` from `i` up to `n` meets
      `at(i + 1)`, `at(i + 2)`, ... and stops after `at(n)`. */
  lemma {:induction false} WalkAlong(next: string -> Option<string>, at: nat -> string, i: nat, n: nat, steps: nat)
    requires i <= n && StepsThrough(next, at, i, n)
    ensures var r := Walk(next, at(i), steps);
      && |r| == (if steps < n - i then steps else n - i)
      && Along(r, at, i)
    decreases steps
  {
    if steps > 0 {
      if i < n {
        var c := at(i + 1);
        var rest := Walk(next, c, steps - 1);
        assert StepsAt(next, at, i, n);
        assert Walk(next, at(i), steps) == [c] + rest;
        WalkAlong(next, at, i + 1, n, steps - 1);
        AlongCons(c, rest, at, i);
      } else {
        assert StepsAt(next, at, i, n);
      }
    }
  }

  lemma AlongCons(c: string, rest: seq<string>, at: nat -> string, i: nat)
    requires c == at(i + 1) && Along(rest, at, i + 1)
    ensures Along([c] + rest, at, i)
  {
    var r := [c] + rest;
    forall k | 0 <= k < |r| ensures r[k] == at(i + 1 + k) {
      if k > 0 {
        assert r[k] == rest[k - 1];
      }
    }
  }
}
