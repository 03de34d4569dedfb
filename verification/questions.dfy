/** The question-bank queries behind `GET /api/questions`: a chapter's
    questions, an exam's questions, and the per-chapter counts. The bank
    itself is an abstract sequence of questions. */
module Questions {
  import opened Wrappers
  import opened Types
  import opened Seqs
  import opened Text

  /** The chapter a question belongs to: its id up to the first hyphen. */
  function ChapterOf(q: Question): string {
    IdPrefix(q.id)
  }

  /** The distinct chapter codes occurring in the bank. */
  function Prefixes(ds: seq<Question>): (r: set<string>)
    ensures forall k :: k in r <==> exists q :: q in ds && ChapterOf(q) == k
    decreases |ds|
  {
    if |ds| == 0 then {}
    else
      var init := ds[..|ds| - 1];
      assert ds == init + [ds[|ds| - 1]];
      Prefixes(init) + {ChapterOf(ds[|ds| - 1])}
  }

  /** The number of questions of chapter `k`. */
  function CountOf(ds: seq<Question>, k: string): nat
    decreases |ds|
  {
    if |ds| == 0 then 0
    else CountOf(ds[..|ds| - 1], k) + (if ChapterOf(ds[|ds| - 1]) == k then 1 else 0)
  }

  /** The position of the first question of chapter `k` in the bank
      (`FirstIndexIsFirst`). */
  function FirstIndex(ds: seq<Question>, k: string): (r: nat)
    requires k in Prefixes(ds)
    ensures r < |ds| && ChapterOf(ds[r]) == k
    decreases |ds|
  {
    var init := ds[..|ds| - 1];
    if k in Prefixes(init) then
      var r := FirstIndex(init, k);
      assert ds[r] == init[r];
      r
    else |ds| - 1
  }

  /** No question before `FirstIndex(ds, k)` belongs to chapter `k`. */
  lemma {:induction false} FirstIndexIsFirst(ds: seq<Question>, k: string, i: int)
    requires k in Prefixes(ds) && 0 <= i < FirstIndex(ds, k)
    ensures ChapterOf(ds[i]) != k
    decreases |ds|
  {
    var init := ds[..|ds| - 1];
    assert ds[i] == init[i];
    if k in Prefixes(init) {
      FirstIndexIsFirst(init, k, i);
    } else {
      assert init[i] in init;
    }
  }

  /** The keys of `order` are chapters of the bank, listed in the order in
      which their first questions appear. */
  predicate FirstSeenOrder(order: seq<string>, ds: seq<Question>) {
    && (forall i :: 0 <= i < |order| ==> order[i] in Prefixes(ds))
    && (forall i, j :: 0 <= i < j < |order| ==> FirstIndex(ds, order[i]) < FirstIndex(ds, order[j]))
  }

  function ChapterTest(chapter: string): Question -> bool {
    (q: Question) => ChapterOf(q) == chapter
  }

  function ExamTest(exam: string): Question -> bool {
    (q: Question) => StartsWith(q.id, exam)
  }

  /** The `?chapter=` filter. */
  function ByChapter(ds: seq<Question>, chapter: string): (r: seq<Question>)
    ensures forall q :: q in r <==> q in ds && ChapterOf(q) == chapter
    ensures chapter !in Prefixes(ds) ==> r == []
  {
    var r := Filter(ds, ChapterTest(chapter));
    assert forall q :: q in r ==> ChapterOf(q) in Prefixes(ds);
    assert |r| > 0 ==> r[0] in r;
    r
  }

  /** The `?exam=` filter: a prefix match on the whole id. */
  function ByExam(ds: seq<Question>, exam: string): (r: seq<Question>)
    ensures forall q :: q in r <==> q in ds && StartsWith(q.id, exam)
  {
    Filter(ds, ExamTest(exam))
  }

  /** Both filters keep the bank's order: the answer for a concatenated
      bank is the answer for its first part followed by that for its second. */
  lemma FiltersKeepOrder(a: seq<Question>, b: seq<Question>, chapter: string, exam: string)
    ensures ByChapter(a + b, chapter) == ByChapter(a, chapter) + ByChapter(b, chapter)
    ensures ByExam(a + b, exam) == ByExam(a, exam) + ByExam(b, exam)
  {
    FilterConcat(a, b, ChapterTest(chapter));
    FilterConcat(a, b, ExamTest(exam));
  }

  /** When a chapter code begins with an exam code, the chapter's questions
      are exactly the exam's questions of that chapter, in the same order. */
  lemma ChapterWithinExam(ds: seq<Question>, chapter: string, exam: string)
    requires StartsWith(chapter, exam)
    ensures Filter(ByExam(ds, exam), ChapterTest(chapter)) == ByChapter(ds, chapter)
    ensures forall q :: q in ByChapter(ds, chapter) ==> q in ByExam(ds, exam)
  {
    forall q | ChapterTest(chapter)(q) ensures ExamTest(exam)(q) {
      StartsWithTransitive(q.id, chapter, exam);
    }
    FilterFilter(ds, ChapterTest(chapter), ExamTest(exam));
  }

  /** The chapter counts in `Object.keys` order (first occurrence) together
      with the count of each chapter. */
  datatype ChapterCounts = ChapterCounts(order: seq<string>, counts: map<string, nat>)

  /** Sum of the counts of the listed chapters. */
  function SumCounts(keys: seq<string>, m: map<string, nat>): nat
    decreases |keys|
  {
    if |keys| == 0 then 0
    else
      var k := keys[|keys| - 1];
      SumCounts(keys[..|keys| - 1], m) + (if k in m then m[k] else 0)
  }

  lemma {:induction false} SumCountsOther(keys: seq<string>, m: map<string, nat>, k: string, v: nat)
    requires k !in keys
    ensures SumCounts(keys, m[k := v]) == SumCounts(keys, m)
    decreases |keys|
  {
    if |keys| > 0 {
      assert keys[|keys| - 1] in keys;
      SumCountsOther(keys[..|keys| - 1], m, k, v);
    }
  }

  lemma {:induction false} SumCountsBump(keys: seq<string>, m: map<string, nat>, k: string)
    requires NoDup(keys) && k in keys && k in m
    ensures SumCounts(keys, m[k := m[k] + 1]) == SumCounts(keys, m) + 1
    decreases |keys|
  {
    var init := keys[..|keys| - 1];
    var last := keys[|keys| - 1];
    if last == k {
      assert k !in init by {
        forall i | 0 <= i < |init| ensures init[i] != k {
          assert init[i] == keys[i];
        }
      }
      SumCountsOther(init, m, k, m[k] + 1);
    } else {
      assert k in init by {
        var i :| 0 <= i < |keys| && keys[i] == k;
        assert init[i] == k;
      }
      assert NoDup(init);
      SumCountsBump(init, m, k);
    }
  }

  /** What a tally of `ds` must be: every chapter listed once, in the key
      order, with the number of its questions, the counts adding up to the
      size of the bank. */
  predicate TallyOf(r: ChapterCounts, ds: seq<Question>) {
    && NoDup(r.order)
    && ToSet(r.order) == r.counts.Keys == Prefixes(ds)
    && (forall k :: k in r.counts ==> r.counts[k] == CountOf(ds, k))
    && SumCounts(r.order, r.counts) == |ds|
  }

  /** One step of the tally: the question's chapter is listed if it is new,
      and its count goes up by one. */
  function Count(prev: ChapterCounts, ch: string): ChapterCounts {
    if ch in prev.counts then ChapterCounts(prev.order, prev.counts[ch := prev.counts[ch] + 1])
    else ChapterCounts(prev.order + [ch], prev.counts[ch := 1])
  }

  /** A chapter code absent from the bank has no questions. */
  lemma {:induction false} CountOfAbsent(ds: seq<Question>, k: string)
    requires k !in Prefixes(ds)
    ensures CountOf(ds, k) == 0
    decreases |ds|
  {
    if |ds| > 0 {
      CountOfAbsent(ds[..|ds| - 1], k);
    }
  }

  /** A chapter present in the bank has at least one question. */
  lemma {:induction false} CountOfPresent(ds: seq<Question>, k: string)
    requires k in Prefixes(ds)
    ensures CountOf(ds, k) >= 1
    decreases |ds|
  {
    var init := ds[..|ds| - 1];
    if ChapterOf(ds[|ds| - 1]) != k {
      CountOfPresent(init, k);
    }
  }

  /** The `?chapter=` filter returns as many questions as the chapter has. */
  lemma {:induction false} ByChapterSize(ds: seq<Question>, k: string)
    ensures |ByChapter(ds, k)| == CountOf(ds, k)
    decreases |ds|
  {
    if |ds| > 0 {
      ByChapterSize(ds[..|ds| - 1], k);
    }
  }

  lemma CountStep(ds: seq<Question>, prev: ChapterCounts)
    requires |ds| > 0 && TallyOf(prev, ds[..|ds| - 1])
    ensures TallyOf(Count(prev, ChapterOf(ds[|ds| - 1])), ds)
  {
    var init, ch := ds[..|ds| - 1], ChapterOf(ds[|ds| - 1]);
    CountStepNoDup(prev, ch);
    CountStepKeys(prev, ch);
    CountStepPrefixes(ds, prev);
    CountStepCounts(ds, init, ch, prev);
    CountStepSum(prev, ch, |init|);
  }

  lemma CountStepNoDup(prev: ChapterCounts, ch: string)
    requires NoDup(prev.order) && ToSet(prev.order) == prev.counts.Keys
    ensures NoDup(Count(prev, ch).order)
  {
    if ch !in prev.counts {
      var order := prev.order + [ch];
      assert NoDup(order) by {
        forall i | 0 <= i < |prev.order| ensures order[i] != ch {
          assert prev.order[i] in ToSet(prev.order);
        }
      }
    }
  }

  lemma CountStepKeys(prev: ChapterCounts, ch: string)
    requires ToSet(prev.order) == prev.counts.Keys
    ensures ToSet(Count(prev, ch).order) == Count(prev, ch).counts.Keys
  {
    if ch !in prev.counts {
      assert ToSet(prev.order + [ch]) == ToSet(prev.order) + {ch};
    }
  }

  lemma CountStepPrefixes(ds: seq<Question>, prev: ChapterCounts)
    requires |ds| > 0 && prev.counts.Keys == Prefixes(ds[..|ds| - 1])
    ensures Count(prev, ChapterOf(ds[|ds| - 1])).counts.Keys == Prefixes(ds)
  {
  }

  lemma CountStepCounts(ds: seq<Question>, init: seq<Question>, ch: string, prev: ChapterCounts)
    requires |ds| > 0 && init == ds[..|ds| - 1] && ch == ChapterOf(ds[|ds| - 1])
    requires prev.counts.Keys == Prefixes(init)
    requires forall k :: k in prev.counts ==> prev.counts[k] == CountOf(init, k)
    ensures forall k :: k in Count(prev, ch).counts ==> Count(prev, ch).counts[k] == CountOf(ds, k)
  {
    var next := Count(prev, ch).counts;
    if ch !in prev.counts {
      CountOfAbsent(init, ch);
    }
    forall k | k in next ensures next[k] == CountOf(ds, k) {
      assert CountOf(ds, k) == CountOf(init, k) + (if ch == k then 1 else 0);
    }
  }

  lemma CountStepSum(prev: ChapterCounts, ch: string, n: nat)
    requires NoDup(prev.order) && ToSet(prev.order) == prev.counts.Keys
    requires SumCounts(prev.order, prev.counts) == n
    ensures SumCounts(Count(prev, ch).order, Count(prev, ch).counts) == n + 1
  {
    if ch in prev.counts {
      assert ch in ToSet(prev.order);
      assert ch in prev.order;
      SumCountsBump(prev.order, prev.counts, ch);
    } else {
      assert ch !in ToSet(prev.order);
      SumCountsOther(prev.order, prev.counts, ch, 1);
      var order := prev.order + [ch];
      assert order[..|order| - 1] == prev.order;
    }
  }

  /** A new chapter joins the end of the order, after every chapter seen
      before it. */
  lemma CountStepOrder(ds: seq<Question>, prev: ChapterCounts)
    requires |ds| > 0
    requires ToSet(prev.order) == prev.counts.Keys == Prefixes(ds[..|ds| - 1])
    requires FirstSeenOrder(prev.order, ds[..|ds| - 1])
    ensures FirstSeenOrder(Count(prev, ChapterOf(ds[|ds| - 1])).order, ds)
  {
    if ChapterOf(ds[|ds| - 1]) in prev.counts {
      FirstIndexKept(ds, prev.order);
    } else {
      FirstIndexNew(ds, prev.order);
    }
  }

  /** A chapter already in the shorter bank keeps its first position. */
  lemma FirstIndexOfEarlier(ds: seq<Question>, k: string)
    requires |ds| > 0 && k in Prefixes(ds[..|ds| - 1])
    ensures k in Prefixes(ds) && FirstIndex(ds, k) == FirstIndex(ds[..|ds| - 1], k)
  {
    assert Prefixes(ds) == Prefixes(ds[..|ds| - 1]) + {ChapterOf(ds[|ds| - 1])};
  }

  /** A chapter absent from the shorter bank first appears at the end. */
  lemma FirstIndexOfLast(ds: seq<Question>)
    requires |ds| > 0 && ChapterOf(ds[|ds| - 1]) !in Prefixes(ds[..|ds| - 1])
    ensures ChapterOf(ds[|ds| - 1]) in Prefixes(ds) && FirstIndex(ds, ChapterOf(ds[|ds| - 1])) == |ds| - 1
  {
    assert Prefixes(ds) == Prefixes(ds[..|ds| - 1]) + {ChapterOf(ds[|ds| - 1])};
  }

  /** Earlier chapters keep their first position as the bank grows. */
  lemma FirstIndexKept(ds: seq<Question>, order: seq<string>)
    requires |ds| > 0
    requires FirstSeenOrder(order, ds[..|ds| - 1])
    ensures FirstSeenOrder(order, ds)
  {
    forall i | 0 <= i < |order|
      ensures order[i] in Prefixes(ds) && FirstIndex(ds, order[i]) == FirstIndex(ds[..|ds| - 1], order[i])
    {
      FirstIndexOfEarlier(ds, order[i]);
    }
  }

  /** A chapter met for the first time at the end of the bank goes last. */
  lemma FirstIndexNew(ds: seq<Question>, order: seq<string>)
    requires |ds| > 0
    requires FirstSeenOrder(order, ds[..|ds| - 1])
    requires ChapterOf(ds[|ds| - 1]) !in Prefixes(ds[..|ds| - 1])
    ensures FirstSeenOrder(order + [ChapterOf(ds[|ds| - 1])], ds)
  {
    var init, ch := ds[..|ds| - 1], ChapterOf(ds[|ds| - 1]);
    FirstIndexKept(ds, order);
    FirstIndexOfLast(ds);
    var next := order + [ch];
    assert forall i :: 0 <= i < |order| ==> next[i] == order[i];
    forall i, j | 0 <= i < j < |next|
      ensures FirstIndex(ds, next[i]) < FirstIndex(ds, next[j])
    {
      if j == |order| {
        FirstIndexOfEarlier(ds, order[i]);
      }
    }
  }

  /** The `forEach` tally over the bank, one question at a time. */
  function Tally(ds: seq<Question>): (r: ChapterCounts)
    ensures NoDup(r.order)
    ensures ToSet(r.order) == r.counts.Keys == Prefixes(ds)
    ensures forall k :: k in r.counts ==> r.counts[k] == CountOf(ds, k) >= 1
    ensures SumCounts(r.order, r.counts) == |ds|
    ensures FirstSeenOrder(r.order, ds)
    decreases |ds|
  {
    if |ds| == 0 then ChapterCounts([], map[])
    else
      var init := ds[..|ds| - 1];
      var prev := Tally(init);
      CountStep(ds, prev);
      CountStepOrder(ds, prev);
      forall k | k in Prefixes(ds) ensures CountOf(ds, k) >= 1 {
        CountOfPresent(ds, k);
      }
      Count(prev, ChapterOf(ds[|ds| - 1]))
  }

  /** The three answers of `GET /api/questions`. */
  datatype QuestionsResponse =
    | QuestionList(data: seq<Question>, count: nat)
    | ChapterList(chapters: ChapterCounts, totalQuestions: nat)

  /** `GET /api/questions?chapter=&exam=`; the chapter parameter wins when
      both are given, and an empty parameter counts as absent. */
  function Get(ds: seq<Question>, chapter: Option<string>, exam: Option<string>): (r: QuestionsResponse)
    ensures r.QuestionList? <==> Present(chapter) || Present(exam)
    ensures r.QuestionList? ==> r.count == |r.data|
    ensures Present(chapter) ==>
      forall q :: q in r.data <==> q in ds && ChapterOf(q) == chapter.value
    ensures Present(chapter) && chapter.value !in Prefixes(ds) ==> r.data == []
    ensures !Present(chapter) && Present(exam) ==>
      forall q :: q in r.data <==> q in ds && StartsWith(q.id, exam.value)
    ensures r.ChapterList? ==>
      && r.totalQuestions == |ds|
      && SumCounts(r.chapters.order, r.chapters.counts) == r.totalQuestions
      && (forall k :: k in r.chapters.counts ==> r.chapters.counts[k] >= 1)
  {
    if Present(chapter) then
      var data := ByChapter(ds, chapter.value);
      QuestionList(data, |data|)
    else if Present(exam) then
      var data := ByExam(ds, exam.value);
      QuestionList(data, |data|)
    else
      ChapterList(Tally(ds), |ds|)
  }

  /** A chapter parameter makes any exam parameter irrelevant. */
  lemma ChapterWins(ds: seq<Question>, chapter: string, exam: Option<string>)
    requires chapter != ""
    ensures Get(ds, Some(chapter), exam) == Get(ds, Some(chapter), None)
    ensures Get(ds, Some(chapter), exam).data == ByChapter(ds, chapter)
  {
  }
}
