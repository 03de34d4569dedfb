/** `GET /api/seed` and `POST /api/seed`: a summary of the static bank and
    a no-op that reports its size. */
module Seed {
  import Wrappers
  import opened Types
  import opened Seqs
  import Questions

  datatype SeedSummary = SeedSummary(
    totalQuestions: nat,
    totalChapters: nat,
    chapters: Questions.ChapterCounts)

  /** The summary: the same tally as the parameterless questions query,
      the number of its keys and the size of the bank. */
  function Summary(ds: seq<Question>): (r: SeedSummary)
    ensures r.totalQuestions == |ds|
    ensures r.totalChapters == |Questions.Prefixes(ds)|
    ensures r.chapters.counts.Keys == Questions.Prefixes(ds)
    ensures forall k :: k in r.chapters.counts ==>
      r.chapters.counts[k] == Questions.CountOf(ds, k) >= 1
    ensures Questions.SumCounts(r.chapters.order, r.chapters.counts) == r.totalQuestions
    ensures Questions.Get(ds, Wrappers.None, Wrappers.None) == Questions.ChapterList(r.chapters, r.totalQuestions)
  {
    var chapters := Questions.Tally(ds);
    NoDupCard(chapters.order);
    SeedSummary(|ds|, |chapters.order|, chapters)
  }

  /** `POST /api/seed` reports how many questions the bank holds: the same
      total the summary reports, and the sum of its per-chapter counts. */
  function SeedCount(ds: seq<Question>): (count: nat)
    ensures count == |ds|
    ensures count == Summary(ds).totalQuestions
    ensures count == Questions.SumCounts(Summary(ds).chapters.order, Summary(ds).chapters.counts)
  {
    |ds|
  }
}
