/** The quiz-history ledger behind `/api/history`: a process-wide list of
    saved attempts, newest first, capped at 100 entries, with ids drawn
    from a counter that starts at 1. */
module History {
  import opened Wrappers
  import opened Types
  import opened Text
  import Decimal

  /** The most entries the ledger keeps. */
  const Capacity: nat := 100

  /** The number of entries a GET returns when it gives no limit. */
  const DefaultLimit: nat := 10

  /** The store (newest first) and the id the next insert receives. */
  datatype Ledger = Ledger(store: seq<QuizHistory>, nextId: nat)

  /** The ledger at process start. */
  function Init(): Ledger {
    Ledger([], 1)
  }

  /** The fields a POST body supplies; `title` may be missing. */
  datatype PostBody = PostBody(
    exam: string,
    chapter: string,
    title: Option<string>,
    total: int,
    correct: int,
    duration: int)

  /** `body.title || body.chapter`: the chapter stands in for a missing or
      empty title. */
  function TitleOf(body: PostBody): (t: string)
    ensures Present(body.title) ==> t == body.title.value
    ensures !Present(body.title) ==> t == body.chapter
  {
    if Present(body.title) then body.title.value else body.chapter
  }

  /** The entry a POST builds; `now` stands for `Date.now()`. */
  function MakeEntry(id: nat, body: PostBody, now: int): QuizHistory {
    QuizHistory(id, body.exam, body.chapter, TitleOf(body), body.total, body.correct, body.duration, now)
  }

  /** The ledger after a POST, and the entry the POST answers with. */
  datatype Posted = Posted(ledger: Ledger, entry: QuizHistory)

  /** `POST /api/history`: take the next id, put the entry in front,
      and drop the last entry once there are more than 100. */
  function Post(l: Ledger, body: PostBody, now: int): (r: Posted)
    ensures r.entry.id == l.nextId && r.ledger.nextId == l.nextId + 1
    ensures r.entry.exam == body.exam && r.entry.chapter == body.chapter
    ensures r.entry.total == body.total && r.entry.correct == body.correct
    ensures r.entry.duration == body.duration && r.entry.startedAt == now
    ensures r.entry.title == (if Present(body.title) then body.title.value else body.chapter)
    ensures |r.ledger.store| > 0 && r.ledger.store[0] == r.entry
    ensures |l.store| < Capacity ==> r.ledger.store[1..] == l.store
    ensures |l.store| >= Capacity ==>
      |r.ledger.store| == |l.store| && r.ledger.store[1..] == l.store[..|l.store| - 1]
    ensures |l.store| <= Capacity ==> |r.ledger.store| <= Capacity
  {
    var entry := MakeEntry(l.nextId, body, now);
    var grown := [entry] + l.store;
    var store := if |grown| > Capacity then grown[..|grown| - 1] else grown;
    Posted(Ledger(store, l.nextId + 1), entry)
  }

  /** Ids are strictly decreasing from the front, all below the counter,
      and the store is within capacity. */
  predicate Valid(l: Ledger) {
    && |l.store| <= Capacity
    && l.nextId >= 1
    && (forall i :: 0 <= i < |l.store| ==> l.store[i].id < l.nextId)
    && (forall i, j :: 0 <= i < j < |l.store| ==> l.store[i].id > l.store[j].id)
  }

  lemma InitValid()
    ensures Valid(Init())
  {
  }

  /** Every POST keeps the ledger valid: the new id exceeds all earlier ones. */
  lemma PostPreservesValid(l: Ledger, body: PostBody, now: int)
    requires Valid(l)
    ensures Valid(Post(l, body, now).ledger)
  {
    var r := Post(l, body, now);
    var s := r.ledger.store;
    forall i, j | 0 <= i < j < |s| ensures s[i].id > s[j].id {
      assert s[j] == l.store[j - 1];
      if i > 0 {
        assert s[i] == l.store[i - 1];
      }
    }
  }

  /** The ledger after a sequence of POSTs, each with its body and time. */
  function Replay(l: Ledger, posts: seq<(PostBody, int)>): Ledger
    decreases |posts|
  {
    if |posts| == 0 then l
    else
      var last := posts[|posts| - 1];
      Post(Replay(l, posts[..|posts| - 1]), last.0, last.1).ledger
  }

  function Min(a: nat, b: nat): nat {
    if a <= b then a else b
  }

  /** The ledger holds exactly the `min(k, 100)` most recent of the `k`
      POSTs, newest first, the `n`-th POST (counting from 1) having
      received id `n`, and the counter is past the last id. */
  predicate Recent(l: Ledger, posts: seq<(PostBody, int)>) {
    && l.nextId == |posts| + 1
    && |l.store| == Min(|posts|, Capacity)
    && forall j :: 0 <= j < |l.store| ==>
         l.store[j] == MakeEntry(|posts| - j, posts[|posts| - 1 - j].0, posts[|posts| - 1 - j].1)
  }

  /** After any sequence of POSTs from the start the ledger is `Recent`. */
  lemma {:induction false} ReplayKeepsRecent(posts: seq<(PostBody, int)>)
    ensures Recent(Replay(Init(), posts), posts)
    decreases |posts|
  {
    if |posts| > 0 {
      var prefix := posts[..|posts| - 1];
      ReplayKeepsRecent(prefix);
      RecentStep(Replay(Init(), prefix), posts);
    }
  }

  /** One more POST keeps the ledger `Recent`. */
  lemma RecentStep(before: Ledger, posts: seq<(PostBody, int)>)
    requires |posts| > 0 && Recent(before, posts[..|posts| - 1])
    ensures Recent(Post(before, posts[|posts| - 1].0, posts[|posts| - 1].1).ledger, posts)
  {
    var k := |posts|;
    var prefix := posts[..k - 1];
    var last := posts[k - 1];
    var after := Post(before, last.0, last.1).ledger;
    forall j | 0 <= j < |after.store|
      ensures after.store[j] == MakeEntry(k - j, posts[k - 1 - j].0, posts[k - 1 - j].1)
    {
      PostAt(before, last.0, last.1, j);
      if j > 0 {
        var i := j - 1;
        assert before.store[i] == MakeEntry(k - 1 - i, prefix[k - 2 - i].0, prefix[k - 2 - i].1);
        assert prefix[k - 2 - i] == posts[k - 1 - j];
      }
    }
  }

  /** A POST puts the new entry at the front and keeps the earlier entries
      behind it, in order. */
  lemma PostAt(l: Ledger, body: PostBody, now: int, j: nat)
    requires j < |Post(l, body, now).ledger.store|
    ensures Post(l, body, now).ledger.store[j] ==
      if j == 0 then MakeEntry(l.nextId, body, now) else l.store[j - 1]
  {
    var s := Post(l, body, now).ledger.store;
    if j > 0 {
      assert s[j] == s[1..][j - 1];
    }
  }

  /** A POST request as the route sees it: a JSON body it can read fields
      from, a body that is not JSON at all (reading it throws before the
      counter is touched), or the JSON value `null` (reading `body.exam`
      throws after `nextId++` has run). */
  datatype Request = Good(body: PostBody, now: int) | NotJson | NullBody

  /** The ledger after one request. A request that throws stores nothing,
      but a `null` body has already taken its id. */
  function Apply(l: Ledger, req: Request): (r: Ledger)
    ensures req.Good? ==> r == Post(l, req.body, req.now).ledger
    ensures req.NotJson? ==> r == l
    ensures req.NullBody? ==> r.store == l.store && r.nextId == l.nextId + 1
  {
    match req
    case Good(body, now) => Post(l, body, now).ledger
    case NotJson => l
    case NullBody => l.(nextId := l.nextId + 1)
  }

  /** The ledger after a sequence of requests. */
  function Run(l: Ledger, reqs: seq<Request>): Ledger
    decreases |reqs|
  {
    if |reqs| == 0 then l
    else Apply(Run(l, reqs[..|reqs| - 1]), reqs[|reqs| - 1])
  }

  /** How many of the requests took an id: the stored ones and the `null`
      bodies. */
  function Taken(reqs: seq<Request>): nat
    decreases |reqs|
  {
    if |reqs| == 0 then 0
    else Taken(reqs[..|reqs| - 1]) + (if reqs[|reqs| - 1].NotJson? then 0 else 1)
  }

  /** How many of the requests stored an entry. */
  function Stored(reqs: seq<Request>): nat
    decreases |reqs|
  {
    if |reqs| == 0 then 0
    else Stored(reqs[..|reqs| - 1]) + (if reqs[|reqs| - 1].Good? then 1 else 0)
  }

  /** Every request, failed or not, keeps the ledger valid. */
  lemma ApplyPreservesValid(l: Ledger, req: Request)
    requires Valid(l)
    ensures Valid(Apply(l, req))
  {
    if req.Good? {
      PostPreservesValid(l, req.body, req.now);
    }
  }

  /** After any mix of requests from the start, ids in the store are
      strictly decreasing and below the counter, the counter is one past
      the number of requests that took an id, and the store holds the
      `min(k, 100)` entries of the `k` stored POSTs. Ids are not the
      positions of the stored POSTs once a `null` body has taken one. */
  lemma {:induction false} RunKeepsValid(reqs: seq<Request>)
    ensures var l := Run(Init(), reqs);
      && Valid(l)
      && l.nextId == Taken(reqs) + 1
      && |l.store| == Min(Stored(reqs), Capacity)
    decreases |reqs|
  {
    if |reqs| > 0 {
      var prefix := reqs[..|reqs| - 1];
      RunKeepsValid(prefix);
      ApplyPreservesValid(Run(Init(), prefix), reqs[|reqs| - 1]);
    }
  }

  /** A `null` body followed by a good POST: the stored entry gets id 2,
      though it is the first entry ever stored. */
  lemma NullBodySkipsId(body: PostBody, now: int)
    ensures Run(Init(), [NullBody, Good(body, now)]).store == [MakeEntry(2, body, now)]
  {
    var reqs := [NullBody, Good(body, now)];
    assert reqs[..1] == [NullBody];
    assert [NullBody][..0] == [];
    var once := Run(Init(), [NullBody]);
    assert once == Apply(Init(), NullBody) == Ledger([], 2);
    assert Run(Init(), reqs) == Post(once, body, now).ledger;
  }

  /** `Array.prototype.slice(0, end)` for an end that may be NaN. */
  function SliceFront(s: seq<QuizHistory>, end: Option<int>): (r: seq<QuizHistory>)
    ensures |r| <= |s| && r == s[..|r|]
    ensures end.None? ==> r == []
    ensures end.Some? && end.value >= 0 ==> |r| == Min(end.value as nat, |s|)
    ensures end.Some? && end.value < 0 ==> |r| == if |s| + end.value >= 0 then |s| + end.value else 0
  {
    match end
    case None => []
    case Some(e) =>
      if e >= 0 then s[..Min(e as nat, |s|)]
      else if |s| + e >= 0 then s[..|s| + e]
      else []
  }

  /** The limit a GET uses: 10 when the parameter is missing or empty,
      otherwise `parseInt` of it (with no radix), which may be NaN. */
  function Limit(limit: Option<string>): (n: Option<int>)
    ensures !Present(limit) ==> n == Some(DefaultLimit as int)
    ensures Present(limit) ==> n == Decimal.ParseInt(limit.value, true)
  {
    if Present(limit) then Decimal.ParseInt(limit.value, true) else Some(DefaultLimit as int)
  }

  /** `GET /api/history?limit=`: the first entries of the store, in stored
      order. The store itself is left as it was. */
  function Get(l: Ledger, limit: Option<string>): (r: seq<QuizHistory>)
    ensures |r| <= |l.store| && r == l.store[..|r|]
    ensures !Present(limit) ==> |r| == Min(DefaultLimit, |l.store|)
    ensures Present(limit) && Decimal.ParseInt(limit.value, true).None? ==> r == []
  {
    SliceFront(l.store, Limit(limit))
  }

  /** A limit written as a non-negative decimal number `n` returns the
      first `min(n, size)` entries. */
  lemma GetWithLimit(l: Ledger, n: nat)
    ensures Get(l, Some(Decimal.NatToString(n))) == l.store[..Min(n, |l.store|)]
  {
    Decimal.ParseIntToString(n);
  }

  /** A non-numeric limit such as `abc` yields nothing (not the default). */
  lemma GetNonNumeric(l: Ledger)
    ensures Get(l, Some("abc")) == []
  {
    Decimal.TrimStartNoWhitespace("abc");
    assert Decimal.ParseUnsigned("abc", true) == Decimal.ParseDigits("abc", 10);
    assert Decimal.DigitRun("abc", 10) == 0;
    assert Decimal.ParseInt("abc", true) == None;
  }
}
