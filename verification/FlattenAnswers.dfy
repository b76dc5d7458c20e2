// The flatten loop of cpp/src/pmm/clob_submitter.cpp as the venue sees it: which answers count, which
// order ids are remembered, and what each order offers.
module FlattenAnswers {
  import opened Common
  import opened Flatten
  import Amounts
  import Trades

  // ---- answers that count ----

  /** A reply that is no match: what it states is what was intended. */
  predicate NoMatch(a: Answer) {
    match a
    case Reply(_, _, Some(body)) => Trades.Lower(body.status) != "matched" && Trades.Lower(body.status) != "delayed"
    case _ => true
  }

  lemma {:induction false} NothingCounted(answers: seq<Answer>, isBuy: bool, k: nat)
    requires k <= |answers| && forall i :: 0 <= i < |answers| ==> NoMatch(answers[i])
    ensures Matched(answers, isBuy, k) == 0.0
    decreases k
  {
    if k > 0 { NothingCounted(answers, isBuy, k - 1); }
  }

  /** If no reply is a match, whatever amounts the replies state, nothing is filled, no id is
      remembered, and a position of a share or more is not reported as flattened. */
  lemma UnmatchedSellsNothing(job: Job, size: real, answers: seq<Answer>)
    requires |answers| == 6 && size >= 1.0 && forall i :: 0 <= i < 6 ==> NoMatch(answers[i])
    ensures var o := Flat(job, size, answers);
            o.p.filled == 0.0 && o.p.remaining == size && o.p.noted == [] && !StatusOf(o).Flattened?
  {
    FlattenedIff(job, size, answers);
    NothingCounted(answers, job.isBuy, 6);
    var k := NotedExactly(job, size, answers);
    NoneIn(Flat(job, size, answers).p.noted);
  }

  lemma NoneIn(ids: seq<string>)
    ensures (forall id :: id !in ids) <==> ids == []
  {
    assert ids != [] ==> ids[0] in ids;
  }

  // ---- what is remembered ----

  predicate Names(a: Answer, id: string) {
    a.Reply? && a.body.Some? && a.body.value.orderId == Some(id)
  }

  predicate Nameless(a: Answer) {
    a.Reply? && a.body.Some? ==> a.body.value.orderId.None?
  }

  /** The order id last named among the first k answers; empty if none was. */
  ghost predicate LastNamed(answers: seq<Answer>, k: nat, id: string)
    requires k <= |answers|
  {
    || (id == "" && forall i :: 0 <= i < k ==> Nameless(answers[i]))
    || exists i :: 0 <= i < k && LastNamedAt(answers, i, k, id)
  }

  ghost predicate LastNamedAt(answers: seq<Answer>, i: nat, k: nat, id: string)
    requires i < k <= |answers|
  {
    Names(answers[i], id) && forall j :: i < j < k ==> Nameless(answers[j])
  }

  ghost predicate LastHttp(answers: seq<Answer>, k: nat, http: int)
    requires k <= |answers|
  {
    || (http == 0 && forall i :: 0 <= i < k ==> !answers[i].Reply?)
    || exists i :: 0 <= i < k && LastHttpAt(answers, i, k, http)
  }

  ghost predicate LastHttpAt(answers: seq<Answer>, i: nat, k: nat, http: int)
    requires i < k <= |answers|
  {
    answers[i].Reply? && answers[i].http == http && forall j :: i < j < k ==> !answers[j].Reply?
  }

  /** An id that some counting answer among the first k was booked under. */
  ghost predicate CountedUnder(answers: seq<Answer>, isBuy: bool, k: nat, id: string)
    requires k <= |answers|
  {
    id != "" && exists i :: 0 <= i < k && Counted(answers[i], isBuy) > 0.0 && LastNamed(answers, i + 1, id)
  }

  ghost predicate ToldAt(answers: seq<Answer>, isBuy: bool, k: nat, p: Progress)
    requires k <= |answers|
  {
    && LastNamed(answers, k, p.orderId) && LastHttp(answers, k, p.http)
    && forall id :: id in p.noted <==> CountedUnder(answers, isBuy, k, id)
  }

  lemma NamedNext(answers: seq<Answer>, k: nat, id: string)
    requires k < |answers| && LastNamed(answers, k, id)
    ensures LastNamed(answers, k + 1, OrderIdAfter(answers[k], id))
  {
    var id' := OrderIdAfter(answers[k], id);
    if !Nameless(answers[k]) {
      assert LastNamedAt(answers, k, k + 1, id');
    } else if i :| 0 <= i < k && LastNamedAt(answers, i, k, id) {
      assert LastNamedAt(answers, i, k + 1, id');
    }
  }

  lemma NamedAtOnce(answers: seq<Answer>, i: nat, k: nat, a: string, b: string)
    requires i < k <= |answers| && LastNamedAt(answers, i, k, a) && LastNamed(answers, k, b)
    ensures a == b
  {
    assert !Nameless(answers[i]);
    var j :| 0 <= j < k && LastNamedAt(answers, j, k, b);
    assert i == j;
  }

  lemma NamedOnce(answers: seq<Answer>, k: nat, a: string, b: string)
    requires k <= |answers| && LastNamed(answers, k, a) && LastNamed(answers, k, b)
    ensures a == b
  {
    if i :| 0 <= i < k && LastNamedAt(answers, i, k, a) {
      NamedAtOnce(answers, i, k, a, b);
    }
  }

  lemma HttpNext(answers: seq<Answer>, k: nat, http: int)
    requires k < |answers| && LastHttp(answers, k, http)
    ensures LastHttp(answers, k + 1, if answers[k].Reply? then answers[k].http else http)
  {
    if answers[k].Reply? {
      assert LastHttpAt(answers, k, k + 1, answers[k].http);
    } else if i :| 0 <= i < k && LastHttpAt(answers, i, k, http) {
      assert LastHttpAt(answers, i, k + 1, http);
    }
  }

  lemma CountedNext(answers: seq<Answer>, isBuy: bool, k: nat, id: string, last: string)
    requires k < |answers| && LastNamed(answers, k + 1, last)
    ensures CountedUnder(answers, isBuy, k + 1, id)
            <==> CountedUnder(answers, isBuy, k, id) || (id != "" && id == last && Counted(answers[k], isBuy) > 0.0)
  {
    if id != "" && Counted(answers[k], isBuy) > 0.0 && LastNamed(answers, k + 1, id) { NamedOnce(answers, k + 1, id, last); }
  }

  lemma ToldNext(job: Job, answers: seq<Answer>, k: nat, p: Progress)
    requires k < |answers| && ToldAt(answers, job.isBuy, k, p) && !answers[k].Abort?
    ensures ToldAt(answers, job.isBuy, k + 1, if answers[k].Reply? then After(job, answers[k], k + 1, p) else p)
  {
    var p' := if answers[k].Reply? then After(job, answers[k], k + 1, p) else p;
    NamedNext(answers, k, p.orderId);
    HttpNext(answers, k, p.http);
    CountedIs(answers[k], job.isBuy);
    forall id ensures id in p'.noted <==> CountedUnder(answers, job.isBuy, k + 1, id) {
      CountedNext(answers, job.isBuy, k, id, p'.orderId);
    }
  }

  lemma {:induction false} AttemptsTold(job: Job, size: real, answers: seq<Answer>, attempt: nat, p: Progress) returns (k: nat)
    requires attempt <= MAX_ATTEMPTS == |answers|
    requires AtAttempt(job, size, answers, attempt, p) && ToldAt(answers, job.isBuy, attempt, p)
    ensures k <= MAX_ATTEMPTS
    ensures var o := Attempts(job, answers, attempt, p);
            && AtAttempt(job, size, answers, k, o.p) && ToldAt(answers, job.isBuy, k, o.p)
            && (k == MAX_ATTEMPTS || o.p.remaining < 1.0 || answers[k].Abort?)
    decreases MAX_ATTEMPTS - attempt
  {
    if attempt == MAX_ATTEMPTS || p.remaining < 1.0 || answers[attempt].Abort? {
      k := attempt;
    } else {
      ToldNext(job, answers, attempt, p);
      CountedIs(answers[attempt], job.isBuy);
      k := AttemptsTold(job, size, answers, attempt + 1,
                        if answers[attempt].NoPrice? then p else After(job, answers[attempt], attempt + 1, p));
    }
  }

  /** The loop stops after some k answers: at six, when less than a share is left, or when it is cut
      short. What it filled is what those answers matched; the id and the http status it reports are
      the last they named; and the ids it remembers as its own are exactly those a match was booked
      under. */
  lemma NotedExactly(job: Job, size: real, answers: seq<Answer>) returns (k: nat)
    requires |answers| == 6
    ensures k <= 6
    ensures var p := Flat(job, size, answers).p;
            && (k == 6 || p.remaining < 1.0 || answers[k].Abort?)
            && p.filled == Matched(answers, job.isBuy, k) && p.filled + p.remaining == size
            && LastNamed(answers, k, p.orderId) && LastHttp(answers, k, p.http)
            && forall id :: id in p.noted <==> CountedUnder(answers, job.isBuy, k, id)
  {
    k := AttemptsTold(job, size, answers, 0, Start(size));
  }

  /** What a caller is told: success with what was filled, the last id and the last status; or what is
      left; or, when the loop was cut short, nothing. */
  lemma ToldExactly(job: Job, size: real, answers: seq<Answer>)
    requires |answers| == 6
    ensures var o := Flat(job, size, answers);
            && (StatusOf(o).Flattened? ==>
                  StatusOf(o).filled == o.p.filled && StatusOf(o).orderId == o.p.orderId && StatusOf(o).http == o.p.http)
            && (StatusOf(o).Partial? ==>
                  StatusOf(o).filled == o.p.filled && StatusOf(o).remaining == o.p.remaining && StatusOf(o).http == o.p.http)
            && (StatusOf(o).Failed? ==> exists k :: 0 <= k < 6 && answers[k].Abort?)
  {
    var k := AttemptsStop(job, size, answers, 0, Start(size));
  }

  // ---- what an order offers ----

  /** How many ticks each attempt gives away. */
  const LADDER: seq<int> := [2, 4, 6, 8, 8, 8]

  function Away(tick: real, attempt: nat): real
    requires 1 <= attempt <= 6
  {
    LADDER[attempt - 1] as real * tick
  }

  function Worth(shares: real, price: real): real {
    shares * price
  }

  lemma LimitExactly(job: Job, best: real, attempt: nat)
    requires 1 <= attempt <= 6
    ensures var away := Away(job.tick, attempt);
            LimitPrice(job, best, attempt) == if job.isBuy then Min(1.0 - job.tick, best + away) else Max(job.tick, best - away)
  {
    SweepIs(job.tick, attempt, LADDER[attempt - 1] as real);
  }

  lemma AmountsExactly(isBuy: bool, amount: real, px: real, rc: Amounts.RoundConfig)
    requires Amounts.Tabled(rc)
    ensures var a := Amounts.GetMarketOrderAmounts(isBuy, amount, px, rc);
            a.maker == 10000 * Amounts.Hundredths(amount) && a.side == if isBuy then 0 else 1
  {
    if isBuy {
      Amounts.MarketBuyBracket(amount, px, rc);
    } else {
      Amounts.MarketSellIsLimitSell(amount, px, rc);
      Amounts.SharesInMicros(amount, px, rc, 0.0);
    }
  }

  lemma AmountIs(job: Job, remaining: real, px: real)
    ensures AmountFor(job, remaining, px) == if job.isBuy then Worth(remaining, px) else remaining
  {}

  lemma OrderIs(job: Job, remaining: real, best: real, attempt: nat, px: real, amounts: Amounts.OrderAmounts)
    requires px == LimitPrice(job, best, attempt)
    requires amounts == Amounts.GetMarketOrderAmounts(job.isBuy, AmountFor(job, remaining, px), px, job.rc)
    ensures OrderFor(job, remaining, best, attempt) == Sent(attempt, remaining, px, amounts)
  {}

  /** The order an attempt sends: its limit is the price seen, worsened by the attempt's ticks but
      never beyond a tick from either end; a sale offers the shares that are left, a purchase the
      dollars they cost at the limit, both in whole hundredths, in millionths of a unit. */
  ghost predicate Offers(job: Job, remaining: real, best: real, attempt: nat, s: Sent)
    requires 1 <= attempt <= 6
  {
    && s.want == remaining && s.attempt == attempt
    && s.price == (if job.isBuy then Min(1.0 - job.tick, best + Away(job.tick, attempt)) else Max(job.tick, best - Away(job.tick, attempt)))
    && s.amounts.maker == 10000 * Amounts.Hundredths(if job.isBuy then Worth(remaining, s.price) else remaining)
    && s.amounts.side == (if job.isBuy then 0 else 1)
  }

  lemma OfferExactly(job: Job, remaining: real, best: real, attempt: nat)
    requires 1 <= attempt <= 6 && Amounts.Tabled(job.rc)
    ensures Offers(job, remaining, best, attempt, OrderFor(job, remaining, best, attempt))
  {
    var px := LimitPrice(job, best, attempt);
    var amounts := Amounts.GetMarketOrderAmounts(job.isBuy, AmountFor(job, remaining, px), px, job.rc);
    LimitExactly(job, best, attempt);
    AmountIs(job, remaining, px);
    AmountsExactly(job.isBuy, AmountFor(job, remaining, px), px, job.rc);
    OrderIs(job, remaining, best, attempt, px, amounts);
  }
}
