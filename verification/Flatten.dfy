// cpp/src/pmm/clob_submitter.cpp: selling (or buying back) a position with at most six
// fill-and-kill orders, counting only what the venue says it matched, and remembering the ids of
// those orders so that their fills are not read back as ours.
module Flatten {
  import opened Common
  import Trades
  import Amounts

  const MAX_ATTEMPTS := 6
  const KEPT_IDS := 500

  /** The parsed answer to an order; amounts that are absent or unreadable are 0. */
  datatype Body = Body(status: string, orderId: Option<string>, making: real, taking: real)

  /** What the venue does in one attempt: no price to be had; a price, but the order cannot be
      built or signed (an early return or an exception); or a price and an answer. */
  datatype Answer =
    | NoPrice
    | Abort
    | Reply(best: real, http: int, body: Option<Body>)

  datatype Job = Job(isBuy: bool, tick: real, rc: Amounts.RoundConfig)

  datatype Sent = Sent(attempt: nat, want: real, price: real, amounts: Amounts.OrderAmounts)

  datatype Progress = Progress(remaining: real, filled: real, orderId: string, http: int,
                               noted: seq<string>, sent: seq<Sent>)

  datatype Outcome = Outcome(aborted: bool, p: Progress)

  datatype Status =
    | Flattened(filled: real, orderId: string, http: int)
    | Partial(filled: real, remaining: real, http: int)
    | Failed

  function OrderFilledShares(b: Body, isBuy: bool): real {
    var st := Trades.Lower(b.status);
    if st != "matched" && st != "delayed" then 0.0 else if isBuy then b.taking else b.making
  }

  /** Shares an attempt takes off the position. */
  function Made(a: Answer, isBuy: bool): real {
    if a.Reply? && a.body.Some? then Max(0.0, OrderFilledShares(a.body.value, isBuy)) else 0.0
  }

  /** How deep an attempt is willing to go: two ticks, then four, up to eight. */
  function Sweep(tick: real, attempt: nat): real {
    Min(8.0, 2.0 * attempt as real) * tick
  }

  function LimitPrice(job: Job, best: real, attempt: nat): real {
    var sweep := Sweep(job.tick, attempt);
    if job.isBuy then Min(1.0 - job.tick, best + sweep) else Max(job.tick, best - sweep)
  }

  /** A purchase is stated in dollars, a sale in shares. */
  function AmountFor(job: Job, remaining: real, px: real): real {
    if job.isBuy then remaining * px else remaining
  }

  function OrderFor(job: Job, remaining: real, best: real, attempt: nat): Sent {
    var px := LimitPrice(job, best, attempt);
    Sent(attempt, remaining, px, Amounts.GetMarketOrderAmounts(job.isBuy, AmountFor(job, remaining, px), px, job.rc))
  }

  // ---- specification ----

  function OrderIdAfter(a: Answer, before: string): string {
    if a.Reply? && a.body.Some? && a.body.value.orderId.Some? then a.body.value.orderId.value else before
  }

  function After(job: Job, a: Answer, attempt: nat, p: Progress): Progress
    requires a.Reply?
  {
    var id, made := OrderIdAfter(a, p.orderId), Made(a, job.isBuy);
    Progress(p.remaining - made, p.filled + made, id, a.http,
             if made > 0.0 && id != "" then p.noted + [id] else p.noted,
             p.sent + [OrderFor(job, p.remaining, a.best, attempt)])
  }

  lemma AfterIs(job: Job, a: Answer, attempt: nat, p: Progress, id: string, made: real, order: Sent)
    requires a.Reply? && id == OrderIdAfter(a, p.orderId) && made == Made(a, job.isBuy)
    requires order == OrderFor(job, p.remaining, a.best, attempt)
    ensures After(job, a, attempt, p)
         == Progress(p.remaining - made, p.filled + made, id, a.http,
                     if made > 0.0 && id != "" then p.noted + [id] else p.noted, p.sent + [order])
  {}

  function Start(size: real): Progress {
    Progress(size, 0.0, "", 0, [], [])
  }

  function Attempts(job: Job, answers: seq<Answer>, attempt: nat, p: Progress): Outcome
    requires attempt <= MAX_ATTEMPTS == |answers|
    decreases MAX_ATTEMPTS - attempt
  {
    if attempt == MAX_ATTEMPTS || p.remaining < 1.0 then Outcome(false, p)
    else match answers[attempt]
      case Abort => Outcome(true, p)
      case NoPrice => Attempts(job, answers, attempt + 1, p)
      case Reply(_, _, _) => Attempts(job, answers, attempt + 1, After(job, answers[attempt], attempt + 1, p))
  }

  function StatusOf(o: Outcome): Status {
    if o.aborted then Failed
    else if o.p.remaining < 1.0 then Flattened(o.p.filled, o.p.orderId, o.p.http)
    else Partial(o.p.filled, o.p.remaining, o.p.http)
  }

  function Flat(job: Job, size: real, answers: seq<Answer>): Outcome
    requires |answers| == MAX_ATTEMPTS
  {
    Attempts(job, answers, 0, Start(size))
  }

  // ---- what a flatten promises ----

  /** What an answer really matched: of a reply that says matched or delayed, in any letter case, the
      shares taken by a purchase or made by a sale, if they are positive. Any other reply states what
      was intended. */
  function Counted(a: Answer, isBuy: bool): real {
    match a
    case Reply(_, _, Some(body)) =>
      var shares := if isBuy then body.taking else body.making;
      if Trades.Lower(body.status) in {"matched", "delayed"} && shares > 0.0 then shares else 0.0
    case _ => 0.0
  }

  lemma CountedIs(a: Answer, isBuy: bool)
    ensures Made(a, isBuy) == Counted(a, isBuy) >= 0.0
  {}

  /** Shares matched over the first k attempts. */
  function Matched(answers: seq<Answer>, isBuy: bool, k: nat): real
    requires k <= |answers|
  {
    if k == 0 then 0.0 else Matched(answers, isBuy, k - 1) + Counted(answers[k - 1], isBuy)
  }

  ghost predicate Unbroken(answers: seq<Answer>, k: nat)
    requires k <= |answers|
  {
    forall i :: 0 <= i < k ==> !answers[i].Abort?
  }

  /** The position is cleared after k attempts, none of which was cut short. */
  ghost predicate ClearedBy(answers: seq<Answer>, isBuy: bool, size: real, k: nat)
    requires k <= |answers|
  {
    Unbroken(answers, k) && size - Matched(answers, isBuy, k) < 1.0
  }

  ghost predicate AtAttempt(job: Job, size: real, answers: seq<Answer>, attempt: nat, p: Progress)
    requires attempt <= |answers|
  {
    && Unbroken(answers, attempt)
    && p.filled == Matched(answers, job.isBuy, attempt)
    && p.filled + p.remaining == size
    && |p.sent| <= attempt
  }

  lemma {:induction false} MatchedGrows(answers: seq<Answer>, isBuy: bool, j: nat, k: nat)
    requires j <= k <= |answers|
    ensures Matched(answers, isBuy, j) <= Matched(answers, isBuy, k)
    decreases k
  {
    if j < k {
      MatchedGrows(answers, isBuy, j, k - 1);
      CountedIs(answers[k - 1], isBuy);
    }
  }

  /** The loop from any point on: it has stopped at some attempt, for one of three reasons. */
  lemma {:induction false} AttemptsStop(job: Job, size: real, answers: seq<Answer>, attempt: nat, p: Progress) returns (k: nat)
    requires attempt <= MAX_ATTEMPTS == |answers| && AtAttempt(job, size, answers, attempt, p)
    ensures attempt <= k <= MAX_ATTEMPTS
    ensures var o := Attempts(job, answers, attempt, p);
            && AtAttempt(job, size, answers, k, o.p)
            && (o.aborted ==> k < MAX_ATTEMPTS && answers[k].Abort? && o.p.remaining >= 1.0)
            && (!o.aborted ==> k == MAX_ATTEMPTS || o.p.remaining < 1.0)
    decreases MAX_ATTEMPTS - attempt
  {
    if attempt == MAX_ATTEMPTS || p.remaining < 1.0 || answers[attempt].Abort? {
      k := attempt;
    } else if answers[attempt].NoPrice? {
      k := AttemptsStop(job, size, answers, attempt + 1, p);
    } else {
      CountedIs(answers[attempt], job.isBuy);
      k := AttemptsStop(job, size, answers, attempt + 1, After(job, answers[attempt], attempt + 1, p));
    }
  }

  /** Success is reported exactly when, within six attempts and before anything cuts the loop
      short, the venue has matched all but less than one share; every share reported as filled
      was matched, and filled plus remaining is the position. */
  lemma FlattenedIff(job: Job, size: real, answers: seq<Answer>)
    requires |answers| == MAX_ATTEMPTS
    ensures StatusOf(Flat(job, size, answers)).Flattened?
            <==> exists k :: 0 <= k <= 6 && ClearedBy(answers, job.isBuy, size, k)
    ensures var p := Flat(job, size, answers).p;
            && p.filled + p.remaining == size && 0.0 <= p.filled <= Matched(answers, job.isBuy, 6)
            && |p.sent| <= 6
    ensures StatusOf(Flat(job, size, answers)).Partial? ==>
              Unbroken(answers, 6) && Flat(job, size, answers).p.filled == Matched(answers, job.isBuy, 6)
  {
    var o := Flat(job, size, answers);
    var k := AttemptsStop(job, size, answers, 0, Start(size));
    MatchedGrows(answers, job.isBuy, 0, k);
    MatchedGrows(answers, job.isBuy, k, MAX_ATTEMPTS);
    if StatusOf(o).Flattened? {
      assert ClearedBy(answers, job.isBuy, size, k);
    } else {
      forall j | 0 <= j <= MAX_ATTEMPTS ensures !ClearedBy(answers, job.isBuy, size, j) {
        if j <= k {
          MatchedGrows(answers, job.isBuy, j, k);
        } else {
          assert o.aborted && answers[k].Abort?;
        }
      }
    }
  }

  /** A position under one share is acknowledged without any order being sent. */
  lemma DustIsAcknowledged(job: Job, size: real, answers: seq<Answer>)
    requires |answers| == MAX_ATTEMPTS
    ensures size < 1.0 ==> StatusOf(Flat(job, size, answers)) == Flattened(0.0, "", 0) && Flat(job, size, answers).p.sent == []
  {}

  // ---- the orders ----

  /** Each order carries what is left of the position, at a limit inside the ticks: a sale is
      never offered below one tick, a purchase never bid above a dollar less one tick. */
  ghost predicate Sane(job: Job, size: real, s: Sent) {
    && 1 <= s.attempt <= MAX_ATTEMPTS
    && 1.0 <= s.want <= size
    && (job.isBuy ==> s.price <= 1.0 - job.tick)
    && (!job.isBuy ==> job.tick <= s.price)
    && s.amounts == Amounts.GetMarketOrderAmounts(job.isBuy, AmountFor(job, s.want, s.price), s.price, job.rc)
  }

  ghost predicate AllSane(job: Job, size: real, sent: seq<Sent>) {
    && (forall i :: 0 <= i < |sent| ==> Sane(job, size, sent[i]))
    && (forall i, j :: 0 <= i < j < |sent| ==> sent[i].attempt < sent[j].attempt && sent[j].want <= sent[i].want)
  }

  /** And what the loop may still send: later attempts, for no more than was last sent. */
  ghost predicate Orderly(job: Job, size: real, sent: seq<Sent>, attempt: nat, remaining: real) {
    && AllSane(job, size, sent) && remaining <= size
    && (forall i :: 0 <= i < |sent| ==> sent[i].attempt <= attempt && remaining <= sent[i].want)
  }

  lemma OneMoreOrder(job: Job, size: real, sent: seq<Sent>, attempt: nat, remaining: real, best: real, left: real)
    requires Orderly(job, size, sent, attempt, remaining) && attempt < MAX_ATTEMPTS
    requires remaining >= 1.0 && left <= remaining
    ensures Orderly(job, size, sent + [OrderFor(job, remaining, best, attempt + 1)], attempt + 1, left)
  {
    OrderSane(job, size, remaining, best, attempt + 1);
  }

  lemma OrderSane(job: Job, size: real, remaining: real, best: real, attempt: nat)
    requires 1 <= attempt <= MAX_ATTEMPTS && 1.0 <= remaining <= size
    ensures var s := OrderFor(job, remaining, best, attempt);
            Sane(job, size, s) && s.attempt == attempt && s.want == remaining
  {}

  lemma {:induction false} OrdersSane(job: Job, size: real, answers: seq<Answer>, attempt: nat, p: Progress)
    requires attempt <= MAX_ATTEMPTS == |answers| && Orderly(job, size, p.sent, attempt, p.remaining)
    ensures AllSane(job, size, Attempts(job, answers, attempt, p).p.sent)
    decreases MAX_ATTEMPTS - attempt
  {
    if attempt == MAX_ATTEMPTS || p.remaining < 1.0 || answers[attempt].Abort? {
    } else if answers[attempt].NoPrice? {
      OrdersSane(job, size, answers, attempt + 1, p);
    } else {
      var next := After(job, answers[attempt], attempt + 1, p);
      OneMoreOrder(job, size, p.sent, attempt, p.remaining, answers[attempt].best, next.remaining);
      OrdersSane(job, size, answers, attempt + 1, next);
    }
  }

  /** For every run of the loop: at most six orders, in order, each for no more than the one
      before, every one with a limit inside the ticks. */
  lemma FlattenOrdersSane(job: Job, size: real, answers: seq<Answer>)
    requires |answers| == MAX_ATTEMPTS
    ensures AllSane(job, size, Flat(job, size, answers).p.sent) && |Flat(job, size, answers).p.sent| <= MAX_ATTEMPTS
  {
    OrdersSane(job, size, answers, 0, Start(size));
    FlattenedIff(job, size, answers);
  }

  /** How far a limit is willing to go from the price seen. */
  function Concession(job: Job, best: real, attempt: nat): real {
    if job.isBuy then LimitPrice(job, best, attempt) - best else best - LimitPrice(job, best, attempt)
  }

  /** Against one and the same price, later attempts never concede less, none concedes more than
      eight ticks, and from the fourth on they concede all they ever will. */
  lemma LadderDeepens(job: Job, best: real, a: nat, b: nat)
    requires job.tick >= 0.0 && 1 <= a <= b
    ensures Concession(job, best, a) <= Concession(job, best, b) <= 8.0 * job.tick
    ensures Concession(job, best, 1) <= 2.0 * job.tick
    ensures 4 <= a ==> Concession(job, best, a) == Concession(job, best, b)
  {
    SweepGrows(job.tick, a, b);
    SweepGrows(job.tick, 1, a);
  }

  lemma SweepGrows(tick: real, a: nat, b: nat)
    requires tick >= 0.0 && 1 <= a <= b
    ensures Sweep(tick, a) <= Sweep(tick, b) <= 8.0 * tick
    ensures Sweep(tick, 1) == 2.0 * tick
    ensures 4 <= a ==> Sweep(tick, a) == Sweep(tick, b) == 8.0 * tick
  {
    SweepRises(tick, a, b);
    SweepBounded(tick, b);
    SweepIs(tick, 1, 2.0);
    if 4 <= a {
      SweepIs(tick, a, 8.0);
      SweepIs(tick, b, 8.0);
    }
  }

  lemma SweepRises(tick: real, a: nat, b: nat)
    requires tick >= 0.0 && a <= b
    ensures Sweep(tick, a) <= Sweep(tick, b)
  {
    SweepIs(tick, a, Steps(a));
    SweepIs(tick, b, Steps(b));
    ScaleMono(Steps(a), Steps(b), tick);
  }

  lemma SweepBounded(tick: real, b: nat)
    requires tick >= 0.0
    ensures Sweep(tick, b) <= 8.0 * tick
  {
    SweepIs(tick, b, Steps(b));
    ScaleMono(Steps(b), 8.0, tick);
  }

  function Scaled(x: real, tick: real): real {
    x * tick
  }

  /** How many ticks deep. */
  function Steps(attempt: nat): real {
    Min(8.0, 2.0 * attempt as real)
  }

  lemma SweepIs(tick: real, attempt: nat, x: real)
    requires x == Steps(attempt)
    ensures Sweep(tick, attempt) == Scaled(x, tick)
  {}

  lemma ScaleMono(x: real, y: real, tick: real)
    requires 0.0 <= tick && x <= y
    ensures Scaled(x, tick) <= Scaled(y, tick)
  {
    MulMono(tick, x, y);
  }

  /** A venue that never matches more of a sale than the order offered, in millionths. */
  ghost predicate Honest(job: Job, answers: seq<Answer>, attempt: nat, p: Progress)
    requires attempt <= MAX_ATTEMPTS == |answers|
    decreases MAX_ATTEMPTS - attempt
  {
    attempt == MAX_ATTEMPTS || p.remaining < 1.0 || answers[attempt].Abort? ||
    if answers[attempt].NoPrice? then Honest(job, answers, attempt + 1, p)
    else
      && Made(answers[attempt], job.isBuy)
         <= OrderFor(job, p.remaining, answers[attempt].best, attempt + 1).amounts.maker as real / 1000000.0
      && Honest(job, answers, attempt + 1, After(job, answers[attempt], attempt + 1, p))
  }

  /** Over all its orders together a sale never sells more than the position, up to the tolerance
      of one rounding. */
  lemma {:induction false} NeverOversells(job: Job, answers: seq<Answer>, attempt: nat, p: Progress)
    requires attempt <= MAX_ATTEMPTS == |answers| && Amounts.Tabled(job.rc)
    requires !job.isBuy && p.remaining >= -0.00000001 && Honest(job, answers, attempt, p)
    ensures Attempts(job, answers, attempt, p).p.remaining >= -0.00000001
    decreases MAX_ATTEMPTS - attempt
  {
    if attempt == MAX_ATTEMPTS || p.remaining < 1.0 || answers[attempt].Abort? {
    } else if answers[attempt].NoPrice? {
      NeverOversells(job, answers, attempt + 1, p);
    } else {
      SaleOffers(job, p.remaining, answers[attempt].best, attempt + 1);
      NeverOversells(job, answers, attempt + 1, After(job, answers[attempt], attempt + 1, p));
    }
  }

  /** From the start: what a sale fills is at most the position, up to that tolerance. */
  lemma SaleWithinPosition(job: Job, size: real, answers: seq<Answer>)
    requires |answers| == MAX_ATTEMPTS && Amounts.Tabled(job.rc) && !job.isBuy && size >= 0.0
    requires Honest(job, answers, 0, Start(size))
    ensures Flat(job, size, answers).p.filled <= size + 0.00000001
  {
    NeverOversells(job, answers, 0, Start(size));
    FlattenedIff(job, size, answers);
  }

  lemma SaleOffers(job: Job, remaining: real, best: real, attempt: nat)
    requires Amounts.Tabled(job.rc) && !job.isBuy
    ensures OrderFor(job, remaining, best, attempt).amounts.maker as real / 1000000.0 <= remaining + 0.00000001
  {
    var px, j := LimitPrice(job, best, attempt), Amounts.Hundredths(remaining);
    Amounts.MarketSellIsLimitSell(remaining, px, job.rc);
    Amounts.SharesInMicros(remaining, px, job.rc, 0.0);
    Amounts.HundredthsIff(j, remaining);
  }

  // ---- our own order ids ----

  /** The set the trade reader consults and the queue that bounds it. */
  datatype Ids = Ids(known: set<string>, fifo: seq<string>)

  function Note(s: Ids, id: string): Ids {
    var fifo := s.fifo + [id];
    if |fifo| > KEPT_IDS then Ids((s.known + {id}) - {fifo[0]}, fifo[1..]) else Ids(s.known + {id}, fifo)
  }

  function NoteAll(s: Ids, ids: seq<string>): Ids
    decreases |ids|
  {
    if ids == [] then s else NoteAll(Note(s, ids[0]), ids[1..])
  }

  lemma {:induction false} NoteAllOneMore(s: Ids, ids: seq<string>, id: string)
    ensures NoteAll(s, ids + [id]) == Note(NoteAll(s, ids), id)
    decreases |ids|
  {
    if ids == [] {
      assert ([id])[1..] == [];
    } else {
      assert (ids + [id])[1..] == ids[1..] + [id];
      NoteAllOneMore(Note(s, ids[0]), ids[1..], id);
    }
  }

  function Elements(fifo: seq<string>): set<string> {
    set x | x in fifo
  }

  /** The queue is bounded and every known id is still in it. */
  ghost predicate Bounded(s: Ids) {
    |s.fifo| <= 500 && s.known <= Elements(s.fifo)
  }

  lemma NoteKeeps(s: Ids, id: string)
    requires Bounded(s)
    ensures Bounded(Note(s, id))
  {
    var fifo := s.fifo + [id];
    forall x | x in Note(s, id).known ensures x in Note(s, id).fifo {
      assert x in fifo;
      if |fifo| > KEPT_IDS {
        var i :| 0 <= i < |fifo| && fifo[i] == x;
        assert x == fifo[1..][i - 1];
      }
    }
  }

  lemma {:induction false} NoteAllKeeps(s: Ids, ids: seq<string>)
    requires Bounded(s)
    ensures Bounded(NoteAll(s, ids))
    decreases |ids|
  {
    if ids != [] {
      NoteKeeps(s, ids[0]);
      NoteAllKeeps(Note(s, ids[0]), ids[1..]);
    }
  }

  lemma CardinalityOfElements(fifo: seq<string>)
    ensures |Elements(fifo)| <= |fifo|
  {
    if fifo != [] {
      CardinalityOfElements(fifo[1..]);
      assert Elements(fifo) == {fifo[0]} + Elements(fifo[1..]);
    }
  }

  /** So the set never holds more than the queue's bound. */
  lemma KnownIsSmall(s: Ids)
    requires Bounded(s)
    ensures |s.known| <= 500
  {
    CardinalityOfElements(s.fifo);
    SubsetIsSmaller(s.known, Elements(s.fifo));
  }

  lemma SubsetIsSmaller(a: set<string>, b: set<string>)
    requires a <= b
    ensures |a| <= |b|
  {
    if a != {} {
      var x :| x in a;
      SubsetIsSmaller(a - {x}, b - {x});
    }
  }

  /** Noting an id forgets one that is still wanted exactly when the queue is full and the id it
      drops is queued a second time; an order id seen once is never lost that way. */
  lemma NoteExactIff(s: Ids, id: string)
    requires |s.fifo| <= 500 && s.known == Elements(s.fifo)
    ensures Note(s, id).known == Elements(Note(s, id).fifo)
            <==> (|s.fifo| == 500 ==> (s.fifo + [id])[0] !in (s.fifo + [id])[1..])
  {
    var fifo := s.fifo + [id];
    assert Elements(fifo) == s.known + {id};
    assert Elements(fifo) == {fifo[0]} + Elements(fifo[1..]);
  }

  // ---- the submitter ----

  class Flattener {
    var known: set<string>
    var fifo: seq<string>

    function State(): Ids
      reads this
    {
      Ids(known, fifo)
    }

    constructor ()
      ensures State() == Ids({}, [])
    {
      known, fifo := {}, [];
    }

    method NoteId(id: string)
      modifies this
      ensures State() == Note(old(State()), id)
    {
      known := known + {id};
      fifo := fifo + [id];
      if |fifo| > KEPT_IDS {
        known := known - {fifo[0]};
        fifo := fifo[1..];
      }
    }

    method Run(job: Job, size: real, answers: seq<Answer>) returns (status: Status, sent: seq<Sent>)
      requires |answers| == MAX_ATTEMPTS
      modifies this
      ensures status == StatusOf(Flat(job, size, answers))
      ensures sent == Flat(job, size, answers).p.sent
      ensures State() == NoteAll(old(State()), Flat(job, size, answers).p.noted)
    {
      var remaining, filled, orderId, http := size, 0.0, "", 0;
      ghost var noted: seq<string> := [];
      sent := [];
      var attempt := 1;
      while attempt <= MAX_ATTEMPTS && remaining >= 1.0
        invariant 1 <= attempt <= MAX_ATTEMPTS + 1
        invariant Attempts(job, answers, attempt - 1, Progress(remaining, filled, orderId, http, noted, sent))
               == Flat(job, size, answers)
        invariant State() == NoteAll(old(State()), noted)
      {
        ghost var before := Progress(remaining, filled, orderId, http, noted, sent);
        var a := answers[attempt - 1];
        if a.Abort? { return Failed, sent; }
        if a.NoPrice? {
          attempt := attempt + 1;
          continue;
        }
        var order := OrderFor(job, remaining, a.best, attempt);
        sent := sent + [order];
        http := a.http;
        var made := 0.0;
        if a.body.Some? {
          if a.body.value.orderId.Some? { orderId := a.body.value.orderId.value; }
          made := OrderFilledShares(a.body.value, job.isBuy);
        }
        AfterIs(job, a, attempt, before, orderId, Max(0.0, made), order);
        if made > 0.0 {
          filled := filled + made;
          remaining := remaining - made;
          if orderId != "" {
            NoteAllOneMore(old(State()), noted, orderId);
            noted := noted + [orderId];
            NoteId(orderId);
          }
        }
        assert Progress(remaining, filled, orderId, http, noted, sent) == After(job, a, attempt, before);
        attempt := attempt + 1;
      }
      status := if remaining < 1.0 then Flattened(filled, orderId, http) else Partial(filled, remaining, http);
    }
  }
}
