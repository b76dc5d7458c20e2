// One quote over a run of polls, reconciliations and cancellations: what it holds for real against
// what is recorded, and when it can leave the books.
module QuoteRuns {
  import opened Common
  import opened Orderbook
  import opened Quotes
  import opened QuoteLaws
  import Flatten
  import Amounts
  import L = Ledger

  /** What can happen to a quote: a poll, at the crossing cost of the time; a reconciliation with a
      chain reading; a caller's cancellation. */
  datatype Event =
    | Polled(live: bool, cc: real, i: Input)
    | Reconciled(seen: map<string, real>)
    | Dropped

  function EventStep(q: MakerQuote, e: Event): Step
    requires e.Polled?
  {
    StepOf(e.live, e.cc, q, e.i)
  }

  /** Once it has left, everything passes it by. */
  function After(q: MakerQuote, e: Event): MakerQuote {
    if !q.active then q
    else match e
      case Polled(_, _, _) => EventStep(q, e).q
      case Reconciled(seen) => L.ReconcileRow(q, seen)
      case Dropped => q.(active := false)
  }

  function QuoteRun(q: MakerQuote, events: seq<Event>): MakerQuote
    decreases |events|
  {
    if events == [] then q else QuoteRun(After(q, events[0]), events[1..])
  }

  lemma AfterKeeps(q: MakerQuote, e: Event)
    ensures After(q, e).terms == q.terms && (!q.active ==> After(q, e) == q)
  {}

  // ---- recorded inventory covers the real holding ----

  /** Shares really held through this quote: its applied fills less what flattening sold. */
  datatype Holding = Holding(yes: real, no: real)

  datatype Sales = Sales(yes: real, no: real)

  /** Some run of the flatten loop acknowledged (or not) and sold this much. */
  ghost predicate FlattenedBy(size: real, ack: bool, sold: real) {
    exists job: Flatten.Job, answers: seq<Flatten.Answer> ::
      |answers| == Flatten.MAX_ATTEMPTS && FlattenRun(job, answers, size, ack, sold)
  }

  ghost predicate FlattenRun(job: Flatten.Job, answers: seq<Flatten.Answer>, size: real, ack: bool, sold: real)
    requires |answers| == Flatten.MAX_ATTEMPTS
  {
    && ack == Flatten.StatusOf(Flatten.Flat(job, size, answers)).Flattened?
    && sold == Flatten.Flat(job, size, answers).p.filled
  }

  /** What a run of the flatten loop can do, see FlattenOutcomes. */
  predicate CanSell(size: real, ack: bool, sold: real) {
    sold >= 0.0 && (size < 1.0 ==> sold == 0.0) && (ack <==> size - sold < 1.0)
  }

  /** One reply that matches this much, and nothing after it. */
  function OneReply(sold: real): seq<Flatten.Answer> {
    [Flatten.Reply(0.0, 200, Some(Flatten.Body("matched", None, sold, 0.0))),
     Flatten.Abort, Flatten.Abort, Flatten.Abort, Flatten.Abort, Flatten.Abort]
  }

  lemma ReplyMakes(sold: real)
    requires 0.0 <= sold
    ensures Flatten.Made(OneReply(sold)[0], false) == sold
  {
    assert Flatten.Trades.Lower("matched") == "matched";
  }

  lemma OneReplySells(size: real, ack: bool, sold: real)
    requires CanSell(size, ack, sold)
    ensures FlattenedBy(size, ack, sold)
  {
    var job, answers := Flatten.Job(false, 0.0, Amounts.RoundConfig(2, 2, 4)), OneReply(sold);
    ReplyMakes(sold);
    Flatten.DustIsAcknowledged(job, size, answers);
    assert FlattenRun(job, answers, size, ack, sold);
  }

  lemma RunsCanSell(size: real, ack: bool, sold: real)
    requires FlattenedBy(size, ack, sold)
    ensures CanSell(size, ack, sold)
  {
    var job, answers :| |answers| == Flatten.MAX_ATTEMPTS && FlattenRun(job, answers, size, ack, sold);
    Flatten.FlattenedIff(job, size, answers);
    Flatten.DustIsAcknowledged(job, size, answers);
    var k := Flatten.AttemptsStop(job, size, answers, 0, Flatten.Start(size));
  }

  /** Over all jobs and all answers, a flatten of a share or more can end with any amount matched, one
      of less matches nothing; and it is acknowledged exactly when less than a share is left. */
  lemma FlattenOutcomes(size: real, ack: bool, sold: real)
    ensures FlattenedBy(size, ack, sold) <==> CanSell(size, ack, sold)
  {
    if FlattenedBy(size, ack, sold) { RunsCanSell(size, ack, sold); }
    if CanSell(size, ack, sold) { OneReplySells(size, ack, sold); }
  }

  /** A leg is sold only by flattening what was asked, and never beyond what is held. */
  predicate LegSold(held: real, asked: real, ack: bool, sold: real) {
    if Abs(asked) < NEGLIGIBLE then sold == 0.0 else CanSell(Abs(asked), ack, sold) && sold <= held
  }

  function HeldAfterFills(h: Holding, s: Step, i: Input): Holding {
    if Applied(s) then Holding(h.yes + NetShares(i.fills), h.no + NetShares(i.noFills)) else h
  }

  predicate SalesFit(q: MakerQuote, h: Holding, s: Step, i: Input, v: Sales) {
    var now := HeldAfterFills(h, s, i);
    if s.branch.Ended? || s.branch.Filled? then
      && LegSold(now.yes, s.yes, i.acks.flatYes, v.yes)
      && (if q.terms.complementId == "" then v.no == 0.0 else LegSold(now.no, s.no, i.acks.flatNo, v.no))
    else v == Sales(0.0, 0.0)
  }

  function HeldAfter(h: Holding, s: Step, i: Input, v: Sales): Holding {
    var now := HeldAfterFills(h, s, i);
    Holding(now.yes - v.yes, now.no - v.no)
  }

  /** Both legs only buy, and a quote without a NO token has no NO fills. */
  ghost predicate BuysOnly(fills: seq<RealFill>) {
    forall f :: f in fills ==> Sign(f) == 1.0 && f.size >= 0.0
  }

  ghost predicate LegInputs(q: MakerQuote, i: Input) {
    BuysOnly(i.fills) && BuysOnly(i.noFills) && (q.terms.complementId == "" ==> i.noFills == [])
  }

  /** Each leg is really held for less than a share more than is recorded, and while the quote is
      active for no more; both up to a slack, which is zero until a chain reading sets it. */
  ghost predicate Covered(q: MakerQuote, h: Holding, slack: real) {
    && slack >= 0.0 && LegInside(q.active, h.yes, q.inventory, slack) && LegInside(q.active, h.no, q.complementInventory, slack)
    && (q.terms.complementId == "" ==> q.complementInventory == 0.0)
  }

  predicate LegInside(active: bool, held: real, recorded: real, slack: real) {
    0.0 <= held < recorded + 1.0 + slack && 0.0 <= recorded && (active ==> held <= recorded + slack)
  }

  lemma {:induction false} BuysAdd(fills: seq<RealFill>)
    requires BuysOnly(fills)
    ensures NetShares(fills) >= 0.0
  {
    if fills != [] {
      var f := fills[|fills| - 1];
      assert f in fills;
      BuysAdd(fills[..|fills| - 1]);
    }
  }

  lemma LegCovered(held: real, recorded: real, ack: bool, sold: real, slack: real)
    requires 0.0 <= held <= recorded + slack && 0.0 <= recorded && LegSold(held, recorded, ack, sold)
    ensures 0.0 <= held - sold <= recorded + slack
    ensures recorded < NEGLIGIBLE || ack ==> held - sold < 1.0 + slack
  {}

  /** One poll keeps the cover, in every branch, acknowledged or not. A partly successful flatten
      sells some and records all: the record errs on the safe side. */
  lemma StepCovers(cc: real, q: MakerQuote, h: Holding, i: Input, v: Sales, slack: real)
    requires q.active && Covered(q, h, slack) && LegInputs(q, i)
    requires SalesFit(q, h, LiveStep(cc, q, i), i, v)
    ensures Covered(LiveStep(cc, q, i).q, HeldAfter(h, LiveStep(cc, q, i), i, v), slack)
  {
    var s := LiveStep(cc, q, i);
    LiveLegs(cc, q, i);
    ExitMeansDone(cc, q, i);
    SameTerms(true, cc, q, i);
    BuysAdd(i.fills);
    BuysAdd(i.noFills);
    var now := HeldAfterFills(h, s, i);
    assert 0.0 <= now.yes <= s.yes + slack && 0.0 <= now.no <= s.no + slack;
    if s.branch.Ended? || s.branch.Filled? {
      LegCovered(now.yes, s.yes, i.acks.flatYes, v.yes, slack);
      if q.terms.complementId != "" { LegCovered(now.no, s.no, i.acks.flatNo, v.no, slack); }
    } else {
      DriftDropsDust(cc, q, i);
    }
  }

  lemma SameTerms(live: bool, cc: real, q: MakerQuote, i: Input)
    ensures StepOf(live, cc, q, i).q.terms == q.terms
    ensures !q.active ==> !StepOf(live, cc, q, i).q.active
  {}

  // ---- cover over runs ----

  function HeldOver(q: MakerQuote, h: Holding, e: Event, v: Sales): Holding {
    if e.Polled? && q.active then HeldAfter(h, LiveStep(e.cc, q, e.i), e.i, v) else h
  }

  /** A chain reading that shows what the quote holds. */
  predicate Shows(q: MakerQuote, h: Holding, seen: map<string, real>) {
    L.ChainLeg(seen, q.terms.tokenId) == h.yes && L.ChainNo(seen, q.terms) == h.no
  }

  /** Polls are live, their fills only buy, and their sales are what flattening can sell; a chain
      reading used to reconcile shows what the quote holds. */
  ghost predicate Fits(q: MakerQuote, h: Holding, e: Event, v: Sales) {
    !q.active ||
    match e
    case Polled(live, cc, i) => live && LegInputs(q, i) && SalesFit(q, h, LiveStep(cc, q, i), i, v)
    case Reconciled(seen) => Shows(q, h, seen)
    case Dropped => true
  }

  /** Reconciling leaves differences under half a share alone. */
  function SlackAfter(e: Event, slack: real): real {
    if e.Reconciled? then Max(slack, 0.5) else slack
  }

  lemma ReconcileCovers(q: MakerQuote, h: Holding, seen: map<string, real>, slack: real)
    requires Covered(q, h, slack) && (q.active ==> Shows(q, h, seen))
    ensures Covered(L.ReconcileRow(q, seen), h, Max(slack, 0.5))
  {}

  /** Whatever happens to a quote, it stays covered; after a reconciliation to within half a share. */
  lemma EventCovers(q: MakerQuote, h: Holding, e: Event, v: Sales, slack: real)
    requires Covered(q, h, slack) && Fits(q, h, e, v)
    ensures Covered(After(q, e), HeldOver(q, h, e, v), SlackAfter(e, slack))
  {
    match e
    case Polled(_, cc, i) => if q.active { StepCovers(cc, q, h, i, v, slack); }
    case Reconciled(seen) => ReconcileCovers(q, h, seen, slack);
    case Dropped =>
  }

  function HeldRun(q: MakerQuote, h: Holding, events: seq<Event>, sales: seq<Sales>): Holding
    requires |events| == |sales|
    decreases |events|
  {
    if events == [] then h else HeldRun(After(q, events[0]), HeldOver(q, h, events[0], sales[0]), events[1..], sales[1..])
  }

  ghost predicate AllFit(q: MakerQuote, h: Holding, events: seq<Event>, sales: seq<Sales>)
    requires |events| == |sales|
    decreases |events|
  {
    events == [] ||
    (&& Fits(q, h, events[0], sales[0])
     && AllFit(After(q, events[0]), HeldOver(q, h, events[0], sales[0]), events[1..], sales[1..]))
  }

  function SlackOver(events: seq<Event>, slack: real): real
    decreases |events|
  {
    if events == [] then slack else SlackOver(events[1..], SlackAfter(events[0], slack))
  }

  /** Over any run, with any fills, failures, partial flattens, retries, reconciliations and
      cancellations: each leg is really held for at most what is recorded while the quote is active,
      and for less than a share more once it has left; half a share wider after a reconciliation. */
  lemma {:induction false} RunCovers(q: MakerQuote, h: Holding, events: seq<Event>, sales: seq<Sales>, slack: real)
    requires |events| == |sales| && Covered(q, h, slack) && AllFit(q, h, events, sales)
    ensures Covered(QuoteRun(q, events), HeldRun(q, h, events, sales), SlackOver(events, slack))
    decreases |events|
  {
    if events != [] {
      var e, v := events[0], sales[0];
      EventCovers(q, h, e, v, slack);
      RunCovers(After(q, e), HeldOver(q, h, e, v), events[1..], sales[1..], SlackAfter(e, slack));
    }
  }

  /** Starting without slack, there is none until the first reconciliation. */
  lemma {:induction false} SlackIs(events: seq<Event>, slack: real)
    requires 0.0 <= slack <= 0.5
    ensures SlackOver(events, slack) == if exists e :: e in events && e.Reconciled? then 0.5 else slack
    decreases |events|
  {
    if events != [] {
      assert forall e :: e in events <==> e == events[0] || e in events[1..];
      SlackIs(events[1..], SlackAfter(events[0], slack));
    }
  }

  // ---- a partly sold leg is never let go ----

  /** A leg of which at least a share less is held than recorded. */
  predicate LegShort(held: real, recorded: real) {
    held <= recorded - 1.0
  }

  ghost predicate Stuck(q: MakerQuote, h: Holding) {
    && q.active && 0.0 <= h.yes && 0.0 <= h.no
    && (LegShort(h.yes, q.inventory) || (q.terms.complementId != "" && LegShort(h.no, q.complementInventory)))
  }

  /** No acknowledgement can come for a short leg: it would need more sold than is held. */
  lemma ShortLegNotAcknowledged(held: real, asked: real, ack: bool, sold: real)
    requires 0.0 <= held && LegShort(held, asked) && LegSold(held, asked, ack, sold)
    ensures !ack && Abs(asked) >= NEGLIGIBLE && LegShort(held - sold, asked)
  {}

  lemma StuckStep(cc: real, q: MakerQuote, h: Holding, i: Input, v: Sales)
    requires Stuck(q, h) && LegInputs(q, i) && SalesFit(q, h, LiveStep(cc, q, i), i, v)
    ensures Stuck(LiveStep(cc, q, i).q, HeldAfter(h, LiveStep(cc, q, i), i, v))
  {
    var s := LiveStep(cc, q, i);
    var now := HeldAfterFills(h, s, i);
    LiveLegs(cc, q, i);
    ExitMeansDone(cc, q, i);
    SameTerms(true, cc, q, i);
    BuysAdd(i.fills);
    BuysAdd(i.noFills);
    ShortIsExposed(cc, q, h, i);
    if s.branch.Ended? || s.branch.Filled? {
      if LegShort(h.yes, q.inventory) {
        ShortLegNotAcknowledged(now.yes, s.yes, i.acks.flatYes, v.yes);
      } else {
        ShortLegNotAcknowledged(now.no, s.no, i.acks.flatNo, v.no);
      }
    }
  }

  lemma ShortIsExposed(cc: real, q: MakerQuote, h: Holding, i: Input)
    requires Stuck(q, h)
    ensures var s := LiveStep(cc, q, i); s.branch.Ended? || s.branch.Filled? || s.branch.Unread?
  {
    assert Exposed(q, i);
  }

  ghost predicate OnlyPolls(events: seq<Event>) {
    forall e :: e in events ==> e.Polled?
  }

  /** Once a flatten has sold a share or more of a leg without clearing it, the full amount stays
      recorded, every retry asks for more than is held, and no run of polls takes the quote off the
      books: its capital stays committed until somebody cancels it or reconciles it. */
  lemma {:induction false} StuckRun(q: MakerQuote, h: Holding, events: seq<Event>, sales: seq<Sales>)
    requires |events| == |sales| && Stuck(q, h) && OnlyPolls(events) && AllFit(q, h, events, sales)
    ensures Stuck(QuoteRun(q, events), HeldRun(q, h, events, sales))
    decreases |events|
  {
    if events != [] {
      var e, v := events[0], sales[0];
      assert e in events;
      StuckStep(e.cc, q, h, e.i, v);
      StuckRun(After(q, e), HeldOver(q, h, e, v), events[1..], sales[1..]);
    }
  }

  // ---- and any other can be ----

  /** A leg that is not short can be sold with an acknowledgement. */
  lemma LegCanBeSold(held: real, recorded: real) returns (sold: real)
    requires 0.0 <= held && 0.0 <= recorded && !LegShort(held, recorded)
    ensures LegSold(held, recorded, true, sold)
  {
    sold := if recorded < 1.0 then 0.0 else Min(held, recorded);
  }

  const PAID_OUT := Input(0.0, Read(true, None, false, 0.0, 0.0), [], [], Acks(true, true, true, true), 0, false)

  /** A run of live polls after which the quote has left. */
  ghost predicate LeavesBy(q: MakerQuote, h: Holding, events: seq<Event>, sales: seq<Sales>) {
    |events| == |sales| && OnlyPolls(events) && AllFit(q, h, events, sales) && !QuoteRun(q, events).active
  }

  /** What a poll that finds the pool gone does. */
  lemma EndedPoll(cc: real, q: MakerQuote, i: Input)
    requires q.active && PoolEnded(i.read)
    ensures var s := LiveStep(cc, q, i);
            && s.branch.Ended? && Applied(s)
            && s.yes == q.inventory + NetShares(i.fills) && s.no == q.complementInventory + NetShares(i.noFills)
            && (!s.q.active <==> Done(q.terms, i.acks, s.yes, s.no))
  {
    LiveLegs(cc, q, i);
    ExitMeansDone(cc, q, i);
  }

  /** One poll that finds the pool gone, no fills, and everything acknowledged. */
  lemma PaidOut(cc: real, q: MakerQuote, h: Holding, slack: real) returns (v: Sales)
    requires q.active && Covered(q, h, slack) && !Stuck(q, h)
    ensures LeavesBy(q, h, [Polled(true, cc, PAID_OUT)], [v])
  {
    var yes := LegCanBeSold(h.yes, q.inventory);
    var no := 0.0;
    if q.terms.complementId != "" { no := LegCanBeSold(h.no, q.complementInventory); }
    v := Sales(yes, no);
    EndedSales(cc, q, h, PAID_OUT, v);
    EndedPoll(cc, q, PAID_OUT);
    OnePoll(cc, q, h, PAID_OUT, v);
  }

  lemma OnePoll(cc: real, q: MakerQuote, h: Holding, i: Input, v: Sales)
    requires q.active && LegInputs(q, i) && SalesFit(q, h, LiveStep(cc, q, i), i, v) && !LiveStep(cc, q, i).q.active
    ensures LeavesBy(q, h, [Polled(true, cc, i)], [v])
  {
    var e := Polled(true, cc, i);
    assert Fits(q, h, e, v) && [e][1..] == [] && [v][1..] == [];
    assert QuoteRun(q, [e]) == QuoteRun(After(q, e), []);
    assert AllFit(After(q, e), HeldOver(q, h, e, v), [], []);
  }

  /** A quote can be taken off the books by polls alone if and only if no leg is short. */
  lemma LeavesIff(q: MakerQuote, h: Holding, slack: real)
    requires q.active && Covered(q, h, slack)
    ensures (exists events, sales :: LeavesBy(q, h, events, sales)) <==> !Stuck(q, h)
  {
    if Stuck(q, h) {
      forall events, sales | LeavesBy(q, h, events, sales) ensures false { StuckRun(q, h, events, sales); }
    } else {
      var v := PaidOut(0.0, q, h, slack);
    }
  }

  /** The remedy: a reconciliation with a chain that shows the holding leaves no leg short, so the
      quote can be taken off again. */
  lemma ReconcileFrees(q: MakerQuote, h: Holding, seen: map<string, real>, slack: real)
    requires q.active && Covered(q, h, slack) && Shows(q, h, seen)
    ensures var r := After(q, Reconciled(seen));
            r.active && !Stuck(r, h) && exists events, sales :: LeavesBy(r, h, events, sales)
  {
    ReconcileCovers(q, h, seen, slack);
    LeavesIff(After(q, Reconciled(seen)), h, Max(slack, 0.5));
  }

  /** How a quote gets stuck: a poll that sells a share or more of a leg and does not leave. */
  lemma PartialSaleSticks(cc: real, q: MakerQuote, h: Holding, i: Input, v: Sales, slack: real)
    requires q.active && Covered(q, h, slack) && LegInputs(q, i) && SalesFit(q, h, LiveStep(cc, q, i), i, v)
    requires LiveStep(cc, q, i).q.active && (v.yes >= 1.0 + slack || v.no >= 1.0 + slack)
    ensures Stuck(LiveStep(cc, q, i).q, HeldAfter(h, LiveStep(cc, q, i), i, v))
  {
    StepCovers(cc, q, h, i, v, slack);
    LiveLegs(cc, q, i);
    SameTerms(true, cc, q, i);
    BuysAdd(i.fills);
    BuysAdd(i.noFills);
  }

  /** It can happen to every quote at every poll: the pool ends, some YES has just been bought, and
      only a part of it finds a taker. */
  lemma AnyQuoteCanStick(cc: real, q: MakerQuote, h: Holding, slack: real) returns (i: Input, v: Sales)
    requires q.active && Covered(q, h, slack)
    ensures LegInputs(q, i) && SalesFit(q, h, LiveStep(cc, q, i), i, v)
    ensures LiveStep(cc, q, i).q.active && Stuck(LiveStep(cc, q, i).q, HeldAfter(h, LiveStep(cc, q, i), i, v))
  {
    i := PAID_OUT.(fills := [RealFill("BUY", 2.0 + slack, 0.0)], acks := Acks(true, true, false, q.complementInventory < 1.0));
    v := Sales(1.0 + slack, 0.0);
    PartialSaleFits(cc, q, h, i, slack);
    PartialSaleSticks(cc, q, h, i, v, slack);
  }

  /** The pool ends, a little more than two YES have just been bought, and no acknowledgement comes
      for what is worth flattening. */
  predicate PartlySold(q: MakerQuote, i: Input, slack: real) {
    && PoolEnded(i.read) && i.noFills == []
    && |i.fills| == 1 && i.fills[0].side == "BUY" && i.fills[0].size == 2.0 + slack
    && !i.acks.flatYes && i.acks.flatNo == (q.complementInventory < 1.0)
  }

  lemma PartialSaleFits(cc: real, q: MakerQuote, h: Holding, i: Input, slack: real)
    requires q.active && Covered(q, h, slack) && PartlySold(q, i, slack)
    ensures LegInputs(q, i) && LiveStep(cc, q, i).q.active
    ensures SalesFit(q, h, LiveStep(cc, q, i), i, Sales(1.0 + slack, 0.0))
  {
    var bought := i.fills[0].size;
    OneBuy(i.fills[0]);
    assert i.fills == [i.fills[0]];
    assert LegSold(h.yes + bought, q.inventory + bought, false, 1.0 + slack);
    EndedSales(cc, q, h, i, Sales(1.0 + slack, 0.0));
    EndedPoll(cc, q, i);
  }

  /** What sales a poll that finds the pool gone allows. */
  lemma EndedSales(cc: real, q: MakerQuote, h: Holding, i: Input, v: Sales)
    requires q.active && PoolEnded(i.read) && i.noFills == []
    requires LegSold(h.yes + NetShares(i.fills), q.inventory + NetShares(i.fills), i.acks.flatYes, v.yes)
    requires if q.terms.complementId == "" then v.no == 0.0 else LegSold(h.no, q.complementInventory, i.acks.flatNo, v.no)
    ensures SalesFit(q, h, LiveStep(cc, q, i), i, v)
  {
    EndedPoll(cc, q, i);
  }

  lemma OneBuy(f: RealFill)
    requires f.side == "BUY" && f.size >= 0.0
    ensures BuysOnly([f]) && NetShares([f]) == f.size
  {
    assert Flatten.Trades.Lower("BUY") == "buy";
    assert [f][..0] == [];
  }
}
