// What the runs of one quote say about every row of the quote table: the seconds it is credited,
// the holding its record covers, and when it can be taken off the books.
module LedgerCover {
  import opened Common
  import opened Quotes
  import opened QuoteLaws
  import opened QuoteRuns
  import opened QuoteSeconds
  import opened Ledger
  import opened LedgerRuns

  // ---- seconds and rewards of a row ----

  /** What happens to row j over a run of the table. */
  function EventsAt(l: Account, ops: seq<Op>, j: nat): seq<Event>
    requires j < |l.quotes|
  {
    RowEvents(l.crossingC, ops, j, l.quotes[j].terms)
  }

  /** The seconds an operation credits to row j. */
  function OpSeconds(l: Account, op: Op, j: nat): real
    requires j < |l.quotes|
  {
    if op.PollOp? && l.quotes[j].active then RowStep(op.live, l, op.poll, j).seconds else 0.0
  }

  function RowSeconds(l: Account, ops: seq<Op>, j: nat): real
    decreases |ops|
  {
    if ops == [] || j >= |l.quotes| then 0.0
    else OpSeconds(l, ops[0], j) + RowSeconds(Apply(l, ops[0]), ops[1..], j)
  }

  lemma FirstSeconds(q: MakerQuote, first: seq<Event>, rest: seq<Event>)
    requires |first| <= 1
    ensures Seconds(q, first + rest)
         == (if first == [] then 0.0 else EventSeconds(q, first[0])) + Seconds(QuoteRun(q, first), rest)
  {
    if first == [] {
      assert first + rest == rest;
    } else {
      assert first == [first[0]] && (first + rest)[1..] == rest;
      OneEvent(q, first[0]);
    }
  }

  /** The seconds credited to a row over any run are those of the run of its own events. */
  lemma {:induction false} RowSecondsAreSeconds(l: Account, ops: seq<Op>, j: nat)
    requires j < |l.quotes|
    ensures RowSeconds(l, ops, j) == Seconds(l.quotes[j], EventsAt(l, ops, j))
    decreases |ops|
  {
    if ops != [] {
      var op, q := ops[0], l.quotes[j];
      var first := EventOf(l.crossingC, op, j, q.terms);
      RowApplies(l, op, j);
      RowSecondsAreSeconds(Apply(l, op), ops[1..], j);
      FirstSeconds(q, first, EventsAt(Apply(l, op), ops[1..], j));
      assert OpSeconds(l, op, j) == if first == [] then 0.0 else EventSeconds(q, first[0]);
    }
  }

  /** Over every run of every operation, with a clock that does not run backwards, every row is
      credited at most the elapsed time and half a microsecond a poll, and paid at most what the
      whole pool pays for that; with readings that are never rounded down, the elapsed time alone. */
  lemma RowRewarded(l: Account, ops: seq<Op>, j: nat, t0: real, end: real, daily: real)
    requires j < |l.quotes| && l.quotes[j].lastAccrued == RoundMicro(t0)
    requires Monotone(EventsAt(l, ops, j), t0, end) && PoolsPayAtMost(l.quotes[j], EventsAt(l, ops, j), daily)
    ensures j < |Run(l, ops).quotes|
    ensures var n, credited := Polls(EventsAt(l, ops, j)), RowSeconds(l, ops, j);
            && 0.0 <= credited <= end - t0 + 0.0000005 * n as real
            && Run(l, ops).quotes[j].accrued <= l.quotes[j].accrued + Payment(daily, credited)
    ensures RoundMicro(t0) >= t0 && StoredWithin(EventsAt(l, ops, j), 0.0) ==>
              && RowSeconds(l, ops, j) <= end - t0
              && Run(l, ops).quotes[j].accrued <= l.quotes[j].accrued + Payment(daily, end - t0)
  {
    var q, events := l.quotes[j], EventsAt(l, ops, j);
    RowIsQuoteRun(l, ops, j);
    RowSecondsAreSeconds(l, ops, j);
    AtMostHalfAMicroPerPoll(q, events, t0, end);
    RewardsWithinPool(q, events, daily);
    if RoundMicro(t0) >= t0 && StoredWithin(events, 0.0) { NoSecondTwice(q, events, t0, end, daily); }
  }

  /** And exactly, with any clock: a row is credited more than the time to its last mark if and only
      if what its stored times were rounded down by comes to more than what was cut off. */
  lemma RowSecondsExact(l: Account, ops: seq<Op>, j: nat, t0: real)
    requires j < |l.quotes| && l.quotes[j].lastAccrued == RoundMicro(t0)
    ensures var q, events := l.quotes[j], EventsAt(l, ops, j);
            && RowSeconds(l, ops, j) == LastMark(q, events, t0) - t0 + Slipped(q, events, t0) - Cut(q, events, t0)
            && (RowSeconds(l, ops, j) > LastMark(q, events, t0) - t0 <==> Slipped(q, events, t0) > Cut(q, events, t0))
  {
    RowSecondsAreSeconds(l, ops, j);
    SecondsExact(l.quotes[j], EventsAt(l, ops, j), t0);
  }

  // ---- the holding a row covers ----

  /** Over every run of live polls, placements, cancellations, reconciliations, capital and chain news,
      the row's record covers what it really holds. */
  lemma RowCovered(l: Account, ops: seq<Op>, j: nat, h: Holding, sales: seq<Sales>, slack: real)
    requires j < |l.quotes| && Covered(l.quotes[j], h, slack) && |sales| == |EventsAt(l, ops, j)|
    requires AllFit(l.quotes[j], h, EventsAt(l, ops, j), sales)
    ensures j < |Run(l, ops).quotes|
    ensures var events := EventsAt(l, ops, j);
            Covered(Run(l, ops).quotes[j], HeldRun(l.quotes[j], h, events, sales), SlackOver(events, slack))
  {
    RowIsQuoteRun(l, ops, j);
    RunCovers(l.quotes[j], h, EventsAt(l, ops, j), sales, slack);
  }

  /** A quote starts covered, holding nothing, with no slack. */
  lemma PlacedCovered(l: Account, op: Op, j: nat)
    requires |l.quotes| <= j < |Apply(l, op).quotes|
    ensures Covered(Apply(l, op).quotes[j], Holding(0.0, 0.0), 0.0)
  {
    if op.PollOp? { RowsIndependent(op.live, l, op.poll, 0); } else { NewRowEmpty(l, op, j); }
  }

  // ---- stuck rows ----

  /** Operations that neither reconcile nor cancel the row. */
  ghost predicate HandsOff(ops: seq<Op>, j: nat) {
    forall op :: op in ops ==> !op.ReconcileOp? && op != CancelOp(j + 1)
  }

  lemma {:induction false} HandsOffPolls(cc: real, ops: seq<Op>, j: nat, t: Terms)
    requires HandsOff(ops, j)
    ensures OnlyPolls(RowEvents(cc, ops, j, t))
    decreases |ops|
  {
    if ops != [] {
      var op := ops[0];
      assert op in ops;
      HandsOffPolls(CrossingAfter(cc, op), ops[1..], j, t);
      assert OnlyPolls(EventOf(cc, op, j, t));
    }
  }

  /** Over any live run without a reconciliation and without its own cancellation, a row with a
      partly sold leg stays active, its capital committed. */
  lemma RowStuck(l: Account, ops: seq<Op>, j: nat, h: Holding, sales: seq<Sales>)
    requires j < |l.quotes| && HandsOff(ops, j) && Stuck(l.quotes[j], h)
    requires |sales| == |EventsAt(l, ops, j)| && AllFit(l.quotes[j], h, EventsAt(l, ops, j), sales)
    ensures j < |Run(l, ops).quotes| && Run(l, ops).quotes[j].active
    ensures CommittedOf(Run(l, ops).quotes[j]) == l.quotes[j].terms.committed
  {
    RowIsQuoteRun(l, ops, j);
    HandsOffPolls(l.crossingC, ops, j, l.quotes[j].terms);
    StuckRun(l.quotes[j], h, EventsAt(l, ops, j), sales);
    RunGrows(l, ops);
  }

  /** Operations on the table after which row j has left, though nobody reconciled or cancelled it. */
  ghost predicate RowLeavesBy(l: Account, ops: seq<Op>, j: nat, h: Holding, sales: seq<Sales>)
    requires j < |l.quotes|
  {
    && HandsOff(ops, j) && |sales| == |EventsAt(l, ops, j)| && AllFit(l.quotes[j], h, EventsAt(l, ops, j), sales)
    && j < |Run(l, ops).quotes| && !Run(l, ops).quotes[j].active
  }

  /** A poll of the table that is PAID_OUT for row j. */
  function PaidOutPoll(j: nat): Poll {
    Poll(0.0, seq(j + 1, k requires 0 <= k => PAID_OUT.read), seq(j + 1, k requires 0 <= k => PAID_OUT.acks), map[], 0, {})
  }

  lemma PaidOutEvents(l: Account, j: nat)
    requires j < |l.quotes|
    ensures EventsAt(l, [PollOp(true, PaidOutPoll(j))], j) == [Polled(true, l.crossingC, PAID_OUT)]
  {
    var op, t := PollOp(true, PaidOutPoll(j)), l.quotes[j].terms;
    PaidOutInput(j, t);
    assert [op][1..] == [] && RowEvents(CrossingAfter(l.crossingC, op), [], j, t) == [];
    assert EventOf(l.crossingC, op, j, t) == [Polled(true, l.crossingC, PAID_OUT)];
  }

  lemma PaidOutInput(j: nat, t: Terms)
    ensures InputFor(PaidOutPoll(j), j, t) == PAID_OUT
  {
    assert FillsOf(PaidOutPoll(j), t.tokenId) == FillsOf(PaidOutPoll(j), t.complementId) == [];
  }

  lemma RowPaidOut(l: Account, j: nat, h: Holding, slack: real) returns (ops: seq<Op>, sales: seq<Sales>)
    requires j < |l.quotes| && l.quotes[j].active && Covered(l.quotes[j], h, slack) && !Stuck(l.quotes[j], h)
    ensures RowLeavesBy(l, ops, j, h, sales)
  {
    var v := PaidOut(l.crossingC, l.quotes[j], h, slack);
    ops, sales := [PollOp(true, PaidOutPoll(j))], [v];
    PaidOutEvents(l, j);
    RowIsQuoteRun(l, ops, j);
  }

  /** A row can be taken off the books without a reconciliation or a cancellation if and only if
      none of its legs is short. */
  lemma RowLeavesIff(l: Account, j: nat, h: Holding, slack: real)
    requires j < |l.quotes| && l.quotes[j].active && Covered(l.quotes[j], h, slack)
    ensures (exists ops, sales :: RowLeavesBy(l, ops, j, h, sales)) <==> !Stuck(l.quotes[j], h)
  {
    if Stuck(l.quotes[j], h) {
      forall ops, sales | RowLeavesBy(l, ops, j, h, sales) ensures false { RowStuck(l, ops, j, h, sales); }
    } else {
      var ops, sales := RowPaidOut(l, j, h, slack);
    }
  }
}
