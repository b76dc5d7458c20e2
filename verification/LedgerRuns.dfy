// What every run of operations keeps for each row of the quote table.
module LedgerRuns {
  import opened Common
  import opened Quotes
  import opened QuoteLaws
  import opened Ledger
  import Q = QuoteRuns

  // ---- rows evolve by their own polls ----

  /** What a poll makes of row j, on its own. */
  function RowAfter(live: bool, l: Account, p: Poll, j: nat): MakerQuote
    requires j < |l.quotes|
  {
    if l.quotes[j].active then RowStep(live, l, p, j).q else l.quotes[j]
  }

  /** Polling all rows one after the other is polling each row alone: no row's step disturbs
      another's. */
  lemma {:induction false} RowsIndependent(live: bool, l: Account, p: Poll, k: nat)
    requires k <= |l.quotes|
    ensures var e := PollFrom(live, l, p, k);
            && |e.quotes| == |l.quotes| && e.crossingC == l.crossingC && e.chain == l.chain
            && (forall j :: 0 <= j < k ==> e.quotes[j] == l.quotes[j])
            && (forall j :: k <= j < |l.quotes| ==> e.quotes[j] == RowAfter(live, l, p, j))
    decreases |l.quotes| - k
  {
    if k < |l.quotes| {
      var l' := PollRow(live, l, p, k);
      RowsIndependent(live, l', p, k + 1);
      assert forall j :: k < j < |l.quotes| ==> l'.quotes[j] == l.quotes[j] && RowAfter(live, l', p, j) == RowAfter(live, l, p, j);
    }
  }

  /** What an operation is to row j: its own poll, a reconciliation, its own cancellation, or nothing. */
  function EventOf(cc: real, op: Op, j: nat, t: Terms): seq<Q.Event> {
    match op
    case PollOp(live, p) => [Q.Polled(live, cc, InputFor(p, j, t))]
    case ReconcileOp(seen) => [Q.Reconciled(seen)]
    case CancelOp(id) => if id == j + 1 then [Q.Dropped] else []
    case _ => []
  }

  function CrossingAfter(cc: real, op: Op): real {
    if op.CrossingOp? then op.cents else cc
  }

  function RowEvents(cc: real, ops: seq<Op>, j: nat, t: Terms): seq<Q.Event>
    decreases |ops|
  {
    if ops == [] then [] else EventOf(cc, ops[0], j, t) + RowEvents(CrossingAfter(cc, ops[0]), ops[1..], j, t)
  }

  /** Over every run of every operation a row goes through exactly the run of its own events. */
  lemma {:induction false} RowIsQuoteRun(l: Account, ops: seq<Op>, j: nat)
    requires j < |l.quotes|
    ensures j < |Run(l, ops).quotes|
    ensures Run(l, ops).quotes[j] == Q.QuoteRun(l.quotes[j], RowEvents(l.crossingC, ops, j, l.quotes[j].terms))
    decreases |ops|
  {
    if ops != [] {
      var op, q := ops[0], l.quotes[j];
      RowApplies(l, op, j);
      RowIsQuoteRun(Apply(l, op), ops[1..], j);
      FirstEvent(q, EventOf(l.crossingC, op, j, q.terms), RowEvents(CrossingAfter(l.crossingC, op), ops[1..], j, q.terms));
    }
  }

  lemma RowApplies(l: Account, op: Op, j: nat)
    requires j < |l.quotes|
    ensures var l', q := Apply(l, op), l.quotes[j];
            && j < |l'.quotes| && l'.quotes[j] == Q.QuoteRun(q, EventOf(l.crossingC, op, j, q.terms))
            && l'.quotes[j].terms == q.terms && l'.crossingC == CrossingAfter(l.crossingC, op)
  {
    match op
    case PollOp(live, p) =>
      RowsIndependent(live, l, p, 0);
      OneEvent(l.quotes[j], Q.Polled(live, l.crossingC, InputFor(p, j, l.quotes[j].terms)));
    case ReconcileOp(seen) => OneEvent(l.quotes[j], Q.Reconciled(seen));
    case CancelOp(_) => OneEvent(l.quotes[j], Q.Dropped);
    case _ =>
  }

  lemma OneEvent(q: MakerQuote, e: Q.Event)
    ensures Q.QuoteRun(q, [e]) == Q.After(q, e) && Q.After(q, e).terms == q.terms
  {
    assert [e][1..] == [];
    assert Q.QuoteRun(q, [e]) == Q.QuoteRun(Q.After(q, e), []);
    Q.AfterKeeps(q, e);
  }

  lemma FirstEvent(q: MakerQuote, first: seq<Q.Event>, rest: seq<Q.Event>)
    requires |first| <= 1
    ensures Q.QuoteRun(q, first + rest) == Q.QuoteRun(Q.QuoteRun(q, first), rest)
  {
    if first == [] {
      assert first + rest == rest;
    } else {
      assert first == [first[0]] && (first + rest)[1..] == rest;
      OneEvent(q, first[0]);
    }
  }

  // ---- nothing comes back ----

  /** Terms never change, and a row that has left never changes again. */
  ghost predicate Evolves(q: MakerQuote, later: MakerQuote) {
    later.terms == q.terms && (!q.active ==> later == q)
  }

  ghost predicate TableGrows(l: Account, later: Account) {
    && |l.quotes| <= |later.quotes|
    && forall k :: 0 <= k < |l.quotes| ==> Evolves(l.quotes[k], later.quotes[k])
  }

  lemma StepEvolves(live: bool, cc: real, q: MakerQuote, i: Input)
    ensures StepOf(live, cc, q, i).q.terms == q.terms
  {}

  lemma PollGrows(live: bool, l: Account, p: Poll)
    ensures TableGrows(l, PollFrom(live, l, p, 0))
  {
    RowsIndependent(live, l, p, 0);
    forall k | 0 <= k < |l.quotes| ensures Evolves(l.quotes[k], RowAfter(live, l, p, k)) {
      StepEvolves(live, l.crossingC, l.quotes[k], InputFor(p, k, l.quotes[k].terms));
    }
  }

  lemma ApplyGrows(l: Account, op: Op)
    ensures TableGrows(l, Apply(l, op))
  {
    match op
    case PollOp(live, p) => PollGrows(live, l, p);
    case _ =>
  }

  /** Over every run: ids stay valid, terms are fixed, and a quote that was cancelled or exited is
      frozen for good; so its capital, which only leaving releases, is released once. */
  lemma {:induction false} RunGrows(l: Account, ops: seq<Op>)
    ensures TableGrows(l, Run(l, ops))
    decreases |ops|
  {
    if ops != [] {
      ApplyGrows(l, ops[0]);
      RunGrows(Apply(l, ops[0]), ops[1..]);
    }
  }

  // ---- profit and loss is marked value less cost ----

  /** What a quote's applied fills came to: both legs, and what they cost. Shares that
      reconciliation finds or drops come and go at the last mid. */
  datatype Holdings = Holdings(yes: real, no: real, cost: real)

  const NOTHING := Holdings(0.0, 0.0, 0.0)

  /** The row's profit is the marked value less the cost; while it is active its inventories are
      the holdings, and afterwards the holdings are those it left with. */
  ghost predicate Kept(q: MakerQuote, h: Holdings) {
    && Books(q, h.yes, h.no, h.cost)
    && (q.active ==> q.inventory == h.yes && q.complementInventory == h.no)
  }

  function PolledHoldings(live: bool, l: Account, p: Poll, k: nat, h: Holdings): Holdings
    requires k < |l.quotes|
  {
    var i := InputFor(p, k, l.quotes[k].terms);
    var s := RowStep(live, l, p, k);
    if !live then Holdings(s.yes, s.no, h.cost + PaperCost(l.quotes[k], i))
    else if Applied(s) then Holdings(h.yes + NetShares(i.fills), h.no + NetShares(i.noFills), h.cost + InputCost(i))
    else h
  }

  function FoundHoldings(q: MakerQuote, fixed: MakerQuote, h: Holdings): Holdings {
    Holdings(fixed.inventory, fixed.complementInventory,
             h.cost + Value(fixed.inventory, fixed.complementInventory, q.lastMid)
                    - Value(q.inventory, q.complementInventory, q.lastMid))
  }

  function RowHoldings(l: Account, op: Op, k: nat, h: Holdings): Holdings
    requires k < |l.quotes|
  {
    var q := l.quotes[k];
    if !q.active then h
    else match op
      case PollOp(live, p) => PolledHoldings(live, l, p, k, h)
      case ReconcileOp(seen) => FoundHoldings(q, ReconcileRow(q, seen), h)
      case _ => h
  }

  function HoldStep(l: Account, op: Op, hs: seq<Holdings>): (r: seq<Holdings>)
    requires |hs| == |l.quotes|
    ensures |r| == |Apply(l, op).quotes|
    ensures forall k :: 0 <= k < |r| ==> r[k] == if k < |hs| then RowHoldings(l, op, k, hs[k]) else NOTHING
  {
    seq(|Apply(l, op).quotes|, k requires 0 <= k => if k < |hs| then RowHoldings(l, op, k, hs[k]) else NOTHING)
  }

  function HoldRun(l: Account, ops: seq<Op>, hs: seq<Holdings>): seq<Holdings>
    requires |hs| == |l.quotes|
    decreases |ops|
  {
    if ops == [] then hs else HoldRun(Apply(l, ops[0]), ops[1..], HoldStep(l, ops[0], hs))
  }

  ghost predicate AllKept(l: Account, hs: seq<Holdings>) {
    |hs| == |l.quotes| && forall k :: 0 <= k < |hs| ==> Kept(l.quotes[k], hs[k])
  }

  lemma PollRowKept(live: bool, l: Account, p: Poll, k: nat, h: Holdings)
    requires k < |l.quotes| && l.quotes[k].active && Kept(l.quotes[k], h)
    ensures Kept(RowStep(live, l, p, k).q, PolledHoldings(live, l, p, k, h))
  {
    var q := l.quotes[k];
    var i := InputFor(p, k, q.terms);
    if live {
      LiveMarks(l.crossingC, q, i, h.cost);
      LiveLegs(l.crossingC, q, i);
    } else {
      PaperMarks(l.crossingC, q, i, h.cost);
    }
  }

  lemma FoundKept(q: MakerQuote, yes: real, no: real, h: Holdings)
    requires q.active && Kept(q, h)
    ensures Kept(WithLegs(q, yes, no), FoundHoldings(q, WithLegs(q, yes, no), h))
  {}

  lemma ReconciledKept(q: MakerQuote, seen: map<string, real>, h: Holdings)
    requires q.active && Kept(q, h)
    ensures Kept(ReconcileRow(q, seen), FoundHoldings(q, ReconcileRow(q, seen), h))
  {
    if !Agrees(q, seen) { FoundKept(q, ChainLeg(seen, q.terms.tokenId), ChainNo(seen, q.terms), h); }
  }

  lemma RowKept(l: Account, op: Op, k: nat, h: Holdings)
    requires k < |l.quotes| && Kept(l.quotes[k], h)
    ensures k < |Apply(l, op).quotes| && Kept(Apply(l, op).quotes[k], RowHoldings(l, op, k, h))
  {
    var q := l.quotes[k];
    ApplyGrows(l, op);
    match op
    case PollOp(live, p) =>
      RowsIndependent(live, l, p, 0);
      if q.active { PollRowKept(live, l, p, k, h); }
    case ReconcileOp(seen) =>
      if q.active { ReconciledKept(q, seen, h); }
    case _ => OtherRowKept(l, op, k);
  }

  lemma OtherRowKept(l: Account, op: Op, k: nat)
    requires k < |l.quotes| && !op.PollOp? && !op.ReconcileOp?
    ensures k < |Apply(l, op).quotes|
    ensures Apply(l, op).quotes[k] == l.quotes[k] || Apply(l, op).quotes[k] == l.quotes[k].(active := false)
  {}

  lemma NewRowKept(l: Account, op: Op, k: nat)
    requires |l.quotes| <= k < |Apply(l, op).quotes|
    ensures Kept(Apply(l, op).quotes[k], NOTHING)
  {
    if op.PollOp? {
      RowsIndependent(op.live, l, op.poll, 0);
    } else {
      NewRowEmpty(l, op, k);
      ValueOfNothing(Apply(l, op).quotes[k].lastMid);
    }
  }

  lemma NewRowEmpty(l: Account, op: Op, k: nat)
    requires !op.PollOp? && |l.quotes| <= k < |Apply(l, op).quotes|
    ensures var q := Apply(l, op).quotes[k]; q.inventory == q.complementInventory == q.inventoryPnl == 0.0
  {}

  lemma ValueOfNothing(mid: real)
    ensures Value(0.0, 0.0, mid) == 0.0
  {}

  lemma StepKept(l: Account, op: Op, hs: seq<Holdings>)
    requires AllKept(l, hs)
    ensures AllKept(Apply(l, op), HoldStep(l, op, hs))
  {
    forall k | 0 <= k < |Apply(l, op).quotes| ensures Kept(Apply(l, op).quotes[k], HoldStep(l, op, hs)[k]) {
      if k < |hs| { RowKept(l, op, k, hs[k]); } else { NewRowKept(l, op, k); }
    }
  }

  /** Over every run of every operation, for every quote: inventory_pnl is exactly what its applied
      fills are worth at its last mid less what they cost, whatever path the mids took, in every
      branch, failed exits included. */
  lemma {:induction false} PnlTelescopes(l: Account, ops: seq<Op>, hs: seq<Holdings>)
    requires AllKept(l, hs)
    ensures AllKept(Run(l, ops), HoldRun(l, ops, hs))
    decreases |ops|
  {
    if ops != [] {
      StepKept(l, ops[0], hs);
      PnlTelescopes(Apply(l, ops[0]), ops[1..], HoldStep(l, ops[0], hs));
    }
  }

  // ---- reconciling with the chain ----

  /** Afterwards both legs of every active quote are within half a share of the chain, nothing but
      legs has changed, a quote that already agreed is untouched, and doing it again changes
      nothing. */
  lemma ReconcileSettles(quotes: seq<MakerQuote>, chain: map<string, real>)
    ensures var r := ReconcileRows(quotes, chain);
            && (forall k :: 0 <= k < |quotes| ==> r[k].active ==> Agrees(r[k], chain))
            && (forall k :: 0 <= k < |quotes| ==> r[k] == WithLegs(quotes[k], r[k].inventory, r[k].complementInventory))
            && (forall k :: 0 <= k < |quotes| ==> (r[k] != quotes[k] ==> quotes[k].active && !Agrees(quotes[k], chain)))
            && ReconcileRows(r, chain) == r && Disagreeing(r, chain) == 0
  {
    var r := ReconcileRows(quotes, chain);
    forall k | 0 <= k < |quotes| ensures r[k].active ==> Agrees(r[k], chain) { RowSettles(quotes[k], chain); }
    NoneDisagree(r, chain);
  }

  lemma RowSettles(q: MakerQuote, chain: map<string, real>)
    ensures var r := ReconcileRow(q, chain); (r.active ==> Agrees(r, chain)) && r == WithLegs(q, r.inventory, r.complementInventory)
  {}

  lemma {:induction false} NoneDisagree(quotes: seq<MakerQuote>, chain: map<string, real>)
    requires forall k :: 0 <= k < |quotes| ==> quotes[k].active ==> Agrees(quotes[k], chain)
    ensures Disagreeing(quotes, chain) == 0
    decreases |quotes|
  {
    if quotes != [] { NoneDisagree(quotes[..|quotes| - 1], chain); }
  }
}
