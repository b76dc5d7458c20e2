// cpp/src/pmm/engine.cpp over cpp/src/pmm/db.cpp: the account and the table of quotes, as values.
// Row k of the table is the quote with id k + 1; rows are never removed.
module Ledger {
  import opened Common
  import opened Quotes
  import O = Orderbook

  const MIN_ORDER_USD := 1.0

  datatype Account = Account(cash: real, quotes: seq<MakerQuote>, crossingC: real, chain: map<string, real>)

  // ---- placing ----

  /** A placement: what the market and the pool answered, and what the caller asked for. */
  datatype Request = Request(
    outcomeOk: bool, closed: bool, pool: Option<Pool>, tokenId: string, complementId: string, mid: real,
    size: Option<real>, halfSpreadC: Option<real>, cancelEfficiency: real, maxInventory: Option<real>, skew: real,
    now: real)

  datatype PlaceError =
    | InvalidOutcome | MarketClosed | NotInProgram | BelowMinSize | BadHalfSpread | BadCancelEfficiency
    | NegativeSkew | BadMaxInventory | NoMidpoint | LegTooSmall | InsufficientBalance

  datatype Placed =
    | Rejected(error: PlaceError)
    | Booked(id: int)
    | SkippedHolding(id: int)
    | RolledBack(id: int)

  function OrElse(o: Option<real>, d: real): real {
    if o.Some? then o.value else d
  }

  function TermsFor(r: Request, pool: Pool): Terms {
    var size := OrElse(r.size, pool.minSize);
    var half := OrElse(r.halfSpreadC, pool.tick * 100.0);
    Terms(r.tokenId, r.complementId, size, half, pool.maxSpread, pool.tick, r.cancelEfficiency,
          OrElse(r.maxInventory, CAP_MULT * size), r.skew, r.mid, O.CommittedCapital(size, half))
  }

  function MinLeg(t: Terms): real {
    t.size * Min(t.entryMid - t.halfSpreadC / 100.0, 1.0 - t.entryMid - t.halfSpreadC / 100.0)
  }

  /** The first objection, in the order they are raised. */
  function Objection(cash: real, r: Request): Option<PlaceError> {
    if !r.outcomeOk then Some(InvalidOutcome)
    else if r.closed then Some(MarketClosed)
    else if r.pool.None? then Some(NotInProgram)
    else
      var t := TermsFor(r, r.pool.value);
      if t.size < r.pool.value.minSize then Some(BelowMinSize)
      else if t.halfSpreadC <= 0.0 || t.halfSpreadC > t.maxSpreadC then Some(BadHalfSpread)
      else if !(0.0 <= t.cancelEfficiency <= 1.0) then Some(BadCancelEfficiency)
      else if t.skew < 0.0 then Some(NegativeSkew)
      else if t.maxInventory <= 0.0 then Some(BadMaxInventory)
      else if !(0.0 < t.entryMid < 1.0) then Some(NoMidpoint)
      else if MinLeg(t) < MIN_ORDER_USD then Some(LegTooSmall)
      else if t.committed > cash then Some(InsufficientBalance)
      else None
  }

  function Opened(t: Terms, now: real): MakerQuote {
    MakerQuote(t, 0.0, 0.0, 0.0, 0.0, 0.0, 0, t.entryMid, RoundMicro(now), true)
  }

  function Book(l: Account, r: Request): Account
    requires Objection(l.cash, r).None?
  {
    var t := TermsFor(r, r.pool.value);
    l.(cash := l.cash - t.committed, quotes := l.quotes + [Opened(t, r.now)])
  }

  datatype Outcome = Outcome(ledger: Account, placed: Placed)

  function Place(l: Account, r: Request): Outcome {
    var o := Objection(l.cash, r);
    if o.Some? then Outcome(l, Rejected(o.value)) else Outcome(Book(l, r), Booked(|l.quotes| + 1))
  }

  predicate HoldsOnChain(l: Account, token: string) {
    token != "" && token in l.chain && Abs(l.chain[token]) >= 1.0
  }

  function Live(r: Request): Request {
    r.(cancelEfficiency := 0.0)
  }

  /** The guard against quoting a pool that is still held comes after the booking, and leaves it
      booked; only a refusal by the venue rolls back. */
  function PlaceLive(l: Account, r: Request, accepted: bool): Outcome {
    var o := Place(l, Live(r));
    if o.placed.Rejected? then o
    else if HoldsOnChain(l, r.tokenId) || HoldsOnChain(l, r.complementId) then o.(placed := SkippedHolding(o.placed.id))
    else if accepted then o
    else Outcome(Cancel(o.ledger, o.placed.id), RolledBack(o.placed.id))
  }

  // ---- cancelling, capital, chain ----

  predicate ActiveId(l: Account, id: int) {
    1 <= id <= |l.quotes| && l.quotes[id - 1].active
  }

  function Cancel(l: Account, id: int): Account {
    if ActiveId(l, id) then
      var q := l.quotes[id - 1];
      l.(cash := l.cash + q.terms.committed, quotes := l.quotes[id - 1 := q.(active := false)])
    else l
  }

  function Sum(f: MakerQuote -> real, quotes: seq<MakerQuote>): real {
    if quotes == [] then 0.0 else Sum(f, quotes[..|quotes| - 1]) + f(quotes[|quotes| - 1])
  }

  function CommittedOf(q: MakerQuote): real {
    if q.active then q.terms.committed else 0.0
  }

  function SyncedCash(l: Account, capital: real): real {
    Max(0.0, capital - Sum(CommittedOf, l.quotes))
  }

  function ChainLeg(chain: map<string, real>, token: string): real {
    if token in chain then chain[token] else 0.0
  }

  function ChainNo(chain: map<string, real>, t: Terms): real {
    if t.complementId == "" then 0.0 else ChainLeg(chain, t.complementId)
  }

  predicate Agrees(q: MakerQuote, chain: map<string, real>) {
    && Abs(q.inventory - ChainLeg(chain, q.terms.tokenId)) < 0.5
    && Abs(q.complementInventory - ChainNo(chain, q.terms)) < 0.5
  }

  function ReconcileRow(q: MakerQuote, chain: map<string, real>): MakerQuote {
    if !q.active || Agrees(q, chain) then q else WithLegs(q, ChainLeg(chain, q.terms.tokenId), ChainNo(chain, q.terms))
  }

  function ReconcileRows(quotes: seq<MakerQuote>, chain: map<string, real>): (r: seq<MakerQuote>)
    ensures |r| == |quotes| && forall k :: 0 <= k < |r| ==> r[k] == ReconcileRow(quotes[k], chain)
  {
    seq(|quotes|, k requires 0 <= k < |quotes| => ReconcileRow(quotes[k], chain))
  }

  /** How many rows the chain disagrees with. */
  function Disagreeing(quotes: seq<MakerQuote>, chain: map<string, real>): nat {
    if quotes == [] then 0
    else
      var q := quotes[|quotes| - 1];
      Disagreeing(quotes[..|quotes| - 1], chain) + if q.active && !Agrees(q, chain) then 1 else 0
  }

  // ---- polling ----

  /** One poll of all quotes: readings and acknowledgements per row, fills per token. */
  datatype Poll = Poll(now: real, readings: seq<Read>, acks: seq<Acks>, fills: map<string, seq<RealFill>>,
                       ticks: int, forced: set<string>)

  const NO_READ := Read(false, None, false, 0.0, 0.0)
  const NO_ACKS := Acks(false, false, false, false)

  function FillsOf(p: Poll, token: string): seq<RealFill> {
    if token in p.fills then p.fills[token] else []
  }

  function InputFor(p: Poll, k: nat, t: Terms): Input {
    Input(p.now, if k < |p.readings| then p.readings[k] else NO_READ,
          FillsOf(p, t.tokenId), if t.complementId == "" then [] else FillsOf(p, t.complementId),
          if k < |p.acks| then p.acks[k] else NO_ACKS, p.ticks, t.tokenId in p.forced)
  }

  function RowStep(live: bool, l: Account, p: Poll, k: nat): Step
    requires k < |l.quotes|
  {
    StepOf(live, l.crossingC, l.quotes[k], InputFor(p, k, l.quotes[k].terms))
  }

  function PollRow(live: bool, l: Account, p: Poll, k: nat): Account
    requires k < |l.quotes|
  {
    if l.quotes[k].active then
      var s := RowStep(live, l, p, k);
      l.(cash := l.cash + s.credit, quotes := l.quotes[k := s.q])
    else l
  }

  function RowCost(live: bool, l: Account, p: Poll, k: nat): real
    requires k < |l.quotes|
  {
    if l.quotes[k].active then RowStep(live, l, p, k).cost else 0.0
  }

  function PollFrom(live: bool, l: Account, p: Poll, k: nat): Account
    requires k <= |l.quotes|
    decreases |l.quotes| - k
  {
    if k == |l.quotes| then l else PollFrom(live, PollRow(live, l, p, k), p, k + 1)
  }

  function CostFrom(live: bool, l: Account, p: Poll, k: nat): real
    requires k <= |l.quotes|
    decreases |l.quotes| - k
  {
    if k == |l.quotes| then 0.0 else RowCost(live, l, p, k) + CostFrom(live, PollRow(live, l, p, k), p, k + 1)
  }

  // ---- operations and runs ----

  datatype Op =
    | PlaceOp(req: Request)
    | PlaceLiveOp(req: Request, accepted: bool)
    | PollOp(live: bool, poll: Poll)
    | CancelOp(id: int)
    | SyncOp(capital: real)
    | ReconcileOp(seen: map<string, real>)
    | ChainOp(seen: map<string, real>)
    | CrossingOp(cents: real)

  function Apply(l: Account, op: Op): Account {
    match op
    case PlaceOp(r) => Place(l, r).ledger
    case PlaceLiveOp(r, accepted) => PlaceLive(l, r, accepted).ledger
    case PollOp(live, p) => PollFrom(live, l, p, 0)
    case CancelOp(id) => Cancel(l, id)
    case SyncOp(capital) => l.(cash := SyncedCash(l, capital))
    case ReconcileOp(seen) => l.(quotes := ReconcileRows(l.quotes, seen))
    case ChainOp(seen) => l.(chain := seen)
    case CrossingOp(c) => l.(crossingC := c)
  }

  function Run(l: Account, ops: seq<Op>): Account
    decreases |ops|
  {
    if ops == [] then l else Run(Apply(l, ops[0]), ops[1..])
  }

  /** Crossing costs an operation charges. */
  function Charged(l: Account, op: Op): real {
    match op
    case PollOp(live, p) => CostFrom(live, l, p, 0)
    case _ => 0.0
  }

  /** Cash an operation brings in from outside: only a new capital figure does. */
  function Deposited(l: Account, op: Op): real {
    match op
    case SyncOp(capital) => SyncedCash(l, capital) - l.cash
    case _ => 0.0
  }

  function ChargedOver(l: Account, ops: seq<Op>): real
    decreases |ops|
  {
    if ops == [] then 0.0 else Charged(l, ops[0]) + ChargedOver(Apply(l, ops[0]), ops[1..])
  }

  function DepositedOver(l: Account, ops: seq<Op>): real
    decreases |ops|
  {
    if ops == [] then 0.0 else Deposited(l, ops[0]) + DepositedOver(Apply(l, ops[0]), ops[1..])
  }

  // ---- the summary ----

  function RewardOf(q: MakerQuote): real { q.accrued }
  function PnlOf(q: MakerQuote): real { q.inventoryPnl }
  function BleedOf(q: MakerQuote): real { q.bleed }
  function OpenOf(q: MakerQuote): real { if q.active then Abs(q.inventory) + Abs(q.complementInventory) else 0.0 }

  function ActiveCount(quotes: seq<MakerQuote>): nat {
    if quotes == [] then 0 else ActiveCount(quotes[..|quotes| - 1]) + if quotes[|quotes| - 1].active then 1 else 0
  }

  // ---- conservation ----

  /** Cash, plus the capital active quotes hold, less everything all quotes have earned. */
  function Base(l: Account): real {
    l.cash + Sum(Claim, l.quotes)
  }

  lemma {:induction false} SumUpdate(f: MakerQuote -> real, quotes: seq<MakerQuote>, k: nat, q: MakerQuote)
    requires k < |quotes|
    ensures Sum(f, quotes[k := q]) == Sum(f, quotes) - f(quotes[k]) + f(q)
    decreases |quotes|
  {
    var n := |quotes| - 1;
    if k == n {
      assert quotes[k := q][..n] == quotes[..n];
    } else {
      assert quotes[k := q][..n] == quotes[..n][k := q];
      SumUpdate(f, quotes[..n], k, q);
    }
  }

  lemma SumAppend(f: MakerQuote -> real, quotes: seq<MakerQuote>, q: MakerQuote)
    ensures Sum(f, quotes + [q]) == Sum(f, quotes) + f(q)
  {
    assert (quotes + [q])[..|quotes|] == quotes;
  }

  lemma RowConserves(live: bool, l: Account, p: Poll, k: nat)
    requires k < |l.quotes|
    ensures Base(PollRow(live, l, p, k)) == Base(l) - RowCost(live, l, p, k)
    ensures RowCost(live, l, p, k) >= 0.0
  {
    if l.quotes[k].active {
      var s := RowStep(live, l, p, k);
      StepConserves(live, l.crossingC, l.quotes[k], InputFor(p, k, l.quotes[k].terms));
      SumUpdate(Claim, l.quotes, k, s.q);
    }
  }

  lemma {:induction false} PollConserves(live: bool, l: Account, p: Poll, k: nat)
    requires k <= |l.quotes|
    ensures Base(PollFrom(live, l, p, k)) == Base(l) - CostFrom(live, l, p, k)
    ensures CostFrom(live, l, p, k) >= 0.0
    decreases |l.quotes| - k
  {
    if k < |l.quotes| {
      RowConserves(live, l, p, k);
      PollConserves(live, PollRow(live, l, p, k), p, k + 1);
    }
  }

  lemma CancelConserves(l: Account, id: int)
    ensures Base(Cancel(l, id)) == Base(l)
  {
    if ActiveId(l, id) { SumUpdate(Claim, l.quotes, id - 1, l.quotes[id - 1].(active := false)); }
  }

  lemma PlaceConserves(l: Account, r: Request)
    ensures Base(Place(l, r).ledger) == Base(l)
  {
    if Objection(l.cash, r).None? { SumAppend(Claim, l.quotes, Opened(TermsFor(r, r.pool.value), r.now)); }
  }

  /** A placement is booked exactly when every demand is met; a rejected one changes nothing. */
  lemma BookedIff(l: Account, r: Request)
    ensures Place(l, r).placed.Booked? <==> r.outcomeOk && !r.closed && r.pool.Some? && Acceptable(l.cash, r, r.pool.value)
    ensures !Place(l, r).placed.Booked? ==> Place(l, r).placed.Rejected? && Place(l, r).ledger == l
  {}

  predicate Acceptable(cash: real, r: Request, pool: Pool) {
    var t := TermsFor(r, pool);
    && pool.minSize <= t.size && 0.0 < t.halfSpreadC <= pool.maxSpread
    && 0.0 <= t.cancelEfficiency <= 1.0 && t.skew >= 0.0 && t.maxInventory > 0.0
    && 0.0 < t.entryMid < 1.0 && MinLeg(t) >= MIN_ORDER_USD && t.committed <= cash
  }

  /** What each leg of a quote costs: a YES at the bid, a NO at one minus the ask. */
  function YesLeg(t: Terms): real {
    t.size * (t.entryMid - t.halfSpreadC / 100.0)
  }

  function NoLeg(t: Terms): real {
    t.size * (1.0 - t.entryMid - t.halfSpreadC / 100.0)
  }

  /** A booked quote takes out of cash exactly what its two legs cost, each at least a dollar, and
      never more than there is. */
  lemma PlacementPaysForBothLegs(l: Account, r: Request)
    requires Place(l, r).placed.Booked? && r.pool.value.minSize >= 0.0
    ensures var t, after := TermsFor(r, r.pool.value), Place(l, r).ledger;
            && after.quotes == l.quotes + [Opened(t, r.now)]
            && after.cash == l.cash - (YesLeg(t) + NoLeg(t)) && after.cash >= 0.0
            && YesLeg(t) >= MIN_ORDER_USD && NoLeg(t) >= MIN_ORDER_USD
  {
    BookedIff(l, r);
    LegsCost(TermsFor(r, r.pool.value));
  }

  lemma LegsCost(t: Terms)
    requires t.size >= 0.0 && MinLeg(t) >= MIN_ORDER_USD && t.committed == O.CommittedCapital(t.size, t.halfSpreadC)
    ensures t.committed == YesLeg(t) + NoLeg(t) && YesLeg(t) >= MIN_ORDER_USD && NoLeg(t) >= MIN_ORDER_USD
  {
    var a, b := t.entryMid - t.halfSpreadC / 100.0, 1.0 - t.entryMid - t.halfSpreadC / 100.0;
    SmallerLeg(t.size, a, b, MinLeg(t));
    BothLegs(t.size, a, b, 1.0 - 2.0 * (t.halfSpreadC / 100.0), YesLeg(t), NoLeg(t));
  }

  lemma SmallerLeg(size: real, a: real, b: real, least: real)
    requires size >= 0.0 && least == size * Min(a, b) && least >= 1.0
    ensures size * a >= least && size * b >= least && a + b > 0.0
  {
    var m := Min(a, b);
    MulMono(size, m, a);
    MulMono(size, m, b);
    if m <= 0.0 { MulNonNegative(size, -m); }
  }

  lemma BothLegs(size: real, a: real, b: real, both: real, yes: real, no: real)
    requires size >= 0.0 && a + b == both && both > 0.0 && yes == size * a && no == size * b
    ensures Max(0.0, size * both) == yes + no
  {
    MulNonNegative(size, both);
    assert size * both == size * a + size * b;
  }

  /** A refused live placement puts the cash back exactly, and leaves only a cancelled row. */
  lemma RollbackRestores(l: Account, r: Request)
    requires PlaceLive(l, r, false).placed.RolledBack?
    ensures var after := PlaceLive(l, r, false).ledger;
            && after.cash == l.cash && |after.quotes| == |l.quotes| + 1
            && after.quotes[..|l.quotes|] == l.quotes && !after.quotes[|l.quotes|].active
            && Claim(after.quotes[|l.quotes|]) == 0.0
  {}

  /** A placement skipped because the pool is still held on chain stays booked: the quote is active
      and its capital is taken, though no order was sent. */
  lemma SkippedStaysBooked(l: Account, r: Request, accepted: bool)
    requires PlaceLive(l, r, accepted).placed.SkippedHolding?
    ensures var after := PlaceLive(l, r, accepted).ledger;
            && |after.quotes| == |l.quotes| + 1 && after.quotes[|l.quotes|].active
            && after.cash == l.cash - after.quotes[|l.quotes|].terms.committed
  {}

  lemma SumZero(quotes: seq<MakerQuote>, rows: seq<MakerQuote>)
    requires |rows| == |quotes| && forall k :: 0 <= k < |rows| ==> Claim(rows[k]) == Claim(quotes[k])
    ensures Sum(Claim, rows) == Sum(Claim, quotes)
  {
    if quotes != [] {
      var n := |quotes| - 1;
      assert forall k :: 0 <= k < n ==> rows[..n][k] == rows[k] && quotes[..n][k] == quotes[k];
      SumZero(quotes[..n], rows[..n]);
    }
  }

  lemma ApplyConserves(l: Account, op: Op)
    ensures Base(Apply(l, op)) == Base(l) + Deposited(l, op) - Charged(l, op)
    ensures Charged(l, op) >= 0.0
  {
    match op
    case PlaceOp(r) => PlaceConserves(l, r);
    case PlaceLiveOp(r, accepted) =>
      PlaceConserves(l, Live(r));
      var o := Place(l, Live(r));
      if o.placed.Booked? { CancelConserves(o.ledger, o.placed.id); }
    case PollOp(live, p) => PollConserves(live, l, p, 0);
    case CancelOp(id) => CancelConserves(l, id);
    case SyncOp(capital) =>
    case ReconcileOp(seen) => SumZero(l.quotes, ReconcileRows(l.quotes, seen));
    case ChainOp(seen) =>
    case CrossingOp(c) =>
  }

  /** Conservation over every run of every operation, paper or live, whatever the venue does: cash
      is what there was to begin with, plus what was paid in, less the crossing costs charged,
      plus everything the quotes earned, less the capital of those still active. */
  lemma {:induction false} CashConserved(l: Account, ops: seq<Op>)
    ensures Base(Run(l, ops)) == Base(l) + DepositedOver(l, ops) - ChargedOver(l, ops)
    ensures ChargedOver(l, ops) >= 0.0
    decreases |ops|
  {
    if ops != [] {
      ApplyConserves(l, ops[0]);
      CashConserved(Apply(l, ops[0]), ops[1..]);
    }
  }

  lemma {:induction false} ClaimsSplit(quotes: seq<MakerQuote>)
    ensures Sum(Claim, quotes) == Sum(CommittedOf, quotes) - (Sum(RewardOf, quotes) + Sum(PnlOf, quotes))
  {
    if quotes != [] { ClaimsSplit(quotes[..|quotes| - 1]); }
  }

  /** The same in the terms of the summary, from an empty table. */
  lemma CashFromSummary(cash: real, crossingC: real, ops: seq<Op>)
    ensures var l := Account(cash, [], crossingC, map[]); var end := Run(l, ops);
            end.cash == cash + DepositedOver(l, ops) - ChargedOver(l, ops)
                      + (Sum(RewardOf, end.quotes) + Sum(PnlOf, end.quotes)) - Sum(CommittedOf, end.quotes)
  {
    var l := Account(cash, [], crossingC, map[]);
    CashConserved(l, ops);
    ClaimsSplit(Run(l, ops).quotes);
    assert Sum(Claim, []) == 0.0;
  }
}
