// What the operations of the account come to, in the terms of their callers: capital and cash, the
// demands a placement is refused over, the row it makes, and which of a poll's answers a row reads.
module LedgerLaws {
  import opened Common
  import opened Orderbook
  import opened Quotes
  import opened QuoteLaws
  import opened QuoteRuns
  import opened QuoteExits
  import opened QuoteSeconds
  import opened Ledger
  import opened LedgerRuns
  import opened LedgerCover

  // ---- capital ----

  /** What the active quotes hold. */
  function Committed(l: Account): real {
    Sum(CommittedOf, l.quotes)
  }

  /** What all quotes have earned. */
  function Earned(l: Account): real {
    Sum(RewardOf, l.quotes) + Sum(PnlOf, l.quotes)
  }

  /** A sync makes cash and commitments add up to the capital, or leaves no cash at all if more is
      committed; it touches nothing else. */
  lemma SyncSettles(l: Account, capital: real)
    ensures var after := Apply(l, SyncOp(capital));
            && after.cash + Committed(after) == Max(capital, Committed(l)) && after.cash >= 0.0
            && after.quotes == l.quotes && after.crossingC == l.crossingC && after.chain == l.chain
  {}

  ghost predicate NoSync(ops: seq<Op>) {
    forall op :: op in ops ==> !op.SyncOp?
  }

  lemma {:induction false} NothingPaidIn(l: Account, ops: seq<Op>)
    requires NoSync(ops)
    ensures DepositedOver(l, ops) == 0.0
    decreases |ops|
  {
    if ops != [] {
      assert ops[0] in ops;
      NothingPaidIn(Apply(l, ops[0]), ops[1..]);
    }
  }

  /** From any account, over every run without a sync: cash and commitments together change by what
      the quotes earn, less what crossing costs; a placement, a refusal, a cancellation or an exit
      only moves money between the two. */
  lemma CashAndCommitments(l: Account, ops: seq<Op>)
    requires NoSync(ops)
    ensures var end := Run(l, ops);
            end.cash + Committed(end) == l.cash + Committed(l) + (Earned(end) - Earned(l)) - ChargedOver(l, ops)
  {
    CashConserved(l, ops);
    NothingPaidIn(l, ops);
    ClaimsSplit(l.quotes);
    ClaimsSplit(Run(l, ops).quotes);
  }

  /** So from a sync whose capital covers the commitments, they are the capital, plus earnings since,
      less crossing costs. */
  lemma Rebased(l: Account, capital: real, ops: seq<Op>)
    requires NoSync(ops) && capital >= Committed(l)
    ensures var start := Apply(l, SyncOp(capital)); var end := Run(start, ops);
            end.cash + Committed(end) == capital + (Earned(end) - Earned(start)) - ChargedOver(start, ops)
  {
    SyncSettles(l, capital);
    CashAndCommitments(Apply(l, SyncOp(capital)), ops);
  }

  // ---- what a placement must meet ----

  /** Everything a placement can be refused over, in the order it is checked. */
  const DEMANDS: seq<PlaceError> := [InvalidOutcome, MarketClosed, NotInProgram, BelowMinSize, BadHalfSpread,
    BadCancelEfficiency, NegativeSkew, BadMaxInventory, NoMidpoint, LegTooSmall, InsufficientBalance]

  function SizeFor(r: Request, pool: Pool): real {
    if r.size.Some? then r.size.value else pool.minSize
  }

  /** In cents: one tick from the mid unless asked otherwise. */
  function HalfFor(r: Request, pool: Pool): real {
    if r.halfSpreadC.Some? then r.halfSpreadC.value else 100.0 * pool.tick
  }

  /** What the leg of a quote costs: a YES at the bid, a NO at one minus the ask. */
  function LegCost(size: real, mid: real, half: real): real {
    size * (mid - half / 100.0)
  }

  /** The demand behind each refusal; those after the third are about a pool. */
  predicate Meets(cash: real, r: Request, e: PlaceError) {
    match e
    case InvalidOutcome => r.outcomeOk
    case MarketClosed => !r.closed
    case NotInProgram => r.pool.Some?
    case _ => r.pool.Some? && MeetsPool(cash, r, r.pool.value, e)
  }

  predicate MeetsPool(cash: real, r: Request, pool: Pool, e: PlaceError) {
    var size, half := SizeFor(r, pool), HalfFor(r, pool);
    match e
    case BelowMinSize => size >= pool.minSize
    case BadHalfSpread => 0.0 < half <= pool.maxSpread
    case BadCancelEfficiency => 0.0 <= r.cancelEfficiency <= 1.0
    case NegativeSkew => r.skew >= 0.0
    case BadMaxInventory => (if r.maxInventory.Some? then r.maxInventory.value else 4.0 * size) > 0.0
    case NoMidpoint => 0.0 < r.mid < 1.0
    case LegTooSmall => LegCost(size, r.mid, half) >= 1.0 && LegCost(size, 1.0 - r.mid, half) >= 1.0
    case InsufficientBalance => LegCost(size, r.mid, half) + LegCost(size, 1.0 - r.mid, half) <= cash
    case _ => true
  }

  lemma TermsAre(r: Request, pool: Pool)
    ensures var t := TermsFor(r, pool);
            && t.tokenId == r.tokenId && t.complementId == r.complementId
            && t.size == SizeFor(r, pool) && t.halfSpreadC == HalfFor(r, pool)
            && t.maxSpreadC == pool.maxSpread && t.tick == pool.tick && t.cancelEfficiency == r.cancelEfficiency
            && t.maxInventory == (if r.maxInventory.Some? then r.maxInventory.value else 4.0 * SizeFor(r, pool))
            && t.skew == r.skew && t.entryMid == r.mid
            && t.committed == CommittedCapital(SizeFor(r, pool), HalfFor(r, pool))
  {}

  lemma LegsAre(size: real, mid: real, half: real, least: real)
    requires size >= 0.0 && least == size * Min(mid - half / 100.0, 1.0 - mid - half / 100.0)
    ensures least >= 1.0 <==> LegCost(size, mid, half) >= 1.0 && LegCost(size, 1.0 - mid, half) >= 1.0
    ensures least >= 1.0 ==> CommittedCapital(size, half) == LegCost(size, mid, half) + LegCost(size, 1.0 - mid, half)
  {
    var a, b := mid - half / 100.0, 1.0 - mid - half / 100.0;
    MulMono(size, Min(a, b), a);
    MulMono(size, Min(a, b), b);
    if least >= 1.0 {
      SmallerLeg(size, a, b, least);
      BothLegs(size, a, b, 1.0 - 2.0 * (half / 100.0), LegCost(size, mid, half), LegCost(size, 1.0 - mid, half));
    }
  }

  /** The first objection is the first demand that is not met. */
  ghost predicate FirstUnmet(cash: real, r: Request, o: Option<PlaceError>) {
    if o.None? then forall e :: e in DEMANDS ==> Meets(cash, r, e)
    else exists k :: 0 <= k < |DEMANDS| && UnmetAt(cash, r, o.value, k)
  }

  ghost predicate UnmetAt(cash: real, r: Request, e: PlaceError, k: int)
    requires 0 <= k < |DEMANDS|
  {
    DEMANDS[k] == e && !Meets(cash, r, e) && forall j :: 0 <= j < k ==> Meets(cash, r, DEMANDS[j])
  }

  function RankOf(e: PlaceError): (k: nat)
    ensures k < |DEMANDS| && DEMANDS[k] == e
  {
    match e
    case InvalidOutcome => 0
    case MarketClosed => 1
    case NotInProgram => 2
    case BelowMinSize => 3
    case BadHalfSpread => 4
    case BadCancelEfficiency => 5
    case NegativeSkew => 6
    case BadMaxInventory => 7
    case NoMidpoint => 8
    case LegTooSmall => 9
    case InsufficientBalance => 10
  }

  lemma ObjectionIs(cash: real, r: Request)
    requires r.pool.Some? ==> r.pool.value.minSize >= 0.0
    ensures FirstUnmet(cash, r, Objection(cash, r))
  {
    if r.pool.Some? {
      var pool := r.pool.value;
      TermsAre(r, pool);
      if SizeFor(r, pool) >= 0.0 {
        LegsAre(SizeFor(r, pool), r.mid, HalfFor(r, pool), MinLeg(TermsFor(r, pool)));
      }
    }
    var o := Objection(cash, r);
    if o.Some? { assert UnmetAt(cash, r, o.value, RankOf(o.value)); }
  }

  /** A placement is booked if and only if it meets every demand; otherwise it is refused over the
      first it does not meet, and nothing changes. */
  lemma PlacedIff(l: Account, r: Request)
    requires r.pool.Some? ==> r.pool.value.minSize >= 0.0
    ensures var o := Place(l, r);
            && (o.placed.Booked? <==> forall e :: e in DEMANDS ==> Meets(l.cash, r, e))
            && (!o.placed.Booked? ==> o.placed.Rejected? && o.ledger == l && FirstUnmet(l.cash, r, Some(o.placed.error)))
  {
    ObjectionIs(l.cash, r);
  }

  // ---- the row a placement makes ----

  /** A placement in either form. */
  function Placement(l: Account, r: Request, live: bool, accepted: bool): Outcome {
    if live then PlaceLive(l, r, accepted) else Place(l, r)
  }

  /** It leaves an active row: booked, or booked and then skipped over a pool that is held. */
  predicate Stays(o: Outcome) {
    o.placed.Booked? || o.placed.SkippedHolding?
  }

  /** The new row is the last, and takes from the request both tokens, the size and half-spread or
      their defaults, the mid as entry and last mid, and the time to the nearest microsecond; it holds
      and has earned nothing. A live quote is never taken to cancel in time. */
  lemma PlacedRow(l: Account, r: Request, live: bool, accepted: bool)
    requires Stays(Placement(l, r, live, accepted))
    ensures r.pool.Some?
    ensures var after, pool := Placement(l, r, live, accepted).ledger, r.pool.value;
            && |after.quotes| == |l.quotes| + 1 && after.quotes[..|l.quotes|] == l.quotes
            && Placement(l, r, live, accepted).placed.id == |l.quotes| + 1
    ensures var after, pool := Placement(l, r, live, accepted).ledger, r.pool.value;
            var q := after.quotes[|l.quotes|];
            && q.terms.tokenId == r.tokenId && q.terms.complementId == r.complementId
            && q.terms.size == SizeFor(r, pool) && q.terms.halfSpreadC == HalfFor(r, pool)
            && q.terms.maxSpreadC == pool.maxSpread && q.terms.tick == pool.tick
            && q.terms.skew == r.skew && q.terms.cancelEfficiency == (if live then 0.0 else r.cancelEfficiency)
            && q.terms.maxInventory == (if r.maxInventory.Some? then r.maxInventory.value else 4.0 * SizeFor(r, pool))
            && q.terms.entryMid == q.lastMid == r.mid && q.lastAccrued == RoundMicro(r.now) && q.active
            && q.inventory == q.complementInventory == q.inventoryPnl == q.accrued == q.bleed == 0.0 && q.fills == 0
            && after.cash == l.cash - q.terms.committed
  {
    if r.pool.Some? { TermsAre(if live then Live(r) else r, r.pool.value); }
  }

  /** Over any later run its seconds are exactly the time from the placement to its last mark, plus
      slips, less cuts. */
  lemma PlacedSecondsExact(l: Account, r: Request, live: bool, accepted: bool, ops: seq<Op>)
    requires Stays(Placement(l, r, live, accepted))
    ensures var start, j := Placement(l, r, live, accepted).ledger, |l.quotes|;
            && j < |start.quotes|
            && RowSeconds(start, ops, j)
               == LastMark(start.quotes[j], EventsAt(start, ops, j), r.now) - r.now
                + Slipped(start.quotes[j], EventsAt(start, ops, j), r.now) - Cut(start.quotes[j], EventsAt(start, ops, j), r.now)
  {
    PlacedRow(l, r, live, accepted);
    RowSecondsExact(Placement(l, r, live, accepted).ledger, ops, |l.quotes|, r.now);
  }

  /** With a clock that does not run backwards from there, it is credited at most the time since the
      placement and half a microsecond a poll, and paid at most what the pool pays for that; with
      readings that are never rounded down, the time since the placement alone. */
  lemma PlacedRewarded(l: Account, r: Request, live: bool, accepted: bool, ops: seq<Op>, end: real, daily: real)
    requires Stays(Placement(l, r, live, accepted))
    requires var start, j := Placement(l, r, live, accepted).ledger, |l.quotes|;
             && j < |start.quotes| && Monotone(EventsAt(start, ops, j), r.now, end)
             && PoolsPayAtMost(start.quotes[j], EventsAt(start, ops, j), daily)
    ensures var start, j := Placement(l, r, live, accepted).ledger, |l.quotes|;
            var credited, earned := RowSeconds(start, ops, j), if j < |Run(start, ops).quotes| then Run(start, ops).quotes[j].accrued else -1.0;
            && 0.0 <= credited <= end - r.now + 0.0000005 * Polls(EventsAt(start, ops, j)) as real
            && 0.0 <= earned <= Payment(daily, credited)
            && (RoundMicro(r.now) >= r.now && StoredWithin(EventsAt(start, ops, j), 0.0) ==>
                  credited <= end - r.now && earned <= Payment(daily, end - r.now))
  {
    var start, j := Placement(l, r, live, accepted).ledger, |l.quotes|;
    PlacedRow(l, r, live, accepted);
    RowRewarded(start, ops, j, r.now, end, daily);
    RowIsQuoteRun(start, ops, j);
    RewardsWithinPool(start.quotes[j], EventsAt(start, ops, j), daily);
  }

  /** A token of which a share or more is held on chain, either way. */
  ghost predicate HeldOnChain(l: Account, token: string) {
    token != "" && token in l.chain && (l.chain[token] >= 1.0 || l.chain[token] <= -1.0)
  }

  /** A live placement that meets every demand is skipped exactly if either of its tokens is held on
      chain, and rolled back exactly if it is not skipped and any of its orders is refused. */
  lemma LiveOutcome(l: Account, r: Request, accepted: bool)
    requires Place(l, Live(r)).placed.Booked?
    ensures var placed, held := PlaceLive(l, r, accepted).placed, HeldOnChain(l, r.tokenId) || HeldOnChain(l, r.complementId);
            && (placed.SkippedHolding? <==> held) && (placed.RolledBack? <==> !held && !accepted)
            && (placed.Booked? <==> !held && accepted)
  {}

  // ---- which answers a row reads ----

  /** The fills a poll reports for a token. */
  function Reported(p: Poll, token: string): seq<RealFill> {
    if token in p.fills then p.fills[token] else []
  }

  /** A live poll moves the YES leg of a row by the fills of its own token and the NO leg by those of
      its complement, if it has one; a row nobody read keeps what it had. */
  lemma PolledLegs(l: Account, p: Poll, j: nat)
    requires j < |l.quotes| && l.quotes[j].active
    ensures j < |Apply(l, PollOp(true, p)).quotes|
    ensures var q, r := l.quotes[j], Apply(l, PollOp(true, p)).quotes[j];
            var read := j < |p.readings| && (Sees(p.readings[j]) || Gone(p.readings[j]));
            && (!read ==> r == q)
            && (read && r.active ==> r.inventory == q.inventory + NetShares(Reported(p, q.terms.tokenId)))
            && (read && r.active && q.terms.complementId != "" ==>
                  r.complementInventory == q.complementInventory + NetShares(Reported(p, q.terms.complementId)))
            && (read && r.active && q.terms.complementId == "" ==> r.complementInventory == q.complementInventory)
            && (read && r.active ==> r.lastAccrued == RoundMicro(p.now))
  {
    var q := l.quotes[j];
    var i := InputFor(p, j, q.terms);
    RowsIndependent(true, l, p, 0);
    ReadingsAre(i.read);
    LiveLegs(l.crossingC, q, i);
  }

  /** A poll's answers to one row. */
  function OwnAnswers(p: Poll, j: nat, t: Terms): Input
    requires j < |p.readings| && j < |p.acks|
  {
    var no := if t.complementId == "" then [] else Reported(p, t.complementId);
    Input(p.now, p.readings[j], Reported(p, t.tokenId), no, p.acks[j], p.ticks, t.tokenId in p.forced)
  }

  /** A row leaves at a live poll exactly by its own answers: the reading
      and the acknowledgements at its place in the table, and the fills of its tokens. */
  lemma PolledLeaves(l: Account, p: Poll, j: nat)
    requires j < |l.quotes| && l.quotes[j].active && j < |p.readings| && j < |p.acks|
    ensures j < |Apply(l, PollOp(true, p)).quotes|
    ensures !Apply(l, PollOp(true, p)).quotes[j].active <==> Leaves(l.quotes[j], OwnAnswers(p, j, l.quotes[j].terms))
  {
    RowsIndependent(true, l, p, 0);
    LeavesExactly(l.crossingC, l.quotes[j], InputFor(p, j, l.quotes[j].terms));
  }

  /** And its orders are moved exactly by its own reading, the poll's ticks, and whether its YES token
      is one that is forced. */
  lemma PolledRequotes(l: Account, p: Poll, j: nat, mid: real)
    requires j < |l.quotes| && l.quotes[j].active && j < |p.readings| && j < |p.acks|
    ensures var q, i := l.quotes[j], OwnAnswers(p, j, l.quotes[j].terms);
            Requote(mid) in RowStep(true, l, p, j).actions
            <==> Sees(i.read) && !Touched(q, i) && !OutOfBand(q.terms, i.read.mid) && Moves(q, i) && mid == i.read.mid
  {
    RequotesExactly(l.crossingC, l.quotes[j], InputFor(p, j, l.quotes[j].terms), mid);
  }

  /** What the chain shows of a token. */
  function Shown(seen: map<string, real>, token: string): real {
    if token in seen then seen[token] else 0.0
  }

  /** Afterwards the YES leg of an active row is near what the chain shows of its token and the NO leg
      near what it shows of the complement, or near nothing without one; if either was half a share or
      more off, both are exactly that. */
  lemma ReconciledLegs(l: Account, seen: map<string, real>, j: nat)
    requires j < |l.quotes| && l.quotes[j].active
    ensures j < |Apply(l, ReconcileOp(seen)).quotes|
    ensures var q, r := l.quotes[j], Apply(l, ReconcileOp(seen)).quotes[j];
            var yes, no := Shown(seen, q.terms.tokenId), if q.terms.complementId == "" then 0.0 else Shown(seen, q.terms.complementId);
            && Abs(r.inventory - yes) < 0.5 && Abs(r.complementInventory - no) < 0.5
            && (Abs(q.inventory - yes) < 0.5 && Abs(q.complementInventory - no) < 0.5 ==> r == q)
            && (Abs(q.inventory - yes) >= 0.5 || Abs(q.complementInventory - no) >= 0.5 ==>
                  r.inventory == yes && r.complementInventory == no)
  {}

  /** The rows a reconciliation changes. */
  ghost function Changed(quotes: seq<MakerQuote>, seen: map<string, real>): set<int> {
    set k | 0 <= k < |quotes| && ReconcileRow(quotes[k], seen) != quotes[k]
  }

  lemma ChangedNext(quotes: seq<MakerQuote>, seen: map<string, real>)
    requires quotes != []
    ensures var n := |quotes| - 1;
            && n !in Changed(quotes[..n], seen)
            && Changed(quotes, seen) == Changed(quotes[..n], seen) + if ReconcileRow(quotes[n], seen) != quotes[n] then {n} else {}
  {}

  /** What a reconciliation reports is how many rows it changed. */
  lemma {:induction false} CountsChanged(quotes: seq<MakerQuote>, seen: map<string, real>)
    ensures Disagreeing(quotes, seen) == |Changed(quotes, seen)|
    decreases |quotes|
  {
    if quotes != [] {
      CountsChanged(quotes[..|quotes| - 1], seen);
      ChangedNext(quotes, seen);
      RowChanges(quotes[|quotes| - 1], seen);
    }
  }

  lemma RowChanges(q: MakerQuote, seen: map<string, real>)
    ensures ReconcileRow(q, seen) != q <==> q.active && !Agrees(q, seen)
  {}
}
