// cpp/src/pmm/engine.cpp: what one poll does to one active quote, in the live and in the paper
// form. A poll's network answers, fills and acknowledgements are inputs; amounts are exact reals.
module Quotes {
  import opened Common
  import opened Orderbook
  import Trades

  const MAX_ACCRUAL_SECONDS := 600.0
  const CAP_MULT := 4.0
  const NEGLIGIBLE := 0.000000001

  datatype RealFill = RealFill(side: string, size: real, price: real)

  datatype Pool = Pool(maxSpread: real, minSize: real, daily: real, tick: real)

  /** What a poll managed to read for a quote: its reward pool, its book (as the competition it
      shows in the reward band) and its mid. */
  datatype Read = Read(configOk: bool, pool: Option<Pool>, bookOk: bool, qmin: real, mid: real)

  /** Whether the venue acknowledged each cancellation and each flatten, if it was asked. */
  datatype Acks = Acks(cancelYes: bool, cancelNo: bool, flatYes: bool, flatNo: bool)

  datatype Input = Input(now: real, read: Read, fills: seq<RealFill>, noFills: seq<RealFill>, acks: Acks,
                         ticks: int, forced: bool)

  /** The part of a quote that is fixed when it is placed. */
  datatype Terms = Terms(tokenId: string, complementId: string, size: real, halfSpreadC: real, maxSpreadC: real,
                         tick: real, cancelEfficiency: real, maxInventory: real, skew: real, entryMid: real,
                         committed: real)

  datatype MakerQuote = MakerQuote(
    terms: Terms, inventory: real, complementInventory: real, inventoryPnl: real, accrued: real, bleed: real,
    fills: int, lastMid: real, lastAccrued: real, active: bool)

  datatype Action =
    | CancelAll(token: string)
    | FlattenLeg(token: string, sell: bool, size: real)
    | Requote(mid: real)

  datatype Branch = Unread | Ended | Filled | Drifted | Requoted | Held

  /** What a poll does: the row it leaves, what it adds to cash and charges for crossing, the
      seconds it credits, both legs before an exit clears them, and what it sends. */
  datatype Step = Step(branch: Branch, q: MakerQuote, credit: real, cost: real, seconds: real,
                       yes: real, no: real, actions: seq<Action>)

  // ---- fills ----

  function Sign(f: RealFill): real {
    if Trades.Lower(f.side) == "buy" then 1.0 else -1.0
  }

  function FillShares(f: RealFill): real {
    Sign(f) * f.size
  }

  function FillCost(f: RealFill): real {
    Sign(f) * f.price * f.size
  }

  function FillPnl(f: RealFill, mark: real): real {
    Sign(f) * (mark - f.price) * f.size
  }

  datatype Tally = Tally(shares: real, pnl: real, bleed: real, n: int)

  function Add(t: Tally, f: RealFill, mark: real): Tally {
    var fp := FillPnl(f, mark);
    Tally(t.shares + FillShares(f), t.pnl + fp, t.bleed + Max(0.0, -fp), t.n + 1)
  }

  function TallyOf(fills: seq<RealFill>, mark: real): Tally {
    if fills == [] then Tally(0.0, 0.0, 0.0, 0)
    else Add(TallyOf(fills[..|fills| - 1], mark), fills[|fills| - 1], mark)
  }

  /** What the fills of a leg cost, sales negative. */
  function NetCost(fills: seq<RealFill>): real {
    if fills == [] then 0.0
    else NetCost(fills[..|fills| - 1]) + FillCost(fills[|fills| - 1])
  }

  function NetShares(fills: seq<RealFill>): real {
    if fills == [] then 0.0 else NetShares(fills[..|fills| - 1]) + FillShares(fills[|fills| - 1])
  }

  lemma {:induction false} TallyCounts(fills: seq<RealFill>, mark: real)
    ensures TallyOf(fills, mark).n == |fills|
    ensures TallyOf(fills, mark).shares == NetShares(fills)
  {
    if fills != [] { TallyCounts(fills[..|fills| - 1], mark); }
  }

  function Worth(shares: real, mark: real): real {
    shares * mark
  }

  lemma AddGains(t: Tally, f: RealFill, mark: real, shares: real, cost: real)
    requires t.pnl == Worth(shares, mark) - cost
    ensures Add(t, f, mark).pnl == Worth(shares + FillShares(f), mark) - (cost + FillCost(f))
  {
    var a := FillShares(f);
    assert FillPnl(f, mark) == a * (mark - f.price) == a * mark - a * f.price;
    assert FillCost(f) == a * f.price;
    assert Worth(shares + a, mark) == shares * mark + a * mark;
  }

  /** Fills gain what their shares are worth at the mark, less what they cost. */
  lemma {:induction false} TallyGains(fills: seq<RealFill>, mark: real)
    ensures TallyOf(fills, mark).pnl == Worth(NetShares(fills), mark) - NetCost(fills)
  {
    if fills != [] {
      var before := fills[..|fills| - 1];
      TallyGains(before, mark);
      AddGains(TallyOf(before, mark), fills[|fills| - 1], mark, NetShares(before), NetCost(before));
    }
  }

  /** The bleed is at least what they lose. */
  lemma {:induction false} BleedCoversLosses(fills: seq<RealFill>, mark: real)
    ensures TallyOf(fills, mark).bleed >= 0.0 && TallyOf(fills, mark).bleed >= -TallyOf(fills, mark).pnl
  {
    if fills != [] { BleedCoversLosses(fills[..|fills| - 1], mark); }
  }

  // ---- one live poll ----

  function MidOr(x: real, mid: real): real {
    if x > 0.0 then x else mid
  }

  predicate PoolEnded(r: Read) {
    r.configOk && (r.pool.None? || r.pool.value.daily <= 0.0)
  }

  predicate Readable(r: Read) {
    r.configOk && r.pool.Some? && r.pool.value.daily > 0.0 && r.bookOk && 0.0 < r.mid < 1.0
  }

  function SecondsSince(q: MakerQuote, now: real): real {
    Max(0.0, now - q.lastAccrued)
  }

  function LiveSeconds(q: MakerQuote, now: real): real {
    Min(SecondsSince(q, now), MAX_ACCRUAL_SECONDS)
  }

  function RewardFor(q: MakerQuote, r: Read, seconds: real): real
    requires r.pool.Some?
  {
    RewardAccrual(RewardShare(q.terms.size, q.terms.halfSpreadC, q.terms.maxSpreadC, r.qmin), r.pool.value.daily, seconds)
  }

  /** The row after an accrual; inventories are set by the branch. */
  function Accrue(q: MakerQuote, mid: real, now: real, reward: real, pnl: real, bleed: real, n: int): MakerQuote {
    q.(accrued := q.accrued + reward, inventoryPnl := q.inventoryPnl + pnl, bleed := q.bleed + bleed,
       fills := q.fills + n, lastMid := mid, lastAccrued := RoundMicro(now))
  }

  function WithLegs(q: MakerQuote, yes: real, no: real): MakerQuote {
    q.(inventory := yes, complementInventory := no)
  }

  function Leave(q: MakerQuote): MakerQuote {
    WithLegs(q, 0.0, 0.0).(active := false)
  }

  /** Leaves with the capital, less the crossing cost, when everything was acknowledged; stays,
      with both legs recorded, when not. */
  function Close(branch: Branch, q: MakerQuote, gain: real, yes: real, no: real, done: bool, crossing: real,
                 seconds: real, actions: seq<Action>): Step
  {
    if done then
      Step(branch, Leave(q), gain + q.terms.committed - Max(0.0, crossing), Max(0.0, crossing), seconds, yes, no, actions)
    else
      Step(branch, WithLegs(q, yes, no), gain, 0.0, seconds, yes, no, actions)
  }

  function CancelActions(t: Terms): seq<Action> {
    [CancelAll(t.tokenId)] + if t.complementId == "" then [] else [CancelAll(t.complementId)]
  }

  predicate Cancelled(t: Terms, acks: Acks) {
    acks.cancelYes && (t.complementId == "" || acks.cancelNo)
  }

  function FlattenAction(token: string, inventory: real): seq<Action> {
    if Abs(inventory) < NEGLIGIBLE then [] else [FlattenLeg(token, inventory > 0.0, Abs(inventory))]
  }

  function FlattenActions(t: Terms, yes: real, no: real): seq<Action> {
    FlattenAction(t.tokenId, yes) + if t.complementId == "" then [] else FlattenAction(t.complementId, no)
  }

  predicate FlatYes(acks: Acks, yes: real) {
    Abs(yes) < NEGLIGIBLE || acks.flatYes
  }

  predicate FlatNo(t: Terms, acks: Acks, no: real) {
    t.complementId == "" || Abs(no) < NEGLIGIBLE || acks.flatNo
  }

  /** Every acknowledgement an exit waits for. */
  predicate Done(t: Terms, acks: Acks, yes: real, no: real) {
    Cancelled(t, acks) && FlatYes(acks, yes) && FlatNo(t, acks, no)
  }

  /** Cents per share, over both legs. */
  function Crossing(cc: real, yes: real, no: real): real {
    cc / 100.0 * (Abs(yes) + Abs(no))
  }

  /** The pool is gone: marked at the last mid, no reward. */
  function EndedStep(cc: real, q: MakerQuote, i: Input): Step {
    var a, b := TallyOf(i.fills, q.lastMid), TallyOf(i.noFills, 1.0 - q.lastMid);
    var yes, no, pnl := q.inventory + a.shares, q.complementInventory + b.shares, a.pnl + b.pnl;
    Close(Ended, Accrue(q, q.lastMid, i.now, 0.0, pnl, a.bleed + b.bleed, a.n + b.n), pnl, yes, no,
          Done(q.terms, i.acks, yes, no), Crossing(cc, yes, no), 0.0,
          CancelActions(q.terms) + FlattenActions(q.terms, yes, no))
  }

  function LegMove(inventory: real, from: real, upto: real): real {
    inventory * (upto - from)
  }

  /** Both legs' move with the mid (NO moves the other way), and the fills' gain against it. */
  function PnlDelta(q: MakerQuote, mid: real, fillPnl: real): real {
    LegMove(q.inventory, q.lastMid, mid) + LegMove(q.complementInventory, mid, q.lastMid) + fillPnl
  }

  predicate Exposed(q: MakerQuote, i: Input) {
    |i.fills| + |i.noFills| > 0 || Abs(q.inventory) >= 1.0 || Abs(q.complementInventory) >= 1.0
  }

  predicate FarFromEntry(q: MakerQuote, mid: real) {
    Abs(mid - MidOr(q.terms.entryMid, mid)) >= q.terms.maxSpreadC / 100.0
  }

  function AtLeastOne(ticks: int): int {
    if ticks > 1 then ticks else 1
  }

  predicate Moved(q: MakerQuote, i: Input) {
    i.forced || Abs(i.read.mid - q.lastMid) >= AtLeastOne(i.ticks) as real * q.terms.tick
  }

  /** A readable poll, after the reward and the fills have been worked out. */
  function MarkedStep(cc: real, q: MakerQuote, i: Input): Step
    requires Readable(i.read)
  {
    var mid, seconds := i.read.mid, LiveSeconds(q, i.now);
    var reward := RewardFor(q, i.read, seconds);
    var a, b := TallyOf(i.fills, mid), TallyOf(i.noFills, 1.0 - mid);
    var yes, no := q.inventory + a.shares, q.complementInventory + b.shares;
    var pnl := PnlDelta(q, mid, a.pnl + b.pnl);
    var m := Accrue(q, mid, i.now, reward, pnl, a.bleed + b.bleed, a.n + b.n);
    if Exposed(q, i) then
      Close(Filled, m, reward + pnl, yes, no, Done(q.terms, i.acks, yes, no), Crossing(cc, yes, no), seconds,
            CancelActions(q.terms) + FlattenActions(q.terms, yes, no))
    else if FarFromEntry(q, mid) then
      Close(Drifted, m, reward + pnl, q.inventory, q.complementInventory, Cancelled(q.terms, i.acks), 0.0, seconds,
            CancelActions(q.terms))
    else
      Step(if Moved(q, i) then Requoted else Held, m, reward + pnl, 0.0, seconds, q.inventory, q.complementInventory,
           if Moved(q, i) then CancelActions(q.terms) + [Requote(mid)] else [])
  }

  function Skip(q: MakerQuote): Step {
    Step(Unread, q, 0.0, 0.0, 0.0, q.inventory, q.complementInventory, [])
  }

  function LiveStep(cc: real, q: MakerQuote, i: Input): Step {
    if PoolEnded(i.read) then EndedStep(cc, q, i)
    else if Readable(i.read) then MarkedStep(cc, q, i)
    else Skip(q)
  }

  // ---- one paper poll ----

  function SkewedOf(q: MakerQuote): Skewed {
    Skewed(q.terms.size, q.terms.halfSpreadC, q.terms.skew, q.terms.cancelEfficiency,
           if q.terms.maxInventory > 0.0 then q.terms.maxInventory else CAP_MULT * q.terms.size)
  }

  function PaperFillOf(q: MakerQuote, mid: real): PaperFill {
    MakerFill(q.lastMid, mid, q.inventory, SkewedOf(q))
  }

  /** Paper accrual never tracks the NO leg: every update it writes clears it. */
  function PaperStep(cc: real, q: MakerQuote, i: Input): Step {
    if PoolEnded(i.read) then
      var cost := Max(0.0, Crossing(cc, q.inventory, 0.0));
      Step(Ended, q.(active := false), q.terms.committed - cost, cost, 0.0, q.inventory, q.complementInventory, [])
    else if Readable(i.read) then
      var mid, seconds := i.read.mid, SecondsSince(q, i.now);
      var reward := RewardFor(q, i.read, seconds);
      var f := PaperFillOf(q, mid);
      var inventory, pnl := q.inventory + f.shares, LegMove(q.inventory, q.lastMid, mid) - f.loss;
      var m := Accrue(q, mid, i.now, reward, pnl, f.loss, if f.shares != 0.0 then 1 else 0);
      if FarFromEntry(q, mid) then
        Close(Drifted, m, reward + pnl, inventory, 0.0, true, Crossing(cc, inventory, 0.0), seconds, [])
      else
        Step(Held, WithLegs(m, inventory, 0.0), reward + pnl, 0.0, seconds, inventory, 0.0, [])
    else Skip(q)
  }

  function StepOf(live: bool, cc: real, q: MakerQuote, i: Input): Step {
    if live then LiveStep(cc, q, i) else PaperStep(cc, q, i)
  }

  // ---- money ----

  /** What a row accounts for: capital it holds while active, less what it has earned. */
  function Claim(q: MakerQuote): real {
    (if q.active then q.terms.committed else 0.0) - (q.accrued + q.inventoryPnl)
  }

  /** Every branch moves exactly as much cash as it books: rewards and marks go to cash and to the
      row alike, an exit hands the capital back, and only the crossing cost is lost. */
  lemma StepConserves(live: bool, cc: real, q: MakerQuote, i: Input)
    requires q.active
    ensures var s := StepOf(live, cc, q, i); s.credit + Claim(s.q) == Claim(q) - s.cost && s.cost >= 0.0
  {
    if live {
      LiveConserves(cc, q, i);
    } else {
      PaperConserves(cc, q, i);
    }
  }

  lemma LiveConserves(cc: real, q: MakerQuote, i: Input)
    requires q.active
    ensures var s := LiveStep(cc, q, i); s.credit + Claim(s.q) == Claim(q) - s.cost && s.cost >= 0.0
  {}

  lemma PaperConserves(cc: real, q: MakerQuote, i: Input)
    requires q.active
    ensures var s := PaperStep(cc, q, i); s.credit + Claim(s.q) == Claim(q) - s.cost && s.cost >= 0.0
  {}
}
