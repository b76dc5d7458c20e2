// cpp/src/pmm/engine.cpp: the engine that updates the account and the quote table in place, each
// method proved against the ledger's function of the state before it.
module Engine {
  import opened Common
  import opened Orderbook
  import opened Quotes
  import opened Ledger

  /** The columns an accrual writes. */
  datatype AccrualUpdate = AccrualUpdate(
    accrued: real, bleed: real, fills: int, lastMid: real, lastAccrued: real, inventory: real,
    complementInventory: real, inventoryPnl: real)

  function Updated(q: MakerQuote, u: AccrualUpdate): MakerQuote {
    MakerQuote(q.terms, u.inventory, u.complementInventory, u.inventoryPnl, u.accrued, u.bleed, u.fills, u.lastMid,
               u.lastAccrued, q.active)
  }

  datatype Summary = Summary(active: nat, total: nat, committed: real, openInventory: real, rewardIncome: real,
                             inventoryPnl: real, bleed: real, net: real)

  function SummaryOf(quotes: seq<MakerQuote>): Summary {
    Summary(ActiveCount(quotes), |quotes|, Sum(CommittedOf, quotes), Sum(OpenOf, quotes), Sum(RewardOf, quotes),
            Sum(PnlOf, quotes), Sum(BleedOf, quotes), Sum(RewardOf, quotes) + Sum(PnlOf, quotes))
  }

  /** What one more row adds to the summary: its capital and its legs while it is active, its earnings
      always; and the net is what both kinds of earnings come to. */
  lemma SummaryAdds(quotes: seq<MakerQuote>, q: MakerQuote)
    ensures var a, b := SummaryOf(quotes), SummaryOf(quotes + [q]);
            && b.total == a.total + 1 && b.active == a.active + (if q.active then 1 else 0)
            && b.committed == a.committed + (if q.active then q.terms.committed else 0.0)
            && b.openInventory == a.openInventory + (if q.active then Abs(q.inventory) + Abs(q.complementInventory) else 0.0)
            && b.rewardIncome == a.rewardIncome + q.accrued && b.inventoryPnl == a.inventoryPnl + q.inventoryPnl
            && b.bleed == a.bleed + q.bleed && b.net == b.rewardIncome + b.inventoryPnl
    ensures SummaryOf([]) == Summary(0, 0, 0.0, 0.0, 0.0, 0.0, 0.0, 0.0)
  {
    assert (quotes + [q])[..|quotes|] == quotes;
  }

  /** What the rows' actions come to over a poll, in the order of the rows. */
  function ActionsFrom(l: Account, p: Poll, k: nat): seq<Action>
    requires k <= |l.quotes|
    decreases |l.quotes| - k
  {
    if k == |l.quotes| then []
    else RowActions(l, p, k) + ActionsFrom(PollRow(true, l, p, k), p, k + 1)
  }

  function RowActions(l: Account, p: Poll, k: nat): seq<Action>
    requires k < |l.quotes|
  {
    if l.quotes[k].active then RowStep(true, l, p, k).actions else []
  }

  /** A step, taken by the whole account. */
  function Taken(l: Account, k: nat, s: Step): Account
    requires k < |l.quotes|
  {
    l.(cash := l.cash + s.credit, quotes := l.quotes[k := s.q])
  }

  method AddFills(fills: seq<RealFill>, mark: real) returns (shares: real, pnl: real, bleed: real, n: int)
    ensures Tally(shares, pnl, bleed, n) == TallyOf(fills, mark)
  {
    shares, pnl, bleed, n := 0.0, 0.0, 0.0, 0;
    var i := 0;
    while i < |fills|
      invariant 0 <= i <= |fills|
      invariant Tally(shares, pnl, bleed, n) == TallyOf(fills[..i], mark)
    {
      assert fills[..i + 1][..i] == fills[..i];
      var fp := FillPnl(fills[i], mark);
      shares := shares + FillShares(fills[i]);
      pnl := pnl + fp;
      bleed := bleed + Max(0.0, -fp);
      n := n + 1;
      i := i + 1;
    }
    assert fills[..i] == fills;
  }

  /** The ended branch from its two tallies. */
  lemma EndedIs(cc: real, q: MakerQuote, i: Input, a: Tally, b: Tally, u: AccrualUpdate)
    requires a == TallyOf(i.fills, q.lastMid) && b == TallyOf(i.noFills, 1.0 - q.lastMid)
    requires u == AccrualUpdate(q.accrued + 0.0, q.bleed + (a.bleed + b.bleed), q.fills + (a.n + b.n), q.lastMid,
                                RoundMicro(i.now), q.inventory, q.complementInventory, q.inventoryPnl + (a.pnl + b.pnl))
    ensures var yes, no := q.inventory + a.shares, q.complementInventory + b.shares;
            EndedStep(cc, q, i)
            == Close(Ended, Updated(q, u), a.pnl + b.pnl, yes, no, Done(q.terms, i.acks, yes, no), Crossing(cc, yes, no), 0.0,
                     CancelActions(q.terms) + FlattenActions(q.terms, yes, no))
  {}

  method SumBy(f: MakerQuote -> real, quotes: seq<MakerQuote>) returns (total: real)
    ensures total == Sum(f, quotes)
  {
    total := 0.0;
    var k := 0;
    while k < |quotes|
      invariant 0 <= k <= |quotes|
      invariant total == Sum(f, quotes[..k])
    {
      assert quotes[..k + 1][..k] == quotes[..k];
      total := total + f(quotes[k]);
      k := k + 1;
    }
    assert quotes[..k] == quotes;
  }

  class Engine {
    var cash: real
    var quotes: seq<MakerQuote>
    var crossingC: real
    var chain: map<string, real>

    function State(): Account
      reads this
    {
      Account(cash, quotes, crossingC, chain)
    }

    constructor (balance: real)
      ensures State() == Account(balance, [], 0.0, map[])
    {
      cash, quotes, crossingC, chain := balance, [], 0.0, map[];
    }

    method SetChainPositions(seen: map<string, real>)
      modifies this
      ensures State() == Apply(old(State()), ChainOp(seen))
    {
      chain := seen;
    }

    method SetCrossing(cents: real)
      modifies this
      ensures State() == Apply(old(State()), CrossingOp(cents))
    {
      crossingC := cents;
    }

    /** Resets spendable cash to the capital, less what active quotes already hold. */
    method SyncCapital(capital: real)
      modifies this
      ensures State() == Apply(old(State()), SyncOp(capital))
    {
      var committed := SumBy(CommittedOf, quotes);
      cash := Max(0.0, capital - committed);
    }

    method CreditMaker(amount: real)
      modifies this`cash
      ensures cash == old(cash) + amount
    {
      cash := cash + amount;
    }

    method UpdateAccrual(k: nat, u: AccrualUpdate)
      requires k < |quotes|
      modifies this`quotes
      ensures quotes == old(quotes)[k := Updated(old(quotes)[k], u)]
    {
      quotes := quotes[k := Updated(quotes[k], u)];
    }

    method ExitMakerQuote(k: nat, crossing: real)
      requires k < |quotes|
      modifies this
      ensures cash == old(cash) + old(quotes)[k].terms.committed - Max(0.0, crossing)
      ensures quotes == old(quotes)[k := old(quotes)[k].(active := false)]
      ensures crossingC == old(crossingC) && chain == old(chain)
    {
      cash := cash + quotes[k].terms.committed - Max(0.0, crossing);
      quotes := quotes[k := quotes[k].(active := false)];
    }

    // ---- placing and cancelling ----

    method PlaceMakerQuote(r: Request) returns (placed: Placed)
      modifies this
      ensures Outcome(State(), placed) == Place(old(State()), r)
    {
      if !r.outcomeOk { return Rejected(InvalidOutcome); }
      if r.closed { return Rejected(MarketClosed); }
      if r.pool.None? { return Rejected(NotInProgram); }
      var t := TermsFor(r, r.pool.value);
      if t.size < r.pool.value.minSize { return Rejected(BelowMinSize); }
      if t.halfSpreadC <= 0.0 || t.halfSpreadC > t.maxSpreadC { return Rejected(BadHalfSpread); }
      if !(0.0 <= t.cancelEfficiency <= 1.0) { return Rejected(BadCancelEfficiency); }
      if t.skew < 0.0 { return Rejected(NegativeSkew); }
      if t.maxInventory <= 0.0 { return Rejected(BadMaxInventory); }
      if !(0.0 < t.entryMid < 1.0) { return Rejected(NoMidpoint); }
      if MinLeg(t) < MIN_ORDER_USD { return Rejected(LegTooSmall); }
      if t.committed > cash { return Rejected(InsufficientBalance); }
      cash := cash - t.committed;
      quotes := quotes + [Opened(t, r.now)];
      placed := Booked(|quotes|);
    }

    /** `acks` are the venue's answers to the orders sent, in order. */
    method PlaceMakerQuoteLive(r: Request, acks: seq<bool>) returns (placed: Placed)
      modifies this
      ensures Outcome(State(), placed) == PlaceLive(old(State()), r, forall i :: 0 <= i < |acks| ==> acks[i])
    {
      placed := PlaceMakerQuote(Live(r));
      if placed.Rejected? { return; }
      if HoldsOnChain(State(), r.tokenId) || HoldsOnChain(State(), r.complementId) {
        return SkippedHolding(placed.id);
      }
      var ok := true;
      var i := 0;
      while i < |acks|
        invariant 0 <= i <= |acks|
        invariant ok <==> forall j :: 0 <= j < i ==> acks[j]
      {
        if !acks[i] { ok := false; }
        i := i + 1;
      }
      if !ok {
        var _ := CancelMakerQuote(placed.id);
        placed := RolledBack(placed.id);
      }
    }

    method CancelMakerQuote(id: int) returns (found: bool)
      modifies this
      ensures found == ActiveId(old(State()), id)
      ensures State() == Cancel(old(State()), id)
    {
      if !ActiveId(State(), id) { return false; }
      cash := cash + quotes[id - 1].terms.committed;
      quotes := quotes[id - 1 := quotes[id - 1].(active := false)];
      found := true;
    }

    // ---- one row of a live poll ----

    /** Credits the gain, and leaves when everything was acknowledged; otherwise writes both legs
        back so that the next poll tries again. */
    method CloseRow(k: nat, u: AccrualUpdate, gain: real, yes: real, no: real, done: bool, crossing: real,
                    ghost branch: Branch, ghost seconds: real, ghost actions: seq<Action>)
      requires k < |quotes|
      modifies this
      ensures var s := Close(branch, Updated(old(quotes)[k], u), gain, yes, no, done, crossing, seconds, actions);
              State() == Taken(old(State()), k, s)
    {
      CreditMaker(gain);
      if !done {
        UpdateAccrual(k, u.(inventory := yes, complementInventory := no));
        return;
      }
      UpdateAccrual(k, u.(inventory := 0.0, complementInventory := 0.0));
      ExitMakerQuote(k, crossing);
    }

    method EndedRow(k: nat, i: Input) returns (actions: seq<Action>)
      requires k < |quotes| && quotes[k].active
      modifies this
      ensures var s := EndedStep(old(crossingC), old(quotes)[k], i);
              State() == Taken(old(State()), k, s) && actions == s.actions
    {
      var q := quotes[k];
      var a, pnl1, bleed1, n1 := AddFills(i.fills, q.lastMid);
      var b, pnl2, bleed2, n2 := AddFills(i.noFills, 1.0 - q.lastMid);
      var yes, no, pnl := q.inventory + a, q.complementInventory + b, pnl1 + pnl2;
      actions := CancelActions(q.terms) + FlattenActions(q.terms, yes, no);
      var done := Cancelled(q.terms, i.acks) && FlatYes(i.acks, yes) && FlatNo(q.terms, i.acks, no);
      var u := AccrualUpdate(q.accrued + 0.0, q.bleed + (bleed1 + bleed2), q.fills + (n1 + n2), q.lastMid, RoundMicro(i.now),
                             q.inventory, q.complementInventory, q.inventoryPnl + pnl);
      EndedIs(crossingC, q, i, Tally(a, pnl1, bleed1, n1), Tally(b, pnl2, bleed2, n2), u);
      CloseRow(k, u, pnl, yes, no, done, Crossing(crossingC, yes, no), Ended, 0.0, actions);
    }

    method MarkedRow(k: nat, i: Input) returns (actions: seq<Action>)
      requires k < |quotes| && quotes[k].active && Readable(i.read)
      modifies this
      ensures var s := MarkedStep(old(crossingC), old(quotes)[k], i);
              State() == Taken(old(State()), k, s) && actions == s.actions
    {
      var q, mid := quotes[k], i.read.mid;
      var seconds := Min(Max(0.0, i.now - q.lastAccrued), MAX_ACCRUAL_SECONDS);
      var reward := RewardFor(q, i.read, seconds);
      var dYes, pnl1, bleed1, n1 := AddFills(i.fills, mid);
      var dNo, pnl2, bleed2, n2 := AddFills(i.noFills, 1.0 - mid);
      var yes, no, n := q.inventory + dYes, q.complementInventory + dNo, n1 + n2;
      var pnl := PnlDelta(q, mid, pnl1 + pnl2);
      var u := AccrualUpdate(q.accrued + reward, q.bleed + (bleed1 + bleed2), q.fills + n, mid, RoundMicro(i.now),
                             q.inventory, q.complementInventory, q.inventoryPnl + pnl);
      FillCounts(i, mid);
      if n > 0 || Abs(q.inventory) >= 1.0 || Abs(q.complementInventory) >= 1.0 {
        actions := CancelActions(q.terms) + FlattenActions(q.terms, yes, no);
        var done := Cancelled(q.terms, i.acks) && FlatYes(i.acks, yes) && FlatNo(q.terms, i.acks, no);
        CloseRow(k, u, reward + pnl, yes, no, done, Crossing(crossingC, yes, no), Filled, seconds, actions);
      } else if FarFromEntry(q, mid) {
        actions := CancelActions(q.terms);
        CloseRow(k, u, reward + pnl, q.inventory, q.complementInventory, Cancelled(q.terms, i.acks), 0.0, Drifted, seconds,
                 actions);
      } else {
        actions := if Moved(q, i) then CancelActions(q.terms) + [Requote(mid)] else [];
        CreditMaker(reward + pnl);
        UpdateAccrual(k, u);
      }
    }

    method LiveRow(k: nat, i: Input) returns (actions: seq<Action>)
      requires k < |quotes| && quotes[k].active
      modifies this
      ensures var s := LiveStep(old(crossingC), old(quotes)[k], i);
              State() == Taken(old(State()), k, s) && actions == s.actions
    {
      actions := [];
      if PoolEnded(i.read) {
        actions := EndedRow(k, i);
      } else if Readable(i.read) {
        actions := MarkedRow(k, i);
      }
    }

    /** One live poll over all active quotes; returns everything sent. */
    method AccrueMakerRewardsLive(p: Poll) returns (sent: seq<Action>)
      modifies this
      ensures State() == Apply(old(State()), PollOp(true, p))
      ensures sent == ActionsFrom(old(State()), p, 0)
    {
      sent := [];
      var k := 0;
      while k < |quotes|
        invariant 0 <= k <= |quotes|
        invariant PollFrom(true, State(), p, k) == PollFrom(true, old(State()), p, 0)
        invariant sent + ActionsFrom(State(), p, k) == ActionsFrom(old(State()), p, 0)
      {
        var actions := PollLiveRow(k, p);
        ConcatAssoc(sent, actions, ActionsFrom(State(), p, k + 1));
        sent := sent + actions;
        k := k + 1;
      }
    }

    method PollLiveRow(k: nat, p: Poll) returns (actions: seq<Action>)
      requires k < |quotes|
      modifies this
      ensures State() == PollRow(true, old(State()), p, k) && |quotes| == |old(quotes)|
      ensures actions == RowActions(old(State()), p, k)
    {
      actions := [];
      if quotes[k].active { actions := LiveRow(k, InputFor(p, k, quotes[k].terms)); }
    }

    // ---- paper ----

    method PaperRow(k: nat, i: Input)
      requires k < |quotes| && quotes[k].active
      modifies this
      ensures State() == Taken(old(State()), k, PaperStep(old(crossingC), old(quotes)[k], i))
    {
      var q, mid := quotes[k], i.read.mid;
      if PoolEnded(i.read) {
        ExitMakerQuote(k, Crossing(crossingC, q.inventory, 0.0));
      } else if Readable(i.read) {
        var seconds := Max(0.0, i.now - q.lastAccrued);
        var reward := RewardFor(q, i.read, seconds);
        var f := PaperFillOf(q, mid);
        var inventory, pnl := q.inventory + f.shares, LegMove(q.inventory, q.lastMid, mid) - f.loss;
        var u := AccrualUpdate(q.accrued + reward, q.bleed + f.loss, q.fills + if f.shares != 0.0 then 1 else 0, mid,
                               RoundMicro(i.now), inventory, 0.0, q.inventoryPnl + pnl);
        CreditMaker(reward + pnl);
        if FarFromEntry(q, mid) {
          UpdateAccrual(k, u.(inventory := 0.0));
          ExitMakerQuote(k, Crossing(crossingC, inventory, 0.0));
        } else {
          UpdateAccrual(k, u);
        }
      }
    }

    method AccrueMakerRewards(p: Poll)
      modifies this
      ensures State() == Apply(old(State()), PollOp(false, p))
    {
      var k := 0;
      while k < |quotes|
        invariant 0 <= k <= |quotes|
        invariant PollFrom(false, State(), p, k) == PollFrom(false, old(State()), p, 0)
      {
        ghost var before := State();
        if quotes[k].active { PaperRow(k, InputFor(p, k, quotes[k].terms)); }
        assert State() == PollRow(false, before, p, k);
        k := k + 1;
      }
    }

    // ---- reconciling, summing up ----

    method ReconcileInventory(seen: map<string, real>) returns (fixed: nat)
      modifies this
      ensures State() == Apply(old(State()), ReconcileOp(seen))
      ensures fixed == Disagreeing(old(quotes), seen)
    {
      fixed := 0;
      var rows := quotes;
      var k := 0;
      while k < |rows|
        invariant 0 <= k <= |rows| == |quotes|
        invariant cash == old(cash) && crossingC == old(crossingC) && chain == old(chain)
        invariant forall j :: 0 <= j < k ==> quotes[j] == ReconcileRow(rows[j], seen)
        invariant forall j :: k <= j < |rows| ==> quotes[j] == rows[j]
        invariant fixed == Disagreeing(rows[..k], seen)
      {
        assert rows[..k + 1][..k] == rows[..k];
        var changed := ReconcileAt(k, seen);
        if changed { fixed := fixed + 1; }
        k := k + 1;
      }
      assert rows[..k] == rows;
      assert quotes == ReconcileRows(rows, seen);
    }

    method ReconcileAt(k: nat, seen: map<string, real>) returns (changed: bool)
      requires k < |quotes|
      modifies this`quotes
      ensures quotes == old(quotes)[k := ReconcileRow(old(quotes)[k], seen)]
      ensures changed <==> old(quotes)[k].active && !Agrees(old(quotes)[k], seen)
    {
      var q := quotes[k];
      changed := q.active && !Agrees(q, seen);
      if changed {
        UpdateAccrual(k, AccrualUpdate(q.accrued, q.bleed, q.fills, q.lastMid, q.lastAccrued, ChainLeg(seen, q.terms.tokenId),
                                       ChainNo(seen, q.terms), q.inventoryPnl));
      }
    }

    method GetMakerSummary() returns (s: Summary)
      ensures s == SummaryOf(quotes)
    {
      var active, committed, open := 0, 0.0, 0.0;
      var reward, pnl, bleed := 0.0, 0.0, 0.0;
      var k := 0;
      while k < |quotes|
        invariant 0 <= k <= |quotes|
        invariant active == ActiveCount(quotes[..k])
        invariant committed == Sum(CommittedOf, quotes[..k]) && open == Sum(OpenOf, quotes[..k])
        invariant reward == Sum(RewardOf, quotes[..k]) && pnl == Sum(PnlOf, quotes[..k]) && bleed == Sum(BleedOf, quotes[..k])
      {
        assert quotes[..k + 1][..k] == quotes[..k];
        var q := quotes[k];
        if q.active {
          committed := committed + q.terms.committed;
          open := open + (Abs(q.inventory) + Abs(q.complementInventory));
          active := active + 1;
        }
        reward := reward + q.accrued;
        pnl := pnl + q.inventoryPnl;
        bleed := bleed + q.bleed;
        k := k + 1;
      }
      assert quotes[..k] == quotes;
      s := Summary(active, |quotes|, committed, open, reward, pnl, bleed, reward + pnl);
    }
  }

  lemma FillCounts(i: Input, mid: real)
    ensures TallyOf(i.fills, mid).n + TallyOf(i.noFills, 1.0 - mid).n == |i.fills| + |i.noFills|
  {
    TallyCounts(i.fills, mid);
    TallyCounts(i.noFills, 1.0 - mid);
  }
}
