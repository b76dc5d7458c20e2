// What one poll promises about its quote: profit and loss, exits, and what is sent.
module QuoteLaws {
  import opened Common
  import opened Orderbook
  import opened Quotes

  // ---- profit and loss ----

  /** Both legs at a mid: YES in mid space, NO in one-minus-mid space. */
  function Value(yes: real, no: real, mid: real): real {
    Worth(yes, mid) + Worth(no, 1.0 - mid)
  }

  /** What the fills a poll applied cost, over both legs. */
  function InputCost(i: Input): real {
    NetCost(i.fills) + NetCost(i.noFills)
  }

  predicate Applied(s: Step) {
    !s.branch.Unread?
  }

  /** What two tallies against one mid have gained together. */
  function Gain(i: Input, mid: real): real {
    TallyOf(i.fills, mid).pnl + TallyOf(i.noFills, 1.0 - mid).pnl
  }

  lemma LegDelta(y: real, fills: seq<RealFill>, last: real, mark: real)
    ensures LegMove(y, last, mark) + TallyOf(fills, mark).pnl
         == Worth(y + NetShares(fills), mark) - Worth(y, last) - NetCost(fills)
  {
    TallyGains(fills, mark);
    WorthMoves(y, NetShares(fills), last, mark);
  }

  lemma WorthMoves(y: real, dy: real, last: real, mark: real)
    ensures LegMove(y, last, mark) + Worth(dy, mark) == Worth(y + dy, mark) - Worth(y, last)
  {
    assert LegMove(y, last, mark) == y * mark - y * last;
    assert Worth(y + dy, mark) == y * mark + dy * mark;
  }

  lemma NoMove(n: real, last: real, mid: real)
    ensures LegMove(n, mid, last) == LegMove(n, 1.0 - last, 1.0 - mid)
  {}

  /** The profit a poll books, in any branch: what both legs are worth after the fills at the new
      mid, less what they were worth before at the old one, less what the fills cost. */
  lemma DeltaIsValueChange(q: MakerQuote, mid: real, i: Input)
    ensures PnlDelta(q, mid, Gain(i, mid))
         == Value(q.inventory + NetShares(i.fills), q.complementInventory + NetShares(i.noFills), mid)
          - Value(q.inventory, q.complementInventory, q.lastMid) - InputCost(i)
  {
    LegDelta(q.inventory, i.fills, q.lastMid, mid);
    LegDelta(q.complementInventory, i.noFills, 1.0 - q.lastMid, 1.0 - mid);
    NoMove(q.complementInventory, q.lastMid, mid);
  }

  /** Marked: profit and loss is the value of the holdings at the last mid less their cost. */
  ghost predicate Books(q: MakerQuote, yes: real, no: real, cost: real) {
    q.inventoryPnl == Value(yes, no, q.lastMid) - cost
  }

  /** The legs a live poll ends with, before an exit clears them, are the old ones plus the fills
      applied; the row records them exactly while it stays, and nothing after it left. */
  lemma LiveLegs(cc: real, q: MakerQuote, i: Input)
    ensures LegShape(q, i, LiveStep(cc, q, i))
  {
    if PoolEnded(i.read) {
      EndedLegs(cc, q, i);
    } else if Readable(i.read) {
      MarkedLegs(cc, q, i);
    }
  }

  ghost predicate LegShape(q: MakerQuote, i: Input, s: Step) {
    && (Applied(s) ==> s.yes == q.inventory + NetShares(i.fills) && s.no == q.complementInventory + NetShares(i.noFills))
    && (!Applied(s) ==> s.q == q && s.yes == q.inventory && s.no == q.complementInventory)
    && (Applied(s) && q.active ==> s.q == if s.q.active then WithLegs(s.q, s.yes, s.no) else WithLegs(s.q, 0.0, 0.0))
  }

  lemma EndedLegs(cc: real, q: MakerQuote, i: Input)
    ensures LegShape(q, i, EndedStep(cc, q, i))
  {
    TallyCounts(i.fills, q.lastMid);
    TallyCounts(i.noFills, 1.0 - q.lastMid);
  }

  lemma MarkedLegs(cc: real, q: MakerQuote, i: Input)
    requires Readable(i.read)
    ensures LegShape(q, i, MarkedStep(cc, q, i))
  {
    TallyCounts(i.fills, i.read.mid);
    TallyCounts(i.noFills, 1.0 - i.read.mid);
  }

  /** Profit and loss telescopes over one live poll, whatever the branch and the mids. */
  lemma LiveMarks(cc: real, q: MakerQuote, i: Input, cost: real)
    requires Books(q, q.inventory, q.complementInventory, cost)
    ensures var s := LiveStep(cc, q, i);
            Books(s.q, s.yes, s.no, if Applied(s) then cost + InputCost(i) else cost)
  {
    LiveLegs(cc, q, i);
    if PoolEnded(i.read) {
      DeltaIsValueChange(q, q.lastMid, i);
      EndedPnl(cc, q, i);
    } else if Readable(i.read) {
      DeltaIsValueChange(q, i.read.mid, i);
      MarkedPnl(cc, q, i);
    }
  }

  lemma EndedPnl(cc: real, q: MakerQuote, i: Input)
    ensures var s := EndedStep(cc, q, i);
            && s.q.lastMid == q.lastMid
            && s.q.inventoryPnl - q.inventoryPnl == PnlDelta(q, q.lastMid, Gain(i, q.lastMid))
  {}

  lemma MarkedPnl(cc: real, q: MakerQuote, i: Input)
    requires Readable(i.read)
    ensures var s := MarkedStep(cc, q, i);
            && s.q.lastMid == i.read.mid
            && s.q.inventoryPnl - q.inventoryPnl == PnlDelta(q, i.read.mid, Gain(i, i.read.mid))
  {}

  /** What a paper poll pays: its fill at the quote's own price; and the NO leg, which paper
      drops, goes at the mark it had. */
  function PaperCost(q: MakerQuote, i: Input): real {
    if Readable(i.read) then PaperPaid(q, i.read.mid) - Worth(q.complementInventory, 1.0 - q.lastMid) else 0.0
  }

  function PaperPaid(q: MakerQuote, mid: real): real {
    Worth(PaperFillOf(q, mid).shares, FillPrice(q.lastMid, mid, q.inventory, SkewedOf(q)))
  }

  /** The same law for a paper poll. */
  lemma PaperMarks(cc: real, q: MakerQuote, i: Input, cost: real)
    requires Books(q, q.inventory, q.complementInventory, cost)
    ensures var s := PaperStep(cc, q, i); Books(s.q, s.yes, s.no, cost + PaperCost(q, i))
    ensures var s := PaperStep(cc, q, i); s.q.active ==> s.q.inventory == s.yes && s.q.complementInventory == s.no
  {
    if Readable(i.read) {
      PaperPnl(cc, q, i);
      PaperDelta(q, i.read.mid);
    }
  }

  lemma PaperPnl(cc: real, q: MakerQuote, i: Input)
    requires Readable(i.read)
    ensures var s, f := PaperStep(cc, q, i), PaperFillOf(q, i.read.mid);
            && s.q.lastMid == i.read.mid && s.yes == q.inventory + f.shares && s.no == 0.0
            && s.q.inventoryPnl == q.inventoryPnl + LegMove(q.inventory, q.lastMid, i.read.mid) - f.loss
            && (s.q.active ==> s.q.inventory == s.yes && s.q.complementInventory == s.no)
  {}

  lemma PaperDelta(q: MakerQuote, mid: real)
    ensures LegMove(q.inventory, q.lastMid, mid) - PaperFillOf(q, mid).loss
         == Value(q.inventory + PaperFillOf(q, mid).shares, 0.0, mid)
          - Value(q.inventory, q.complementInventory, q.lastMid)
          - (PaperPaid(q, mid) - Worth(q.complementInventory, 1.0 - q.lastMid))
  {
    var f := PaperFillOf(q, mid);
    LossIsPriceDifference(q.lastMid, mid, q.inventory, SkewedOf(q));
    PaperMove(q.inventory, f.shares, q.lastMid, mid, f.loss, PaperPaid(q, mid));
    assert Worth(0.0, 1.0 - mid) == 0.0;
  }

  lemma PaperMove(y: real, dy: real, last: real, mid: real, loss: real, paid: real)
    requires dy * mid + loss == paid
    ensures LegMove(y, last, mid) - loss == Worth(y + dy, mid) - Worth(y, last) - paid
  {
    assert LegMove(y, last, mid) == y * mid - y * last;
    assert Worth(y + dy, mid) == y * mid + dy * mid;
  }

  /** The spread: as many YES as NO, bought at the bid and at one minus the ask, have earned the
      spread on each pair, at any mid. */
  lemma PairsEarnTheSpread(q: MakerQuote, n: real, bid: real, ask: real)
    requires Books(q, n, n, n * bid + n * (1.0 - ask))
    ensures q.inventoryPnl == n * (ask - bid)
  {
    var mid := q.lastMid;
    assert Value(n, n, mid) == n * (mid + (1.0 - mid)) == n;
    assert n * (1.0 - ask) == n - n * ask;
  }

  // ---- exits ----

  /** The acknowledgement that belongs to an action. */
  predicate Acknowledged(a: Action, t: Terms, acks: Acks) {
    match a
    case CancelAll(token) => if token == t.tokenId then acks.cancelYes else acks.cancelNo
    case FlattenLeg(token, _, _) => if token == t.tokenId then acks.flatYes else acks.flatNo
    case Requote(_) => true
  }

  predicate ExitBranch(b: Branch) {
    b.Ended? || b.Filled? || b.Drifted?
  }

  lemma DoneIff(t: Terms, acks: Acks, yes: real, no: real)
    requires t.tokenId != t.complementId
    ensures Done(t, acks, yes, no) <==> AllAcknowledged(CancelActions(t) + FlattenActions(t, yes, no), t, acks)
    ensures Cancelled(t, acks) <==> AllAcknowledged(CancelActions(t), t, acks)
  {
    CancelsIff(t, acks);
    FlattensIff(t, acks, yes, no);
    BothIff(CancelActions(t), FlattenActions(t, yes, no), t, acks);
  }

  predicate AllAcknowledged(actions: seq<Action>, t: Terms, acks: Acks) {
    forall a :: a in actions ==> Acknowledged(a, t, acks)
  }

  lemma BothIff(xs: seq<Action>, ys: seq<Action>, t: Terms, acks: Acks)
    ensures AllAcknowledged(xs + ys, t, acks) <==> AllAcknowledged(xs, t, acks) && AllAcknowledged(ys, t, acks)
  {
    assert forall a :: a in xs + ys <==> a in xs || a in ys;
  }

  lemma CancelsIff(t: Terms, acks: Acks)
    requires t.tokenId != t.complementId
    ensures Cancelled(t, acks) <==> AllAcknowledged(CancelActions(t), t, acks)
  {
    var yes, no := CancelAll(t.tokenId), CancelAll(t.complementId);
    assert Acknowledged(yes, t, acks) == acks.cancelYes && Acknowledged(no, t, acks) == acks.cancelNo;
    if t.complementId == "" {
      assert CancelActions(t) == [yes];
    } else {
      assert CancelActions(t) == [yes, no];
    }
  }

  lemma FlattensIff(t: Terms, acks: Acks, yes: real, no: real)
    requires t.tokenId != t.complementId
    ensures FlatYes(acks, yes) && FlatNo(t, acks, no) <==> AllAcknowledged(FlattenActions(t, yes, no), t, acks)
  {
    LegIff(t.tokenId, yes, t, acks);
    LegIff(t.complementId, no, t, acks);
    if t.complementId == "" {
      assert FlattenActions(t, yes, no) == FlattenAction(t.tokenId, yes);
    } else {
      BothIff(FlattenAction(t.tokenId, yes), FlattenAction(t.complementId, no), t, acks);
    }
  }

  lemma LegIff(token: string, inventory: real, t: Terms, acks: Acks)
    ensures AllAcknowledged(FlattenAction(token, inventory), t, acks)
            <==> Abs(inventory) < NEGLIGIBLE || if token == t.tokenId then acks.flatYes else acks.flatNo
  {
    if Abs(inventory) >= NEGLIGIBLE {
      assert FlattenLeg(token, inventory > 0.0, Abs(inventory)) in FlattenAction(token, inventory);
    }
  }

  /** A live poll takes a quote off the books exactly when it means to and the venue acknowledged
      every single thing it sent. */
  lemma ExitIffAcknowledged(cc: real, q: MakerQuote, i: Input)
    requires q.active && q.terms.tokenId != q.terms.complementId
    ensures var s := LiveStep(cc, q, i);
            !s.q.active <==> ExitBranch(s.branch) && AllAcknowledged(s.actions, q.terms, i.acks)
  {
    var s := LiveStep(cc, q, i);
    DoneIff(q.terms, i.acks, s.yes, s.no);
    ExitMeansDone(cc, q, i);
  }

  /** What a step that may exit looks like. */
  ghost predicate ExitShape(q: MakerQuote, i: Input, s: Step) {
    && (s.branch.Ended? || s.branch.Filled? ==>
          (!s.q.active <==> Done(q.terms, i.acks, s.yes, s.no))
          && s.actions == CancelActions(q.terms) + FlattenActions(q.terms, s.yes, s.no))
    && (s.branch.Drifted? ==> (!s.q.active <==> Cancelled(q.terms, i.acks)) && s.actions == CancelActions(q.terms))
    && (!ExitBranch(s.branch) ==> s.q.active)
  }

  lemma ExitMeansDone(cc: real, q: MakerQuote, i: Input)
    requires q.active
    ensures ExitShape(q, i, LiveStep(cc, q, i))
  {
    if PoolEnded(i.read) {
      EndedExit(cc, q, i);
    } else if Readable(i.read) {
      MarkedExit(cc, q, i);
    }
  }

  lemma EndedExit(cc: real, q: MakerQuote, i: Input)
    requires q.active
    ensures ExitShape(q, i, EndedStep(cc, q, i))
  {}

  lemma MarkedExit(cc: real, q: MakerQuote, i: Input)
    requires q.active && Readable(i.read)
    ensures ExitShape(q, i, MarkedStep(cc, q, i))
  {}

  /** Whatever is left of a leg after the fills is asked to be flattened in full, and both legs'
      orders cancelled, at the next poll that can read anything, if either leg was a share or
      more: an exit that failed is retried. Whether a retry can succeed is another matter: see
      LeavesIff in QuoteRuns. */
  lemma RetriedWhenReadable(cc: real, q: MakerQuote, i: Input)
    requires PoolEnded(i.read) || Readable(i.read)
    requires PoolEnded(i.read) || Exposed(q, i)
    ensures var s := LiveStep(cc, q, i);
            && CancelAll(q.terms.tokenId) in s.actions
            && (q.terms.complementId != "" ==> CancelAll(q.terms.complementId) in s.actions)
            && (Abs(s.yes) >= NEGLIGIBLE ==> FlattenLeg(q.terms.tokenId, s.yes > 0.0, Abs(s.yes)) in s.actions)
            && (Abs(s.no) >= NEGLIGIBLE && q.terms.complementId != "" ==>
                  FlattenLeg(q.terms.complementId, s.no > 0.0, Abs(s.no)) in s.actions)
  {
    var s := LiveStep(cc, q, i);
    assert s.actions == CancelActions(q.terms) + FlattenActions(q.terms, s.yes, s.no);
    assert s.actions[0] == CancelAll(q.terms.tokenId);
    assert q.terms.complementId != "" ==> s.actions[1] == CancelAll(q.terms.complementId);
    var fy, fn := FlattenAction(q.terms.tokenId, s.yes), FlattenAction(q.terms.complementId, s.no);
    assert fy != [] ==> fy[0] in FlattenActions(q.terms, s.yes, s.no);
    assert fn != [] && q.terms.complementId != "" ==> fn[0] in FlattenActions(q.terms, s.yes, s.no);
  }

  /** The one exit that flattens nothing drops less than one share of each leg. */
  lemma DriftDropsDust(cc: real, q: MakerQuote, i: Input)
    ensures var s := LiveStep(cc, q, i); s.branch.Drifted? ==> Abs(s.yes) < 1.0 && Abs(s.no) < 1.0
  {}
}
