// What a poll decides about a quote, said over the readings, the terms and the acknowledgements alone:
// when it leaves, what it is charged, what it is paid, and when its orders are moved.
module QuoteExits {
  import opened Common
  import opened Orderbook
  import opened Quotes
  import opened QuoteLaws
  import opened QuoteRuns
  import opened QuoteSeconds
  import Trades

  // ---- readings ----

  /** The pool pays something, and book and mid could be read. */
  predicate Sees(r: Read) {
    && r.configOk && r.pool.Some? && r.pool.value.daily > 0.0
    && r.bookOk && r.mid > 0.0 && r.mid < 1.0
  }

  /** The pool is known to pay nothing any more. */
  predicate Gone(r: Read) {
    r.configOk && match r.pool case None => true case Some(p) => !(p.daily > 0.0)
  }

  lemma ReadingsAre(r: Read)
    ensures Sees(r) <==> Readable(r)
    ensures Gone(r) <==> PoolEnded(r)
  {}

  /** At least the maximum spread away from the mid the quote was placed at. */
  predicate OutOfBand(t: Terms, mid: real) {
    if t.entryMid > 0.0 then 100.0 * Abs(mid - t.entryMid) >= t.maxSpreadC else t.maxSpreadC <= 0.0
  }

  lemma OutOfBandIs(q: MakerQuote, mid: real)
    ensures OutOfBand(q.terms, mid) <==> FarFromEntry(q, mid)
  {}

  /** Something was filled, or a leg of a share or more is on the books. */
  predicate Touched(q: MakerQuote, i: Input) {
    || i.fills != [] || i.noFills != []
    || q.inventory >= 1.0 || q.inventory <= -1.0 || q.complementInventory >= 1.0 || q.complementInventory <= -1.0
  }

  lemma TouchedIs(q: MakerQuote, i: Input)
    ensures Touched(q, i) <==> Exposed(q, i)
  {}

  /** The venue acknowledged cancelling both tokens, if there are two. */
  predicate OrdersGone(t: Terms, acks: Acks) {
    acks.cancelYes && (t.complementId != "" ==> acks.cancelNo)
  }

  /** And selling what either leg has after the fills, up to a billionth of a share. */
  predicate LegsGone(q: MakerQuote, i: Input) {
    var yes, no := q.inventory + NetShares(i.fills), q.complementInventory + NetShares(i.noFills);
    && (yes >= 0.000000001 || yes <= -0.000000001 ==> i.acks.flatYes)
    && (q.terms.complementId != "" && (no >= 0.000000001 || no <= -0.000000001) ==> i.acks.flatNo)
  }

  // ---- leaving ----

  /** A live poll that takes the quote off the books. */
  predicate Leaves(q: MakerQuote, i: Input) {
    && OrdersGone(q.terms, i.acks)
    && (|| (Gone(i.read) && LegsGone(q, i))
        || (Sees(i.read) && if Touched(q, i) then LegsGone(q, i) else OutOfBand(q.terms, i.read.mid)))
  }

  /** Exactly those polls do, for every quote, reading, fill and acknowledgement. */
  lemma LeavesExactly(cc: real, q: MakerQuote, i: Input)
    requires q.active
    ensures !LiveStep(cc, q, i).q.active <==> Leaves(q, i)
  {
    ReadingsAre(i.read);
    OutOfBandIs(q, i.read.mid);
    TouchedIs(q, i);
    LiveLegs(cc, q, i);
    ExitMeansDone(cc, q, i);
    BranchIs(cc, q, i);
  }

  lemma BranchIs(cc: real, q: MakerQuote, i: Input)
    ensures var b := LiveStep(cc, q, i).branch;
            && (b.Ended? <==> PoolEnded(i.read)) && (b.Filled? <==> Readable(i.read) && Exposed(q, i))
            && (b.Drifted? <==> Readable(i.read) && !Exposed(q, i) && FarFromEntry(q, i.read.mid))
            && (b.Unread? <==> !PoolEnded(i.read) && !Readable(i.read))
            && (b.Requoted? <==> Readable(i.read) && !Exposed(q, i) && !FarFromEntry(q, i.read.mid) && Moved(q, i))
  {}

  /** An untouched quote whose poll reads everything leaves if and only if the mid has drifted at
      least the maximum spread from its entry. */
  lemma DriftIff(cc: real, q: MakerQuote, i: Input)
    requires q.active && Sees(i.read) && OrdersGone(q.terms, i.acks) && q.terms.entryMid > 0.0
    requires i.fills == i.noFills == [] && Abs(q.inventory) < 1.0 && Abs(q.complementInventory) < 1.0
    ensures !LiveStep(cc, q, i).q.active <==> Abs(i.read.mid - q.terms.entryMid) >= q.terms.maxSpreadC / 100.0
  {
    LeavesExactly(cc, q, i);
  }

  /** A live poll that reads everything, brings no fill, and has its cancels acknowledged. */
  predicate Calm(t: Terms, e: Event) {
    e.Polled? && e.live && Sees(e.i.read) && e.i.fills == e.i.noFills == [] && OrdersGone(t, e.i.acks)
  }

  predicate InBand(t: Terms, e: Event) {
    e.Polled? && Abs(e.i.read.mid - t.entryMid) < t.maxSpreadC / 100.0
  }

  lemma CalmStep(q: MakerQuote, e: Event)
    requires q.active && q.terms.entryMid > 0.0 && Calm(q.terms, e)
    requires Abs(q.inventory) < 1.0 && Abs(q.complementInventory) < 1.0
    ensures var r := After(q, e);
            && r.terms == q.terms && (r.active <==> InBand(q.terms, e))
            && (r.active ==> r.inventory == q.inventory && r.complementInventory == q.complementInventory)
  {
    DriftIff(e.cc, q, e.i);
    LiveLegs(e.cc, q, e.i);
    AfterKeeps(q, e);
  }

  lemma {:induction false} StaysGone(q: MakerQuote, events: seq<Event>)
    requires !q.active
    ensures QuoteRun(q, events) == q
    decreases |events|
  {
    if events != [] { StaysGone(q, events[1..]); }
  }

  lemma {:induction false} CalmRun(q: MakerQuote, events: seq<Event>)
    requires q.active && q.terms.entryMid > 0.0 && Abs(q.inventory) < 1.0 && Abs(q.complementInventory) < 1.0
    requires forall e :: e in events ==> Calm(q.terms, e)
    ensures QuoteRun(q, events).active <==> forall e :: e in events ==> InBand(q.terms, e)
    decreases |events|
  {
    if events != [] {
      var e, rest := events[0], events[1..];
      assert e in events && forall f :: f in events <==> f == e || f in rest;
      CalmStep(q, e);
      if After(q, e).active { CalmRun(After(q, e), rest); } else { StaysGone(After(q, e), rest); }
    }
  }

  /** Over any run of such polls the quote is on the books until the first mid outside the band, and
      off them from there on. */
  lemma OnUntilOutOfBand(q: MakerQuote, events: seq<Event>, k: nat)
    requires q.active && q.terms.entryMid > 0.0 && Abs(q.inventory) < 1.0 && Abs(q.complementInventory) < 1.0
    requires k <= |events| && forall e :: e in events ==> Calm(q.terms, e)
    ensures QuoteRun(q, events[..k]).active <==> forall j :: 0 <= j < k ==> InBand(q.terms, events[j])
  {
    CalmRun(q, events[..k]);
    assert forall e :: e in events[..k] ==> e in events;
    assert forall j :: 0 <= j < k ==> events[j] in events[..k];
  }

  // ---- what an exit is charged ----

  /** Cents per share times the shares on both legs, never negative. */
  function Charge(cc: real, yes: real, no: real): real {
    Max(0.0, cc * (Abs(yes) + Abs(no)))
  }

  /** That, in cents, is charged for an exit that sells, and nothing for any other poll. */
  lemma ChargedExactly(cc: real, q: MakerQuote, i: Input)
    requires q.active
    ensures var yes, no := q.inventory + NetShares(i.fills), q.complementInventory + NetShares(i.noFills);
            100.0 * LiveStep(cc, q, i).cost == if Leaves(q, i) && (Gone(i.read) || Touched(q, i)) then Charge(cc, yes, no) else 0.0
  {
    var s := LiveStep(cc, q, i);
    SellingExit(cc, q, i);
    LiveLegs(cc, q, i);
    CostIs(cc, q, i);
    ChargeIs(cc, s.yes, s.no);
  }

  lemma SellingExit(cc: real, q: MakerQuote, i: Input)
    requires q.active
    ensures Leaves(q, i) && (Gone(i.read) || Touched(q, i))
            <==> !LiveStep(cc, q, i).q.active && (PoolEnded(i.read) || Exposed(q, i))
    ensures Leaves(q, i) ==> Applied(LiveStep(cc, q, i))
  {
    LeavesExactly(cc, q, i);
    ReadingsAre(i.read);
    TouchedIs(q, i);
  }

  lemma CostIs(cc: real, q: MakerQuote, i: Input)
    requires q.active
    ensures var s := LiveStep(cc, q, i);
            s.cost == if !s.q.active && (PoolEnded(i.read) || Exposed(q, i)) then Max(0.0, Crossing(cc, s.yes, s.no)) else 0.0
  {}

  lemma ChargeIs(cc: real, yes: real, no: real)
    ensures 100.0 * Max(0.0, Crossing(cc, yes, no)) == Charge(cc, yes, no)
  {
    CentsToDollars(cc, Abs(yes) + Abs(no), Crossing(cc, yes, no));
  }

  lemma CentsToDollars(cents: real, shares: real, dollars: real)
    requires dollars == cents / 100.0 * shares
    ensures 100.0 * dollars == cents * shares
  {
    assert 100.0 * (cents / 100.0) == cents;
  }

  // ---- what a poll pays ----

  function Times(x: real, y: real): real {
    x * y
  }

  /** A part paid to a score, as the score is to itself and its competition. */
  predicate InProportion(paid: real, whole: real, score: real, qmin: real) {
    paid * (score + qmin) == whole * score && (score == 0.0 ==> paid == 0.0)
  }

  /** The score of a quote: its size, scaled by the square of how far inside the band it rests. */
  predicate Scores(t: Terms, score: real) {
    if t.halfSpreadC > t.maxSpreadC + 0.000000001 || t.halfSpreadC < -0.000000001 || t.maxSpreadC <= 0.0 then score == 0.0
    else score * Times(t.maxSpreadC, t.maxSpreadC) == t.size * Times(t.maxSpreadC - t.halfSpreadC, t.maxSpreadC - t.halfSpreadC)
  }

  /** Every poll that sees the pool pays the quote's part of it, by score, for the seconds credited:
      to the part of the competition it shows, as score to competition. */
  lemma PaidByScore(live: bool, cc: real, q: MakerQuote, i: Input, score: real)
    requires q.active && Sees(i.read) && q.terms.size >= 0.0 && i.read.qmin >= 0.0 && Scores(q.terms, score)
    ensures var s := StepOf(live, cc, q, i);
            InProportion(s.q.accrued - q.accrued, Payment(i.read.pool.value.daily, s.seconds), score, i.read.qmin)
  {
    ReadingsAre(i.read);
    AccruedIs(live, cc, q, i);
    ScoreIs(q.terms, score);
    PaidForScore(q, i.read, StepOf(live, cc, q, i).seconds, score);
  }

  lemma PaidForScore(q: MakerQuote, r: Read, seconds: real, score: real)
    requires Sees(r) && seconds >= 0.0 && q.terms.size >= 0.0 && r.qmin >= 0.0
    requires score == QuoteScore(q.terms.size, q.terms.halfSpreadC, q.terms.maxSpreadC)
    ensures InProportion(RewardFor(q, r, seconds), Payment(r.pool.value.daily, seconds), score, r.qmin)
  {
    ShareOfPool(q.terms, r.qmin, score);
    var share := RewardShare(q.terms.size, q.terms.halfSpreadC, q.terms.maxSpreadC, r.qmin);
    PaidShare(share, r.pool.value.daily, seconds, score, r.qmin);
  }

  lemma ScoreIs(t: Terms, score: real)
    requires Scores(t, score)
    ensures score == QuoteScore(t.size, t.halfSpreadC, t.maxSpreadC)
  {
    var c, d := t.maxSpreadC, t.maxSpreadC - t.halfSpreadC;
    if !(t.halfSpreadC > c + 0.000000001 || t.halfSpreadC < -0.000000001 || c <= 0.0) {
      var w := d / c;
      assert w * c == d;
      SquareScaled(t.size, w, c, d);
      SameScaled(t.size * (w * w), score, Times(c, c), t.size * Times(d, d));
    }
  }

  lemma SquareScaled(size: real, w: real, c: real, d: real)
    requires c > 0.0 && w * c == d
    ensures Times(c, c) > 0.0 && (size * (w * w)) * Times(c, c) == size * Times(d, d)
  {
    TimesPositive(c, c);
    Squares(w, c, d);
    Regroup(size, w * w, Times(c, c));
  }

  lemma TimesPositive(a: real, b: real)
    requires a > 0.0 && b > 0.0
    ensures Times(a, b) > 0.0
  {}

  lemma Squares(w: real, c: real, d: real)
    requires w * c == d
    ensures (w * w) * Times(c, c) == Times(d, d)
  {
    assert (w * w) * (c * c) == (w * c) * (w * c);
  }

  lemma Regroup(a: real, b: real, c: real)
    ensures (a * b) * c == a * (b * c)
  {}

  lemma SameScaled(a: real, b: real, k: real, both: real)
    requires k != 0.0 && a * k == both && b * k == both
    ensures a == b
  {
    assert (a - b) * k == 0.0;
  }

  lemma ShareOfPool(t: Terms, qmin: real, score: real)
    requires score == QuoteScore(t.size, t.halfSpreadC, t.maxSpreadC) && t.size >= 0.0 && qmin >= 0.0
    ensures var share := RewardShare(t.size, t.halfSpreadC, t.maxSpreadC, qmin);
            share * (score + qmin) == score && share >= 0.0 && (score == 0.0 ==> share == 0.0)
  {
    ScoreNonNegative(t.size, t.halfSpreadC, t.maxSpreadC);
    ShareInUnit(t.size, t.halfSpreadC, t.maxSpreadC, qmin);
  }

  lemma PaidShare(share: real, daily: real, seconds: real, score: real, qmin: real)
    requires share >= 0.0 && seconds >= 0.0 && daily > 0.0 && share * (score + qmin) == score
    ensures RewardAccrual(share, daily, seconds) * (score + qmin) == Payment(daily, seconds) * score
    ensures share == 0.0 ==> RewardAccrual(share, daily, seconds) == 0.0
  {
    var days := seconds / 86400.0;
    if share <= 0.0 || seconds <= 0.0 {
      assert seconds == 0.0 ==> Payment(daily, seconds) == 0.0;
    } else {
      assert (share * daily * days) * (score + qmin) == (daily * days) * (share * (score + qmin));
    }
  }

  // ---- what a poll sends and marks ----

  /** The mid has moved a whole number of ticks, at least one, or somebody asks for it. */
  predicate Moves(q: MakerQuote, i: Input) {
    var ticks := if i.ticks >= 1 then i.ticks else 1;
    i.forced || i.read.mid - q.lastMid >= ticks as real * q.terms.tick || q.lastMid - i.read.mid >= ticks as real * q.terms.tick
  }

  /** Orders are moved to the mid just read exactly when an untouched quote inside its band has moved;
      a quote that has not moved is left alone altogether. */
  lemma RequotesExactly(cc: real, q: MakerQuote, i: Input, mid: real)
    requires q.active
    ensures var s := LiveStep(cc, q, i);
            var quiet := Sees(i.read) && !Touched(q, i) && !OutOfBand(q.terms, i.read.mid);
            && (Requote(mid) in s.actions <==> quiet && Moves(q, i) && mid == i.read.mid)
            && (quiet && !Moves(q, i) ==> s.actions == [])
            && (quiet && Moves(q, i) ==> CancelAll(q.terms.tokenId) in s.actions
                                         && (q.terms.complementId != "" ==> CancelAll(q.terms.complementId) in s.actions))
  {
    ReadingsAre(i.read);
    OutOfBandIs(q, i.read.mid);
    TouchedIs(q, i);
    if Sees(i.read) { MarkedSends(cc, q, i, mid); } else { OtherSends(cc, q, i, mid); }
  }

  lemma NoRequote(t: Terms, yes: real, no: real, mid: real)
    ensures Requote(mid) !in CancelActions(t) && Requote(mid) !in CancelActions(t) + FlattenActions(t, yes, no)
  {}

  lemma MovesIs(q: MakerQuote, i: Input)
    ensures Moves(q, i) <==> Moved(q, i)
  {}

  lemma MarkedSends(cc: real, q: MakerQuote, i: Input, mid: real)
    requires Readable(i.read)
    ensures var s, quiet := LiveStep(cc, q, i), !Exposed(q, i) && !FarFromEntry(q, i.read.mid);
            && (Requote(mid) in s.actions <==> quiet && Moves(q, i) && mid == i.read.mid)
            && (quiet && !Moves(q, i) ==> s.actions == [])
            && (quiet && Moves(q, i) ==> s.actions == CancelActions(q.terms) + [Requote(i.read.mid)])
  {
    MovesIs(q, i);
    var s := LiveStep(cc, q, i);
    NoRequote(q.terms, s.yes, s.no, mid);
    assert Requote(mid) in CancelActions(q.terms) + [Requote(i.read.mid)] <==> mid == i.read.mid;
  }

  lemma OtherSends(cc: real, q: MakerQuote, i: Input, mid: real)
    requires !Readable(i.read)
    ensures Requote(mid) !in LiveStep(cc, q, i).actions
  {
    var s := LiveStep(cc, q, i);
    NoRequote(q.terms, s.yes, s.no, mid);
  }

  /** A poll that reads anything counts its fills, books what they lose, and marks the quote: at the
      mid read, or where it was when the pool is gone. */
  lemma MarkedExactly(cc: real, q: MakerQuote, i: Input)
    requires q.active && (Sees(i.read) || Gone(i.read))
    ensures var r, mid := LiveStep(cc, q, i).q, if Sees(i.read) then i.read.mid else q.lastMid;
            && r.lastMid == mid && r.fills == q.fills + |i.fills| + |i.noFills|
            && r.bleed == q.bleed + TallyOf(i.fills, mid).bleed + TallyOf(i.noFills, 1.0 - mid).bleed
  {
    ReadingsAre(i.read);
    var mid := if Sees(i.read) then i.read.mid else q.lastMid;
    TallyCounts(i.fills, mid);
    TallyCounts(i.noFills, 1.0 - mid);
  }

  /** What a fill gains at the mark: a purchase by the mark above its price, a sale by the price above
      the mark. */
  function GainOf(f: RealFill, mark: real): real {
    Times(if Trades.Lower(f.side) == "buy" then mark - f.price else f.price - mark, f.size)
  }

  predicate Gains(f: RealFill, mark: real) {
    GainOf(f, mark) >= 0.0
  }

  /** The bleed of a list of fills is what the losing ones lose, and nothing else: apart from the
      gaining ones, the gains of a list are its losses. */
  lemma {:induction false} BleedExactly(fills: seq<RealFill>, mark: real)
    ensures (forall f :: f in fills ==> Gains(f, mark)) ==> TallyOf(fills, mark).bleed == 0.0
    ensures (forall f :: f in fills ==> !Gains(f, mark)) ==> TallyOf(fills, mark).bleed == -TallyOf(fills, mark).pnl
  {
    if fills != [] {
      var n := |fills| - 1;
      BleedExactly(fills[..n], mark);
      assert fills[n] in fills && forall f :: f in fills[..n] ==> f in fills;
      GainsIs(fills[n], mark);
    }
  }

  lemma GainsIs(f: RealFill, mark: real)
    ensures GainOf(f, mark) == FillPnl(f, mark)
  {
    SignedTimes(Sign(f), mark - f.price, if Trades.Lower(f.side) == "buy" then mark - f.price else f.price - mark, f.size);
  }

  lemma SignedTimes(sign: real, d: real, g: real, size: real)
    requires (sign == 1.0 && g == d) || (sign == -1.0 && g == -d)
    ensures sign * d * size == Times(g, size)
  {
    assert sign * d == g;
  }

  lemma {:induction false} BleedAdds(xs: seq<RealFill>, ys: seq<RealFill>, mark: real)
    ensures TallyOf(xs + ys, mark).bleed == TallyOf(xs, mark).bleed + TallyOf(ys, mark).bleed
    decreases |ys|
  {
    if ys == [] {
      assert xs + ys == xs;
    } else {
      assert (xs + ys)[..|xs + ys| - 1] == xs + ys[..|ys| - 1];
      BleedAdds(xs, ys[..|ys| - 1], mark);
    }
  }

  // ---- paper ----

  /** A paper quote leaves when its pool is gone or its mid has drifted, whatever it holds. */
  lemma PaperLeavesExactly(cc: real, q: MakerQuote, i: Input)
    requires q.active
    ensures !PaperStep(cc, q, i).q.active <==> Gone(i.read) || (Sees(i.read) && OutOfBand(q.terms, i.read.mid))
  {
    ReadingsAre(i.read);
    OutOfBandIs(q, i.read.mid);
  }

  /** A readable poll sets its last mid, counts a trade if there was one and books what it lost. */
  lemma PaperMarkedExactly(cc: real, q: MakerQuote, i: Input)
    requires q.active && Sees(i.read)
    ensures var r, f := PaperStep(cc, q, i).q, PaperFillOf(q, i.read.mid);
            && r.lastMid == i.read.mid && r.bleed == q.bleed + f.loss
            && (f.shares == 0.0 ==> r.fills == q.fills) && (f.shares != 0.0 ==> r.fills == q.fills + 1)
  {
    ReadingsAre(i.read);
  }

  /** It is charged for the YES it leaves with, and credited for all the time since it was marked,
      without the live limit. */
  lemma PaperChargedExactly(cc: real, q: MakerQuote, i: Input)
    requires q.active
    ensures var s := PaperStep(cc, q, i);
            && 100.0 * s.cost == (if s.q.active then 0.0 else Charge(cc, s.yes, 0.0))
            && s.seconds == (if Sees(i.read) then Max(0.0, i.now - q.lastAccrued) else 0.0)
  {
    ReadingsAre(i.read);
    var s := PaperStep(cc, q, i);
    ChargeIs(cc, s.yes, 0.0);
  }

  /** The edges of a paper quote are its half-spread either side of a center that leans against what
      it holds: by the skew times the half-spread for a full size held. */
  lemma EdgesExactly(prev: real, inventory: real, s: Skewed)
    ensures 50.0 * (Ask(prev, inventory, s) - Bid(prev, inventory, s)) == s.halfSpreadC
    ensures s.size > 0.0 ==>
              s.size * (prev - (Bid(prev, inventory, s) + Ask(prev, inventory, s)) / 2.0) == s.skew * (inventory * (s.halfSpreadC / 100.0))
    ensures s.size <= 0.0 ==> Bid(prev, inventory, s) + Ask(prev, inventory, s) == 2.0 * prev
  {
    if s.size > 0.0 { LeanIs(s.size, s.skew, inventory, s.halfSpreadC / 100.0, s.skew * (inventory / s.size) * (s.halfSpreadC / 100.0)); }
  }

  lemma LeanIs(size: real, skew: real, inventory: real, half: real, lean: real)
    requires size > 0.0 && lean == skew * (inventory / size) * half
    ensures size * lean == skew * (inventory * half)
  {
    var x := inventory / size;
    assert x * size == inventory;
    assert size * (skew * x * half) == skew * ((x * size) * half);
  }

  /** What still rests when the mid arrives, as far as room allows. */
  function Taken(size: real, cancelled: real, room: real): real {
    Min(Times(size, if cancelled >= 1.0 then 0.0 else 1.0 - cancelled), Max(0.0, room))
  }

  lemma RestingIs(s: Skewed, room: real)
    ensures Min(Resting(s), Max(0.0, room)) == Taken(s.size, s.cancelEfficiency, room)
  {}

  lemma SharesAre(prev: real, mid: real, inventory: real, s: Skewed)
    ensures MakerFill(prev, mid, inventory, s).shares
         == (if mid <= Bid(prev, inventory, s) then Min(Resting(s), Max(0.0, s.maxInventory - inventory))
             else if mid >= Ask(prev, inventory, s) then -Min(Resting(s), Max(0.0, s.maxInventory + inventory)) else 0.0)
  {}

  lemma SkewedIs(q: MakerQuote)
    ensures var s, t := SkewedOf(q), q.terms;
            s == Skewed(t.size, t.halfSpreadC, t.skew, t.cancelEfficiency, if t.maxInventory > 0.0 then t.maxInventory else 4.0 * t.size)
  {}

  /** A paper quote trades at a readable poll exactly when the mid has come to one of its edges: the
      part of its size that is still there, as far as its bound lets it. */
  lemma PaperFillExactly(q: MakerQuote, mid: real)
    ensures var t, s := q.terms, SkewedOf(q);
            var cap := if t.maxInventory > 0.0 then t.maxInventory else 4.0 * t.size;
            && s == Skewed(t.size, t.halfSpreadC, t.skew, t.cancelEfficiency, cap)
            && PaperFillOf(q, mid).shares
               == (if mid <= Bid(q.lastMid, q.inventory, s) then Taken(t.size, t.cancelEfficiency, cap - q.inventory)
                   else if mid >= Ask(q.lastMid, q.inventory, s) then -Taken(t.size, t.cancelEfficiency, cap + q.inventory) else 0.0)
  {
    var s := SkewedOf(q);
    SkewedIs(q);
    SharesAre(q.lastMid, mid, q.inventory, s);
    RestingIs(s, s.maxInventory - q.inventory);
    RestingIs(s, s.maxInventory + q.inventory);
  }
}
