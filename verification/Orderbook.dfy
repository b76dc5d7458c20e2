// cpp/src/pmm/orderbook.cpp: the reward share of a resting quote, the capital it ties up, and the
// fills a paper quote is deemed to take when the mid moves.
module Orderbook {
  import opened Common

  /** ((c - s) / c)^2 inside the band, 0 outside it. */
  function InbandWeight(spreadC: real, maxSpreadC: real): real {
    if maxSpreadC <= 0.0 || spreadC < -0.000000001 || spreadC > maxSpreadC + 0.000000001 then 0.0
    else
      var w := (maxSpreadC - spreadC) / maxSpreadC;
      w * w
  }

  function QuoteScore(size: real, halfSpreadC: real, maxSpreadC: real): real {
    size * InbandWeight(halfSpreadC, maxSpreadC)
  }

  function RewardShare(size: real, halfSpreadC: real, maxSpreadC: real, existingQmin: real): real {
    var mine := QuoteScore(size, halfSpreadC, maxSpreadC);
    var total := mine + existingQmin;
    if total > 0.0 then mine / total else 0.0
  }

  function RewardAccrual(share: real, dailyRate: real, seconds: real): real {
    if share <= 0.0 || dailyRate <= 0.0 || seconds <= 0.0 then 0.0
    else share * dailyRate * (seconds / 86400.0)
  }

  function CommittedCapital(size: real, halfSpreadC: real): real {
    Max(0.0, size * (1.0 - 2.0 * (halfSpreadC / 100.0)))
  }

  function SkewedCenter(mid: real, inventory: real, size: real, halfSpreadC: real, skew: real): real {
    if size > 0.0 then mid - skew * (inventory / size) * (halfSpreadC / 100.0) else mid
  }

  /** Shares bought (sold when negative) and what they lose against the new mid. */
  datatype PaperFill = PaperFill(shares: real, loss: real)

  /** What a paper quote needs to know to fill itself. */
  datatype Skewed = Skewed(size: real, halfSpreadC: real, skew: real, cancelEfficiency: real, maxInventory: real)

  function Bid(prev: real, inventory: real, s: Skewed): real {
    SkewedCenter(prev, inventory, s.size, s.halfSpreadC, s.skew) - s.halfSpreadC / 100.0
  }

  function Ask(prev: real, inventory: real, s: Skewed): real {
    SkewedCenter(prev, inventory, s.size, s.halfSpreadC, s.skew) + s.halfSpreadC / 100.0
  }

  /** The part of the size that is still resting when the mid arrives. */
  function Resting(s: Skewed): real {
    s.size * Uncancelled(s)
  }

  function Uncancelled(s: Skewed): real {
    Max(0.0, 1.0 - s.cancelEfficiency)
  }

  function MakerFill(prev: real, mid: real, inventory: real, s: Skewed): PaperFill {
    var f := Resting(s);
    var bid, ask := Bid(prev, inventory, s), Ask(prev, inventory, s);
    if mid <= bid then
      var b := Min(f, Max(0.0, s.maxInventory - inventory));
      PaperFill(b, b * (bid - mid))
    else if mid >= ask then
      var a := Min(f, Max(0.0, s.maxInventory + inventory));
      PaperFill(-a, a * (mid - ask))
    else PaperFill(0.0, 0.0)
  }

  // ---- what they promise ----

  lemma ScoreNonNegative(size: real, halfSpreadC: real, maxSpreadC: real)
    requires size >= 0.0
    ensures QuoteScore(size, halfSpreadC, maxSpreadC) >= 0.0
  {
    var w := InbandWeight(halfSpreadC, maxSpreadC);
    assert w >= 0.0;
    MulMono(size, 0.0, w);
  }

  lemma FractionInUnit(a: real, b: real)
    requires 0.0 <= a <= b && b > 0.0
    ensures 0.0 <= a / b <= 1.0
  {
    var x := a / b;
    assert x * b == a;
    assert x < 0.0 ==> x * b < 0.0;
    assert x > 1.0 ==> (x - 1.0) * b > 0.0;
  }

  /** A share is a share: with non-negative size and competition it lies between 0 and 1. */
  lemma ShareInUnit(size: real, halfSpreadC: real, maxSpreadC: real, existingQmin: real)
    requires size >= 0.0 && existingQmin >= 0.0
    ensures 0.0 <= RewardShare(size, halfSpreadC, maxSpreadC, existingQmin) <= 1.0
  {
    var mine := QuoteScore(size, halfSpreadC, maxSpreadC);
    ScoreNonNegative(size, halfSpreadC, maxSpreadC);
    if mine + existingQmin > 0.0 { FractionInUnit(mine, mine + existingQmin); }
  }

  /** An accrual is never negative and never above the whole pool's payment for the time. */
  lemma RewardBounded(share: real, dailyRate: real, seconds: real, most: real)
    requires share <= 1.0 && seconds >= 0.0 && dailyRate <= most && 0.0 <= most
    ensures 0.0 <= RewardAccrual(share, dailyRate, seconds) <= most * (seconds / 86400.0)
  {
    var days := seconds / 86400.0;
    MulMono(days, 0.0, most);
    if share > 0.0 && dailyRate > 0.0 && seconds > 0.0 {
      var paid := share * dailyRate;
      MulMono(dailyRate, share, 1.0);
      assert 0.0 < paid <= dailyRate;
      MulMono(days, 0.0, paid);
      MulMono(days, paid, most);
    }
  }

  /** The capital is what both legs cost, wherever the mid is: a YES at the bid and a NO at one
      minus the ask, for each share. */
  lemma CommittedIsBothLegs(size: real, halfSpreadC: real, mid: real)
    requires size >= 0.0 && halfSpreadC <= 50.0
    ensures CommittedCapital(size, halfSpreadC)
         == size * (mid - halfSpreadC / 100.0) + size * (1.0 - (mid + halfSpreadC / 100.0))
  {
    var offset := halfSpreadC / 100.0;
    MulMono(size, 0.0, 1.0 - 2.0 * offset);
    assert size * (mid - offset) + size * (1.0 - (mid + offset)) == size * (1.0 - 2.0 * offset);
  }

  /** The price a paper fill is made at. */
  function FillPrice(prev: real, mid: real, inventory: real, s: Skewed): real {
    if mid <= Bid(prev, inventory, s) then Bid(prev, inventory, s) else Ask(prev, inventory, s)
  }

  /** The loss of a paper fill is exactly what its price differs from the mid: marked at the mid,
      less the loss, the shares are worth what they cost. */
  lemma LossIsPriceDifference(prev: real, mid: real, inventory: real, s: Skewed)
    ensures var f := MakerFill(prev, mid, inventory, s);
            f.shares * mid + f.loss == f.shares * FillPrice(prev, mid, inventory, s)
  {}

  /** Paper inventory never leaves its bounds once inside, and a fill never exceeds the quote. */
  lemma PaperInventoryBounded(prev: real, mid: real, inventory: real, s: Skewed)
    requires -s.maxInventory <= inventory <= s.maxInventory
    requires s.size >= 0.0 && s.cancelEfficiency >= 0.0
    ensures var f := MakerFill(prev, mid, inventory, s);
            && -s.maxInventory <= inventory + f.shares <= s.maxInventory
            && -s.size <= f.shares <= s.size
  {
    RestingBounded(s);
  }

  lemma RestingBounded(s: Skewed)
    requires s.size >= 0.0
    ensures 0.0 <= Resting(s)
    ensures s.cancelEfficiency >= 0.0 ==> Resting(s) <= s.size
  {
    var left := Uncancelled(s);
    assert 0.0 <= left && (s.cancelEfficiency >= 0.0 ==> left <= 1.0);
    TimesFraction(s.size, left, Resting(s));
  }

  lemma TimesFraction(size: real, x: real, part: real)
    requires size >= 0.0 && x >= 0.0 && part == size * x
    ensures 0.0 <= part
    ensures x <= 1.0 ==> part <= size
  {
    MulNonNegative(size, x);
    if x <= 1.0 { MulNonNegative(size, 1.0 - x); }
  }

  /** A fill is never a gain: buying happens at or above the mid it is marked to, selling at or
      below. */
  lemma LossNonNegative(prev: real, mid: real, inventory: real, s: Skewed)
    requires s.size >= 0.0
    ensures MakerFill(prev, mid, inventory, s).loss >= 0.0
  {
    var f, bid, ask := Resting(s), Bid(prev, inventory, s), Ask(prev, inventory, s);
    RestingBounded(s);
    if mid <= bid {
      MulNonNegative(Min(f, Max(0.0, s.maxInventory - inventory)), bid - mid);
    } else if mid >= ask {
      MulNonNegative(Min(f, Max(0.0, s.maxInventory + inventory)), mid - ask);
    }
  }
}
