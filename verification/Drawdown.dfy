// cpp/src/pmm/analytics.cpp: the largest fall of an equity curve, in one pass with a running peak.
module Drawdown {
  import opened Common

  function Peak(curve: seq<real>): real
    requires curve != []
  {
    var n := |curve| - 1;
    if n == 0 then curve[0] else Max(Peak(curve[..n]), curve[n])
  }

  /** The fall at one point from a peak before it, as a part of the peak. */
  function Fall(peak: real, equity: real): real
    requires peak > 0.0
  {
    (peak - equity) / peak
  }

  /** What the loop has after each point. */
  function WorstSoFar(curve: seq<real>): real {
    if curve == [] then 0.0
    else
      var n, before := |curve| - 1, WorstSoFar(curve[..|curve| - 1]);
      if Peak(curve) > 0.0 then Max(before, Fall(Peak(curve), curve[n])) else before
  }

  method MaxDrawdownFromEquity(curve: seq<real>) returns (worst: real)
    ensures worst == WorstSoFar(curve)
  {
    if curve == [] { return 0.0; }
    var peak := curve[0];
    worst := 0.0;
    var i := 0;
    while i < |curve|
      invariant 0 <= i <= |curve|
      invariant peak == if i == 0 then curve[0] else Peak(curve[..i])
      invariant worst == WorstSoFar(curve[..i])
    {
      assert curve[..i + 1][..i] == curve[..i];
      if curve[i] > peak { peak := curve[i]; }
      if peak > 0.0 { worst := Max(worst, Fall(peak, curve[i])); }
      i := i + 1;
    }
    assert curve[..i] == curve;
  }

  // ---- the definition ----

  ghost predicate Pair(curve: seq<real>, i: int, j: int) {
    0 <= i <= j < |curve| && curve[i] > 0.0
  }

  ghost predicate Bounds(curve: seq<real>, d: real) {
    forall i, j :: Pair(curve, i, j) ==> Fall(curve[i], curve[j]) <= d
  }

  ghost predicate Attained(curve: seq<real>, d: real) {
    exists i, j :: Pair(curve, i, j) && Fall(curve[i], curve[j]) == d
  }

  /** The maximum over all i <= j with a positive start of the fall from i to j; 0 if there is no
      fall. */
  ghost predicate IsMaxDrawdown(curve: seq<real>, d: real) {
    d >= 0.0 && Bounds(curve, d) && (d == 0.0 || Attained(curve, d))
  }

  lemma DefinitionUnique(curve: seq<real>, d: real, e: real)
    requires IsMaxDrawdown(curve, d) && IsMaxDrawdown(curve, e)
    ensures d == e
  {
    if d != 0.0 {
      var i, j :| Pair(curve, i, j) && Fall(curve[i], curve[j]) == d;
      assert d <= e;
    }
    if e != 0.0 {
      var i, j :| Pair(curve, i, j) && Fall(curve[i], curve[j]) == e;
      assert e <= d;
    }
  }

  ghost predicate NonNegative(curve: seq<real>) {
    forall i :: 0 <= i < |curve| ==> curve[i] >= 0.0
  }

  lemma {:induction false} PeakIsMaximum(curve: seq<real>) returns (at: nat)
    requires curve != []
    ensures forall i :: 0 <= i < |curve| ==> curve[i] <= Peak(curve)
    ensures at < |curve| && curve[at] == Peak(curve)
    decreases |curve|
  {
    var n := |curve| - 1;
    if n == 0 {
      at := 0;
    } else {
      var before := PeakIsMaximum(curve[..n]);
      assert forall i :: 0 <= i < n ==> curve[i] == curve[..n][i];
      at := if curve[n] > curve[before] then n else before;
    }
  }

  /** Measuring from the higher of two starts gives the larger fall exactly when the end is not
      negative, or the starts are one. */
  lemma HigherStartIff(a: real, p: real, e: real)
    requires 0.0 < a <= p
    ensures Fall(a, e) <= Fall(p, e) <==> e >= 0.0 || a == p
  {
    var x, y := e / a, e / p;
    assert x * a == e && y * p == e;
    assert Fall(a, e) == 1.0 - x by { assert (1.0 - x) * a == a - e; DivUnique(a - e, a, 1.0 - x); }
    assert Fall(p, e) == 1.0 - y by { assert (1.0 - y) * p == p - e; DivUnique(p - e, p, 1.0 - y); }
    QuotientsCompare(a, p, x, y, e);
  }

  lemma DivUnique(a: real, b: real, q: real)
    requires b > 0.0 && q * b == a
    ensures a / b == q
  {}

  lemma QuotientsCompare(a: real, p: real, x: real, y: real, e: real)
    requires 0.0 < a <= p && x * a == e && y * p == e
    ensures y <= x <==> e >= 0.0 || a == p
  {
    SignOf(a, x, e);
    SignOf(p, y, e);
    SignOf(a, x - y, e - y * a);
    assert e - y * a == y * (p - a);
    if a == p {
      assert y * (p - a) == 0.0;
    } else {
      SignOf(p - a, y, y * (p - a));
    }
  }

  lemma SignOf(b: real, z: real, product: real)
    requires b > 0.0 && z * b == product
    ensures z >= 0.0 <==> product >= 0.0
    ensures z > 0.0 <==> product > 0.0
  {}

  /** The one pass covers every fall to an end that is not negative, and every fall from a peak. */
  lemma {:induction false} PrefixWorst(curve: seq<real>, i: int, j: int)
    requires Pair(curve, i, j) && (curve[j] >= 0.0 || curve[i] == Peak(curve[..j + 1]))
    ensures Fall(curve[i], curve[j]) <= WorstSoFar(curve)
    decreases |curve|
  {
    var n := |curve| - 1;
    if j < n {
      assert curve[..n][..j + 1] == curve[..j + 1];
      PrefixWorst(curve[..n], i, j);
    } else {
      assert curve[..j + 1] == curve;
      var at := PeakIsMaximum(curve);
      HigherStartIff(curve[i], Peak(curve), curve[n]);
    }
  }

  /** And what it computes is the fall from some peak. */
  lemma {:induction false} WorstFromPeak(curve: seq<real>) returns (j: nat)
    requires WorstSoFar(curve) != 0.0
    ensures j < |curve| && Peak(curve[..j + 1]) > 0.0 && WorstSoFar(curve) == Fall(Peak(curve[..j + 1]), curve[j])
    decreases |curve|
  {
    var n := |curve| - 1;
    if Peak(curve) > 0.0 && WorstSoFar(curve) == Fall(Peak(curve), curve[n]) {
      j := n;
      assert curve[..n + 1] == curve;
    } else {
      j := WorstFromPeak(curve[..n]);
      assert curve[..n][..j + 1] == curve[..j + 1];
    }
  }

  lemma {:induction false} WorstAttained(curve: seq<real>)
    ensures WorstSoFar(curve) >= 0.0
    ensures WorstSoFar(curve) == 0.0 || Attained(curve, WorstSoFar(curve))
    decreases |curve|
  {
    if curve != [] {
      var n := |curve| - 1;
      WorstAttained(curve[..n]);
      if Peak(curve) > 0.0 && WorstSoFar(curve) == Fall(Peak(curve), curve[n]) {
        var at := PeakIsMaximum(curve);
        assert Pair(curve, at, n) && Fall(curve[at], curve[n]) == WorstSoFar(curve);
      } else if WorstSoFar(curve) != 0.0 {
        var i, j :| Pair(curve[..n], i, j) && Fall(curve[..n][i], curve[..n][j]) == WorstSoFar(curve);
        assert Pair(curve, i, j) && Fall(curve[i], curve[j]) == WorstSoFar(curve);
      }
    }
  }

  /** On every curve that never goes below zero the one pass gives the maximum over all pairs. */
  lemma OnePassIsMaximum(curve: seq<real>)
    requires NonNegative(curve)
    ensures IsMaxDrawdown(curve, WorstSoFar(curve))
  {
    WorstAttained(curve);
    forall i, j | Pair(curve, i, j) ensures Fall(curve[i], curve[j]) <= WorstSoFar(curve) { PrefixWorst(curve, i, j); }
  }

  /** The result is never too large; on a curve that goes below zero it can be too small, because
      a fall below zero is deepest from a low start, not from the peak. */
  lemma NegativeEquityUndercounts()
    ensures WorstSoFar([1.0, 2.0, -1.0]) == 1.5
    ensures Pair([1.0, 2.0, -1.0], 0, 2) && Fall(1.0, -1.0) == 2.0
    ensures !IsMaxDrawdown([1.0, 2.0, -1.0], 1.5)
  {
    var curve := [1.0, 2.0, -1.0];
    assert curve[..2] == [1.0, 2.0] && curve[..2][..1] == [1.0] && [1.0][..0] == [];
    assert Peak([1.0]) == 1.0 && Peak(curve[..2]) == 2.0 && Peak(curve) == 2.0;
    assert WorstSoFar([1.0]) == 0.0 && WorstSoFar(curve[..2]) == 0.0;
    assert Pair(curve, 0, 2) && Fall(curve[0], curve[2]) == 2.0;
  }

  // ---- the maximum on every curve ----

  /** The smallest positive value so far; 0 if there is none. */
  function Lowest(curve: seq<real>): real {
    if curve == [] then 0.0
    else
      var n, before := |curve| - 1, Lowest(curve[..|curve| - 1]);
      if curve[n] > 0.0 && (before == 0.0 || curve[n] < before) then curve[n] else before
  }

  /** The start the fall to the last point is deepest from: the peak, or for an end below zero the
      smallest positive value. */
  function WorstStart(curve: seq<real>): real
    requires curve != []
  {
    if curve[|curve| - 1] >= 0.0 then Peak(curve) else Lowest(curve)
  }

  /** Like the one pass, but from that start. */
  function Deepest(curve: seq<real>): real {
    if curve == [] then 0.0
    else
      var n, before := |curve| - 1, Deepest(curve[..|curve| - 1]);
      if WorstStart(curve) > 0.0 then Max(before, Fall(WorstStart(curve), curve[n])) else before
  }

  lemma {:induction false} LowestIsMinimum(curve: seq<real>) returns (at: nat)
    ensures Lowest(curve) >= 0.0
    ensures forall i :: 0 <= i < |curve| && curve[i] > 0.0 ==> 0.0 < Lowest(curve) <= curve[i]
    ensures Lowest(curve) > 0.0 ==> at < |curve| && curve[at] == Lowest(curve)
    decreases |curve|
  {
    at := 0;
    if curve != [] {
      var n := |curve| - 1;
      at := LowestIsMinimum(curve[..n]);
      assert forall i :: 0 <= i < n ==> curve[i] == curve[..n][i];
      if Lowest(curve) != Lowest(curve[..n]) { at := n; }
    }
  }

  /** No start before the last point gives a deeper fall to it. */
  lemma WorstStartIsDeepest(curve: seq<real>, i: int)
    requires Pair(curve, i, |curve| - 1)
    ensures WorstStart(curve) > 0.0 && Fall(curve[i], curve[|curve| - 1]) <= Fall(WorstStart(curve), curve[|curve| - 1])
  {
    var e := curve[|curve| - 1];
    var top := PeakIsMaximum(curve);
    var low := LowestIsMinimum(curve);
    if e >= 0.0 {
      HigherStartIff(curve[i], Peak(curve), e);
    } else {
      HigherStartIff(Lowest(curve), curve[i], e);
    }
  }

  lemma WorstStartIsPoint(curve: seq<real>) returns (i: nat)
    requires curve != [] && WorstStart(curve) > 0.0
    ensures i < |curve| && curve[i] == WorstStart(curve)
  {
    if curve[|curve| - 1] >= 0.0 { i := PeakIsMaximum(curve); } else { i := LowestIsMinimum(curve); }
  }

  lemma {:induction false} DeepestBounds(curve: seq<real>, i: int, j: int)
    requires Pair(curve, i, j)
    ensures Fall(curve[i], curve[j]) <= Deepest(curve)
    decreases |curve|
  {
    if j < |curve| - 1 { DeepestBounds(curve[..|curve| - 1], i, j); } else { WorstStartIsDeepest(curve, i); }
  }

  lemma {:induction false} DeepestAttained(curve: seq<real>)
    ensures Deepest(curve) >= 0.0
    ensures Deepest(curve) == 0.0 || Attained(curve, Deepest(curve))
    decreases |curve|
  {
    if curve != [] {
      var n := |curve| - 1;
      DeepestAttained(curve[..n]);
      if WorstStart(curve) > 0.0 && Deepest(curve) == Fall(WorstStart(curve), curve[n]) {
        var i := WorstStartIsPoint(curve);
        assert Pair(curve, i, n) && Fall(curve[i], curve[n]) == Deepest(curve);
      } else if Deepest(curve) != 0.0 {
        var i, j :| Pair(curve[..n], i, j) && Fall(curve[..n][i], curve[..n][j]) == Deepest(curve);
        assert Pair(curve, i, j) && Fall(curve[i], curve[j]) == Deepest(curve);
      }
    }
  }

  /** On every curve, below zero or not, that is the maximum over all pairs. */
  lemma DeepestIsMaximum(curve: seq<real>)
    ensures IsMaxDrawdown(curve, Deepest(curve))
  {
    DeepestAttained(curve);
    forall i, j | Pair(curve, i, j) ensures Fall(curve[i], curve[j]) <= Deepest(curve) { DeepestBounds(curve, i, j); }
  }

  /** A point below zero after a positive one. */
  predicate Sunk(curve: seq<real>, j: int) {
    0 <= j < |curve| && curve[j] < 0.0 && Lowest(curve[..j + 1]) > 0.0
  }

  /** The deepest fall of the curve ends here. */
  predicate EndsDeepest(curve: seq<real>, j: int)
    requires Sunk(curve, j)
  {
    Fall(Lowest(curve[..j + 1]), curve[j]) == Deepest(curve)
  }

  /** One positive value alone comes before. */
  predicate OneLevel(curve: seq<real>, j: int)
    requires 0 <= j < |curve|
  {
    Peak(curve[..j + 1]) == Lowest(curve[..j + 1])
  }

  ghost predicate Level(curve: seq<real>) {
    exists j :: Sunk(curve, j) && EndsDeepest(curve, j) && OneLevel(curve, j)
  }

  lemma PeakAndLowest(curve: seq<real>, j: int)
    requires 0 <= j < |curve|
    ensures Lowest(curve[..j + 1]) > 0.0 <==> Peak(curve[..j + 1]) > 0.0
    ensures Lowest(curve[..j + 1]) > 0.0 ==> Lowest(curve[..j + 1]) <= Peak(curve[..j + 1])
  {
    var top := PeakIsMaximum(curve[..j + 1]);
    var low := LowestIsMinimum(curve[..j + 1]);
  }

  lemma WorstAtMostDeepest(curve: seq<real>)
    ensures WorstSoFar(curve) <= Deepest(curve)
  {
    WorstAttained(curve);
    DeepestIsMaximum(curve);
  }

  lemma FallBelowZero(start: real, e: real)
    requires start > 0.0
    ensures Fall(start, e) > 1.0 <==> e < 0.0
  {
    assert Fall(start, e) * start == start - e;
    SignOf(start, Fall(start, e) - 1.0, -e);
  }

  lemma LowestFall(curve: seq<real>, j: int)
    requires Sunk(curve, j)
    ensures 1.0 < Fall(Lowest(curve[..j + 1]), curve[j]) <= Deepest(curve)
  {
    var i := LowestIsMinimum(curve[..j + 1]);
    assert Pair(curve, i, j);
    DeepestBounds(curve, i, j);
    FallBelowZero(curve[i], curve[j]);
  }

  lemma LevelIsMet(curve: seq<real>, j: int)
    requires Sunk(curve, j) && EndsDeepest(curve, j) && OneLevel(curve, j)
    ensures WorstSoFar(curve) >= Deepest(curve)
  {
    var i := LowestIsMinimum(curve[..j + 1]);
    assert Pair(curve, i, j);
    PrefixWorst(curve, i, j);
  }

  lemma MetIsLevel(curve: seq<real>, j0: int)
    requires Sunk(curve, j0) && WorstSoFar(curve) == Deepest(curve)
    ensures Level(curve)
  {
    LowestFall(curve, j0);
    var j := WorstFromPeak(curve);
    var e, top, low := curve[j], Peak(curve[..j + 1]), Lowest(curve[..j + 1]);
    FallBelowZero(top, e);
    PeakAndLowest(curve, j);
    assert Sunk(curve, j);
    LowestFall(curve, j);
    HigherStartIff(low, top, e);
  }

  lemma NotSunkIsMet(curve: seq<real>)
    requires forall j :: !Sunk(curve, j)
    ensures WorstSoFar(curve) >= Deepest(curve)
  {
    WorstAttained(curve);
    DeepestAttained(curve);
    if Deepest(curve) != 0.0 {
      var i, j :| Pair(curve, i, j) && Fall(curve[i], curve[j]) == Deepest(curve);
      var low := LowestIsMinimum(curve[..j + 1]);
      assert curve[..j + 1][i] == curve[i] && !Sunk(curve, j);
      PrefixWorst(curve, i, j);
    }
  }

  /** The one pass gives the maximum if and only if no point below zero comes after a positive one,
      or one where the deepest fall ends has a single positive value before it. */
  lemma OnePassIff(curve: seq<real>)
    ensures IsMaxDrawdown(curve, WorstSoFar(curve)) <==> (forall j :: !Sunk(curve, j)) || Level(curve)
  {
    DeepestIsMaximum(curve);
    WorstAtMostDeepest(curve);
    if IsMaxDrawdown(curve, WorstSoFar(curve)) {
      DefinitionUnique(curve, WorstSoFar(curve), Deepest(curve));
      if j :| Sunk(curve, j) { MetIsLevel(curve, j); }
    } else if Level(curve) {
      var j :| Sunk(curve, j) && EndsDeepest(curve, j) && OneLevel(curve, j);
      LevelIsMet(curve, j);
    } else if forall j :: !Sunk(curve, j) {
      NotSunkIsMet(curve);
    }
  }

  // ---- from trades ----

  datatype Trade = Trade(side: string, amountUsd: real, fee: real)

  function CashChange(t: Trade): real {
    if t.side == "buy" then -(t.amountUsd + t.fee) else if t.side == "sell" then t.amountUsd - t.fee else 0.0
  }

  /** The balance after each trade, the starting balance first. */
  function Cumulative(trades: seq<Trade>, start: real): (r: seq<real>)
    ensures |r| == |trades| + 1
  {
    if trades == [] then [start]
    else
      var before := Cumulative(trades[..|trades| - 1], start);
      before + [before[|before| - 1] + CashChange(trades[|trades| - 1])]
  }

  lemma CumulativePrefix(trades: seq<Trade>, start: real)
    requires trades != []
    ensures Cumulative(trades, start)[..|trades|] == Cumulative(trades[..|trades| - 1], start)
  {}

  /** What the trades on one side come to. */
  function Turnover(trades: seq<Trade>, side: string): real {
    if trades == [] then 0.0
    else Turnover(trades[..|trades| - 1], side) + if trades[|trades| - 1].side == side then trades[|trades| - 1].amountUsd else 0.0
  }

  function Fees(trades: seq<Trade>): real {
    if trades == [] then 0.0
    else Fees(trades[..|trades| - 1]) + if trades[|trades| - 1].side in {"buy", "sell"} then trades[|trades| - 1].fee else 0.0
  }

  /** The curve ends where the money went: the start, plus sales, less purchases, less the fees of
      both. */
  lemma {:induction false} BalanceExactly(trades: seq<Trade>, start: real)
    ensures Cumulative(trades, start)[|trades|] == start + Turnover(trades, "sell") - Turnover(trades, "buy") - Fees(trades)
  {
    if trades != [] { BalanceExactly(trades[..|trades| - 1], start); }
  }

  /** The trade version is the equity version on that curve, for every list of trades. */
  method MaxDrawdown(trades: seq<Trade>, start: real) returns (worst: real)
    ensures worst == WorstSoFar(Cumulative(trades, start))
  {
    StartFallsNothing(start);
    if trades == [] { return 0.0; }
    var cumulative, peak := start, start;
    worst := 0.0;
    var i := 0;
    while i < |trades|
      invariant 0 <= i <= |trades|
      invariant cumulative == Cumulative(trades[..i], start)[i]
      invariant peak == Peak(Cumulative(trades[..i], start))
      invariant worst == WorstSoFar(Cumulative(trades[..i], start))
    {
      ghost var next := trades[..i + 1];
      assert next[..i] == trades[..i];
      CumulativePrefix(next, start);
      if trades[i].side == "buy" {
        cumulative := cumulative - (trades[i].amountUsd + trades[i].fee);
      } else if trades[i].side == "sell" {
        cumulative := cumulative + (trades[i].amountUsd - trades[i].fee);
      }
      if cumulative > peak { peak := cumulative; }
      if peak > 0.0 { worst := Max(worst, Fall(peak, cumulative)); }
      i := i + 1;
    }
    assert trades[..i] == trades;
  }

  lemma StartFallsNothing(start: real)
    ensures WorstSoFar([start]) == 0.0 && Peak([start]) == start
  {
    assert [start][..0] == [];
    if start > 0.0 { DivUnique(0.0, start, 0.0); }
  }
}
