// backtest/archive/arb_scan/arb_probe.py: walking a book, best price first, to price a quantity.
module Walk {
  import opened Common

  const DONE := 0.000000001

  datatype Level = Level(price: real, size: real)

  /** What a walk pays or receives, and what it could not fill. */
  datatype Fill = Fill(cash: real, left: real)

  // ---- sorting ----

  /** The order of (price, size) pairs. */
  predicate UpTo(a: Level, b: Level) {
    a.price < b.price || (a.price == b.price && a.size <= b.size)
  }

  predicate First(a: Level, b: Level, bid: bool) {
    if bid then UpTo(b, a) else UpTo(a, b)
  }

  function Insert(x: Level, levels: seq<Level>, bid: bool): seq<Level> {
    if levels == [] || First(x, levels[0], bid) then [x] + levels else [levels[0]] + Insert(x, levels[1..], bid)
  }

  function Sort(levels: seq<Level>, bid: bool): seq<Level> {
    if levels == [] then [] else Insert(levels[0], Sort(levels[1..], bid), bid)
  }

  predicate Sorted(levels: seq<Level>, bid: bool) {
    forall i, j :: 0 <= i < j < |levels| ==> First(levels[i], levels[j], bid)
  }

  predicate Sizes(levels: seq<Level>) {
    forall i :: 0 <= i < |levels| ==> levels[i].size >= 0.0
  }

  lemma {:induction false} InsertAll(a: Level, x: Level, levels: seq<Level>, bid: bool)
    requires First(a, x, bid) && forall i :: 0 <= i < |levels| ==> First(a, levels[i], bid)
    ensures forall i :: 0 <= i < |Insert(x, levels, bid)| ==> First(a, Insert(x, levels, bid)[i], bid)
    decreases |levels|
  {
    if levels != [] && !First(x, levels[0], bid) { InsertAll(a, x, levels[1..], bid); }
  }

  lemma {:induction false} InsertSorted(x: Level, levels: seq<Level>, bid: bool)
    requires Sorted(levels, bid)
    ensures Sorted(Insert(x, levels, bid), bid)
    decreases |levels|
  {
    if levels != [] && !First(x, levels[0], bid) {
      InsertSorted(x, levels[1..], bid);
      InsertAll(levels[0], x, levels[1..], bid);
    } else if levels != [] {
      forall j | 0 <= j < |levels| ensures First(x, levels[j], bid) {
        assert j > 0 ==> First(levels[0], levels[j], bid);
      }
    }
  }

  lemma {:induction false} InsertSame(x: Level, levels: seq<Level>, bid: bool)
    ensures multiset(Insert(x, levels, bid)) == multiset(levels) + multiset{x}
    decreases |levels|
  {
    if levels == [] || First(x, levels[0], bid) {
      assert multiset([x] + levels) == multiset{x} + multiset(levels);
    } else {
      InsertSame(x, levels[1..], bid);
      assert levels == [levels[0]] + levels[1..];
    }
  }

  /** Sorting puts the best price first and keeps every level. */
  lemma {:induction false} SortKeeps(levels: seq<Level>, bid: bool)
    ensures Sorted(Sort(levels, bid), bid)
    ensures multiset(Sort(levels, bid)) == multiset(levels)
    decreases |levels|
  {
    if levels != [] {
      SortKeeps(levels[1..], bid);
      InsertSorted(levels[0], Sort(levels[1..], bid), bid);
      InsertSame(levels[0], Sort(levels[1..], bid), bid);
      assert levels == [levels[0]] + levels[1..];
    }
  }

  // ---- the walk ----

  function Pay(shares: real, price: real): real {
    shares * price
  }

  /** Taking what is needed from each level in turn, until almost nothing is needed. */
  function Greedy(levels: seq<Level>, need: real): Fill {
    if levels == [] then Fill(0.0, need)
    else
      var take := Min(need, levels[0].size);
      if need - take <= DONE then Fill(Pay(take, levels[0].price), need - take)
      else
        var rest := Greedy(levels[1..], need - take);
        Fill(Pay(take, levels[0].price) + rest.cash, rest.left)
  }

  datatype Walked = Walked(cash: real, filled: real)

  function WalkOf(levels: seq<Level>, shares: real, bid: bool): Walked {
    var f := Greedy(Sort(levels, bid), shares);
    Walked(f.cash, shares - f.left)
  }

  method Walk(levels: seq<Level>, shares: real, bid: bool) returns (cash: real, filled: real)
    ensures Walked(cash, filled) == WalkOf(levels, shares, bid)
  {
    var sorted := Sort(levels, bid);
    var need := shares;
    cash := 0.0;
    ghost var goal := Greedy(sorted, shares);
    var i := 0;
    while i < |sorted|
      invariant 0 <= i <= |sorted|
      invariant Fill(cash + Greedy(sorted[i..], need).cash, Greedy(sorted[i..], need).left) == goal
    {
      assert sorted[i..][1..] == sorted[i + 1..];
      var take := Min(need, sorted[i].size);
      cash := cash + Pay(take, sorted[i].price);
      need := need - take;
      if need <= DONE { return cash, shares - need; }
      i := i + 1;
    }
    filled := shares - need;
  }

  // ---- how much it fills ----

  function Depth(levels: seq<Level>): real {
    if levels == [] then 0.0 else levels[0].size + Depth(levels[1..])
  }

  lemma {:induction false} DepthOfInsert(x: Level, levels: seq<Level>, bid: bool)
    ensures Depth(Insert(x, levels, bid)) == x.size + Depth(levels)
    decreases |levels|
  {
    if levels == [] || First(x, levels[0], bid) {
      assert ([x] + levels)[1..] == levels;
    } else {
      DepthOfInsert(x, levels[1..], bid);
      assert ([levels[0]] + Insert(x, levels[1..], bid))[1..] == Insert(x, levels[1..], bid);
    }
  }

  lemma {:induction false} DepthOfSort(levels: seq<Level>, bid: bool)
    ensures Depth(Sort(levels, bid)) == Depth(levels)
    decreases |levels|
  {
    if levels != [] {
      DepthOfSort(levels[1..], bid);
      DepthOfInsert(levels[0], Sort(levels[1..], bid), bid);
    }
  }

  lemma {:induction false} SizesOfSort(levels: seq<Level>, bid: bool)
    requires Sizes(levels)
    ensures Sizes(Sort(levels, bid))
  {
    SortKeeps(levels, bid);
    var sorted := Sort(levels, bid);
    forall i | 0 <= i < |sorted| ensures sorted[i].size >= 0.0 {
      assert sorted[i] in multiset(levels);
    }
  }

  lemma {:induction false} GreedyFills(levels: seq<Level>, need: real)
    requires Sizes(levels) && need >= 0.0
    ensures var left := Greedy(levels, need).left;
            0.0 <= left && Max(0.0, need - Depth(levels)) <= left <= Max(0.000000001, need - Depth(levels))
    ensures Depth(levels) >= 0.0
    decreases |levels|
  {
    if levels != [] {
      var take := Min(need, levels[0].size);
      GreedyFills(levels[1..], need - take);
    }
  }

  /** A walk fills the quantity or the whole book, whichever is less, to within its tolerance, and
      never more. */
  lemma WalkFills(levels: seq<Level>, shares: real, bid: bool)
    requires Sizes(levels) && shares >= 0.0
    ensures var filled := WalkOf(levels, shares, bid).filled;
            Min(shares, Depth(levels)) - 0.000000001 <= filled <= Min(shares, Depth(levels))
  {
    SizesOfSort(levels, bid);
    DepthOfSort(levels, bid);
    GreedyFills(Sort(levels, bid), shares);
    GreedyFills(levels, shares);
  }

  // ---- how well it fills ----

  /** An allocation takes from each level no more than is there. */
  ghost predicate Within(x: seq<real>, levels: seq<Level>) {
    |x| == |levels| && forall i :: 0 <= i < |x| ==> 0.0 <= x[i] <= levels[i].size
  }

  function Total(x: seq<real>): real {
    if x == [] then 0.0 else x[0] + Total(x[1..])
  }

  function Cash(x: seq<real>, levels: seq<Level>): real
    requires |x| == |levels|
  {
    if x == [] then 0.0 else Pay(x[0], levels[0].price) + Cash(x[1..], levels[1..])
  }

  /** What buying at one price would save over the levels cheaper than it. */
  function Surplus(levels: seq<Level>, at: real): real {
    if levels == [] then 0.0 else Saving(levels[0], at) + Surplus(levels[1..], at)
  }

  function Saving(l: Level, at: real): real {
    Pay(l.size, Max(0.0, at - l.price))
  }

  lemma PaySplit(a: real, b: real, sum: real, at: real)
    requires sum == a + b
    ensures Pay(sum, at) == Pay(a, at) + Pay(b, at)
  {}

  lemma PayDearer(x: real, price: real, at: real, more: real)
    requires at == price + more
    ensures Pay(x, at) == Pay(x, price) + Pay(x, more)
  {}

  lemma PayMore(x: real, y: real, price: real)
    requires x <= y && price >= 0.0
    ensures Pay(x, price) <= Pay(y, price)
  {
    MulNonNegative(y - x, price);
    PaySplit(x, y - x, y, price);
  }

  lemma PayNothing(x: real, price: real)
    ensures Pay(0.0, price) == 0.0 == Pay(x, 0.0)
  {}

  lemma SavingCovers(x: real, l: Level, at: real)
    requires 0.0 <= x <= l.size
    ensures Pay(x, l.price) >= Pay(x, at) - Saving(l, at)
  {
    if at > l.price {
      PayDearer(x, l.price, at, at - l.price);
      PayMore(x, l.size, at - l.price);
    } else {
      PayNothing(l.size, at);
      PayDearer(x, at, l.price, l.price - at);
      MulNonNegative(x, l.price - at);
    }
  }

  /** No allocation costs less than its quantity at any one price, less that saving. */
  lemma {:induction false} DualBound(x: seq<real>, levels: seq<Level>, at: real)
    requires Within(x, levels)
    ensures Cash(x, levels) >= Pay(Total(x), at) - Surplus(levels, at)
    decreases |x|
  {
    if x == [] {
      PayNothing(0.0, at);
    } else {
      DualBound(x[1..], levels[1..], at);
      SavingCovers(x[0], levels[0], at);
      PaySplit(x[0], Total(x[1..]), Total(x), at);
    }
  }

  lemma {:induction false} SurplusOfInsert(x: Level, levels: seq<Level>, bid: bool, at: real)
    ensures Surplus(Insert(x, levels, bid), at) == Saving(x, at) + Surplus(levels, at)
    decreases |levels|
  {
    if levels == [] || First(x, levels[0], bid) {
      assert ([x] + levels)[1..] == levels;
    } else {
      SurplusOfInsert(x, levels[1..], bid, at);
      assert ([levels[0]] + Insert(x, levels[1..], bid))[1..] == Insert(x, levels[1..], bid);
    }
  }

  lemma {:induction false} SurplusOfSort(levels: seq<Level>, bid: bool, at: real)
    ensures Surplus(Sort(levels, bid), at) == Surplus(levels, at)
    decreases |levels|
  {
    if levels != [] {
      SurplusOfSort(levels[1..], bid, at);
      SurplusOfInsert(levels[0], Sort(levels[1..], bid), bid, at);
    }
  }

  /** Prices that never go down along the walk. */
  predicate Rising(levels: seq<Level>) {
    forall i, j :: 0 <= i < j < |levels| ==> levels[i].price <= levels[j].price
  }

  lemma {:induction false} NoSurplus(levels: seq<Level>, at: real)
    requires forall i :: 0 <= i < |levels| ==> at <= levels[i].price
    ensures Surplus(levels, at) == 0.0
    decreases |levels|
  {
    if levels != [] {
      NoSurplus(levels[1..], at);
      PayNothing(levels[0].size, at);
    }
  }

  function Filled(levels: seq<Level>, need: real): real {
    need - Greedy(levels, need).left
  }

  /** The walk meets the bound at the price it stops at: its certificate. */
  lemma {:induction false} GreedyMeets(levels: seq<Level>, need: real, floor: real) returns (at: real)
    requires Rising(levels) && Sizes(levels) && need >= 0.0
    requires forall i :: 0 <= i < |levels| ==> floor <= levels[i].price
    ensures at >= floor
    ensures Greedy(levels, need).cash == Pay(Filled(levels, need), at) - Surplus(levels, at)
    decreases |levels|
  {
    if levels == [] {
      at := floor;
      PayNothing(0.0, at);
    } else {
      var l := levels[0];
      var take := Min(need, l.size);
      if need - take <= DONE {
        at := l.price;
        NoSurplus(levels, at);
      } else {
        at := GreedyMeets(levels[1..], need - take, l.price);
        SavedFirst(l, at);
        PaySplit(take, Filled(levels[1..], need - take), Filled(levels, need), at);
      }
    }
  }

  lemma SavedFirst(l: Level, at: real)
    requires at >= l.price
    ensures Pay(l.size, l.price) == Pay(l.size, at) - Saving(l, at)
  {
    PayDearer(l.size, l.price, at, at - l.price);
  }

  /** A certificate is a price at which the bound is met. */
  ghost predicate Certified(levels: seq<Level>, f: Fill, need: real, at: real) {
    f.cash == Pay(need - f.left, at) - Surplus(levels, at)
  }

  lemma CertifiedIsLeast(levels: seq<Level>, f: Fill, need: real, at: real, x: seq<real>)
    requires Certified(levels, f, need, at) && Within(x, levels) && Total(x) == need - f.left
    ensures Cash(x, levels) >= f.cash
  {
    DualBound(x, levels, at);
  }

  lemma AskCertificate(levels: seq<Level>, need: real) returns (at: real)
    requires Sizes(levels) && need >= 0.0
    ensures Certified(levels, Greedy(Sort(levels, false), need), need, at)
  {
    var sorted := Sort(levels, false);
    SortKeeps(levels, false);
    SizesOfSort(levels, false);
    at := GreedyMeets(sorted, need, LowestOf(sorted));
    SurplusOfSort(levels, false, at);
  }

  /** On asks, no allocation of the quantity the walk fills, within the levels as given, costs
      less. */
  lemma WalkIsCheapest(levels: seq<Level>, shares: real, x: seq<real>)
    requires Sizes(levels) && shares >= 0.0 && Within(x, levels)
    requires Total(x) == WalkOf(levels, shares, false).filled
    ensures Cash(x, levels) >= WalkOf(levels, shares, false).cash
  {
    var at := AskCertificate(levels, shares);
    CertifiedIsLeast(levels, Greedy(Sort(levels, false), shares), shares, at, x);
  }

  function LowestOf(levels: seq<Level>): real {
    if levels == [] then 0.0 else levels[0].price
  }

  // ---- bids: the same with prices negated ----

  function Negate(levels: seq<Level>): (r: seq<Level>)
    ensures |r| == |levels| && forall i :: 0 <= i < |r| ==> r[i] == Level(-levels[i].price, levels[i].size)
  {
    seq(|levels|, i requires 0 <= i < |levels| => Level(-levels[i].price, levels[i].size))
  }

  lemma NegateTail(levels: seq<Level>)
    requires levels != []
    ensures Negate(levels)[1..] == Negate(levels[1..])
  {}

  lemma {:induction false} NegatedCash(x: seq<real>, levels: seq<Level>)
    requires |x| == |levels|
    ensures Cash(x, Negate(levels)) == -Cash(x, levels)
    decreases |x|
  {
    if x != [] {
      NegateTail(levels);
      NegatedCash(x[1..], levels[1..]);
      NegatedProduct(x[0], levels[0].price);
    }
  }

  lemma NegatedProduct(a: real, p: real)
    ensures Pay(a, -p) == -Pay(a, p)
  {}

  lemma {:induction false} NegatedGreedy(levels: seq<Level>, need: real)
    ensures Greedy(Negate(levels), need) == Fill(-Greedy(levels, need).cash, Greedy(levels, need).left)
    decreases |levels|
  {
    if levels != [] {
      NegateTail(levels);
      var take := Min(need, levels[0].size);
      NegatedProduct(take, levels[0].price);
      NegatedGreedy(levels[1..], need - take);
    }
  }

  lemma {:induction false} SurplusNegated(levels: seq<Level>, bid: bool, at: real)
    ensures Surplus(Negate(Sort(levels, bid)), at) == Surplus(Negate(levels), at)
    decreases |levels|
  {
    if levels != [] {
      NegateTail(levels);
      SurplusNegated(levels[1..], bid, at);
      InsertNegated(levels[0], Sort(levels[1..], bid), bid, at);
    }
  }

  lemma {:induction false} InsertNegated(x: Level, levels: seq<Level>, bid: bool, at: real)
    ensures Surplus(Negate(Insert(x, levels, bid)), at) == Saving(Level(-x.price, x.size), at) + Surplus(Negate(levels), at)
    decreases |levels|
  {
    NegateTail(Insert(x, levels, bid));
    if levels == [] || First(x, levels[0], bid) {
      assert ([x] + levels)[1..] == levels;
    } else {
      NegateTail(levels);
      InsertNegated(x, levels[1..], bid, at);
      assert ([levels[0]] + Insert(x, levels[1..], bid))[1..] == Insert(x, levels[1..], bid);
    }
  }

  lemma BidCertificate(levels: seq<Level>, need: real) returns (at: real)
    requires Sizes(levels) && need >= 0.0
    ensures Certified(Negate(levels), Greedy(Negate(Sort(levels, true)), need), need, at)
  {
    var sorted := Sort(levels, true);
    SortKeeps(levels, true);
    SizesOfSort(levels, true);
    at := GreedyMeets(Negate(sorted), need, LowestOf(Negate(sorted)));
    SurplusNegated(levels, true, at);
  }

  /** On bids, none brings in more. */
  lemma WalkIsDearest(levels: seq<Level>, shares: real, x: seq<real>)
    requires Sizes(levels) && shares >= 0.0 && Within(x, levels)
    requires Total(x) == WalkOf(levels, shares, true).filled
    ensures Cash(x, levels) <= WalkOf(levels, shares, true).cash
  {
    var sorted := Sort(levels, true);
    NegatedGreedy(sorted, shares);
    var at := BidCertificate(levels, shares);
    CertifiedIsLeast(Negate(levels), Greedy(Negate(sorted), shares), shares, at, x);
    NegatedCash(x, levels);
  }

  // ---- and it is itself an allocation ----

  function Takes(levels: seq<Level>, need: real): seq<real> {
    if levels == [] then []
    else
      var take := Min(need, levels[0].size);
      [take] + if need - take <= DONE then Zeros(|levels| - 1) else Takes(levels[1..], need - take)
  }

  function Zeros(n: nat): (z: seq<real>)
    ensures |z| == n && forall i :: 0 <= i < n ==> z[i] == 0.0
  {
    seq(n, _ => 0.0)
  }

  lemma {:induction false} ZerosAddNothing(levels: seq<Level>)
    ensures Total(Zeros(|levels|)) == 0.0 && Cash(Zeros(|levels|), levels) == 0.0
    decreases |levels|
  {
    if levels != [] {
      ZerosAddNothing(levels[1..]);
      assert Zeros(|levels|)[1..] == Zeros(|levels[1..]|);
    }
  }

  /** The bound is reached by what the walk takes, in the order it takes it. */
  lemma {:induction false} TakesAreTheWalk(levels: seq<Level>, need: real)
    requires Sizes(levels) && need >= 0.0
    ensures Within(Takes(levels, need), levels)
    ensures Total(Takes(levels, need)) == need - Greedy(levels, need).left
    ensures Cash(Takes(levels, need), levels) == Greedy(levels, need).cash
    decreases |levels|
  {
    if levels != [] {
      var take := Min(need, levels[0].size);
      var tail := if need - take <= DONE then Zeros(|levels[1..]|) else Takes(levels[1..], need - take);
      assert Takes(levels, need) == [take] + tail && ([take] + tail)[1..] == tail;
      if need - take <= DONE { ZerosAddNothing(levels[1..]); } else { TakesAreTheWalk(levels[1..], need - take); }
    }
  }

  // ---- and in the order the levels were given ----

  /** An allocation of the levels with x inserted, taken back to x in front. */
  function UnInsert(x: Level, levels: seq<Level>, bid: bool, y: seq<real>): seq<real>
    requires |y| == |levels| + 1
    decreases |levels|
  {
    if levels == [] || First(x, levels[0], bid) then y
    else
      var back := UnInsert(x, levels[1..], bid, y[1..]);
      if back == [] then y else [back[0], y[0]] + back[1..]
  }

  lemma {:induction false} InsertLength(x: Level, levels: seq<Level>, bid: bool)
    ensures |Insert(x, levels, bid)| == |levels| + 1
    decreases |levels|
  {
    if levels != [] && !First(x, levels[0], bid) { InsertLength(x, levels[1..], bid); }
  }

  /** The same quantity at the same cost, within the levels. */
  ghost predicate SameTrade(x: seq<real>, xs: seq<Level>, y: seq<real>, ys: seq<Level>) {
    Within(x, xs) && |y| == |ys| && Total(x) == Total(y) && Cash(x, xs) == Cash(y, ys)
  }

  lemma SwapFront(a: real, l: Level, b: real, m: Level, x: seq<real>, levels: seq<Level>)
    requires |x| == |levels|
    ensures Total([a, b] + x) == a + b + Total(x)
    ensures Cash([a, b] + x, [l, m] + levels) == Pay(a, l.price) + Pay(b, m.price) + Cash(x, levels)
  {
    assert ([a, b] + x)[1..] == [b] + x && ([b] + x)[1..] == x;
    assert ([l, m] + levels)[1..] == [m] + levels && ([m] + levels)[1..] == levels;
  }

  lemma OneFront(a: real, l: Level, x: seq<real>, levels: seq<Level>)
    requires |x| == |levels|
    ensures Total([a] + x) == a + Total(x) && Cash([a] + x, [l] + levels) == Pay(a, l.price) + Cash(x, levels)
  {
    assert ([a] + x)[1..] == x && ([l] + levels)[1..] == levels;
  }

  lemma {:induction false} UnInsertSame(x: Level, levels: seq<Level>, bid: bool, y: seq<real>)
    requires |y| == |levels| + 1 && Within(y, Insert(x, levels, bid))
    ensures SameTrade(UnInsert(x, levels, bid, y), [x] + levels, y, Insert(x, levels, bid))
    decreases |levels|
  {
    if levels != [] && !First(x, levels[0], bid) {
      var l, rest := levels[0], levels[1..];
      var inner := Insert(x, rest, bid);
      InsertLength(x, rest, bid);
      assert Insert(x, levels, bid) == [l] + inner && y == [y[0]] + y[1..];
      assert Within(y[1..], inner) by {
        forall i | 0 <= i < |inner| ensures 0.0 <= y[1..][i] <= inner[i].size { assert ([l] + inner)[i + 1] == inner[i]; }
      }
      UnInsertSame(x, rest, bid, y[1..]);
      var back := UnInsert(x, rest, bid, y[1..]);
      assert back == [back[0]] + back[1..];
      assert levels == [l] + rest;
      OneFront(y[0], l, y[1..], inner);
      OneFront(back[0], x, back[1..], rest);
      SwapFront(back[0], x, y[0], l, back[1..], rest);
      WithinSwapped(back, x, rest, y[0], l);
      assert [x] + levels == [x, l] + rest;
    }
  }

  lemma WithinSwapped(back: seq<real>, x: Level, rest: seq<Level>, b: real, l: Level)
    requires Within(back, [x] + rest) && 0.0 <= b <= l.size
    ensures Within([back[0], b] + back[1..], [x, l] + rest)
  {
    var z, levels := [back[0], b] + back[1..], [x, l] + rest;
    forall i | 0 <= i < |z| ensures 0.0 <= z[i] <= levels[i].size {
      if i == 0 {
        assert ([x] + rest)[0] == x;
      } else if i > 1 {
        assert z[i] == back[i - 1] && levels[i] == ([x] + rest)[i - 1];
      }
    }
  }

  /** Any allocation of the sorted levels is one of the levels as given, at the same cost. */
  lemma {:induction false} Unsorted(levels: seq<Level>, bid: bool, y: seq<real>) returns (x: seq<real>)
    requires Within(y, Sort(levels, bid))
    ensures SameTrade(x, levels, y, Sort(levels, bid))
    decreases |levels|
  {
    if levels == [] {
      x := [];
    } else {
      var sorted := Sort(levels[1..], bid);
      InsertLength(levels[0], sorted, bid);
      UnInsertSame(levels[0], sorted, bid, y);
      var z := UnInsert(levels[0], sorted, bid, y);
      assert Within(z[1..], sorted) by {
        forall i | 0 <= i < |sorted| ensures 0.0 <= z[1..][i] <= sorted[i].size { assert ([levels[0]] + sorted)[i + 1] == sorted[i]; }
      }
      var back := Unsorted(levels[1..], bid, z[1..]);
      x := [z[0]] + back;
      assert levels == [levels[0]] + levels[1..] && z == [z[0]] + z[1..];
      OneFront(z[0], levels[0], z[1..], sorted);
      OneFront(z[0], levels[0], back, levels[1..]);
      assert ([levels[0]] + sorted)[0] == levels[0];
    }
  }

  /** What the walk pays or receives is the cash of an allocation of the levels as given, of the
      quantity it fills: so the least (the most) is reached. */
  lemma WalkIsAnAllocation(levels: seq<Level>, shares: real, bid: bool) returns (x: seq<real>)
    requires Sizes(levels) && shares >= 0.0
    ensures Within(x, levels)
    ensures Total(x) == WalkOf(levels, shares, bid).filled && Cash(x, levels) == WalkOf(levels, shares, bid).cash
  {
    var sorted := Sort(levels, bid);
    SizesOfSort(levels, bid);
    TakesAreTheWalk(sorted, shares);
    x := Unsorted(levels, bid, Takes(sorted, shares));
  }
}
