// backtest/weather/common.py and backtest/weather/model.py: temperature buckets as intervals, and
// the probabilities they are given. The distribution is any monotone function into [0, 1].
module Buckets {
  import opened Common

  datatype Semantics = Round | Floor
  datatype Unit = F | C

  datatype Bucket = Bucket(lo: Option<int>, hi: Option<int>, unit: Unit)

  /** Half-open; a missing end is unbounded. */
  datatype Interval = Interval(a: Option<real>, b: Option<real>)

  function BucketInterval(lo: Option<int>, hi: Option<int>, s: Semantics): Interval {
    match s
    case Floor =>
      Interval(if lo.None? then None else Some(lo.value as real), if hi.None? then None else Some(hi.value as real + 1.0))
    case Round =>
      Interval(if lo.None? then None else Some(lo.value as real - 0.5), if hi.None? then None else Some(hi.value as real + 0.5))
  }

  predicate InInterval(i: Interval, x: real) {
    (i.a.None? || x >= i.a.value) && (i.b.None? || x < i.b.value)
  }

  predicate BucketContains(lo: Option<int>, hi: Option<int>, s: Semantics, x: real) {
    InInterval(BucketInterval(lo, hi, s), x)
  }

  predicate Labels(lo: Option<int>, hi: Option<int>, n: int) {
    (lo.Some? ==> lo.value <= n) && (hi.Some? ==> n <= hi.value)
  }

  /** What the two readings mean: a temperature belongs to the bucket whose labels hold its whole
      part, or its nearest whole number with halves up. */
  lemma ContainsIff(lo: Option<int>, hi: Option<int>, x: real)
    ensures BucketContains(lo, hi, Floor, x) <==> Labels(lo, hi, x.Floor)
    ensures BucketContains(lo, hi, Round, x) <==> Labels(lo, hi, (x + 0.5).Floor)
  {
    FloorBetween(x, x.Floor);
    FloorBetween(x + 0.5, (x + 0.5).Floor);
  }

  lemma FloorBetween(x: real, n: int)
    requires n == x.Floor
    ensures n as real <= x < n as real + 1.0
  {}

  function FToC(f: real): real {
    (f - 32.0) * 5.0 / 9.0
  }

  /** Degrees C given in F and taken back. */
  lemma FToCInverts(c: real)
    ensures FToC(c * 9.0 / 5.0 + 32.0) == c
  {}

  function EdgesC(bk: Bucket, s: Semantics): Interval {
    var i := BucketInterval(bk.lo, bk.hi, s);
    if bk.unit.F? then
      Interval(if i.a.None? then None else Some(FToC(i.a.value)), if i.b.None? then None else Some(FToC(i.b.value)))
    else i
  }

  /** Integer buckets, each starting where the one before ends, the last open above. */
  ghost predicate Chained(bs: seq<Bucket>) {
    && bs != [] && bs[|bs| - 1].hi.None?
    && (forall i :: 0 <= i < |bs| ==> bs[i].lo.Some? && bs[i].hi.Some? ==> bs[i].lo.value <= bs[i].hi.value)
    && (forall i :: 0 <= i < |bs| - 1 ==> Next(bs[i], bs[i + 1]))
  }

  /** Chained, open below, and in one unit. */
  ghost predicate Consecutive(bs: seq<Bucket>) {
    Chained(bs) && bs[0].lo.None? && forall i :: 0 <= i < |bs| ==> bs[i].unit == bs[0].unit
  }

  predicate Next(b: Bucket, c: Bucket) {
    b.hi.Some? && c.lo == Some(b.hi.value + 1)
  }

  // ---- every temperature is in exactly one ----

  /** Where a bucket ends the next begins, in either reading of the labels. */
  lemma EdgesMeet(b: Bucket, c: Bucket, s: Semantics)
    requires Next(b, c)
    ensures BucketInterval(b.lo, b.hi, s).b.Some? && BucketInterval(c.lo, c.hi, s).a == BucketInterval(b.lo, b.hi, s).b
  {}

  /** The first bucket whose end is above x. */
  function Locate(bs: seq<Bucket>, s: Semantics, x: real): (k: nat)
    requires bs != []
    ensures k < |bs|
    decreases |bs|
  {
    var b := BucketInterval(bs[0].lo, bs[0].hi, s).b;
    if |bs| == 1 || b.None? || x < b.value then 0 else 1 + Locate(bs[1..], s, x)
  }

  predicate StartsBy(b: Bucket, s: Semantics, x: real) {
    var a := BucketInterval(b.lo, b.hi, s).a;
    a.None? || a.value <= x
  }

  lemma {:induction false} LocateContains(bs: seq<Bucket>, s: Semantics, x: real)
    requires Chained(bs) && StartsBy(bs[0], s, x)
    ensures var k := Locate(bs, s, x); BucketContains(bs[k].lo, bs[k].hi, s, x)
    decreases |bs|
  {
    var b := BucketInterval(bs[0].lo, bs[0].hi, s).b;
    if |bs| > 1 && b.Some? && x >= b.value {
      assert Next(bs[0], bs[1]);
      EdgesMeet(bs[0], bs[1], s);
      forall i | 0 <= i < |bs| - 2 ensures Next(bs[1..][i], bs[1..][i + 1]) {
        assert bs[1..][i] == bs[i + 1] && Next(bs[i + 1], bs[i + 2]);
      }
      LocateContains(bs[1..], s, x);
    }
  }

  /** Later buckets lie wholly above earlier ones. */
  lemma {:induction false} Ordered(bs: seq<Bucket>, s: Semantics, i: nat, j: nat, x: real)
    requires Chained(bs) && i < j < |bs| && BucketContains(bs[j].lo, bs[j].hi, s, x)
    ensures !BucketContains(bs[i].lo, bs[i].hi, s, x)
    decreases j - i
  {
    assert Next(bs[j - 1], bs[j]);
    EdgesMeet(bs[j - 1], bs[j], s);
    BelowStart(bs, s, i, j - 1, x);
  }

  lemma {:induction false} BelowStart(bs: seq<Bucket>, s: Semantics, i: nat, j: nat, x: real)
    requires Chained(bs) && i <= j < |bs| - 1
    requires var b := BucketInterval(bs[j].lo, bs[j].hi, s).b; b.Some? && b.value <= x
    ensures !BucketContains(bs[i].lo, bs[i].hi, s, x)
    decreases j - i
  {
    if i < j {
      assert Next(bs[j - 1], bs[j]);
      EdgesMeet(bs[j - 1], bs[j], s);
      assert bs[j].lo.Some? && bs[j].hi.Some? && bs[j].lo.value <= bs[j].hi.value;
      BelowStart(bs, s, i, j - 1, x);
    }
  }

  predicate Holds(bs: seq<Bucket>, s: Semantics, k: int, x: real) {
    0 <= k < |bs| && BucketContains(bs[k].lo, bs[k].hi, s, x)
  }

  /** Under either reading every real temperature is in one bucket, and in no other. */
  lemma ExactlyOne(bs: seq<Bucket>, s: Semantics, x: real)
    requires Consecutive(bs)
    ensures exists k :: Holds(bs, s, k, x)
    ensures forall i, j :: Holds(bs, s, i, x) && Holds(bs, s, j, x) ==> i == j
  {
    LocateContains(bs, s, x);
    assert Holds(bs, s, Locate(bs, s, x), x);
    forall i, j | 0 <= i < j < |bs| && Holds(bs, s, j, x) ensures !Holds(bs, s, i, x) {
      Ordered(bs, s, i, j, x);
    }
  }

  // ---- probabilities ----

  /** A distribution function of a temperature in degrees C. */
  ghost predicate Distribution(cdf: real -> real) {
    && (forall x :: 0.0 <= cdf(x) <= 1.0)
    && (forall x, y :: x <= y ==> cdf(x) <= cdf(y))
  }

  function IntervalProb(i: Interval, cdf: real -> real): real {
    var hi := if i.b.None? then 1.0 else cdf(i.b.value);
    var lo := if i.a.None? then 0.0 else cdf(i.a.value);
    Max(0.0, hi - lo)
  }

  function Upper(bk: Bucket, s: Semantics, cdf: real -> real): real {
    var b := EdgesC(bk, s).b;
    if b.None? then 1.0 else cdf(b.value)
  }

  function Lower(bk: Bucket, s: Semantics, cdf: real -> real): real {
    var a := EdgesC(bk, s).a;
    if a.None? then 0.0 else cdf(a.value)
  }

  /** The probabilities of the buckets, added up. */
  function ProbSum(bs: seq<Bucket>, s: Semantics, cdf: real -> real): real {
    if bs == [] then 0.0
    else ProbSum(bs[..|bs| - 1], s, cdf) + IntervalProb(EdgesC(bs[|bs| - 1], s), cdf)
  }

  lemma FToCMonotone(x: real, y: real)
    requires x <= y
    ensures FToC(x) <= FToC(y)
  {}

  lemma BucketProb(bk: Bucket, s: Semantics, cdf: real -> real)
    requires Distribution(cdf)
    requires bk.lo.Some? && bk.hi.Some? ==> bk.lo.value <= bk.hi.value
    ensures IntervalProb(EdgesC(bk, s), cdf) == Upper(bk, s, cdf) - Lower(bk, s, cdf)
    ensures 0.0 <= IntervalProb(EdgesC(bk, s), cdf) <= 1.0
  {
    var i, e := BucketInterval(bk.lo, bk.hi, s), EdgesC(bk, s);
    if e.a.Some? && e.b.Some? {
      FToCMonotone(i.a.value, i.b.value);
      assert e.a.value <= e.b.value && cdf(e.a.value) <= cdf(e.b.value);
    }
    assert e.a.Some? ==> 0.0 <= cdf(e.a.value) <= 1.0;
    assert e.b.Some? ==> 0.0 <= cdf(e.b.value) <= 1.0;
  }

  lemma {:induction false} SumTelescopes(bs: seq<Bucket>, s: Semantics, cdf: real -> real, k: nat)
    requires Consecutive(bs) && Distribution(cdf) && 1 <= k <= |bs|
    ensures ProbSum(bs[..k], s, cdf) == Upper(bs[k - 1], s, cdf)
    decreases k
  {
    assert bs[..k][..k - 1] == bs[..k - 1];
    BucketProb(bs[k - 1], s, cdf);
    if k > 1 {
      SumTelescopes(bs, s, cdf, k - 1);
      assert Next(bs[k - 2], bs[k - 1]);
      EdgesMeet(bs[k - 2], bs[k - 1], s);
      assert bs[k - 1].unit == bs[0].unit == bs[k - 2].unit;
    } else {
      assert bs[..0] == [];
    }
  }

  /** Whatever the distribution, the reading and the unit, the bucket probabilities add up to one. */
  lemma ProbabilitiesSumToOne(bs: seq<Bucket>, s: Semantics, cdf: real -> real)
    requires Consecutive(bs) && Distribution(cdf)
    ensures ProbSum(bs, s, cdf) == 1.0
  {
    SumTelescopes(bs, s, cdf, |bs|);
    assert bs[..|bs|] == bs;
  }

  // ---- an ensemble: one distribution per member, averaged ----

  /** One distribution for each forecast member. */
  function MemberSum(bk: Bucket, s: Semantics, members: seq<real -> real>): real {
    if members == [] then 0.0
    else MemberSum(bk, s, members[..|members| - 1]) + IntervalProb(EdgesC(bk, s), members[|members| - 1])
  }

  function EnsembleProb(bk: Bucket, s: Semantics, members: seq<real -> real>): real
    requires members != []
  {
    Mean(MemberSum(bk, s, members), |members|)
  }

  function Mean(sum: real, n: nat): real
    requires n > 0
  {
    sum / n as real
  }

  function Total(ps: seq<real>): real {
    if ps == [] then 0.0 else Total(ps[..|ps| - 1]) + ps[|ps| - 1]
  }

  method BucketProbsEnsemble(members: seq<real -> real>, bs: seq<Bucket>, s: Semantics) returns (probs: seq<real>)
    requires members != []
    ensures |probs| == |bs| && forall k :: 0 <= k < |bs| ==> probs[k] == EnsembleProb(bs[k], s, members)
  {
    probs := [];
    var k := 0;
    while k < |bs|
      invariant 0 <= k <= |bs| == |probs| + (|bs| - k)
      invariant forall j :: 0 <= j < k ==> probs[j] == EnsembleProb(bs[j], s, members)
    {
      var p := 0.0;
      var m := 0;
      while m < |members|
        invariant 0 <= m <= |members|
        invariant p == MemberSum(bs[k], s, members[..m])
      {
        assert members[..m + 1][..m] == members[..m];
        p := p + IntervalProb(EdgesC(bs[k], s), members[m]);
        m := m + 1;
      }
      assert members[..m] == members;
      probs := probs + [Mean(p, |members|)];
      k := k + 1;
    }
  }

  /** All members and all buckets, added up bucket by bucket. */
  function GridSum(bs: seq<Bucket>, s: Semantics, members: seq<real -> real>): real {
    if bs == [] then 0.0 else GridSum(bs[..|bs| - 1], s, members) + MemberSum(bs[|bs| - 1], s, members)
  }

  lemma {:induction false} GridByMember(bs: seq<Bucket>, s: Semantics, members: seq<real -> real>)
    requires members != []
    ensures GridSum(bs, s, members)
         == GridSum(bs, s, members[..|members| - 1]) + ProbSum(bs, s, members[|members| - 1])
    decreases |bs|
  {
    if bs != [] { GridByMember(bs[..|bs| - 1], s, members); }
  }

  lemma {:induction false} GridIsMemberCount(bs: seq<Bucket>, s: Semantics, members: seq<real -> real>)
    requires Consecutive(bs) && forall m :: 0 <= m < |members| ==> Distribution(members[m])
    ensures GridSum(bs, s, members) == |members| as real
    decreases |members|
  {
    if members == [] {
      EmptyGrid(bs, s);
    } else {
      GridByMember(bs, s, members);
      GridIsMemberCount(bs, s, members[..|members| - 1]);
      ProbabilitiesSumToOne(bs, s, members[|members| - 1]);
    }
  }

  lemma {:induction false} EmptyGrid(bs: seq<Bucket>, s: Semantics)
    ensures GridSum(bs, s, []) == 0.0
    decreases |bs|
  {
    if bs != [] { EmptyGrid(bs[..|bs| - 1], s); }
  }

  lemma {:induction false} TotalIsGridShare(bs: seq<Bucket>, s: Semantics, members: seq<real -> real>, probs: seq<real>)
    requires members != [] && |probs| == |bs|
    requires forall k :: 0 <= k < |bs| ==> probs[k] == EnsembleProb(bs[k], s, members)
    ensures Total(probs) == Mean(GridSum(bs, s, members), |members|)
    decreases |bs|
  {
    if bs == [] {
      assert Mean(0.0, |members|) == 0.0;
    } else {
      var n := |bs| - 1;
      TotalIsGridShare(bs[..n], s, members, probs[..n]);
      MeanAdds(GridSum(bs[..n], s, members), MemberSum(bs[n], s, members), GridSum(bs, s, members), |members|);
    }
  }

  lemma MeanAdds(a: real, b: real, sum: real, n: nat)
    requires n > 0 && sum == a + b
    ensures Mean(sum, n) == Mean(a, n) + Mean(b, n)
  {
    var x, y := a / n as real, b / n as real;
    assert (x + y) * n as real == a + b;
  }

  /** And so do the averaged probabilities of any ensemble. */
  lemma EnsembleSumsToOne(bs: seq<Bucket>, s: Semantics, members: seq<real -> real>, probs: seq<real>)
    requires Consecutive(bs) && members != [] && forall m :: 0 <= m < |members| ==> Distribution(members[m])
    requires |probs| == |bs| && forall k :: 0 <= k < |bs| ==> probs[k] == EnsembleProb(bs[k], s, members)
    ensures Total(probs) == 1.0
  {
    TotalIsGridShare(bs, s, members, probs);
    GridIsMemberCount(bs, s, members);
    SelfMean(GridSum(bs, s, members), |members|);
  }

  lemma SelfMean(a: real, n: nat)
    requires n > 0 && a == n as real
    ensures Mean(a, n) == 1.0
  {}
}
