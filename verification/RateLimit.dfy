// cpp/include/pmm/ratelimit.hpp: the token bucket every request passes through, and the
// limiter that keeps one bucket per endpoint plus one for the host.
//
// The mutex makes each refill-and-take one atomic step, so an execution with any number of
// threads is some sequence of `Attempt`s; each carries the clock reading made under the lock.
// Nothing is assumed about the order of those readings: the code ignores a step backwards.
module RateLimit {
  import opened Common

  datatype Config = Config(rate: real, capacity: real, reserve: real) {
    predicate Ok() {
      0.0 <= rate && 0.0 <= capacity && 0.0 <= reserve
    }
  }

  /** Capacity defaults to one second of allowance, at least one token. */
  function MakeConfig(rate: real, burst: Option<real>, reserve: real): Config {
    Config(rate, if burst.Some? then burst.value else Max(1.0, rate), reserve)
  }

  datatype Level = Level(tokens: real, last: real, granted: real, grantedLow: real)

  datatype Attempt = Attempt(now: real, n: real, low: bool)

  ghost predicate Valid(c: Config, b: Level) {
    c.Ok() && 0.0 <= b.tokens <= c.capacity
  }

  function Full(c: Config, now: real): Level {
    Level(c.capacity, now, 0.0, 0.0)
  }

  function Refill(c: Config, b: Level, now: real): Level {
    var elapsed := now - b.last;
    if elapsed > 0.0
    then b.(tokens := Min(c.capacity, b.tokens + elapsed * c.rate), last := now)
    else b
  }

  function Needed(c: Config, a: Attempt): real {
    a.n + if a.low then c.reserve else 0.0
  }

  predicate Grants(c: Config, b: Level, a: Attempt) {
    Refill(c, b, a.now).tokens >= Needed(c, a)
  }

  function Step(c: Config, b: Level, a: Attempt): Level {
    var r := Refill(c, b, a.now);
    if Grants(c, b, a)
    then Level(r.tokens - a.n, r.last, r.granted + a.n, r.grantedLow + if a.low then a.n else 0.0)
    else r
  }

  function Run(c: Config, b: Level, attempts: seq<Attempt>): Level
    decreases |attempts|
  {
    if attempts == [] then b else Run(c, Step(c, b, attempts[0]), attempts[1..])
  }

  /** Callers ask for a non-negative number of tokens, at clock readings inside the window. */
  ghost predicate InWindow(attempts: seq<Attempt>, from: real, upto: real) {
    forall a :: a in attempts ==> a.n >= 0.0 && from <= a.now <= upto
  }

  /** What low-priority callers can see of a bucket: the tokens above the reserve. */
  function Spare(c: Config, b: Level): real {
    Max(0.0, b.tokens - c.reserve)
  }

  // ---- one step ----

  lemma StepKeeps(c: Config, b: Level, a: Attempt, upto: real)
    requires Valid(c, b) && a.n >= 0.0 && a.now <= upto
    ensures Valid(c, Step(c, b, a))
    ensures b.last <= Step(c, b, a).last && a.now <= Step(c, b, a).last
    ensures var s := Step(c, b, a); Credit(c, s, upto) <= Credit(c, b, upto)
    ensures var s := Step(c, b, a); CreditLow(c, s, upto) <= CreditLow(c, b, upto)
  {
    RefillCredits(c, b, a.now, upto);
  }

  lemma RefillCredits(c: Config, b: Level, now: real, upto: real)
    requires Valid(c, b) && now <= upto
    ensures var r := Refill(c, b, now);
            && Valid(c, r) && b.last <= r.last && now <= r.last
            && Credit(c, r, upto) <= Credit(c, b, upto) && CreditLow(c, r, upto) <= CreditLow(c, b, upto)
  {
    if now > b.last {
      ComingSplit(c, b.last, now, upto);
      RefillAdds(c, b, now, Coming(c, b.last, now));
    }
  }

  /** Everything the rate refills between two times. */
  function Coming(c: Config, from: real, upto: real): real {
    c.rate * Max(0.0, upto - from)
  }

  lemma ComingSplit(c: Config, from: real, now: real, upto: real)
    requires c.Ok() && from < now <= upto
    ensures 0.0 <= Coming(c, from, now) == (now - from) * c.rate
    ensures Coming(c, from, upto) == Coming(c, from, now) + Coming(c, now, upto)
  {
    RateSplit(c.rate, now - from, upto - now, upto - from);
  }

  lemma RateSplit(rate: real, a: real, b: real, sum: real)
    requires 0.0 <= rate && 0.0 <= a && sum == a + b
    ensures 0.0 <= rate * a == a * rate && rate * sum == rate * a + rate * b
  {}

  lemma RefillAdds(c: Config, b: Level, now: real, refill: real)
    requires Valid(c, b) && now > b.last && 0.0 <= refill == (now - b.last) * c.rate
    ensures var r := Refill(c, b, now);
            && Valid(c, r) && r.last == now && r.granted == b.granted && r.grantedLow == b.grantedLow
            && r.tokens <= b.tokens + refill && Spare(c, r) <= Spare(c, b) + refill
  {}

  /** Grants so far, plus everything that could still be granted before `upto`. */
  ghost function Credit(c: Config, b: Level, upto: real): real {
    b.granted + b.tokens + Coming(c, b.last, upto)
  }

  /** The same for low-priority callers: a smaller bucket of capacity - reserve. */
  ghost function CreditLow(c: Config, b: Level, upto: real): real {
    b.grantedLow + Spare(c, b) + Coming(c, b.last, upto)
  }

  lemma {:induction false} RunKeeps(c: Config, b: Level, attempts: seq<Attempt>, from: real, upto: real)
    requires Valid(c, b) && InWindow(attempts, from, upto)
    ensures Valid(c, Run(c, b, attempts))
    ensures Credit(c, Run(c, b, attempts), upto) <= Credit(c, b, upto)
    ensures CreditLow(c, Run(c, b, attempts), upto) <= CreditLow(c, b, upto)
    decreases |attempts|
  {
    if attempts != [] {
      StepKeeps(c, b, attempts[0], upto);
      RunKeeps(c, Step(c, b, attempts[0]), attempts[1..], from, upto);
    }
  }

  // ---- the window bounds ----

  lemma CreditBounds(c: Config, b: Level, from: real, upto: real)
    requires Valid(c, b) && from <= upto
    ensures b.granted <= Credit(c, b, upto) && b.grantedLow <= CreditLow(c, b, upto)
    ensures from <= b.last ==> Credit(c, b, upto) <= b.granted + c.capacity + c.rate * (upto - from)
    ensures from <= b.last ==>
              CreditLow(c, b, upto) <= b.grantedLow + Max(0.0, c.capacity - c.reserve) + c.rate * (upto - from)
  {
    ComingWithin(c, b.last, from, upto);
  }

  lemma ComingWithin(c: Config, last: real, from: real, upto: real)
    requires c.Ok() && from <= upto
    ensures 0.0 <= Coming(c, last, upto)
    ensures from <= last ==> Coming(c, last, upto) <= c.rate * (upto - from)
  {
    var left := Max(0.0, upto - last);
    MulMono(c.rate, 0.0, left);
    if from <= last { MulMono(c.rate, left, upto - from); }
  }

  /** Whatever happened before, no window of length `upto - from` grants more than a full bucket
      plus what the rate refills in it; low-priority callers get at most the part of the bucket
      above the reserve plus the same refill. */
  lemma {:induction false} WindowBound(c: Config, b: Level, attempts: seq<Attempt>, from: real, upto: real)
    requires Valid(c, b) && from <= upto && InWindow(attempts, from, upto)
    ensures Valid(c, Run(c, b, attempts))
    ensures Run(c, b, attempts).granted - b.granted <= c.capacity + c.rate * (upto - from)
    ensures Run(c, b, attempts).grantedLow - b.grantedLow
         <= Max(0.0, c.capacity - c.reserve) + c.rate * (upto - from)
  {
    if attempts == [] {
      assert 0.0 <= c.rate * (upto - from);
    } else {
      var a := attempts[0];
      var r := Refill(c, b, a.now);
      RefillKeeps(c, b, a);
      assert Run(c, r, attempts) == Run(c, b, attempts);
      RunKeeps(c, r, attempts, from, upto);
      CreditBounds(c, r, from, upto);
      CreditBounds(c, Run(c, b, attempts), from, upto);
    }
  }

  lemma RefillKeeps(c: Config, b: Level, a: Attempt)
    requires Valid(c, b)
    ensures var r := Refill(c, b, a.now);
            && Valid(c, r) && a.now <= r.last
            && r.granted == b.granted && r.grantedLow == b.grantedLow && Step(c, r, a) == Step(c, b, a)
  {
    if a.now > b.last {
      MulNonNegative(a.now - b.last, c.rate);
      RefillAdds(c, b, a.now, (a.now - b.last) * c.rate);
      assert Refill(c, Refill(c, b, a.now), a.now) == Refill(c, b, a.now);
    }
  }

  /** A drained bucket that is drained again every `step` for n steps, a piece each time. */
  function Drains(from: real, step: real, piece: real, n: nat): seq<Attempt>
    decreases n
  {
    if n == 0 then [] else [Attempt(from + step, piece, false)] + Drains(from + step, step, piece, n - 1)
  }

  /** The time and the tokens of n steps. */
  function Times(x: real, n: nat): real
    decreases n
  {
    if n == 0 then 0.0 else x + Times(x, n - 1)
  }

  lemma {:induction false} TimesIs(x: real, n: nat)
    ensures Times(x, n) == x * n as real
    ensures x >= 0.0 ==> Times(x, n) >= 0.0
    decreases n
  {
    if n > 0 {
      TimesIs(x, n - 1);
      assert x * n as real == x + x * (n - 1) as real;
    }
  }

  lemma DrainOnce(c: Config, from: real, step: real, piece: real, granted: real, low: real)
    requires c.Ok() && step > 0.0 && 0.0 <= piece == step * c.rate && piece <= c.capacity
    ensures Step(c, Level(0.0, from, granted, low), Attempt(from + step, piece, false))
         == Level(0.0, from + step, granted + piece, low)
  {
    assert from + step - from == step;
    RefillIs(c, Level(0.0, from, granted, low), from + step, piece);
  }

  lemma RefillIs(c: Config, b: Level, now: real, refill: real)
    requires now > b.last && refill == (now - b.last) * c.rate
    ensures Refill(c, b, now) == b.(tokens := Min(c.capacity, b.tokens + refill), last := now)
  {}

  lemma RunFirst(c: Config, b: Level, a: Attempt, rest: seq<Attempt>)
    ensures Run(c, b, [a] + rest) == Run(c, Step(c, b, a), rest)
  {
    assert ([a] + rest)[1..] == rest;
  }

  lemma {:induction false} DrainsInWindow(from: real, step: real, piece: real, n: nat, upto: real)
    requires step > 0.0 && piece >= 0.0 && from + Times(step, n) <= upto
    ensures InWindow(Drains(from, step, piece, n), from, upto)
    decreases n
  {
    if n > 0 {
      TimesIs(step, n - 1);
      DrainsInWindow(from + step, step, piece, n - 1, upto);
    }
  }

  lemma {:induction false} DrainsGrantAll(c: Config, from: real, step: real, piece: real, n: nat, granted: real, low: real)
    requires c.Ok() && step > 0.0 && 0.0 <= piece == step * c.rate && piece <= c.capacity
    ensures Run(c, Level(0.0, from, granted, low), Drains(from, step, piece, n)).granted == granted + Times(piece, n)
    decreases n
  {
    if n > 0 {
      DrainOnce(c, from, step, piece, granted, low);
      DrainsGrantAll(c, from + step, step, piece, n - 1, granted + piece, low);
      RunFirst(c, Level(0.0, from, granted, low), Attempt(from + step, piece, false), Drains(from + step, step, piece, n - 1));
    }
  }

  /** Steps short enough for the bucket to hold what each refills. */
  lemma ShortSteps(c: Config, span: real) returns (n: nat, step: real)
    requires c.Ok() && c.capacity > 0.0 && span > 0.0
    ensures n > 0 && step > 0.0 && step * n as real == span && c.rate * step <= c.capacity
  {
    n := (c.rate * span / c.capacity).Floor + 1;
    var need := c.rate * span / c.capacity;
    MulNonNegative(c.rate, span);
    QuotientAtMostIff(c.rate * span, c.capacity, n as real);
    assert need * c.capacity == c.rate * span;
    assert need >= 0.0 by { if need < 0.0 { NegativeTimes(need, c.capacity); } }
    step := span / n as real;
    StepFits(c.rate, span, n as real, step, c.capacity);
  }

  lemma NegativeTimes(x: real, y: real)
    requires x < 0.0 && y > 0.0
    ensures x * y < 0.0
  {}

  lemma StepFits(rate: real, span: real, n: real, step: real, capacity: real)
    requires n > 0.0 && span > 0.0 && step == span / n && rate * span <= n * capacity
    ensures step > 0.0 && step * n == span && rate * step <= capacity
  {
    assert step * n == span;
    assert step > 0.0 by { assert step <= 0.0 ==> step * n <= 0.0; }
    var a := rate * step;
    assert a * n == rate * span;
    assert a > capacity ==> a * n > capacity * n;
  }

  /** With no capacity nothing is ever granted. */
  lemma {:induction false} NothingFromNothing(c: Config, b: Level, attempts: seq<Attempt>, from: real, upto: real)
    requires Valid(c, b) && c.capacity == 0.0 && InWindow(attempts, from, upto)
    ensures Run(c, b, attempts).granted == b.granted
    decreases |attempts|
  {
    if attempts != [] {
      StepKeeps(c, b, attempts[0], attempts[0].now);
      NothingFromNothing(c, Step(c, b, attempts[0]), attempts[1..], from, upto);
    }
  }

  /** The bound is reached in every window of every length, by a full bucket drained at once and
      then as it refills; except that a bucket that holds nothing grants nothing. */
  lemma WindowBoundTightIff(c: Config, from: real, upto: real)
    requires c.Ok() && from <= upto
    ensures (exists attempts :: InWindow(attempts, from, upto)
               && Run(c, Full(c, from), attempts).granted == c.capacity + c.rate * (upto - from))
            <==> c.capacity > 0.0 || c.rate * (upto - from) == 0.0
  {
    if c.capacity > 0.0 {
      var attempts := TightAttempts(c, from, upto);
      assert InWindow(attempts, from, upto);
    } else {
      forall attempts | InWindow(attempts, from, upto) ensures Run(c, Full(c, from), attempts).granted == 0.0 {
        NothingFromNothing(c, Full(c, from), attempts, from, upto);
      }
      assert InWindow([], from, upto) && Run(c, Full(c, from), []).granted == 0.0;
    }
  }

  lemma TightAttempts(c: Config, from: real, upto: real) returns (attempts: seq<Attempt>)
    requires c.Ok() && from <= upto && c.capacity > 0.0
    ensures InWindow(attempts, from, upto)
    ensures Run(c, Full(c, from), attempts).granted == c.capacity + c.rate * (upto - from)
  {
    var first, later := Attempt(from, c.capacity, false), [];
    FirstDrain(c, from);
    if from < upto { later := TightTail(c, from, upto); } else { NoSpan(c.rate, upto - from); }
    attempts := [first] + later;
    RunFirst(c, Full(c, from), first, later);
  }

  /** A drained bucket kept drained until the end of the window. */
  lemma TightTail(c: Config, from: real, upto: real) returns (later: seq<Attempt>)
    requires c.Ok() && from < upto && c.capacity > 0.0
    ensures InWindow(later, from, upto)
    ensures Run(c, Level(0.0, from, c.capacity, 0.0), later).granted == c.capacity + c.rate * (upto - from)
  {
    var n, step := ShortSteps(c, upto - from);
    later := Drains(from, step, step * c.rate, n);
    TailInWindow(c, from, step, n, upto);
    TailGrants(c, from, step, n, upto);
  }

  lemma TailInWindow(c: Config, from: real, step: real, n: nat, upto: real)
    requires c.Ok() && step > 0.0 && c.rate * step <= c.capacity && step * n as real == upto - from
    ensures InWindow(Drains(from, step, step * c.rate, n), from, upto)
  {
    PieceFits(c, step, step * c.rate);
    TimesIs(step, n);
    DrainsInWindow(from, step, step * c.rate, n, upto);
  }

  lemma TailGrants(c: Config, from: real, step: real, n: nat, upto: real)
    requires c.Ok() && step > 0.0 && c.rate * step <= c.capacity && step * n as real == upto - from
    ensures Run(c, Level(0.0, from, c.capacity, 0.0), Drains(from, step, step * c.rate, n)).granted
         == c.capacity + c.rate * (upto - from)
  {
    var piece := step * c.rate;
    PieceFits(c, step, piece);
    DrainedTokens(c.rate, step, piece, n, upto - from);
    DrainsGrantAll(c, from, step, piece, n, c.capacity, 0.0);
  }

  lemma PieceFits(c: Config, step: real, piece: real)
    requires c.Ok() && step > 0.0 && c.rate * step <= c.capacity && piece == step * c.rate
    ensures 0.0 <= piece <= c.capacity
  {
    MulNonNegative(c.rate, step);
    assert piece == c.rate * step;
  }

  lemma FirstDrain(c: Config, from: real)
    requires c.Ok()
    ensures Step(c, Full(c, from), Attempt(from, c.capacity, false)) == Level(0.0, from, c.capacity, 0.0)
  {}

  lemma NoSpan(rate: real, span: real)
    requires span == 0.0
    ensures rate * span == 0.0
  {}

  lemma DrainedTokens(rate: real, step: real, piece: real, n: nat, span: real)
    requires step * n as real == span && piece == step * rate
    ensures Times(piece, n) == rate * span
  {
    TimesIs(piece, n);
    assert (step * rate) * n as real == rate * (step * n as real);
  }

  // ---- waiting ----

  /** An attempt can ever succeed, left alone for some time, exactly when it fits in the bucket
      with its floor, or without a refill rate in what the bucket has; asking for more waits for
      ever. */
  lemma EventuallyGrantedIff(c: Config, b: Level, n: real, low: bool)
    requires Valid(c, b) && n >= 0.0
    ensures (exists now :: Grants(c, b, Attempt(now, n, low)))
            <==> Needed(c, Attempt(0.0, n, low)) <= if c.rate > 0.0 then c.capacity else b.tokens
  {
    var need := Needed(c, Attempt(0.0, n, low));
    if c.rate > 0.0 {
      if need <= c.capacity {
        var wait := c.capacity / c.rate;
        assert wait * c.rate == c.capacity;
        assert Grants(c, b, Attempt(b.last + wait, n, low));
      }
    } else {
      forall now ensures Refill(c, b, now).tokens == b.tokens { assert (now - b.last) * c.rate == 0.0; }
      if need <= b.tokens { assert Grants(c, b, Attempt(b.last, n, low)); }
    }
  }

  /** The wait the loop computes from the deficit is enough when nobody else draws, and no
      shorter wait is. */
  lemma DeficitWaitIsExact(c: Config, b: Level, a: Attempt, later: real)
    requires Valid(c, b) && c.rate > 0.0 && Needed(c, a) <= c.capacity
    requires !Grants(c, b, a) && b.last <= a.now <= later
    ensures var r := Step(c, b, a);
            Grants(c, r, a.(now := later)) <==> later - a.now >= (Needed(c, a) - r.tokens) / c.rate
  {
    var r := Step(c, b, a);
    assert r == Refill(c, b, a.now) && r.last == a.now;
    RefillCredits(c, b, a.now, a.now);
    QuotientAtMostIff(Needed(c, a) - r.tokens, c.rate, later - a.now);
    var again := a.(now := later);
    assert Needed(c, again) == Needed(c, a);
    RefillGrantsIff(c, r, again, (later - a.now) * c.rate);
  }

  lemma QuotientAtMostIff(d: real, rate: real, w: real)
    requires rate > 0.0
    ensures w >= d / rate <==> w * rate >= d
  {
    var q := d / rate;
    assert q * rate == d;
    assert (w - q) * rate == w * rate - d;
    assert w - q >= 0.0 <==> (w - q) * rate >= 0.0;
  }

  lemma RefillGrantsIff(c: Config, r: Level, a: Attempt, refill: real)
    requires Valid(c, r) && Needed(c, a) <= c.capacity
    requires r.last <= a.now && refill == (a.now - r.last) * c.rate
    ensures Grants(c, r, a) <==> r.tokens + refill >= Needed(c, a)
  {
    if r.last < a.now {
      RefillIs(c, r, a.now, refill);
    } else {
      NoTime(a.now - r.last, c.rate, refill);
      assert Refill(c, r, a.now) == r;
    }
  }

  lemma NoTime(span: real, rate: real, refill: real)
    requires span == 0.0 && refill == span * rate
    ensures refill == 0.0
  {}

  /** A low-priority attempt is granted exactly when it leaves the reserve in the bucket, any other
      exactly when it leaves nothing owed; and a granted one leaves just that. */
  lemma GrantLeaves(c: Config, b: Level, a: Attempt)
    ensures var left := Refill(c, b, a.now).tokens - a.n;
            && (Grants(c, b, a) <==> left >= if a.low then c.reserve else 0.0)
            && (Grants(c, b, a) ==> Step(c, b, a).tokens == left)
  {}

  /** Without a burst of its own a bucket holds one second's refill, and always a whole request. */
  lemma DefaultBurst(rate: real, reserve: real)
    ensures var c := MakeConfig(rate, None, reserve);
            c.capacity >= 1.0 && c.capacity >= rate && (c.capacity == 1.0 || c.capacity == rate) && c.rate == rate && c.reserve == reserve
  {}

  datatype Outcome = Granted | TimedOut | Waiting

  /** One turn of the blocking loop: the reading under the lock, the reading against the
      deadline, and what other threads did with the bucket while this one slept. */
  datatype Turn = Turn(refillAt: real, checkAt: real, others: seq<Attempt>)

  datatype Acquired = Acquired(outcome: Outcome, level: Level, trace: seq<Attempt>)

  function AcquireRun(c: Config, b: Level, n: real, low: bool, deadline: Option<real>, turns: seq<Turn>): Acquired
    decreases |turns|
  {
    if turns == [] then Acquired(Waiting, b, [])
    else
      var a := Attempt(turns[0].refillAt, n, low);
      var b1 := Step(c, b, a);
      if Grants(c, b, a) then Acquired(Granted, b1, [a])
      else if deadline.Some? && deadline.value - turns[0].checkAt <= 0.0 then Acquired(TimedOut, b1, [a])
      else
        var rest := AcquireRun(c, Run(c, b1, turns[0].others), n, low, deadline, turns[1..]);
        rest.(trace := [a] + turns[0].others + rest.trace)
  }

  lemma {:induction false} RunAppend(c: Config, b: Level, xs: seq<Attempt>, ys: seq<Attempt>)
    ensures Run(c, b, xs + ys) == Run(c, Run(c, b, xs), ys)
    decreases |xs|
  {
    if xs == [] {
      assert xs + ys == ys;
    } else {
      assert (xs + ys)[1..] == xs[1..] + ys;
      RunAppend(c, Step(c, b, xs[0]), xs[1..], ys);
    }
  }

  /** A blocking acquire is nothing but attempts interleaved with everybody else's, so every
      bound on runs of attempts holds with blocked threads in the mix; it gives up only after
      its deadline. */
  lemma {:induction false} AcquireIsARun(c: Config, b: Level, n: real, low: bool, deadline: Option<real>, turns: seq<Turn>)
    ensures var r := AcquireRun(c, b, n, low, deadline, turns); r.level == Run(c, b, r.trace)
    ensures var r := AcquireRun(c, b, n, low, deadline, turns);
            r.outcome.TimedOut? ==> deadline.Some? && exists t :: t in turns && deadline.value <= t.checkAt
    decreases |turns|
  {
    if turns != [] {
      var a := Attempt(turns[0].refillAt, n, low);
      var b1 := Step(c, b, a);
      assert Run(c, b, [a]) == b1;
      if Grants(c, b, a) {
      } else if deadline.Some? && deadline.value - turns[0].checkAt <= 0.0 {
        assert turns[0] in turns;
      } else {
        var b2 := Run(c, b1, turns[0].others);
        AcquireIsARun(c, b2, n, low, deadline, turns[1..]);
        var rest := AcquireRun(c, b2, n, low, deadline, turns[1..]);
        RunAppend(c, b, [a] + turns[0].others, rest.trace);
        RunAppend(c, b, [a], turns[0].others);
      }
    }
  }

  class TokenBucket {
    const config: Config
    var tokens: real
    var last: real
    var granted: real
    var grantedLow: real

    constructor (rate: real, burst: Option<real>, reserve: real, now: real)
      ensures config == MakeConfig(rate, burst, reserve)
      ensures State() == Full(config, now)
    {
      var c := MakeConfig(rate, burst, reserve);
      config, tokens, last, granted, grantedLow := c, c.capacity, now, 0.0, 0.0;
    }

    function State(): Level
      reads this
    {
      Level(tokens, last, granted, grantedLow)
    }

    method RefillLocked(now: real)
      modifies this`tokens, this`last
      ensures State() == Refill(config, old(State()), now)
    {
      var elapsed := now - last;
      if elapsed > 0.0 {
        tokens := Min(config.capacity, tokens + elapsed * config.rate);
        last := now;
      }
    }

    method TryAcquire(n: real, low: bool, now: real) returns (ok: bool)
      modifies this
      ensures ok == Grants(config, old(State()), Attempt(now, n, low))
      ensures State() == Step(config, old(State()), Attempt(now, n, low))
    {
      var floor := if low then config.reserve else 0.0;
      RefillLocked(now);
      ok := tokens >= n + floor;
      if ok {
        tokens := tokens - n;
        granted := granted + n;
        if low { grantedLow := grantedLow + n; }
      }
    }

    /** The steps other threads take while this one sleeps. */
    method Interfere(others: seq<Attempt>)
      modifies this
      ensures State() == Run(config, old(State()), others)
    {
      var i := 0;
      while i < |others|
        invariant 0 <= i <= |others|
        invariant Run(config, State(), others[i..]) == Run(config, old(State()), others)
      {
        assert others[i..][1..] == others[i + 1..];
        var _ := TryAcquire(others[i].n, others[i].low, others[i].now);
        i := i + 1;
      }
    }

    method Acquire(n: real, timeout: Option<real>, low: bool, start: real, turns: seq<Turn>) returns (outcome: Outcome)
      modifies this
      ensures var deadline := if timeout.Some? then Some(start + timeout.value) else None;
              var r := AcquireRun(config, old(State()), n, low, deadline, turns);
              outcome == r.outcome && State() == r.level
    {
      var deadline := if timeout.Some? then Some(start + timeout.value) else None;
      ghost var goal := AcquireRun(config, State(), n, low, deadline, turns);
      var i := 0;
      while i < |turns|
        invariant 0 <= i <= |turns|
        invariant var r := AcquireRun(config, State(), n, low, deadline, turns[i..]);
                  r.outcome == goal.outcome && r.level == goal.level
      {
        assert turns[i..][0] == turns[i] && turns[i..][1..] == turns[i + 1..];
        var ok := TryAcquire(n, low, turns[i].refillAt);
        if ok { return Granted; }
        if deadline.Some? {
          var remaining := deadline.value - turns[i].checkAt;
          if remaining <= 0.0 { return TimedOut; }
        }
        Interfere(turns[i].others);
        i := i + 1;
      }
      return Waiting;
    }
  }

  // ---- one bucket per endpoint, and the host ----

  const HOST := Config(900.0, 1500.0, 0.0)

  predicate HasAt(p: string, s: string, i: int) {
    0 <= i <= |p| - |s| && p[i..i + |s|] == s
  }

  predicate Has(p: string, s: string) {
    exists i :: 0 <= i <= |p| && HasAt(p, s, i)
  }

  /** The endpoint classes; the source names them by strings. */
  datatype Key =
    | CancelAll | OrdersBatch | OrderWrite | DataTrades | PricesHistory | BooksBatch | Book
    | MidpointsBatch | Midpoint | PricesBatch | Price | Sampling | Markets | ClobMisc

  function Classify(p: string, verb: string): (Key, real) {
    var write := verb == "POST" || verb == "DELETE";
    if write && Has(p, "/cancel-all") then (CancelAll, 25.0)
    else if write && Has(p, "/orders") then (OrdersBatch, 200.0)
    else if write && Has(p, "/order") then (OrderWrite, 200.0)
    else if Has(p, "/data/trades") then (DataTrades, 50.0)
    else if Has(p, "/prices-history") then (PricesHistory, 100.0)
    else if Has(p, "/books") then (BooksBatch, 50.0)
    else if Has(p, "/book") then (Book, 150.0)
    else if Has(p, "/midpoints") then (MidpointsBatch, 50.0)
    else if Has(p, "/midpoint") then (Midpoint, 150.0)
    else if Has(p, "/prices") then (PricesBatch, 50.0)
    else if Has(p, "/price") then (Price, 150.0)
    else if Has(p, "/sampling") then (Sampling, 50.0)
    else if Has(p, "/markets") then (Markets, 30.0)
    else (ClobMisc, 90.0)
  }

  function RateOf(key: Key): real {
    match key
    case CancelAll => 25.0
    case OrdersBatch | OrderWrite => 200.0
    case PricesHistory => 100.0
    case Book | Midpoint | Price => 150.0
    case Markets => 30.0
    case ClobMisc => 90.0
    case DataTrades | BooksBatch | MidpointsBatch | PricesBatch | Sampling => 50.0
  }

  /** A bucket is made with the rate of the first request that needs it; every later request for
      the same key carries that same rate. */
  lemma ClassifyRate(p: string, verb: string, p': string, verb': string)
    ensures Classify(p, verb).0 == Classify(p', verb').0 ==> Classify(p, verb).1 == Classify(p', verb').1
    ensures Classify(p, verb).1 == RateOf(Classify(p, verb).0)
  {
    KeyRate(p, verb);
    KeyRate(p', verb');
  }

  lemma KeyRate(p: string, verb: string)
    ensures Classify(p, verb).1 == RateOf(Classify(p, verb).0)
  {}

  /** A row of the venue's limits: requests that change something, or all; a part of the path; the
      bucket and what it refills a second. */
  datatype Route = Route(write: bool, part: string, key: Key, rate: real)

  const ROUTES: seq<Route> := [
    Route(true, "/cancel-all", CancelAll, 25.0), Route(true, "/orders", OrdersBatch, 200.0),
    Route(true, "/order", OrderWrite, 200.0), Route(false, "/data/trades", DataTrades, 50.0),
    Route(false, "/prices-history", PricesHistory, 100.0), Route(false, "/books", BooksBatch, 50.0),
    Route(false, "/book", Book, 150.0), Route(false, "/midpoints", MidpointsBatch, 50.0),
    Route(false, "/midpoint", Midpoint, 150.0), Route(false, "/prices", PricesBatch, 50.0),
    Route(false, "/price", Price, 150.0), Route(false, "/sampling", Sampling, 50.0),
    Route(false, "/markets", Markets, 30.0), Route(false, "", ClobMisc, 90.0)]

  predicate Routes(r: Route, p: string, verb: string) {
    (r.write ==> verb in {"POST", "DELETE"}) && Has(p, r.part)
  }

  ghost predicate RoutedAt(p: string, verb: string, k: int)
    requires 0 <= k < |ROUTES|
  {
    Routes(ROUTES[k], p, verb) && forall j :: 0 <= j < k ==> !Routes(ROUTES[j], p, verb)
  }

  /** Every request draws from the bucket of the first route it matches; the last matches all. */
  lemma ClassifyFirst(p: string, verb: string)
    ensures exists k :: 0 <= k < |ROUTES| && RoutedAt(p, verb, k) && Classify(p, verb) == (ROUTES[k].key, ROUTES[k].rate)
  {
    assert HasAt(p, "", 0) && Has(p, "");
    var k := FirstRoute(p, verb, 0);
    RouteIs(p, verb, k);
  }

  lemma {:induction false} FirstRoute(p: string, verb: string, n: nat) returns (k: nat)
    requires n < |ROUTES| && Has(p, "") && forall j :: 0 <= j < n ==> !Routes(ROUTES[j], p, verb)
    ensures k < |ROUTES| && RoutedAt(p, verb, k)
    decreases |ROUTES| - n
  {
    if Routes(ROUTES[n], p, verb) {
      k := n;
    } else {
      assert n < 13;
      k := FirstRoute(p, verb, n + 1);
    }
  }

  lemma RouteIs(p: string, verb: string, k: nat)
    requires k < |ROUTES| && RoutedAt(p, verb, k)
    ensures Classify(p, verb) == (ROUTES[k].key, ROUTES[k].rate)
  {
    assert forall j :: 0 <= j < k ==> !Routes(ROUTES[j], p, verb);
    assert k > 0 ==> !Routes(ROUTES[0], p, verb);
    assert k > 1 ==> !Routes(ROUTES[1], p, verb);
    assert k > 2 ==> !Routes(ROUTES[2], p, verb);
    assert k > 3 ==> !Routes(ROUTES[3], p, verb);
    assert k > 4 ==> !Routes(ROUTES[4], p, verb);
    assert k > 5 ==> !Routes(ROUTES[5], p, verb);
    assert k > 6 ==> !Routes(ROUTES[6], p, verb);
    assert k > 7 ==> !Routes(ROUTES[7], p, verb);
    assert k > 8 ==> !Routes(ROUTES[8], p, verb);
    assert k > 9 ==> !Routes(ROUTES[9], p, verb);
    assert k > 10 ==> !Routes(ROUTES[10], p, verb);
    assert k > 11 ==> !Routes(ROUTES[11], p, verb);
    assert k > 12 ==> !Routes(ROUTES[12], p, verb);
  }

  function EndpointConfig(rate: real): Config {
    MakeConfig(rate, Some(Max(rate, rate * 1.2)), 0.0)
  }

  datatype Limiter = Limiter(host: Level, buckets: map<Key, Level>)

  /** A request first draws from its endpoint's bucket, then from the host's; each draw is one
      attempt, and draws of different requests interleave freely. */
  datatype Draw = Endpoint(key: Key, now: real) | Host(now: real)

  function LimiterStep(l: Limiter, d: Draw): Limiter {
    match d
    case Host(now) => l.(host := Step(HOST, l.host, Attempt(now, 1.0, false)))
    case Endpoint(key, now) =>
      var c := EndpointConfig(RateOf(key));
      var b := if key in l.buckets then l.buckets[key] else Full(c, now);
      l.(buckets := l.buckets[key := Step(c, b, Attempt(now, 1.0, false))])
  }

  function LimiterRun(l: Limiter, draws: seq<Draw>): Limiter
    decreases |draws|
  {
    if draws == [] then l else LimiterRun(LimiterStep(l, draws[0]), draws[1..])
  }

  function HostDraws(draws: seq<Draw>): seq<Attempt> {
    if draws == [] then []
    else (if draws[0].Host? then [Attempt(draws[0].now, 1.0, false)] else []) + HostDraws(draws[1..])
  }

  function KeyDraws(draws: seq<Draw>, key: Key): seq<Attempt> {
    if draws == [] then []
    else (if draws[0].Endpoint? && draws[0].key == key
          then [Attempt(draws[0].now, 1.0, false)] else []) + KeyDraws(draws[1..], key)
  }

  ghost predicate LimiterValid(l: Limiter) {
    Valid(HOST, l.host) && forall k :: k in l.buckets ==> Valid(EndpointConfig(RateOf(k)), l.buckets[k])
  }

  ghost predicate DrawsIn(draws: seq<Draw>, from: real, upto: real) {
    forall d :: d in draws ==> from <= d.now <= upto
  }

  /** Requests granted so far on an endpoint; 0 for one never used. */
  function GrantedFor(l: Limiter, key: Key): real {
    if key in l.buckets then l.buckets[key].granted else 0.0
  }

  lemma {:induction false} HostProjection(l: Limiter, draws: seq<Draw>, from: real, upto: real)
    requires DrawsIn(draws, from, upto)
    ensures LimiterRun(l, draws).host == Run(HOST, l.host, HostDraws(draws))
    ensures InWindow(HostDraws(draws), from, upto)
    decreases |draws|
  {
    if draws != [] {
      HostProjection(LimiterStep(l, draws[0]), draws[1..], from, upto);
      if draws[0].Host? {
        assert HostDraws(draws)[1..] == HostDraws(draws[1..]);
      } else {
        assert HostDraws(draws) == HostDraws(draws[1..]);
      }
    }
  }

  lemma {:induction false} KeyProjection(l: Limiter, draws: seq<Draw>, key: Key, from: real, upto: real)
    requires DrawsIn(draws, from, upto) && key in l.buckets
    ensures key in LimiterRun(l, draws).buckets
    ensures LimiterRun(l, draws).buckets[key] == Run(EndpointConfig(RateOf(key)), l.buckets[key], KeyDraws(draws, key))
    ensures InWindow(KeyDraws(draws, key), from, upto)
    decreases |draws|
  {
    if draws != [] {
      var next := LimiterStep(l, draws[0]);
      KeyProjection(next, draws[1..], key, from, upto);
      if draws[0].Endpoint? && draws[0].key == key {
        assert KeyDraws(draws, key)[1..] == KeyDraws(draws[1..], key);
      } else {
        assert KeyDraws(draws, key) == KeyDraws(draws[1..], key);
        assert next.buckets[key] == l.buckets[key];
      }
    }
  }

  /** The host bound: any window of length T grants at most 1500 + 900 T requests. */
  lemma HostWindowBound(l: Limiter, draws: seq<Draw>, from: real, upto: real)
    requires LimiterValid(l) && from <= upto && DrawsIn(draws, from, upto)
    ensures LimiterRun(l, draws).host.granted - l.host.granted <= 1500.0 + 900.0 * (upto - from)
  {
    HostProjection(l, draws, from, upto);
    WindowBound(HOST, l.host, HostDraws(draws), from, upto);
  }

  /** The endpoint bound, also when the bucket first comes into being inside the window. */
  lemma {:induction false} EndpointWindowBound(l: Limiter, draws: seq<Draw>, key: Key, from: real, upto: real)
    requires LimiterValid(l) && from <= upto && DrawsIn(draws, from, upto)
    ensures GrantedFor(LimiterRun(l, draws), key) - GrantedFor(l, key) <= EndpointCeiling(key, from, upto)
    decreases |draws|
  {
    if key in l.buckets {
      EndpointHere(l, draws, key, from, upto);
    } else if draws == [] {
      CeilingNonNegative(key, from, upto);
    } else if draws[0].Endpoint? && draws[0].key == key {
      var l' := l.(buckets := l.buckets[key := Full(EndpointConfig(RateOf(key)), draws[0].now)]);
      assert LimiterStep(l', draws[0]) == LimiterStep(l, draws[0]);
      EndpointHere(l', draws, key, from, upto);
    } else {
      LimiterStepValid(l, draws[0]);
      EndpointWindowBound(LimiterStep(l, draws[0]), draws[1..], key, from, upto);
    }
  }

  /** A burst of a fifth over one second's allowance, then the endpoint's rate. */
  function EndpointCeiling(key: Key, from: real, upto: real): real {
    1.2 * RateOf(key) + RateOf(key) * (upto - from)
  }

  lemma CeilingNonNegative(key: Key, from: real, upto: real)
    requires from <= upto
    ensures 0.0 <= EndpointCeiling(key, from, upto)
  {
    assert 0.0 <= RateOf(key) * (upto - from);
  }

  lemma EndpointHere(l: Limiter, draws: seq<Draw>, key: Key, from: real, upto: real)
    requires key in l.buckets && Valid(EndpointConfig(RateOf(key)), l.buckets[key])
    requires from <= upto && DrawsIn(draws, from, upto)
    ensures GrantedFor(LimiterRun(l, draws), key) - GrantedFor(l, key) <= EndpointCeiling(key, from, upto)
  {
    var c := EndpointConfig(RateOf(key));
    assert Valid(c, l.buckets[key]);
    KeyProjection(l, draws, key, from, upto);
    WindowBound(c, l.buckets[key], KeyDraws(draws, key), from, upto);
    EndpointCovers(GrantedFor(LimiterRun(l, draws), key) - GrantedFor(l, key), c, key, from, upto);
  }

  lemma EndpointCovers(gained: real, c: Config, key: Key, from: real, upto: real)
    requires c == EndpointConfig(RateOf(key)) && gained <= c.capacity + c.rate * (upto - from)
    ensures gained <= EndpointCeiling(key, from, upto)
  {
    EndpointShape(key);
  }

  lemma EndpointShape(key: Key)
    ensures EndpointConfig(RateOf(key)) == Config(RateOf(key), 1.2 * RateOf(key), 0.0)
  {}

  lemma LimiterStepValid(l: Limiter, d: Draw)
    requires LimiterValid(l)
    ensures LimiterValid(LimiterStep(l, d))
  {
    match d
    case Host(now) =>
      StepKeeps(HOST, l.host, Attempt(now, 1.0, false), now);
    case Endpoint(key, now) =>
      var c := EndpointConfig(RateOf(key));
      assert c.Ok();
      var b := if key in l.buckets then l.buckets[key] else Full(c, now);
      StepKeeps(c, b, Attempt(now, 1.0, false), now);
  }

  function EnsureBucket(l: Limiter, key: Key, now: real): Limiter {
    if key in l.buckets then l
    else l.(buckets := l.buckets[key := Full(EndpointConfig(RateOf(key)), now)])
  }

  lemma EnsureThenDraw(l: Limiter, key: Key, now: real)
    ensures LimiterStep(EnsureBucket(l, key, now), Endpoint(key, now)) == LimiterStep(l, Endpoint(key, now))
  {
    var c := EndpointConfig(RateOf(key));
    var b := if key in l.buckets then l.buckets[key] else Full(c, now);
    var b' := Step(c, b, Attempt(now, 1.0, false));
    assert EnsureBucket(l, key, now).buckets[key := b'] == l.buckets[key := b'];
  }

  class RateLimiter {
    const host: TokenBucket
    var buckets: map<Key, TokenBucket>

    ghost predicate Inv()
      reads this
    {
      && host.config == HOST
      && (forall k :: k in buckets ==> buckets[k] != host && buckets[k].config == EndpointConfig(RateOf(k)))
      && (forall j, k :: j in buckets && k in buckets && buckets[j] == buckets[k] ==> j == k)
    }

    ghost function State(): Limiter
      reads this, host, buckets.Values
    {
      Limiter(host.State(), map k | k in buckets :: buckets[k].State())
    }

    constructor (now: real)
      ensures Inv() && fresh(host)
      ensures State() == Limiter(Full(HOST, now), map[])
    {
      host := new TokenBucket(900.0, Some(1500.0), 0.0, now);
      buckets := map[];
    }

    /** Looks a bucket up, making it on first use; buckets are never replaced. */
    method BucketFor(key: Key, rate: real, now: real) returns (b: TokenBucket)
      requires Inv() && rate == RateOf(key)
      modifies this`buckets
      ensures Inv()
      ensures key in buckets && b == buckets[key]
      ensures b in old(buckets).Values || fresh(b)
      ensures State() == EnsureBucket(old(State()), key, now)
    {
      if key !in buckets { MakeBucket(key, rate, now); }
      b := buckets[key];
    }

    method MakeBucket(key: Key, rate: real, now: real)
      requires Inv() && rate == RateOf(key) && key !in buckets
      modifies this`buckets
      ensures Inv() && key in buckets && fresh(buckets[key])
      ensures State() == EnsureBucket(old(State()), key, now)
    {
      var made := new TokenBucket(rate, Some(Max(rate, rate * 1.2)), 0.0, now);
      assert made !in buckets.Values && made != host;
      buckets := buckets[key := made];
      assert State().buckets == old(State()).buckets[key := made.State()];
    }

    method DrawFrom(b: TokenBucket, key: Key, now: real) returns (ok: bool)
      requires Inv() && key in buckets && b == buckets[key]
      modifies b
      ensures Inv()
      ensures State() == LimiterStep(old(State()), Endpoint(key, now))
    {
      ok := b.TryAcquire(1.0, false, now);
      assert State().buckets == old(State()).buckets[key := b.State()];
    }

    method DrawEndpoint(path: string, verb: string, now: real) returns (ok: bool)
      requires Inv()
      modifies this`buckets, buckets.Values
      ensures Inv()
      ensures State() == LimiterStep(old(State()), Endpoint(Classify(path, verb).0, now))
    {
      KeyRate(path, verb);
      var (key, rate) := Classify(path, verb);
      EnsureThenDraw(State(), key, now);
      var b := BucketFor(key, rate, now);
      ok := DrawFrom(b, key, now);
    }

    method DrawHost(now: real) returns (ok: bool)
      requires Inv()
      modifies host
      ensures Inv()
      ensures State() == LimiterStep(old(State()), Host(now))
    {
      ok := host.TryAcquire(1.0, false, now);
    }
  }

  /** What a full bucket can grant in a window. */
  ghost predicate Grantable(c: Config, from: real, upto: real, most: real) {
    exists attempts :: InWindow(attempts, from, upto) && Run(c, Full(c, from), attempts).granted == most
  }

  lemma FullyGrantable(c: Config, from: real, upto: real, most: real)
    requires c.Ok() && c.capacity > 0.0 && from <= upto && most == c.capacity + c.rate * (upto - from)
    ensures Grantable(c, from, upto, most)
  {
    var attempts := TightAttempts(c, from, upto);
  }

  /** The bounds on the host and on an endpoint are what their full buckets really grant in a window,
      drained as they refill. */
  lemma CeilingsReached(key: Key, from: real, upto: real)
    requires from <= upto
    ensures Grantable(HOST, from, upto, 1500.0 + 900.0 * (upto - from))
    ensures Grantable(EndpointConfig(RateOf(key)), from, upto, EndpointCeiling(key, from, upto))
  {
    EndpointShape(key);
    FullyGrantable(HOST, from, upto, 1500.0 + 900.0 * (upto - from));
    FullyGrantable(EndpointConfig(RateOf(key)), from, upto, EndpointCeiling(key, from, upto));
  }
}
