// The seconds and rewards credited to one quote over a run of polls, reconciliations and
// cancellations: against the time that has passed, and exactly.
module QuoteSeconds {
  import opened Common
  import opened Orderbook
  import opened Quotes
  import opened QuoteLaws
  import opened QuoteRuns

  function EventSeconds(q: MakerQuote, e: Event): real {
    if e.Polled? && q.active then EventStep(q, e).seconds else 0.0
  }

  /** A poll that the quote is marked at: a readable one, or one that finds the pool gone. */
  predicate Marks(q: MakerQuote, e: Event) {
    q.active && e.Polled? && Applied(EventStep(q, e))
  }

  function Seconds(q: MakerQuote, events: seq<Event>): real
    decreases |events|
  {
    if events == [] then 0.0 else EventSeconds(q, events[0]) + Seconds(After(q, events[0]), events[1..])
  }

  lemma {:induction false} NoneAfterwards(q: MakerQuote, events: seq<Event>)
    requires !q.active
    ensures Seconds(q, events) == 0.0
    decreases |events|
  {
    if events != [] { NoneAfterwards(q, events[1..]); }
  }

  function Polls(events: seq<Event>): nat
    decreases |events|
  {
    if events == [] then 0 else (if events[0].Polled? then 1 else 0) + Polls(events[1..])
  }

  /** A clock that never runs backwards, from t0 to the end; and how much the stored time may
      fall behind the reading it was rounded from. */
  ghost predicate Monotone(events: seq<Event>, t0: real, end: real)
    decreases |events|
  {
    if events == [] then t0 <= end
    else if events[0].Polled? then t0 <= events[0].i.now && Monotone(events[1..], events[0].i.now, end)
    else Monotone(events[1..], t0, end)
  }

  ghost predicate StoredWithin(events: seq<Event>, slack: real) {
    forall e :: e in events && e.Polled? ==> RoundMicro(e.i.now) >= e.i.now - slack
  }

  ghost predicate PoolsPayAtMost(q: MakerQuote, events: seq<Event>, daily: real) {
    && daily >= 0.0 && q.terms.size >= 0.0
    && forall e :: e in events && e.Polled? ==> PaysAtMost(e.i.read, daily)
  }

  predicate PaysAtMost(r: Read, daily: real) {
    r.qmin >= 0.0 && (r.pool.Some? ==> r.pool.value.daily <= daily)
  }

  lemma StepTimes(live: bool, cc: real, q: MakerQuote, i: Input)
    requires q.active
    ensures var s := StepOf(live, cc, q, i);
            && 0.0 <= s.seconds <= SecondsSince(q, i.now) && (live ==> s.seconds <= MAX_ACCRUAL_SECONDS)
            && (s.q.active ==> s.q.lastAccrued == if Applied(s) then RoundMicro(i.now) else q.lastAccrued)
            && (!Applied(s) ==> s.seconds == 0.0)
  {}

  /** What a pool that pays `daily` a day pays in all for this many seconds. */
  function Payment(daily: real, seconds: real): real {
    daily * (seconds / 86400.0)
  }

  lemma PaymentAdds(daily: real, a: real, b: real, both: real)
    requires both == a + b
    ensures Payment(daily, both) == Payment(daily, a) + Payment(daily, b)
  {
    var x, y := a / 86400.0, b / 86400.0;
    assert both / 86400.0 == x + y;
    assert daily * (x + y) == daily * x + daily * y;
  }

  lemma PaymentMono(daily: real, a: real, b: real)
    requires 0.0 <= daily && a <= b
    ensures Payment(daily, a) <= Payment(daily, b)
  {
    MulMono(daily, a / 86400.0, b / 86400.0);
  }

  lemma StepPays(live: bool, cc: real, q: MakerQuote, i: Input, daily: real)
    requires q.active && q.terms.size >= 0.0 && daily >= 0.0 && PaysAtMost(i.read, daily)
    ensures var s := StepOf(live, cc, q, i); q.accrued <= s.q.accrued <= q.accrued + Payment(daily, s.seconds)
  {
    var s := StepOf(live, cc, q, i);
    if Readable(i.read) {
      ShareInUnit(q.terms.size, q.terms.halfSpreadC, q.terms.maxSpreadC, i.read.qmin);
      var share := RewardShare(q.terms.size, q.terms.halfSpreadC, q.terms.maxSpreadC, i.read.qmin);
      AccruedIs(live, cc, q, i);
      RewardBounded(share, i.read.pool.value.daily, s.seconds, daily);
    } else {
      NothingAccrued(live, cc, q, i);
      assert Payment(daily, 0.0) == 0.0;
    }
  }

  lemma NothingAccrued(live: bool, cc: real, q: MakerQuote, i: Input)
    requires !Readable(i.read)
    ensures var s := StepOf(live, cc, q, i); s.seconds == 0.0 && s.q.accrued == q.accrued
  {}

  lemma AccruedIs(live: bool, cc: real, q: MakerQuote, i: Input)
    requires Readable(i.read)
    ensures var s := StepOf(live, cc, q, i); s.q.accrued == q.accrued + RewardFor(q, i.read, s.seconds) && s.seconds >= 0.0
  {}

  /** n times a slack, one at a time. */
  function Total(slack: real, n: nat): real {
    if n == 0 then 0.0 else slack + Total(slack, n - 1)
  }

  lemma {:induction false} TotalIs(slack: real, n: nat)
    ensures Total(slack, n) == slack * n as real
    decreases n
  {
    if n > 0 {
      TotalIs(slack, n - 1);
      assert slack * n as real == slack + slack * (n - 1) as real;
    }
  }

  lemma {:induction false} TotalNonNegative(slack: real, n: nat)
    requires slack >= 0.0
    ensures Total(slack, n) >= 0.0
    decreases n
  {
    if n > 0 { TotalNonNegative(slack, n - 1); }
  }

  /** No second is rewarded twice: with a clock that does not run backwards, the seconds credited
      over any run, skipped polls included, are at most the elapsed time, and the slack of the
      stored time for each poll. */
  lemma {:induction false} SecondsWithinElapsed(q: MakerQuote, events: seq<Event>, t0: real, end: real, slack: real)
    requires slack >= 0.0 && (q.active ==> q.lastAccrued >= t0 - slack)
    requires Monotone(events, t0, end) && StoredWithin(events, slack)
    ensures 0.0 <= Seconds(q, events) <= end - t0 + Total(slack, Polls(events))
    decreases |events|
  {
    MonotoneSpan(events, t0, end);
    TotalNonNegative(slack, Polls(events));
    if !q.active {
      NoneAfterwards(q, events);
    } else if events != [] {
      var e, q' := events[0], After(q, events[0]);
      assert e in events;
      if !e.Polled? {
        SecondsWithinElapsed(q', events[1..], t0, end, slack);
      } else {
        StepTimes(e.live, e.cc, q, e.i);
        if !Marks(q, e) {
          MonotoneFrom(events, t0, end);
          SecondsWithinElapsed(q', events[1..], t0, end, slack);
          TotalNonNegative(slack, Polls(events[1..]));
        } else {
          SecondsWithinElapsed(q', events[1..], e.i.now, end, slack);
        }
      }
    }
  }

  /** And a live poll never credits more than ten minutes. */
  lemma {:induction false} TenMinutesPerPoll(q: MakerQuote, events: seq<Event>)
    requires forall e :: e in events && e.Polled? ==> e.live
    ensures Seconds(q, events) <= 600.0 * Polls(events) as real
    decreases |events|
  {
    if events != [] {
      var e := events[0];
      assert e in events;
      if e.Polled? && q.active { StepTimes(e.live, e.cc, q, e.i); }
      TenMinutesPerPoll(After(q, e), events[1..]);
    }
  }

  lemma {:induction false} MonotoneSpan(events: seq<Event>, t0: real, end: real)
    requires Monotone(events, t0, end)
    ensures t0 <= end
    decreases |events|
  {
    if events != [] { MonotoneSpan(events[1..], if events[0].Polled? then events[0].i.now else t0, end); }
  }

  lemma MonotoneFrom(events: seq<Event>, t0: real, end: real)
    requires events != [] && Monotone(events, t0, end)
    ensures Monotone(events[1..], t0, end)
  {
    Earlier(events[1..], if events[0].Polled? then events[0].i.now else t0, t0, end);
  }

  lemma {:induction false} Earlier(events: seq<Event>, t: real, t0: real, end: real)
    requires t0 <= t && Monotone(events, t, end)
    ensures Monotone(events, t0, end)
    decreases |events|
  {
    if events != [] && !events[0].Polled? { Earlier(events[1..], t, t0, end); }
  }

  /** So the rewards of a run never exceed what the whole pool pays for the time credited. */
  lemma {:induction false} RewardsWithinPool(q: MakerQuote, events: seq<Event>, daily: real)
    requires PoolsPayAtMost(q, events, daily)
    ensures q.accrued <= QuoteRun(q, events).accrued <= q.accrued + Payment(daily, Seconds(q, events))
    decreases |events|
  {
    if events == [] {
      assert Payment(daily, 0.0) == 0.0;
    } else {
      var e, rest := events[0], events[1..];
      assert e in events;
      EventPays(q, e, daily);
      AfterKeeps(q, e);
      RewardsWithinPool(After(q, e), rest, daily);
      PaymentAdds(daily, EventSeconds(q, e), Seconds(After(q, e), rest), Seconds(q, events));
    }
  }

  lemma EventPays(q: MakerQuote, e: Event, daily: real)
    requires daily >= 0.0 && q.terms.size >= 0.0 && (e.Polled? ==> PaysAtMost(e.i.read, daily))
    ensures q.accrued <= After(q, e).accrued <= q.accrued + Payment(daily, EventSeconds(q, e))
  {
    assert Payment(daily, 0.0) == 0.0;
    if e.Polled? && q.active { StepPays(e.live, e.cc, q, e.i, daily); }
  }

  /** Readings in whole microseconds are stored as they are. */
  predicate WholeMicros(t: real) {
    (t * 1000000.0).Floor as real == t * 1000000.0
  }

  lemma StoredNearby(t: real)
    ensures t - 0.0000005 < RoundMicro(t) <= t + 0.0000005
  {
    FloorNearby(t * 1000000.0 + 0.5);
  }

  lemma FloorNearby(x: real)
    ensures x - 1.0 < x.Floor as real <= x
  {}

  lemma StoredExactly(t: real)
    requires WholeMicros(t)
    ensures RoundMicro(t) == t
  {
    var k := (t * 1000000.0).Floor;
    assert (k as real + 0.5).Floor == k;
  }

  /** Both together, for a quote placed at t0 and readings that are never rounded down when they are
      stored, whole microseconds among them: never more seconds than have passed, never more reward
      than the pool pays for them. */
  lemma NoSecondTwice(q: MakerQuote, events: seq<Event>, t0: real, end: real, daily: real)
    requires q.lastAccrued == RoundMicro(t0) && Monotone(events, t0, end) && PoolsPayAtMost(q, events, daily)
    requires RoundMicro(t0) >= t0 && StoredWithin(events, 0.0)
    ensures Seconds(q, events) <= end - t0
    ensures QuoteRun(q, events).accrued <= q.accrued + Payment(daily, end - t0)
  {
    WithinElapsed(q, events, t0, end);
    RewardsWithinPool(q, events, daily);
    PaymentMono(daily, Seconds(q, events), end - t0);
  }

  lemma WithinElapsed(q: MakerQuote, events: seq<Event>, t0: real, end: real)
    requires q.lastAccrued >= t0 && Monotone(events, t0, end) && StoredWithin(events, 0.0)
    ensures Seconds(q, events) <= end - t0
  {
    SecondsWithinElapsed(q, events, t0, end, 0.0);
    NoSlack(Polls(events));
  }

  lemma {:induction false} NoSlack(n: nat)
    ensures Total(0.0, n) == 0.0
    decreases n
  {
    if n > 0 { NoSlack(n - 1); }
  }

  /** Any other clock may be rewarded for half a microsecond per poll twice over, and no more. */
  lemma AtMostHalfAMicroPerPoll(q: MakerQuote, events: seq<Event>, t0: real, end: real)
    requires q.lastAccrued == RoundMicro(t0) && Monotone(events, t0, end)
    ensures 0.0 <= Seconds(q, events) <= end - t0 + 0.0000005 * Polls(events) as real
  {
    StoredNearby(t0);
    forall e | e in events && e.Polled? ensures RoundMicro(e.i.now) >= e.i.now - 0.0000005 { StoredNearby(e.i.now); }
    SecondsWithinElapsed(q, events, t0, end, 0.0000005);
    TotalIs(0.0000005, Polls(events));
  }

  // ---- exactly how much is rewarded twice, and how much not at all ----

  /** The reading of the last such poll, or the start. */
  function LastMark(q: MakerQuote, events: seq<Event>, t0: real): real
    decreases |events|
  {
    if events == [] then t0 else LastMark(After(q, events[0]), events[1..], MarkAfter(q, events[0], t0))
  }

  function MarkAfter(q: MakerQuote, e: Event, t0: real): real {
    if Marks(q, e) then e.i.now else t0
  }

  /** What an interval from t to u is credited beyond its length: what t was rounded down by when it
      was stored; and a stored start that lies past u loses the interval, no more. */
  function Slip(t: real, u: real): real {
    Max(t - RoundMicro(t), t - u)
  }

  function Slipped(q: MakerQuote, events: seq<Event>, t0: real): real
    decreases |events|
  {
    if events == [] then 0.0
    else (if Marks(q, events[0]) then Slip(t0, events[0].i.now) else 0.0)
         + Slipped(After(q, events[0]), events[1..], MarkAfter(q, events[0], t0))
  }

  /** What is not credited at all: everything since the last mark when the pool has ended, and what
      a live poll finds beyond ten minutes. */
  function Lost(e: Event, since: real): real
    requires e.Polled?
  {
    if PoolEnded(e.i.read) then since else if e.live then Max(0.0, since - 600.0) else 0.0
  }

  function Cut(q: MakerQuote, events: seq<Event>, t0: real): real
    decreases |events|
  {
    if events == [] then 0.0
    else (if Marks(q, events[0]) then Lost(events[0], events[0].i.now - t0 + Slip(t0, events[0].i.now)) else 0.0)
         + Cut(After(q, events[0]), events[1..], MarkAfter(q, events[0], t0))
  }

  lemma EventExact(q: MakerQuote, e: Event, t0: real)
    requires q.active ==> q.lastAccrued == RoundMicro(t0)
    ensures var t1 := MarkAfter(q, e, t0);
            && (After(q, e).active ==> After(q, e).lastAccrued == RoundMicro(t1))
            && EventSeconds(q, e)
               == t1 - t0 + if Marks(q, e) then Slip(t0, t1) - Lost(e, t1 - t0 + Slip(t0, t1)) else 0.0
  {
    if q.active && e.Polled? { MarkExact(e.live, e.cc, q, e.i, t0); }
  }

  lemma MarkExact(live: bool, cc: real, q: MakerQuote, i: Input, t0: real)
    requires q.active && q.lastAccrued == RoundMicro(t0)
    ensures var s := StepOf(live, cc, q, i);
            && (s.q.active ==> s.q.lastAccrued == if Applied(s) then RoundMicro(i.now) else q.lastAccrued)
            && (!Applied(s) ==> s.seconds == 0.0)
            && (Applied(s) ==> s.seconds == i.now - t0 + Slip(t0, i.now)
                                          - Lost(Polled(live, cc, i), i.now - t0 + Slip(t0, i.now)))
  {
    assert SecondsSince(q, i.now) == i.now - t0 + Slip(t0, i.now);
  }

  /** Over every run, with any clock at all, the seconds credited are the time from the start to the
      last mark, plus the slips of the intervals between, less what was cut off. So some time is
      rewarded twice, on balance, if and only if the slips add up to more than the cuts. */
  lemma {:induction false} SecondsExact(q: MakerQuote, events: seq<Event>, t0: real)
    requires q.active ==> q.lastAccrued == RoundMicro(t0)
    ensures Seconds(q, events) == LastMark(q, events, t0) - t0 + Slipped(q, events, t0) - Cut(q, events, t0)
    ensures Seconds(q, events) > LastMark(q, events, t0) - t0 <==> Slipped(q, events, t0) > Cut(q, events, t0)
    decreases |events|
  {
    if events != [] {
      EventExact(q, events[0], t0);
      SecondsExact(After(q, events[0]), events[1..], MarkAfter(q, events[0], t0));
    }
  }

  /** Between readings at least half a microsecond apart a slip is just the rounding of the first:
      positive if and only if it was rounded down. */
  lemma SlipIsRounding(t: real, u: real)
    requires u >= t + 0.0000005
    ensures Slip(t, u) == t - RoundMicro(t) && (Slip(t, u) > 0.0 <==> RoundMicro(t) < t)
  {
    StoredNearby(t);
  }

  /** In particular two polls in a row are credited more than the time between the stored start and
      the second if and only if the first reading was rounded down. */
  lemma SliverTwiceIff(q: MakerQuote, t: real, u: real)
    requires q.lastAccrued <= t <= u <= q.lastAccrued + MAX_ACCRUAL_SECONDS && u - RoundMicro(t) <= MAX_ACCRUAL_SECONDS
    ensures LiveSeconds(q, t) + LiveSeconds(q.(lastAccrued := RoundMicro(t)), u) > u - q.lastAccrued <==> RoundMicro(t) < t
  {}
}
