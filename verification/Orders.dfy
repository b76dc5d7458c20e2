// cpp/src/pmm/db.cpp: limit orders with an expiry, and the query that expires them.
module Orders {
  import opened Common
  import opened Calendar
  import opened Timestamps
  import opened TextOrder

  datatype Status = Pending | Filled | Cancelled | Expired | Rejected

  /** The columns expiry looks at; a missing expiry is NULL. */
  datatype Order = Order(status: Status, gtd: bool, expiresAt: Option<string>)

  function Created(gtd: bool, expiresAt: Option<string>): Order {
    Order(Pending, gtd, if expiresAt.Some? then Some(Normalize(expiresAt.value)) else None)
  }

  /** The WHERE clause: a comparison with NULL selects nothing. */
  predicate Due(o: Order, now: string) {
    o.status.Pending? && o.gtd && o.expiresAt.Some? && AtMost(o.expiresAt.value, now)
  }

  function ExpireRow(o: Order, now: string): Order {
    if Due(o, now) then o.(status := Expired) else o
  }

  function ExpireAll(rows: seq<Order>, now: string): (r: seq<Order>)
    ensures |r| == |rows| && forall k :: 0 <= k < |rows| ==> r[k] == ExpireRow(rows[k], now)
  {
    seq(|rows|, k requires 0 <= k < |rows| => ExpireRow(rows[k], now))
  }

  /** The rows the query returns, as they were before the update. */
  function Selected(rows: seq<Order>, now: string): seq<Order> {
    if rows == [] then []
    else Selected(rows[..|rows| - 1], now) + if Due(rows[|rows| - 1], now) then [rows[|rows| - 1]] else []
  }

  /** Microseconds into the second, cut off. */
  function MicrosOf(t: real): (us: nat)
    ensures us < 1000000
  {
    var part := t - t.Floor as real;
    (part * 1000000.0).Floor
  }

  /** The clock as a stamp: always six fraction digits. */
  function NowStamp(t: real): Stamp
    requires t >= 0.0
  {
    GmtimeInverts(t.Floor);
    Stamp(Gmtime(t.Floor), Pad(MicrosOf(t), 6))
  }

  lemma NowStampIs(t: real)
    requires t >= 0.0 && Gmtime(t.Floor).year <= 9999
    ensures ValidStamp(NowStamp(t)) && |NowStamp(t).frac| == 6
    ensures TimeOf(NowStamp(t)) == (t * 1000000.0).Floor as real / 1000000.0
  {
    GmtimeInverts(t.Floor);
    PaddedMicros(MicrosOf(t));
    WholeMicros(t);
  }

  lemma WholeMicros(t: real)
    ensures (t * 1000000.0).Floor == t.Floor * 1000000 + MicrosOf(t)
  {
    var part := t - t.Floor as real;
    assert t * 1000000.0 == part * 1000000.0 + (t.Floor * 1000000) as real;
    FloorShift(part * 1000000.0, t.Floor * 1000000);
  }

  lemma PaddedMicros(us: nat)
    requires us < 1000000
    ensures AllDigits(Pad(us, 6)) && |Pad(us, 6)| == 6 && FracValue(Pad(us, 6)) == us as real / 1000000.0
  {
    SixDigits();
    PadReads(us, 6);
    PadWidth(us, 6);
    FracIsDecimal(Pad(us, 6));
  }

  /** For a pending good-till-date order and any clock reading: due before now, it expires; due
      after now, it does not; due at this very microsecond, it expires exactly when it was written
      with no more than six fraction digits. */
  lemma ExpiresExactly(o: Order, due: Stamp, now: Stamp)
    requires ValidStamp(due) && ValidStamp(now) && |now.frac| == 6
    requires o.status.Pending? && o.gtd && o.expiresAt == Some(Text(due))
    ensures TimeOf(due) < TimeOf(now) ==> ExpireRow(o, Text(now)).status.Expired?
    ensures TimeOf(due) > TimeOf(now) ==> ExpireRow(o, Text(now)) == o
    ensures TimeOf(due) == TimeOf(now) ==> (ExpireRow(o, Text(now)).status.Expired? <==> |due.frac| <= 6)
  {
    if TimeOf(due) < TimeOf(now) {
      TextOrderIsTimeOrder(due, now);
      LessAsymmetric(Text(due), Text(now));
    } else if TimeOf(due) > TimeOf(now) {
      TextOrderIsTimeOrder(now, due);
    } else {
      SameTimeLongerIsLater(due, now);
    }
  }

  /** Only a pending good-till-date order with an expiry ever expires, and nothing else of it changes. */
  lemma NoOtherExpires(o: Order, now: string)
    ensures ExpireRow(o, now) != o ==> o.status.Pending? && o.gtd && o.expiresAt.Some?
    ensures ExpireRow(o, now) == o || ExpireRow(o, now) == o.(status := Expired)
  {}

  /** Whichever way the expiry was written when the order was created: a good-till-date order expires
      by it, an order of any other kind never does. */
  lemma CreatedExpiresExactly(gtd: bool, due: Stamp, zulu: bool, now: Stamp)
    requires ValidStamp(due) && ValidStamp(now) && |now.frac| == 6
    ensures var o := Created(gtd, Some(if zulu then ZuluText(due) else Text(due)));
            && (ExpireRow(o, Text(now)).status.Expired?
                <==> gtd && (TimeOf(due) < TimeOf(now) || (TimeOf(due) == TimeOf(now) && |due.frac| <= 6)))
            && (!ExpireRow(o, Text(now)).status.Expired? ==> ExpireRow(o, Text(now)) == o)
    ensures ExpireRow(Created(gtd, None), Text(now)) == Created(gtd, None)
  {
    NormalizeUnifies(due);
    if gtd { ExpiresExactly(Created(true, Some(if zulu then ZuluText(due) else Text(due))), due, now); }
  }

  /** Expiring is idempotent, and expiring at an earlier time first makes no difference. */
  lemma ExpireTwice(o: Order, due: Stamp, t: Stamp, u: Stamp)
    requires ValidStamp(due) && ValidStamp(t) && ValidStamp(u) && |t.frac| == |u.frac| == 6 && TimeOf(t) <= TimeOf(u)
    requires o.expiresAt.Some? ==> o.expiresAt.value == Text(due)
    ensures ExpireRow(ExpireRow(o, Text(t)), Text(u)) == ExpireRow(o, Text(u))
  {
    if Due(o, Text(t)) {
      ExpiresExactly(o, due, t);
      ExpiresExactly(o, due, u);
    }
  }

  class OrderTable {
    var rows: seq<Order>

    constructor ()
      ensures rows == []
    {
      rows := [];
    }

    method CreateOrder(gtd: bool, expiresAt: Option<string>) returns (id: int)
      modifies this
      ensures rows == old(rows) + [Created(gtd, expiresAt)] && id == |rows|
    {
      var expires := None;
      if expiresAt.Some? { expires := Some(Normalize(expiresAt.value)); }
      rows := rows + [Order(Pending, gtd, expires)];
      id := |rows|;
    }

    /** Only a pending order can be cancelled. */
    method CancelOrder(id: int) returns (found: bool)
      modifies this
      ensures found <==> 1 <= id <= |old(rows)| && old(rows)[id - 1].status.Pending?
      ensures rows == if found then old(rows)[id - 1 := old(rows)[id - 1].(status := Cancelled)] else old(rows)
    {
      found := 1 <= id <= |rows| && rows[id - 1].status.Pending?;
      if found { rows := rows[id - 1 := rows[id - 1].(status := Cancelled)]; }
    }

    method ExpireOrders(now: string) returns (out: seq<Order>)
      modifies this
      ensures out == Selected(old(rows), now)
      ensures rows == ExpireAll(old(rows), now)
    {
      out := [];
      var k := 0;
      while k < |rows|
        invariant 0 <= k <= |rows| && rows == old(rows)
        invariant out == Selected(rows[..k], now)
      {
        assert rows[..k + 1][..k] == rows[..k];
        if Due(rows[k], now) { out := out + [rows[k]]; }
        k := k + 1;
      }
      assert rows[..k] == rows;
      if out == [] {
        NoneDue(rows, now);
        assert rows == ExpireAll(rows, now);
      } else {
        rows := ExpireAll(rows, now);
      }
    }
  }

  lemma {:induction false} NoneDue(rows: seq<Order>, now: string)
    requires Selected(rows, now) == []
    ensures forall k :: 0 <= k < |rows| ==> !Due(rows[k], now)
    decreases |rows|
  {
    if rows != [] { NoneDue(rows[..|rows| - 1], now); }
  }
}
