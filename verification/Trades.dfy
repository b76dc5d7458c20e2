// cpp/src/pmm/clob_submitter.cpp: reading our own fills out of the venue's newest-first trade
// list, with a cursor. JSON rows are plain records; absent fields are None or empty.
module Trades {
  import opened Common

  datatype Leg = Leg(makerAddress: string, orderId: Option<string>, assetId: string, side: string,
                     matched: real, price: real)

  datatype Trade = Trade(
    id: Option<string>, tradeId: Option<string>,
    orderRefs: seq<string>,             // the taker-order and order ids the row carries
    makerOrders: Option<seq<Leg>>,
    side: string, assetId: Option<string>, tokenId: Option<string>, size: real, price: real)

  datatype Fill = Fill(id: string, orderId: Option<string>, tokenId: string, side: string, size: real, price: real)

  /** What the extraction is told besides the rows: our flatten orders, whether top-level sides
      are inverted, and our lower-case maker address (empty: use the top-level view). */
  datatype View = View(ownTaker: set<string>, invert: bool, maker: string)

  function LowerChar(c: char): char {
    if 'A' <= c <= 'Z' then c + 32 as char else c
  }

  function UpperChar(c: char): char {
    if 'a' <= c <= 'z' then c - 32 as char else c
  }

  function Lower(s: string): string {
    seq(|s|, i requires 0 <= i < |s| => LowerChar(s[i]))
  }

  function Upper(s: string): string {
    seq(|s|, i requires 0 <= i < |s| => UpperChar(s[i]))
  }

  function IdOf(t: Trade): string {
    if t.id.Some? then t.id.value else if t.tradeId.Some? then t.tradeId.value else ""
  }

  predicate Own(t: Trade, own: set<string>) {
    exists r :: r in t.orderRefs && r in own
  }

  // ---- specification ----

  function LegFills(id: string, legs: seq<Leg>, maker: string): seq<Fill> {
    if legs == [] then []
    else (if Lower(legs[0].makerAddress) == maker
          then [Fill(id, legs[0].orderId, legs[0].assetId, Upper(legs[0].side), legs[0].matched, legs[0].price)]
          else []) + LegFills(id, legs[1..], maker)
  }

  function TopFill(t: Trade, invert: bool): Fill {
    var side := Upper(t.side);
    Fill(IdOf(t), None, if t.assetId.Some? then t.assetId.value else if t.tokenId.Some? then t.tokenId.value else "",
         if !invert then side else if side == "BUY" then "SELL" else "BUY", t.size, t.price)
  }

  /** The fills one row stands for: none for our own taker legs; our legs of its maker orders
      when it has them; otherwise the row itself. */
  function RowFills(t: Trade, v: View): seq<Fill> {
    if Own(t, v.ownTaker) then []
    else if v.maker != "" && t.makerOrders.Some? then LegFills(IdOf(t), t.makerOrders.value, v.maker)
    else [TopFill(t, v.invert)]
  }

  function Fills(rows: seq<Trade>, v: View): seq<Fill> {
    if rows == [] then [] else RowFills(rows[0], v) + Fills(rows[1..], v)
  }

  predicate AtCursor(t: Trade, cursor: Option<string>) {
    IdOf(t) != "" && cursor.Some? && IdOf(t) == cursor.value
  }

  /** The rows newer than the cursor: everything before its row, or the whole page. */
  function NewRows(rows: seq<Trade>, cursor: Option<string>): seq<Trade> {
    if rows == [] || AtCursor(rows[0], cursor) then [] else [rows[0]] + NewRows(rows[1..], cursor)
  }

  /** The newest identified row, or the old cursor if there is none. */
  function Newest(rows: seq<Trade>, cursor: Option<string>): Option<string> {
    if rows == [] then cursor
    else if IdOf(rows[0]) != "" then Some(IdOf(rows[0]))
    else Newest(rows[1..], cursor)
  }

  // ---- the loop ----

  lemma {:induction false} FillsAppend(xs: seq<Trade>, ys: seq<Trade>, v: View)
    ensures Fills(xs + ys, v) == Fills(xs, v) + Fills(ys, v)
  {
    if xs == [] {
      assert xs + ys == ys;
    } else {
      assert (xs + ys)[1..] == xs[1..] + ys;
      FillsAppend(xs[1..], ys, v);
    }
  }

  method AppendLegs(id: string, legs: seq<Leg>, maker: string, out: seq<Fill>) returns (out': seq<Fill>)
    ensures out' == out + LegFills(id, legs, maker)
  {
    out' := out;
    var i := 0;
    while i < |legs|
      invariant 0 <= i <= |legs|
      invariant out' + LegFills(id, legs[i..], maker) == out + LegFills(id, legs, maker)
    {
      assert legs[i..][1..] == legs[i + 1..];
      var mo := legs[i];
      if Lower(mo.makerAddress) == maker {
        out' := out' + [Fill(id, mo.orderId, mo.assetId, Upper(mo.side), mo.matched, mo.price)];
      }
      i := i + 1;
    }
  }

  method AppendRow(t: Trade, v: View, out: seq<Fill>) returns (out': seq<Fill>)
    ensures out' == out + RowFills(t, v)
  {
    if Own(t, v.ownTaker) {
      out' := out;
    } else if v.maker != "" && t.makerOrders.Some? {
      out' := AppendLegs(IdOf(t), t.makerOrders.value, v.maker, out);
    } else {
      out' := out + [TopFill(t, v.invert)];
    }
  }

  /** What one turn of the loop moves from the rows ahead to the rows behind. */
  lemma OneMore(rows: seq<Trade>, i: nat, prev: Option<string>, v: View)
    requires i < |rows| && !AtCursor(rows[i], prev)
    ensures NewRows(rows[i..], prev) == [rows[i]] + NewRows(rows[i + 1..], prev)
    ensures rows[..i] + NewRows(rows[i..], prev) == rows[..i + 1] + NewRows(rows[i + 1..], prev)
    ensures Fills(rows[..i + 1], v) == Fills(rows[..i], v) + RowFills(rows[i], v)
  {
    var t := rows[i];
    assert rows[i..][1..] == rows[i + 1..];
    assert rows[..i + 1] == rows[..i] + [t];
    ConcatAssoc(rows[..i], [t], NewRows(rows[i + 1..], prev));
    FillsAppend(rows[..i], [t], v);
    assert Fills([t], v) == RowFills(t, v) + Fills([], v);
  }

  /** The extraction loop. It must stop at the cursor it came in with, not at the one it is
      moving: `lastId` is already this page's newest row after the first turn. */
  method ExtractNewFills(rows: seq<Trade>, cursor: Option<string>, v: View)
    returns (out: seq<Fill>, lastId: Option<string>)
    ensures out == Fills(NewRows(rows, cursor), v)
    ensures lastId == Newest(NewRows(rows, cursor), cursor)
  {
    out, lastId := [], cursor;
    var prev := cursor;
    var seenNew := false;
    ghost var recent := NewRows(rows, cursor);
    var i := 0;
    while i < |rows|
      invariant 0 <= i <= |rows|
      invariant recent == rows[..i] + NewRows(rows[i..], prev)
      invariant out == Fills(rows[..i], v)
      invariant seenNew ==> lastId == Newest(recent, cursor)
      invariant !seenNew ==> lastId == cursor && Newest(NewRows(rows[i..], prev), cursor) == Newest(recent, cursor)
    {
      var t := rows[i];
      if IdOf(t) != "" && prev.Some? && IdOf(t) == prev.value {
        assert recent == rows[..i];
        break;
      }
      OneMore(rows, i, prev, v);
      if !seenNew && IdOf(t) != "" {
        lastId := Some(IdOf(t));
        seenNew := true;
      }
      out := AppendRow(t, v, out);
      i := i + 1;
    }
    assert recent == rows[..i];
  }

  // ---- logs and pages ----

  /** A venue log: every row identified, no id twice. Newest row first. */
  ghost predicate Log(rows: seq<Trade>) {
    && (forall i :: 0 <= i < |rows| ==> IdOf(rows[i]) != "")
    && (forall i, j :: 0 <= i < j < |rows| ==> IdOf(rows[i]) != IdOf(rows[j]))
  }

  /** The cursor is the newest row of a log seen so far: what it was before the log began. */
  function CursorOf(rows: seq<Trade>, start: Option<string>): Option<string> {
    if rows == [] then start else Some(IdOf(rows[0]))
  }

  /** A cursor from before the log began names no row of it. */
  ghost predicate Foreign(rows: seq<Trade>, start: Option<string>) {
    forall i :: 0 <= i < |rows| ==> start != Some(IdOf(rows[i]))
  }

  /** Everything newer than the cursor, cut at the page's end: a page of the log seen through a
      cursor yields the new rows it holds and nothing else. */
  lemma {:induction false} NewRowsOfPage(recent: seq<Trade>, seen: seq<Trade>, start: Option<string>, m: nat)
    requires Log(recent + seen) && Foreign(recent + seen, start) && m <= |recent + seen|
    ensures NewRows((recent + seen)[..m], CursorOf(seen, start)) == recent[..if m < |recent| then m else |recent|]
    decreases |recent|
  {
    var all := recent + seen;
    if m == 0 {
    } else if recent == [] {
      assert all == seen && all[..m][0] == seen[0];
    } else {
      var rest := recent[1..] + seen;
      assert !AtCursor(recent[0], CursorOf(seen, start)) by {
        assert all[0] == recent[0];
        assert seen != [] ==> all[|recent|] == seen[0];
      }
      assert all == [recent[0]] + rest;
      OlderPart([recent[0]], rest, start);
      NewRowsOfPage(recent[1..], seen, start, m - 1);
      Prefix(recent[0], rest, all, m);
      if m < |recent| {
        Prefix(recent[0], recent[1..], recent, m);
      } else {
        assert recent[..|recent|] == recent && recent[1..][..|recent| - 1] == recent[1..];
      }
    }
  }

  lemma Prefix(t: Trade, rest: seq<Trade>, all: seq<Trade>, m: nat)
    requires all == [t] + rest && 0 < m <= |all|
    ensures all[..m] == [t] + rest[..m - 1] && all[..m][1..] == rest[..m - 1]
  {}

  lemma {:induction false} NewestOfLog(rows: seq<Trade>, cursor: Option<string>)
    requires Log(rows)
    ensures Newest(rows, cursor) == CursorOf(rows, cursor)
  {}

  /** One poll delivers exactly the rows that are new, and moves the cursor to the newest row,
      if and only if its page is long enough to hold them all. A shorter page loses the rows
      between its end and the old cursor. */
  lemma PollCompleteIff(recent: seq<Trade>, seen: seq<Trade>, start: Option<string>, m: nat)
    requires Log(recent + seen) && Foreign(recent + seen, start) && m <= |recent + seen|
    ensures NewRows((recent + seen)[..m], CursorOf(seen, start)) == recent <==> m >= |recent|
    ensures m >= |recent| ==>
              Newest(NewRows((recent + seen)[..m], CursorOf(seen, start)), CursorOf(seen, start)) == CursorOf(recent + seen, start)
    ensures m < |recent| ==> NewRows((recent + seen)[..m], CursorOf(seen, start)) == recent[..m]
  {
    NewRowsOfPage(recent, seen, start, m);
    assert recent[..|recent|] == recent;
    if m >= |recent| {
      assert Log(recent) by {
        assert forall i :: 0 <= i < |recent| ==> recent[i] == (recent + seen)[i];
      }
      NewestOfLog(recent, CursorOf(seen, start));
    } else {
      assert |recent[..m]| == m;
    }
  }

  // ---- a run of polls ----

  /** One poll: the rows that arrived since the poll before, and how long a page was read. */
  datatype Poll = Poll(arrived: seq<Trade>, page: nat)

  /** The log after the polls, oldest poll first. */
  function Grown(log: seq<Trade>, polls: seq<Poll>): seq<Trade>
    decreases |polls|
  {
    if polls == [] then log else Grown(polls[0].arrived + log, polls[1..])
  }

  /** All rows that arrived, newest first. */
  function Arrived(polls: seq<Poll>): seq<Trade> {
    if polls == [] then [] else Arrived(polls[1..]) + polls[0].arrived
  }

  /** What the polls return, newest poll first. */
  function Delivered(log: seq<Trade>, cursor: Option<string>, polls: seq<Poll>, v: View): seq<Fill>
    decreases |polls|
  {
    if polls == [] then []
    else
      var log' := polls[0].arrived + log;
      var page := log'[..if polls[0].page <= |log'| then polls[0].page else |log'|];
      var rows := NewRows(page, cursor);
      Delivered(log', Newest(rows, cursor), polls[1..], v) + Fills(rows, v)
  }

  ghost predicate PagesLongEnough(polls: seq<Poll>) {
    forall i :: 0 <= i < |polls| ==> polls[i].page >= |polls[i].arrived|
  }

  lemma {:induction false} GrownIsArrived(log: seq<Trade>, polls: seq<Poll>)
    ensures Grown(log, polls) == Arrived(polls) + log
    decreases |polls|
  {
    if polls != [] {
      GrownIsArrived(polls[0].arrived + log, polls[1..]);
    }
  }

  lemma OlderPart(later: seq<Trade>, older: seq<Trade>, start: Option<string>)
    requires Log(later + older) && Foreign(later + older, start)
    ensures Log(older) && Foreign(older, start)
  {
    forall i | 0 <= i < |older| ensures older[i] == (later + older)[|later| + i] {}
  }

  /** Exactly-once delivery over any run of polls of a growing log: nothing lost, nothing
      repeated, in order. */
  lemma {:induction false} ExactlyOnce(log: seq<Trade>, start: Option<string>, polls: seq<Poll>, v: View)
    requires Log(Grown(log, polls)) && Foreign(Grown(log, polls), start) && PagesLongEnough(polls)
    ensures Delivered(log, CursorOf(log, start), polls, v) == Fills(Arrived(polls), v)
    decreases |polls|
  {
    if polls != [] {
      var recent := polls[0].arrived;
      var log' := recent + log;
      GrownIsArrived(log', polls[1..]);
      var later := Arrived(polls[1..]);
      OlderPart(later, log', start);
      var m := if polls[0].page <= |log'| then polls[0].page else |log'|;
      PollCompleteIff(recent, log, start, m);
      ExactlyOnce(log', start, polls[1..], v);
      FillsAppend(later, recent, v);
    }
  }

  /** In particular a first poll with no cursor, over the whole log, followed by any others:
      together they return the extraction of the final log. */
  lemma ExactlyOnceFromScratch(log: seq<Trade>, polls: seq<Poll>, v: View)
    requires Log(Grown(log, polls)) && PagesLongEnough(polls)
    ensures Delivered([], None, [Poll(log, |log|)] + polls, v) == Fills(Grown(log, polls), v)
  {
    var all := [Poll(log, |log|)] + polls;
    assert all[1..] == polls && log + [] == log;
    assert Grown([], all) == Grown(log, polls);
    ExactlyOnce([], None, all, v);
    GrownIsArrived([], all);
    assert Arrived(all) + [] == Arrived(all);
  }

  // ---- the submitter's cursor ----

  class FillReader {
    const view: View
    var lastTradeId: Option<string>

    constructor (view: View, rows: Option<seq<Trade>>)
      ensures this.view == view
      ensures lastTradeId == if rows.Some? then Newest(rows.value, None) else None
    {
      this.view, lastTradeId := view, None;
      new;
      WholePage(if rows.Some? then rows.value else []);
      var _ := PollFills(rows);
    }

    /** `rows` is None when the request fails or answers with something that is no list. */
    method PollFills(rows: Option<seq<Trade>>) returns (out: seq<Fill>)
      modifies this
      ensures rows.None? ==> out == [] && lastTradeId == old(lastTradeId)
      ensures rows.Some? ==> out == Fills(NewRows(rows.value, old(lastTradeId)), view)
      ensures rows.Some? ==> lastTradeId == Newest(NewRows(rows.value, old(lastTradeId)), old(lastTradeId))
    {
      if rows.None? { return []; }
      var cursor;
      out, cursor := ExtractNewFills(rows.value, lastTradeId, view);
      lastTradeId := cursor;
    }

    /** A one-off read from a caller's own cursor; the frame says the poll cursor is untouched. */
    method FillsSince(from: string, rows: Option<seq<Trade>>) returns (out: seq<Fill>)
      ensures out == if from == "" || rows.None? then [] else Fills(NewRows(rows.value, Some(from)), view)
    {
      if from == "" || rows.None? { return []; }
      var cursor;
      out, cursor := ExtractNewFills(rows.value, Some(from), view);
    }
  }

  lemma {:induction false} WholePage(rows: seq<Trade>)
    ensures NewRows(rows, None) == rows
  {
    if rows != [] { WholePage(rows[1..]); }
  }
}
