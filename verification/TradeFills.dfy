// What one trade row says about us, field by field: which fills the extraction of
// cpp/src/pmm/clob_submitter.cpp makes of a page of rows, said without the functions that make them.
module TradeFills {
  import opened Common
  import opened Trades

  // ---- letter case ----

  /** ASCII case and nothing else: a capital differs from its small letter by 32, every other
      character has one form. */
  lemma CaseFolds(s: string)
    ensures |Upper(s)| == |Lower(s)| == |s|
    ensures forall i :: 0 <= i < |s| && 'a' <= s[i] <= 'z' ==> Lower(s)[i] == s[i] && Upper(s)[i] as int == s[i] as int - 32
    ensures forall i :: 0 <= i < |s| && 'A' <= s[i] <= 'Z' ==> Upper(s)[i] == s[i] && Lower(s)[i] as int == s[i] as int + 32
    ensures forall i :: 0 <= i < |s| && !('a' <= s[i] <= 'z') && !('A' <= s[i] <= 'Z') ==> Upper(s)[i] == Lower(s)[i] == s[i]
  {}

  lemma Sides()
    ensures Upper("buy") == Upper("Buy") == "BUY" && Lower("BUY") == Lower("Buy") == "buy"
  {}

  // ---- one row ----

  /** A row's id: its `id`, else its `trade_id`, else none. */
  ghost predicate Identifies(t: Trade, id: string) {
    (t.id.Some? ==> id == t.id.value)
    && (t.id.None? && t.tradeId.Some? ==> id == t.tradeId.value)
    && (t.id.None? && t.tradeId.None? ==> id == "")
  }

  ghost predicate Mine(leg: Leg, maker: string) {
    Lower(leg.makerAddress) == maker
  }

  /** A fill that carries its leg's matched amount, price, asset, side and order, under the row's id. */
  ghost predicate OfLeg(f: Fill, t: Trade, leg: Leg) {
    && Identifies(t, f.id) && f.orderId == leg.orderId && f.tokenId == leg.assetId && f.side == Upper(leg.side)
    && f.size == leg.matched && f.price == leg.price
  }

  /** One fill for each leg of ours, in the order of the legs. */
  ghost predicate OfLegsAt(fills: seq<Fill>, t: Trade, legs: seq<Leg>, maker: string, at: seq<int>) {
    && |at| == |fills|
    && (forall j, k :: 0 <= j < k < |at| ==> at[j] < at[k])
    && (forall k :: 0 <= k < |at| ==> 0 <= at[k] < |legs| && OfLeg(fills[k], t, legs[at[k]]))
    && (forall i :: 0 <= i < |legs| ==> (i in at <==> Mine(legs[i], maker)))
  }

  /** The taker's side of a row, or the other one. */
  ghost predicate SideOf(side: string, t: Trade, invert: bool) {
    if !invert then side == Upper(t.side)
    else if Upper(t.side) == "BUY" then side == "SELL" else side == "BUY"
  }

  /** A fill that carries the row's own size, price and token. */
  ghost predicate OfRow(f: Fill, t: Trade, invert: bool) {
    && Identifies(t, f.id) && f.orderId.None? && SideOf(f.side, t, invert) && f.size == t.size && f.price == t.price
    && (t.assetId.Some? ==> f.tokenId == t.assetId.value)
    && (t.assetId.None? && t.tokenId.Some? ==> f.tokenId == t.tokenId.value)
    && (t.assetId.None? && t.tokenId.None? ==> f.tokenId == "")
  }

  /** Nothing of a row that one of our own taker orders made; our maker legs if we know our address
      and the row lists its maker orders; the row itself otherwise. */
  ghost predicate SaidBy(fills: seq<Fill>, t: Trade, v: View) {
    if exists k :: 0 <= k < |t.orderRefs| && t.orderRefs[k] in v.ownTaker then fills == []
    else if v.maker != "" && t.makerOrders.Some? then exists at :: OfLegsAt(fills, t, t.makerOrders.value, v.maker, at)
    else |fills| == 1 && OfRow(fills[0], t, v.invert)
  }

  lemma {:induction false} LegsAt(t: Trade, legs: seq<Leg>, maker: string) returns (at: seq<int>)
    ensures OfLegsAt(LegFills(IdOf(t), legs, maker), t, legs, maker, at)
    decreases |legs|
  {
    at := [];
    if legs != [] {
      var n := |legs| - 1;
      var before := LegsAt(t, legs[..n], maker);
      LegsSplit(IdOf(t), legs, maker);
      if Mine(legs[n], maker) {
        at := before + [n];
        OneMoreOfOurs(LegFills(IdOf(t), legs[..n], maker), t, legs, maker, before, LegFills(IdOf(t), [legs[n]], maker)[0]);
      } else {
        at := before;
        OneMoreForeign(LegFills(IdOf(t), legs, maker), t, legs, maker, at);
      }
    }
  }

  lemma OneMoreOfOurs(fills: seq<Fill>, t: Trade, legs: seq<Leg>, maker: string, at: seq<int>, f: Fill)
    requires legs != [] && OfLegsAt(fills, t, legs[..|legs| - 1], maker, at)
    requires Mine(legs[|legs| - 1], maker) && OfLeg(f, t, legs[|legs| - 1])
    ensures OfLegsAt(fills + [f], t, legs, maker, at + [|legs| - 1])
  {
    var n := |legs| - 1;
    forall i | 0 <= i < |legs| ensures i in at + [n] <==> Mine(legs[i], maker) {
      if i < n { assert legs[..n][i] == legs[i]; } else { assert (at + [n])[|at|] == n; }
    }
  }

  lemma OneMoreForeign(fills: seq<Fill>, t: Trade, legs: seq<Leg>, maker: string, at: seq<int>)
    requires legs != [] && OfLegsAt(fills, t, legs[..|legs| - 1], maker, at) && !Mine(legs[|legs| - 1], maker)
    ensures OfLegsAt(fills, t, legs, maker, at)
  {
    var n := |legs| - 1;
    forall i | 0 <= i < |legs| ensures i in at <==> Mine(legs[i], maker) {
      if i < n { assert legs[..n][i] == legs[i]; } else { assert forall k :: 0 <= k < |at| ==> at[k] != n; }
    }
  }

  lemma LegsSplit(id: string, legs: seq<Leg>, maker: string)
    requires legs != []
    ensures var n := |legs| - 1;
            LegFills(id, legs, maker) == LegFills(id, legs[..n], maker) + LegFills(id, [legs[n]], maker)
  {
    assert legs == legs[..|legs| - 1] + [legs[|legs| - 1]];
    LegsAppend(id, legs[..|legs| - 1], [legs[|legs| - 1]], maker);
  }

  lemma {:induction false} LegsAppend(id: string, xs: seq<Leg>, ys: seq<Leg>, maker: string)
    ensures LegFills(id, xs + ys, maker) == LegFills(id, xs, maker) + LegFills(id, ys, maker)
    decreases |xs|
  {
    if xs == [] {
      assert xs + ys == ys;
    } else {
      assert (xs + ys)[1..] == xs[1..] + ys;
      LegsAppend(id, xs[1..], ys, maker);
    }
  }

  lemma RowSays(t: Trade, v: View)
    ensures SaidBy(RowFills(t, v), t, v)
  {
    if !Own(t, v.ownTaker) && v.maker != "" && t.makerOrders.Some? {
      var at := LegsAt(t, t.makerOrders.value, v.maker);
    }
  }

  // ---- a page ----

  function Joined(parts: seq<seq<Fill>>): seq<Fill> {
    if parts == [] then [] else Joined(parts[..|parts| - 1]) + parts[|parts| - 1]
  }

  /** A list of fills made up of what each row says, row after row. */
  ghost predicate PartsOf(out: seq<Fill>, rows: seq<Trade>, v: View, parts: seq<seq<Fill>>) {
    |parts| == |rows| && out == Joined(parts) && forall k :: 0 <= k < |rows| ==> SaidBy(parts[k], rows[k], v)
  }

  lemma {:induction false} FillsSaid(rows: seq<Trade>, v: View) returns (parts: seq<seq<Fill>>)
    ensures PartsOf(Fills(rows, v), rows, v, parts)
    decreases |rows|
  {
    if rows == [] {
      parts := [];
    } else {
      var n := |rows| - 1;
      var before := FillsSaid(rows[..n], v);
      assert rows == rows[..n] + [rows[n]];
      FillsAppend(rows[..n], [rows[n]], v);
      assert Fills([rows[n]], v) == RowFills(rows[n], v) + Fills([], v);
      RowSays(rows[n], v);
      parts := before + [RowFills(rows[n], v)];
      assert parts[..n] == before;
      forall k | 0 <= k < |rows| ensures SaidBy(parts[k], rows[k], v) { if k < n { assert rows[..n][k] == rows[k]; } }
    }
  }

  ghost predicate StopsAt(t: Trade, cursor: Option<string>) {
    exists id :: Identifies(t, id) && id != "" && cursor == Some(id)
  }

  /** The first n rows are those before the cursor's: no earlier row is the cursor's, and the next is,
      unless the page is over. */
  ghost predicate BeforeCursor(rows: seq<Trade>, cursor: Option<string>, n: int) {
    && 0 <= n <= |rows| && (forall k :: 0 <= k < n ==> !StopsAt(rows[k], cursor))
    && (n == |rows| || StopsAt(rows[n], cursor))
  }

  ghost predicate CursorMoves(rows: seq<Trade>, n: int, cursor: Option<string>, moved: Option<string>)
    requires 0 <= n <= |rows|
  {
    || (moved == cursor && forall k :: 0 <= k < n ==> Identifies(rows[k], ""))
    || exists k :: 0 <= k < n && NewestAt(rows, k, moved)
  }

  /** The newest row that has an id. */
  ghost predicate NewestAt(rows: seq<Trade>, k: int, moved: Option<string>)
    requires 0 <= k < |rows|
  {
    moved.Some? && moved.value != "" && Identifies(rows[k], moved.value) && forall j :: 0 <= j < k ==> Identifies(rows[j], "")
  }

  lemma IdIdentifies(t: Trade, id: string)
    ensures Identifies(t, id) <==> id == IdOf(t)
  {}

  lemma StopsIff(t: Trade, cursor: Option<string>)
    ensures StopsAt(t, cursor) <==> AtCursor(t, cursor)
  {
    IdIdentifies(t, IdOf(t));
  }

  lemma {:induction false} NewRowsBefore(rows: seq<Trade>, cursor: Option<string>) returns (n: nat)
    ensures BeforeCursor(rows, cursor, n) && NewRows(rows, cursor) == rows[..n]
    decreases |rows|
  {
    n := 0;
    if rows != [] {
      StopsIff(rows[0], cursor);
      if !AtCursor(rows[0], cursor) {
        var m := NewRowsBefore(rows[1..], cursor);
        n := m + 1;
        assert rows[..n] == [rows[0]] + rows[1..][..m];
        assert forall k :: 1 <= k < |rows| ==> rows[k] == rows[1..][k - 1];
      }
    }
  }

  lemma {:induction false} NewestMoves(rows: seq<Trade>, n: nat, cursor: Option<string>)
    requires n <= |rows|
    ensures CursorMoves(rows, n, cursor, Newest(rows[..n], cursor))
    decreases n
  {
    if n > 0 {
      IdIdentifies(rows[0], IdOf(rows[0]));
      if IdOf(rows[0]) != "" {
        assert NewestAt(rows, 0, Newest(rows[..n], cursor));
      } else {
        NewestMoves(rows[1..], n - 1, cursor);
        assert rows[..n][1..] == rows[1..][..n - 1];
        MovesLater(rows, n, cursor, Newest(rows[..n], cursor));
      }
    }
  }

  lemma MovesLater(rows: seq<Trade>, n: nat, cursor: Option<string>, moved: Option<string>)
    requires 0 < n <= |rows| && Identifies(rows[0], "") && CursorMoves(rows[1..], n - 1, cursor, moved)
    ensures CursorMoves(rows, n, cursor, moved)
  {
    assert forall k :: 1 <= k < |rows| ==> rows[k] == rows[1..][k - 1];
    if k :| 0 <= k < n - 1 && NewestAt(rows[1..], k, moved) {
      assert NewestAt(rows, k + 1, moved);
    }
  }

  ghost predicate PageSays(rows: seq<Trade>, cursor: Option<string>, v: View, out: seq<Fill>, lastId: Option<string>,
                           n: int, parts: seq<seq<Fill>>)
  {
    BeforeCursor(rows, cursor, n) && PartsOf(out, rows[..n], v, parts) && CursorMoves(rows, n, cursor, lastId)
  }

  /** What ExtractNewFills returns, for every page, cursor and view: exactly what the rows before the
      cursor's say, row after row, and the id of the newest row that has one. */
  lemma ExtractedSays(rows: seq<Trade>, cursor: Option<string>, v: View, out: seq<Fill>, lastId: Option<string>)
    requires out == Fills(NewRows(rows, cursor), v) && lastId == Newest(NewRows(rows, cursor), cursor)
    ensures exists n, parts :: PageSays(rows, cursor, v, out, lastId, n, parts)
  {
    var n := NewRowsBefore(rows, cursor);
    var parts := FillsSaid(rows[..n], v);
    NewestMoves(rows, n, cursor);
    assert PageSays(rows, cursor, v, out, lastId, n, parts);
  }

  /** Over a whole run of polls: what is delivered is what each row that arrived says, once and in
      order. */
  lemma DeliveredSays(log: seq<Trade>, start: Option<string>, polls: seq<Poll>, v: View) returns (parts: seq<seq<Fill>>)
    requires Log(Grown(log, polls)) && Foreign(Grown(log, polls), start) && PagesLongEnough(polls)
    ensures PartsOf(Delivered(log, CursorOf(log, start), polls, v), Arrived(polls), v, parts)
  {
    ExactlyOnce(log, start, polls, v);
    parts := FillsSaid(Arrived(polls), v);
  }
}
