// The protocol of Recovery reads its log through the extraction of Trades: a newest-first list of
// trade rows, fed backwards.
module RecoveryReads {
  import opened Common
  import opened Trades
  import R = Recovery

  function Rev<T>(s: seq<T>): seq<T> {
    if s == [] then [] else Rev(s[1..]) + [s[0]]
  }

  lemma {:induction false} RevAppend<T>(a: seq<T>, b: seq<T>)
    ensures Rev(a + b) == Rev(b) + Rev(a)
  {
    if a == [] {
      assert a + b == b;
    } else {
      assert (a + b)[1..] == a[1..] + b;
      RevAppend(a[1..], b);
    }
  }

  /** The venue's list, newest first, as the protocol's log, oldest first. */
  function LogOf(trades: seq<Trade>, v: View): seq<R.Row> {
    if trades == [] then []
    else LogOf(trades[1..], v) + [R.Row(IdOf(trades[0]), Rev(RowFills(trades[0], v)))]
  }

  ghost predicate Identified(trades: seq<Trade>) {
    forall i :: 0 <= i < |trades| ==> IdOf(trades[i]) != ""
  }

  /** Feeding the fills backwards is feeding the log in order. */
  lemma {:induction false} FedInOrder(trades: seq<Trade>, v: View)
    ensures Rev(Fills(trades, v)) == R.InOrder(LogOf(trades, v))
  {
    if trades != [] {
      RevAppend(RowFills(trades[0], v), Fills(trades[1..], v));
      FedInOrder(trades[1..], v);
      var log := LogOf(trades, v);
      assert log[..|log| - 1] == LogOf(trades[1..], v);
    }
  }

  lemma {:induction false} NewRowsAreAfter(trades: seq<Trade>, cursor: Option<string>, v: View)
    requires Identified(trades)
    ensures LogOf(NewRows(trades, cursor), v) == R.After(LogOf(trades, v), cursor)
  {
    if trades != [] {
      assert IdOf(trades[0]) != "";
      var log := LogOf(trades, v);
      assert log[..|log| - 1] == LogOf(trades[1..], v);
      assert forall i :: 0 <= i < |trades[1..]| ==> trades[1..][i] == trades[i + 1];
      NewRowsAreAfter(trades[1..], cursor, v);
      if !AtCursor(trades[0], cursor) {
        assert NewRows(trades, cursor)[1..] == NewRows(trades[1..], cursor);
      }
    }
  }

  /** What a poll or a catch-up feeds to the ledger, and where the cursor ends, are what the
      protocol says, for every list of identified rows. */
  lemma ReadsAgree(trades: seq<Trade>, cursor: Option<string>, v: View)
    requires Identified(trades)
    ensures Rev(Fills(NewRows(trades, cursor), v)) == R.InOrder(R.After(LogOf(trades, v), cursor))
    ensures Newest(NewRows(trades, cursor), cursor) == R.Newest(R.After(LogOf(trades, v), cursor), cursor)
  {
    NewRowsAreAfter(trades, cursor, v);
    FedInOrder(NewRows(trades, cursor), v);
    if NewRows(trades, cursor) != [] { assert IdOf(trades[0]) != ""; }
  }
}
