// The crash protocol of cpp/apps/tail_vendor_main.cpp: a persisted watermark (the id of the last
// ingested trade), a submitter whose own cursor starts at the newest trade when it is made, a
// one-off catch-up from the watermark, then polling. Any read may fail, and the process may die
// between any two steps.
// RecoveryReads ties the reads used here to the extraction of clob_submitter.cpp.
module Recovery {
  import opened Common
  import opened Held
  import opened Sums
  import T = Trades

  /** A trade row as the ledger sees it: its id, and our fills in it in the order they are fed. */
  datatype Row = Row(id: string, fills: seq<T.Fill>)

  datatype Proc =
    | Down
    | Started(cursor: Option<string>)
    | Up(mem: HeldState, cursor: Option<string>, pending: seq<T.Fill>)

  /** `log` holds the venue's trades, oldest first. */
  datatype Sys = Sys(log: seq<Row>, disk: HeldState, proc: Proc)

  datatype Event =
    | Arrive(row: Row)          // a trade appears at the venue
    | Construct(read: bool)     // the process starts; a failed first poll leaves it without a cursor
    | Recover(read: bool)       // the catch-up from the watermark; a failed read finds nothing missed
    | Poll(read: bool)          // a failed read changes nothing
    | IngestNext(saved: bool)   // the oldest pending fill; the save may fail
    | Place(tok: string, coin: string, note: string, touch: bool, saved: bool)  // an order is acknowledged
    | Crash

  /** The rows after the cursor's row; all of them if there is no such row. */
  function After(log: seq<Row>, cursor: Option<string>): (rows: seq<Row>)
    ensures |rows| <= |log|
  {
    if log == [] || cursor == Some(log[|log| - 1].id) then []
    else After(log[..|log| - 1], cursor) + [log[|log| - 1]]
  }

  /** The rows up to and including the cursor's. */
  function Seen(log: seq<Row>, cursor: Option<string>): seq<Row> {
    log[..|log| - |After(log, cursor)|]
  }

  function Newest(log: seq<Row>, cursor: Option<string>): Option<string> {
    if log == [] then cursor else Some(log[|log| - 1].id)
  }

  /** All fills of a stretch of the log, oldest first. */
  function InOrder(rows: seq<Row>): seq<T.Fill> {
    if rows == [] then [] else InOrder(rows[..|rows| - 1]) + rows[|rows| - 1].fills
  }

  predicate Enabled(s: Sys, e: Event) {
    match e
    case Arrive(_) => true
    case Construct(_) => s.proc.Down?
    case Recover(_) => s.proc.Started?
    case Poll(_) => s.proc.Up? && s.proc.pending == []
    case IngestNext(_) => s.proc.Up? && s.proc.pending != []
    case Place(_, _, _, _, _) => s.proc.Up? && s.proc.pending == []
    case Crash => !s.proc.Down?
  }

  function Next(s: Sys, e: Event): Sys
    requires Enabled(s, e)
  {
    match e
    case Arrive(row) => s.(log := s.log + [row])
    case Construct(read) => s.(proc := Started(if read then Newest(s.log, None) else None))
    case Recover(read) => Recovered(s, read)
    case Poll(read) => if read then Polled(s) else s
    case IngestNext(saved) => Ingested(s, saved)
    case Place(tok, c, note, touch, saved) =>
      WithMem(s, Register(s.proc.mem, tok, c, note, touch), [], saved)
    case Crash => s.(proc := Down)
  }

  /** Without a watermark nothing is asked for. */
  function Recovered(s: Sys, read: bool): Sys
    requires s.proc.Started?
  {
    var missed := if read && s.disk.lastTradeId != "" then InOrder(After(s.log, Some(s.disk.lastTradeId))) else [];
    s.(proc := Up(s.disk, s.proc.cursor, missed))
  }

  function Polled(s: Sys): Sys
    requires s.proc.Up?
  {
    var rows := After(s.log, s.proc.cursor);
    s.(proc := Up(s.proc.mem, Newest(rows, s.proc.cursor), InOrder(rows)))
  }

  function Ingested(s: Sys, saved: bool): Sys
    requires s.proc.Up? && s.proc.pending != []
  {
    WithMem(s, Ingest(s.proc.mem, s.proc.pending[0]), s.proc.pending[1..], saved)
  }

  /** Memory changes; the file follows if the save succeeds. */
  function WithMem(s: Sys, mem: HeldState, pending: seq<T.Fill>, saved: bool): Sys
    requires s.proc.Up?
  {
    s.(proc := Up(mem, s.proc.cursor, pending), disk := if saved then mem else s.disk)
  }

  // ---- what should be held ----

  function Replay(st: HeldState, fills: seq<T.Fill>): HeldState {
    if fills == [] then st else Ingest(Replay(st, fills[..|fills| - 1]), fills[|fills| - 1])
  }

  /** The books after ingesting every fill of these rows once, in order, by someone who knows
      the tokens registered so far. */
  function Truth(rows: seq<Row>, tokens: map<string, string>): HeldState {
    Replay(EMPTY.(tokenCoin := tokens), InOrder(rows))
  }

  ghost predicate SameAmounts(a: HeldState, b: HeldState) {
    a.total == b.total && a.coin == b.coin && a.tokenHeld == b.tokenHeld
  }

  ghost predicate Dominates(a: HeldState, b: HeldState) {
    && a.total >= b.total
    && (forall c :: Get(a.coin, c) >= Get(b.coin, c))
    && (forall t :: Get(a.tokenHeld, t) >= Get(b.tokenHeld, t))
  }

  /** Exactly the truth, or at least it; by someone who knows the same tokens. */
  ghost predicate Matches(exact: bool, a: HeldState, b: HeldState) {
    && a.tokenCoin == b.tokenCoin
    && if exact then SameAmounts(a, b) else Dominates(a, b)
  }

  // ---- assumptions on a run ----

  ghost predicate Distinct(log: seq<Row>) {
    && (forall i :: 0 <= i < |log| ==> log[i].id != "")
    && (forall i, j :: 0 <= i < j < |log| ==> log[i].id != log[j].id)
  }

  /** At most one fill of ours per trade row, carrying the row's id, of no negative size. */
  ghost predicate OneLeg(r: Row) {
    |r.fills| <= 1 && forall f :: f in r.fills ==> f.id == r.id && f.size >= 0.0
  }

  ghost predicate NoFillOf(rows: seq<Row>, toks: set<string>) {
    forall f :: f in InOrder(rows) ==> f.tokenId !in toks
  }

  /** The rows up to and including the watermark's; none before the first ingest. */
  function UpTo(log: seq<Row>, last: string): seq<Row> {
    Seen(log, Some(last))
  }

  /** Rows the cursor has passed, newer than the watermark, that recovery does not read. */
  function Skipped(s: Sys, read: bool): seq<Row>
    requires s.proc.Started?
  {
    if read && s.disk.lastTradeId != "" then [] else After(Seen(s.log, s.proc.cursor), Some(s.disk.lastTradeId))
  }

  /** - a new trade has a new, non-empty id and one leg of ours; for an exact count, it does not
        land between construction and a catch-up;
      - for an exact count, the first poll may fail only while there is no watermark;
      - what recovery skips has no fill of a registered token;
      - when an order's token is first registered, neither the cursor nor the watermark has passed
        a fill of it; and it keeps the coin it was registered under. */
  ghost predicate Clean(s: Sys, e: Event, exact: bool)
    requires Enabled(s, e)
  {
    match e
    case Arrive(row) =>
      Distinct(s.log + [row]) && OneLeg(row) && (exact && s.proc.Started? ==> s.disk.lastTradeId == "")
    case Construct(read) => exact && !read ==> s.disk.lastTradeId == ""
    case Recover(read) => NoFillOf(Skipped(s, read), s.disk.tokenCoin.Keys)
    case Place(tok, c, _, _, _) =>
      if tok in s.proc.mem.tokenCoin then s.proc.mem.tokenCoin[tok] == c
      else NoFillOf(Seen(s.log, s.proc.cursor), {tok}) && NoFillOf(UpTo(s.log, s.proc.mem.lastTradeId), {tok})
    case _ => true
  }

  // ---- sequences of rows and fills ----

  lemma {:induction false} InOrderAppend(a: seq<Row>, b: seq<Row>)
    ensures InOrder(a + b) == InOrder(a) + InOrder(b)
    decreases |b|
  {
    if b == [] {
      assert a + b == a;
    } else {
      var b' := b[..|b| - 1];
      assert (a + b)[..|a + b| - 1] == a + b';
      InOrderAppend(a, b');
      ConcatAssoc(InOrder(a), InOrder(b'), b[|b| - 1].fills);
    }
  }

  lemma Split(log: seq<Row>, a: nat, b: nat, c: nat)
    requires a <= b <= c <= |log|
    ensures InOrder(log[a..c]) == InOrder(log[a..b]) + InOrder(log[b..c])
  {
    assert log[a..c] == log[a..b] + log[b..c];
    InOrderAppend(log[a..b], log[b..c]);
  }

  /** The cursor that stands at a position: the id of the row before it. */
  function Mark(log: seq<Row>, at: nat): Option<string>
    requires at <= |log|
  {
    if at == 0 then None else Some(log[at - 1].id)
  }

  /** Reading through the cursor at position `at` yields the rows after it. */
  lemma {:induction false} ReadFrom(log: seq<Row>, at: nat)
    requires Distinct(log) && at <= |log|
    ensures After(log, Mark(log, at)) == log[at..]
    decreases |log|
  {
    if |log| > at {
      var n := |log| - 1;
      ReadFrom(log[..n], at);
      assert Mark(log[..n], at) == Mark(log, at);
      assert log[at..] == log[..n][at..] + [log[n]];
    } else {
      assert log[at..] == [];
    }
  }

  lemma SeenTo(log: seq<Row>, at: nat)
    requires Distinct(log) && at <= |log|
    ensures Seen(log, Mark(log, at)) == log[..at]
  {
    ReadFrom(log, at);
  }

  lemma {:induction false} AllAfterBlank(log: seq<Row>)
    requires Distinct(log)
    ensures After(log, Some("")) == log
    decreases |log|
  {
    if log != [] { AllAfterBlank(log[..|log| - 1]); }
  }

  /** Where a watermark stands: at its row, or before the log. */
  ghost predicate AtMark(last: string, log: seq<Row>, at: nat) {
    if last == "" then at == 0 else 0 < at <= |log| && last == log[at - 1].id
  }

  lemma AfterWatermark(log: seq<Row>, last: string, at: nat)
    requires Distinct(log) && AtMark(last, log, at)
    ensures After(log, Some(last)) == log[at..] && UpTo(log, last) == log[..at]
  {
    if last == "" { AllAfterBlank(log); } else { ReadFrom(log, at); }
  }

  ghost predicate OneLegs(rows: seq<Row>) {
    forall i :: 0 <= i < |rows| ==> OneLeg(rows[i])
  }

  /** The row the oldest pending fill came from; no fill comes before it. */
  lemma {:induction false} FirstFill(rows: seq<Row>) returns (k: nat)
    requires OneLegs(rows) && InOrder(rows) != []
    ensures k < |rows| && InOrder(rows[..k]) == []
    ensures rows[k].fills == [InOrder(rows)[0]]
    ensures InOrder(rows[k + 1..]) == InOrder(rows)[1..]
    decreases |rows|
  {
    var n := |rows| - 1;
    var front, last := rows[..n], rows[n].fills;
    assert InOrder(rows) == InOrder(front) + last;
    if InOrder(front) == [] {
      k := n;
      assert InOrder(rows) == last && OneLeg(rows[n]);
      assert rows[n + 1..] == [];
    } else {
      assert OneLegs(front);
      k := FirstFill(front);
      DropLast(rows, k);
      assert InOrder(rows[k + 1..]) == InOrder(front[k + 1..]) + last;
    }
  }

  lemma DropLast(rows: seq<Row>, k: nat)
    requires k + 1 < |rows|
    ensures var n := |rows| - 1;
            && rows[..k] == rows[..n][..k] && rows[k] == rows[..n][k]
            && rows[k + 1..][..|rows[k + 1..]| - 1] == rows[..n][k + 1..]
            && rows[k + 1..][|rows[k + 1..]| - 1] == rows[n]
  {}

  lemma {:induction false} InOrderIds(rows: seq<Row>)
    requires OneLegs(rows)
    ensures forall f :: f in InOrder(rows) ==> exists i :: 0 <= i < |rows| && f.id == rows[i].id
    decreases |rows|
  {
    if rows != [] {
      InOrderIds(rows[..|rows| - 1]);
    }
  }

  // ---- replaying ----

  lemma {:induction false} ReplayKnows(st: HeldState, fills: seq<T.Fill>)
    ensures Replay(st, fills).tokenCoin == st.tokenCoin
  {
    if fills != [] { ReplayKnows(st, fills[..|fills| - 1]); }
  }

  /** Knowing more tokens changes nothing if none of the fills is theirs. */
  lemma {:induction false} ReplayForeign(a: HeldState, b: HeldState, fills: seq<T.Fill>)
    requires SameAmounts(a, b)
    requires forall f :: f in fills ==> (f.tokenId in a.tokenCoin <==> f.tokenId in b.tokenCoin)
    requires forall t :: t in a.tokenCoin && t in b.tokenCoin ==> a.tokenCoin[t] == b.tokenCoin[t]
    ensures SameAmounts(Replay(a, fills), Replay(b, fills))
  {
    if fills != [] {
      var front, f := fills[..|fills| - 1], fills[|fills| - 1];
      assert f in fills && forall g :: g in front ==> g in fills;
      ReplayForeign(a, b, front);
      ReplayKnows(a, front);
      ReplayKnows(b, front);
      IngestForeign(Replay(a, front), Replay(b, front), f);
    }
  }

  lemma IngestForeign(a: HeldState, b: HeldState, f: T.Fill)
    requires SameAmounts(a, b)
    requires f.tokenId in a.tokenCoin <==> f.tokenId in b.tokenCoin
    requires f.tokenId in a.tokenCoin ==> a.tokenCoin[f.tokenId] == b.tokenCoin[f.tokenId]
    ensures SameAmounts(Ingest(a, f), Ingest(b, f))
  {
    IngestShape(a, f);
    IngestShape(b, f);
  }

  lemma {:induction false} ReplayAppend(st: HeldState, fs: seq<T.Fill>, gs: seq<T.Fill>)
    ensures Replay(st, fs + gs) == Replay(Replay(st, fs), gs)
    decreases |gs|
  {
    if gs == [] {
      assert fs + gs == fs;
    } else {
      var gs' := gs[..|gs| - 1];
      assert (fs + gs)[..|fs + gs| - 1] == fs + gs';
      ReplayAppend(st, fs, gs');
    }
  }

  lemma {:induction false} ReplayNothingOurs(st: HeldState, fills: seq<T.Fill>)
    requires forall f :: f in fills ==> f.tokenId !in st.tokenCoin
    ensures SameAmounts(Replay(st, fills), st)
  {
    if fills != [] {
      ReplayNothingOurs(st, fills[..|fills| - 1]);
      ReplayKnows(st, fills[..|fills| - 1]);
      assert fills[|fills| - 1] in fills;
    }
  }

  lemma CreditMatches(exact: bool, a: HeldState, b: HeldState, tok: string, size: real)
    requires Matches(exact, a, b) && tok in a.tokenCoin
    ensures Matches(exact, Credit(a, tok, size), Credit(b, tok, size))
  {
    if !exact {
      var a', b', coin := Credit(a, tok, size), Credit(b, tok, size), a.tokenCoin[tok];
      assert forall c :: c != coin ==> Get(a'.coin, c) == Get(a.coin, c) && Get(b'.coin, c) == Get(b.coin, c);
      assert forall t :: t != tok ==> Get(a'.tokenHeld, t) == Get(a.tokenHeld, t) && Get(b'.tokenHeld, t) == Get(b.tokenHeld, t);
    }
  }

  function Ours(tokens: map<string, string>, f: T.Fill): bool {
    f.tokenId in tokens && f.side == "BUY"
  }

  lemma IngestShape(st: HeldState, f: T.Fill)
    ensures Ingest(st, f) ==
            (if Ours(st.tokenCoin, f) then Credit(st, f.tokenId, f.size) else st)
              .(lastTradeId := if f.id != "" then f.id else st.lastTradeId)
  {}

  lemma IngestMatches(exact: bool, a: HeldState, b: HeldState, f: T.Fill)
    requires Matches(exact, a, b)
    ensures Matches(exact, Ingest(a, f), Ingest(b, f))
  {
    IngestShape(a, f);
    IngestShape(b, f);
    if Ours(a.tokenCoin, f) { CreditMatches(exact, a, b, f.tokenId, f.size); }
  }

  lemma IngestAgain(a: HeldState, b: HeldState, f: T.Fill)
    requires Matches(false, a, b) && f.size >= 0.0
    ensures Matches(false, Ingest(a, f), b)
  {}

  lemma TruthKnows(rows: seq<Row>, tokens: map<string, string>)
    ensures Truth(rows, tokens).tokenCoin == tokens
  {
    ReplayKnows(EMPTY.(tokenCoin := tokens), InOrder(rows));
  }

  /** Truth stands still over a stretch without fills, and advances by one over one with one. */
  lemma TruthOver(log: seq<Row>, a: nat, b: nat, tokens: map<string, string>)
    requires a <= b <= |log| && |InOrder(log[a..b])| <= 1
    ensures Truth(log[..b], tokens)
         == if InOrder(log[a..b]) == [] then Truth(log[..a], tokens)
            else Ingest(Truth(log[..a], tokens), InOrder(log[a..b])[0])
  {
    Split(log, 0, a, b);
    assert log[0..a] == log[..a] && log[0..b] == log[..b];
    var fs, g := InOrder(log[..a]), InOrder(log[a..b]);
    if g == [] {
      assert fs + g == fs;
    } else {
      assert g == [g[0]] && (fs + g)[..|fs|] == fs && (fs + g)[|fs|] == g[0];
    }
  }

  // ---- the invariant ----

  /** Where things stand, as positions in the log: for the file and for memory, the row of the
      watermark (`at`) and the last row accounted for (`top`); the stretch still pending; and the
      row of the submitter's cursor. */
  datatype Track = Track(diskAt: nat, diskTop: nat, memAt: nat, memTop: nat, lo: nat, hi: nat, read: nat)

  /** No fill of these tokens in the stretch. */
  ghost predicate Idle(log: seq<Row>, a: nat, b: nat, tokens: map<string, string>)
    requires b <= |log|
  {
    a < b ==> NoFillOf(log[a..b], tokens.Keys)
  }

  ghost predicate Accounts(exact: bool, st: HeldState, log: seq<Row>, at: nat, top: nat) {
    && at <= top <= |log| && AtMark(st.lastTradeId, log, at)
    && (exact ==> Idle(log, at, top, st.tokenCoin))
    && Matches(exact, st, Truth(log[..top], st.tokenCoin))
  }

  ghost predicate CursorAt(cursor: Option<string>, log: seq<Row>, read: nat) {
    read <= |log| && cursor == Mark(log, read)
  }

  ghost predicate Quiet(log: seq<Row>, a: nat, b: nat)
    requires b <= |log|
  {
    a < b ==> InOrder(log[a..b]) == []
  }

  ghost predicate Tracked(exact: bool, log: seq<Row>, p: Proc, t: Track)
    requires p.Up?
  {
    && t.lo <= t.hi <= |log|
    && p.pending == InOrder(log[t.lo..t.hi])
    && Quiet(log, t.memTop, t.lo)
    && CursorAt(p.cursor, log, t.read)
    && (t.read <= t.memTop || t.read <= t.hi)
    && (exact ==> t.memTop <= t.lo && t.read == t.hi)
  }

  /** Everything accounted for has been passed by the cursor or by the watermark. */
  ghost predicate Passed(t: Track) {
    t.memTop <= t.read || (t.memTop == t.memAt && (t.memAt <= t.lo || t.lo == t.hi))
  }

  ghost predicate Inv(exact: bool, s: Sys, t: Track) {
    && Distinct(s.log) && OneLegs(s.log)
    && Accounts(exact, s.disk, s.log, t.diskAt, t.diskTop)
    && match s.proc
       case Down => true
       case Started(cursor) =>
         && CursorAt(cursor, s.log, t.read) && (t.read == 0 || t.diskAt <= t.read)
         && (exact ==> t.read == |s.log| || s.disk.lastTradeId == "")
       case Up(mem, _, _) =>
         Accounts(exact, mem, s.log, t.memAt, t.memTop) && Tracked(exact, s.log, s.proc, t) && Passed(t)
  }

  /** Appending a row leaves every recorded position meaning what it meant. */
  lemma AccountsStable(exact: bool, st: HeldState, log: seq<Row>, row: Row, at: nat, top: nat)
    requires Accounts(exact, st, log, at, top)
    ensures Accounts(exact, st, log + [row], at, top)
  {
    assert (log + [row])[..top] == log[..top] && (log + [row])[at..top] == log[at..top];
  }

  lemma TrackedStable(exact: bool, log: seq<Row>, row: Row, p: Proc, t: Track)
    requires p.Up? && Tracked(exact, log, p, t)
    ensures Tracked(exact, log + [row], p, t)
  {
    assert (log + [row])[t.lo..t.hi] == log[t.lo..t.hi];
    if t.memTop < t.lo { assert (log + [row])[t.memTop..t.lo] == log[t.memTop..t.lo]; }
  }

  lemma ArriveKeeps(exact: bool, s: Sys, t: Track, row: Row)
    requires Inv(exact, s, t) && Clean(s, Arrive(row), exact)
    ensures Inv(exact, Next(s, Arrive(row)), t)
  {
    AccountsStable(exact, s.disk, s.log, row, t.diskAt, t.diskTop);
    if s.proc.Up? {
      AccountsStable(exact, s.proc.mem, s.log, row, t.memAt, t.memTop);
      TrackedStable(exact, s.log, row, s.proc, t);
    }
  }

  lemma ConstructKeeps(exact: bool, s: Sys, t: Track, read: bool)
    requires Inv(exact, s, t) && s.proc.Down? && Clean(s, Construct(read), exact)
    ensures Inv(exact, Next(s, Construct(read)), t.(read := if read then |s.log| else 0))
  {}

  /** Over a stretch without a fill of a known token the truth stands still. */
  lemma IdleTruth(log: seq<Row>, a: nat, b: nat, tokens: map<string, string>)
    requires a <= b <= |log| && Idle(log, a, b, tokens)
    ensures SameAmounts(Truth(log[..b], tokens), Truth(log[..a], tokens))
  {
    if a < b {
      var st := Truth(log[..a], tokens);
      TruthKnows(log[..a], tokens);
      Split(log, 0, a, b);
      assert log[0..a] == log[..a] && log[0..b] == log[..b];
      ReplayAppend(EMPTY.(tokenCoin := tokens), InOrder(log[..a]), InOrder(log[a..b]));
      ReplayNothingOurs(st, InOrder(log[a..b]));
    }
  }

  /** And over any stretch it only grows. */
  lemma TruthGrows(log: seq<Row>, a: nat, b: nat, tokens: map<string, string>)
    requires a <= b <= |log| && OneLegs(log)
    ensures Matches(false, Truth(log[..b], tokens), Truth(log[..a], tokens))
  {
    Split(log, 0, a, b);
    assert log[0..a] == log[..a] && log[0..b] == log[..b];
    NoNegatives(log[a..b]);
    ReplayGrows(EMPTY.(tokenCoin := tokens), InOrder(log[..a]), InOrder(log[a..b]));
  }

  /** What holds of everything accounted for holds of what the watermark names. */
  lemma LowerTop(exact: bool, st: HeldState, log: seq<Row>, at: nat, top: nat)
    requires Accounts(exact, st, log, at, top) && OneLegs(log)
    ensures Accounts(exact, st, log, at, at)
  {
    TruthKnows(log[..at], st.tokenCoin);
    if exact {
      IdleTruth(log, at, top, st.tokenCoin);
    } else {
      TruthGrows(log, at, top, st.tokenCoin);
      DominatesTrans(st, Truth(log[..top], st.tokenCoin), Truth(log[..at], st.tokenCoin));
    }
  }

  lemma RaiseTop(exact: bool, st: HeldState, log: seq<Row>, at: nat, top: nat)
    requires Accounts(exact, st, log, at, at) && at <= top <= |log| && Idle(log, at, top, st.tokenCoin)
    ensures Accounts(exact, st, log, at, top)
  {
    TruthKnows(log[..top], st.tokenCoin);
    IdleTruth(log, at, top, st.tokenCoin);
  }

  lemma RecoverKeeps(exact: bool, s: Sys, t: Track, read: bool) returns (t': Track)
    requires Inv(exact, s, t) && s.proc.Started? && Clean(s, Recover(read), exact)
    ensures Inv(exact, Recovered(s, read), t')
  {
    LowerTop(exact, s.disk, s.log, t.diskAt, t.diskTop);
    if read && s.disk.lastTradeId != "" { t' := RecoverReads(exact, s, t); } else { t' := RecoverSkips(exact, s, t, read); }
  }

  lemma RecoverReads(exact: bool, s: Sys, t: Track) returns (t': Track)
    requires Inv(exact, s, t) && s.proc.Started? && s.disk.lastTradeId != ""
    requires Accounts(exact, s.disk, s.log, t.diskAt, t.diskAt)
    ensures Inv(exact, Recovered(s, true), t')
  {
    var log, n := s.log, |s.log|;
    t' := t.(memAt := t.diskAt, memTop := t.diskAt, lo := t.diskAt, hi := n);
    AfterWatermark(log, s.disk.lastTradeId, t.diskAt);
    assert log[t.diskAt..n] == log[t.diskAt..];
  }

  lemma RecoverSkips(exact: bool, s: Sys, t: Track, read: bool) returns (t': Track)
    requires Inv(exact, s, t) && s.proc.Started? && Clean(s, Recover(read), exact)
    requires !read || s.disk.lastTradeId == ""
    requires Accounts(exact, s.disk, s.log, t.diskAt, t.diskAt)
    ensures Inv(exact, Recovered(s, read), t')
  {
    var log, at := s.log, t.diskAt;
    var top := if at <= t.read then t.read else at;
    t' := t.(memAt := at, memTop := top, lo := t.read, hi := t.read);
    SkippedIdle(log, s.proc.cursor, t.read, s.disk.lastTradeId, at, top, s.disk.tokenCoin);
    RaiseTop(exact, s.disk, log, at, top);
    assert log[t.read..t.read] == [];
  }

  lemma SkippedIdle(log: seq<Row>, cursor: Option<string>, read: nat, last: string, at: nat, top: nat, tokens: map<string, string>)
    requires Distinct(log) && CursorAt(cursor, log, read) && AtMark(last, log, at)
    requires top == (if at <= read then read else at)
    requires NoFillOf(After(Seen(log, cursor), Some(last)), tokens.Keys)
    ensures top <= |log| && Idle(log, at, top, tokens)
  {
    SeenTo(log, read);
    if at < top {
      AfterWatermark(log[..read], last, at);
      assert log[..read][at..] == log[at..top];
    }
  }

  lemma PollTracked(exact: bool, log: seq<Row>, p: Proc, t: Track)
    requires p.Up? && Tracked(exact, log, p, t) && p.pending == [] && Distinct(log) && t.memTop <= |log|
    ensures After(log, p.cursor) == log[t.read..]
    ensures Tracked(exact, log, Up(p.mem, Newest(After(log, p.cursor), p.cursor), InOrder(After(log, p.cursor))),
                    t.(lo := t.read, hi := |log|, read := |log|))
  {
    ReadFrom(log, t.read);
    assert log[t.read..|log|] == log[t.read..];
    QuietBefore(log, t.memTop, t.lo, t.hi, t.read);
  }

  lemma PollKeeps(exact: bool, s: Sys, t: Track)
    requires Inv(exact, s, t) && s.proc.Up? && s.proc.pending == []
    ensures Inv(exact, Polled(s), t.(lo := t.read, hi := |s.log|, read := |s.log|))
  {
    PollTracked(exact, s.log, s.proc, t);
  }

  lemma QuietBefore(log: seq<Row>, top: nat, lo: nat, hi: nat, read: nat)
    requires lo <= hi <= |log| && (read <= top || read <= hi) && read <= |log|
    requires Quiet(log, top, lo) && InOrder(log[lo..hi]) == []
    ensures Quiet(log, top, read)
  {
    if read <= top {
    } else if read <= lo {
      Split(log, top, read, lo);
    } else {
      Split(log, lo, read, hi);
      if top < lo { Split(log, top, lo, read); } else { Split(log, lo, top, read); }
    }
  }

  /** The position reached by ingesting the oldest pending fill. */
  lemma Lands(log: seq<Row>, lo: nat, hi: nat) returns (p: nat)
    requires lo <= hi <= |log| && OneLegs(log) && InOrder(log[lo..hi]) != []
    ensures lo < p <= hi
    ensures log[p - 1].fills == [InOrder(log[lo..hi])[0]] && InOrder(log[lo..p - 1]) == []
    ensures InOrder(log[p..hi]) == InOrder(log[lo..hi])[1..]
  {
    assert OneLegs(log[lo..hi]);
    var k := FirstFill(log[lo..hi]);
    SliceOfSlice(log, lo, hi, k);
    p := lo + k + 1;
    assert log[lo..p - 1] == log[lo..lo + k] && log[p..hi] == log[lo + k + 1..hi];
  }

  lemma SliceOfSlice(log: seq<Row>, lo: nat, hi: nat, k: nat)
    requires lo + k < hi <= |log|
    ensures log[lo..hi][..k] == log[lo..lo + k]
    ensures log[lo..hi][k + 1..] == log[lo + k + 1..hi]
    ensures log[lo..hi][k] == log[lo + k]
  {}

  /** From the last accounted row to the landing row there is just the landing row's fill. */
  lemma JustOne(log: seq<Row>, top: nat, lo: nat, p: nat)
    requires lo < p <= |log| && top < p && |log[p - 1].fills| == 1
    requires Quiet(log, top, lo) && InOrder(log[lo..p - 1]) == []
    ensures InOrder(log[top..p]) == log[p - 1].fills
  {
    QuietUpTo(log, top, lo, p - 1);
    Split(log, top, p - 1, p);
    assert log[p - 1..p] == [log[p - 1]];
    OneRow(log[p - 1]);
  }

  lemma QuietUpTo(log: seq<Row>, top: nat, lo: nat, n: nat)
    requires lo <= n <= |log| && top <= n && Quiet(log, top, lo) && InOrder(log[lo..n]) == []
    ensures InOrder(log[top..n]) == []
  {
    if top < lo { Split(log, top, lo, n); } else { Split(log, lo, top, n); }
  }

  lemma OneRow(r: Row)
    ensures InOrder([r]) == r.fills
  {
    assert [r][..0] == [];
  }

  lemma IngestTracked(exact: bool, log: seq<Row>, p: Proc, mem': HeldState, t: Track, t': Track)
    requires p.Up? && Tracked(exact, log, p, t) && p.pending != []
    requires t.lo < t'.lo <= t.hi && InOrder(log[t'.lo..t.hi]) == p.pending[1..]
    requires t'.memTop == (if t'.lo > t.memTop then t'.lo else t.memTop) && t'.hi == t.hi && t'.read == t.read
    ensures Tracked(exact, log, Up(mem', p.cursor, p.pending[1..]), t')
  {}

  /** Where things stand once the oldest pending fill, landing at p, has been ingested. */
  function Landed(t: Track, p: nat, saved: bool): Track {
    var top := if p > t.memTop then p else t.memTop;
    t.(memAt := p, memTop := top, lo := p,
       diskAt := if saved then p else t.diskAt, diskTop := if saved then top else t.diskTop)
  }

  lemma PassedNext(t: Track, p: nat, saved: bool)
    requires Passed(t) && t.lo < p <= t.hi
    ensures Passed(Landed(t, p, saved))
  {}

  /** The memory side of an ingest. */
  lemma IngestMem(exact: bool, log: seq<Row>, pr: Proc, t: Track, p: nat)
    requires pr.Up? && pr.pending != [] && Distinct(log) && OneLegs(log)
    requires Accounts(exact, pr.mem, log, t.memAt, t.memTop) && Tracked(exact, log, pr, t)
    requires t.lo < p <= t.hi && log[p - 1].fills == [pr.pending[0]] && InOrder(log[t.lo..p - 1]) == []
    ensures Accounts(exact, Ingest(pr.mem, pr.pending[0]), log, p, if p > t.memTop then p else t.memTop)
  {
    assert OneLeg(log[p - 1]);
    AccountsNext(exact, pr.mem, log, t.memAt, t.memTop, t.lo, p);
  }

  lemma IngestKeepsInv(exact: bool, s: Sys, t: Track, saved: bool) returns (t': Track)
    requires Inv(exact, s, t) && s.proc.Up? && s.proc.pending != []
    ensures Inv(exact, Ingested(s, saved), t')
  {
    var p := Lands(s.log, t.lo, t.hi);
    t' := Landed(t, p, saved);
    IngestMem(exact, s.log, s.proc, t, p);
    PassedNext(t, p, saved);
    var mem' := Ingest(s.proc.mem, s.proc.pending[0]);
    IngestTracked(exact, s.log, s.proc, mem', t, t');
    WithMemKeeps(exact, s, mem', s.proc.pending[1..], saved, t');
  }

  lemma WithMemKeeps(exact: bool, s: Sys, mem: HeldState, pending: seq<T.Fill>, saved: bool, t: Track)
    requires Distinct(s.log) && OneLegs(s.log) && s.proc.Up?
    requires Accounts(exact, if saved then mem else s.disk, s.log, t.diskAt, t.diskTop)
    requires Accounts(exact, mem, s.log, t.memAt, t.memTop)
    requires Tracked(exact, s.log, Up(mem, s.proc.cursor, pending), t) && Passed(t)
    ensures Inv(exact, WithMem(s, mem, pending, saved), t)
  {}

  lemma AccountsNext(exact: bool, mem: HeldState, log: seq<Row>, at: nat, top: nat, lo: nat, p: nat)
    requires Accounts(exact, mem, log, at, top) && Distinct(log)
    requires lo < p <= |log| && |log[p - 1].fills| == 1 && OneLeg(log[p - 1])
    requires Quiet(log, top, lo) && InOrder(log[lo..p - 1]) == [] && (exact ==> top <= lo)
    ensures Accounts(exact, Ingest(mem, log[p - 1].fills[0]), log, p, if p > top then p else top)
  {
    var f := log[p - 1].fills[0];
    assert f in log[p - 1].fills;
    IngestMarks(mem, f);
    if p > top {
      NextMatches(exact, mem, log, top, lo, p);
      MarkedAccounts(exact, Ingest(mem, f), log, p, p);
    } else {
      TruthKnows(log[..top], mem.tokenCoin);
      IngestAgain(mem, Truth(log[..top], mem.tokenCoin), f);
      MarkedAccounts(exact, Ingest(mem, f), log, p, top);
    }
  }

  lemma IngestMarks(mem: HeldState, f: T.Fill)
    ensures Ingest(mem, f).tokenCoin == mem.tokenCoin
    ensures f.id != "" ==> Ingest(mem, f).lastTradeId == f.id
  {
    IngestShape(mem, f);
  }

  lemma MarkedAccounts(exact: bool, st: HeldState, log: seq<Row>, at: nat, top: nat)
    requires 0 < at <= top <= |log| && st.lastTradeId == log[at - 1].id != "" && (exact ==> at == top)
    requires Matches(exact, st, Truth(log[..top], st.tokenCoin))
    ensures Accounts(exact, st, log, at, top)
  {}

  lemma NextMatches(exact: bool, mem: HeldState, log: seq<Row>, top: nat, lo: nat, p: nat)
    requires top < p && lo < p <= |log| && |log[p - 1].fills| == 1
    requires Matches(exact, mem, Truth(log[..top], mem.tokenCoin))
    requires Quiet(log, top, lo) && InOrder(log[lo..p - 1]) == []
    ensures Matches(exact, Ingest(mem, log[p - 1].fills[0]), Truth(log[..p], mem.tokenCoin))
  {
    JustOne(log, top, lo, p);
    TruthOver(log, top, p, mem.tokenCoin);
    IngestMatches(exact, mem, Truth(log[..top], mem.tokenCoin), log[p - 1].fills[0]);
  }

  lemma PlaceKeeps(exact: bool, s: Sys, t: Track, tok: string, c: string, note: string, touch: bool, saved: bool)
    returns (t': Track)
    requires Inv(exact, s, t) && s.proc.Up? && s.proc.pending == []
    requires Clean(s, Place(tok, c, note, touch, saved), exact)
    ensures Inv(exact, WithMem(s, Register(s.proc.mem, tok, c, note, touch), [], saved), t')
  {
    var mem := s.proc.mem;
    var mem' := Register(mem, tok, c, note, touch);
    if tok in mem.tokenCoin {
      assert mem'.tokenCoin == mem.tokenCoin;
    } else {
      NothingPassed(exact, s, t, tok);
      TruthForeign(s.log[..t.memTop], mem.tokenCoin, tok, c);
      IdleToo(s.log, t.memAt, t.memTop, mem.tokenCoin, tok, c);
      TruthKnows(s.log[..t.memTop], mem'.tokenCoin);
    }
    t' := if saved then t.(diskAt := t.memAt, diskTop := t.memTop) else t;
    assert Accounts(exact, mem', s.log, t.memAt, t.memTop);
    WithMemKeeps(exact, s, mem', [], saved, t');
  }

  lemma NoFillOfPrefix(log: seq<Row>, a: nat, b: nat, toks: set<string>)
    requires a <= b <= |log| && NoFillOf(log[..b], toks)
    ensures NoFillOf(log[..a], toks) && NoFillOf(log[a..b], toks)
  {
    Split(log, 0, a, b);
    assert log[0..a] == log[..a] && log[0..b] == log[..b];
    assert forall f :: f in InOrder(log[..a]) || f in InOrder(log[a..b]) ==> f in InOrder(log[..b]);
  }

  /** A token neither the cursor nor the watermark has passed is new to everything accounted for. */
  lemma NothingPassed(exact: bool, s: Sys, t: Track, tok: string)
    requires Inv(exact, s, t) && s.proc.Up?
    requires NoFillOf(Seen(s.log, s.proc.cursor), {tok}) && NoFillOf(UpTo(s.log, s.proc.mem.lastTradeId), {tok})
    ensures NoFillOf(s.log[..t.memTop], {tok})
  {
    if t.memTop <= t.read {
      SeenTo(s.log, t.read);
      NoFillOfPrefix(s.log, t.memTop, t.read, {tok});
    } else {
      AfterWatermark(s.log, s.proc.mem.lastTradeId, t.memAt);
    }
  }

  lemma IdleToo(log: seq<Row>, at: nat, top: nat, tokens: map<string, string>, tok: string, c: string)
    requires at <= top <= |log| && NoFillOf(log[..top], {tok})
    ensures Idle(log, at, top, tokens) ==> Idle(log, at, top, tokens[tok := c])
  {
    NoFillOfPrefix(log, at, top, {tok});
  }

  /** A token registered before its first fill leaves the truth so far as it was. */
  lemma TruthForeign(rows: seq<Row>, tokens: map<string, string>, tok: string, c: string)
    requires tok !in tokens && NoFillOf(rows, {tok})
    ensures SameAmounts(Truth(rows, tokens), Truth(rows, tokens[tok := c]))
  {
    ReplayForeign(EMPTY.(tokenCoin := tokens), EMPTY.(tokenCoin := tokens[tok := c]), InOrder(rows));
  }

  lemma StepKeeps(exact: bool, s: Sys, t: Track, e: Event) returns (t': Track)
    requires Inv(exact, s, t) && Enabled(s, e) && Clean(s, e, exact)
    ensures Inv(exact, Next(s, e), t')
  {
    t' := t;
    match e
    case Arrive(row) => ArriveKeeps(exact, s, t, row);
    case Construct(read) => ConstructKeeps(exact, s, t, read); t' := t.(read := if read then |s.log| else 0);
    case Recover(read) => t' := RecoverKeeps(exact, s, t, read);
    case Poll(read) => if read { PollKeeps(exact, s, t); t' := t.(lo := t.read, hi := |s.log|, read := |s.log|); }
    case IngestNext(saved) => t' := IngestKeepsInv(exact, s, t, saved);
    case Place(tok, c, note, touch, saved) => t' := PlaceKeeps(exact, s, t, tok, c, note, touch, saved);
    case Crash =>
  }

  // ---- whole runs ----

  ghost predicate CleanRun(s: Sys, events: seq<Event>, exact: bool)
    decreases |events|
  {
    events == [] ||
    (Enabled(s, events[0]) && Clean(s, events[0], exact) && CleanRun(Next(s, events[0]), events[1..], exact))
  }

  ghost function Run(s: Sys, events: seq<Event>): Sys
    decreases |events|
  {
    if events == [] || !Enabled(s, events[0]) then s else Run(Next(s, events[0]), events[1..])
  }

  lemma {:induction false} RunKeeps(exact: bool, s: Sys, t: Track, events: seq<Event>) returns (t': Track)
    requires Inv(exact, s, t) && CleanRun(s, events, exact)
    ensures Inv(exact, Run(s, events), t')
    decreases |events|
  {
    t' := t;
    if events != [] {
      var t1 := StepKeeps(exact, s, t, events[0]);
      t' := RunKeeps(exact, Next(s, events[0]), t1, events[1..]);
    }
  }

  /** A first start: an old log, no state file. */
  ghost predicate Initial(s: Sys) {
    Distinct(s.log) && OneLegs(s.log) && s.disk == EMPTY && s.proc.Down?
  }

  lemma {:induction false} ReplayGrows(st: HeldState, fs: seq<T.Fill>, gs: seq<T.Fill>)
    requires forall f :: f in gs ==> f.size >= 0.0
    ensures Matches(false, Replay(st, fs + gs), Replay(st, fs))
    decreases |gs|
  {
    ReplayKnows(st, fs);
    if gs == [] {
      assert fs + gs == fs;
    } else {
      var gs' := gs[..|gs| - 1];
      assert (fs + gs)[..|fs + gs| - 1] == fs + gs' && gs[|gs| - 1] in gs;
      ReplayGrows(st, fs, gs');
      IngestAgain(Replay(st, fs + gs'), Replay(st, fs), gs[|gs| - 1]);
    }
  }

  lemma {:induction false} NoNegatives(rows: seq<Row>)
    requires OneLegs(rows)
    ensures forall f :: f in InOrder(rows) ==> f.size >= 0.0
    decreases |rows|
  {
    if rows != [] { NoNegatives(rows[..|rows| - 1]); }
  }

  lemma DominatesTrans(a: HeldState, b: HeldState, c: HeldState)
    requires Matches(false, a, b) && Matches(false, b, c)
    ensures Matches(false, a, c)
  {}

  /** What the positions say, said with the watermark's id alone. */
  lemma AtWatermark(exact: bool, st: HeldState, log: seq<Row>, at: nat, top: nat)
    requires Accounts(exact, st, log, at, top) && Distinct(log) && OneLegs(log)
    ensures Matches(exact, st, Truth(UpTo(log, st.lastTradeId), st.tokenCoin))
  {
    AfterWatermark(log, st.lastTradeId, at);
    LowerTop(exact, st, log, at, top);
  }

  /** After every clean run, the file holds exactly the fold of all our fills up to and including
      its watermark, and so do the books in memory. With arrivals allowed between construction and
      recovery, and with first polls that fail, they hold at least that. */
  lemma Watermark(exact: bool, s: Sys, events: seq<Event>)
    requires Initial(s) && CleanRun(s, events, exact)
    ensures var e := Run(s, events);
            Matches(exact, e.disk, Truth(UpTo(e.log, e.disk.lastTradeId), e.disk.tokenCoin))
    ensures var e := Run(s, events);
            e.proc.Up? ==> Matches(exact, e.proc.mem, Truth(UpTo(e.log, e.proc.mem.lastTradeId), e.proc.mem.tokenCoin))
  {
    var t0 := Track(0, 0, 0, 0, 0, 0, 0);
    assert s.log[..0] == [];
    var t := RunKeeps(exact, s, t0, events);
    var e := Run(s, events);
    AtWatermark(exact, e.disk, e.log, t.diskAt, t.diskTop);
    if e.proc.Up? { AtWatermark(exact, e.proc.mem, e.log, t.memAt, t.memTop); }
  }

  // ---- where the assumptions bite, and by how much ----

  /** What these fills add to the total held. */
  function Bought(tokens: map<string, string>, fills: seq<T.Fill>): real {
    if fills == [] then 0.0
    else
      var f := fills[|fills| - 1];
      Bought(tokens, fills[..|fills| - 1]) + (if Ours(tokens, f) then f.size else 0.0)
  }

  lemma {:induction false} ReplayTotal(st: HeldState, fills: seq<T.Fill>)
    ensures Replay(st, fills).total == st.total + Bought(st.tokenCoin, fills)
  {
    if fills != [] {
      var front := fills[..|fills| - 1];
      ReplayTotal(st, front);
      ReplayKnows(st, front);
      IngestShape(Replay(st, front), fills[|fills| - 1]);
    }
  }

  lemma {:induction false} BoughtAppend(tokens: map<string, string>, a: seq<T.Fill>, b: seq<T.Fill>)
    ensures Bought(tokens, a + b) == Bought(tokens, a) + Bought(tokens, b)
    decreases |b|
  {
    if b == [] {
      assert a + b == a;
    } else {
      assert (a + b)[..|a + b| - 1] == a + b[..|b| - 1];
      BoughtAppend(tokens, a, b[..|b| - 1]);
    }
  }

  /** Ingests everything pending, every save succeeding. */
  function Drained(s: Sys): (d: Sys)
    requires s.proc.Up?
    ensures d.proc.Up?
    decreases |s.proc.pending|
  {
    if s.proc.pending == [] then s else Drained(Ingested(s, true))
  }

  lemma {:induction false} DrainedTotal(s: Sys)
    requires s.proc.Up?
    ensures var d := Drained(s);
            && d.proc.Up? && d.proc.pending == [] && d.log == s.log && d.proc.cursor == s.proc.cursor
            && d.proc.mem.tokenCoin == s.proc.mem.tokenCoin
            && d.proc.mem.total == s.proc.mem.total + Bought(s.proc.mem.tokenCoin, s.proc.pending)
    decreases |s.proc.pending|
  {
    if s.proc.pending != [] {
      var f := s.proc.pending[0];
      DrainedTotal(Ingested(s, true));
      IngestShape(s.proc.mem, f);
      assert s.proc.pending == [f] + s.proc.pending[1..];
      BoughtAppend(s.proc.mem.tokenCoin, [f], s.proc.pending[1..]);
      OneBought(s.proc.mem.tokenCoin, f);
    }
  }

  /** One life of the process: it is made while `gap` has yet to arrive, recovers after it has,
      and polls once more. The first poll and the catch-up may fail. */
  function Life(s: Sys, gap: seq<Row>, first: bool, caught: bool): (d: Sys)
    requires s.proc.Down?
    ensures d.proc.Up?
  {
    var made := Next(s, Construct(first));
    Drained(Polled(Drained(Recovered(made.(log := made.log + gap), caught))))
  }

  /** What it ends with: the file, what the catch-up read, and what the poll read. */
  lemma LifeTotal(s: Sys, gap: seq<Row>, first: bool, caught: bool)
    requires s.proc.Down? && Distinct(s.log + gap)
    ensures var log, last, tokens := s.log + gap, s.disk.lastTradeId, s.disk.tokenCoin;
            Life(s, gap, first, caught).proc.mem.total
            == s.disk.total
             + (if caught && last != "" then Bought(tokens, InOrder(After(log, Some(last)))) else 0.0)
             + Bought(tokens, InOrder(if first then gap else log))
  {
    var log, n := s.log + gap, if first then |s.log| else 0;
    assert n > 0 ==> log[n - 1] == s.log[n - 1];
    assert Mark(log, n) == if first then Newest(s.log, None) else None;
    ReadFrom(log, n);
    assert log[n..] == if first then gap else log;
    var r := Recovered(Next(s, Construct(first)).(log := log), caught);
    DrainedTotal(r);
    DrainedTotal(Polled(Drained(r)));
  }

  lemma TruthTotal(log: seq<Row>, at: nat, tokens: map<string, string>)
    requires at <= |log|
    ensures Truth(log, tokens).total == Bought(tokens, InOrder(log))
    ensures Bought(tokens, InOrder(log)) == Bought(tokens, InOrder(log[..at])) + Bought(tokens, InOrder(log[at..]))
  {
    ReplayTotal(EMPTY.(tokenCoin := tokens), InOrder(log));
    assert log == log[..at] + log[at..];
    InOrderAppend(log[..at], log[at..]);
    BoughtAppend(tokens, InOrder(log[..at]), InOrder(log[at..]));
  }

  /** Down, with a file that is exact at its watermark. */
  ghost predicate SoundAt(s: Sys, at: nat) {
    && s.proc.Down? && 0 < at <= |s.log| && s.disk.lastTradeId == s.log[at - 1].id
    && Matches(true, s.disk, Truth(s.log[..at], s.disk.tokenCoin))
  }

  lemma SoundTotals(s: Sys, gap: seq<Row>, at: nat)
    requires SoundAt(s, at) && Distinct(s.log + gap)
    ensures var log, tokens := s.log + gap, s.disk.tokenCoin;
            && s.disk.lastTradeId != "" && After(log, Some(s.disk.lastTradeId)) == s.log[at..] + gap
            && s.disk.total == Bought(tokens, InOrder(s.log[..at]))
            && Bought(tokens, InOrder(s.log[at..] + gap)) == Bought(tokens, InOrder(s.log[at..])) + Bought(tokens, InOrder(gap))
            && Truth(log, tokens).total
               == Bought(tokens, InOrder(s.log[..at])) + Bought(tokens, InOrder(s.log[at..])) + Bought(tokens, InOrder(gap))
  {
    var log, tokens, n := s.log + gap, s.disk.tokenCoin, |s.log|;
    assert log[at - 1] == s.log[at - 1] && log[..at] == s.log[..at] && log[at..] == s.log[at..] + gap;
    AfterWatermark(log, s.disk.lastTradeId, at);
    TruthTotal(log, at, tokens);
    TruthTotal(log[..at], 0, tokens);
    var rest := s.log[at..] + gap;
    assert rest[..n - at] == s.log[at..] && rest[n - at..] == gap;
    TruthTotal(rest, n - at, tokens);
  }

  /** A life from a sound file, in the terms of what the file held, what was missed and the gap. */
  lemma LifeOfSound(s: Sys, gap: seq<Row>, at: nat, first: bool, caught: bool)
    requires SoundAt(s, at) && Distinct(s.log + gap)
    ensures var tokens := s.disk.tokenCoin;
            var truth, missed, late := Truth(s.log + gap, tokens).total, Bought(tokens, InOrder(s.log[at..])), Bought(tokens, InOrder(gap));
            && truth == s.disk.total + missed + late
            && Life(s, gap, first, caught).proc.mem.total
               == s.disk.total + (if caught then missed + late else 0.0) + if first then late else truth
  {
    SoundTotals(s, gap, at);
    LifeTotal(s, gap, first, caught);
    TruthTotal(s.log + gap, 0, s.disk.tokenCoin);
  }

  /** A life from a sound file counts the fills of the gap twice and nothing else: the books end
      exact if and only if the gap bought nothing of ours. */
  lemma GapIsCountedTwice(s: Sys, gap: seq<Row>, at: nat)
    requires SoundAt(s, at) && Distinct(s.log + gap)
    ensures var held, tokens := Life(s, gap, true, true).proc.mem.total, s.disk.tokenCoin;
            && held == Truth(s.log + gap, tokens).total + Bought(tokens, InOrder(gap))
            && (held == Truth(s.log + gap, tokens).total <==> Bought(tokens, InOrder(gap)) == 0.0)
  {
    LifeOfSound(s, gap, at, true, true);
  }

  /** A catch-up whose read fails loses what was missed for good: the cursor has passed it, and the
      next fill moves the watermark past it. Exact if and only if nothing of ours was missed. */
  lemma FailedCatchUpLosesTheMissed(s: Sys, gap: seq<Row>, at: nat)
    requires SoundAt(s, at) && Distinct(s.log + gap)
    ensures var held, tokens := Life(s, gap, true, false).proc.mem.total, s.disk.tokenCoin;
            && held == Truth(s.log + gap, tokens).total - Bought(tokens, InOrder(s.log[at..]))
            && (held == Truth(s.log + gap, tokens).total <==> Bought(tokens, InOrder(s.log[at..])) == 0.0)
  {
    LifeOfSound(s, gap, at, true, false);
  }

  /** A first poll that fails leaves no cursor, and the next one reads the whole log again: after a
      catch-up everything is counted twice. */
  lemma FailedFirstPollRereads(s: Sys, gap: seq<Row>, at: nat)
    requires SoundAt(s, at) && Distinct(s.log + gap)
    ensures var held, tokens := Life(s, gap, false, true).proc.mem.total, s.disk.tokenCoin;
            && held == Truth(s.log + gap, tokens).total + Bought(tokens, InOrder(s.log + gap))
            && (held == Truth(s.log + gap, tokens).total <==> Bought(tokens, InOrder(s.log + gap)) == 0.0)
  {
    LifeOfSound(s, gap, at, false, true);
    TruthTotal(s.log + gap, 0, s.disk.tokenCoin);
  }

  /** When both fail, only what the file already held is counted twice. */
  lemma BothReadsFail(s: Sys, gap: seq<Row>, at: nat)
    requires SoundAt(s, at) && Distinct(s.log + gap)
    ensures var held, tokens := Life(s, gap, false, false).proc.mem.total, s.disk.tokenCoin;
            && held == Truth(s.log + gap, tokens).total + s.disk.total
            && (held == Truth(s.log + gap, tokens).total <==> s.disk.total == 0.0)
  {
    LifeOfSound(s, gap, at, false, false);
  }

  /** A life that starts with an empty watermark never sees what the log already held: the books
      end exact if and only if that past bought nothing of ours. If the first poll fails, nothing
      is past, and they end exact. */
  lemma EmptyWatermarkSkipsThePast(s: Sys, later: seq<Row>, caught: bool)
    requires s.proc.Down? && Distinct(s.log + later)
    requires s.disk.lastTradeId == "" && SameAmounts(s.disk, EMPTY)
    ensures var held, tokens := Life(s, later, true, caught).proc.mem.total, s.disk.tokenCoin;
            && held == Truth(s.log + later, tokens).total - Bought(tokens, InOrder(s.log))
            && (held == Truth(s.log + later, tokens).total <==> Bought(tokens, InOrder(s.log)) == 0.0)
    ensures Life(s, later, false, caught).proc.mem.total == Truth(s.log + later, s.disk.tokenCoin).total
  {
    var log, n := s.log + later, |s.log|;
    assert log[..n] == s.log && log[n..] == later;
    LifeTotal(s, later, true, caught);
    LifeTotal(s, later, false, caught);
    TruthTotal(log, n, s.disk.tokenCoin);
  }

  // ---- a crash inside a row ----

  /** The next fills ingested one by one, every save succeeding. */
  function IngestedMany(s: Sys, n: nat): (d: Sys)
    requires s.proc.Up? && n <= |s.proc.pending|
    ensures d.proc.Up? && d.proc.pending == s.proc.pending[n..]
    decreases n
  {
    if n == 0 then s else Ingested(IngestedMany(s, n - 1), true)
  }

  lemma {:induction false} IngestedManyTotal(s: Sys, n: nat)
    requires s.proc.Up? && n <= |s.proc.pending|
    ensures var d, tokens := IngestedMany(s, n), s.proc.mem.tokenCoin;
            && d.log == s.log && d.proc.mem.tokenCoin == tokens
            && d.proc.mem.total == s.proc.mem.total + Bought(tokens, s.proc.pending[..n])
            && (n > 0 ==> d.disk == d.proc.mem)
            && (n > 0 && s.proc.pending[n - 1].id != "" ==> d.disk.lastTradeId == s.proc.pending[n - 1].id)
    decreases n
  {
    if n == 0 {
      assert s.proc.pending[..0] == [];
    } else {
      var before, f := IngestedMany(s, n - 1), s.proc.pending[n - 1];
      IngestedManyTotal(s, n - 1);
      assert before.proc.pending[0] == f;
      IngestShape(before.proc.mem, f);
      assert s.proc.pending[..n][..n - 1] == s.proc.pending[..n - 1];
    }
  }

  /** A process that dies after n of its pending fills. */
  function CrashedMidRow(s: Sys, n: nat): Sys
    requires s.proc.Up? && n <= |s.proc.pending|
  {
    IngestedMany(s, n).(proc := Down)
  }

  /** Legs of ours in one row share its id. A crash among them loses the rest of the row for good:
      the watermark already names the row, so the catch-up starts after it. The next life ends
      exact if and only if the rest bought nothing. */
  lemma CrashAmongLegsLosesTheRest(s: Sys, at: nat, n: nat)
    requires s.proc.Up? && Distinct(s.log) && 0 < at <= |s.log| && s.log[at - 1].fills <= s.proc.pending
    requires 0 < n <= |s.log[at - 1].fills| && forall f :: f in s.log[at - 1].fills ==> f.id == s.log[at - 1].id
    requires s.proc.mem.total == Bought(s.proc.mem.tokenCoin, InOrder(s.log[..at - 1]))
    ensures var tokens, rest := s.proc.mem.tokenCoin, s.log[at - 1].fills[n..];
            var held := Life(CrashedMidRow(s, n), [], true, true).proc.mem.total;
            && held == Truth(s.log, tokens).total - Bought(tokens, rest)
            && (held == Truth(s.log, tokens).total <==> Bought(tokens, rest) == 0.0)
  {
    var d, legs := CrashedMidRow(s, n), s.log[at - 1].fills;
    assert s.proc.pending[..n] == legs[..n] && s.proc.pending[n - 1] == legs[n - 1] && legs[n - 1] in legs;
    IngestedManyTotal(s, n);
    assert legs == legs[..n] + legs[n..];
    LifeFromMidRow(d, at, legs[..n], legs[n..]);
  }

  lemma LifeFromMidRow(s: Sys, at: nat, a: seq<T.Fill>, b: seq<T.Fill>)
    requires s.proc.Down? && Distinct(s.log) && 0 < at <= |s.log| && s.log[at - 1].fills == a + b
    requires s.disk.lastTradeId == s.log[at - 1].id
    requires s.disk.total == Bought(s.disk.tokenCoin, InOrder(s.log[..at - 1])) + Bought(s.disk.tokenCoin, a)
    ensures Life(s, [], true, true).proc.mem.total == Truth(s.log, s.disk.tokenCoin).total - Bought(s.disk.tokenCoin, b)
  {
    assert s.log + [] == s.log && s.log[at - 1].id != "";
    AfterWatermark(s.log, s.disk.lastTradeId, at);
    LifeTotal(s, [], true, true);
    RowTotals(s.log, at, s.disk.tokenCoin, a, b);
  }

  lemma RowTotals(log: seq<Row>, at: nat, tokens: map<string, string>, a: seq<T.Fill>, b: seq<T.Fill>)
    requires 0 < at <= |log| && log[at - 1].fills == a + b
    ensures Truth(log, tokens).total
         == Bought(tokens, InOrder(log[..at - 1])) + Bought(tokens, a) + Bought(tokens, b) + Bought(tokens, InOrder(log[at..]))
  {
    TruthTotal(log, at, tokens);
    assert log[..at][..at - 1] == log[..at - 1];
    BoughtAppend(tokens, InOrder(log[..at - 1]), a + b);
    BoughtAppend(tokens, a, b);
  }

  // ---- an order that is registered late ----

  /** An order whose placement seems to fail is not registered, though it may rest at the venue.
      Its fills are read as foreign and the watermark passes them. Registering the token later
      does not bring them back: what is missing is what the rows already passed bought of it, and
      the books are exact if and only if that is nothing. */
  lemma LateRegistrationMisses(mem: HeldState, rows: seq<Row>, tok: string, c: string, note: string, touch: bool)
    requires Matches(true, mem, Truth(rows, mem.tokenCoin)) && tok !in mem.tokenCoin
    ensures var later := Register(mem, tok, c, note, touch);
            && later.total == Truth(rows, later.tokenCoin).total - Bought(map[tok := c], InOrder(rows))
            && (later.total == Truth(rows, later.tokenCoin).total <==> Bought(map[tok := c], InOrder(rows)) == 0.0)
  {
    ReplayTotal(EMPTY.(tokenCoin := mem.tokenCoin), InOrder(rows));
    ReplayTotal(EMPTY.(tokenCoin := mem.tokenCoin[tok := c]), InOrder(rows));
    BoughtOfOneMore(mem.tokenCoin, tok, c, InOrder(rows));
  }

  lemma {:induction false} BoughtOfOneMore(tokens: map<string, string>, tok: string, c: string, fills: seq<T.Fill>)
    requires tok !in tokens
    ensures Bought(tokens[tok := c], fills) == Bought(tokens, fills) + Bought(map[tok := c], fills)
  {
    if fills != [] { BoughtOfOneMore(tokens, tok, c, fills[..|fills| - 1]); }
  }

  lemma OneBought(tokens: map<string, string>, f: T.Fill)
    ensures Bought(tokens, [f]) == if Ours(tokens, f) then f.size else 0.0
  {
    assert [f][..0] == [];
  }
}
