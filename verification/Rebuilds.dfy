// The rebuild from the chain inside the crash protocol of cpp/apps/tail_vendor_main.cpp: at startup it
// comes before the catch-up, and in every scan before the poll, so what the chain already shows may
// be read once more.
module Rebuilds {
  import opened Common
  import opened Held
  import opened Sums
  import opened Recovery
  import T = Trades

  /** The registry of the tokens already held: those a rebuild looks up on the chain. */
  function Known(st: HeldState): map<string, string> {
    map t | t in st.tokenCoin && t in st.tokenHeld :: st.tokenCoin[t]
  }

  /** What there is of the tokens already held after more fills. */
  function Later(st: HeldState, fills: seq<T.Fill>): map<string, real> {
    Only(Replay(st, fills).tokenHeld, st.tokenHeld.Keys)
  }

  /** The chain shows that of every one of them. */
  ghost predicate ShowsLater(chain: map<string, real>, st: HeldState, fills: seq<T.Fill>) {
    forall t :: t in st.tokenHeld ==> OnChain(chain, t) == Get(Replay(st, fills).tokenHeld, t)
  }

  /** Amounts too small for a rebuild to keep. */
  function Dust(held: map<string, real>): map<string, real> {
    map t | t in held && held[t] < 0.5 :: held[t]
  }

  /** The books after reconciling, skipped or not. */
  ghost function Rebooked(st: HeldState, funder: string, chain: map<string, real>): HeldState {
    if Skips(st, funder, chain) then st else RebuiltState(st, chain)
  }

  /** What a rebuild adds that is still going to be read: what the fills bought of tokens already
      held, less the dust it drops. A first fill of a token adds nothing. */
  ghost function Recount(st: HeldState, funder: string, chain: map<string, real>, fills: seq<T.Fill>): real {
    if Skips(st, funder, chain) then 0.0 else Bought(Known(st), fills) - Sum(Dust(Later(st, fills)))
  }

  lemma {:induction false} LaterSum(st: HeldState, fills: seq<T.Fill>)
    ensures Later(st, fills).Keys == st.tokenHeld.Keys
    ensures Sum(Later(st, fills)) == Sum(st.tokenHeld) + Bought(Known(st), fills)
  {
    if fills == [] {
      assert Later(st, fills) == st.tokenHeld;
    } else {
      var front, f := fills[..|fills| - 1], fills[|fills| - 1];
      LaterSum(st, front);
      ReplayKnows(st, front);
      LaterNext(st, Replay(st, front), f);
    }
  }

  lemma LaterNext(st: HeldState, now: HeldState, f: T.Fill)
    requires now.tokenCoin == st.tokenCoin && st.tokenHeld.Keys <= now.tokenHeld.Keys
    ensures st.tokenHeld.Keys <= Ingest(now, f).tokenHeld.Keys
    ensures Sum(Only(Ingest(now, f).tokenHeld, st.tokenHeld.Keys))
         == Sum(Only(now.tokenHeld, st.tokenHeld.Keys)) + if Ours(Known(st), f) then f.size else 0.0
  {
    var keys := st.tokenHeld.Keys;
    var before, after := Only(now.tokenHeld, keys), Only(Ingest(now, f).tokenHeld, keys);
    IngestShape(now, f);
    if Ours(Known(st), f) {
      var amount := Get(now.tokenHeld, f.tokenId) + f.size;
      assert after == before[f.tokenId := amount];
      SumUpdate(before, f.tokenId, amount);
    } else {
      assert after == before;
    }
  }

  lemma RebuiltTotal(st: HeldState, chain: map<string, real>, fills: seq<T.Fill>)
    requires ShowsLater(chain, st, fills)
    ensures RebuiltState(st, chain).total == Sum(st.tokenHeld) + Bought(Known(st), fills) - Sum(Dust(Later(st, fills)))
  {
    var later := Later(st, fills);
    LaterSum(st, fills);
    KeptOf(later, st.tokenHeld, chain);
  }

  /** A rebuild keeps what the chain shows, less the dust. */
  lemma KeptOf(shown: map<string, real>, held: map<string, real>, chain: map<string, real>)
    requires shown.Keys <= held.Keys && forall t :: t in held ==> OnChain(chain, t) == Get(shown, t)
    ensures Sum(Rebuilt(held, chain)) == Sum(shown) - Sum(Dust(shown))
  {
    var small := Dust(shown).Keys;
    SumSplit(shown, small);
    assert Only(shown, small) == Dust(shown);
    assert shown - small == Rebuilt(held, chain);
  }

  lemma RebookedTotal(st: HeldState, funder: string, chain: map<string, real>, fills: seq<T.Fill>)
    requires Balanced(st) && ShowsLater(chain, st, fills)
    ensures var st' := Rebooked(st, funder, chain);
            && st'.total == st.total + Recount(st, funder, chain, fills)
            && st'.tokenCoin == st.tokenCoin && st'.lastTradeId == st.lastTradeId
  {
    RebuiltTotal(st, chain, fills);
  }

  /** The startup rebuild comes before the catch-up. Whatever part of the missed fills the chain
      already shows, a life from a sound file ends with the truth, plus what that part bought of
      tokens that were held before, less the dust dropped, plus the gap. A rebuild that is skipped,
      and a missed first fill of a token, add nothing. */
  lemma StartupRebuildRecounts(s: Sys, gap: seq<Row>, funder: string, chain: map<string, real>, at: nat, shown: nat)
    requires SoundAt(s, at) && Balanced(s.disk) && Distinct(s.log + gap) && at <= shown <= |s.log + gap|
    requires ShowsLater(chain, s.disk, InOrder((s.log + gap)[at..shown]))
    ensures var log, tokens := s.log + gap, s.disk.tokenCoin;
            var held := Life(s.(disk := Rebooked(s.disk, funder, chain)), gap, true, true).proc.mem.total;
            var extra := Recount(s.disk, funder, chain, InOrder(log[at..shown])) + Bought(tokens, InOrder(gap));
            && held == Truth(log, tokens).total + extra
            && (held == Truth(log, tokens).total <==> extra == 0.0)
  {
    RebookedTotal(s.disk, funder, chain, InOrder((s.log + gap)[at..shown]));
    SoundTotals(s, gap, at);
    LifeTotal(s.(disk := Rebooked(s.disk, funder, chain)), gap, true, true);
  }

  /** A scan's reconciliation; a skipped one writes nothing. */
  ghost function Rescanned(s: Sys, funder: string, chain: map<string, real>, saved: bool): (r: Sys)
    requires s.proc.Up? && s.proc.pending == []
    ensures r.proc.Up?
  {
    if Skips(s.proc.mem, funder, chain) then s else WithMem(s, RebuiltState(s.proc.mem, chain), [], saved)
  }

  /** Every scan reconciles before it polls, so the same happens while the process runs: from exact
      books the scan ends with the truth and the same recount of what the chain was ahead. */
  lemma ScanRebuildRecounts(s: Sys, funder: string, chain: map<string, real>, saved: bool, read: nat, shown: nat)
    requires s.proc.Up? && s.proc.pending == [] && Distinct(s.log) && CursorAt(s.proc.cursor, s.log, read)
    requires Balanced(s.proc.mem) && Matches(true, s.proc.mem, Truth(s.log[..read], s.proc.mem.tokenCoin))
    requires read <= shown <= |s.log| && ShowsLater(chain, s.proc.mem, InOrder(s.log[read..shown]))
    ensures var tokens := s.proc.mem.tokenCoin;
            var held := Drained(Polled(Rescanned(s, funder, chain, saved))).proc.mem.total;
            var extra := Recount(s.proc.mem, funder, chain, InOrder(s.log[read..shown]));
            && held == Truth(s.log, tokens).total + extra && (held == Truth(s.log, tokens).total <==> extra == 0.0)
  {
    var r := Rescanned(s, funder, chain, saved);
    RebookedTotal(s.proc.mem, funder, chain, InOrder(s.log[read..shown]));
    ReadFrom(s.log, read);
    DrainedTotal(Polled(r));
    TruthTotal(s.log, read, s.proc.mem.tokenCoin);
    TruthTotal(s.log[..read], 0, s.proc.mem.tokenCoin);
  }

  // ---- both cases happen ----

  /** A row that bought this much of a token. */
  function Bid(id: string, tok: string, size: real): Row {
    Row(id, [T.Fill(id, None, tok, "BUY", size, 0.9)])
  }

  lemma BidBuys(id: string, tok: string, size: real, tokens: map<string, string>)
    requires tok in tokens
    ensures Bought(tokens, InOrder([Bid(id, tok, size)])) == size
  {
    OneRow(Bid(id, tok, size));
    OneBought(tokens, Bid(id, tok, size).fills[0]);
  }

  lemma TwoRows(a: Row, b: Row, tokens: map<string, string>)
    requires a.id != "" && b.id != "" && a.id != b.id
    ensures Distinct([a, b]) && After([a, b], Some(a.id)) == [b]
    ensures Truth([a, b], tokens).total == Bought(tokens, InOrder([a])) + Bought(tokens, InOrder([b]))
  {
    assert [a, b][..1] == [a] && [a, b][1..] == [b];
    ReadFrom([a, b], 1);
    TruthTotal([a, b], 1, tokens);
  }

  /** One token held, as the file has it after one row. */
  function OneHeld(id: string, tok: string, size: real, tokens: map<string, string>): HeldState
    requires tok in tokens
  {
    EMPTY.(total := size, coin := map[tokens[tok] := size], tokenHeld := map[tok := size], tokenCoin := tokens,
           lastTradeId := id)
  }

  lemma RebookedOne(id: string, tok: string, size: real, tokens: map<string, string>, funder: string, chain: map<string, real>)
    requires tok in tokens && funder != "" && |chain| >= 3 && tok in chain
    requires size >= 0.5 && (chain[tok] == size || chain[tok] >= size + 0.5)
    ensures var st := Rebooked(OneHeld(id, tok, size, tokens), funder, chain);
            st.total == chain[tok] && st.tokenCoin == tokens && st.lastTradeId == id
  {
    var held := Rebuilt(OneHeld(id, tok, size, tokens).tokenHeld, chain);
    assert held == map[tok := chain[tok]];
    SumAt(held, tok);
    assert held - {tok} == map[];
  }

  /** x of a token are in the file, and y more of a registered token were bought while the process
      was down, which the chain already shows. More of the held token is counted twice; a first
      fill of another is counted once. */
  lemma RecountHappens(i: string, j: string, held: string, tok: string, x: real, y: real,
                       tokens: map<string, string>, funder: string, chain: map<string, real>)
    requires i != "" && j != "" && i != j && held in tokens && tok in tokens && x >= 0.5 && y >= 0.5
    requires funder != "" && |chain| >= 3 && held in chain && chain[held] == if tok == held then x + y else x
    ensures var log := [Bid(i, held, x), Bid(j, tok, y)];
            && Truth(log, tokens).total == x + y
            && Life(Sys(log, Rebooked(OneHeld(i, held, x, tokens), funder, chain), Down), [], true, true).proc.mem.total
               == if tok == held then x + y + y else x + y
  {
    var a, b := Bid(i, held, x), Bid(j, tok, y);
    BidBuys(i, held, x, tokens);
    BidBuys(j, tok, y, tokens);
    TwoRows(a, b, tokens);
    RebookedOne(i, held, x, tokens, funder, chain);
    var s := Sys([a, b], Rebooked(OneHeld(i, held, x, tokens), funder, chain), Down);
    assert s.log + [] == s.log;
    LifeTotal(s, [], true, true);
  }

  // ---- and how it passes ----

  lemma {:induction false} ReplayAgrees(st: HeldState, fills: seq<T.Fill>)
    requires Agree(st)
    ensures Agree(Replay(st, fills))
  {
    if fills != [] {
      ReplayAgrees(st, fills[..|fills| - 1]);
      IngestKeeps(Replay(st, fills[..|fills| - 1]), fills[|fills| - 1]);
    }
  }

  lemma NothingAgrees(tokens: map<string, string>)
    ensures Agree(EMPTY.(tokenCoin := tokens))
  {
    var st := EMPTY.(tokenCoin := tokens);
    forall c ensures CoinAgrees(st, c) { assert Only(st.tokenHeld, TokensOf(st, c)) == map[]; }
  }

  lemma TruthSums(rows: seq<Row>, tokens: map<string, string>)
    ensures Truth(rows, tokens).total == Sum(Truth(rows, tokens).tokenHeld)
  {
    NothingAgrees(tokens);
    ReplayAgrees(EMPTY.(tokenCoin := tokens), InOrder(rows));
  }

  /** A rebuild reads which tokens are held and not how much, so the first one whose chain has caught
      up ends every miscount, whatever it came from: exactly at the truth less its dust if the books
      are rewritten, and within half a share of it if they are left alone. */
  lemma CaughtUpRebuildHeals(mem: HeldState, funder: string, chain: map<string, real>, rows: seq<Row>)
    requires funder != "" && mem.tokenHeld != map[] && |chain| >= 3
    requires var truth := Truth(rows, mem.tokenCoin).tokenHeld;
             truth.Keys <= mem.tokenHeld.Keys && forall t :: t in mem.tokenHeld ==> OnChain(chain, t) == Get(truth, t)
    ensures var truth := Truth(rows, mem.tokenCoin);
            var healed, st := truth.total - Sum(Dust(truth.tokenHeld)), Rebooked(mem, funder, chain);
            && Abs(st.total - healed) < 0.5 && (!Skips(mem, funder, chain) ==> st.total == healed)
  {
    TruthSums(rows, mem.tokenCoin);
    KeptOf(Truth(rows, mem.tokenCoin).tokenHeld, mem.tokenHeld, chain);
  }

  /** A rebuild happens exactly when there is a funder, something is held, the answer has at least
      three positions, and the total would move by half a share or more. */
  lemma RebuildsExactly(st: HeldState, funder: string, chain: map<string, real>)
    ensures var shown := Sum(map t | t in st.tokenHeld && OnChain(chain, t) >= 0.5 :: OnChain(chain, t));
            var asked := funder != "" && st.tokenHeld != map[] && |chain| > 2;
            && (asked && (st.total - shown >= 0.5 || shown - st.total >= 0.5) ==>
                  Rebooked(st, funder, chain) == RebuiltState(st, chain) && Rebooked(st, funder, chain).total == shown)
            && (!asked || (st.total - shown < 0.5 && shown - st.total < 0.5) ==> Rebooked(st, funder, chain) == st)
  {}
}
