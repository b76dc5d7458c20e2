// cpp/apps/tail_vendor_main.cpp and backtest/deribit_fair/settle_release.py: the ledger of
// collateral already held. A total, a sum per coin and an amount per token say the same thing
// three ways; every operation on them must keep them in step, since the spending limits read
// whichever one is convenient.
module Held {
  import opened Common
  import opened Sums
  import T = Trades

  datatype HeldState = HeldState(
    total: real,
    coin: map<string, real>,
    tokenHeld: map<string, real>,
    tokenCoin: map<string, string>,
    tokenNote: map<string, string>,
    tokenTouch: map<string, bool>,
    lastTradeId: string)

  const EMPTY := HeldState(0.0, map[], map[], map[], map[], map[], "")

  /** The tokens registered to a coin. */
  function TokensOf(st: HeldState, c: string): set<string> {
    set t | t in st.tokenCoin && st.tokenCoin[t] == c
  }

  ghost predicate Registered(st: HeldState) {
    forall t :: t in st.tokenHeld ==> t in st.tokenCoin
  }

  /** The total and the sums per coin are those of the tokens. */
  ghost predicate Balanced(st: HeldState) {
    st.total == Sum(st.tokenHeld) && forall c :: CoinAgrees(st, c)
  }

  /** The three aggregates agree. */
  ghost predicate Agree(st: HeldState) {
    Registered(st) && Balanced(st)
  }

  ghost predicate CoinAgrees(st: HeldState, c: string) {
    Get(st.coin, c) == Sum(Only(st.tokenHeld, TokensOf(st, c)))
  }

  // ---- one fill ----

  function Ingest(st: HeldState, f: T.Fill): HeldState {
    var st1 := if f.id != "" then st.(lastTradeId := f.id) else st;
    if f.tokenId in st1.tokenCoin && f.side == "BUY" then Credit(st1, f.tokenId, f.size) else st1
  }

  function Credit(st: HeldState, tok: string, size: real): HeldState
    requires tok in st.tokenCoin
  {
    var c := st.tokenCoin[tok];
    st.(total := st.total + size,
        coin := st.coin[c := Get(st.coin, c) + size],
        tokenHeld := st.tokenHeld[tok := Get(st.tokenHeld, tok) + size])
  }

  lemma CreditBalances(st: HeldState, tok: string, size: real)
    requires Balanced(st) && tok in st.tokenCoin
    ensures Balanced(Credit(st, tok, size))
  {
    SumUpdate(st.tokenHeld, tok, Get(st.tokenHeld, tok) + size);
    forall c ensures CoinAgrees(Credit(st, tok, size), c) {
      assert CoinAgrees(st, c);
      CreditCoin(st, tok, size, c);
    }
  }

  lemma CreditKeeps(st: HeldState, tok: string, size: real)
    requires Agree(st) && tok in st.tokenCoin
    ensures Agree(Credit(st, tok, size))
  {
    CreditBalances(st, tok, size);
  }

  lemma CreditCoin(st: HeldState, tok: string, size: real, c: string)
    requires CoinAgrees(st, c) && tok in st.tokenCoin
    ensures CoinAgrees(Credit(st, tok, size), c)
  {
    var st', own, amount := Credit(st, tok, size), TokensOf(st, c), Get(st.tokenHeld, tok) + size;
    assert TokensOf(st', c) == own;
    var part := Only(st.tokenHeld, own);
    if tok in own {
      SumUpdate(part, tok, amount);
      assert Only(st'.tokenHeld, own) == part[tok := amount];
    } else {
      assert Only(st'.tokenHeld, own) == part;
    }
  }

  lemma IngestKeeps(st: HeldState, f: T.Fill)
    requires Agree(st)
    ensures Agree(Ingest(st, f))
    ensures NonNegative(st.tokenHeld) && f.size >= 0.0 ==> NonNegative(Ingest(st, f).tokenHeld)
  {
    var st1 := if f.id != "" then st.(lastTradeId := f.id) else st;
    assert Agree(st1) by {
      assert forall c :: CoinAgrees(st, c) ==> CoinAgrees(st1, c);
    }
    if f.tokenId in st1.tokenCoin { CreditKeeps(st1, f.tokenId, f.size); }
  }

  // ---- registering an order's token ----

  function Register(st: HeldState, tok: string, c: string, note: string, touch: bool): HeldState {
    st.(tokenCoin := st.tokenCoin[tok := c], tokenNote := st.tokenNote[tok := note],
        tokenTouch := if touch then st.tokenTouch[tok := true] else st.tokenTouch)
  }

  /** How much of a coin's sum one token contributes. */
  ghost function Share(st: HeldState, tok: string, c: string): real {
    if tok in st.tokenCoin && st.tokenCoin[tok] == c then Get(st.tokenHeld, tok) else 0.0
  }

  lemma RegisterMovesShare(st: HeldState, tok: string, c: string, note: string, touch: bool, d: string)
    ensures Sum(Only(st.tokenHeld, TokensOf(Register(st, tok, c, note, touch), d)))
          - Share(Register(st, tok, c, note, touch), tok, d)
         == Sum(Only(st.tokenHeld, TokensOf(st, d))) - Share(st, tok, d)
  {
    var st' := Register(st, tok, c, note, touch);
    var before := Only(st.tokenHeld, TokensOf(st, d));
    var after := Only(st'.tokenHeld, TokensOf(st', d));
    assert before - {tok} == after - {tok};
    DropOne(before, tok);
    DropOne(after, tok);
  }

  /** Registering a token under a coin keeps the aggregates in step exactly when nothing of it
      is held or the coin is the one it already had. */
  lemma RegisterAgreesIff(st: HeldState, tok: string, c: string, note: string, touch: bool)
    requires Agree(st)
    ensures Agree(Register(st, tok, c, note, touch)) <==>
            Get(st.tokenHeld, tok) == 0.0 || (tok in st.tokenCoin && st.tokenCoin[tok] == c)
  {
    var st' := Register(st, tok, c, note, touch);
    forall d ensures CoinAgrees(st', d) <==> Share(st', tok, d) == Share(st, tok, d) {
      assert CoinAgrees(st, d);
      RegisterMovesShare(st, tok, c, note, touch, d);
    }
    assert CoinAgrees(st', c) <==> Share(st', tok, c) == Share(st, tok, c);
  }

  /** An acknowledged order: its token, coin and note, and whether it is a touch order. */
  datatype Placing = Placing(tok: string, c: string, note: string, touch: bool)

  function RegisterAll(st: HeldState, placings: seq<Placing>): HeldState
    decreases |placings|
  {
    if placings == [] then st
    else
      var n := |placings| - 1;
      Register(RegisterAll(st, placings[..n]), placings[n].tok, placings[n].c, placings[n].note, placings[n].touch)
  }

  ghost predicate LastOf(placings: seq<Placing>, k: int, tok: string) {
    0 <= k < |placings| && placings[k].tok == tok && forall j :: k < j < |placings| ==> placings[j].tok != tok
  }

  predicate Flagged(st: HeldState, tok: string) {
    tok in st.tokenTouch && st.tokenTouch[tok]
  }

  ghost predicate TouchedBy(placings: seq<Placing>, tok: string) {
    exists k :: 0 <= k < |placings| && placings[k].tok == tok && placings[k].touch
  }

  /** Over any orders a token is flagged for good by any touch order for it, and by nothing else; the
      holdings are left alone. */
  lemma {:induction false} FlaggedExactly(st: HeldState, placings: seq<Placing>, tok: string)
    ensures Flagged(RegisterAll(st, placings), tok) <==> Flagged(st, tok) || TouchedBy(placings, tok)
    ensures var r := RegisterAll(st, placings);
            r == st.(tokenCoin := r.tokenCoin, tokenNote := r.tokenNote, tokenTouch := r.tokenTouch)
    decreases |placings|
  {
    if placings != [] {
      var n := |placings| - 1;
      FlaggedExactly(st, placings[..n], tok);
      TouchedNext(placings, tok);
      FlagNext(RegisterAll(st, placings[..n]), placings[n], tok);
    }
  }

  lemma TouchedNext(placings: seq<Placing>, tok: string)
    requires placings != []
    ensures var p := placings[|placings| - 1];
            TouchedBy(placings, tok) <==> TouchedBy(placings[..|placings| - 1], tok) || (p.tok == tok && p.touch)
  {
    var before := placings[..|placings| - 1];
    if k :| 0 <= k < |before| && before[k].tok == tok && before[k].touch { assert placings[k] == before[k]; }
    if k :| 0 <= k < |placings| && placings[k].tok == tok && placings[k].touch {
      if k < |before| { assert before[k] == placings[k]; }
    }
  }

  lemma FlagNext(st: HeldState, p: Placing, tok: string)
    ensures Flagged(Register(st, p.tok, p.c, p.note, p.touch), tok) <==> Flagged(st, tok) || (p.tok == tok && p.touch)
  {}

  /** And it keeps the coin and the note of the last order for it. */
  lemma {:induction false} LastOrderKept(st: HeldState, placings: seq<Placing>, k: int, tok: string)
    requires LastOf(placings, k, tok)
    ensures var r := RegisterAll(st, placings);
            tok in r.tokenCoin && r.tokenCoin[tok] == placings[k].c && tok in r.tokenNote && r.tokenNote[tok] == placings[k].note
    decreases |placings|
  {
    var n := |placings| - 1;
    if k < n {
      assert LastOf(placings[..n], k, tok);
      LastOrderKept(st, placings[..n], k, tok);
    }
  }

  // ---- rebuilding from the chain ----

  function OnChain(chain: map<string, real>, tok: string): real {
    if tok in chain then Abs(chain[tok]) else 0.0
  }

  /** What is really held: our tokens whose position on chain has not vanished. */
  function Rebuilt(held: map<string, real>, chain: map<string, real>): map<string, real> {
    map t | t in held && OnChain(chain, t) >= 0.5 :: OnChain(chain, t)
  }

  /** The coins of these tokens; a token that is not registered has none. */
  function CoinsOf(st: HeldState, held: map<string, real>): set<string> {
    set t | t in held && t in st.tokenCoin :: st.tokenCoin[t]
  }

  /** Per coin, what its registered tokens hold. */
  ghost function CoinSums(st: HeldState, held: map<string, real>): map<string, real> {
    map c | c in CoinsOf(st, held) :: Sum(Only(held, TokensOf(st, c)))
  }

  /** The books after a rebuild: the chain's amounts, and the sums they have. */
  ghost function RebuiltState(st: HeldState, chain: map<string, real>): HeldState {
    var held := Rebuilt(st.tokenHeld, chain);
    st.(total := Sum(held), coin := CoinSums(st, held), tokenHeld := held)
  }

  /** A position counts for what it is, long or short. */
  lemma EitherSide(st: HeldState, chain: map<string, real>)
    ensures RebuiltState(st, chain) == RebuiltState(st, map t | t in chain :: -chain[t])
    ensures forall t :: t in RebuiltState(st, chain).tokenHeld ==> t in chain && RebuiltState(st, chain).tokenHeld[t] in {chain[t], -chain[t]}
  {
    assert Rebuilt(st.tokenHeld, chain) == Rebuilt(st.tokenHeld, map t | t in chain :: -chain[t]);
  }

  /** The rebuild is skipped without a funder, without holdings, or on a suspiciously short
      answer; and when the total would hardly move. */
  ghost predicate Skips(st: HeldState, funder: string, chain: map<string, real>) {
    funder == "" || st.tokenHeld == map[] || |chain| < 3 || Abs(st.total - Sum(Rebuilt(st.tokenHeld, chain))) < 0.5
  }

  lemma NoneOfCoin(st: HeldState, held: map<string, real>, c: string)
    requires c !in CoinsOf(st, held)
    ensures Only(held, TokensOf(st, c)) == map[]
  {
    assert forall t :: t in held && t in TokensOf(st, c) ==> st.tokenCoin[t] in CoinsOf(st, held);
  }

  lemma CoinSumsGet(st: HeldState, held: map<string, real>, c: string)
    ensures Get(CoinSums(st, held), c) == Sum(Only(held, TokensOf(st, c)))
  {
    if c !in CoinsOf(st, held) { NoneOfCoin(st, held, c); }
  }

  /** Whatever was registered, and whatever the books said before, a rebuild balances them. */
  lemma RebuiltBalances(st: HeldState, chain: map<string, real>)
    ensures Balanced(RebuiltState(st, chain)) && NonNegative(RebuiltState(st, chain).tokenHeld)
    ensures Registered(st) ==> Agree(RebuiltState(st, chain))
  {
    var st' := RebuiltState(st, chain);
    forall c ensures CoinAgrees(st', c) {
      CoinSumsGet(st, st'.tokenHeld, c);
      assert TokensOf(st', c) == TokensOf(st, c);
    }
  }

  /** A token's amount, added to its coin's sum if it has a coin. */
  function AddCoin(st: HeldState, coin: map<string, real>, tok: string, size: real): map<string, real> {
    if tok in st.tokenCoin then coin[st.tokenCoin[tok] := Get(coin, st.tokenCoin[tok]) + size] else coin
  }

  lemma CoinsOfAdd(st: HeldState, held: map<string, real>, tok: string, size: real)
    ensures CoinsOf(st, held[tok := size]) == CoinsOf(st, held) + if tok in st.tokenCoin then {st.tokenCoin[tok]} else {}
  {
    var held' := held[tok := size];
    forall c | c in CoinsOf(st, held) ensures c in CoinsOf(st, held') {
      var t :| t in held && t in st.tokenCoin && st.tokenCoin[t] == c;
      assert t in held';
    }
    if tok in st.tokenCoin { assert tok in held'; }
  }

  lemma CoinSumsAdd(st: HeldState, held: map<string, real>, tok: string, size: real)
    requires tok !in held
    ensures AddCoin(st, CoinSums(st, held), tok, size) == CoinSums(st, held[tok := size])
  {
    var before, after := AddCoin(st, CoinSums(st, held), tok, size), CoinSums(st, held[tok := size]);
    CoinsOfAdd(st, held, tok, size);
    assert before.Keys == after.Keys;
    forall c | c in after ensures before[c] == after[c] {
      OnlyAdd(held, tok, size, TokensOf(st, c));
      CoinSumsGet(st, held, c);
    }
  }

  lemma SumsAdd(st: HeldState, held: map<string, real>, total: real, coin: map<string, real>, tok: string, size: real)
    requires tok !in held && total == Sum(held) && coin == CoinSums(st, held)
    ensures total + size == Sum(held[tok := size]) && AddCoin(st, coin, tok, size) == CoinSums(st, held[tok := size])
  {
    SumUpdate(held, tok, size);
    CoinSumsAdd(st, held, tok, size);
  }

  lemma OnlyAdd(held: map<string, real>, tok: string, size: real, own: set<string>)
    requires tok !in held
    ensures Sum(Only(held[tok := size], own)) == Sum(Only(held, own)) + if tok in own then size else 0.0
  {
    var part := Only(held, own);
    if tok in own {
      assert Only(held[tok := size], own) == part[tok := size];
      SumUpdate(part, tok, size);
    } else {
      assert Only(held[tok := size], own) == part;
    }
  }

  /** The rebuilding loop, over the tokens in any order. */
  method RebuildFromChain(st: HeldState, chain: map<string, real>)
    returns (newTotal: real, newCoin: map<string, real>, newHeld: map<string, real>)
    ensures st.(total := newTotal, coin := newCoin, tokenHeld := newHeld) == RebuiltState(st, chain)
  {
    newTotal, newCoin, newHeld := 0.0, map[], map[];
    assert CoinSums(st, map[]) == map[];
    var left := st.tokenHeld.Keys;
    while left != {}
      invariant left <= st.tokenHeld.Keys
      invariant newHeld == Rebuilt(st.tokenHeld - left, chain)
      invariant newTotal == Sum(newHeld) && newCoin == CoinSums(st, newHeld)
      decreases left
    {
      var tok :| tok in left;
      RebuiltStep(st.tokenHeld, chain, left, tok);
      left := left - {tok};
      var size := OnChain(chain, tok);
      if size < 0.5 { continue; }
      SumsAdd(st, newHeld, newTotal, newCoin, tok, size);
      newHeld := newHeld[tok := size];
      newTotal := newTotal + size;
      newCoin := AddCoin(st, newCoin, tok, size);
    }
    assert st.tokenHeld - left == st.tokenHeld;
  }

  lemma RebuiltStep(held: map<string, real>, chain: map<string, real>, left: set<string>, tok: string)
    requires tok in left && left <= held.Keys
    ensures tok !in Rebuilt(held - left, chain)
    ensures Rebuilt(held - (left - {tok}), chain)
         == if OnChain(chain, tok) < 0.5 then Rebuilt(held - left, chain)
            else Rebuilt(held - left, chain)[tok := OnChain(chain, tok)]
  {}

  // ---- settlement ----

  /** One settled token, as settle_release.py releases it: with clamps at zero, and coins that
      fall to zero dropped. */
  function ReleaseOne(st: HeldState, tok: string): HeldState {
    var sh := Get(st.tokenHeld, tok);
    if sh <= 0.0 then st
    else
      var c := if tok in st.tokenCoin then st.tokenCoin[tok] else "";
      st.(total := Max(0.0, st.total - sh),
          coin := if c !in st.coin then st.coin
                  else if Max(0.0, st.coin[c] - sh) == 0.0 then st.coin - {c}
                  else st.coin[c := Max(0.0, st.coin[c] - sh)],
          tokenHeld := st.tokenHeld[tok := 0.0])
  }

  /** A coin goes from the sums exactly when its released token held all of it, or more. */
  lemma ReleasedCoin(st: HeldState, tok: string)
    requires Get(st.tokenHeld, tok) > 0.0 && tok in st.tokenCoin
    ensures var c, st' := st.tokenCoin[tok], ReleaseOne(st, tok);
            && (c in st'.coin <==> c in st.coin && st.coin[c] > Get(st.tokenHeld, tok))
            && (c in st'.coin ==> st'.coin[c] == st.coin[c] - Get(st.tokenHeld, tok))
            && forall d :: d != c ==> (d in st'.coin <==> d in st.coin) && (d in st.coin ==> st'.coin[d] == st.coin[d])
  {}

  function Release(st: HeldState, toks: seq<string>): HeldState
    decreases |toks|
  {
    if toks == [] then st else Release(ReleaseOne(st, toks[0]), toks[1..])
  }

  /** On agreeing, non-negative books the clamps never bite: release subtracts exactly what the
      token held, from all three aggregates. */
  lemma ReleaseOneExact(st: HeldState, tok: string)
    requires Agree(st) && NonNegative(st.tokenHeld)
    ensures var st' := ReleaseOne(st, tok);
            && Agree(st') && NonNegative(st'.tokenHeld)
            && st'.total == st.total - Get(st.tokenHeld, tok)
            && st'.tokenHeld == (if tok in st.tokenHeld then st.tokenHeld[tok := 0.0] else st.tokenHeld)
            && forall c :: Get(st'.coin, c) == Get(st.coin, c)
                 - (if tok in TokensOf(st, c) then Get(st.tokenHeld, tok) else 0.0)
  {
    var st' := ReleaseOne(st, tok);
    var sh := Get(st.tokenHeld, tok);
    if sh > 0.0 {
      var c := st.tokenCoin[tok];
      PartAtMostSum(st.tokenHeld, tok);
      assert CoinAgrees(st, c);
      PartAtMostSum(Only(st.tokenHeld, TokensOf(st, c)), tok);
      assert Get(st.coin, c) >= sh;
      CreditKeeps(st, tok, -sh);
      var exact := Credit(st, tok, -sh);
      assert st'.tokenHeld == exact.tokenHeld && st'.total == exact.total;
      forall d ensures Get(st'.coin, d) == Get(exact.coin, d) && CoinAgrees(st', d) {
        assert CoinAgrees(exact, d) && TokensOf(st', d) == TokensOf(exact, d);
      }
    } else if tok in st.tokenHeld {
      assert st.tokenHeld[tok := 0.0] == st.tokenHeld;
    }
  }

  /** Releasing any list of settled tokens keeps the books in step and leaves none of them held;
      releasing again changes nothing. */
  lemma {:induction false} ReleaseKeeps(st: HeldState, toks: seq<string>)
    requires Agree(st) && NonNegative(st.tokenHeld)
    ensures Agree(Release(st, toks)) && NonNegative(Release(st, toks).tokenHeld)
    ensures forall t :: t in toks ==> Get(Release(st, toks).tokenHeld, t) == 0.0
    ensures forall t :: t !in toks ==> Get(Release(st, toks).tokenHeld, t) == Get(st.tokenHeld, t)
    decreases |toks|
  {
    if toks != [] {
      ReleaseOneExact(st, toks[0]);
      ReleaseKeeps(ReleaseOne(st, toks[0]), toks[1..]);
      forall t | t in toks ensures Get(Release(st, toks).tokenHeld, t) == 0.0 {
        if t !in toks[1..] { assert t == toks[0]; }
      }
    }
  }

  /** A release leaves a token's key with nothing under it, and a rebuild reads the keys alone: as
      long as the chain still shows a released token, the next rebuild takes it back. */
  lemma RebuildUndoesRelease(st: HeldState, toks: seq<string>, chain: map<string, real>)
    ensures RebuiltState(Release(st, toks), chain) == RebuiltState(st, chain)
  {
    ReleaseKeepsKeys(st, toks);
    RebuildReadsKeys(Release(st, toks), st, chain);
  }

  lemma RebuildReadsKeys(a: HeldState, b: HeldState, chain: map<string, real>)
    requires a.tokenHeld.Keys == b.tokenHeld.Keys && a == b.(total := a.total, coin := a.coin, tokenHeld := a.tokenHeld)
    ensures RebuiltState(a, chain) == RebuiltState(b, chain)
  {
    var held := Rebuilt(a.tokenHeld, chain);
    assert held == Rebuilt(b.tokenHeld, chain);
    SameCoinSums(a, b, held);
  }

  lemma SameCoinSums(a: HeldState, b: HeldState, held: map<string, real>)
    requires a.tokenCoin == b.tokenCoin
    ensures CoinSums(a, held) == CoinSums(b, held)
  {
    assert CoinsOf(a, held) == CoinsOf(b, held);
    forall c ensures TokensOf(a, c) == TokensOf(b, c) {}
  }

  lemma {:induction false} ReleaseKeepsKeys(st: HeldState, toks: seq<string>)
    ensures Release(st, toks).tokenHeld.Keys == st.tokenHeld.Keys
    ensures Release(st, toks) == st.(total := Release(st, toks).total, coin := Release(st, toks).coin,
                                     tokenHeld := Release(st, toks).tokenHeld)
    decreases |toks|
  {
    if toks != [] { ReleaseKeepsKeys(ReleaseOne(st, toks[0]), toks[1..]); }
  }

  // ---- core and touch ----

  /** The held tokens flagged as touch orders. */
  function Touched(st: HeldState): set<string> {
    set t | t in st.tokenHeld && t in st.tokenTouch && st.tokenTouch[t]
  }

  /** Those a touch order was placed for, or that were flagged before. */
  lemma TouchedIff(st: HeldState, placings: seq<Placing>, tok: string)
    ensures tok in Touched(RegisterAll(st, placings))
            <==> tok in st.tokenHeld && (Flagged(st, tok) || TouchedBy(placings, tok))
  {
    FlaggedExactly(st, placings, tok);
  }

  datatype Budget = Budget(coin: map<string, real>, total: real)

  /** Touch holdings summed from the flags, over the tokens in any order. */
  method TouchBudget(st: HeldState) returns (b: Budget)
    ensures b.total == Sum(Only(st.tokenHeld, Touched(st)))
    ensures b.coin == CoinSums(st, Only(st.tokenHeld, Touched(st)))
  {
    var coin: map<string, real>, total := map[], 0.0;
    ghost var done: map<string, real> := map[];
    assert CoinSums(st, map[]) == map[];
    var left := st.tokenHeld.Keys;
    while left != {}
      invariant left <= st.tokenHeld.Keys
      invariant done == Only(st.tokenHeld, Touched(st)) - left
      invariant total == Sum(done) && coin == CoinSums(st, done)
      decreases left
    {
      var tok :| tok in left;
      TouchedStep(st, left, tok);
      left := left - {tok};
      if tok !in st.tokenTouch || !st.tokenTouch[tok] { continue; }
      SumsAdd(st, done, total, coin, tok, st.tokenHeld[tok]);
      done := done[tok := st.tokenHeld[tok]];
      total := total + st.tokenHeld[tok];
      coin := AddCoin(st, coin, tok, st.tokenHeld[tok]);
    }
    assert done == Only(st.tokenHeld, Touched(st));
    b := Budget(coin, total);
  }

  lemma TouchedStep(st: HeldState, left: set<string>, tok: string)
    requires tok in left && left <= st.tokenHeld.Keys
    ensures tok !in Only(st.tokenHeld, Touched(st)) - left
    ensures Only(st.tokenHeld, Touched(st)) - (left - {tok})
         == if tok in Touched(st) then (Only(st.tokenHeld, Touched(st)) - left)[tok := st.tokenHeld[tok]]
            else Only(st.tokenHeld, Touched(st)) - left
  {}

  /** Core holdings: everything less the touch part, clamped at zero coin by coin. */
  method CoreBudget(st: HeldState, touch: Budget) returns (b: Budget)
    ensures b.total == Max(0.0, st.total - touch.total)
    ensures forall c :: Get(b.coin, c) == if c in touch.coin then Max(0.0, Get(st.coin, c) - touch.coin[c]) else Get(st.coin, c)
  {
    var coin := st.coin;
    var left := touch.coin.Keys;
    while left != {}
      invariant left <= touch.coin.Keys
      invariant forall c :: Get(coin, c) ==
                  if c in touch.coin && c !in left then Max(0.0, Get(st.coin, c) - touch.coin[c]) else Get(st.coin, c)
      decreases left
    {
      var c :| c in left;
      left := left - {c};
      coin := coin[c := Max(0.0, Get(coin, c) - touch.coin[c])];
    }
    b := Budget(coin, Max(0.0, st.total - touch.total));
  }

  /** On balanced, non-negative books the two legs' budgets partition the holdings, in total and
      coin by coin, so the clamps at zero never bite and neither leg eats the other's budget. */
  lemma BudgetsPartition(st: HeldState, touch: Budget, c: string)
    requires Balanced(st) && NonNegative(st.tokenHeld)
    requires touch.total == Sum(Only(st.tokenHeld, Touched(st)))
    requires touch.coin == CoinSums(st, Only(st.tokenHeld, Touched(st)))
    ensures st.total - touch.total == Sum(st.tokenHeld - Touched(st)) >= 0.0
    ensures Get(st.coin, c) - Get(touch.coin, c)
         == Sum(Only(st.tokenHeld - Touched(st), TokensOf(st, c))) >= 0.0
  {
    var touched := Touched(st);
    SumSplit(st.tokenHeld, touched);
    SumNonNegative(st.tokenHeld - touched);
    CoinSumsGet(st, Only(st.tokenHeld, touched), c);
    assert CoinAgrees(st, c);
    CoinSplits(st.tokenHeld, TokensOf(st, c), touched);
  }

  lemma CoinSplits(held: map<string, real>, own: set<string>, touched: set<string>)
    requires NonNegative(held)
    ensures Sum(Only(held, own)) == Sum(Only(Only(held, touched), own)) + Sum(Only(held - touched, own))
    ensures Sum(Only(held - touched, own)) >= 0.0
  {
    SumSplit(Only(held, own), touched);
    assert Only(Only(held, own), touched) == Only(Only(held, touched), own);
    assert Only(held, own) - touched == Only(held - touched, own);
    SumNonNegative(Only(held - touched, own));
  }

  lemma SplitsTouch(st: HeldState, core: Budget, touch: Budget)
    requires Balanced(st) && NonNegative(st.tokenHeld)
    requires touch == Budget(CoinSums(st, Only(st.tokenHeld, Touched(st))), Sum(Only(st.tokenHeld, Touched(st))))
    requires core.total == Max(0.0, st.total - touch.total)
    requires forall c :: Get(core.coin, c) == if c in touch.coin then Max(0.0, Get(st.coin, c) - touch.coin[c]) else Get(st.coin, c)
    ensures core.total + touch.total == st.total && core.total == Sum(st.tokenHeld - Touched(st))
    ensures forall c :: Get(core.coin, c) + Get(touch.coin, c) == Get(st.coin, c)
    ensures forall c :: Get(core.coin, c) == Sum(Only(st.tokenHeld - Touched(st), TokensOf(st, c)))
  {
    BudgetsPartition(st, touch, "");
    forall c
      ensures Get(core.coin, c) + Get(touch.coin, c) == Get(st.coin, c)
      ensures Get(core.coin, c) == Sum(Only(st.tokenHeld - Touched(st), TokensOf(st, c))) {
      BudgetsPartition(st, touch, c);
    }
  }

  // ---- the state file ----

  /** JSON without arrays, which the file never holds. */
  datatype Json = Num(n: real) | Str(s: string) | Bool(b: bool) | Null | Obj(fields: map<string, Json>)

  /** No file, a file that is no JSON object, or its fields. */
  datatype File = Missing | Unreadable | Fields(fields: map<string, Json>)

  function NumsJson(m: map<string, real>): Json { Obj(map k | k in m :: Num(m[k])) }
  function StrsJson(m: map<string, string>): Json { Obj(map k | k in m :: Str(m[k])) }
  function BoolsJson(m: map<string, bool>): Json { Obj(map k | k in m :: Bool(m[k])) }

  function Save(st: HeldState): map<string, Json> {
    map["held_total" := Num(st.total), "held_coin" := NumsJson(st.coin),
        "token_coin" := StrsJson(st.tokenCoin), "token_note" := StrsJson(st.tokenNote),
        "token_touch" := BoolsJson(st.tokenTouch), "token_held" := NumsJson(st.tokenHeld),
        "last_trade_id" := Str(st.lastTradeId)]
  }

  /** What iterating over a value visits: an object's fields, a bare value under an empty key. */
  function Items(j: Json): map<string, Json> {
    match j
    case Obj(f) => f
    case Null => map[]
    case _ => map["" := j]
  }

  /** The entries read before the first of the wrong type, in key order; and whether that is all. */
  datatype Part<T> = Part(read: map<string, T>, whole: bool)

  function Nums(j: Json): Part<real> {
    var f := Items(j);
    Part(map k | k in f && (forall i :: i in f && (i == k || Less(i, k)) ==> f[i].Num?) :: f[k].n,
         forall i :: i in f ==> f[i].Num?)
  }

  function Strs(j: Json): Part<string> {
    var f := Items(j);
    Part(map k | k in f && (forall i :: i in f && (i == k || Less(i, k)) ==> f[i].Str?) :: f[k].s,
         forall i :: i in f ==> f[i].Str?)
  }

  function Field(f: map<string, Json>, key: string): Json {
    if key in f then f[key] else Obj(map[])
  }

  datatype Loaded = Loaded(state: HeldState, corrupt: bool)

  /** Reads the file field by field, entry by entry; the first value of the wrong type stops the
      reading there and is reported. Touch flags alone are forgiving: a value that is no boolean
      is skipped. */
  function Load(file: File): Loaded {
    match file
    case Missing => Loaded(EMPTY, false)
    case Unreadable => Loaded(EMPTY, true)
    case Fields(f) =>
      var amounts := LoadAmounts(f);
      if amounts.corrupt then amounts else
      var tokens := LoadTokens(f, amounts.state);
      if tokens.corrupt then tokens else LoadLast(f, tokens.state)
  }

  function LoadAmounts(f: map<string, Json>): Loaded {
    var total := if "held_total" in f then f["held_total"] else Num(0.0);
    if !total.Num? then Loaded(EMPTY, true) else
    var coin := Nums(Field(f, "held_coin"));
    var s1 := EMPTY.(total := total.n, coin := coin.read);
    if !coin.whole then Loaded(s1, true) else
    var held := Nums(Field(f, "token_held"));
    Loaded(s1.(tokenHeld := held.read), !held.whole)
  }

  function LoadTokens(f: map<string, Json>, s2: HeldState): Loaded {
    var coins := Strs(Field(f, "token_coin"));
    var s3 := s2.(tokenCoin := coins.read);
    if !coins.whole then Loaded(s3, true) else
    var notes := Strs(Field(f, "token_note"));
    Loaded(s3.(tokenNote := notes.read), !notes.whole)
  }

  function LoadLast(f: map<string, Json>, s4: HeldState): Loaded {
    var touch := Items(Field(f, "token_touch"));
    var s5 := s4.(tokenTouch := map k | k in touch && touch[k].Bool? :: touch[k].b);
    var last := if "last_trade_id" in f then f["last_trade_id"] else Str("");
    if !last.Str? then Loaded(s5, true) else Loaded(s5.(lastTradeId := last.s), false)
  }

  lemma NumsBack(m: map<string, real>)
    ensures Nums(NumsJson(m)) == Part(m, true)
  {
    assert Nums(NumsJson(m)).read == m;
  }

  lemma StrsBack(m: map<string, string>)
    ensures Strs(StrsJson(m)) == Part(m, true)
  {
    assert Strs(StrsJson(m)).read == m;
  }

  /** Reading the three parts of a file that holds a state's fields. */
  lemma AmountsLoad(f: map<string, Json>, st: HeldState)
    requires "held_total" in f && f["held_total"] == Num(st.total)
    requires Field(f, "held_coin") == NumsJson(st.coin) && Field(f, "token_held") == NumsJson(st.tokenHeld)
    ensures LoadAmounts(f) == Loaded(EMPTY.(total := st.total, coin := st.coin, tokenHeld := st.tokenHeld), false)
  {
    NumsBack(st.coin);
    NumsBack(st.tokenHeld);
  }

  lemma TokensLoad(f: map<string, Json>, st: HeldState, s2: HeldState)
    requires Field(f, "token_coin") == StrsJson(st.tokenCoin) && Field(f, "token_note") == StrsJson(st.tokenNote)
    ensures LoadTokens(f, s2) == Loaded(s2.(tokenCoin := st.tokenCoin, tokenNote := st.tokenNote), false)
  {
    StrsBack(st.tokenCoin);
    StrsBack(st.tokenNote);
  }

  lemma LastLoad(f: map<string, Json>, st: HeldState, s4: HeldState)
    requires Field(f, "token_touch") == BoolsJson(st.tokenTouch)
    requires "last_trade_id" in f && f["last_trade_id"] == Str(st.lastTradeId)
    ensures LoadLast(f, s4) == Loaded(s4.(tokenTouch := st.tokenTouch, lastTradeId := st.lastTradeId), false)
  {
    var touch := BoolsJson(st.tokenTouch).fields;
    assert (map k | k in touch && touch[k].Bool? :: touch[k].b) == st.tokenTouch;
  }

  /** The fields of a file that holds a state. */
  ghost predicate HoldsState(f: map<string, Json>, st: HeldState) {
    && "held_total" in f && f["held_total"] == Num(st.total)
    && Field(f, "held_coin") == NumsJson(st.coin) && Field(f, "token_held") == NumsJson(st.tokenHeld)
    && Field(f, "token_coin") == StrsJson(st.tokenCoin) && Field(f, "token_note") == StrsJson(st.tokenNote)
    && Field(f, "token_touch") == BoolsJson(st.tokenTouch)
    && "last_trade_id" in f && f["last_trade_id"] == Str(st.lastTradeId)
  }

  lemma SaveHolds(st: HeldState)
    ensures HoldsState(Save(st), st)
  {}

  lemma LoadFields(f: map<string, Json>, st: HeldState)
    requires HoldsState(f, st)
    ensures Load(Fields(f)) == Loaded(st, false)
  {
    AmountsLoad(f, st);
    var s2 := LoadAmounts(f).state;
    TokensLoad(f, st, s2);
    LastLoad(f, st, LoadTokens(f, s2).state);
  }

  /** A state survives the process: what was saved is what is read back. */
  lemma LoadSave(st: HeldState)
    ensures Load(Fields(Save(st))) == Loaded(st, false)
  {
    SaveHolds(st);
    LoadFields(Save(st), st);
  }

  /** A saved file in which one coin's amount has been replaced by something that is no number: the
      total and the coins before that one are read, nothing after, and the damage is reported. */
  lemma BadCoinStops(st: HeldState, c: string, bad: Json)
    requires !bad.Num?
    ensures var file := Fields(Save(st)["held_coin" := Obj(NumsJson(st.coin).fields[c := bad])]);
            Load(file) == Loaded(EMPTY.(total := st.total, coin := map d | d in st.coin && BadAfter(st.coin, c, d) :: st.coin[d]), true)
    ensures Load(Unreadable) == Loaded(EMPTY, true) && Load(Missing) == Loaded(EMPTY, false)
  {
    var f := Save(st)["held_coin" := Obj(NumsJson(st.coin).fields[c := bad])];
    CoinsStop(st.coin, c, bad);
    assert Field(f, "held_coin") == Obj(NumsJson(st.coin).fields[c := bad]);
    assert "held_total" in f && f["held_total"] == Num(st.total);
  }

  /** Every field may be missing. */
  lemma NothingSaved()
    ensures Load(Fields(map[])) == Loaded(EMPTY, false)
  {
    NumsBack(map[]);
    StrsBack(map[]);
    assert NumsJson(map[]) == StrsJson(map[]) == Obj(map[]);
    assert LoadLast(map[], EMPTY) == Loaded(EMPTY, false);
  }

  /** Read before the bad entry: neither the bad one itself nor one it precedes. */
  predicate BadAfter(coin: map<string, real>, c: string, d: string) {
    d != c && !Less(c, d)
  }

  lemma CoinsStop(coin: map<string, real>, c: string, bad: Json)
    requires !bad.Num?
    ensures Nums(Obj(NumsJson(coin).fields[c := bad]))
         == Part(map d | d in coin && BadAfter(coin, c, d) :: coin[d], false)
  {
    var f := NumsJson(coin).fields[c := bad];
    assert c in f && !f[c].Num?;
    forall d | d in f ensures (forall i :: i in f && (i == d || Less(i, d)) ==> f[i].Num?) <==> d != c && !Less(c, d) {}
    assert Nums(Obj(f)).read == map d | d in coin && BadAfter(coin, c, d) :: coin[d];
  }

  // ---- every run ----

  /** What can happen to the books: memory and file. A save may fail; a restart reads the file. */
  datatype Op =
    | Fill(f: T.Fill, saved: bool)
    | Placed(tok: string, c: string, note: string, touch: bool, saved: bool)
    | Reconciled(funder: string, chain: map<string, real>, saved: bool)
    | Settled(toks: seq<string>)
    | Restarted

  datatype Books = Books(mem: HeldState, disk: HeldState)

  ghost predicate BooksStep(b: Books, op: Op, b': Books) {
    match op
    case Fill(f, saved) =>
      b'.mem == Ingest(b.mem, f) && b'.disk == if saved then b'.mem else b.disk
    case Placed(tok, c, note, touch, saved) =>
      b'.mem == Register(b.mem, tok, c, note, touch) && b'.disk == if saved then b'.mem else b.disk
    case Reconciled(funder, chain, saved) =>
      if Skips(b.mem, funder, chain) then b' == b
      else b'.mem == RebuiltState(b.mem, chain) && b'.disk == if saved then b'.mem else b.disk
    case Settled(toks) =>  // runs on the file, between two lives of the process
      b'.disk == Release(b.disk, toks) && b'.mem == b'.disk
    case Restarted => b'.mem == b.disk && b'.disk == b.disk
  }

  /** The venue reports no negative sizes, and a token that is held keeps its coin. */
  ghost predicate OpSound(b: Books, op: Op) {
    match op
    case Fill(f, _) => f.size >= 0.0
    case Placed(tok, c, _, _, _) =>
      Get(b.mem.tokenHeld, tok) == 0.0 || (tok in b.mem.tokenCoin && b.mem.tokenCoin[tok] == c)
    case _ => true
  }

  ghost predicate Sound(st: HeldState) {
    Agree(st) && NonNegative(st.tokenHeld)
  }

  lemma BooksStepKeeps(b: Books, op: Op, b': Books)
    requires BooksStep(b, op, b') && OpSound(b, op) && Sound(b.mem) && Sound(b.disk)
    ensures Sound(b'.mem) && Sound(b'.disk)
  {
    match op
    case Fill(f, _) => IngestKeeps(b.mem, f);
    case Placed(tok, c, note, touch, _) => RegisterAgreesIff(b.mem, tok, c, note, touch);
    case Reconciled(_, chain, _) => RebuiltBalances(b.mem, chain);
    case Settled(toks) => ReleaseKeeps(b.disk, toks);
    case Restarted =>
  }

  /** From the first start on, after any sequence of fills, orders, rebuilds, settlements, failed
      saves and restarts, the three aggregates agree in memory and in the file, and nothing held
      is negative. */
  lemma {:induction false} BooksAlwaysAgree(run: seq<Books>, ops: seq<Op>)
    requires |run| == |ops| + 1 && run[0] == Books(EMPTY, EMPTY)
    requires forall i :: 0 <= i < |ops| ==> BooksStep(run[i], ops[i], run[i + 1]) && OpSound(run[i], ops[i])
    ensures forall i :: 0 <= i < |run| ==> Sound(run[i].mem) && Sound(run[i].disk)
    decreases |ops|
  {
    if ops == [] {
      assert Sound(EMPTY) by {
        forall c ensures CoinAgrees(EMPTY, c) { assert Only(EMPTY.tokenHeld, TokensOf(EMPTY, c)) == map[]; }
      }
    } else {
      var n := |ops| - 1;
      BooksAlwaysAgree(run[..n + 1], ops[..n]);
      assert run[..n + 1][n] == run[n];
      BooksStepKeeps(run[n], ops[n], run[n + 1]);
      forall i | 0 <= i < |run| ensures Sound(run[i].mem) && Sound(run[i].disk) {
        if i <= n { assert run[..n + 1][i] == run[i]; }
      }
    }
  }

  // ---- the ledger in place ----

  class HeldBook {
    var total: real
    var coin: map<string, real>
    var tokenHeld: map<string, real>
    var tokenCoin: map<string, string>
    var tokenNote: map<string, string>
    var tokenTouch: map<string, bool>
    var lastTradeId: string
    var file: File

    function State(): HeldState
      reads this
    {
      HeldState(total, coin, tokenHeld, tokenCoin, tokenNote, tokenTouch, lastTradeId)
    }

    constructor (file: File)
      ensures State() == Load(file).state && this.file == file
    {
      var st := Load(file).state;
      total, coin, tokenHeld, tokenCoin := st.total, st.coin, st.tokenHeld, st.tokenCoin;
      tokenNote, tokenTouch, lastTradeId := st.tokenNote, st.tokenTouch, st.lastTradeId;
      this.file := file;
    }

    /** Writes a temporary file and renames it over the state file, which can fail. */
    method SaveHeld(renamed: bool)
      modifies this`file
      ensures file == if renamed then Fields(Save(State())) else old(file)
    {
      if renamed { file := Fields(Save(State())); }
    }

    method IngestFill(f: T.Fill, renamed: bool)
      modifies this
      ensures State() == Ingest(old(State()), f)
      ensures file == if renamed then Fields(Save(State())) else old(file)
    {
      if f.id != "" { lastTradeId := f.id; }
      if f.tokenId !in tokenCoin {
        SaveHeld(renamed);
        return;
      }
      if f.side == "BUY" { AddHeld(f.tokenId, f.size); }
      SaveHeld(renamed);
    }

    method AddHeld(tok: string, size: real)
      requires tok in tokenCoin
      modifies this`total, this`coin, this`tokenHeld
      ensures State() == Credit(old(State()), tok, size)
    {
      var c := tokenCoin[tok];
      total := total + size;
      coin := coin[c := Get(coin, c) + size];
      tokenHeld := tokenHeld[tok := Get(tokenHeld, tok) + size];
    }

    method RegisterToken(tok: string, c: string, note: string, touch: bool, renamed: bool)
      modifies this
      ensures State() == Register(old(State()), tok, c, note, touch)
      ensures file == if renamed then Fields(Save(State())) else old(file)
    {
      tokenCoin := tokenCoin[tok := c];
      tokenNote := tokenNote[tok := note];
      if touch { tokenTouch := tokenTouch[tok := true]; }
      SaveHeld(renamed);
    }

    /** The rebuild: either nothing happens, or every aggregate is the chain's truth about the
        tokens this strategy holds. */
    method ReconcileHeld(funder: string, chain: map<string, real>, renamed: bool)
      modifies this
      ensures Skips(old(State()), funder, chain) ==> State() == old(State()) && file == old(file)
      ensures !Skips(old(State()), funder, chain) ==>
                State() == RebuiltState(old(State()), chain) && file == if renamed then Fields(Save(State())) else old(file)
    {
      if funder == "" || tokenHeld == map[] || |chain| < 3 { return; }
      var newTotal, newCoin, newHeld := RebuildFromChain(State(), chain);
      assert newTotal == RebuiltState(State(), chain).total;
      var freed := total - newTotal;
      if Abs(freed) < 0.5 { return; }
      Install(newTotal, newCoin, newHeld);
      SaveHeld(renamed);
    }

    method Install(newTotal: real, newCoin: map<string, real>, newHeld: map<string, real>)
      modifies this`total, this`coin, this`tokenHeld
      ensures State() == old(State()).(total := newTotal, coin := newCoin, tokenHeld := newHeld)
    {
      tokenHeld, coin, total := newHeld, newCoin, newTotal;
    }

    /** settle_release.py, with the vendor stopped. */
    method ReleaseSettled(toks: seq<string>)
      modifies this
      ensures State() == Release(old(State()), toks)
      ensures file == Fields(Save(State()))
    {
      var i := 0;
      while i < |toks|
        invariant 0 <= i <= |toks|
        invariant Release(State(), toks[i..]) == Release(old(State()), toks)
      {
        assert toks[i..][1..] == toks[i + 1..];
        ReleaseToken(toks[i]);
        i := i + 1;
      }
      SaveHeld(true);
    }

    method ReleaseToken(tok: string)
      modifies this`total, this`coin, this`tokenHeld
      ensures State() == ReleaseOne(old(State()), tok)
    {
      var sh := Get(tokenHeld, tok);
      if sh <= 0.0 { return; }
      total := Max(0.0, total - sh);
      var c := if tok in tokenCoin then tokenCoin[tok] else "";
      if c in coin {
        assert coin[c := Max(0.0, coin[c] - sh)] - {c} == coin - {c};
        coin := coin[c := Max(0.0, coin[c] - sh)];
        if coin[c] == 0.0 { coin := coin - {c}; }
      }
      tokenHeld := tokenHeld[tok := 0.0];
    }

    /** The two legs' budgets, as the planner is given them each scan. */
    method SplitTouch() returns (core: Budget, touch: Budget)
      requires Balanced(State()) && NonNegative(tokenHeld)
      ensures core.total + touch.total == total
      ensures core.total == Sum(tokenHeld - Touched(State()))
      ensures forall c :: Get(core.coin, c) + Get(touch.coin, c) == Get(coin, c)
      ensures forall c :: Get(core.coin, c) == Sum(Only(tokenHeld - Touched(State()), TokensOf(State(), c)))
    {
      touch := TouchBudget(State());
      core := CoreBudget(State(), touch);
      SplitsTouch(State(), core, touch);
    }
  }
}
