// cpp/src/pmm/clob_submitter.cpp: the decimal rounding that turns a price and a size into the two
// integer amounts of an order. Exact reals throughout; floating point enters as an explicit error.
module Amounts {
  import opened Common

  datatype RoundConfig = RoundConfig(price: nat, size: nat, amount: nat)

  function ConfigFor(tickSize: string): RoundConfig {
    if tickSize == "0.1" then RoundConfig(1, 2, 3)
    else if tickSize == "0.01" then RoundConfig(2, 2, 4)
    else if tickSize == "0.001" then RoundConfig(3, 2, 5)
    else if tickSize == "0.0001" then RoundConfig(4, 2, 6)
    else RoundConfig(2, 2, 4)
  }

  /** The five rows of that table. */
  predicate Tabled(rc: RoundConfig) {
    1 <= rc.price <= 4 && rc.size == 2 && rc.amount == rc.price + 2
  }

  /** Every tick size gets a row, an unknown one the row of a cent. */
  lemma ConfigIsTabled(tickSize: string)
    ensures Tabled(ConfigFor(tickSize))
    ensures tickSize !in {"0.1", "0.001", "0.0001"} ==> ConfigFor(tickSize) == ConfigFor("0.01")
  {}

  function Zeros(n: nat): string {
    if n == 0 then "" else "0" + Zeros(n - 1)
  }

  /** A tick of one in the n-th decimal place. */
  function TickText(n: nat): string
    requires n > 0
  {
    "0." + Zeros(n - 1) + "1"
  }

  /** A tick in one of the first four decimal places gets a price of that many decimals; any other
      text gets two. */
  lemma ConfigByDecimals(tickSize: string)
    ensures forall n :: 1 <= n <= 4 ==> ConfigFor(TickText(n)).price == n
    ensures (forall n :: 1 <= n <= 4 ==> tickSize != TickText(n)) ==> ConfigFor(tickSize).price == 2
  {
    TickTexts();
    assert tickSize == TickText(1) || tickSize == TickText(2) || tickSize == TickText(3) || tickSize == TickText(4)
        || ConfigFor(tickSize).price == 2;
  }

  lemma TickTexts()
    ensures TickText(1) == "0.1" && TickText(2) == "0.01" && TickText(3) == "0.001" && TickText(4) == "0.0001"
  {
    assert Zeros(0) == "" && Zeros(1) == "0" && Zeros(2) == "00" && Zeros(3) == "000";
  }

  function Ceil(x: real): int {
    -((-x).Floor)
  }

  /** Round half to even, as nearbyint does. */
  function Nearest(x: real): int {
    var f := x.Floor;
    var d := x - f as real;
    if d < 0.5 then f else if d > 0.5 then f + 1 else if f % 2 == 0 then f else f + 1
  }

  const EPS := 0.000001

  // The three roundings, before the division by the scale.

  function UnitsNormal(x: real, n: nat): int { Nearest(x * Pow10(n) as real) }
  function UnitsDown(x: real, n: nat): int { (x * Pow10(n) as real + EPS).Floor }
  function UnitsUp(x: real, n: nat): int { Ceil(x * Pow10(n) as real - EPS) }

  function RoundNormal(x: real, n: nat): real { UnitsNormal(x, n) as real / Pow10(n) as real }
  function RoundDown(x: real, n: nat): real { UnitsDown(x, n) as real / Pow10(n) as real }
  function RoundUp(x: real, n: nat): real { UnitsUp(x, n) as real / Pow10(n) as real }

  function ToTokenDecimals(x: real): int { Nearest(1000000.0 * x) }

  datatype OrderAmounts = OrderAmounts(maker: int, taker: int, side: int)

  /** The product of the rounded size and price, and `err`, whatever floating point adds to it. */
  function Dollars(size: real, price: real, rc: RoundConfig, err: real): real {
    RoundDown(size, rc.size) * RoundNormal(price, rc.price) + err
  }

  function GetOrderAmounts(isBuy: bool, size: real, price: real, rc: RoundConfig, err: real): OrderAmounts {
    var shares := RoundDown(size, rc.size);
    var usdc := RoundDown(RoundUp(Dollars(size, price, rc, err), rc.amount + 4), rc.amount);
    if isBuy then OrderAmounts(ToTokenDecimals(usdc), ToTokenDecimals(shares), 0)
    else OrderAmounts(ToTokenDecimals(shares), ToTokenDecimals(usdc), 1)
  }

  /** The shares the dollars of a market buy pay for. */
  function Quotient(usdc: real, price: real, rc: RoundConfig): real {
    var rawPrice := RoundNormal(price, rc.price);
    if rawPrice > 0.0 then RoundDown(usdc, rc.size) / rawPrice else 0.0
  }

  function GetMarketOrderAmounts(isBuy: bool, amount: real, price: real, rc: RoundConfig): OrderAmounts {
    var rawMaker := RoundDown(amount, rc.size);
    var rawTaker := if isBuy then Quotient(amount, price, rc) else rawMaker * RoundNormal(price, rc.price);
    var taker := RoundDown(RoundUp(rawTaker, rc.amount + 4), rc.amount);
    OrderAmounts(ToTokenDecimals(rawMaker), ToTokenDecimals(taker), if isBuy then 0 else 1)
  }

  // ---- integers under the roundings ----

  lemma NearestOfInt(n: int)
    ensures Nearest(n as real) == n
  {}

  lemma Pow10s()
    ensures Pow10(1) == 10 && Pow10(2) == 100 && Pow10(3) == 1000 && Pow10(4) == 10000 && Pow10(5) == 100000
    ensures Pow10(6) == 1000000 && Pow10(7) == 10000000 && Pow10(8) == 100000000 && Pow10(9) == 1000000000
    ensures Pow10(10) == 10000000000
  {
    assert Pow10(1) == 10;
    assert Pow10(2) == 100;
    assert Pow10(3) == 1000;
    assert Pow10(4) == 10000;
    assert Pow10(5) == 100000;
    assert Pow10(6) == 1000000;
    assert Pow10(7) == 10000000;
    assert Pow10(8) == 100000000;
    assert Pow10(9) == 1000000000;
  }

  lemma {:induction false} Pow10Add(a: nat, b: nat)
    ensures Pow10(a + b) == Pow10(a) * Pow10(b)
    decreases a
  {
    if a > 0 {
      Pow10Add(a - 1, b);
      assert Pow10(a + b) == 10 * (Pow10(a - 1) * Pow10(b));
    }
  }

  /** Up at four more decimals, then down: units of the n-th decimal place. */
  function RoundPair(x: real, n: nat): int { UnitsDown(RoundUp(x, n + 4), n) }

  predicate Absorbed(eps: real) {
    -1.0 + 0.000001 < eps <= 9999.0 + 0.000001
  }

  /** The pair of roundings, up at four more decimals and down at the target, applied to a value
      that is m whole target units plus an error of `eps` fine units: it gives the m units back
      exactly when the error lies in this half-open interval. */
  lemma PairAbsorbsIff(x: real, m: int, eps: real, n: nat)
    requires x == m as real / Pow10(n) as real + eps / Pow10(n + 4) as real
    ensures RoundPair(x, n) == m <==> Absorbed(eps)
  {
    var y := m as real + eps / 10000.0;
    FineScale(n);
    ScaledSum(x, m, eps, Pow10(n) as real, Pow10(n + 4) as real);
    PairInUnits(x, y, n);
    UnitsIff(m, eps);
  }

  /** The pair on a value already scaled to target units. */
  function PairOf(y: real): int {
    (Ceil(y * 10000.0 - EPS) as real / 10000.0 + EPS).Floor
  }

  lemma PairInUnits(x: real, y: real, n: nat)
    requires x * Pow10(n) as real == y
    ensures RoundPair(x, n) == PairOf(y)
  {
    UpInUnits(x, y, n);
    UpThenCoarse(x, n);
    DownAt(RoundUp(x, n + 4), UnitsUp(x, n + 4) as real / 10000.0, n);
  }

  lemma UpInUnits(x: real, y: real, n: nat)
    requires x * Pow10(n) as real == y
    ensures UnitsUp(x, n + 4) == Ceil(y * 10000.0 - EPS)
  {
    FineScale(n);
    Regroup3(x, y, Pow10(n) as real, Pow10(n + 4) as real);
    UpAt(x, y * 10000.0, n + 4);
  }

  lemma UpThenCoarse(x: real, n: nat)
    ensures RoundUp(x, n + 4) * Pow10(n) as real == UnitsUp(x, n + 4) as real / 10000.0
  {
    FineScale(n);
    ScaledDown(UnitsUp(x, n + 4), Pow10(n) as real, Pow10(n + 4) as real);
  }

  lemma Regroup3(x: real, y: real, coarse: real, fine: real)
    requires fine == coarse * 10000.0 && x * coarse == y
    ensures x * fine == y * 10000.0
  {}

  lemma UpAt(x: real, z: real, n: nat)
    requires x * Pow10(n) as real == z
    ensures UnitsUp(x, n) == Ceil(z - EPS)
  {}

  lemma DownAt(x: real, z: real, n: nat)
    requires x * Pow10(n) as real == z
    ensures UnitsDown(x, n) == (z + EPS).Floor
  {}

  lemma FineScale(n: nat)
    ensures Pow10(n + 4) as real == Pow10(n) as real * 10000.0
  {
    Pow10Add(n, 4);
    Pow10s();
  }

  lemma UnitsIff(m: int, eps: real)
    ensures PairOf(m as real + eps / 10000.0) == m <==> Absorbed(eps)
  {
    var k := Ceil(eps - EPS);
    assert Ceil((m as real + eps / 10000.0) * 10000.0 - EPS) == 10000 * m + k by {
      CeilShift(eps - EPS, 10000 * m);
    }
    assert (10000 * m + k) as real / 10000.0 == m as real + k as real / 10000.0;
    assert 0 <= k <= 9999 <==> Absorbed(eps);
  }

  lemma ScaledSum(x: real, m: int, eps: real, coarse: real, fine: real)
    requires coarse > 0.0 && fine == coarse * 10000.0
    requires x == m as real / coarse + eps / fine
    ensures x * coarse == m as real + eps / 10000.0
  {
    var a, b := m as real / coarse, eps / fine;
    assert a * coarse == m as real && b * fine == eps;
    assert b * fine == (b * coarse) * 10000.0;
  }

  lemma ScaledDown(u: int, coarse: real, fine: real)
    requires coarse > 0.0 && fine == coarse * 10000.0
    ensures (u as real / fine) * coarse == u as real / 10000.0
  {
    var y := u as real / fine;
    assert y * fine == u as real;
    assert y * fine == (y * coarse) * 10000.0;
  }

  lemma CeilShift(x: real, n: int)
    ensures Ceil(x + n as real) == Ceil(x) + n
  {}

  // ---- exact amounts ----

  /** Shares are whole hundredths: the largest not above the size (up to the tolerance). */
  function Hundredths(size: real): int { UnitsDown(size, 2) }

  /** A size that should be j hundredths is read as j exactly when its error stays within this
      interval: the tolerance absorbs a representation just below, and nothing is added. */
  lemma HundredthsIff(j: int, size: real)
    ensures Hundredths(size) == j <==> j as real - EPS <= size * 100.0 < j as real + 1.0 - EPS
  {
    Pow10s();
  }

  /** The price in ticks: the nearest whole number (NearestIff), the even one at a tie. */
  function PriceTicks(price: real, rc: RoundConfig): int { UnitsNormal(price, rc.price) }

  predicate NearestTo(x: real, k: int) {
    Abs(x - k as real) < 0.5 || (Abs(x - k as real) == 0.5 && k % 2 == 0)
  }

  lemma NearestIff(x: real, k: int)
    ensures Nearest(x) == k <==> NearestTo(x, k)
  {
    var f := x.Floor;
    if Abs(x - k as real) <= 0.5 {
      assert k == f || k == f + 1;
    }
  }

  /** An error of the product, in units of the decimal place the rounding first works at. */
  function FineError(err: real, rc: RoundConfig): real { err * Pow10(rc.amount + 4) as real }

  /** The dollar side of an order, in units of its last decimal place. */
  function UsdcUnits(size: real, price: real, rc: RoundConfig, err: real): int {
    RoundPair(Dollars(size, price, rc, err), rc.amount)
  }

  lemma DollarsInUnits(size: real, price: real, rc: RoundConfig, err: real)
    requires Tabled(rc)
    ensures Dollars(size, price, rc, err)
         == (Hundredths(size) * PriceTicks(price, rc)) as real / Pow10(rc.amount) as real
          + FineError(err, rc) / Pow10(rc.amount + 4) as real
  {
    var j, k := Hundredths(size), PriceTicks(price, rc);
    Coarse(rc);
    ProductUnits(j, k, Pow10(rc.price) as real);
    Unscale(err, Pow10(rc.amount + 4) as real);
  }

  /** It is the exact product of the hundredths and the price in ticks exactly when the error is
      absorbed. */
  lemma UsdcUnitsIff(size: real, price: real, rc: RoundConfig, err: real)
    requires Tabled(rc)
    ensures UsdcUnits(size, price, rc, err) == Hundredths(size) * PriceTicks(price, rc) <==> Absorbed(FineError(err, rc))
  {
    var x, m := Dollars(size, price, rc, err), Hundredths(size) * PriceTicks(price, rc);
    DollarsInUnits(size, price, rc, err);
    PairAbsorbsIff(x, m, FineError(err, rc), rc.amount);
  }

  lemma Coarse(rc: RoundConfig)
    requires Tabled(rc)
    ensures Pow10(rc.amount) as real == 100.0 * Pow10(rc.price) as real
    ensures Pow10(rc.amount) * Pow10(4 - rc.price) == 1000000
    ensures Pow10(rc.price) * Pow10(4 - rc.price) == 10000
    ensures Pow10(rc.size) == 100
  {
    Pow10s();
    Pow10Add(2, rc.price);
    Pow10Add(rc.amount, 4 - rc.price);
    Pow10Add(rc.price, 4 - rc.price);
  }

  lemma Unscale(err: real, fine: real)
    requires fine > 0.0
    ensures err * fine / fine == err
  {}

  lemma ProductUnits(j: int, k: int, tick: real)
    requires tick > 0.0
    ensures (j as real / 100.0) * (k as real / tick) == (j * k) as real / (100.0 * tick)
  {
    var b := k as real / tick;
    assert b * tick == k as real;
    var c := (j * k) as real / (100.0 * tick);
    assert c * (100.0 * tick) == (j * k) as real == j as real * k as real;
    assert ((j as real / 100.0) * b) * (100.0 * tick) == j as real * (b * tick);
  }

  /** Whole units at p + 2 decimals, and whole hundredths, are whole millionths. */
  lemma ToMicros(u: int, j: int, rc: RoundConfig)
    requires Tabled(rc)
    ensures ToTokenDecimals(u as real / Pow10(rc.amount) as real) == u * Pow10(4 - rc.price)
    ensures ToTokenDecimals(j as real / Pow10(rc.size) as real) == 10000 * j
  {
    Coarse(rc);
    WholeMicros(u, Pow10(rc.amount), Pow10(4 - rc.price));
    WholeMicros(j, Pow10(rc.size), 10000);
  }

  lemma WholeMicros(u: int, coarse: int, scale: int)
    requires coarse > 0 && coarse * scale == 1000000
    ensures ToTokenDecimals(u as real / coarse as real) == u * scale
  {
    assert coarse as real * scale as real == 1000000.0;
    Scale(u, coarse as real, scale as real);
    assert u as real * scale as real == (u * scale) as real;
    NearestOfInt(u * scale);
  }

  lemma Scale(u: int, coarse: real, scale: real)
    requires coarse > 0.0 && coarse * scale == 1000000.0
    ensures 1000000.0 * (u as real / coarse) == u as real * scale
  {
    var x := u as real / coarse;
    assert x * coarse == u as real;
    assert 1000000.0 * x == (x * coarse) * scale;
  }

  /** The two amounts in millionths, from the two sides in their own units. */
  function InMicros(isBuy: bool, usdc: int, hundredths: int, rc: RoundConfig): OrderAmounts
    requires Tabled(rc)
  {
    var u, shares := usdc * Pow10(4 - rc.price), 10000 * hundredths;
    if isBuy then OrderAmounts(u, shares, 0) else OrderAmounts(shares, u, 1)
  }

  lemma AmountsInUnits(isBuy: bool, size: real, price: real, rc: RoundConfig, err: real)
    requires Tabled(rc)
    ensures GetOrderAmounts(isBuy, size, price, rc, err)
         == InMicros(isBuy, UsdcUnits(size, price, rc, err), Hundredths(size), rc)
  {
    ToMicros(UsdcUnits(size, price, rc, err), Hundredths(size), rc);
  }

  lemma SharesInMicros(size: real, price: real, rc: RoundConfig, err: real)
    requires Tabled(rc)
    ensures GetOrderAmounts(false, size, price, rc, err).maker == 10000 * Hundredths(size)
  {
    AmountsInUnits(false, size, price, rc, err);
  }

  /** For every row of the table, every size and price, and every numerical error of the product
      within the absorbed interval, the two amounts stand in exactly the quoted price: usdc times
      ticks per dollar equals the price in ticks times shares. */
  lemma OrderAmountsExact(isBuy: bool, size: real, price: real, rc: RoundConfig, err: real)
    requires Tabled(rc) && Absorbed(FineError(err, rc))
    ensures var o := GetOrderAmounts(isBuy, size, price, rc, err);
            var (usdc, shares) := if isBuy then (o.maker, o.taker) else (o.taker, o.maker);
            && usdc * Pow10(rc.price) == PriceTicks(price, rc) * shares
            && shares == 10000 * Hundredths(size)
            && o.side == if isBuy then 0 else 1
  {
    var j, k := Hundredths(size), PriceTicks(price, rc);
    AmountsInUnits(isBuy, size, price, rc, err);
    UsdcUnitsIff(size, price, rc, err);
    Coarse(rc);
    Regroup(j, k, Pow10(4 - rc.price), Pow10(rc.price));
  }

  lemma Regroup(j: int, k: int, a: int, b: int)
    requires b * a == 10000
    ensures ((j * k) * a) * b == k * (10000 * j)
  {
    assert ((j * k) * a) * b == (j * k) * (b * a);
  }

  /** And only then: an error outside the interval changes the amounts. */
  lemma AbsorbedIff(isBuy: bool, size: real, price: real, rc: RoundConfig, err: real)
    requires Tabled(rc)
    ensures GetOrderAmounts(isBuy, size, price, rc, err) == GetOrderAmounts(isBuy, size, price, rc, 0.0)
            <==> Absorbed(FineError(err, rc))
  {
    AmountsInUnits(isBuy, size, price, rc, err);
    AmountsInUnits(isBuy, size, price, rc, 0.0);
    UsdcUnitsIff(size, price, rc, err);
    UsdcUnitsIff(size, price, rc, 0.0);
    Cancel(UsdcUnits(size, price, rc, err), UsdcUnits(size, price, rc, 0.0), Pow10(4 - rc.price));
  }

  lemma Cancel(u: int, w: int, a: int)
    requires a > 0
    ensures u * a == w * a <==> u == w
  {
    if u != w { assert (u - w) * a != 0; }
  }

  /** A market buy pays for its shares at the rounded price: the quotient times the price in ticks
      is the dollars, in ticks, and a price that rounds to no tick buys nothing. */
  lemma QuotientPays(usdc: real, price: real, rc: RoundConfig)
    ensures PriceTicks(price, rc) > 0 ==>
              Quotient(usdc, price, rc) * PriceTicks(price, rc) as real == RoundDown(usdc, rc.size) * Pow10(rc.price) as real
    ensures PriceTicks(price, rc) <= 0 ==> Quotient(usdc, price, rc) == 0.0
  {
    TimesQuotient(RoundDown(usdc, rc.size), PriceTicks(price, rc), Pow10(rc.price));
  }

  lemma TimesQuotient(a: real, k: int, s: int)
    requires s > 0
    ensures k as real / s as real > 0.0 <==> k > 0
    ensures k > 0 ==> a / (k as real / s as real) * k as real == a * s as real
  {
    var p := k as real / s as real;
    assert p * s as real == k as real;
    if k > 0 {
      assert p > 0.0;
      var q := a / p;
      assert q * p == a;
      assert q * k as real == (q * p) * s as real;
    } else {
      assert p > 0.0 ==> p * s as real > 0.0;
    }
  }

  /** A market buy asks for that quotient in units of the last decimal place, short of it by less
      than one unit and above it by at most the rounding-up step. */
  lemma MarketBuyBracket(usdc: real, price: real, rc: RoundConfig)
    requires Tabled(rc)
    ensures GetMarketOrderAmounts(true, usdc, price, rc)
         == OrderAmounts(10000 * Hundredths(usdc), RoundPair(Quotient(usdc, price, rc), rc.amount) * Pow10(4 - rc.price), 0)
    ensures Bracketed(RoundPair(Quotient(usdc, price, rc), rc.amount), Quotient(usdc, price, rc) * Pow10(rc.amount) as real)
  {
    var quotient := Quotient(usdc, price, rc);
    ToMicros(RoundPair(quotient, rc.amount), Hundredths(usdc), rc);
    PairBracket(quotient, quotient * Pow10(rc.amount) as real, rc.amount);
  }

  predicate Bracketed(units: int, exact: real) {
    exact - 1.0 < units as real <= exact + 0.0002
  }

  lemma PairBracket(x: real, y: real, n: nat)
    requires x * Pow10(n) as real == y
    ensures Bracketed(RoundPair(x, n), y)
  {
    PairInUnits(x, y, n);
  }

  /** A market sell is priced like a limit sell. */
  lemma MarketSellIsLimitSell(amount: real, price: real, rc: RoundConfig)
    ensures GetMarketOrderAmounts(false, amount, price, rc) == GetOrderAmounts(false, amount, price, rc, 0.0)
  {}
}
