/**
  The position valuation engine of the dashboard (`calculatePosition` and its
  inner `getV3Value`): a range-bounded liquidity position valued with
  square-root-price math, hedged by a short sized from the two range bounds.

  Arithmetic is over `real`. `Math.sqrt` has no counterpart, so every square
  root the computation takes is an input, tied to its argument by `IsRoot`.
*/
module Valuation {
  import opened Wrappers

  /** JavaScript `x || d` on a number: zero is falsy and falls back to `d`. */
  function OrElse(x: real, d: real): real
  {
    if x == 0.0 then d else x
  }

  /** `s` is what `Math.sqrt(x)` returns for a positive `x`. */
  predicate IsRoot(s: real, x: real)
  {
    s > 0.0 && s * s == x
  }

  /** The arguments of `calculatePosition`, in its order. */
  datatype Inputs = Inputs(
    entry: real,     // P_entry
    current: real,   // P_current
    low: real,       // PL
    high: real,      // PH
    inv: real,       // capital invested at entry
    apr: real,       // estimated yield, percent per year
    hours: real,     // elapsed hours for fee accrual
    lev: real,       // short leverage
    skipFees: bool)

  /** The square roots taken: of `P_entry || 1`, `PL || 0.1`, `PH || 100000`, and of `P_current`. */
  datatype Roots = Roots(entry: real, low: real, high: real, current: real)

  /**
    Prices are not negative (a negative one makes `Math.sqrt` return NaN), and
    each root is the square root of what the code passes to `Math.sqrt`. The
    root of `P_current` is only taken when it is positive.
  */
  predicate WellFormed(p: Inputs, r: Roots)
  {
    && p.entry >= 0.0 && p.low >= 0.0 && p.high >= 0.0
    && IsRoot(r.entry, OrElse(p.entry, 1.0))
    && IsRoot(r.low, OrElse(p.low, 0.1))
    && IsRoot(r.high, OrElse(p.high, 100000.0))
    && (p.current > 0.0 ==> IsRoot(r.current, p.current))
  }

  /** What the computation needs to be defined: positive roots of the entry and the bounds, and
      of the current price wherever the in-range branch values it. Implied by `WellFormed`. */
  predicate Rooted(p: Inputs, r: Roots)
  {
    && r.entry > 0.0 && r.low > 0.0 && r.high > 0.0
    && (p.low < p.current < p.high ==> r.current > 0.0)
  }

  /** The liquidity curve `getV3Value` closes over: `L`, the raw bounds and the bounds' roots. */
  datatype Curve = Curve(liq: real, low: real, high: real, sqrtLow: real, sqrtHigh: real)

  predicate Defined(c: Curve)
  {
    c.sqrtLow > 0.0 && c.sqrtHigh > 0.0
  }

  /** The bounds' roots are the square roots of the bounds themselves, and the range is not empty. */
  predicate Calibrated(c: Curve)
  {
    0.0 < c.low < c.high && IsRoot(c.sqrtLow, c.low) && IsRoot(c.sqrtHigh, c.high)
  }

  /** `st` may stand for `Math.sqrt(t)` wherever the in-range branch uses it. */
  predicate RootFor(c: Curve, t: real, st: real)
  {
    c.low < t < c.high ==> st > 0.0
  }

  /** Below the range the position is all risk asset. */
  function BelowValue(c: Curve, t: real): real
    requires Defined(c)
  {
    c.liq * (1.0 / c.sqrtLow - 1.0 / c.sqrtHigh) * t
  }

  /** Above the range the position is all stable asset. */
  function AboveValue(c: Curve): real
  {
    c.liq * (c.sqrtHigh - c.sqrtLow)
  }

  /** Inside the range: stable part plus risk part valued at `t`. */
  function InRangeValue(c: Curve, t: real, st: real): real
    requires Defined(c) && st > 0.0
  {
    c.liq * (st - c.sqrtLow) + c.liq * (1.0 / st - 1.0 / c.sqrtHigh) * t
  }

  /** `getV3Value(t)`, with `st` for `Math.sqrt(t)`. */
  function V3Value(c: Curve, t: real, st: real): real
    requires Defined(c) && RootFor(c, t, st)
  {
    if t <= c.low then BelowValue(c, t)
    else if t >= c.high then AboveValue(c)
    else InRangeValue(c, t, st)
  }

  /** `rangeConst`: the position value per unit of liquidity at entry. */
  function RangeConst(p: Inputs, r: Roots): real
    requires Rooted(p, r)
  {
    (r.entry - r.low) + p.entry * (1.0 / r.entry - 1.0 / r.high)
  }

  /** `L = inv / (rangeConst || 1)`. */
  function Liquidity(p: Inputs, r: Roots): real
    requires Rooted(p, r)
  {
    p.inv / OrElse(RangeConst(p, r), 1.0)
  }

  function CurveOf(p: Inputs, r: Roots): (c: Curve)
    requires Rooted(p, r)
    ensures Defined(c)
  {
    Curve(Liquidity(p, r), p.low, p.high, r.low, r.high)
  }

  /** `balancedShortSize`: the slope of the position value between the two bounds. */
  function HedgeSize(c: Curve): real
    requires Defined(c)
  {
    (V3Value(c, c.low, c.sqrtLow) - V3Value(c, c.high, c.sqrtHigh)) / OrElse(c.low - c.high, 1.0)
  }

  /** Linear fee accrual from an APR in percent; `skipFees` forces zero. */
  function AccruedFees(inv: real, apr: real, hours: real, skipFees: bool): (fees: real)
    ensures fees == if skipFees then 0.0 else inv * apr * hours / 876000.0
  {
    var dailyRate := apr / 100.0 / 365.0;
    if skipFees then 0.0 else inv * (dailyRate / 24.0) * hours
  }

  /** `liqPrice`: the short's liquidation price; `lev || 3` replaces a zero leverage only. */
  function LiqPrice(entry: real, lev: real): real
  {
    entry * (1.0 + (1.0 / OrElse(lev, 3.0)))
  }

  /** `distToLiq` in percent of the current price; JavaScript yields no finite number for a zero price. */
  function DistToLiq(liqPrice: real, current: real): Option<real>
  {
    if current == 0.0 then None else Some(((liqPrice - current) / current) * 100.0)
  }

  /** `feesToBEP`: `Math.max(0, raw < 0 ? Math.abs(raw) : 0)` for the price-only PnL `raw`. */
  function FeesToBreakEven(raw: real): real
  {
    var shortfall := if raw < 0.0 then -raw else 0.0;
    if shortfall > 0.0 then shortfall else 0.0
  }

  /** `tokenAmount`: the risk-asset side of the position at entry. */
  function TokenAmount(p: Inputs, r: Roots): real
    requires Rooted(p, r)
  {
    Liquidity(p, r) * (1.0 / r.entry - 1.0 / r.high)
  }

  /** `usdcAmount`: the stable side of the position at entry. */
  function UsdcAmount(p: Inputs, r: Roots): real
    requires Rooted(p, r)
  {
    Liquidity(p, r) * (r.entry - r.low)
  }

  /** The record `calculatePosition` returns. `distToLiq` is `None` where JavaScript divides by a zero price. */
  datatype Snapshot = Snapshot(
    pnlLP: real,
    shortPnL: real,
    accumulatedFees: real,
    totalNetPnL: real,
    balancedShortSize: real,
    v3ValueCurrent: real,
    liqPrice: real,
    distToLiq: Option<real>,
    isOOR: bool,
    shortValueUSD: real,
    tokenAmount: real,
    usdcAmount: real,
    equityValue: real,
    maxLossLow: real,
    maxLossHigh: real,
    feesToBEP: real)

  function CalculatePosition(p: Inputs, r: Roots): (s: Snapshot)
    requires Rooted(p, r)
  {
    var c := CurveOf(p, r);

    var v3ValueCurrent := V3Value(c, p.current, r.current);
    var pnlLP := v3ValueCurrent - p.inv;

    var balancedShortSize := HedgeSize(c);
    var shortPnL := (p.entry - p.current) * balancedShortSize;

    var accumulatedFees := AccruedFees(p.inv, p.apr, p.hours, p.skipFees);
    var totalNetPnL := pnlLP + shortPnL + accumulatedFees;

    var liqPrice := LiqPrice(p.entry, p.lev);
    var distToLiq := DistToLiq(liqPrice, p.current);

    var isOOR := p.current < p.low || p.current > p.high;

    var maxLossLow := LossAt(c, p.inv, p.entry, c.low, c.sqrtLow);
    var maxLossHigh := LossAt(c, p.inv, p.entry, c.high, c.sqrtHigh);

    var rawPricePnL := pnlLP + shortPnL;

    Snapshot(
      pnlLP, shortPnL, accumulatedFees, totalNetPnL, balancedShortSize,
      v3ValueCurrent, liqPrice, distToLiq, isOOR,
      balancedShortSize * p.current,
      TokenAmount(p, r), UsdcAmount(p, r),
      v3ValueCurrent + shortPnL,
      maxLossLow, maxLossHigh,
      FeesToBreakEven(rawPricePnL))
  }

  /** `maxLossLow` / `maxLossHigh`: position PnL plus short PnL, fees excluded, if the price ends at `t`. */
  function LossAt(c: Curve, inv: real, entry: real, t: real, st: real): real
    requires Defined(c) && RootFor(c, t, st)
  {
    (V3Value(c, t, st) - inv) + (entry - t) * HedgeSize(c)
  }

  /** The loss at the low bound equals the loss at the high bound, whatever the entry price. */
  lemma HedgeBalances(c: Curve, inv: real, entry: real)
    requires Defined(c)
    ensures LossAt(c, inv, entry, c.low, c.sqrtLow) == LossAt(c, inv, entry, c.high, c.sqrtHigh)
  {
    var vLow, vHigh := V3Value(c, c.low, c.sqrtLow), V3Value(c, c.high, c.sqrtHigh);
    if c.low == c.high {
      assert vLow == vHigh;
    } else {
      var size := HedgeSize(c);
      assert size * (c.low - c.high) == vLow - vHigh;
    }
  }

  /** The three PnL views agree: net of fees, price-only, and equity against capital. */
  lemma PnLViewsAgree(p: Inputs, r: Roots)
    requires Rooted(p, r)
    ensures var s := CalculatePosition(p, r);
      s.totalNetPnL - s.accumulatedFees == s.pnlLP + s.shortPnL == s.equityValue - p.inv
  {
  }

  /** `feesToBEP` is the least non-negative fee income that brings the price-only PnL to break-even. */
  lemma BreakEvenFees(raw: real)
    ensures FeesToBreakEven(raw) >= 0.0
    ensures raw + FeesToBreakEven(raw) >= 0.0
    ensures FeesToBreakEven(raw) > 0.0 ==> raw + FeesToBreakEven(raw) == 0.0
  {
  }

  /** The snapshot's `feesToBEP` closes the price-only PnL exactly when that is a loss, and is 0 otherwise. */
  lemma BreakEvenOfSnapshot(p: Inputs, r: Roots)
    requires Rooted(p, r)
    ensures var s := CalculatePosition(p, r);
      && s.feesToBEP >= 0.0
      && (s.pnlLP + s.shortPnL < 0.0 ==> s.feesToBEP == -(s.pnlLP + s.shortPnL))
      && (s.pnlLP + s.shortPnL >= 0.0 ==> s.feesToBEP == 0.0)
  {
    var s := CalculatePosition(p, r);
    BreakEvenFees(s.pnlLP + s.shortPnL);
  }

  /** Hedge balance: the max loss at the low bound is the max loss at the high bound. */
  lemma MaxLossSymmetric(p: Inputs, r: Roots)
    requires Rooted(p, r)
    ensures CalculatePosition(p, r).maxLossLow == CalculatePosition(p, r).maxLossHigh
  {
    HedgeBalances(CurveOf(p, r), p.inv, p.entry);
  }

  /** Fee accrual is additive in the elapsed hours and nothing accrues in zero hours. */
  lemma FeesLinearInHours(inv: real, apr: real, h1: real, h2: real, skipFees: bool)
    ensures AccruedFees(inv, apr, h1 + h2, skipFees)
            == AccruedFees(inv, apr, h1, skipFees) + AccruedFees(inv, apr, h2, skipFees)
    ensures AccruedFees(inv, apr, 0.0, skipFees) == 0.0
  {
    var k := inv * apr;
    assert k * (h1 + h2) == k * h1 + k * h2;
  }

  /** Liquidation sits one leverage-th of the entry price above entry, and `distToLiq` is the
      percentage move of the current price that reaches it. */
  lemma LiquidationDistance(entry: real, lev: real, current: real)
    ensures LiqPrice(entry, lev) - entry == entry / OrElse(lev, 3.0)
    ensures DistToLiq(LiqPrice(entry, lev), current).Some? <==> current != 0.0
    ensures DistToLiq(LiqPrice(entry, lev), current).Some? ==>
              current * (1.0 + DistToLiq(LiqPrice(entry, lev), current).value / 100.0) == LiqPrice(entry, lev)
  {
    var liq := LiqPrice(entry, lev);
    if current != 0.0 {
      var d := (liq - current) / current;
      assert d * current == liq - current;
    }
  }

  /** The entry split into token and stable amounts recombines to the capital. */
  lemma SplitRecombinesToCapital(p: Inputs, r: Roots)
    requires Rooted(p, r) && RangeConst(p, r) != 0.0
    ensures TokenAmount(p, r) * p.entry + UsdcAmount(p, r) == p.inv
  {
    var rc, L := RangeConst(p, r), Liquidity(p, r);
    assert L * rc == p.inv;
  }

  // ---------------------------------------------------------------------------
  // Square roots

  /** Positive square roots order like their squares. */
  lemma RootsOrdered(s1: real, x1: real, s2: real, x2: real)
    requires IsRoot(s1, x1) && IsRoot(s2, x2)
    ensures x1 <= x2 <==> s1 <= s2
    ensures x1 == x2 <==> s1 == s2
  {
    assert (s2 - s1) * (s2 + s1) == x2 - x1;
    if s1 < s2 {
      assert (s2 - s1) * (s2 + s1) > 0.0;
    } else if s2 < s1 {
      assert (s1 - s2) * (s2 + s1) > 0.0;
    }
  }

  // ---------------------------------------------------------------------------
  // Conservation: the liquidity is calibrated so that the position is worth the capital at entry

  /** `x * (1/s - 1/h) == s * (h - s) / h` when `s` is the root of `x`. */
  lemma ScaledRootDifference(x: real, s: real, h: real)
    requires IsRoot(s, x) && h > 0.0
    ensures x * (1.0 / s - 1.0 / h) == s * (h - s) / h
  {
    assert x * (1.0 / s) == s;
    assert x * (1.0 / h) == s * s / h;
  }

  /** With a proper range around the entry, `rangeConst` is positive, so the `|| 1` guard never fires. */
  lemma RangeConstPositive(p: Inputs, r: Roots)
    requires WellFormed(p, r)
    requires 0.0 < p.low < p.high && p.low <= p.entry <= p.high
    ensures RangeConst(p, r) > 0.0
  {
    var sP, sL, sH := r.entry, r.low, r.high;
    RootsOrdered(sL, p.low, sP, p.entry);
    RootsOrdered(sP, p.entry, sH, p.high);
    RootsOrdered(sL, p.low, sH, p.high);
    ScaledRootDifference(p.entry, sP, sH);
    var tail := sP * (sH - sP) / sH;
    assert RangeConst(p, r) == (sP - sL) + tail;
    if sP == sL {
      assert sP * (sH - sP) > 0.0;
      assert tail > 0.0;
    } else {
      assert sP * (sH - sP) >= 0.0;
      assert tail >= 0.0;
    }
  }

  /** For a proper range around the entry and non-negative capital, the curve `calculatePosition`
      builds has the bounds' own roots, a non-empty range and non-negative liquidity: the curve
      the continuity and monotonicity lemmas below speak about. */
  lemma CurveOfCalibrated(p: Inputs, r: Roots)
    requires WellFormed(p, r) && 0.0 < p.low < p.high && p.low <= p.entry <= p.high && p.inv >= 0.0
    ensures Calibrated(CurveOf(p, r)) && CurveOf(p, r).liq >= 0.0
  {
    RangeConstPositive(p, r);
    assert Liquidity(p, r) == p.inv / RangeConst(p, r);
  }

  /** With a nonzero `rangeConst` the `|| 1` guard does not fire, and `L * rangeConst == inv`. */
  lemma LiquidityCalibrated(p: Inputs, r: Roots)
    requires Rooted(p, r) && RangeConst(p, r) != 0.0
    ensures Liquidity(p, r) * RangeConst(p, r) == p.inv
  {
    var rc := RangeConst(p, r);
    assert Liquidity(p, r) == p.inv / rc;
  }

  /** At a price whose root is the low bound's root the in-range formula is the below-range one. */
  lemma MeetsBelow(c: Curve, t: real, st: real)
    requires Defined(c) && st == c.sqrtLow
    ensures InRangeValue(c, t, st) == BelowValue(c, t)
  {
    assert c.liq * (st - c.sqrtLow) == 0.0;
  }

  /** At the high bound itself the in-range formula is the above-range value. */
  lemma MeetsAbove(c: Curve, t: real, st: real)
    requires Defined(c) && st == c.sqrtHigh && IsRoot(st, t)
    ensures InRangeValue(c, t, st) == AboveValue(c)
  {
    assert (1.0 / st - 1.0 / c.sqrtHigh) == 0.0;
    assert c.liq * (1.0 / st - 1.0 / c.sqrtHigh) * t == 0.0;
  }

  /** The entry price is valued by the in-range formula at its own root, whichever branch is taken. */
  lemma EntryOnRange(p: Inputs, r: Roots)
    requires WellFormed(p, r)
    requires 0.0 < p.entry && p.low <= p.entry <= p.high
    ensures V3Value(CurveOf(p, r), p.entry, r.entry) == InRangeValue(CurveOf(p, r), p.entry, r.entry)
  {
    var c := CurveOf(p, r);
    if p.entry <= p.low {
      RootsOrdered(r.low, p.low, r.entry, p.entry);
      MeetsBelow(c, p.entry, r.entry);
    } else if p.entry >= p.high {
      RootsOrdered(r.high, p.high, r.entry, p.entry);
      MeetsAbove(c, p.entry, r.entry);
    }
  }

  /** At the entry price the in-range formula is `L * rangeConst`. */
  lemma EntryValueFactors(p: Inputs, r: Roots)
    requires Rooted(p, r)
    ensures InRangeValue(CurveOf(p, r), p.entry, r.entry) == Liquidity(p, r) * RangeConst(p, r)
  {
    var L, a, b := Liquidity(p, r), r.entry - r.low, p.entry * (1.0 / r.entry - 1.0 / r.high);
    assert L * a + L * (1.0 / r.entry - 1.0 / r.high) * p.entry == L * (a + b);
  }

  /** `getV3Value(P_entry) == inv`: whichever branch values the entry price, the result is the capital. */
  lemma ValueAtEntryIsCapital(p: Inputs, r: Roots)
    requires WellFormed(p, r)
    requires 0.0 < p.entry && p.low <= p.entry <= p.high && RangeConst(p, r) != 0.0
    ensures V3Value(CurveOf(p, r), p.entry, r.entry) == p.inv
  {
    LiquidityCalibrated(p, r);
    EntryOnRange(p, r);
    EntryValueFactors(p, r);
  }

  /** At the entry price nothing is lost or won before fees: `pnlLP == 0` and `shortPnL == 0`. */
  lemma NoMoveNoPnL(p: Inputs, r: Roots)
    requires WellFormed(p, r)
    requires 0.0 < p.entry && p.low <= p.entry <= p.high && RangeConst(p, r) != 0.0
    requires p.current == p.entry
    ensures CalculatePosition(p, r).pnlLP == 0.0
    ensures CalculatePosition(p, r).shortPnL == 0.0
    ensures CalculatePosition(p, r).totalNetPnL == CalculatePosition(p, r).accumulatedFees
  {
    RootsOrdered(r.entry, p.entry, r.current, p.current);
    ValueAtEntryIsCapital(p, r);
  }

  // ---------------------------------------------------------------------------
  // The out-of-range flag and the branch that values the current price

  /** On `[PL, PH]`, with the bounds' own roots at the bounds, `getV3Value` is the in-range formula. */
  lemma InRangeIncludesBounds(c: Curve, t: real, st: real)
    requires Defined(c) && c.low <= t <= c.high && IsRoot(st, t)
    requires t == c.low ==> st == c.sqrtLow
    requires t == c.high ==> st == c.sqrtHigh
    ensures V3Value(c, t, st) == InRangeValue(c, t, st)
  {
    if t <= c.low {
      MeetsBelow(c, t, st);
    } else if t >= c.high {
      MeetsAbove(c, t, st);
    }
  }

  /** When `isOOR` is false the in-range formula values the current price, including at the
      bounds; when it is true the position is all risk asset below and all stable asset above. */
  lemma RangeFlagSelectsBranch(p: Inputs, r: Roots)
    requires WellFormed(p, r) && p.low <= p.high
    ensures var s, c := CalculatePosition(p, r), CurveOf(p, r);
      && (s.isOOR <==> p.current < p.low || p.current > p.high)
      && (!s.isOOR && p.current > 0.0 ==> s.v3ValueCurrent == InRangeValue(c, p.current, r.current))
      && (s.isOOR && p.current < p.low ==> s.v3ValueCurrent == BelowValue(c, p.current))
      && (s.isOOR && p.current > p.high ==> s.v3ValueCurrent == AboveValue(c))
  {
    if p.low <= p.current <= p.high && p.current > 0.0 {
      if p.current == p.low {
        RootsOrdered(r.low, p.low, r.current, p.current);
      }
      if p.current == p.high {
        RootsOrdered(r.high, p.high, r.current, p.current);
      }
      InRangeIncludesBounds(CurveOf(p, r), p.current, r.current);
    }
  }

  // ---------------------------------------------------------------------------
  // Continuity of the piecewise valuation

  /** The in-range formula meets the below-range formula at `PL` and the above-range value at `PH`. */
  lemma BranchesMeetAtBounds(c: Curve)
    requires Calibrated(c)
    ensures InRangeValue(c, c.low, c.sqrtLow) == BelowValue(c, c.low)
    ensures InRangeValue(c, c.high, c.sqrtHigh) == AboveValue(c)
  {
  }

  /** The below-range slope: the largest rate at which the position value changes with the price. */
  function Slope(c: Curve): real
    requires Defined(c)
  {
    c.liq * (1.0 / c.sqrtLow - 1.0 / c.sqrtHigh)
  }

  lemma SlopeNonNegative(c: Curve)
    requires Calibrated(c) && c.liq >= 0.0
    ensures Slope(c) >= 0.0
  {
    RootsOrdered(c.sqrtLow, c.low, c.sqrtHigh, c.high);
    assert 1.0 / c.sqrtLow >= 1.0 / c.sqrtHigh;
  }

  /** Inside the range, the value at root `s` is `L * (2s - sqrtPL - s^2 / sqrtPH)`. */
  lemma InRangeClosedForm(c: Curve, s: real)
    requires Defined(c) && s > 0.0
    ensures InRangeValue(c, s * s, s) == c.liq * (2.0 * s - c.sqrtLow - s * s / c.sqrtHigh)
  {
    assert (1.0 / s) * (s * s) == s;
  }

  /** The change of the in-range value between roots `s1` and `s2`, factored. */
  lemma InRangeDifference(c: Curve, s1: real, s2: real)
    requires Defined(c) && s1 > 0.0 && s2 > 0.0
    ensures InRangeValue(c, s2 * s2, s2) - InRangeValue(c, s1 * s1, s1)
            == c.liq * ((s2 - s1) * (2.0 - (s1 + s2) / c.sqrtHigh))
  {
    InRangeClosedForm(c, s1);
    InRangeClosedForm(c, s2);
    ClosedFormDifference(c.liq, c.sqrtLow, c.sqrtHigh, s1, s2);
  }

  /** `L * (2s - a - s^2/h)` changes by `L * ((s2 - s1) * (2 - (s1 + s2)/h))` from `s1` to `s2`. */
  lemma ClosedFormDifference(L: real, a: real, h: real, s1: real, s2: real)
    requires h > 0.0
    ensures L * (2.0 * s2 - a - s2 * s2 / h) - L * (2.0 * s1 - a - s1 * s1 / h)
            == L * ((s2 - s1) * (2.0 - (s1 + s2) / h))
  {
    assert s2 * s2 / h - s1 * s1 / h == (s2 - s1) * (s1 + s2) / h;
    assert (2.0 * s2 - a - s2 * s2 / h) - (2.0 * s1 - a - s1 * s1 / h)
           == (s2 - s1) * (2.0 - (s1 + s2) / h);
  }

  /** `Slope(c)` times the price change between roots `s1` and `s2`, factored. */
  lemma SlopeSpan(c: Curve, s1: real, s2: real)
    requires Defined(c)
    ensures Slope(c) * (s2 * s2 - s1 * s1)
            == c.liq * ((s2 - s1) * ((s1 + s2) / c.sqrtLow - (s1 + s2) / c.sqrtHigh))
  {
    var sL, sH := c.sqrtLow, c.sqrtHigh;
    assert s2 * s2 - s1 * s1 == (s2 - s1) * (s1 + s2);
    assert (1.0 / sL - 1.0 / sH) * (s1 + s2) == (s1 + s2) / sL - (s1 + s2) / sH;
  }

  /** Between two in-range prices the value rises, by at most `Slope(c)` per unit of price. */
  lemma InRangeStep(c: Curve, s1: real, s2: real)
    requires Calibrated(c) && c.liq >= 0.0
    requires c.sqrtLow <= s1 <= s2 <= c.sqrtHigh
    ensures 0.0 <= InRangeValue(c, s2 * s2, s2) - InRangeValue(c, s1 * s1, s1)
                <= Slope(c) * (s2 * s2 - s1 * s1)
  {
    var L, sL, sH := c.liq, c.sqrtLow, c.sqrtHigh;
    InRangeDifference(c, s1, s2);
    SlopeSpan(c, s1, s2);
    var d, sigma := s2 - s1, s1 + s2;
    QuotientBelow(sigma, sH, 2.0);
    QuotientAbove(sigma, sL, 2.0);
    var a, b := 2.0 - sigma / sH, sigma / sL - sigma / sH;
    ProductsOrdered(L, d, a, b);
    assert InRangeValue(c, s2 * s2, s2) - InRangeValue(c, s1 * s1, s1) == L * (d * a);
    assert Slope(c) * (s2 * s2 - s1 * s1) == L * (d * b);
  }

  /** `x <= k * y` with `y > 0` gives `x / y <= k`. */
  lemma QuotientBelow(x: real, y: real, k: real)
    requires y > 0.0 && x <= k * y
    ensures x / y <= k
  {
    assert x / y == x * (1.0 / y);
    assert k == (k * y) * (1.0 / y);
  }

  /** `x >= k * y` with `y > 0` gives `x / y >= k`. */
  lemma QuotientAbove(x: real, y: real, k: real)
    requires y > 0.0 && x >= k * y
    ensures x / y >= k
  {
    assert x / y == x * (1.0 / y);
    assert k == (k * y) * (1.0 / y);
  }

  /** For non-negative `L` and `d`, `0 <= a <= b` gives `0 <= L*(d*a) <= L*(d*b)`. */
  lemma ProductsOrdered(L: real, d: real, a: real, b: real)
    requires L >= 0.0 && d >= 0.0 && 0.0 <= a <= b
    ensures 0.0 <= L * (d * a) <= L * (d * b)
  {
    assert d * a <= d * b;
  }

  /** On the closed range `[PL, PH]` the value is the in-range formula at the price's root. */
  lemma OnRangeValue(c: Curve, t: real, st: real, rt: real)
    requires Calibrated(c) && c.low <= t <= c.high && IsRoot(rt, t)
    requires c.low < t < c.high ==> IsRoot(st, t)
    ensures V3Value(c, t, st) == InRangeValue(c, rt * rt, rt)
  {
    BranchesMeetAtBounds(c);
    if t == c.low {
      RootsOrdered(rt, t, c.sqrtLow, c.low);
    } else if t == c.high {
      RootsOrdered(rt, t, c.sqrtHigh, c.high);
    } else {
      RootsOrdered(rt, t, st, t);
    }
  }

  /** Inside `[PL, PH]` the value rises, by at most `Slope(c)` per unit of price. */
  lemma InsidePart(c: Curve, t1: real, st1: real, t2: real, st2: real)
    requires Calibrated(c) && c.liq >= 0.0 && c.low <= t1 <= t2 <= c.high
    requires IsRoot(st1, t1) && IsRoot(st2, t2)
    ensures StepBounded(c, t1, st1, t2, st2)
  {
    OnRangeValue(c, t1, st1, st1);
    OnRangeValue(c, t2, st2, st2);
    RootsOrdered(c.sqrtLow, c.low, st1, t1);
    RootsOrdered(st1, t1, st2, t2);
    RootsOrdered(st2, t2, c.sqrtHigh, c.high);
    InRangeStep(c, st1, st2);
  }

  /** A change from `v1` at `t1` to `v2` at `t2` that is not negative and at most `k` per unit. */
  predicate Bounded(k: real, t1: real, v1: real, t2: real, v2: real)
  {
    0.0 <= v2 - v1 <= k * (t2 - t1)
  }

  /** Between the prices `t1` and `t2` the value rises, by at most `Slope(c)` per unit of price. */
  predicate StepBounded(c: Curve, t1: real, st1: real, t2: real, st2: real)
    requires Defined(c) && RootFor(c, t1, st1) && RootFor(c, t2, st2)
  {
    Bounded(Slope(c), t1, V3Value(c, t1, st1), t2, V3Value(c, t2, st2))
  }

  /** Bounded steps from `t1` to `tm` and from `tm` to `t2` make a bounded step from `t1` to `t2`. */
  lemma StepsCompose(c: Curve, t1: real, st1: real, tm: real, stm: real, t2: real, st2: real)
    requires Defined(c) && RootFor(c, t1, st1) && RootFor(c, tm, stm) && RootFor(c, t2, st2)
    requires StepBounded(c, t1, st1, tm, stm) && StepBounded(c, tm, stm, t2, st2)
    ensures StepBounded(c, t1, st1, t2, st2)
  {
    ChainSteps(Slope(c), t1, V3Value(c, t1, st1), tm, V3Value(c, tm, stm), t2, V3Value(c, t2, st2));
  }

  /** Two adjacent price steps that each obey the bounds make a step that obeys them. */
  lemma ChainSteps(k: real, t1: real, v1: real, tm: real, vm: real, t2: real, v2: real)
    requires Bounded(k, t1, v1, tm, vm) && Bounded(k, tm, vm, t2, v2)
    ensures Bounded(k, t1, v1, t2, v2)
  {
    assert k * (tm - t1) + k * (t2 - tm) == k * (t2 - t1);
  }

  /** `getV3Value` is nondecreasing in the price and Lipschitz with constant `Slope(c)`, hence
      continuous across both bounds; above the range it does not depend on the price. */
  lemma ValueMonotoneLipschitz(c: Curve, t1: real, st1: real, t2: real, st2: real)
    requires Calibrated(c) && c.liq >= 0.0 && t1 <= t2
    requires c.low < t1 < c.high ==> IsRoot(st1, t1)
    requires c.low < t2 < c.high ==> IsRoot(st2, t2)
    ensures 0.0 <= V3Value(c, t2, st2) - V3Value(c, t1, st1) <= Slope(c) * (t2 - t1)
    ensures c.high <= t1 ==> V3Value(c, t2, st2) == V3Value(c, t1, st1)
  {
    SlopeNonNegative(c);
    if t2 <= c.low {
      BelowSegment(c, t1, st1, t2, st2);
    } else if c.high <= t1 {
      AboveSegment(c, t1, st1, t2, st2);
    } else {
      CrossingPart(c, t1, st1, t2, st2);
    }
  }

  /** For a non-negative rate `k`, a step from `a` up to `b` changes `k * x` by `k * (b - a)`, not less than 0. */
  lemma ScaledStep(k: real, a: real, b: real)
    requires k >= 0.0 && a <= b
    ensures 0.0 <= k * b - k * a == k * (b - a)
  {
  }

  /** Entirely below the range the value changes at exactly `Slope(c)`. */
  lemma BelowSegment(c: Curve, t1: real, st1: real, t2: real, st2: real)
    requires Defined(c) && t1 <= t2 <= c.low && Slope(c) >= 0.0
    ensures StepBounded(c, t1, st1, t2, st2)
    ensures V3Value(c, t2, st2) - V3Value(c, t1, st1) == Slope(c) * (t2 - t1)
  {
    assert V3Value(c, t2, st2) == Slope(c) * t2;
    assert V3Value(c, t1, st1) == Slope(c) * t1;
    ScaledStep(Slope(c), t1, t2);
  }

  /** Entirely above the range the value is flat. */
  lemma AboveSegment(c: Curve, t1: real, st1: real, t2: real, st2: real)
    requires Defined(c) && c.low < c.high <= t1 <= t2 && Slope(c) >= 0.0
    ensures StepBounded(c, t1, st1, t2, st2)
    ensures V3Value(c, t2, st2) == V3Value(c, t1, st1)
  {
    assert V3Value(c, t2, st2) == AboveValue(c) == V3Value(c, t1, st1);
    ScaledStep(Slope(c), t1, t2);
  }

  /** The bounds for a step that overlaps the range: clamp both ends to `[PL, PH]`, bound the
      inside part, and add the linear part below and the flat part above. */
  lemma CrossingPart(c: Curve, t1: real, st1: real, t2: real, st2: real)
    requires Calibrated(c) && c.liq >= 0.0 && t1 <= t2 && t1 < c.high && c.low < t2
    requires c.low < t1 < c.high ==> IsRoot(st1, t1)
    requires c.low < t2 < c.high ==> IsRoot(st2, t2)
    requires Slope(c) >= 0.0
    ensures StepBounded(c, t1, st1, t2, st2)
  {
    if t2 >= c.high {
      UpToRange(c, t1, st1, c.high, c.sqrtHigh);
      AboveSegment(c, c.high, c.sqrtHigh, t2, st2);
      StepsCompose(c, t1, st1, c.high, c.sqrtHigh, t2, st2);
    } else {
      UpToRange(c, t1, st1, t2, st2);
    }
  }

  /** A step that ends on `[PL, PH]`: the linear part below `PL`, if any, then the inside part. */
  lemma UpToRange(c: Curve, t1: real, st1: real, t2: real, st2: real)
    requires Calibrated(c) && c.liq >= 0.0 && t1 <= t2 && c.low <= t2 <= c.high && IsRoot(st2, t2)
    requires t1 < c.high && (c.low < t1 ==> IsRoot(st1, t1))
    requires Slope(c) >= 0.0
    ensures StepBounded(c, t1, st1, t2, st2)
  {
    if t1 <= c.low {
      BelowSegment(c, t1, st1, c.low, c.sqrtLow);
      InsidePart(c, c.low, c.sqrtLow, t2, st2);
      StepsCompose(c, t1, st1, c.low, c.sqrtLow, t2, st2);
    } else {
      InsidePart(c, t1, st1, t2, st2);
    }
  }
}
