# DeltaNeutral: position valuation and price cache

This project models the two parts of the DeltaNeutral planner that hold its logic, and proves properties of them.

- **Position valuation** is `calculatePosition` in `src/App.jsx`. A concentrated-liquidity position over a price range `[PL, PH]` is valued by the three-branch square-root-price formula `getV3Value`. The position is hedged by a short sized to the slope between the range bounds. The function reports PnL, fee accrual, liquidation, out-of-range and break-even figures. `getDuration` splits the elapsed time of an open position into days, hours and minutes.
- **Price cache** is the serverless endpoint in `api/prices/index.js`. It normalises the requested id list into a cache key. It serves an entry younger than 10 s from its module-scope cache, and otherwise fetches from the upstream and stores the answer. When the upstream rate-limits it serves the old entry as stale, and it reports any other upstream failure as an error response.

Modules:

| file | module | content |
|---|---|---|
| `wrappers.dfy` | `Wrappers` | `Option`, `Result` |
| `valuation.dfy` | `Valuation` | `calculatePosition`, `getV3Value`, and the identities they satisfy |
| `duration.dfy` | `Duration` | `getDuration` |
| `text.dfy` | `Text` | trimming, ASCII lower-casing, splitting on and joining with a separator |
| `prices.dfy` | `PriceFeed` | the key and answer normalisation, and the `PriceCache` class with `Handle` |

Modelling choices:

- **Numbers.** Arithmetic is over `real`.
- **Square roots.** Dafny has no square root over `real`, so each root `Math.sqrt` takes is an input (`Valuation.Roots`). `WellFormed` requires each one to be positive and to square to its argument.
- **Falsy fallbacks.** The JavaScript `x || d` on a number is `OrElse(x, d)`: only a zero falls back to `d`. This covers `P_entry || 1`, `PL || 0.1`, `PH || 100000`, `rangeConst || 1`, `PL - PH || 1` and `lev || 3`. A negative leverage is kept as it is.
- **Zero current price.** `distToLiq` is an `Option`, and it is `None` where the source divides by a zero current price.
- **`getV3Value` at an arbitrary price.** The value function takes `st` for `Math.sqrt(t)`. `st` is used only strictly inside the range, which is the only branch that reads it.
- **Elapsed time.** `getDuration` takes the elapsed milliseconds `Date.now() - startTime` as an integer parameter. It keeps the source's floating division, `Math.floor` and the sign-of-dividend `%`.
- **Upstream call.** The outcome of the upstream call is an input `Upstream`, in one of two forms:
  - the entries of its JSON body, in order, each with its `usd` field or none;
  - a failure with an optional HTTP status and a message.
- **Clock readings.** `now` is read before the freshness test. `completedAt` is read after the upstream answered and stamped on the stored entry. The source takes these from two separate `Date.now()` calls.
- **Upstream calls counter.** A ghost counter `upstreamCalls` records upstream calls.

Two details of the code the model keeps as written:

- The cache key is the cleaned ids joined in request order. It is not sorted, and duplicates are kept.
- The source tags are `cache`, `coingecko` and `stale-cache`.

## Model

| member | source | states |
|---|---|---|
| Valuation.CurveOfCalibrated | src/App.jsx:178-190 | for `0 < PL < PH` with the entry in range and `inv >= 0`, the curve `getV3Value` closes over has the bounds' own roots, a non-empty range and `L >= 0`, so the continuity and monotonicity lemmas apply to it |
| Valuation.AccruedFees | src/App.jsx:200-201 | fees are zero with `skipFees`, else `inv * apr * hours / (100*365*24)` |
| Valuation.ValueAtEntryIsCapital | src/App.jsx:182-190 | conservation: with `0 < P_entry`, `PL <= P_entry <= PH` and a nonzero `rangeConst`, `getV3Value(P_entry) == inv` |
| Valuation.LiquidityCalibrated | src/App.jsx:182-183 | with a nonzero `rangeConst`, `L * rangeConst == inv` |
| Valuation.EntryOnRange | src/App.jsx:185-190 | for an entry price on `[PL, PH]`, whichever branch `getV3Value` takes agrees with the in-range formula at the entry's root |
| Valuation.EntryValueFactors | src/App.jsx:182-189 | the in-range formula at the entry price is `L * rangeConst` |
| Valuation.NoMoveNoPnL | src/App.jsx:192-202 | at `P_current == P_entry` (inside the range), `pnlLP == 0`, `shortPnL == 0` and the net PnL is exactly the fees |
| Valuation.RangeConstPositive | src/App.jsx:182-183 | with `0 < PL < PH` and the entry in range, `rangeConst > 0`, so the `\|\| 1` guard never fires |
| Valuation.SplitRecombinesToCapital | src/App.jsx:224-225 | with a nonzero `rangeConst`, `tokenAmount * P_entry + usdcAmount == inv` |
| Valuation.BranchesMeetAtBounds | src/App.jsx:187-189 | continuity: the in-range formula at `PL` equals the below-range formula, and at `PH` the constant above-range value |
| Valuation.ValueMonotoneLipschitz | src/App.jsx:185-190 | `getV3Value` never decreases as the price rises, and rises by at most the below-range slope per unit of price. So it is continuous, and it is constant above `PH` |
| Valuation.InsidePart | src/App.jsx:189 | between two in-range prices the value rises by at most the slope per unit of price |
| Valuation.BelowSegment | src/App.jsx:187 | a step entirely below `PL` changes the value at exactly the slope |
| Valuation.CrossingPart | src/App.jsx:187-189 | a step overlapping the range obeys the monotone and slope bounds |
| Valuation.MeetsBelow | src/App.jsx:187-189 | at the low bound's root the in-range formula equals the below-range formula |
| Valuation.MeetsAbove | src/App.jsx:188-189 | at `PH` with its own root the in-range formula equals the above-range value |
| Valuation.InRangeIncludesBounds | src/App.jsx:185-190 | on the closed range, with each bound's own root at the bound, `getV3Value` is the in-range formula |
| Valuation.AboveSegment | src/App.jsx:188 | a step entirely above `PH` leaves the value unchanged |
| Valuation.UpToRange | src/App.jsx:187-189 | a step that ends inside the range obeys the monotone and slope bounds |
| Valuation.StepsCompose | src/App.jsx:185-190 | two adjacent steps that obey the monotone and slope bounds make one step that obeys them |
| Valuation.InRangeDifference | src/App.jsx:189 | between roots `s1` and `s2` the in-range value changes by `L*(s2 - s1)*(2 - (s1 + s2)/sqrtPH)` |
| Valuation.OnRangeValue | src/App.jsx:187-189 | on the closed range `[PL, PH]`, all three branches agree with the in-range formula at the price's root |
| Valuation.InRangeClosedForm | src/App.jsx:189 | inside the range the value at root `s` is `L*(2s - sqrtPL - s^2/sqrtPH)` |
| Valuation.InRangeStep | src/App.jsx:189 | the in-range value is monotone and slope-bounded between two roots within the bounds |
| Valuation.SlopeNonNegative | src/App.jsx:187 | the below-range slope `L*(1/sqrtPL - 1/sqrtPH)` is not negative for a proper range and non-negative `L` |
| Valuation.HedgeBalances | src/App.jsx:195-197 | the hedge size equalises LP value change plus short PnL at the two bounds, for any entry, including `PL == PH` |
| Valuation.MaxLossSymmetric | src/App.jsx:209-215 | hedge balance: `maxLossLow == maxLossHigh` for every well-formed input |
| Valuation.PnLViewsAgree | src/App.jsx:192-226 | `totalNetPnL - accumulatedFees == pnlLP + shortPnL == equityValue - inv` |
| Valuation.BreakEvenFees | src/App.jsx:217-228 | `feesToBEP` is non-negative, covers the price-only loss, and is positive only when it closes that loss exactly |
| Valuation.BreakEvenOfSnapshot | src/App.jsx:217-228 | `feesToBEP >= 0`; it is `-(pnlLP + shortPnL)` when that sum is negative and 0 otherwise |
| Valuation.FeesLinearInHours | src/App.jsx:200-201 | fees over `h1 + h2` hours are the fees over `h1` plus the fees over `h2`, and zero hours accrue nothing |
| Valuation.LiquidationDistance | src/App.jsx:204-205 | `liqPrice` lies `P_entry / (lev \|\| 3)` above entry. `distToLiq` exists exactly when the current price is nonzero, and it is the percentage move of the current price that reaches `liqPrice` |
| Valuation.RangeFlagSelectsBranch | src/App.jsx:185-207 | `isOOR` holds iff `P_current < PL \|\| P_current > PH`. When it is false and `P_current > 0`, the in-range formula values the current price, bounds included. When it is true, the below or above branch does |
| Valuation.RootsOrdered | src/App.jsx:178-180 | positive square roots order like the prices they are roots of |
| Duration.DurationSplit | src/App.jsx:37-43 | for `diff >= 0`: `days == diff / 86400000`, `hours == (diff / 3600000) % 24`, `minutes == (diff / 60000) % 60`, `0 <= hours < 24`, `0 <= minutes < 60`, and the three give back `diff` to the minute |
| Duration.FloorOfQuotient | src/App.jsx:39 | `Math.floor(n / k)` in real division is integer division for `k > 0` |
| Duration.HoursWithinDay | src/App.jsx:40 | for `n >= 0`, `Math.floor((n / 3600000) % 24)` is the whole hours within the day, `(n / 3600000) % 24` in integer arithmetic |
| Duration.MinutesWithinHour | src/App.jsx:41 | for `n >= 0`, `Math.floor((n / 60000) % 60)` is the whole minutes within the hour, `(n / 60000) % 60` in integer arithmetic |
| Duration.DurationFields | src/App.jsx:39-41 | for `diff >= 0` each of the three fields is the integer quotient or remainder it stands for |
| Text.FirstNonSpace | api/prices/index.js:33 | the index of the first non-whitespace character at or after `from`, or the length: everything skipped is whitespace |
| Text.EndOfNonSpace | api/prices/index.js:33 | the index just after the last non-whitespace character before `upto`, or 0: everything skipped is whitespace |
| Text.Trim | api/prices/index.js:33 | the result is trimmed, and is the slice of the input starting at its first non-whitespace character, with only whitespace before and after it |
| Text.TrimmedIsFixed | api/prices/index.js:33 | trimming a trimmed string changes nothing |
| Text.Lower | api/prices/index.js:33 | lower-casing keeps the length, turns each upper-case letter into the lower-case letter at the same place in the alphabet, and keeps every other character in place |
| Text.LowerAlike | api/prices/index.js:33 | two strings lower-case to the same string exactly when they are the same up to the case of their letters |
| Text.TrimAlike | api/prices/index.js:33 | trimming strings that are the same up to case gives strings that are the same up to case |
| Text.LowerIsLower | api/prices/index.js:23 | the result of lower-casing is lower case, and lower-casing is idempotent |
| Text.LowerFixesLower | api/prices/index.js:33 | lower-casing a lower-case string changes nothing |
| Text.LowerKeepsTrimmed | api/prices/index.js:33 | lower-casing keeps a string trimmed |
| Text.Split | api/prices/index.js:33 | splitting yields at least one part and no part holds the separator |
| Text.SplitWhole | api/prices/index.js:33 | a string without the separator splits into itself |
| Text.SplitAround | api/prices/index.js:33 | splitting `a + sep + b` is splitting `a` followed by splitting `b` |
| Text.JoinSplit | api/prices/index.js:33-36 | joining the parts of a split gives back the string |
| Text.SplitJoin | api/prices/index.js:33-36 | splitting the join of separator-free parts gives back the parts |
| Text.SplitAlike | api/prices/index.js:33 | splitting strings that are the same up to case on a non-letter separator gives the same number of pieces, each the same up to case |
| PriceFeed.CleanIdIsCanonical | api/prices/index.js:33 | a fragment whose trimmed lower-cased form is non-empty yields a canonical id: non-empty, trimmed, lower case, no comma |
| PriceFeed.CanonicalIsClean | api/prices/index.js:33 | a canonical id is its own cleaned form |
| PriceFeed.KeepIds | api/prices/index.js:33 | at most one id is kept per fragment; a single fragment yields its trimmed, lower-cased form (`KeepIdsFragment`), and `KeepIdsAppend` keeps fragment order, so together they fix the ids exactly; `KeptAreCanonical` and `KeepIdsCanonical` state their shape |
| PriceFeed.KeepIdsFragment | api/prices/index.js:33 | a single fragment yields exactly its trimmed, lower-cased form, or no id when that form is empty |
| PriceFeed.KeptAreCanonical | api/prices/index.js:33 | fragments without commas leave only canonical ids: non-empty, trimmed, lower case, comma-free |
| PriceFeed.KeepIdsAppend | api/prices/index.js:33 | filtering works fragment by fragment, in order |
| PriceFeed.KeepIdsCanonical | api/prices/index.js:33 | canonical ids all survive unchanged and in order |
| PriceFeed.NormalizeIds | api/prices/index.js:33 | every id of the request is trimmed, lower case, non-empty and comma-free; which ids they are is stated by `NormalizeIdsFragment` and `NormalizeIdsAround` |
| PriceFeed.NormalizeIdsFragment | api/prices/index.js:33 | a request without commas asks for exactly the trimmed, lower-cased fragment, or for no id when that is empty |
| PriceFeed.NormalizeIdsAround | api/prices/index.js:33 | request order and multiplicity: the ids of `a,b` are the ids of `a` followed by those of `b` |
| PriceFeed.BlankIdsDropped | api/prices/index.js:33 | a blank parameter and an empty one leave no id |
| PriceFeed.BlankFragmentsDropped | api/prices/index.js:33 | blank fragments are dropped: `" , ,"` normalises to no ids |
| PriceFeed.CleanIdAlike | api/prices/index.js:33 | fragments that are the same up to case clean to the same id |
| PriceFeed.KeepIdsAlike | api/prices/index.js:33 | fragment lists that are the same piece by piece up to case keep the same ids |
| PriceFeed.RequestKeyIgnoresCase | api/prices/index.js:29-36 | two `ids` parameters that lower-case alike yield the same ids and the same response to the key step: the same cache key, or the same 400 |
| PriceFeed.RequestKeyCanonical | api/prices/index.js:29-36 | the key splits back into the request's cleaned ids in order, and requesting the key itself gives the same key |
| PriceFeed.NormalizeQuotes | api/prices/index.js:23 | the answer's keys are exactly the lower-cased upstream keys |
| PriceFeed.QuoteKeysLower | api/prices/index.js:23 | every key of the answer is lower case |
| PriceFeed.QuoteLastWins | api/prices/index.js:23 | each key maps to the `usd` field of the last upstream entry that lower-cases to it |
| PriceFeed.StoreKeepsWellKeyed | api/prices/index.js:36-45 | storing a normalised answer under a request key keeps every stored key canonical and every stored price id lower case |
| PriceFeed.PriceCache.constructor | api/prices/index.js:8-10 | the cache starts empty, well keyed, with no upstream calls |
| PriceFeed.PriceCache.Handle | api/prices/index.js:27-54 | covers five cases (listed below the table), keeps the cache well keyed in all of them, and every price it serves is keyed in lower case |
| PriceFeed.AtMostOneFetchPerWindow | api/prices/index.js:38-45 | after a request that refreshed a key, a request for the same key less than a TTL later is served from the cache with the same data. The pair costs at most one upstream call |

The five cases of `PriceFeed.PriceCache.Handle`:

- **Bad request.** A missing or empty param, or one with no valid ids, gives 400 with the source's message. There is no upstream call and the cache is unchanged.
- **Fresh hit.** An entry with `now - ts < 10000` is served as `cache`. There is no upstream call and the cache is unchanged.
- **Refresh.** Otherwise exactly one upstream call is made. On success that key is overwritten with the arrival time and the normalised answer, every other key is kept, and the answer is served as `coingecko`.
- **Stale fallback.** On a 429 with a prior entry, the old data is served as `stale-cache` with the rate-limit warning, and the cache is unchanged.
- **Failure.** On any other failure the response has the upstream status (or 500) and the message (or `failed`), and the cache is unchanged.

## Left out

- React rendering, hooks and state plumbing in `src/App.jsx`: user interface only.
- Firebase initialisation, authentication and Firestore sync: external services.
- `localStorage` saving and removal of positions: browser storage.
- The `setInterval` polling and the client-side `fetchPrices`: timers and network I/O.
- `formatNum`: its result is set by the locale formatting of `toLocaleString`.
- The string rendering `${days}d ${hours}h ${minutes}m` of `getDuration`: the model returns the three numbers.
- The HTTP request, `res.text` and `res.json` in `fetchFromCoinGecko`: the upstream outcome is an input value. The text of the error message built from the status and body is an input string too.
- `console.error` logging and the outer catch-all 500 of `handler`: I/O and exception plumbing.
- Upstream bodies the normalisation at `api/prices/index.js:23` throws on: a `null` body (`Object.entries(null)`) or an entry whose value is `null` (`v.usd`). The source then answers `err.status || 500` with the TypeError's message and stores nothing; the model receives such an answer as `Failed(None, message)`, which `Handle` treats the same way.
- A `usd` field that is present but not a number: prices are `Option<real>`, so only a number or a missing field is modelled.
- `res.json` drops keys whose value is `undefined`; the model's response keeps such ids, mapped to `None`.
- A non-string or array-valued `ids` query parameter (`toString` of an array): the parameter is modelled as an optional string.
- Concurrent requests against the shared cache, and the interleaving of two requests across the `await`: the model handles one request at a time.
- Eviction: the source never removes entries, and neither does the model.
- IEEE-754 rounding, NaN and Infinity: arithmetic is over `real`, and prices are required to be non-negative, since `Math.sqrt` of a negative price is NaN. `distToLiq` at a zero current price is `None` rather than Infinity or NaN.
- Text.LowerChar: lower-cases ASCII letters only; `toLowerCase` also folds non-ASCII letters.
- Valuation.ValueAtEntryIsCapital: requires `P_entry > 0`, because with `P_entry == 0 == PL` the `|| 1` and `|| 0.1` fallbacks take different roots and the identity fails.
- Duration.DurationSplit: states the split for `diff >= 0` only. For a start time in the future, `GetDuration` follows the source's `Math.floor` and sign-of-dividend `%`, but no lemma describes that case.
