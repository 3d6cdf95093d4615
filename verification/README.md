# Fomowell: a verified model of the pricing engine, the share ledger and the launcher

This project models three parts of Fomowell in Dafny and proves what they promise.

**The pricing engine** (`fomowell-icpex-lib/src/pmm.rs`) is a proactive market maker in 18-decimal
fixed point over candid's unbounded `Nat`. `Nat` subtraction and division panic, so every partial
operation of the source returns a `Checked` value here and "does not trap" is a theorem
(`Checked.dfy`). The solvers are functions (`TargetSolver.dfy`, `TradeSolver.dfy`, `Integral.dfy`);
their theorems are exact integer inequalities that hold because of the direction of each rounding.
`TradeCurve.dfy` bounds the trade solver by the exact curve on both sides. `Pmm.dfy` has the pool
state and both families of operations, the decimal-aware ones and the `_v1` ones; `SaleBounds.dfy` and
`MidPrice.dfy` say what a sale pays, where a target is adjusted to and what the mid price is, each
within explicit roundings and without the model's own helpers. `PmmRuns.dfy`, `PmmV1.dfy` and `RoundTrip.dfy` are about unbounded runs, `TargetDrift.dfy` says
how far adjusting may lower a target, and `PmmPool.dfy` is the pool that `adjusted_target` updates in
place. The router that applies a trade is not part of the
repository; its loop is closed as "adjust the target, sell, move the reserves".

**The DIP20 ledger** (`fomowell-icpex-lib/src/token/dip20.rs`) is a class (`Dip20.dfy`) whose entry
points change balances, allowances and supply; each is proved against `TokenSpec.dfy`, where
conservation, the effect of a payment and allowance accounting are proved over all runs.
`FeeInverse.dfy` has the inverse fee functions of `interface/itoken.rs`, written separately from the
ledger's own fee, and proves that the two agree.

**The launcher** (`fomowell-launcher/src/main.rs`) keeps points with an append-only history
(`PointsSpec.dfy`, `PointsLedger.dfy`) and project progress with an elected "god of wells"
(`ProgressSpec.dfy`, `Progress.dfy`). Calls suspend at their awaits; `Board.dfy` is the state machine
of every interleaving of their uninterrupted segments, and `BoardEffects.dfy` says what each segment
does to each project.

Facts the source's names or comments do not lead one to expect, all of them theorems below:

- Round trips are exact only at fixed targets. Adjusting before each sale may floor the short side's
  target, and paying back exactly the quote taken then returns more base than was paid in
  (`TargetDrift.AdjustingBreaksRoundTrip`). Sales themselves keep the reserves on the curve of the old
  target, so what a target loses is bounded by the solver's rounding and, on a sale away from it, the
  slack of a sloped curve (`TargetDrift.TradeThenAdjust`); without a slope nothing is ever lost
  (`TargetDrift.FlatRunKeepsTargets`).
- State `ONE` does not mean that reserves equal targets. `sell_quote_token` compares the payment with
  the base to be received back (pmm.rs:368, pmm.rs:556), not with the quote to be paid back
  (`RoundTrip.QuoteCrossingSplitsIff`, `RoundTrip.OneMeansTargetIff`, `RoundTrip.OneAwayFromTarget`).
- At slope one a pool never traps, but only in the `_v1` form: with unequal decimals a partial sale
  whose short reserve is dust in the other token's decimals does, and so does dividing by a power of
  ten that has wrapped to zero (`PmmV1.SteepStepTrapsIff`, `PmmV1.DustSaleTraps`).
- A comment in `set_buy_or_sell` (main.rs:351-352) says completion and locking happen together. The
  call writes back a record it read before its awaits, so it can erase a completion that
  `update_progress` recorded meanwhile, and the pool can then be queued for locking again
  (`Board.LockedTwiceIsReachable`). Erasing is the only cause: every run in which no write-back puts
  an unfinished record over a queued pool queues each pool at most once (`Board.ErasureFreeLocksOnce`),
  and a write-back erases exactly when the next scan can queue its pool a second time
  (`Board.ErasesIffLocksAgain`). A scan that completes a pool while such a call is suspended is an early
  warning, sufficient to watch for but not necessary (`Board.RaceFreeIsErasureFree`,
  `Board.RaceWithoutErasure`).
- The same write-back forgets replies: it restores the reply count it read before its awaits
  (`BoardEffects.NextReplies`, `BoardEffects.ReplyForgotten`).

No Cargo profile turns overflow checks on, so fixed-width powers of ten wrap, as release builds do.

## Model

| member | source | states |
|---|---|---|
| `FixedPoint.Isqrt` | fomowell-icpex-lib/src/pmm.rs:145-148 | the library square root is the one r with r² ≤ n < (r+1)² |
| `FixedPoint.DDivCeilLeast` | fomowell-icpex-lib/src/pmm.rs:58-66 | ceiling division returns the least c with c·b ≥ a |
| `FixedPoint.ReciprocalBound` | fomowell-icpex-lib/src/pmm.rs:96-98 | i · reciprocal_floor(i) never exceeds 10^36 |
| `Power.PowFloorBelowPower` | fomowell-icpex-lib/src/pmm.rs:104-117 | fixed-point exponentiation by squaring never exceeds the real power, for every base and exponent |
| `Power.PowFloorNearPower` | fomowell-icpex-lib/src/pmm.rs:104-117 | and misses it by at most (e − 1)·m^e, m being the larger of base and one, for every base and every positive exponent |
| `Power.PowFloorMonotone` | fomowell-icpex-lib/src/pmm.rs:104-117 | it is monotone in its base |
| `TargetSolver.RootClosedForm` | fomowell-icpex-lib/src/pmm.rs:139-149 | the overflow fallback is unreachable and the zero short cut agrees with the main formula |
| `TargetSolver.SolveTargetTraps` | fomowell-icpex-lib/src/pmm.rs:130-156 | the target solver traps exactly on an empty reserve with a positive slope and price, by division and never by underflow |
| `TargetSolver.TargetBracket` | fomowell-icpex-lib/src/pmm.rs:130-156 | V0 ≥ V1, the exact quadratic (V0−V1)((1−k)V1+kV0) ≤ iδV1 is never overshot, and it is overshot once V0 grows by an explicit rounding allowance |
| `TargetSolver.TargetWithinLine` | fomowell-icpex-lib/src/pmm.rs:130-156 | V0 ≤ V1 + mul_floor(i, δ) for every slope |
| `TargetSolver.TargetMonotone` | fomowell-icpex-lib/src/pmm.rs:130-156 | the target grows with the surplus |
| `TradeSolver.SteepRatioForm` | fomowell-icpex-lib/src/pmm.rs:200-217 | at k = 1 the overflow fallback is unreachable and the zero short cut agrees with the formula |
| `TradeSolver.SolveTradeTraps` | fomowell-icpex-lib/src/pmm.rs:183-245 | exactly when the trade solver traps; for k ≤ 1 never by underflow; otherwise the payout fits the reserve |
| `TradeTheorems.TradeBracket` | fomowell-icpex-lib/src/pmm.rs:221-244 | for 0 < k < 1 a value is the payout if and only if it is v1 − v2, floored at zero, for a solution of the quadratic whose coefficients are rounded step by step as stated by `Rounded`, v2 being the least natural above the root |
| `TradeTheorems.RoundedUnique` | fomowell-icpex-lib/src/pmm.rs:222-236 | there is exactly one quadratic so rounded: floors of k·v0/v1, k·v0 and 4(1−k)k·v0², and b truncated toward zero |
| `TradeTheorems.SteepBracket` | fomowell-icpex-lib/src/pmm.rs:200-219 | at k = 1 the payout never beats the exact curve p·v0² = iδ·v1(v1−p) and misses it by an explicit allowance |
| `TradeTheorems.FlatBracket` | fomowell-icpex-lib/src/pmm.rs:189-192 | at k = 0 the payout is the fair amount rounded down and cut off at the reserve |
| `TradeTheorems.EmptiesReserveIff` | fomowell-icpex-lib/src/pmm.rs:183-245 | which payments buy the whole reserve: at k = 0 one worth it, at k = 1 none, in between exactly those whose rounded quadratic has s ≤ 2b |
| `TradeTheorems.TradeMonotone` | fomowell-icpex-lib/src/pmm.rs:183-245 | paying more never buys less, through every branch, the sign switch, truncation, floor root and ceiling division |
| `TradePrice.SteepPrice` | fomowell-icpex-lib/src/pmm.rs:200-219 | at k = 1 and v1 ≤ v0 the payout is at most mul_floor(i, δ) |
| `TradePrice.SlopedPrice` | fomowell-icpex-lib/src/pmm.rs:221-244 | for 0 < k < 1 and every reserve up to its target the payout is below mul_floor(i, δ) plus a slack that depends on k alone |
| `TradePrice.TradePriceBound` | fomowell-icpex-lib/src/pmm.rs:183-245 | the price bound for every slope and every reserve up to its target |
| `TradeCurve.TradeOnCurve` | fomowell-icpex-lib/src/pmm.rs:183-245 | for every slope the payout, less the slack of a sloped curve, never takes the reserve off the exact curve of its target |
| `TradeCurve.TradeOffCurve` | fomowell-icpex-lib/src/pmm.rs:183-245 | for every slope, reserve and payment the payout plus an explicit allowance is beyond the exact curve, or takes the whole reserve |
| `TradeCurve.OnCurveDown` | fomowell-icpex-lib/src/pmm.rs:183-245 | what the curve allows is closed downwards, so the two bounds pin the payout down |
| `Integral.GeneralIntegrateTraps` | fomowell-icpex-lib/src/pmm.rs:119-128 | exactly when the integral traps, and that ordered reserves never make it underflow |
| `Integral.IntegrateForm` | fomowell-icpex-lib/src/pmm.rs:119-128 | the k = 0 short cut equals the main formula |
| `Integral.IntegralBracket` | fomowell-icpex-lib/src/pmm.rs:119-128 | the result never exceeds the unrounded integral and misses it by an explicit allowance |
| `Integral.IntegralPriceBound` | fomowell-icpex-lib/src/pmm.rs:119-128 | for 0 < v2 ≤ v1 ≤ v0 the integral pays at least the guide price |
| `Integral.PartialSaleWithinSurplus` | fomowell-icpex-lib/src/pmm.rs:543-554 | a partial sale back to a target set by the target solver earns at most the surplus that target came from, when the two prices multiply to at most one |
| `Pmm.AdjustDecimalMono` | fomowell-icpex-lib/src/pmm.rs:671-683 | decimal adjustment is monotone and traps for all amounts or for none, even where the power of ten has wrapped |
| `SaleBounds.AdjustIsRescaleIff` | fomowell-icpex-lib/src/pmm.rs:671-683 | adjusting decimals multiplies by 10^d, or divides by it rounding down, for every amount exactly when the decimals are at most 19 apart; beyond that the power wraps |
| `Pmm.EqualDecimalsTarget` | fomowell-icpex-lib/src/pmm.rs:387-425 | with equal decimals adjusted_target is adjusted_target_v1, traps included |
| `Pmm.EqualDecimalsSellBase` | fomowell-icpex-lib/src/pmm.rs:247-320 | with equal decimals sell_base_token is sell_base_token_v1 |
| `Pmm.EqualDecimalsSellQuote` | fomowell-icpex-lib/src/pmm.rs:322-385 | with equal decimals sell_quote_token is sell_quote_token_v1 |
| `SaleBounds.AdjustedTargetAbout` | fomowell-icpex-lib/src/pmm.rs:387-425 | adjusting moves only the short side's target, to where the exact quadratic at the rescaled surplus has it, within explicit roundings on both sides |
| `SaleBounds.BaseSaleTwoSided` | fomowell-icpex-lib/src/pmm.rs:247-320 | what a base sale pays in every state of an adjusted pool: away from the target on the exact curve of the rescaled payment, back to it the unrounded integral cut off at the surplus, across it the surplus and the curve, with bounds on both sides, and the state it ends in |
| `SaleBounds.QuoteSaleTwoSided` | fomowell-icpex-lib/src/pmm.rs:322-385 | the same for quote sales at the reciprocal price, the comparison with the base surplus included |
| `SaleBounds.SalesV1TwoSided` | fomowell-icpex-lib/src/pmm.rs:457-572 | the same for the `_v1` sales, where nothing is rescaled |
| `SaleBounds.PartialSalesV1Earn` | fomowell-icpex-lib/src/pmm.rs:476-555 | after adjusting, a partial `_v1` sale earns the unrounded integral within its roundings, with no cut-off |
| `SaleBounds.StepTwoSided` | fomowell-icpex-lib/src/pmm.rs:247-425 | a whole trade moves the reserves by the payment and by an amount within these bounds |
| `PmmRuns.AdjustKeeps` | fomowell-icpex-lib/src/pmm.rs:387-425 | adjusting keeps the invariant, puts the short reserve at or below its target, and never underflows |
| `PmmRuns.SellBaseKeeps` | fomowell-icpex-lib/src/pmm.rs:247-320 | a base sale's payout fits the quote reserve, the invariant survives the move, and nothing underflows |
| `PmmRuns.SellQuoteKeeps` | fomowell-icpex-lib/src/pmm.rs:322-385 | the same for quote sales, with the source's comparison as it is |
| `PmmRuns.StepKeeps` | fomowell-icpex-lib/src/pmm.rs:247-425 | one whole trade keeps the invariant and never underflows |
| `PmmRuns.RunSafety` | fomowell-icpex-lib/src/pmm.rs:247-425 | the same over every run of trades, for any decimals |
| `PmmV1.StepV1Refines` | fomowell-icpex-lib/src/pmm.rs:457-594 | a `_v1` trade is the decimal-aware trade at equal decimals |
| `PmmV1.RunV1Safety` | fomowell-icpex-lib/src/pmm.rs:457-594 | run safety for the `_v1` operations |
| `PmmV1.StepV1TrapsIff` | fomowell-icpex-lib/src/pmm.rs:457-594 | a trade with positive targets traps exactly when a short reserve is empty and its target cannot be rebuilt or is rebuilt as zero |
| `PmmV1.RunV1TrapsOnlyWhenEmptied` | fomowell-icpex-lib/src/pmm.rs:457-594 | a run from positive reserves traps only after one of its trades emptied a reserve |
| `PmmV1.StepV1EmptiesIff` | fomowell-icpex-lib/src/pmm.rs:457-572 | a trade empties a reserve exactly when what it pays beyond the target buys all of it |
| `PmmV1.SteepStepKeepsReserves` | fomowell-icpex-lib/src/pmm.rs:457-594 | at slope one a trade goes through and leaves both reserves positive |
| `PmmV1.SteepRunNeverTraps` | fomowell-icpex-lib/src/pmm.rs:457-594 | at slope one every run of trades goes through |
| `PmmV1.SteepStepTrapsIff` | fomowell-icpex-lib/src/pmm.rs:247-425 | at slope one a decimal-aware trade traps exactly on a dust sale or on dividing by a wrapped power of ten, and otherwise keeps both reserves positive |
| `PmmV1.SteepDecimalRunIff` | fomowell-icpex-lib/src/pmm.rs:247-425 | a decimal-aware run at slope one goes through exactly when none of its trades is of that kind |
| `PmmV1.DustSaleTraps` | fomowell-icpex-lib/src/pmm.rs:277-289 | a two-trade run at slope one, with 18 and 8 decimals, from one unit of each token at its targets, that passes through a state with everything positive and traps |
| `PmmV1.ClampsNeverFire` | fomowell-icpex-lib/src/pmm.rs:476-486 | after adjusting, the rounded integral of a partial sale never exceeds the surplus, for every payment, on either side |
| `PmmV1.AdjustingSettles` | fomowell-icpex-lib/src/pmm.rs:574-594 | adjusting a positive state once is enough: adjusting again changes nothing |
| `PmmV1.SurplusPriceBound` | fomowell-icpex-lib/src/pmm.rs:574-594 | the surplus a target was computed from is worth at least the guide price of what buys it back |
| `PmmV1.BaseSaleAway` | fomowell-icpex-lib/src/pmm.rs:457-513 | when base is not short, a base sale pays at most the guide price, for every slope |
| `PmmV1.BaseSaleBack` | fomowell-icpex-lib/src/pmm.rs:476-487 | on the way back to target a base sale pays at least the guide price |
| `PmmV1.BaseSaleAcross` | fomowell-icpex-lib/src/pmm.rs:488-501 | across the target it pays at least the guide price up to the target and at most it beyond |
| `PmmV1.QuoteSaleAway` | fomowell-icpex-lib/src/pmm.rs:515-533 | when quote is not short, a quote sale pays at most the reciprocal price, for every slope |
| `PmmV1.QuoteSaleBack` | fomowell-icpex-lib/src/pmm.rs:543-555 | on the way back to target a quote sale pays at least the reciprocal price |
| `PmmV1.QuoteSaleAcross` | fomowell-icpex-lib/src/pmm.rs:556-569 | across the target it pays at least that price up to the target and at most it beyond |
| `PmmV1.MidPriceBracket` | fomowell-icpex-lib/src/pmm.rs:596-632 | the mid price is at most the scaled guide price when quote is short, at least it when base is short, exactly it at b = b0 |
| `PmmV1.MidPriceAfterAdjusting` | fomowell-icpex-lib/src/pmm.rs:596-632 | the bracket on every adjusted state with positive reserves |
| `MidPrice.PriceScaleIff` | fomowell-icpex-lib/src/pmm.rs:609-628 | the price's scale is 10^(base_decimal + decimals) exactly when that sum is at most 38; beyond that it wraps |
| `MidPrice.MidPriceTwoSided` | fomowell-icpex-lib/src/pmm.rs:596-632 | the mid price divides the scaled guide price by, or multiplies it with, the unrounded 1 − k + k·v0²/v², within explicit roundings on both sides; an empty reserve has price zero |
| `PmmPool.PMMPool.AdjustedTarget` | fomowell-icpex-lib/src/pmm.rs:387-425 | the in-place update equals the function on values, changes nothing when it traps, and keeps the invariant |
| `PmmPool.PMMPool.AdjustedTargetV1` | fomowell-icpex-lib/src/pmm.rs:574-594 | the same for the `_v1` form, which never traps on positive reserves |
| `PmmPool.PMMPool.Trade` | fomowell-icpex-lib/src/pmm.rs:247-425 | a whole trade in place: both reserves move by exactly the paid and received amounts, the amount received is within the bounds of `SaleBounds`, a trap undoes it all, the invariant is kept |
| `RoundTrip.BaseRoundTrip` | fomowell-icpex-lib/src/pmm.rs:457-572 | at fixed targets, any base sales followed by any non-empty quote sales that pay back the quote taken return exactly the base paid in |
| `RoundTrip.QuoteRoundTrip` | fomowell-icpex-lib/src/pmm.rs:457-572 | at fixed targets, the same with the sides exchanged |
| `RoundTrip.BaseCrossingSplits` | fomowell-icpex-lib/src/pmm.rs:488-501 | selling base past the target is selling up to it and then going on |
| `RoundTrip.QuoteCrossingSplitsIff` | fomowell-icpex-lib/src/pmm.rs:556-569 | for quote that holds exactly when the payment differs from the base surplus |
| `RoundTrip.OneMeansTargetIff` | fomowell-icpex-lib/src/pmm.rs:556-558 | a quote sale that ends in ONE has met the targets exactly when the two surpluses agree |
| `RoundTrip.OneAwayFromTarget` | fomowell-icpex-lib/src/pmm.rs:556-558 | two trades, adjusted before each, that take a pool from ONE at its targets to ONE with quote above its target |
| `TargetDrift.TargetNearlyLargest` | fomowell-icpex-lib/src/pmm.rs:130-156 | no target under the exact quadratic is above the solver's by more than an explicit rounding allowance; without a slope none is above it at all |
| `TargetDrift.PayoutStaysUnder` | fomowell-icpex-lib/src/pmm.rs:574-594 | paying such an amount out leaves reserves for which the old target is still under the quadratic, with no rounding |
| `TargetDrift.PartialSaleStaysUnder` | fomowell-icpex-lib/src/pmm.rs:476-487 | so does a partial sale back towards the target, for every slope and without any slack |
| `TargetDrift.TradeKeepsTarget` | fomowell-icpex-lib/src/pmm.rs:183-245 | after a trade away from target n, adjusting gives at least n·r/(r + slack), r being the reserve left, but for the target solver's roundings |
| `TargetDrift.SteepTargetDrift` | fomowell-icpex-lib/src/pmm.rs:200-219 | at slope one the target falls by less than 1 + 3r/2·10^18 |
| `TargetDrift.TradeThenAdjust` | fomowell-icpex-lib/src/pmm.rs:457-594 | whichever way a trade goes, towards, away from or across a target, adjusting after it leaves one target alone and keeps the other within those bounds |
| `TargetDrift.FlatRunKeepsTargets` | fomowell-icpex-lib/src/pmm.rs:457-594 | with no slope the adjusted targets never fall, over every run that empties no reserve |
| `TargetDrift.AdjustingBreaksRoundTrip` | fomowell-icpex-lib/src/pmm.rs:574-594 | a two-trade run, adjusting before each, that pays back exactly the quote taken and returns 100 base for 50 |
| `TokenSpec.PayEffect` | fomowell-icpex-lib/src/token/dip20.rs:73-133 | a payment credits the fee account with feeRate or ⌊feeRate·value/10^18⌋ and the management canister with burnRate or ⌊burnRate·value/10^18⌋, nothing with the burn off, and debits value and both from the payer, under every aliasing |
| `TokenSpec.SharesUnique` | fomowell-icpex-lib/src/token/dip20.rs:88-109 | the configuration sets one such pair of charges for every amount, and the ledger's fee is their sum |
| `TokenSpec.AnswersExactly` | fomowell-icpex-lib/src/token/dip20.rs:144-255 | every call succeeds, or is refused for each reason, exactly as the configuration, the holdings and the two charges say |
| `TokenSpec.ApplyBalance` | fomowell-icpex-lib/src/token/dip20.rs:73-255 | what every successful call does to every account |
| `TokenSpec.PaySound` | fomowell-icpex-lib/src/token/dip20.rs:73-133 | a payment conserves the total and stores no zero balance |
| `TokenSpec.PutAllowanceEffect` | fomowell-icpex-lib/src/token/dip20.rs:155-181 | setting an allowance changes that pair alone and leaves no zero entry and no empty inner map |
| `TokenSpec.RunSound` | fomowell-icpex-lib/src/token/dip20.rs:135-255 | over every run the balances sum to the supply and nothing stored is zero or empty |
| `TokenSpec.SupplyAccounting` | fomowell-icpex-lib/src/token/dip20.rs:135-152 | over every run the supply changes by what the owner minted while minting is on and what holders burned, and by nothing else |
| `TokenSpec.TrapsExactly` | fomowell-icpex-lib/src/token/dip20.rs:144-244 | only over-burning and a zero-cost transfer_from without an entry trap |
| `TokenSpec.AllowanceAccounting` | fomowell-icpex-lib/src/token/dip20.rs:198-265 | over every run, remaining allowance plus what was spent since the last approval is the amount approved |
| `Dip20.DIP20.MoveBalance` | fomowell-icpex-lib/src/token/dip20.rs:73-86 | the in-place transfer equals the move on values, or traps exactly above the balance |
| `Dip20.DIP20.ChargeFee` | fomowell-icpex-lib/src/token/dip20.rs:111-133 | for any fee, the burn the configuration sets goes to the management canister and the rest to the fee account, or it traps and changes nothing |
| `Dip20.DIP20.PayOut` | fomowell-icpex-lib/src/token/dip20.rs:193-194 | once value and fee are covered neither transfer of a payment traps, and every account changes by its net amount in terms of the configured charges |
| `Dip20.DIP20.Mint` | fomowell-icpex-lib/src/token/dip20.rs:250-255 | minting answers and updates as specified, refusals included |
| `Dip20.DIP20.Burn` | fomowell-icpex-lib/src/token/dip20.rs:144-153 | burning lowers balance and supply together, or traps and changes nothing |
| `Dip20.DIP20.SetAllowance` | fomowell-icpex-lib/src/token/dip20.rs:155-181 | the branches of _approve store exactly the given allowance |
| `Dip20.DIP20.Transfer` | fomowell-icpex-lib/src/token/dip20.rs:183-196 | succeeds exactly when the caller holds value plus fee, and then every account changes by its net amount in terms of the configured charges |
| `Dip20.DIP20.TransferFrom` | fomowell-icpex-lib/src/token/dip20.rs:198-244 | the same with the allowance checked first and lowered by value plus fee |
| `Dip20.DIP20.GetAllowanceSize` | fomowell-icpex-lib/src/token/dip20.rs:285-291 | the loop counts the stored owner-spender pairs |
| `Dip20.CountsAreExact` | fomowell-icpex-lib/src/token/dip20.rs:281-291 | the stored pairs are exactly the positive allowances and the stored accounts exactly the positive balances |
| `FeeInverse.CalFeeWithFullAmount` | fomowell-icpex-lib/src/interface/itoken.rs:1195-1225 | the branches compute flat fees off the amount and rates under it, or fail as specified |
| `FeeInverse.InverseRefusals` | fomowell-icpex-lib/src/interface/itoken.rs:1195-1225 | it fails exactly when the flat fee, or flat fee and flat burn together, reach the full amount |
| `FeeInverse.GetAmountWithoutFeeQuery` | fomowell-icpex-lib/src/interface/itoken.rs:567-692 | returns the same amount by way of the fee it leaves, whenever that amount is positive |
| `FeeInverse.InverseFits` | fomowell-icpex-lib/src/interface/itoken.rs:1195-1225 | the amount found and the ledger's fee on it fit the full amount, for all four fee schemes and either burn switch |
| `FeeInverse.InverseNearlyLargest` | fomowell-icpex-lib/src/interface/itoken.rs:1195-1225 | when a configured burn is switched on no affordable amount is more than 2 larger, and where the inverse fails nothing positive is affordable |
| `FeeInverse.BurnOffGap` | fomowell-icpex-lib/src/interface/itoken.rs:1213-1224 | with the burn switched off the largest affordable amount is, within 2 and for all four schemes, the inverse without the burn; the inverse as written is never above that one, and below it by exactly the burn when both fees are flat |
| `FeeInverse.TransferOfInverseSucceeds` | fomowell-icpex-lib/src/token/dip20.rs:183-196 | transferring that amount succeeds from any account that holds the full amount |
| `PointsSpec.LogReplay` | fomowell-launcher/src/main.rs:1688-1692 | a new history entry adds its amount to its own user's sum of its own kind and to no other |
| `PointsSpec.ApplyConsistent` | fomowell-launcher/src/main.rs:589-722 | every segment keeps each balance equal to the replay of its history and changes no earlier entry |
| `PointsSpec.RunConsistent` | fomowell-launcher/src/main.rs:589-828 | the same over every interleaving of top-ups, spending, rewards, profile edits and public calls of count_point |
| `PointsSpec.SpendingIsCovered` | fomowell-launcher/src/main.rs:677-722 | nobody ever spends more than 20 plus what was added |
| `PointsSpec.ApplySums` | fomowell-launcher/src/main.rs:589-722 | every segment adds exactly its own amount to the replayed sum of its user and kind: 20 at the start, the amount added, the amount deducted, 6 or 8 for a business |
| `PointsSpec.SpendingRunsIff` | fomowell-launcher/src/main.rs:1607-1628 | spending goes through exactly for an authorised caller, a known business and a user who holds its cost |
| `PointsSpec.RunPriced` | fomowell-launcher/src/main.rs:1607-1628 | over every interleaving of calls each deduction on record is a known business at its price, and each initial entry is 20 |
| `PointsSpec.LastEntry` | fomowell-launcher/src/main.rs:619-632 | a segment that moves points leaves an entry naming its user, kind and business |
| `PointsSpec.ProfileMoves` | fomowell-launcher/src/main.rs:589-675 | only initialising gives a user points; before that what is added is kept as a reward, which stays on record |
| `PointsSpec.ApplyOthers` | fomowell-launcher/src/main.rs:589-828 | a segment touches no other user's profile |
| `PointsSpec.EditsMoveNothing` | fomowell-launcher/src/main.rs:726-828 | editing a profile moves no points, fills in what is missing, and creates a profile only at its end |
| `PointsLedger.Launcher.CountPoint` | fomowell-launcher/src/main.rs:1687-1692 | the public counter call takes the next index and leaves balances and history alone |
| `PointsLedger.Launcher.InitPoints` | fomowell-launcher/src/main.rs:589-633 | the first call starts the balance from 20 plus the rewards so far; every call is logged |
| `PointsLedger.Launcher.AddPoints` | fomowell-launcher/src/main.rs:634-675 | adds to the balance, or to the rewards before there is one, and logs it |
| `PointsLedger.Launcher.DeductPoints` | fomowell-launcher/src/main.rs:677-722 | deducts, counts as spent and logs, or panics and changes nothing |
| `PointsLedger.Launcher.SpendingPoints` | fomowell-launcher/src/main.rs:1607-1628 | charges the price of the business, or panics |
| `PointsLedger.Launcher.EditOpen` | fomowell-launcher/src/main.rs:726-753 | the first segment of edit_user |
| `PointsLedger.Launcher.EditClose` | fomowell-launcher/src/main.rs:777-828 | the last segment of edit_user creates the profile or fills in what is missing |
| `ProgressSpec.ElectionIsArgmax` | fomowell-launcher/src/main.rs:404-449 | the scan elects the lowest-index eligible project of largest positive market cap, and index 0 exactly when there is none |
| `ProgressSpec.EntriesExact` | fomowell-launcher/src/main.rs:445-448 | every scanned project keeps its own entry for the write-back |
| `ProgressSpec.GodStepBounded` | fomowell-launcher/src/main.rs:467-484 | progress stays at most 10000, carries a time when full, and is full for a project at the maximal cap |
| `ProgressSpec.GodStepExact` | fomowell-launcher/src/main.rs:467-484 | the new progress is ⌊cap·10000/maximal cap⌋ below the maximal cap and full from it on, full for good, with the time it became full; 0 while there is no maximal cap; nothing else changes |
| `ProgressSpec.RawProgressExact` | fomowell-launcher/src/main.rs:417-421 | pool progress is the market cap in half units of 10^18, rounded down |
| `ProgressSpec.EligibleExactly` | fomowell-launcher/src/main.rs:426-441 | a project stands for election below a cap of 5000.5 until its pool is done, and from 5000 on until it has been god of wells |
| `ProgressSpec.TakesOverExactly` | fomowell-launcher/src/main.rs:308-319 | a traded project takes over exactly when its cap is larger and it so stands, by the two records read |
| `ProgressSpec.UpdatedExactly` | fomowell-launcher/src/main.rs:462-491 | everything a scan changes in one project, in terms of its market cap |
| `ProgressSpec.TradedExactly` | fomowell-launcher/src/main.rs:320-384 | everything a buy or sell changes in the record it read |
| `Progress.Scan` | fomowell-launcher/src/main.rs:413-449 | the loop computes the election and the entries |
| `Progress.Launcher.WriteEntry` | fomowell-launcher/src/main.rs:462-491 | one project is brought up to date, its progress as `GodAt` has it, and its completion is checked and set together |
| `Progress.Launcher.WriteBack` | fomowell-launcher/src/main.rs:451-495 | in any order of entries, every project is brought up to date and the completed ones are queued once each |
| `Progress.Launcher.Count` | fomowell-launcher/src/main.rs:1680-1685 | count() hands out the next index, which the suspended call then holds; one step of the board |
| `Progress.Launcher.Create` | fomowell-launcher/src/main.rs:1070-1073 | the held index becomes a fresh project; one step of the board |
| `Progress.Launcher.ScanStart` | fomowell-launcher/src/main.rs:408-412 | the first segment of update_progress keeps its list of projects; one step of the board |
| `Progress.Launcher.ScanFinish` | fomowell-launcher/src/main.rs:413-495 | its last segment elects, writes back and queues each pool it returns; one step of the board |
| `Progress.Launcher.BuyRead` | fomowell-launcher/src/main.rs:234-235 | set_buy_or_sell reads the record it will write back; one step of the board |
| `Progress.Launcher.BuyItem` | fomowell-launcher/src/main.rs:265 | it reads the record it compares with; one step of the board |
| `Progress.Launcher.BuyCommit` | fomowell-launcher/src/main.rs:290-385 | its last segment writes back the first record, brought up to date as `TradedAs` has it, and may crown it; one step of the board |
| `Progress.Launcher.ReplyUpdate` | fomowell-launcher/src/main.rs:1481-1520 | a reply changes the reply count and time of a known project alone; one step of the board |
| `Progress.Launcher.List` | fomowell-launcher/src/main.rs:408-412 | the list a scan works on is the project map in index order |
| `Board.RunWellFormed` | fomowell-launcher/src/main.rs:295-495 | over every interleaving all progress stays within bounds and a full god-of-wells progress has its time |
| `Board.NextWellFormed` | fomowell-launcher/src/main.rs:960-1073 | the same for one segment; a created project never overwrites another |
| `Board.FinishCrowns` | fomowell-launcher/src/main.rs:451-484 | after a scan the elected project holds its cap, full progress and a time, or no eligible project has a positive cap and the index is 0 |
| `Board.FullAtFiveThousand` | fomowell-launcher/src/main.rs:422-449 | a pool completes exactly at a market cap of 5000, the roundings included |
| `BoardEffects.ScanFinishExact` | fomowell-launcher/src/main.rs:451-495 | every project a finished scan had listed gets the progress, cap and times its reported cap calls for, and is queued exactly when that cap is at least 5000 and it was not done |
| `BoardEffects.ElectedCapIsMax` | fomowell-launcher/src/main.rs:404-449 | the elected cap is the largest reported one among the projects that stand, and is reported for the elected index |
| `BoardEffects.ScanFinishOthers` | fomowell-launcher/src/main.rs:459-464 | a project the scan had not listed is left alone and not queued |
| `BoardEffects.BuyCommitExact` | fomowell-launcher/src/main.rs:290-385 | a finished buy or sell changes its own project alone, to the record read first brought up to date, and takes over exactly when its cap is larger and it stands |
| `BoardEffects.NextReplies` | fomowell-launcher/src/main.rs:1481-1520 | only a reply counts a reply, and only a write-back forgets one, by restoring the count it read |
| `BoardEffects.RepliesCounted` | fomowell-launcher/src/main.rs:1481-1520 | over every interleaving in which a project is not written back its reply count grows by exactly the replies to it |
| `BoardEffects.ReplyForgotten` | fomowell-launcher/src/main.rs:355-384 | a reply that arrives while a buy or sell is suspended is forgotten |
| `Board.InitialSafe` | fomowell-launcher/src/main.rs:88-97 | the state the launcher starts in satisfies both invariants |
| `Board.NextQueuedDoneIff` | fomowell-launcher/src/main.rs:355-384 | a segment keeps every pool queued at most once and every queued pool done exactly when it is not a write-back of an unfinished record over a queued pool |
| `Board.ErasureFreeLocksOnce` | fomowell-launcher/src/main.rs:235-495 | over every interleaving without such a write-back each pool is queued at most once |
| `Board.ErasesIffLocksAgain` | fomowell-launcher/src/main.rs:355-384 | a segment is such a write-back exactly when a fresh scan right after it can queue some pool a second time |
| `Board.NextLockSafeIff` | fomowell-launcher/src/main.rs:459-495 | a segment keeps, besides, every suspended set_buy_or_sell from holding an unfinished record of a queued pool exactly when it is not a race |
| `Board.RaceFreeIsErasureFree` | fomowell-launcher/src/main.rs:235-495 | a run without a race has no erasing write-back |
| `Board.RaceWithoutErasure` | fomowell-launcher/src/main.rs:235-259 | not conversely: a run with a race whose call never commits queues the pool once |
| `Board.RaceLocksTwice` | fomowell-launcher/src/main.rs:235-385 | after a race a continuation exists that queues the pool a second time |
| `Board.LockedTwiceIsReachable` | fomowell-launcher/src/main.rs:235-495 | a run from the initial state that queues a pool twice |

## Left out

- CountPoint: the u64 counters are unbounded here, so wrapping after 2^64 calls is not modelled.
- TradeThenAdjust: for 0 < k < 1 the slack and the target solver's allowance are upper bounds on the roundings; on a nearly flat slope the allowance r/2k (k in 18 decimals) is large.
- BaseSaleTwoSided: decimals more than 19 apart, where the power of ten wraps, are left to `PmmV1.SteepStepTrapsIff` and `SaleBounds.AdjustIsRescaleIff`.
- MidPriceTwoSided: scales beyond 10^38, which wrap, are left to `MidPrice.PriceScaleIff`.
- SlopedPrice: the slack is an upper bound on the roundings, not their exact sum.
- InverseNearlyLargest: assumes that a configured burn is switched on, since the inverse does not look at the switch; `FeeInverse.BurnOffGap` has the other case.
- Callers, clocks, oracle answers and market caps are parameters of the operations that read them.
- The decimal-aware `get_mid_price`, `slippage_check`, `get_holders` paging and sorting, metadata: they would only add easy members.
- The ICRC1 arm of `getAmountWithoutFeeQuery`, token kinds it does not implement, and the supply and decimals fields of the fee record, which the fee functions do not read.
- Names, avatars, links, images, comment storage and the time stamps of point history entries.
- The router calls that carry out a queued transfer or lock: a pool counts as queued once `update_progress` puts it on its list.
- Panics inside `set_buy_or_sell` and `create_fomo` between their awaits: such a call never reaches its last segment, which the interleavings allow.
- Upgrades, canister creation, HTTP calls, logging, the frontend, and the ICPSwap and Sonic client libraries.
