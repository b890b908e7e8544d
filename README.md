# Procurement preference scoring and chat normalisation, modelled in Dafny

This project models the computational core of a procurement assistant web
application. It covers two parts.

- **The scoring engine** behind the "support" page (`ChatSupport.tsx`). Given
  the bidders a user entered and the chosen evaluation policy, the engine
  excludes bidders, normalises prices and technical scores against the
  eligible bidders, weights them, ranks the bidders and names a winner. There
  are three policies:
  - the SME preference (`computeSME`): a 10% price uplift for bidders without
    an SME certificate, and a ranking by weighted total;
  - the national-product price preference (`computeNational`): the winner is
    the lowest award price after a reduction for national content, whatever
    the weighted scores say;
  - the high-value projects formula (`computeHighValue`): bonus points for
    local content and listing, figures shown to two decimals, and the winner
    is the first non-excluded bidder in ranking order.

  Alongside the policies the model covers the helpers `toNum`, `roundInt`,
  `round2` and `intRound`, and the stable sort of ECMA-262.
- **The message preparation** of the general chat page (`ChatGeneral.tsx`):
  - `normalizeForApi`, which turns the on-screen conversation into the list
    sent to the model;
  - `splitToWordTokens`, which cuts text into runs of white space and
    non-white space;
  - `isMostlyEnglish`, the letter-ratio test used by the input filter.

Modules and files:

| file | module | contents |
|---|---|---|
| `numbers.dfy` | `Numbers` | JavaScript numbers as `Finite(real)` or `NonFinite` (NaN, ±Infinity); `toNum`, `Math.round`, `roundInt`, `round2`, `intRound`, `Math.min`/`Math.max` |
| `stable_sort.dfy` | `StableSort` | `Array.prototype.sort` with a key comparator, as a stable insertion sort into non-increasing order |
| `report.dfy` | `Report` | the weights and the weight-sum check, and the result shape (a status row, or a table and a winner sentence) |
| `sme.dfy` | `SmePreference` | `computeSME` as an imperative method over an array of competitor records, proved equal to a specification function, plus its properties |
| `national.dfy` | `NationalPreference` | `computeNational` as functions, plus its properties |
| `high_value.dfy` | `HighValue` | `computeHighValue` as functions, plus its properties |
| `text.dfy` | `Text` | JavaScript white space, `trim`, `splitToWordTokens`, `isMostlyEnglish` |
| `conversation.dfy` | `Conversation` | `normalizeForApi` as a method with its two loops, proved equal to a specification function, plus its properties |

The source numbers are IEEE-754 doubles. The model uses exact reals and keeps
the one non-finite case the engine can produce: a division by zero. A non-finite
result comes out of `toNum`, `intRound` and the high-value sort key as 0, as the
code does.

`Math.round` rounds halves towards +Infinity: `Math.round(58.5)` is 59 and
`Math.round(-0.5)` is 0. The comments at `src/pages/ChatSupport.tsx` lines 243
and 281 say the rounding matches Python's `int(round())`. Python rounds halves
to the even neighbour, so `int(round(58.5))` is 58. The two rules differ
exactly on halves whose `Math.round` result is odd. The model follows the code:
`Numbers.Round` is `Math.round`, `Numbers.RoundHalfEven` is Python's rule, and
three lemmas state where the two agree and where they differ. The worked SME
example shows the difference: the non-SME bidder's weighted technical score
of 58.5 is displayed as 59, where Python's rule gives 58.

## Model

| member | source | states |
|---|---|---|
| Numbers.ToNum | src/pages/ChatSupport.tsx:22-25 | a finite number passes through unchanged; NaN and ±Infinity become 0 |
| Numbers.Div | src/pages/ChatSupport.tsx:386 | JavaScript division: finite exactly when the divisor is non-zero, and then the quotient times the divisor is the dividend |
| Numbers.Scale | src/pages/ChatSupport.tsx:387 | multiplying by a factor keeps a non-finite value non-finite and scales a finite one |
| Numbers.Plus | src/pages/ChatSupport.tsx:392 | a sum is finite exactly when both operands are, and is then their sum |
| Numbers.Round | src/pages/ChatSupport.tsx:27 | `Math.round`: the integer k with k - 1/2 <= x < k + 1/2 (halves go up) |
| Numbers.RoundUnique | src/pages/ChatSupport.tsx:27 | that condition determines the rounded value |
| Numbers.RoundMonotone | src/pages/ChatSupport.tsx:27 | rounding preserves order |
| Numbers.RoundHalfEven | src/pages/ChatSupport.tsx:281 | Python's `int(round())`, which the comment names: an integer within 1/2 of x, and an even one when x is a half |
| Numbers.RoundAgreesHalfEvenOffHalves | src/pages/ChatSupport.tsx:281-282 | away from halves `Math.round` and Python's rule agree |
| Numbers.RoundHalfEvenDiffersIff | src/pages/ChatSupport.tsx:281-282 | the two rules differ exactly on a half whose `Math.round` result is odd |
| Numbers.RoundDiffersOnOddHalf | src/pages/ChatSupport.tsx:243-252 | on 58.5, the weighted technical score of the worked example, `Math.round` gives 59 and Python's rule 58 |
| Numbers.RoundInt | src/pages/ChatSupport.tsx:27 | `roundInt` gives the nearest integer, halves up |
| Numbers.Round2 | src/pages/ChatSupport.tsx:28 | `round2` gives a multiple of 0.01 within 0.005 of its argument |
| Numbers.IntRound | src/pages/ChatSupport.tsx:282 | `intRound` rounds a finite number to the nearest integer and maps NaN/±Infinity to 0 |
| Numbers.MinOf | src/pages/ChatSupport.tsx:215 | `Math.min(...s)` of a non-empty list is an element of it and at most every element |
| Numbers.MaxOf | src/pages/ChatSupport.tsx:216 | `Math.max(...s)` of a non-empty list is an element of it and at least every element |
| Numbers.RatioPercent | src/pages/ChatSupport.tsx:229 | (a / b) * 100 for 0 < a <= b lies in (0, 100] and is 100 exactly when a == b |
| StableSort.SortDescCorrect | src/pages/ChatSupport.tsx:241 | the sort result is a permutation of its input, non-increasing by key, and keeps the input order of equal keys |
| StableSort.SortDescHeadIsMax | src/pages/ChatSupport.tsx:256 | the first element of the sorted list has the greatest key |
| StableSort.Insert | src/pages/ChatSupport.tsx:241 | one insertion step of the sort; `InsertPermutes` states that it only adds its element, and `SortDescCorrect` the order it keeps |
| StableSort.SortDesc | src/pages/ChatSupport.tsx:241 | the sorted copy; `SortDescCorrect` states it is the stable non-increasing permutation and `SortDescHeadIsMax` that its head has the greatest key |
| Report.WeightsOffMeans | src/pages/ChatSupport.tsx:290 | the weights are off exactly when their sum lies outside 100 ± 1e-6 |
| Report.WeightsOff | src/pages/ChatSupport.tsx:290 | the test `Math.abs(sum - 100) > 1e-6`; `Report.WeightsOffMeans` states which sums it rejects |
| SmePreference.CodeUnitChar | src/pages/ChatSupport.tsx:175 | `String.fromCharCode` of a code unit outside the surrogate range is that character |
| SmePreference.DefaultName | src/pages/ChatSupport.tsx:175 | the default name of bidder i is one character, the letter 'A' + i for i < 26 |
| SmePreference.Prepare | src/pages/ChatSupport.tsx:174-200 | the record built for one bidder; `SmePreference.CompetitorFields` states its fields |
| SmePreference.ScoreOne | src/pages/ChatSupport.tsx:219-238 | the loop body for one record; `SmePreference.FailingScoresZero`, `ScoreOneRanges` and `ScoreOnePositive` state its results |
| SmePreference.SmeEvaluation | src/pages/ChatSupport.tsx:161-279 | the result of `computeSME`; `ComputeSme` is proved to return it, and `NoPassingIsStatusOnly`, `SmeTable` and `WinnerHasBestTotal` state what it shows |
| SmePreference.Prepared | src/pages/ChatSupport.tsx:174-200 | one competitor record per bidder |
| SmePreference.Passing | src/pages/ChatSupport.tsx:202 | the filter keeps exactly the records that passed the technical threshold |
| SmePreference.PreparedFacts | src/pages/ChatSupport.tsx:181-204 | a passing record has a non-zero adjusted price and a score of at least 70, and some record passes exactly when some bidder scores 70 or more |
| SmePreference.MinEffective | src/pages/ChatSupport.tsx:215 | the reference price is non-zero, and positive when every passing bidder's price is |
| SmePreference.MaxTech | src/pages/ChatSupport.tsx:216 | the reference technical score is at least 70 |
| SmePreference.ScoreAll | src/pages/ChatSupport.tsx:219-238 | scoring keeps the number of records |
| SmePreference.ScoreAllAt | src/pages/ChatSupport.tsx:219-238 | the k-th scored record is the k-th record put through the loop body |
| SmePreference.ScoreAllFromElements | src/pages/ChatSupport.tsx:219-238 | a list that agrees with the loop body at every position is the scored list |
| SmePreference.Scored | src/pages/ChatSupport.tsx:219-238 | the completed records, one per bidder |
| SmePreference.Ranking | src/pages/ChatSupport.tsx:241 | the ranking holds one record per bidder |
| SmePreference.RankedLines | src/pages/ChatSupport.tsx:244-253 | one displayed line per ranked record |
| SmePreference.CompleteScores | src/pages/ChatSupport.tsx:219-238 | the in-place loop leaves the array equal to every old record scored and changes nothing else |
| SmePreference.ComputeSme | src/pages/ChatSupport.tsx:161-279 | what the method returns is the result the specification function gives for the same bidders and weights |
| SmePreference.ScoredAt | src/pages/ChatSupport.tsx:219-238 | the i-th completed record is the i-th prepared record scored |
| SmePreference.CompetitorFields | src/pages/ChatSupport.tsx:175-185 | a record passes exactly at a technical score of 70 or more, pays its price as an SME and 110% otherwise, and without a name is named after its position |
| SmePreference.FailingScoresZero | src/pages/ChatSupport.tsx:220-227 | a failing bidder has all five scores 0 |
| SmePreference.NoPassingIsStatusOnly | src/pages/ChatSupport.tsx:204-213 | the result is the "no bidder passed" status exactly when no bidder passed, and a table otherwise |
| SmePreference.MinEffectiveIsLeast | src/pages/ChatSupport.tsx:215 | the reference price is the adjusted price of some passing bidder and at most that of every passing bidder |
| SmePreference.ZeroPriceReference | src/pages/ChatSupport.tsx:202-229 | when a bidder at price 0 passes, the reference price is at most 0, and is 0 exactly when no passing bidder has a negative price; the zero bidder's raw score divides 0 or a negative number by 0 |
| SmePreference.MaxTechIsGreatest | src/pages/ChatSupport.tsx:216 | the reference score is the score of some passing bidder and at least that of every passing bidder |
| SmePreference.WithinReference | src/pages/ChatSupport.tsx:215-216 | a passing bidder's adjusted price is at least the reference price and its score at most the reference score |
| SmePreference.PassingRawScores | src/pages/ChatSupport.tsx:229-237 | a passing bidder's financial and technical raw scores lie in (0, 100]; the financial one is 100 exactly when no passing bidder is cheaper, the technical one exactly when no passing bidder scores higher |
| SmePreference.ScoreOneRanges | src/pages/ChatSupport.tsx:229-237 | the same bounds for one record against reference figures it respects |
| SmePreference.CheapestIff | src/pages/ChatSupport.tsx:215 | a passing bidder's adjusted price is the reference price exactly when no passing bidder is cheaper |
| SmePreference.BestIff | src/pages/ChatSupport.tsx:216 | a passing bidder's score is the reference score exactly when no passing bidder scores higher |
| SmePreference.PassingIgnoresFailing | src/pages/ChatSupport.tsx:202 | adding a failing bidder leaves the passing records unchanged |
| SmePreference.FailingBidderChangesNoScore | src/pages/ChatSupport.tsx:202-238 | adding a failing bidder changes no other bidder's scores |
| SmePreference.RankingIsStableSort | src/pages/ChatSupport.tsx:241 | the ranking is a permutation of the completed records, by non-increasing total, equal totals in input order |
| SmePreference.AssembleShape | src/pages/ChatSupport.tsx:244-276 | one table line per ranked record after a warning line exactly when the weights are off; the winner sentence names the top record exactly when it passed |
| SmePreference.SmeTable | src/pages/ChatSupport.tsx:256-276 | with a passing bidder the result is always a table; off weights only add the warning line |
| SmePreference.PassingTotalPositive | src/pages/ChatSupport.tsx:229-237 | under non-negative weights with a positive sum a passing bidder's total is positive |
| SmePreference.ScoreOnePositive | src/pages/ChatSupport.tsx:229-237 | the same for one record |
| SmePreference.WinnerHasBestTotal | src/pages/ChatSupport.tsx:241-259 | under such weights the winner sentence names a passing bidder whose total no bidder exceeds, with that total rounded |
| SmePreference.UpliftLowersTotal | src/pages/ChatSupport.tsx:183-237 | with a positive financial weight, the uplifted price scores strictly lower than the plain price at the same technical score |
| SmePreference.SmeCertificateWins | src/pages/ChatSupport.tsx:183-237 | of two passing bidders with equal price and technical score, the SME one has the strictly higher total under a positive financial weight |
| SmePreference.ExampleScores | src/pages/ChatSupport.tsx:174-238 | a worked two-bidder case (financial weight 40%, technical 60%): the SME bidder at 100000 and 80 points, the non-SME bidder at 95000 (104500 after uplift) and 78 points, both scored in full |
| SmePreference.ExampleRanking | src/pages/ChatSupport.tsx:241 | in that case the SME bidder is ranked first |
| SmePreference.ExampleRows | src/pages/ChatSupport.tsx:244-253 | its displayed rows: the SME bidder 40 + 60 = 100, the other 38 + 59 = 97 (58.5 is shown as 59) |
| SmePreference.ExampleSmeWins | src/pages/ChatSupport.tsx:256-259 | the SME bidder wins with 100 |
| SmePreference.ExampleReference | src/pages/ChatSupport.tsx:174-216 | in the worked case both bidders pass, the reference price is 100000 and the reference score 80 |
| SmePreference.DefaultExampleScores | src/pages/ChatSupport.tsx:219-238 | under the page's initial weights (technical 40%, financial 60%, set at line 82) the SME bidder scores 60 + 40 and the other bidder about 57.4 + 39 |
| SmePreference.DefaultExampleRanking | src/pages/ChatSupport.tsx:241 | under those weights the SME bidder is ranked first |
| SmePreference.DefaultExampleRows | src/pages/ChatSupport.tsx:244-253 | its displayed rows: the SME bidder 60 + 40 = 100, the other 57 + 39 = 96 |
| SmePreference.DefaultExampleSmeWins | src/pages/ChatSupport.tsx:256-259 | under the initial weights the SME bidder wins with 100 |
| SmePreference.ZeroTotalsKeepOrder | src/pages/ChatSupport.tsx:241 | when all totals are equal the sort returns its input |
| SmePreference.ZeroWeightsFailingFirst | src/pages/ChatSupport.tsx:241-259 | with both weights 0 and a failing first bidder, the winner sentence is the "top row did not pass" warning whoever else passed |
| SmePreference.PassingTotalZero | src/pages/ChatSupport.tsx:229-237 | with both weights 0 every total is 0 |
| NationalPreference.Assess | src/pages/ChatSupport.tsx:305-367 | the record keeps its bidder, is eligible exactly when no exclusion rule applies, and has zero scores |
| NationalPreference.Qualifies | src/pages/ChatSupport.tsx:306-351 | none of the three exclusion rules applies; `NationalPreference.StandingRule` states the rules in order and `Assess` that eligibility is exactly this |
| NationalPreference.NatShare | src/pages/ChatSupport.tsx:334-336 | national / (national + foreign), 0 for an empty sum; `NationalPreference.ShareBounds` states its range |
| NationalPreference.NationalEvaluation | src/pages/ChatSupport.tsx:284-438 | the result of `computeNational`; `WeightCheck`, `NoEligibleIff`, `RowsInInputOrder` and `WinnerHasLeastAward` state what it shows |
| NationalPreference.AssessAll | src/pages/ChatSupport.tsx:305-367 | one record per bidder; every eligible one has a technical score of at least 70 |
| NationalPreference.EligibleOnly | src/pages/ChatSupport.tsx:369 | the filter keeps exactly the eligible records |
| NationalPreference.ScoreRecord | src/pages/ChatSupport.tsx:384-393 | scoring keeps the bidder, standing and prices, and leaves non-eligible records unchanged |
| NationalPreference.ScoreAll | src/pages/ChatSupport.tsx:384-393 | scoring keeps the number of records |
| NationalPreference.LeastAward | src/pages/ChatSupport.tsx:395-397 | the reduce returns its start value or an element of the list |
| NationalPreference.NatRows | src/pages/ChatSupport.tsx:417-432 | one displayed row per record |
| NationalPreference.Effectives | src/pages/ChatSupport.tsx:381 | the effective prices of a list of records, position by position |
| NationalPreference.Techs | src/pages/ChatSupport.tsx:382 | the technical scores of a list of records, position by position |
| NationalPreference.MaxTech | src/pages/ChatSupport.tsx:382 | the reference technical score is at least 70 |
| NationalPreference.NatScored | src/pages/ChatSupport.tsx:384-393 | one scored record per bidder |
| NationalPreference.AssessAllAt | src/pages/ChatSupport.tsx:305-367 | the i-th record is bidder i assessed |
| NationalPreference.ScoreAllAt | src/pages/ChatSupport.tsx:384-393 | the k-th scored record is the k-th record scored |
| NationalPreference.StandingRule | src/pages/ChatSupport.tsx:306-351 | the exclusion rules in order: not committed, then technical score below 70, then mandatory items above the price, otherwise eligible |
| NationalPreference.ExcludedFigures | src/pages/ChatSupport.tsx:306-351 | an excluded bidder has effective and award price 0; only one excluded for its mandatory items keeps its national share |
| NationalPreference.ShareBounds | src/pages/ChatSupport.tsx:334-336 | with non-negative content prices the share lies in [0, 1], is 1 for purely national content and 0 without national content |
| NationalPreference.EligibleBounds | src/pages/ChatSupport.tsx:353-354 | an eligible bidder's effective price lies between 0 and 110% of its competitive price, its award price is effective plus mandatory items, and its share percentage is in [0, 100] |
| NationalPreference.HigherShareLowersAward | src/pages/ChatSupport.tsx:353-354 | at equal price and mandatory items, a larger national share gives an award price no higher, strictly lower when the competitive price is positive |
| NationalPreference.ScoreRanges | src/pages/ChatSupport.tsx:386-392 | an eligible record's technical score is finite and in [0, 100·wTech]; its financial score and total are non-finite exactly when its effective price is 0, and otherwise bounded by 100·wFin and summed |
| NationalPreference.WeightCheck | src/pages/ChatSupport.tsx:289-299 | the result is the weight warning, quoting the sum, exactly when the weights are off |
| NationalPreference.AnyEligibleIff | src/pages/ChatSupport.tsx:369-370 | some record is eligible exactly when some bidder qualifies |
| NationalPreference.NoEligibleIff | src/pages/ChatSupport.tsx:369-379 | with valid weights the "no eligible bidder" status appears exactly when every bidder is excluded, and a table otherwise |
| NationalPreference.NatRowAt | src/pages/ChatSupport.tsx:417-432 | row i displays bidder i's scored record |
| NationalPreference.RowsInInputOrder | src/pages/ChatSupport.tsx:417-432 | row i shows bidder i's name, standing and rounded figures; an excluded bidder shows 0 for its prices and scores |
| NationalPreference.WithinReference | src/pages/ChatSupport.tsx:381-382 | an eligible bidder's effective price is at least minEff and its score lies between 70 and maxTech |
| NationalPreference.ZeroEffectiveShowsZero | src/pages/ChatSupport.tsx:386-431 | an eligible bidder with effective price 0 shows financial score and total 0 |
| NationalPreference.LeastAwardOverEligible | src/pages/ChatSupport.tsx:395-397 | folding over eligible records either keeps the start value, which undercuts or ties all, or ends on the first record with the least award, strictly below the start |
| NationalPreference.EligibleHead | src/pages/ChatSupport.tsx:369-395 | the first eligible record heads the filtered list |
| NationalPreference.WinnerIsFirstLeast | src/pages/ChatSupport.tsx:395-397 | the reduce picks the first eligible record with the least award price |
| NationalPreference.FirstLeastBidder | src/pages/ChatSupport.tsx:395-397 | the same fact read back on the bidders |
| NationalPreference.WinnerHasLeastAward | src/pages/ChatSupport.tsx:395-435 | with valid weights and an eligible bidder, the winner is the first qualifying bidder whose award price is least among the qualifying bidders, quoted with that price rounded |
| NationalPreference.WinnerIgnoresWeights | src/pages/ChatSupport.tsx:395-435 | for any two valid weightings the winner sentence is the same |
| NationalPreference.FullyNationalAwardZero | src/pages/ChatSupport.tsx:353-354 | a qualifying, purely national bid with no mandatory items has effective and award price 0 |
| NationalPreference.FullyNationalBid | src/pages/ChatSupport.tsx:353-435 | then the winner quotes an award price of 0 while that bidder's row shows financial score and total 0 |
| HighValue.ScoreBidder | src/pages/ChatSupport.tsx:467-486 | a scored entry keeps its bidder and exclusion flag; an excluded bidder scores 0 throughout |
| HighValue.Excluded | src/pages/ChatSupport.tsx:447-450 | `localTarget` is 0 or the technical average is below the pass mark; `HighValue.ScoreBidder` and `HvScoredAt` state that an excluded bidder scores 0 |
| HighValue.BonusPoints | src/pages/ChatSupport.tsx:474-476 | the local-content, baseline and listing points; `HighValue.ListedBonus` states the listing's effect on the final score |
| HighValue.FinalKey | src/pages/ChatSupport.tsx:488 | the sort key `toNum(final_score)`; `HighValue.ZeroPriceShowsZero` states that a non-finite score sorts as 0 |
| HighValue.HvRanking | src/pages/ChatSupport.tsx:488 | the sorted table; `HighValue.RankingIsStableSort` states it is the stable sort of the scored entries by final score |
| HighValue.HvEvaluation | src/pages/ChatSupport.tsx:440-514 | the result of `computeHighValue`; `NoEligibleIff`, `WinnerIsBestEligible` and `NoLocalTargetNeverWins` state what it shows |
| HighValue.ScoreAll | src/pages/ChatSupport.tsx:467-486 | one entry per bidder |
| HighValue.EligibleBidders | src/pages/ChatSupport.tsx:452 | the filter keeps exactly the non-excluded bidders |
| HighValue.Prices | src/pages/ChatSupport.tsx:464 | the prices, one per bidder in order |
| HighValue.TechAvgs | src/pages/ChatSupport.tsx:465 | the technical averages, one per bidder in order |
| HighValue.HvScored | src/pages/ChatSupport.tsx:467-486 | one scored entry per bidder |
| HighValue.FirstEligible | src/pages/ChatSupport.tsx:489-511 | "no winner" exactly when every entry is excluded |
| HighValue.HvRows | src/pages/ChatSupport.tsx:501-508 | one displayed row per entry |
| HighValue.ScoreAllAt | src/pages/ChatSupport.tsx:467-486 | the k-th entry is bidder k scored |
| HighValue.HvScoredAt | src/pages/ChatSupport.tsx:447-486 | entry i belongs to bidder i, carries its exclusion flag, and scores 0 when excluded |
| HighValue.HvScoredFlags | src/pages/ChatSupport.tsx:447-486 | entry i's bidder and exclusion flag |
| HighValue.AnyEligibleIff | src/pages/ChatSupport.tsx:452-453 | some bidder is eligible exactly when some bidder is not excluded |
| HighValue.NoEligibleIff | src/pages/ChatSupport.tsx:452-462 | the "no eligible bidder" status appears exactly when every bidder is excluded; otherwise a table with one row per bidder |
| HighValue.WithinReference | src/pages/ChatSupport.tsx:464-465 | an eligible bidder's price is at least minPrice and its average at most maxTech |
| HighValue.ScoreRanges | src/pages/ChatSupport.tsx:472-483 | for a bidder within positive reference figures all three scores are finite; the price part of the financial score (without the bonus points) lies in (0, 60] and is 60 exactly at the least price; the technical score lies in (0, 60] and is 60 exactly at the best average; final = 0.4 · financial + technical |
| HighValue.ListedBonus | src/pages/ChatSupport.tsx:476-483 | a listed company gains exactly 0.008 in final score over an otherwise equal unlisted one |
| HighValue.ZeroPriceShowsZero | src/pages/ChatSupport.tsx:472-507 | a price of 0 makes the financial and final scores non-finite, shown and sorted as 0 |
| HighValue.RankingIsStableSort | src/pages/ChatSupport.tsx:488 | the table is a permutation of the scored entries, highest final score first, ties in input order |
| HighValue.FirstEligibleAt | src/pages/ChatSupport.tsx:489-511 | the winner is named after the first non-excluded entry, with its final score rounded to two decimals |
| HighValue.FirstEligibleIsBest | src/pages/ChatSupport.tsx:488-489 | in a non-increasing list, the first non-excluded entry has the greatest key among non-excluded entries |
| HighValue.FirstOfKey | src/pages/ChatSupport.tsx:488-489 | the first non-excluded entry among those with key v is the first non-excluded entry of the list with key v |
| HighValue.OfKeyFirst | src/pages/ChatSupport.tsx:488-489 | conversely, a first non-excluded entry with key v stays first among those with key v |
| HighValue.WinnerPosition | src/pages/ChatSupport.tsx:488-489 | the winner's position in the table is the first non-excluded entry, which has the greatest final score among them |
| HighValue.EligibleBelowWinner | src/pages/ChatSupport.tsx:488-489 | every eligible bidder scores at most the winner, strictly less when entered before it |
| HighValue.WinnerIsBestEligible | src/pages/ChatSupport.tsx:488-511 | with an eligible bidder there is a winner: a non-excluded bidder with the greatest final score among eligible bidders, strictly above every eligible bidder entered before it, quoted with its score rounded to two decimals |
| HighValue.NoLocalTargetNeverWins | src/pages/ChatSupport.tsx:448-511 | a bidder with local-content target 0 is never named winner |
| Text.TrimStart | src/pages/ChatGeneral.tsx:179 | the result is no longer than the input and does not start with white space |
| Text.TrimStartSuffix | src/pages/ChatGeneral.tsx:179 | it is a suffix of the input, and everything removed is white space |
| Text.TrimEnd | src/pages/ChatGeneral.tsx:179 | the result is no longer than the input and does not end with white space |
| Text.TrimEndPrefix | src/pages/ChatGeneral.tsx:179 | it is a prefix of the input, and everything removed is white space |
| Text.Trim | src/pages/ChatGeneral.tsx:179 | `trim` leaves no white space at either end and never lengthens |
| Text.IsSpace | src/pages/ChatGeneral.tsx:179 | the white space of `trim` and `\s`; `Text.TrimRemovesOnlySpace` and `TokensShape` state what is removed and how the tokens are cut |
| Text.LeadingSpace | src/pages/ChatGeneral.tsx:179 | the count of leading characters removed is at most the length |
| Text.TrimRemovesOnlySpace | src/pages/ChatGeneral.tsx:179 | the trim is the slice after the leading white space; only white space precedes and follows it |
| Text.TrimOfTrimmed | src/pages/ChatGeneral.tsx:183 | a string without white space at its ends is its own trim |
| Text.TrimIdempotent | src/pages/ChatGeneral.tsx:179 | trimming twice is trimming once |
| Text.TrimEmptyIff | src/pages/ChatGeneral.tsx:179-180 | the trim is empty exactly when every character is white space |
| Text.RunLength | src/pages/ChatGeneral.tsx:192 | the length of the maximal leading run of one kind (white space or not) |
| Text.WordTokens | src/pages/ChatGeneral.tsx:191-194 | `splitToWordTokens`; `Text.TokensConcat` and `TokensShape` state that the tokens rebuild the text and are its maximal runs of one kind |
| Text.TokensConcat | src/pages/ChatGeneral.tsx:191-194 | the tokens put back together give the text |
| Text.TokensShape | src/pages/ChatGeneral.tsx:191-194 | no token is empty, each is all white space or free of it, and neighbouring tokens differ in kind |
| Text.CountLatin | src/pages/ChatGeneral.tsx:211 | the number of `[A-Za-z]` matches is at most the length |
| Text.CountLetters | src/pages/ChatGeneral.tsx:210 | the number of `[A-Za-z\u0600-\u06FF]` matches is at most the length |
| Text.IsMostlyEnglish | src/pages/ChatGeneral.tsx:208-214 | the letter-ratio test; `Text.MostlyEnglishIff` and `NoLettersNotEnglish` state when it holds |
| Text.RatioAtLeastThreeFifths | src/pages/ChatGeneral.tsx:213 | eng / letters >= 0.6 exactly when 5·eng >= 3·letters |
| Text.MostlyEnglishIff | src/pages/ChatGeneral.tsx:208-214 | mostly English exactly when there is a letter and 5·eng >= 3·letters |
| Text.NoLettersNotEnglish | src/pages/ChatGeneral.tsx:212 | a text without letters is never mostly English |
| Conversation.ContentOf | src/pages/ChatGeneral.tsx:179 | a message's content is its trimmed text, the empty string when the text is missing |
| Conversation.DropLeadingAssistant | src/pages/ChatGeneral.tsx:187 | the while loop stops at an empty list or a user entry |
| Conversation.Absorb | src/pages/ChatGeneral.tsx:178-184 | one pass of the for loop; `Conversation.AbsorbWellFormed`, `AbsorbUser` and `AbsorbRuns` state what it keeps |
| Conversation.Collect | src/pages/ChatGeneral.tsx:177-185 | the list the for loop builds; `Conversation.CollectWellFormed`, `CollectUserIff` and `CollectKeeps` state what it holds |
| Conversation.Normalized | src/pages/ChatGeneral.tsx:174-189 | the result of `normalizeForApi`; `Conversation.NormalizeForApi` is proved to return it, and `NormalizedShape` and `GreetingFallback` state what it is |
| Conversation.NormalizeForApi | src/pages/ChatGeneral.tsx:174-189 | the for loop and the while loop return exactly the specified normalised list |
| Conversation.MergeTrimNoOp | src/pages/ChatGeneral.tsx:183 | trimming two trimmed non-empty contents joined by a blank line changes nothing |
| Conversation.AbsorbWellFormed | src/pages/ChatGeneral.tsx:177-185 | one loop pass keeps the list well formed: non-empty trimmed contents, no two neighbours with one role |
| Conversation.CollectWellFormed | src/pages/ChatGeneral.tsx:177-185 | the list the for loop builds is well formed |
| Conversation.DropAtMostOne | src/pages/ChatGeneral.tsx:187 | on that list the while loop removes at most the first entry, and only an assistant one |
| Conversation.SuffixWellFormed | src/pages/ChatGeneral.tsx:187 | removing entries from the front keeps a list well formed |
| Conversation.NormalizedShape | src/pages/ChatGeneral.tsx:174-189 | the result is never empty, starts with a user entry, and is well formed |
| Conversation.DropEmptyIff | src/pages/ChatGeneral.tsx:187 | the while loop empties the list exactly when it has no user entry |
| Conversation.AbsorbUser | src/pages/ChatGeneral.tsx:177-185 | one pass adds a user entry exactly when the message is the user's and not blank |
| Conversation.CollectUserIff | src/pages/ChatGeneral.tsx:177-185 | the loop's list has a user entry exactly when some user message has non-blank text |
| Conversation.GreetingFallback | src/pages/ChatGeneral.tsx:187-188 | the greeting is sent exactly when no user message has non-blank text; otherwise the result is the merged list, less its first entry when that is an assistant one |
| Conversation.Contents | src/pages/ChatGeneral.tsx:179 | the contents of a list, position by position |
| Conversation.CollectKeeps | src/pages/ChatGeneral.tsx:177-185 | the merged list has one entry per maximal run of one role among the non-blank messages; entry k has run k's role and run k's contents joined by blank lines; all entries joined give all non-blank contents joined; the list is empty exactly when every message is blank |
| Conversation.Runs | src/pages/ChatGeneral.tsx:177-185 | the non-blank messages cut into runs of one role; no run is empty |
| Conversation.RunsShape | src/pages/ChatGeneral.tsx:177-185 | the runs are the maximal ones: put back together they give the non-blank messages, each run has one role, and neighbouring runs differ in role |
| Conversation.AbsorbRuns | src/pages/ChatGeneral.tsx:182-184 | a non-blank message either extends the last run and its entry or starts a new run and entry |
| Conversation.MergeExample | src/pages/ChatGeneral.tsx:177-185 | two user messages "a" and "b" followed by an assistant message "c" give a user entry "a\n\nb" and an assistant entry "c" |

## Left out

- Everything around the engine is not part of this model: the React state, the input forms, `setResult`/`setMode`, the titles, column headers, status and reason texts and the winner sentences. A result keeps only which kind of row or sentence is shown and the figures put into it (`Report.Status`, `Report.Winner`).
- `toNum` on text: the model takes the entered values as numbers already, so parsing a form field with `Number(...)` is not modelled. `Numbers.ToNum` keeps the part that matters after arithmetic: non-finite values become 0.
- IEEE-754 rounding: the figures are exact reals. A bidder pair whose doubles tie or cross only through rounding error can be ordered differently by the code.
- SmePreference.SmeEvaluation: requires `WellPriced`, so it says nothing when a bidder at price 0 passes the threshold. The source's outcome there rests on IEEE-754 NaN and infinities, which the exact reals of this model do not have. `SmePreference.ZeroPriceReference` proves that the reference price is then 0 when no passing bidder has a negative price, and negative otherwise. In the first case the zero bidder's raw financial score is 0 / 0 = NaN, and so is its total. The comparator's NaN results count as "equal" (SortCompare in ECMA-262), which is consistent only when every other total is the same: the sort then keeps input order and `intRound` shows NaN as 0; otherwise the order is implementation-defined. In the second case the raw score is -Infinity, and the total is -Infinity, +Infinity or NaN, as the financial weight is positive, negative or 0; a NaN total sorts as in the first case. Infinite totals sort last or first, equal among themselves in input order, and are shown as 0. These defined outcomes are not modelled. Negative prices are otherwise scored by the same arithmetic. The range and winner lemmas (`PassingRawScores`, `WithinReference`, `PassingTotalPositive`, `WinnerHasBestTotal`, `SmeCertificateWins`) assume positive prices, since a negative price can push a raw score outside (0, 100].
- SmePreference.ComputeSme: carries the same `WellPriced` requires as `SmeEvaluation`, and leaves out the same outcomes for the same reason.
- SmePreference.DefaultName: `String.fromCharCode` of a surrogate code unit (bidder positions 55231 to 57278, and those plus a multiple of 65536) is U+FFFD in the model, since a Dafny string holds only scalar values.
- The ChatGeneral page's network calls, its error-message helpers, and the filters `normalizeTextForChecks`, `isGibberish` and `looksOutOfDomain` are not part of this model.
- Conversation.ContentOf: a missing text (`null` or `undefined`) is `None`. `.toString()` on a non-string text is not modelled; the text is a string or missing.
- Text.IsMostlyEnglish: the ratio is compared exactly. In doubles, `eng / letters >= 0.6` can differ from the exact comparison only when the quotient is within half a unit in the last place of 0.6, which needs more than about 10^15 letters.
- Text: characters are Unicode scalar values, where JavaScript works on UTF-16 code units. The white-space set and both letter classes lie in the Basic Multilingual Plane, so the halves of a surrogate pair match none of them in either view, and the counts agree.
