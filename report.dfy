/** What the weighted evaluation policies share: the technical and financial
    weights the user enters, the test that they add up to 100, and what a
    policy hands to the presentation layer. The titles, column names and the
    wording of status rows and winner sentences are fixed strings of the
    application; the model keeps only which kind of message is shown and the
    figures that are interpolated into it. */
module Report {

  /** The technical and financial weights, in percent. */
  datatype Weights = Weights(techPct: real, finPct: real)

  /** How far the weight sum may be from 100 (1e-6). */
  const WeightTolerance: real := 0.000001

  /** `Math.abs(techPct + finPct - 100) > 1e-6`. */
  predicate WeightsOff(w: Weights)
  {
    var d := w.techPct + w.finPct - 100.0;
    (if d < 0.0 then -d else d) > WeightTolerance
  }

  /** The weights are off exactly when their sum lies outside the closed
      interval 100 +- 1e-6. */
  lemma WeightsOffMeans(w: Weights)
    ensures WeightsOff(w) <==>
              (w.techPct + w.finPct < 100.0 - WeightTolerance
               || w.techPct + w.finPct > 100.0 + WeightTolerance)
  {
  }

  /** The single row of a result that has no table. */
  datatype Status =
    | NoTechnicalPass                        // SME: no bidder reached the technical threshold
    | WeightSumNotHundred(totalWeight: real) // national: the weights do not add up to 100
    | NoEligibleBidder                       // national and high-value: every bidder was excluded

  /** The winner sentence under a table. */
  datatype Winner =
    | Named(name: string, figure: real)      // "the winner is <name> with <figure>"
    | TopRowNotPassed                        // SME: the best-ranked bidder failed the technical threshold
    | AllExcluded                            // high-value: no bidder left to win

  /** A policy's result: either one status row (and "no winner"), or a table
      of rows and a winner sentence. */
  datatype Outcome<Row> =
    | StatusOnly(status: Status)
    | Table(rows: seq<Row>, winner: Winner)
}
