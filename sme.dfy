/** SME preference policy (`computeSME`): bidders that reach the technical
    threshold are scored against the cheapest adjusted price and the best
    technical score among them, non-SME bidders carry a 10% price uplift,
    and the table is ranked by weighted total. A weight sum away from 100 only
    adds a warning row. */
module SmePreference {
  import opened Numbers
  import opened StableSort
  import opened Report

  const TechPassThreshold: real := 70.0
  /** Factor applied to the price of a bidder without an SME certificate. */
  const NonSmeUplift: real := 1.1

  datatype Bidder = Bidder(name: string, price: real, tech: real, isSme: bool)

  /** The record that computeSME builds for each bidder and then completes in
      place with its five scores. */
  datatype Competitor = Competitor(
    name: string,
    originalPrice: real,
    techScore: real,
    isSme: bool,
    passedTechnical: bool,
    effectivePrice: real,
    financialRaw: real,
    financialWeighted: real,
    technicalRaw: real,
    technicalWeighted: real,
    totalScore: real)

  /** One displayed bidder row; every figure goes through intRound. */
  datatype SmeRow = SmeRow(
    name: string,
    price: int,
    tech: int,
    isSme: bool,
    effectivePrice: int,
    financialScore: int,
    technicalScore: int,
    total: int)

  /** A line of the result table: the leading weight warning (its text in the
      warning column, every other column blank) or a bidder row. */
  datatype SmeLine = WeightAlert(totalWeight: real) | Ranked(row: SmeRow)

  /** The UTF-16 code unit u as a character; a lone surrogate, which a Dafny
      string cannot hold, becomes U+FFFD. */
  function CodeUnitChar(u: nat): (c: char)
    requires u < 0x1_0000
    ensures (u < 0xD800 || 0xE000 <= u) ==> c as int == u
  {
    if 0xD800 <= u < 0xE000 then '\U{FFFD}' else u as char
  }

  /** `String.fromCharCode("A".charCodeAt(0) + i)`: "A", "B", "C", ... */
  function DefaultName(i: nat): (name: string)
    ensures |name| == 1
    ensures i < 26 ==> name[0] as int == 'A' as int + i
  {
    [CodeUnitChar((65 + i) % 0x1_0000)]
  }

  /** The record built by the `map` callback for the i-th bidder. */
  function Prepare(b: Bidder, i: nat): (c: Competitor)
  {
    Competitor(
      if b.name == "" then DefaultName(i) else b.name,
      b.price,
      b.tech,
      b.isSme,
      b.tech >= TechPassThreshold,
      if b.isSme then b.price else b.price * NonSmeUplift,
      0.0, 0.0, 0.0, 0.0, 0.0)
  }

  function Prepared(bidders: seq<Bidder>): (cs: seq<Competitor>)
    ensures |cs| == |bidders|
  {
    seq(|bidders|, i requires 0 <= i < |bidders| => Prepare(bidders[i], i))
  }

  /** `competitors.filter((c) => c.passed_technical)`. */
  function Passing(cs: seq<Competitor>): (r: seq<Competitor>)
    ensures forall c :: c in r <==> c in cs && c.passedTechnical
  {
    if cs == [] then []
    else (if cs[0].passedTechnical then [cs[0]] else []) + Passing(cs[1..])
  }

  function EffectivePrices(cs: seq<Competitor>): (r: seq<real>)
  {
    seq(|cs|, i requires 0 <= i < |cs| => cs[i].effectivePrice)
  }

  function TechScores(cs: seq<Competitor>): (r: seq<real>)
  {
    seq(|cs|, i requires 0 <= i < |cs| => cs[i].techScore)
  }

  /** No bidder that passes the threshold has price 0, so no division by an
      adjusted price of zero happens. JavaScript would produce NaN or an
      infinity there, values the exact reals of this model do not have;
      ZeroPriceReference says which. */
  predicate WellPriced(bidders: seq<Bidder>)
  {
    forall i :: 0 <= i < |bidders| ==> bidders[i].tech >= TechPassThreshold ==> bidders[i].price != 0.0
  }

  /** Every bidder that passes the threshold has a positive price: the case
      the score ranges are stated for. A negative price is scored by the same
      arithmetic but can give raw scores outside (0, 100]. */
  predicate PositivelyPriced(bidders: seq<Bidder>)
  {
    forall i :: 0 <= i < |bidders| ==> bidders[i].tech >= TechPassThreshold ==> bidders[i].price > 0.0
  }

  predicate AnyPassing(bidders: seq<Bidder>)
  {
    exists i :: 0 <= i < |bidders| && bidders[i].tech >= TechPassThreshold
  }

  /** The body of the scoring loop for one competitor. */
  function ScoreOne(c: Competitor, minEff: real, maxTech: real, wFin: real, wTech: real): (r: Competitor)
    requires c.passedTechnical ==> c.effectivePrice != 0.0 && maxTech != 0.0
  {
    if !c.passedTechnical then
      c.(financialRaw := 0.0, financialWeighted := 0.0, technicalRaw := 0.0,
         technicalWeighted := 0.0, totalScore := 0.0)
    else
      var financialRaw := (minEff / c.effectivePrice) * 100.0;
      var technicalRaw := (c.techScore / maxTech) * 100.0;
      var financialWeighted := financialRaw * wFin;
      var technicalWeighted := technicalRaw * wTech;
      c.(financialRaw := financialRaw, financialWeighted := financialWeighted,
         technicalRaw := technicalRaw, technicalWeighted := technicalWeighted,
         totalScore := financialWeighted + technicalWeighted)
  }

  /** No record that passed the threshold has adjusted price 0. */
  predicate PricedWhenPassing(cs: seq<Competitor>)
  {
    forall c :: c in cs && c.passedTechnical ==> c.effectivePrice != 0.0
  }

  lemma PreparedFacts(bidders: seq<Bidder>)
    requires WellPriced(bidders)
    ensures forall c :: c in Prepared(bidders) && c.passedTechnical ==>
              c.effectivePrice != 0.0 && c.techScore >= TechPassThreshold
    ensures PricedWhenPassing(Prepared(bidders))
    ensures AnyPassing(bidders) <==> |Passing(Prepared(bidders))| > 0
  {
    var cs := Prepared(bidders);
    if AnyPassing(bidders) {
      var i :| 0 <= i < |bidders| && bidders[i].tech >= TechPassThreshold;
      assert cs[i] in Passing(cs);
    }
    if |Passing(cs)| > 0 {
      assert Passing(cs)[0] in cs;
    }
  }

  /** Under positive prices every passing record has a positive adjusted price. */
  lemma PreparedPositive(bidders: seq<Bidder>)
    requires PositivelyPriced(bidders)
    ensures forall c :: c in Prepared(bidders) && c.passedTechnical ==> c.effectivePrice > 0.0
  {
  }

  /** No passing record has adjusted price 0. */
  lemma PreparedPriced(bidders: seq<Bidder>)
    requires WellPriced(bidders)
    ensures PricedWhenPassing(Prepared(bidders))
  {
    assert forall c :: c in Prepared(bidders) && c.passedTechnical ==> c.effectivePrice != 0.0;
  }

  /** The least adjusted price among the passing bidders. */
  function MinEffective(bidders: seq<Bidder>): (m: real)
    requires WellPriced(bidders) && AnyPassing(bidders)
    ensures m != 0.0
    ensures PositivelyPriced(bidders) ==> m > 0.0
  {
    PreparedFacts(bidders);
    var valid := Passing(Prepared(bidders));
    var prices := EffectivePrices(valid);
    var m := MinOf(prices);
    var k :| 0 <= k < |prices| && prices[k] == m;
    assert valid[k] in valid;
    if PositivelyPriced(bidders) then PreparedPositive(bidders); m else m
  }

  /** The best technical score among the passing bidders. */
  function MaxTech(bidders: seq<Bidder>): (m: real)
    requires WellPriced(bidders) && AnyPassing(bidders)
    ensures m >= TechPassThreshold
  {
    PreparedFacts(bidders);
    var valid := Passing(Prepared(bidders));
    var m := MaxOf(TechScores(valid));
    assert valid[0] in valid;
    m
  }

  /** ScoreOne applied to every record. */
  function ScoreAll(cs: seq<Competitor>, minEff: real, maxTech: real, wFin: real, wTech: real): (r: seq<Competitor>)
    requires PricedWhenPassing(cs) && maxTech != 0.0
    ensures |r| == |cs|
  {
    if cs == [] then []
    else
      assert cs[0] in cs;
      [ScoreOne(cs[0], minEff, maxTech, wFin, wTech)] + ScoreAll(cs[1..], minEff, maxTech, wFin, wTech)
  }

  /** The k-th scored record is the k-th record scored. */
  lemma {:induction false} ScoreAllAt(cs: seq<Competitor>, minEff: real, maxTech: real, wFin: real, wTech: real, k: int)
    requires PricedWhenPassing(cs) && maxTech != 0.0 && 0 <= k < |cs|
    ensures cs[k].passedTechnical ==> cs[k].effectivePrice != 0.0
    ensures ScoreAll(cs, minEff, maxTech, wFin, wTech)[k] == ScoreOne(cs[k], minEff, maxTech, wFin, wTech)
  {
    assert cs[k] in cs;
    if k > 0 {
      assert cs[1..][k - 1] == cs[k];
      ScoreAllAt(cs[1..], minEff, maxTech, wFin, wTech, k - 1);
    }
  }

  /** A sequence that agrees with ScoreOne at every position is ScoreAll. */
  lemma ScoreAllFromElements(cs: seq<Competitor>, r: seq<Competitor>, minEff: real, maxTech: real, wFin: real, wTech: real)
    requires PricedWhenPassing(cs) && maxTech != 0.0 && |r| == |cs|
    requires forall k :: 0 <= k < |cs| ==> cs[k].passedTechnical ==> cs[k].effectivePrice != 0.0
    requires forall k :: 0 <= k < |cs| ==> r[k] == ScoreOne(cs[k], minEff, maxTech, wFin, wTech)
    ensures r == ScoreAll(cs, minEff, maxTech, wFin, wTech)
  {
    var all := ScoreAll(cs, minEff, maxTech, wFin, wTech);
    forall k | 0 <= k < |cs| ensures r[k] == all[k] {
      ScoreAllAt(cs, minEff, maxTech, wFin, wTech, k);
    }
  }

  /** Every competitor after the scoring loop, in input order. */
  function Scored(bidders: seq<Bidder>, w: Weights): (cs: seq<Competitor>)
    requires WellPriced(bidders) && AnyPassing(bidders)
    ensures |cs| == |bidders|
  {
    PreparedFacts(bidders);
    var pre := Prepared(bidders);
    ScoreAll(pre, MinEffective(bidders), MaxTech(bidders), w.finPct / 100.0, w.techPct / 100.0)
  }

  /** What the scoring loop leaves behind is Scored. */
  lemma ScoredFromLoop(bidders: seq<Bidder>, w: Weights, prepared: seq<Competitor>, cs: seq<Competitor>,
                       minEff: real, maxTech: real, wFin: real, wTech: real)
    requires WellPriced(bidders) && AnyPassing(bidders)
    requires prepared == Prepared(bidders)
    requires minEff == MinEffective(bidders) && maxTech == MaxTech(bidders)
    requires wFin == w.finPct / 100.0 && wTech == w.techPct / 100.0
    requires PricedWhenPassing(prepared) && maxTech != 0.0
    requires cs == ScoreAll(prepared, minEff, maxTech, wFin, wTech)
    ensures cs == Scored(bidders, w)
  {
  }

  function TotalScore(c: Competitor): real
  {
    c.totalScore
  }

  /** `[...competitors].sort((a, b) => b.total_score - a.total_score)`. */
  function Ranking(bidders: seq<Bidder>, w: Weights): (cs: seq<Competitor>)
    requires WellPriced(bidders) && AnyPassing(bidders)
    ensures |cs| == |bidders|
  {
    SortDesc(Scored(bidders, w), TotalScore)
  }

  /** A bidder row; all figures are finite, so intRound is Math.round here. */
  function Display(c: Competitor): (row: SmeRow)
  {
    SmeRow(c.name, Round(c.originalPrice), Round(c.techScore), c.isSme, Round(c.effectivePrice),
           Round(c.financialWeighted), Round(c.technicalWeighted), Round(c.totalScore))
  }

  function RankedLines(cs: seq<Competitor>): (lines: seq<SmeLine>)
    ensures |lines| == |cs|
  {
    seq(|cs|, i requires 0 <= i < |cs| => Ranked(Display(cs[i])))
  }

  /** The winner sentence: the top row, if that bidder passed. */
  function SmeWinner(top: Competitor): (w: Winner)
  {
    if top.passedTechnical then Named(top.name, Round(top.totalScore) as real) else TopRowNotPassed
  }

  /** Steps 4 to 6 of computeSME: the displayed rows of the ranking, the
      winner sentence of its top row, and the weight warning in front. */
  function Assemble(sorted: seq<Competitor>, w: Weights): (r: Outcome<SmeLine>)
    requires |sorted| > 0
  {
    var rows := RankedLines(sorted);
    Table(if WeightsOff(w) then [WeightAlert(w.techPct + w.finPct)] + rows else rows,
          SmeWinner(sorted[0]))
  }

  /** The result of computeSME as a function of its inputs. */
  function SmeEvaluation(bidders: seq<Bidder>, w: Weights): (r: Outcome<SmeLine>)
    requires WellPriced(bidders)
  {
    if !AnyPassing(bidders) then StatusOnly(NoTechnicalPass)
    else Assemble(Ranking(bidders, w), w)
  }

  /** The scoring loop of computeSME: completes every competitor record in
      place, zero scores for those that failed the threshold. */
  method CompleteScores(competitors: array<Competitor>, minEffectivePrice: real, maxTechScore: real,
                        wFin: real, wTech: real)
    requires maxTechScore != 0.0 && PricedWhenPassing(competitors[..])
    modifies competitors
    ensures competitors[..] == ScoreAll(old(competitors[..]), minEffectivePrice, maxTechScore, wFin, wTech)
  {
    for i := 0 to competitors.Length
      invariant forall k :: 0 <= k < i ==>
        competitors[k] == ScoreOne(old(competitors[k]), minEffectivePrice, maxTechScore, wFin, wTech)
      invariant forall k :: i <= k < competitors.Length ==> competitors[k] == old(competitors[k])
    {
      assert competitors[i] in competitors[..];
      var c := competitors[i];
      if !c.passedTechnical {
        competitors[i] := c.(financialRaw := 0.0, financialWeighted := 0.0, technicalRaw := 0.0,
                             technicalWeighted := 0.0, totalScore := 0.0);
        continue;
      }
      var financialRaw := (minEffectivePrice / c.effectivePrice) * 100.0;
      var technicalRaw := (c.techScore / maxTechScore) * 100.0;
      competitors[i] := c.(financialRaw := financialRaw,
                           financialWeighted := financialRaw * wFin,
                           technicalRaw := technicalRaw,
                           technicalWeighted := technicalRaw * wTech,
                           totalScore := financialRaw * wFin + technicalRaw * wTech);
    }
    forall k | 0 <= k < competitors.Length
      ensures old(competitors[..])[k].passedTechnical ==> old(competitors[..])[k].effectivePrice != 0.0
    {
      assert old(competitors[..])[k] in old(competitors[..]);
    }
    ScoreAllFromElements(old(competitors[..]), competitors[..], minEffectivePrice, maxTechScore, wFin, wTech);
  }

  /** computeSME: builds the competitor records, completes them in place,
      sorts a copy and assembles the table. */
  method ComputeSme(bidders: seq<Bidder>, w: Weights) returns (result: Outcome<SmeLine>)
    requires WellPriced(bidders)
    ensures result == SmeEvaluation(bidders, w)
  {
    var n := |bidders|;
    var competitors := new Competitor[n](i requires 0 <= i < n => Prepare(bidders[i], i));
    var prepared := competitors[..];
    assert prepared == Prepared(bidders);
    PreparedFacts(bidders);
    var valid := Passing(prepared);
    if |valid| == 0 {
      return StatusOnly(NoTechnicalPass);
    }
    var minEffectivePrice := MinOf(EffectivePrices(valid));
    var maxTechScore := MaxOf(TechScores(valid));
    var wTech := w.techPct / 100.0;
    var wFin := w.finPct / 100.0;
    CompleteScores(competitors, minEffectivePrice, maxTechScore, wFin, wTech);
    var scored := competitors[..];
    ScoredFromLoop(bidders, w, prepared, scored, minEffectivePrice, maxTechScore, wFin, wTech);
    var sorted := SortDesc(scored, TotalScore);
    result := Assemble(sorted, w);
  }

  /*** Properties of the SME policy ***/

  /** Scored unfolded once, with the fact its scoring needs. */
  lemma ScoredUnfold(bidders: seq<Bidder>, w: Weights)
    requires WellPriced(bidders) && AnyPassing(bidders)
    ensures PricedWhenPassing(Prepared(bidders))
    ensures Scored(bidders, w)
         == ScoreAll(Prepared(bidders), MinEffective(bidders), MaxTech(bidders), w.finPct / 100.0, w.techPct / 100.0)
  {
    PreparedPriced(bidders);
  }

  /** The i-th completed record is the i-th prepared record scored against
      the reference figures. */
  lemma ScoredAt(bidders: seq<Bidder>, w: Weights, i: int)
    requires WellPriced(bidders) && AnyPassing(bidders) && 0 <= i < |bidders|
    ensures Prepared(bidders)[i].passedTechnical ==> Prepared(bidders)[i].effectivePrice != 0.0
    ensures Scored(bidders, w)[i]
         == ScoreOne(Prepared(bidders)[i], MinEffective(bidders), MaxTech(bidders), w.finPct / 100.0, w.techPct / 100.0)
  {
    ScoredUnfold(bidders, w);
    var pre, minEff, maxTech := Prepared(bidders), MinEffective(bidders), MaxTech(bidders);
    ScoreAllAt(pre, minEff, maxTech, w.finPct / 100.0, w.techPct / 100.0, i);
  }

  /** What each record says about its bidder: passes exactly at a technical
      score of 70 or more, pays its price if it is an SME and 110% of it
      otherwise, and is named after its position when it has no name. */
  lemma CompetitorFields(bidders: seq<Bidder>, w: Weights, i: int)
    requires WellPriced(bidders) && AnyPassing(bidders) && 0 <= i < |bidders|
    ensures var c := Scored(bidders, w)[i];
      && (c.passedTechnical <==> bidders[i].tech >= 70.0)
      && (bidders[i].isSme ==> c.effectivePrice == bidders[i].price)
      && (!bidders[i].isSme ==> c.effectivePrice == bidders[i].price * 11.0 / 10.0)
      && c.originalPrice == bidders[i].price && c.techScore == bidders[i].tech && c.isSme == bidders[i].isSme
      && (bidders[i].name != "" ==> c.name == bidders[i].name)
      && (bidders[i].name == "" && i < 26 ==> c.name == [('A' as int + i) as char])
  {
    ScoredAt(bidders, w, i);
  }

  /** A bidder that fails the threshold has all five scores at zero. */
  lemma FailingScoresZero(bidders: seq<Bidder>, w: Weights, i: int)
    requires WellPriced(bidders) && AnyPassing(bidders) && 0 <= i < |bidders|
    requires bidders[i].tech < TechPassThreshold
    ensures var c := Scored(bidders, w)[i];
      c.financialRaw == 0.0 && c.financialWeighted == 0.0 && c.technicalRaw == 0.0
      && c.technicalWeighted == 0.0 && c.totalScore == 0.0
  {
    ScoredAt(bidders, w, i);
  }

  /** Without a passing bidder the result is the single status row, and with
      one it is a table. */
  lemma NoPassingIsStatusOnly(bidders: seq<Bidder>, w: Weights)
    requires WellPriced(bidders)
    ensures SmeEvaluation(bidders, w) == StatusOnly(NoTechnicalPass)
        <==> forall i :: 0 <= i < |bidders| ==> bidders[i].tech < TechPassThreshold
    ensures SmeEvaluation(bidders, w).Table? <==> AnyPassing(bidders)
  {
  }

  /** The case WellPriced leaves out: when a bidder at price 0 passes, the
      least adjusted price among the passing bidders is 0 exactly when no
      passing bidder has a negative price, and negative otherwise. The zero
      bidder's raw financial score is then 0 / 0 (NaN) or a negative number
      over 0 (-Infinity), never a positive number over 0. */
  lemma ZeroPriceReference(bidders: seq<Bidder>, z: int)
    requires 0 <= z < |bidders| && bidders[z].tech >= TechPassThreshold && bidders[z].price == 0.0
    ensures |Passing(Prepared(bidders))| > 0
    ensures MinOf(EffectivePrices(Passing(Prepared(bidders)))) <= 0.0
    ensures MinOf(EffectivePrices(Passing(Prepared(bidders)))) == 0.0
        <==> forall j :: 0 <= j < |bidders| && bidders[j].tech >= TechPassThreshold ==> bidders[j].price >= 0.0
  {
    var prices := EffectivePrices(Passing(Prepared(bidders)));
    var kz := PassingPosition(bidders, z);
    EffectiveSign(bidders[z], z);
    var m := MinOf(prices);
    if forall j :: 0 <= j < |bidders| && bidders[j].tech >= TechPassThreshold ==> bidders[j].price >= 0.0 {
      var k :| 0 <= k < |prices| && prices[k] == m;
      var j := PassingSource(bidders, k);
      EffectiveSign(bidders[j], j);
    } else {
      var j :| 0 <= j < |bidders| && bidders[j].tech >= TechPassThreshold && bidders[j].price < 0.0;
      var k := PassingPosition(bidders, j);
      EffectiveSign(bidders[j], j);
    }
  }

  /** The uplift keeps the sign of the price. */
  lemma EffectiveSign(b: Bidder, i: nat)
    ensures Prepare(b, i).effectivePrice >= 0.0 <==> b.price >= 0.0
    ensures Prepare(b, i).effectivePrice == 0.0 <==> b.price == 0.0
  {
  }

  /** Where a passing bidder's adjusted price sits in the list Math.min reads. */
  lemma PassingPosition(bidders: seq<Bidder>, j: int) returns (k: int)
    requires 0 <= j < |bidders| && bidders[j].tech >= TechPassThreshold
    ensures 0 <= k < |Passing(Prepared(bidders))|
    ensures EffectivePrices(Passing(Prepared(bidders)))[k] == Prepared(bidders)[j].effectivePrice
  {
    var valid := Passing(Prepared(bidders));
    assert Prepared(bidders)[j] in valid;
    k :| 0 <= k < |valid| && valid[k] == Prepared(bidders)[j];
  }

  /** The passing bidder each entry of that list comes from. */
  lemma PassingSource(bidders: seq<Bidder>, k: int) returns (j: int)
    requires 0 <= k < |Passing(Prepared(bidders))|
    ensures 0 <= j < |bidders| && bidders[j].tech >= TechPassThreshold
    ensures Prepared(bidders)[j].effectivePrice == EffectivePrices(Passing(Prepared(bidders)))[k]
  {
    var cs := Prepared(bidders);
    var valid := Passing(cs);
    assert valid[k] in cs;
    j :| 0 <= j < |cs| && cs[j] == valid[k];
  }

  /** The reference price is the least adjusted price of a passing bidder. */
  lemma MinEffectiveIsLeast(bidders: seq<Bidder>)
    requires WellPriced(bidders) && AnyPassing(bidders)
    ensures forall j :: 0 <= j < |bidders| && bidders[j].tech >= TechPassThreshold ==>
              MinEffective(bidders) <= Prepared(bidders)[j].effectivePrice
    ensures exists j :: 0 <= j < |bidders| && bidders[j].tech >= TechPassThreshold &&
              Prepared(bidders)[j].effectivePrice == MinEffective(bidders)
  {
    PreparedFacts(bidders);
    var cs := Prepared(bidders);
    var valid := Passing(cs);
    var prices := EffectivePrices(valid);
    var m := MinEffective(bidders);
    assert m == MinOf(prices);
    forall j | 0 <= j < |bidders| && bidders[j].tech >= TechPassThreshold
      ensures m <= cs[j].effectivePrice
    {
      assert cs[j] in valid;
      var k :| 0 <= k < |valid| && valid[k] == cs[j];
      assert prices[k] == cs[j].effectivePrice;
    }
    var k :| 0 <= k < |prices| && prices[k] == m;
    assert valid[k] in cs;
    var j :| 0 <= j < |cs| && cs[j] == valid[k];
    assert bidders[j].tech >= TechPassThreshold && cs[j].effectivePrice == m;
  }

  /** The reference technical score is the best score of a passing bidder. */
  lemma MaxTechIsGreatest(bidders: seq<Bidder>)
    requires WellPriced(bidders) && AnyPassing(bidders)
    ensures forall j :: 0 <= j < |bidders| && bidders[j].tech >= TechPassThreshold ==>
              bidders[j].tech <= MaxTech(bidders)
    ensures exists j :: 0 <= j < |bidders| && bidders[j].tech >= TechPassThreshold &&
              bidders[j].tech == MaxTech(bidders)
  {
    PreparedFacts(bidders);
    var cs := Prepared(bidders);
    var valid := Passing(cs);
    var techs := TechScores(valid);
    var m := MaxTech(bidders);
    assert m == MaxOf(techs);
    forall j | 0 <= j < |bidders| && bidders[j].tech >= TechPassThreshold
      ensures bidders[j].tech <= m
    {
      assert cs[j] in valid;
      var k :| 0 <= k < |valid| && valid[k] == cs[j];
      assert techs[k] == cs[j].techScore;
    }
    var k :| 0 <= k < |techs| && techs[k] == m;
    assert valid[k] in cs;
    var j :| 0 <= j < |cs| && cs[j] == valid[k];
    assert bidders[j].tech >= TechPassThreshold && cs[j].techScore == m;
  }

  /** A passing bidder's own figures are bounded by the reference figures. */
  lemma WithinReference(bidders: seq<Bidder>, i: int)
    requires WellPriced(bidders) && AnyPassing(bidders) && PositivelyPriced(bidders) && 0 <= i < |bidders|
    requires bidders[i].tech >= TechPassThreshold
    ensures var c := Prepared(bidders)[i];
      c.passedTechnical && 0.0 < MinEffective(bidders) <= c.effectivePrice
      && 0.0 < c.techScore <= MaxTech(bidders) && c.techScore == bidders[i].tech
  {
    MinEffectiveIsLeast(bidders);
    MaxTechIsGreatest(bidders);
  }

  /** A passing bidder's raw scores lie in (0, 100]; the financial one is 100
      exactly for a cheapest passing bidder and the technical one exactly for
      a best passing bidder. */
  lemma PassingRawScores(bidders: seq<Bidder>, w: Weights, i: int)
    requires WellPriced(bidders) && AnyPassing(bidders) && PositivelyPriced(bidders) && 0 <= i < |bidders|
    requires bidders[i].tech >= TechPassThreshold
    ensures var c := Scored(bidders, w)[i];
      && 0.0 < c.financialRaw <= 100.0
      && 0.0 < c.technicalRaw <= 100.0
      && (c.financialRaw == 100.0 <==>
            forall j :: 0 <= j < |bidders| && bidders[j].tech >= TechPassThreshold ==>
              Prepared(bidders)[i].effectivePrice <= Prepared(bidders)[j].effectivePrice)
      && (c.technicalRaw == 100.0 <==>
            forall j :: 0 <= j < |bidders| && bidders[j].tech >= TechPassThreshold ==>
              bidders[j].tech <= bidders[i].tech)
  {
    var c := Scored(bidders, w)[i];
    var cs := Prepared(bidders);
    ScoredAt(bidders, w, i);
    WithinReference(bidders, i);
    ScoreOneRanges(cs[i], MinEffective(bidders), MaxTech(bidders), w.finPct / 100.0, w.techPct / 100.0);
    CheapestIff(bidders, i);
    BestIff(bidders, i);
  }

  /** Scoring a passing record against a reference price no higher than its
      own and a reference score no lower than its own. */
  lemma ScoreOneRanges(c: Competitor, minEff: real, maxTech: real, wFin: real, wTech: real)
    requires c.passedTechnical && 0.0 < minEff <= c.effectivePrice && 0.0 < c.techScore <= maxTech
    ensures var r := ScoreOne(c, minEff, maxTech, wFin, wTech);
      && 0.0 < r.financialRaw <= 100.0 && (r.financialRaw == 100.0 <==> c.effectivePrice == minEff)
      && 0.0 < r.technicalRaw <= 100.0 && (r.technicalRaw == 100.0 <==> c.techScore == maxTech)
  {
    RatioPercent(minEff, c.effectivePrice);
    RatioPercent(c.techScore, maxTech);
  }

  /** A passing bidder's adjusted price is the reference price exactly when
      no passing bidder is cheaper. */
  lemma CheapestIff(bidders: seq<Bidder>, i: int)
    requires WellPriced(bidders) && AnyPassing(bidders) && 0 <= i < |bidders|
    requires bidders[i].tech >= TechPassThreshold
    ensures Prepared(bidders)[i].effectivePrice == MinEffective(bidders) <==>
            forall j :: 0 <= j < |bidders| && bidders[j].tech >= TechPassThreshold ==>
              Prepared(bidders)[i].effectivePrice <= Prepared(bidders)[j].effectivePrice
  {
    MinEffectiveIsLeast(bidders);
  }

  /** A passing bidder's technical score is the reference score exactly when
      no passing bidder scores higher. */
  lemma BestIff(bidders: seq<Bidder>, i: int)
    requires WellPriced(bidders) && AnyPassing(bidders) && 0 <= i < |bidders|
    requires bidders[i].tech >= TechPassThreshold
    ensures bidders[i].tech == MaxTech(bidders) <==>
            forall j :: 0 <= j < |bidders| && bidders[j].tech >= TechPassThreshold ==>
              bidders[j].tech <= bidders[i].tech
  {
    MaxTechIsGreatest(bidders);
  }

  lemma {:induction false} PassingAppend(a: seq<Competitor>, b: seq<Competitor>)
    ensures Passing(a + b) == Passing(a) + Passing(b)
  {
    if a == [] {
      assert a + b == b;
    } else {
      var x := if a[0].passedTechnical then [a[0]] else [];
      assert (a + b)[0] == a[0] && (a + b)[1..] == a[1..] + b;
      PassingAppend(a[1..], b);
      assert x + (Passing(a[1..]) + Passing(b)) == (x + Passing(a[1..])) + Passing(b);
    }
  }

  lemma PreparedAppend(bidders: seq<Bidder>, b: Bidder)
    ensures Prepared(bidders + [b]) == Prepared(bidders) + [Prepare(b, |bidders|)]
  {
    var ext := bidders + [b];
    forall i | 0 <= i < |ext| ensures Prepared(ext)[i] == (Prepared(bidders) + [Prepare(b, |bidders|)])[i] {
      if i < |bidders| {
        assert ext[i] == bidders[i];
      }
    }
  }

  /** The passing records do not change when a failing bidder joins at the end. */
  lemma PassingIgnoresFailing(bidders: seq<Bidder>, b: Bidder)
    requires b.tech < TechPassThreshold
    ensures Passing(Prepared(bidders + [b])) == Passing(Prepared(bidders))
  {
    var last := [Prepare(b, |bidders|)];
    PreparedAppend(bidders, b);
    PassingAppend(Prepared(bidders), last);
    assert Passing(last) == [] + Passing(last[1..]);
    assert Passing(Prepared(bidders)) + [] == Passing(Prepared(bidders));
  }

  /** The reference set: a bidder that fails the threshold changes neither
      the reference price nor the reference score, and so no other bidder's
      scores. */
  lemma FailingBidderChangesNoScore(bidders: seq<Bidder>, b: Bidder, w: Weights)
    requires WellPriced(bidders) && AnyPassing(bidders) && b.tech < TechPassThreshold
    ensures WellPriced(bidders + [b]) && AnyPassing(bidders + [b])
    ensures Scored(bidders + [b], w)[..|bidders|] == Scored(bidders, w)
  {
    var ext := bidders + [b];
    assert WellPriced(ext) by {
      forall i | 0 <= i < |ext| && ext[i].tech >= TechPassThreshold ensures ext[i].price != 0.0 {
        assert i < |bidders| && ext[i] == bidders[i];
      }
    }
    assert AnyPassing(ext) by {
      var i :| 0 <= i < |bidders| && bidders[i].tech >= TechPassThreshold;
      assert ext[i] == bidders[i];
    }
    PassingIgnoresFailing(bidders, b);
    assert MinEffective(ext) == MinEffective(bidders);
    assert MaxTech(ext) == MaxTech(bidders);
    PreparedAppend(bidders, b);
    forall i | 0 <= i < |bidders| ensures Scored(ext, w)[i] == Scored(bidders, w)[i] {
      ScoredAt(ext, w, i);
      ScoredAt(bidders, w, i);
      assert Prepared(ext)[i] == Prepared(bidders)[i];
    }
  }

  /** The ranking is a rearrangement of all completed records, by
      non-increasing total, equal totals in input order. */
  lemma RankingIsStableSort(bidders: seq<Bidder>, w: Weights)
    requires WellPriced(bidders) && AnyPassing(bidders)
    ensures multiset(Ranking(bidders, w)) == multiset(Scored(bidders, w))
    ensures forall i, j :: 0 <= i < j < |bidders| ==>
              Ranking(bidders, w)[i].totalScore >= Ranking(bidders, w)[j].totalScore
    ensures forall k :: WithKey(Ranking(bidders, w), TotalScore, k) == WithKey(Scored(bidders, w), TotalScore, k)
  {
    var cs := Scored(bidders, w);
    SortDescCorrect(cs, TotalScore);
    var r := Ranking(bidders, w);
    assert r == SortDesc(cs, TotalScore);
    forall i, j | 0 <= i < j < |bidders| ensures r[i].totalScore >= r[j].totalScore {
      assert TotalScore(r[i]) >= TotalScore(r[j]);
    }
  }

  /** The table built from a ranking: one line per record in ranking order,
      after one warning line exactly when the weights are off; the winner
      sentence names the top record exactly when it passed. */
  lemma AssembleShape(sorted: seq<Competitor>, w: Weights)
    requires |sorted| > 0
    ensures var r := Assemble(sorted, w);
      var off := if WeightsOff(w) then 1 else 0;
      && |r.rows| == |sorted| + off
      && (WeightsOff(w) ==> r.rows[0] == WeightAlert(w.techPct + w.finPct))
      && (forall i :: 0 <= i < |sorted| ==> r.rows[i + off] == Ranked(Display(sorted[i])))
      && (r.winner.Named? <==> sorted[0].passedTechnical)
      && (r.winner.Named? ==> r.winner.name == sorted[0].name && r.winner.figure == Round(sorted[0].totalScore) as real)
      && (!r.winner.Named? ==> r.winner == TopRowNotPassed)
  {
    var rows := RankedLines(sorted);
    if WeightsOff(w) {
      var all := [WeightAlert(w.techPct + w.finPct)] + rows;
      assert Assemble(sorted, w).rows == all;
      forall i | 0 <= i < |sorted| ensures all[i + 1] == Ranked(Display(sorted[i])) {
        assert all[i + 1] == rows[i];
      }
    } else {
      assert Assemble(sorted, w).rows == rows;
    }
  }

  /** With a passing bidder the result is always a table: a weight sum away
      from 100 only puts one warning line in front of the bidder rows; the
      winner sentence names the top row exactly when that bidder passed. */
  lemma SmeTable(bidders: seq<Bidder>, w: Weights)
    requires WellPriced(bidders) && AnyPassing(bidders)
    ensures var r := SmeEvaluation(bidders, w);
      var top := Ranking(bidders, w)[0];
      var off := if WeightsOff(w) then 1 else 0;
      && r.Table?
      && |r.rows| == |bidders| + off
      && (WeightsOff(w) ==> r.rows[0] == WeightAlert(w.techPct + w.finPct))
      && (forall i :: 0 <= i < |bidders| ==> r.rows[i + off] == Ranked(Display(Ranking(bidders, w)[i])))
      && (r.winner.Named? <==> top.passedTechnical)
      && (r.winner.Named? ==> r.winner.name == top.name && r.winner.figure == Round(top.totalScore) as real)
      && (!r.winner.Named? ==> r.winner == TopRowNotPassed)
  {
    var sorted := Ranking(bidders, w);
    assert SmeEvaluation(bidders, w) == Assemble(sorted, w);
    AssembleShape(sorted, w);
  }

  /** With no negative weight and a positive weight sum, a passing bidder's
      total is positive. */
  lemma PassingTotalPositive(bidders: seq<Bidder>, w: Weights, i: int)
    requires WellPriced(bidders) && AnyPassing(bidders) && PositivelyPriced(bidders) && 0 <= i < |bidders|
    requires bidders[i].tech >= TechPassThreshold
    requires w.techPct >= 0.0 && w.finPct >= 0.0 && w.techPct + w.finPct > 0.0
    ensures Scored(bidders, w)[i].totalScore > 0.0
  {
    ScoredAt(bidders, w, i);
    WithinReference(bidders, i);
    var cs := Prepared(bidders);
    ScoreOnePositive(cs[i], MinEffective(bidders), MaxTech(bidders), w.finPct / 100.0, w.techPct / 100.0);
  }

  /** The total of a passing record under non-negative weights with a
      positive sum is positive. */
  lemma ScoreOnePositive(c: Competitor, minEff: real, maxTech: real, wFin: real, wTech: real)
    requires c.passedTechnical && 0.0 < minEff <= c.effectivePrice && 0.0 < c.techScore <= maxTech
    requires wFin >= 0.0 && wTech >= 0.0 && wFin + wTech > 0.0
    ensures ScoreOne(c, minEff, maxTech, wFin, wTech).totalScore > 0.0
  {
    var r := ScoreOne(c, minEff, maxTech, wFin, wTech);
    ScoreOneRanges(c, minEff, maxTech, wFin, wTech);
    WeightedPositive(r.financialRaw, r.technicalRaw, wFin, wTech);
  }

  lemma WeightedPositive(a: real, b: real, x: real, y: real)
    requires a > 0.0 && b > 0.0
    ensures x >= 0.0 && y >= 0.0 && x + y > 0.0 ==> a * x + b * y > 0.0
  {
    if x >= 0.0 && y >= 0.0 && x + y > 0.0 {
      if x > 0.0 {
        assert a * x > 0.0;
        assert b * y >= 0.0;
      } else {
        assert a * x == 0.0;
        assert b * y > 0.0;
      }
    }
  }

  /** With non-negative weights that do not sum to 0, the winner sentence
      names a passing bidder whose total no bidder exceeds. */
  lemma WinnerHasBestTotal(bidders: seq<Bidder>, w: Weights)
    requires WellPriced(bidders) && AnyPassing(bidders) && PositivelyPriced(bidders)
    requires w.techPct >= 0.0 && w.finPct >= 0.0 && w.techPct + w.finPct > 0.0
    ensures SmeEvaluation(bidders, w).Table? && SmeEvaluation(bidders, w).winner.Named?
    ensures var win := SmeEvaluation(bidders, w).winner;
      exists i :: 0 <= i < |bidders| && bidders[i].tech >= TechPassThreshold
        && Scored(bidders, w)[i].name == win.name
        && win.figure == Round(Scored(bidders, w)[i].totalScore) as real
        && forall j :: 0 <= j < |bidders| ==> Scored(bidders, w)[j].totalScore <= Scored(bidders, w)[i].totalScore
  {
    var cs := Scored(bidders, w);
    var top := Ranking(bidders, w)[0];
    SortDescHeadIsMax(cs, TotalScore);
    SmeTable(bidders, w);
    var i :| 0 <= i < |cs| && cs[i] == top;
    var p :| 0 <= p < |bidders| && bidders[p].tech >= TechPassThreshold;
    PassingTotalPositive(bidders, w, p);
    assert TotalScore(cs[p]) <= TotalScore(top);
    CompetitorFields(bidders, w, i);
    if bidders[i].tech < TechPassThreshold {
      FailingScoresZero(bidders, w, i);
      assert false;
    }
    forall j | 0 <= j < |bidders| ensures cs[j].totalScore <= cs[i].totalScore {
      assert TotalScore(cs[j]) <= TotalScore(top);
    }
  }

  /** m / a > m / b for positive m and 0 < a < b. */
  lemma DivideByLarger(m: real, a: real, b: real)
    requires m > 0.0 && 0.0 < a < b
    ensures m / a > m / b
  {
    assert m / a * a == m && m / b * b == m;
    assert m / b * a < m;
  }

  /** Of two passing records with the same technical score, one at price p
      and one at the uplifted price, the first has the higher total whenever
      the financial weight is positive. */
  lemma UpliftLowersTotal(ci: Competitor, cj: Competitor, p: real, minEff: real, maxTech: real, wFin: real, wTech: real)
    requires ci.passedTechnical && cj.passedTechnical && ci.techScore == cj.techScore
    requires 0.0 < minEff <= p && maxTech > 0.0 && wFin > 0.0
    requires ci.effectivePrice == p && cj.effectivePrice == p * 11.0 / 10.0
    ensures ScoreOne(ci, minEff, maxTech, wFin, wTech).totalScore > ScoreOne(cj, minEff, maxTech, wFin, wTech).totalScore
  {
    var fi := (minEff / p) * 100.0;
    var fj := (minEff / (p * 11.0 / 10.0)) * 100.0;
    DivideByLarger(minEff, p, p * 11.0 / 10.0);
    assert fi > fj;
    assert fi * wFin > fj * wFin;
  }

  /** The SME preference: of two passing bidders with the same price and the
      same technical score, the one with the SME certificate has the higher
      total whenever the financial weight is positive. */
  lemma SmeCertificateWins(bidders: seq<Bidder>, w: Weights, i: int, j: int)
    requires WellPriced(bidders) && PositivelyPriced(bidders) && 0 <= i < |bidders| && 0 <= j < |bidders|
    requires bidders[i].tech >= TechPassThreshold && bidders[j].tech == bidders[i].tech
    requires bidders[j].price == bidders[i].price
    requires bidders[i].isSme && !bidders[j].isSme && w.finPct > 0.0
    ensures AnyPassing(bidders)
    ensures Scored(bidders, w)[i].totalScore > Scored(bidders, w)[j].totalScore
  {
    var cs := Prepared(bidders);
    var m, t, wFin, wTech := MinEffective(bidders), MaxTech(bidders), w.finPct / 100.0, w.techPct / 100.0;
    CertificateRecords(bidders, i, j);
    UpliftLowersTotal(cs[i], cs[j], bidders[i].price, m, t, wFin, wTech);
    ScoredAt(bidders, w, i);
    ScoredAt(bidders, w, j);
    SameTotals(Scored(bidders, w)[i], ScoreOne(cs[i], m, t, wFin, wTech),
               Scored(bidders, w)[j], ScoreOne(cs[j], m, t, wFin, wTech));
  }

  /** The prepared records of two such bidders. */
  lemma CertificateRecords(bidders: seq<Bidder>, i: int, j: int)
    requires WellPriced(bidders) && PositivelyPriced(bidders) && 0 <= i < |bidders| && 0 <= j < |bidders|
    requires bidders[i].tech >= TechPassThreshold && bidders[j].tech == bidders[i].tech
    requires bidders[j].price == bidders[i].price
    requires bidders[i].isSme && !bidders[j].isSme
    ensures AnyPassing(bidders)
    ensures var ci, cj := Prepared(bidders)[i], Prepared(bidders)[j];
      && ci.passedTechnical && cj.passedTechnical && ci.techScore == cj.techScore
      && 0.0 < MinEffective(bidders) <= bidders[i].price && MaxTech(bidders) > 0.0
      && ci.effectivePrice == bidders[i].price && cj.effectivePrice == bidders[i].price * 11.0 / 10.0
  {
    WithinReference(bidders, i);
  }

  lemma SameTotals(a: Competitor, b: Competitor, c: Competitor, d: Competitor)
    requires a == b && c == d && b.totalScore > d.totalScore
    ensures a.totalScore > c.totalScore
  {
  }

  /** A worked case: an SME bidder at 100000 with technical score 80 against
      a non-SME bidder at 95000 with 78, technical weight 60 and financial
      weight 40. */
  const ExampleBidders: seq<Bidder> := [Bidder("A", 100000.0, 80.0, true), Bidder("B", 95000.0, 78.0, false)]
  const ExampleWeights: Weights := Weights(60.0, 40.0)
  /** B's financial raw score, 100000 / 104500 of 100. */
  const ExampleRawB: real := (100000.0 / 104500.0) * 100.0
  const ExampleScoredA: Competitor :=
    Competitor("A", 100000.0, 80.0, true, true, 100000.0, 100.0, 40.0, 100.0, 60.0, 100.0)
  const ExampleScoredB: Competitor :=
    Competitor("B", 95000.0, 78.0, false, true, 104500.0, ExampleRawB, ExampleRawB * 0.4, 97.5, 58.5,
               ExampleRawB * 0.4 + 58.5)

  const ExamplePreparedA: Competitor := Competitor("A", 100000.0, 80.0, true, true, 100000.0, 0.0, 0.0, 0.0, 0.0, 0.0)
  const ExamplePreparedB: Competitor := Competitor("B", 95000.0, 78.0, false, true, 104500.0, 0.0, 0.0, 0.0, 0.0, 0.0)

  /** The non-SME price is uplifted to 104500, so the SME bidder has both the
      least adjusted price and the best technical score. */
  lemma ExampleReference()
    ensures WellPriced(ExampleBidders) && AnyPassing(ExampleBidders)
    ensures Prepared(ExampleBidders) == [ExamplePreparedA, ExamplePreparedB]
    ensures MinEffective(ExampleBidders) == 100000.0 && MaxTech(ExampleBidders) == 80.0
  {
    var bidders := ExampleBidders;
    var ca, cb := ExamplePreparedA, ExamplePreparedB;
    assert Prepared(bidders) == [ca, cb];
    assert AnyPassing(bidders) by {
      assert bidders[0].tech >= TechPassThreshold;
    }
    assert Passing([ca, cb]) == [ca, cb] by {
      assert [ca, cb][1..] == [cb];
      assert Passing([cb]) == [cb];
    }
    assert EffectivePrices([ca, cb]) == [100000.0, 104500.0];
    assert TechScores([ca, cb]) == [80.0, 78.0];
    assert MinOf([100000.0, 104500.0]) == 100000.0 by {
      assert [100000.0, 104500.0][1..] == [104500.0];
    }
    assert MaxOf([80.0, 78.0]) == 80.0 by {
      assert [80.0, 78.0][1..] == [78.0];
    }
  }

  /** With technical weight 60 and financial weight 40 the SME bidder scores
      40 + 60. */
  lemma ExampleScores()
    ensures WellPriced(ExampleBidders) && AnyPassing(ExampleBidders)
    ensures Scored(ExampleBidders, ExampleWeights) == [ExampleScoredA, ExampleScoredB]
  {
    ExampleReference();
    ScoredUnfold(ExampleBidders, ExampleWeights);
    assert [ExamplePreparedA, ExamplePreparedB][1..] == [ExamplePreparedB];
  }

  /** A is ranked first. */
  lemma ExampleRanking()
    ensures WellPriced(ExampleBidders) && AnyPassing(ExampleBidders)
    ensures Ranking(ExampleBidders, ExampleWeights) == [ExampleScoredA, ExampleScoredB]
  {
    ExampleScores();
    var sa, sb := ExampleScoredA, ExampleScoredB;
    assert 95.0 < ExampleRawB < 96.0;
    assert [sa, sb][1..] == [sb];
    assert SortDesc([sb], TotalScore) == [sb];
  }

  /** The displayed rows: B's technical figure 58.5 is shown as 59, Math.round
      taking halves up. */
  lemma ExampleRows()
    ensures RankedLines([ExampleScoredA, ExampleScoredB])
         == [Ranked(SmeRow("A", 100000, 80, true, 100000, 40, 60, 100)),
             Ranked(SmeRow("B", 95000, 78, false, 104500, 38, 59, 97))]
  {
    var fb := ExampleRawB;
    assert 95.0 < fb < 96.0;
    RoundUnique(fb * 0.4, 38);
    RoundUnique(58.5, 59);
    RoundUnique(fb * 0.4 + 58.5, 97);
    assert Display(ExampleScoredB) == SmeRow("B", 95000, 78, false, 104500, 38, 59, 97);
  }

  /** ... and A wins with 100. */
  lemma ExampleSmeWins()
    ensures WellPriced(ExampleBidders)
    ensures SmeEvaluation(ExampleBidders, ExampleWeights)
         == Table([Ranked(SmeRow("A", 100000, 80, true, 100000, 40, 60, 100)),
                   Ranked(SmeRow("B", 95000, 78, false, 104500, 38, 59, 97))],
                  Named("A", 100.0))
  {
    ExampleRanking();
    ExampleRows();
    assert !WeightsOff(ExampleWeights);
  }

  /** The same bidders under the page's initial weights (technical 40,
      financial 60). */
  const DefaultWeights: Weights := Weights(40.0, 60.0)
  const DefaultScoredA: Competitor :=
    Competitor("A", 100000.0, 80.0, true, true, 100000.0, 100.0, 60.0, 100.0, 40.0, 100.0)
  const DefaultScoredB: Competitor :=
    Competitor("B", 95000.0, 78.0, false, true, 104500.0, ExampleRawB, ExampleRawB * 0.6, 97.5, 39.0,
               ExampleRawB * 0.6 + 39.0)

  /** Under the initial weights the SME bidder scores 60 + 40. */
  lemma DefaultExampleScores()
    ensures WellPriced(ExampleBidders) && AnyPassing(ExampleBidders)
    ensures Scored(ExampleBidders, DefaultWeights) == [DefaultScoredA, DefaultScoredB]
  {
    ExampleReference();
    ScoredUnfold(ExampleBidders, DefaultWeights);
    assert [ExamplePreparedA, ExamplePreparedB][1..] == [ExamplePreparedB];
  }

  /** The SME bidder is still ranked first, ... */
  lemma DefaultExampleRanking()
    ensures WellPriced(ExampleBidders) && AnyPassing(ExampleBidders)
    ensures Ranking(ExampleBidders, DefaultWeights) == [DefaultScoredA, DefaultScoredB]
  {
    DefaultExampleScores();
    var sa, sb := DefaultScoredA, DefaultScoredB;
    assert 95.0 < ExampleRawB < 96.0;
    assert [sa, sb][1..] == [sb];
    assert SortDesc([sb], TotalScore) == [sb];
  }

  /** ... the other bidder's row shows 57 + 39 = 96, ... */
  lemma DefaultExampleRows()
    ensures RankedLines([DefaultScoredA, DefaultScoredB])
         == [Ranked(SmeRow("A", 100000, 80, true, 100000, 60, 40, 100)),
             Ranked(SmeRow("B", 95000, 78, false, 104500, 57, 39, 96))]
  {
    var fb := ExampleRawB;
    assert 95.0 < fb < 96.0;
    RoundUnique(fb * 0.6, 57);
    RoundUnique(fb * 0.6 + 39.0, 96);
    assert Display(DefaultScoredB) == SmeRow("B", 95000, 78, false, 104500, 57, 39, 96);
  }

  /** ... and the SME bidder wins with 100. */
  lemma DefaultExampleSmeWins()
    ensures WellPriced(ExampleBidders)
    ensures SmeEvaluation(ExampleBidders, DefaultWeights)
         == Table([Ranked(SmeRow("A", 100000, 80, true, 100000, 60, 40, 100)),
                   Ranked(SmeRow("B", 95000, 78, false, 104500, 57, 39, 96))],
                  Named("A", 100.0))
  {
    DefaultExampleRanking();
    DefaultExampleRows();
    assert !WeightsOff(DefaultWeights);
  }

  /** All keys equal: the stable sort returns its input. */
  lemma ZeroTotalsKeepOrder(cs: seq<Competitor>)
    requires forall i :: 0 <= i < |cs| ==> cs[i].totalScore == 0.0
    ensures SortDesc(cs, TotalScore) == cs
  {
    SortDescCorrect(cs, TotalScore);
    WithKeyAll(cs, TotalScore, 0.0);
    var r := SortDesc(cs, TotalScore);
    assert forall i :: 0 <= i < |r| ==> r[i] in multiset(cs);
    forall i | 0 <= i < |r| ensures TotalScore(r[i]) == 0.0 {
      assert r[i] in multiset(cs);
    }
    WithKeyAll(r, TotalScore, 0.0);
  }

  /** With both weights at 0 every total is 0, the stable sort keeps the
      input order, and a failing first bidder takes the top row: the winner
      sentence is then the warning, whoever else passed. */
  lemma ZeroWeightsFailingFirst(bidders: seq<Bidder>)
    requires WellPriced(bidders) && AnyPassing(bidders)
    requires bidders[0].tech < TechPassThreshold
    ensures SmeEvaluation(bidders, Weights(0.0, 0.0)).Table?
    ensures SmeEvaluation(bidders, Weights(0.0, 0.0)).winner == TopRowNotPassed
  {
    var w := Weights(0.0, 0.0);
    var cs := Scored(bidders, w);
    forall i | 0 <= i < |cs| ensures cs[i].totalScore == 0.0 {
      if bidders[i].tech < TechPassThreshold {
        FailingScoresZero(bidders, w, i);
      } else {
        PassingTotalZero(bidders, w, i);
      }
    }
    ZeroTotalsKeepOrder(cs);
    CompetitorFields(bidders, w, 0);
    SmeTable(bidders, w);
  }

  /** With both weights at 0 a passing bidder's total is 0. */
  lemma PassingTotalZero(bidders: seq<Bidder>, w: Weights, i: int)
    requires WellPriced(bidders) && AnyPassing(bidders) && 0 <= i < |bidders|
    requires w.techPct == 0.0 && w.finPct == 0.0
    ensures Scored(bidders, w)[i].totalScore == 0.0
  {
    ScoredAt(bidders, w, i);
  }
}
