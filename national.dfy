/** computeNational: the price preference for national products. A bidder is
    excluded when it did not commit to the mandatory items, when its technical
    score is below 70, or when the mandatory items cost more than its price;
    otherwise its competitive price (price minus mandatory items) is raised by
    10% and then reduced by its national share, and the mandatory items are
    added back to give the award price. The lowest award price wins. Weighted
    financial and technical scores are displayed beside it but do not decide
    the winner. */
module NationalPreference {
  import opened Numbers
  import opened Report

  /** TECH_PASS. */
  const TechPass: real := 70.0

  /** The factor applied to the competitive price (1.10). */
  const PriceUplift: real := 1.1

  /** One competitor as entered. */
  datatype Bidder = Bidder(name: string, committed: bool, tech: real, price: real,
                           mandatoryPrice: real, foreignPrice: real, nationalPrice: real)

  /** The status and reason columns: which rule decided the bidder's fate. */
  datatype Standing =
    | NotCommitted(mandatoryCount: int) // did not commit to the mandatory items (the reason quotes their number)
    | BelowTechnical                    // technical score below TechPass
    | MandatoryExceedsPrice             // the mandatory items cost more than the tendered price
    | Eligible

  /** A bidder with the figures computed for it. */
  datatype Record = Record(bidder: Bidder, standing: Standing, natSharePct: real,
                           effective: real, award: real, finW: Num, techW: Num, total: Num)

  /** One displayed row; every figure is roundInt(toNum(...)). */
  datatype NatRow = NatRow(name: string, standing: Standing, price: int, tech: int,
                           mandatoryPrice: int, foreignPrice: int, nationalPrice: int,
                           natSharePct: int, effective: int, award: int,
                           finW: int, techW: int, total: int)

  const Zero: Num := Finite(0.0)

  /** The national share of the bidder's content: national / (national + foreign),
      or 0 when that sum is 0. */
  function NatShare(b: Bidder): real
  {
    var denom := b.nationalPrice + b.foreignPrice;
    if denom == 0.0 then 0.0 else b.nationalPrice / denom
  }

  /** None of the three exclusion rules applies. */
  predicate Qualifies(b: Bidder)
  {
    b.committed && b.tech >= TechPass && b.price - b.mandatoryPrice >= 0.0
  }

  /** The first map of computeNational: status, national share, effective and
      award price. Scores are still 0 at this stage. */
  function Assess(b: Bidder, mandatoryCount: int): (r: Record)
    ensures r.bidder == b
    ensures r.standing.Eligible? <==> Qualifies(b)
    ensures r.finW == Zero && r.techW == Zero && r.total == Zero
  {
    if !b.committed then
      Record(b, NotCommitted(mandatoryCount), 0.0, 0.0, 0.0, Zero, Zero, Zero)
    else if b.tech < TechPass then
      Record(b, BelowTechnical, 0.0, 0.0, 0.0, Zero, Zero, Zero)
    else
      var natShare := NatShare(b);
      var competitive := b.price - b.mandatoryPrice;
      if competitive < 0.0 then
        Record(b, MandatoryExceedsPrice, natShare * 100.0, 0.0, 0.0, Zero, Zero, Zero)
      else
        var effective := (competitive * PriceUplift) * (1.0 - natShare);
        Record(b, Eligible, natShare * 100.0, effective, effective + b.mandatoryPrice, Zero, Zero, Zero)
  }

  function AssessAll(bidders: seq<Bidder>, mandatoryCount: int): (rs: seq<Record>)
    ensures |rs| == |bidders|
    ensures forall r :: r in rs && r.standing.Eligible? ==> r.bidder.tech >= TechPass
  {
    if bidders == [] then []
    else [Assess(bidders[0], mandatoryCount)] + AssessAll(bidders[1..], mandatoryCount)
  }

  /** `filter(c => c.status === eligible)`. */
  function EligibleOnly(rs: seq<Record>): (e: seq<Record>)
    ensures forall r :: r in e <==> r in rs && r.standing.Eligible?
  {
    if rs == [] then []
    else (if rs[0].standing.Eligible? then [rs[0]] else []) + EligibleOnly(rs[1..])
  }

  function Effectives(e: seq<Record>): (r: seq<real>)
    ensures |r| == |e|
    ensures forall i :: 0 <= i < |e| ==> r[i] == e[i].effective
  {
    if e == [] then [] else [e[0].effective] + Effectives(e[1..])
  }

  function Techs(e: seq<Record>): (r: seq<real>)
    ensures |r| == |e|
    ensures forall i :: 0 <= i < |e| ==> r[i] == e[i].bidder.tech
  {
    if e == [] then [] else [e[0].bidder.tech] + Techs(e[1..])
  }

  /** The second map: an eligible record gets its weighted financial score
      ((minEff / effective) * 100 * wFin, NaN or Infinity when its effective
      price is 0), its weighted technical score (tech / maxTech * 100 * wTech)
      and their sum; any other record is left as it is. */
  function ScoreRecord(r: Record, minEff: real, maxTech: real, wFin: real, wTech: real): (s: Record)
    requires maxTech != 0.0
    ensures s.bidder == r.bidder && s.standing == r.standing && s.natSharePct == r.natSharePct
    ensures s.effective == r.effective && s.award == r.award
    ensures !r.standing.Eligible? ==> s == r
  {
    if !r.standing.Eligible? then r
    else
      var finW := Scale(Scale(Div(minEff, r.effective), 100.0), wFin);
      var techW := (r.bidder.tech / maxTech) * 100.0 * wTech;
      r.(finW := finW, techW := Finite(techW), total := Plus(finW, Finite(techW)))
  }

  function ScoreAll(rs: seq<Record>, minEff: real, maxTech: real, wFin: real, wTech: real): (s: seq<Record>)
    requires maxTech != 0.0
    ensures |s| == |rs|
  {
    if rs == [] then []
    else [ScoreRecord(rs[0], minEff, maxTech, wFin, wTech)] + ScoreAll(rs[1..], minEff, maxTech, wFin, wTech)
  }

  /** `reduce((best, cur) => cur.award < best.award ? cur : best)` from best on. */
  function LeastAward(best: Record, rest: seq<Record>): (w: Record)
    ensures w == best || w in rest
    decreases |rest|
  {
    if rest == [] then best
    else LeastAward(if rest[0].award < best.award then rest[0] else best, rest[1..])
  }

  function NatDisplay(r: Record): (row: NatRow)
  {
    NatRow(r.bidder.name, r.standing, RoundInt(r.bidder.price), RoundInt(r.bidder.tech),
           RoundInt(r.bidder.mandatoryPrice), RoundInt(r.bidder.foreignPrice),
           RoundInt(r.bidder.nationalPrice), RoundInt(r.natSharePct), RoundInt(r.effective),
           RoundInt(r.award), RoundInt(ToNum(r.finW)), RoundInt(ToNum(r.techW)),
           RoundInt(ToNum(r.total)))
  }

  function NatRows(rs: seq<Record>): (rows: seq<NatRow>)
    ensures |rows| == |rs|
    ensures forall i :: 0 <= i < |rs| ==> rows[i] == NatDisplay(rs[i])
  {
    if rs == [] then [] else [NatDisplay(rs[0])] + NatRows(rs[1..])
  }

  predicate AnyEligible(bidders: seq<Bidder>, mandatoryCount: int)
  {
    EligibleOnly(AssessAll(bidders, mandatoryCount)) != []
  }

  /** minEff: the least effective price of an eligible bidder. */
  function MinEffective(bidders: seq<Bidder>, mandatoryCount: int): real
    requires AnyEligible(bidders, mandatoryCount)
  {
    MinOf(Effectives(EligibleOnly(AssessAll(bidders, mandatoryCount))))
  }

  /** maxTech: the greatest technical score of an eligible bidder. */
  function MaxTech(bidders: seq<Bidder>, mandatoryCount: int): (m: real)
    requires AnyEligible(bidders, mandatoryCount)
    ensures m >= TechPass
  {
    var e := EligibleOnly(AssessAll(bidders, mandatoryCount));
    assert forall k :: 0 <= k < |e| ==> Techs(e)[k] >= TechPass by {
      forall k | 0 <= k < |e| ensures Techs(e)[k] >= TechPass {
        assert e[k] in e;
      }
    }
    MaxOf(Techs(e))
  }

  /** The records with their scores. */
  function NatScored(bidders: seq<Bidder>, w: Weights, mandatoryCount: int): (rs: seq<Record>)
    requires AnyEligible(bidders, mandatoryCount)
    ensures |rs| == |bidders|
  {
    ScoreAll(AssessAll(bidders, mandatoryCount), MinEffective(bidders, mandatoryCount),
             MaxTech(bidders, mandatoryCount), w.finPct / 100.0, w.techPct / 100.0)
  }

  /** The record the reduce picks. */
  function NatWinner(bidders: seq<Bidder>, mandatoryCount: int): Record
    requires AnyEligible(bidders, mandatoryCount)
  {
    var e := EligibleOnly(AssessAll(bidders, mandatoryCount));
    LeastAward(e[0], e[1..])
  }

  /** The result of computeNational as a function of its inputs. */
  function NationalEvaluation(bidders: seq<Bidder>, w: Weights, mandatoryCount: int): (r: Outcome<NatRow>)
  {
    if WeightsOff(w) then StatusOnly(WeightSumNotHundred(w.techPct + w.finPct))
    else if !AnyEligible(bidders, mandatoryCount) then StatusOnly(NoEligibleBidder)
    else
      var winner := NatWinner(bidders, mandatoryCount);
      Table(NatRows(NatScored(bidders, w, mandatoryCount)),
            Named(winner.bidder.name, RoundInt(winner.award) as real))
  }

  // ---------------------------------------------------------------- indexing

  lemma {:induction false} AssessAllAt(bidders: seq<Bidder>, mandatoryCount: int, i: int)
    requires 0 <= i < |bidders|
    ensures AssessAll(bidders, mandatoryCount)[i] == Assess(bidders[i], mandatoryCount)
  {
    if i > 0 {
      AssessAllAt(bidders[1..], mandatoryCount, i - 1);
    }
  }

  lemma {:induction false} ScoreAllAt(rs: seq<Record>, minEff: real, maxTech: real, wFin: real, wTech: real, k: int)
    requires maxTech != 0.0 && 0 <= k < |rs|
    ensures ScoreAll(rs, minEff, maxTech, wFin, wTech)[k] == ScoreRecord(rs[k], minEff, maxTech, wFin, wTech)
  {
    if k > 0 {
      ScoreAllAt(rs[1..], minEff, maxTech, wFin, wTech, k - 1);
    }
  }

  // ---------------------------------------------------------------- one bidder

  /** The exclusion rules apply in order: commitment first, then the technical
      threshold, then the mandatory items. */
  lemma StandingRule(b: Bidder, mandatoryCount: int)
    ensures Assess(b, mandatoryCount).standing == NotCommitted(mandatoryCount) <==> !b.committed
    ensures Assess(b, mandatoryCount).standing == BelowTechnical <==> b.committed && b.tech < TechPass
    ensures Assess(b, mandatoryCount).standing == MandatoryExceedsPrice
        <==> b.committed && b.tech >= TechPass && b.price < b.mandatoryPrice
    ensures Assess(b, mandatoryCount).standing == Eligible
        <==> b.committed && b.tech >= TechPass && b.price >= b.mandatoryPrice
  {
  }

  /** An excluded bidder has effective and award price 0 and scores 0; only a
      bidder excluded for its mandatory items keeps its national share. */
  lemma ExcludedFigures(b: Bidder, mandatoryCount: int)
    requires !Qualifies(b)
    ensures Assess(b, mandatoryCount).effective == 0.0 && Assess(b, mandatoryCount).award == 0.0
    ensures Assess(b, mandatoryCount).natSharePct
              == if b.committed && b.tech >= TechPass then NatShare(b) * 100.0 else 0.0
  {
  }

  /** With non-negative national and foreign prices the share is between 0
      and 1; it is 1 for purely national content and 0 for none. */
  lemma ShareBounds(b: Bidder)
    requires b.nationalPrice >= 0.0 && b.foreignPrice >= 0.0
    ensures 0.0 <= NatShare(b) <= 1.0
    ensures b.foreignPrice == 0.0 && b.nationalPrice > 0.0 ==> NatShare(b) == 1.0
    ensures b.nationalPrice == 0.0 ==> NatShare(b) == 0.0
  {
    var denom := b.nationalPrice + b.foreignPrice;
    if denom != 0.0 {
      assert NatShare(b) * denom == b.nationalPrice;
    }
  }

  /** For an eligible bidder with non-negative content prices, the effective
      price lies between 0 and 110% of the competitive price, and the award
      price is the effective price plus the mandatory items. */
  lemma EligibleBounds(b: Bidder, mandatoryCount: int)
    requires Qualifies(b) && b.nationalPrice >= 0.0 && b.foreignPrice >= 0.0
    ensures 0.0 <= Assess(b, mandatoryCount).effective <= (b.price - b.mandatoryPrice) * PriceUplift
    ensures Assess(b, mandatoryCount).award == Assess(b, mandatoryCount).effective + b.mandatoryPrice
    ensures 0.0 <= Assess(b, mandatoryCount).natSharePct <= 100.0
  {
    ShareBounds(b);
    var c := (b.price - b.mandatoryPrice) * PriceUplift;
    var s := NatShare(b);
    var t := 1.0 - s;
    assert Assess(b, mandatoryCount).effective == c * t;
    assert c >= 0.0 && 0.0 <= t <= 1.0;
    ScaleMonotone(c, 0.0, t);
    ScaleMonotone(c, t, 1.0);
    assert c * 0.0 == 0.0;
    assert c * 1.0 == c;
  }

  /** The preference itself: of two eligible bids with the same price and
      mandatory items, the one with the larger national share has an award
      price no higher, and strictly lower when its competitive price is
      positive. */
  lemma HigherShareLowersAward(b1: Bidder, b2: Bidder, mandatoryCount: int)
    requires Qualifies(b1) && Qualifies(b2)
    requires b1.price == b2.price && b1.mandatoryPrice == b2.mandatoryPrice
    requires NatShare(b1) >= NatShare(b2)
    ensures Assess(b1, mandatoryCount).award <= Assess(b2, mandatoryCount).award
    ensures NatShare(b1) > NatShare(b2) && b1.price > b1.mandatoryPrice
        ==> Assess(b1, mandatoryCount).award < Assess(b2, mandatoryCount).award
  {
    var c := (b1.price - b1.mandatoryPrice) * PriceUplift;
    var s1, s2 := NatShare(b1), NatShare(b2);
    assert Assess(b1, mandatoryCount).award == c * (1.0 - s1) + b1.mandatoryPrice;
    assert Assess(b2, mandatoryCount).award == c * (1.0 - s2) + b1.mandatoryPrice;
    ScaleMonotone(c, 1.0 - s1, 1.0 - s2);
  }

  /** The scores of an eligible record: the technical score is finite and
      between 0 and 100 * wTech; the financial score and the total are
      non-finite exactly when the effective price is 0, and otherwise, when
      the effective price is at least a positive minimum, the financial score
      is between 0 and 100 * wFin and the total is their sum. */
  lemma ScoreRanges(r: Record, minEff: real, maxTech: real, wFin: real, wTech: real)
    requires r.standing.Eligible? && 0.0 < r.bidder.tech <= maxTech && wTech >= 0.0
    ensures var s := ScoreRecord(r, minEff, maxTech, wFin, wTech);
      s.techW.Finite? && 0.0 <= s.techW.value <= 100.0 * wTech
      && (s.finW.Finite? <==> r.effective != 0.0)
      && (s.total.Finite? <==> r.effective != 0.0)
      && (0.0 < minEff <= r.effective && wFin >= 0.0 ==>
            0.0 <= s.finW.value <= 100.0 * wFin && s.total.value == s.finW.value + s.techW.value)
  {
    var s := ScoreRecord(r, minEff, maxTech, wFin, wTech);
    var t := (r.bidder.tech / maxTech) * 100.0;
    RatioPercent(r.bidder.tech, maxTech);
    assert s.techW.value == t * wTech;
    assert 0.0 <= t * wTech <= 100.0 * wTech;
    if 0.0 < minEff <= r.effective && wFin >= 0.0 {
      var f := (minEff / r.effective) * 100.0;
      RatioPercent(minEff, r.effective);
      assert s.finW.value == f * wFin;
      assert 0.0 <= f * wFin <= 100.0 * wFin;
    }
  }

  // ---------------------------------------------------------------- the whole evaluation

  /** The weight check comes first: the result is the weight warning exactly
      when the weights do not add up to 100 within 1e-6. */
  lemma WeightCheck(bidders: seq<Bidder>, w: Weights, mandatoryCount: int)
    ensures NationalEvaluation(bidders, w, mandatoryCount) == StatusOnly(WeightSumNotHundred(w.techPct + w.finPct))
        <==> WeightsOff(w)
  {
  }

  /** Some record is eligible exactly when some bidder qualifies. */
  lemma AnyEligibleIff(bidders: seq<Bidder>, mandatoryCount: int)
    ensures AnyEligible(bidders, mandatoryCount)
        <==> exists i :: 0 <= i < |bidders| && Qualifies(bidders[i])
  {
    var rs := AssessAll(bidders, mandatoryCount);
    var e := EligibleOnly(rs);
    if e != [] {
      assert e[0] in e;
      var i :| 0 <= i < |rs| && rs[i] == e[0];
      AssessAllAt(bidders, mandatoryCount, i);
    }
    if i :| 0 <= i < |bidders| && Qualifies(bidders[i]) {
      AssessAllAt(bidders, mandatoryCount, i);
      assert rs[i] in rs;
      assert rs[i] in e;
    }
  }

  /** With valid weights, the "no eligible competitor" row appears exactly
      when every bidder is excluded, and a table otherwise. */
  lemma NoEligibleIff(bidders: seq<Bidder>, w: Weights, mandatoryCount: int)
    requires !WeightsOff(w)
    ensures (NationalEvaluation(bidders, w, mandatoryCount) == StatusOnly(NoEligibleBidder))
              <==> (forall i :: 0 <= i < |bidders| ==> !Qualifies(bidders[i]))
    ensures NationalEvaluation(bidders, w, mandatoryCount).Table?
        <==> (exists i :: 0 <= i < |bidders| && Qualifies(bidders[i]))
  {
    AnyEligibleIff(bidders, mandatoryCount);
  }

  /** The table lists every bidder in input order, each row showing that
      bidder's scored record. */
  lemma NatRowAt(bidders: seq<Bidder>, w: Weights, mandatoryCount: int, i: int)
    requires !WeightsOff(w) && AnyEligible(bidders, mandatoryCount) && 0 <= i < |bidders|
    ensures NationalEvaluation(bidders, w, mandatoryCount).Table?
    ensures |NationalEvaluation(bidders, w, mandatoryCount).rows| == |bidders|
    ensures NationalEvaluation(bidders, w, mandatoryCount).rows[i]
              == NatDisplay(ScoreRecord(Assess(bidders[i], mandatoryCount),
                                        MinEffective(bidders, mandatoryCount), MaxTech(bidders, mandatoryCount),
                                        w.finPct / 100.0, w.techPct / 100.0))
  {
    AssessAllAt(bidders, mandatoryCount, i);
    ScoreAllAt(AssessAll(bidders, mandatoryCount), MinEffective(bidders, mandatoryCount),
               MaxTech(bidders, mandatoryCount), w.finPct / 100.0, w.techPct / 100.0, i);
  }

  /** Row i shows bidder i's name, status and entered figures; an excluded
      bidder's row shows 0 for its effective and award prices and its scores. */
  lemma RowsInInputOrder(bidders: seq<Bidder>, w: Weights, mandatoryCount: int, i: int)
    requires !WeightsOff(w) && AnyEligible(bidders, mandatoryCount) && 0 <= i < |bidders|
    ensures var row := NationalEvaluation(bidders, w, mandatoryCount).rows[i];
      row.name == bidders[i].name && row.standing == Assess(bidders[i], mandatoryCount).standing
      && row.price == RoundInt(bidders[i].price) && row.tech == RoundInt(bidders[i].tech)
      && (!Qualifies(bidders[i]) ==>
            row.effective == 0 && row.award == 0 && row.finW == 0 && row.techW == 0 && row.total == 0)
  {
    NatRowAt(bidders, w, mandatoryCount, i);
    if !Qualifies(bidders[i]) {
      ExcludedFigures(bidders[i], mandatoryCount);
      assert RoundInt(0.0) == 0 by {
        RoundUnique(0.0, 0);
      }
    }
  }

  /** An eligible bidder's effective price is never below minEff and its
      technical score lies between the threshold and maxTech. */
  lemma WithinReference(bidders: seq<Bidder>, mandatoryCount: int, i: int)
    requires 0 <= i < |bidders| && Qualifies(bidders[i])
    ensures AnyEligible(bidders, mandatoryCount)
    ensures MinEffective(bidders, mandatoryCount) <= Assess(bidders[i], mandatoryCount).effective
    ensures TechPass <= bidders[i].tech <= MaxTech(bidders, mandatoryCount)
  {
    var rs := AssessAll(bidders, mandatoryCount);
    var e := EligibleOnly(rs);
    AssessAllAt(bidders, mandatoryCount, i);
    assert rs[i] in rs;
    assert rs[i] in e;
    var k :| 0 <= k < |e| && e[k] == rs[i];
    assert Effectives(e)[k] == rs[i].effective;
    assert Techs(e)[k] == rs[i].bidder.tech;
  }

  /** An eligible bidder whose effective price is 0 (purely national content)
      shows a financial score and a total of 0: the division by its effective
      price gives NaN or Infinity, which the display turns into 0. */
  lemma ZeroEffectiveShowsZero(bidders: seq<Bidder>, w: Weights, mandatoryCount: int, i: int)
    requires !WeightsOff(w) && 0 <= i < |bidders| && Qualifies(bidders[i])
    requires Assess(bidders[i], mandatoryCount).effective == 0.0
    ensures AnyEligible(bidders, mandatoryCount)
    ensures NationalEvaluation(bidders, w, mandatoryCount).rows[i].finW == 0
    ensures NationalEvaluation(bidders, w, mandatoryCount).rows[i].total == 0
  {
    WithinReference(bidders, mandatoryCount, i);
    NatRowAt(bidders, w, mandatoryCount, i);
    assert RoundInt(0.0) == 0 by {
      RoundUnique(0.0, 0);
    }
  }

  // ---------------------------------------------------------------- the winner

  /** v is at most the award price of every eligible record of rs. */
  ghost predicate AwardAtMost(v: real, rs: seq<Record>)
  {
    forall j :: 0 <= j < |rs| && rs[j].standing.Eligible? ==> v <= rs[j].award
  }

  lemma AwardAtMostCons(v: real, rs: seq<Record>)
    requires rs != []
    ensures AwardAtMost(v, rs)
        <==> (rs[0].standing.Eligible? ==> v <= rs[0].award) && AwardAtMost(v, rs[1..])
  {
    if (rs[0].standing.Eligible? ==> v <= rs[0].award) && AwardAtMost(v, rs[1..]) {
      forall j | 0 <= j < |rs| && rs[j].standing.Eligible? ensures v <= rs[j].award {
        if j > 0 {
          assert rs[j] == rs[1..][j - 1];
        }
      }
    }
  }

  /** rs[i] is eligible, has the least award price of the eligible records, and
      every eligible record before it has a strictly larger one. */
  ghost predicate FirstLeastAt(rs: seq<Record>, i: int)
  {
    0 <= i < |rs| && rs[i].standing.Eligible? && AwardAtMost(rs[i].award, rs)
    && (forall j :: 0 <= j < i && rs[j].standing.Eligible? ==> rs[i].award < rs[j].award)
  }

  lemma ShiftFirstLeast(rs: seq<Record>, i: int)
    requires rs != [] && FirstLeastAt(rs[1..], i)
    requires rs[0].standing.Eligible? ==> rs[0].award > rs[1..][i].award
    ensures FirstLeastAt(rs, i + 1) && rs[i + 1] == rs[1..][i]
  {
    AwardAtMostCons(rs[1..][i].award, rs);
    forall j | 0 <= j < i + 1 && rs[j].standing.Eligible? ensures rs[i + 1].award < rs[j].award {
      if j > 0 {
        assert rs[j] == rs[1..][j - 1];
      }
    }
  }

  /** Folding from best over the eligible records of rs either keeps best,
      which then undercuts or ties every eligible record, or ends on the first
      eligible record with the least award, which is strictly below best. */
  ghost predicate FoldOutcome(best: Record, rs: seq<Record>, r: Record)
  {
    (r == best && AwardAtMost(best.award, rs))
    || (r.award < best.award && exists i :: FirstLeastAt(rs, i) && rs[i] == r)
  }

  lemma {:induction false} LeastAwardOverEligible(best: Record, rs: seq<Record>)
    ensures FoldOutcome(best, rs, LeastAward(best, EligibleOnly(rs)))
    decreases |rs|
  {
    if rs != [] {
      if rs[0].standing.Eligible? {
        FoldOverEligibleHead(best, rs);
      } else {
        var tail := rs[1..];
        assert EligibleOnly(rs) == EligibleOnly(tail);
        LeastAwardOverEligible(best, tail);
        var r := LeastAward(best, EligibleOnly(tail));
        if r == best && AwardAtMost(best.award, tail) {
          AwardAtMostCons(best.award, rs);
        } else {
          var i :| FirstLeastAt(tail, i) && tail[i] == r;
          ShiftFirstLeast(rs, i);
        }
      }
    }
  }

  /** The step of LeastAwardOverEligible when the first record is eligible. */
  lemma {:induction false} FoldOverEligibleHead(best: Record, rs: seq<Record>)
    requires rs != [] && rs[0].standing.Eligible?
    ensures FoldOutcome(best, rs, LeastAward(best, EligibleOnly(rs)))
    decreases |rs|, 0
  {
    var tail := rs[1..];
    var next := if rs[0].award < best.award then rs[0] else best;
    assert EligibleOnly(rs) == [rs[0]] + EligibleOnly(tail);
    var r := LeastAward(next, EligibleOnly(tail));
    assert LeastAward(best, EligibleOnly(rs)) == r;
    LeastAwardOverEligible(next, tail);
    if r == next && AwardAtMost(next.award, tail) {
      AwardAtMostCons(next.award, rs);
      if rs[0].award < best.award {
        assert FirstLeastAt(rs, 0);
      }
    } else {
      var i :| FirstLeastAt(tail, i) && tail[i] == r;
      ShiftFirstLeast(rs, i);
    }
  }

  /** The first element of EligibleOnly(rs) is the first eligible record of rs. */
  lemma {:induction false} EligibleHead(rs: seq<Record>)
    requires EligibleOnly(rs) != []
    ensures exists i :: 0 <= i < |rs| && rs[i] == EligibleOnly(rs)[0] && rs[i].standing.Eligible?
                        && forall j :: 0 <= j < i ==> !rs[j].standing.Eligible?
  {
    if !rs[0].standing.Eligible? {
      EligibleHead(rs[1..]);
      var i :| 0 <= i < |rs[1..]| && rs[1..][i] == EligibleOnly(rs[1..])[0] && rs[1..][i].standing.Eligible?
               && forall j :: 0 <= j < i ==> !rs[1..][j].standing.Eligible?;
      forall j | 0 <= j < i + 1 ensures !rs[j].standing.Eligible? {
        if j > 0 {
          assert rs[j] == rs[1..][j - 1];
        }
      }
    }
  }

  /** The reduce picks the first eligible record with the least award price. */
  lemma WinnerIsFirstLeast(rs: seq<Record>)
    requires EligibleOnly(rs) != []
    ensures exists i :: FirstLeastAt(rs, i) && rs[i] == LeastAward(EligibleOnly(rs)[0], EligibleOnly(rs)[1..])
  {
    var e := EligibleOnly(rs);
    assert LeastAward(e[0], e) == LeastAward(e[0], e[1..]);
    LeastAwardOverEligible(e[0], rs);
    var r := LeastAward(e[0], e);
    if r == e[0] && AwardAtMost(e[0].award, rs) {
      EligibleHead(rs);
      var i :| 0 <= i < |rs| && rs[i] == e[0] && rs[i].standing.Eligible?
               && forall j :: 0 <= j < i ==> !rs[j].standing.Eligible?;
      assert FirstLeastAt(rs, i);
    }
  }

  /** FirstLeastAt on the assessed records, read back on the bidders. */
  lemma FirstLeastBidder(bidders: seq<Bidder>, mandatoryCount: int, i: int)
    requires FirstLeastAt(AssessAll(bidders, mandatoryCount), i)
    ensures 0 <= i < |bidders| && Qualifies(bidders[i])
    ensures AssessAll(bidders, mandatoryCount)[i] == Assess(bidders[i], mandatoryCount)
    ensures forall j :: 0 <= j < |bidders| && Qualifies(bidders[j]) ==>
              Assess(bidders[i], mandatoryCount).award <= Assess(bidders[j], mandatoryCount).award
    ensures forall j :: 0 <= j < i && Qualifies(bidders[j]) ==>
              Assess(bidders[i], mandatoryCount).award < Assess(bidders[j], mandatoryCount).award
  {
    var rs := AssessAll(bidders, mandatoryCount);
    AssessAllAt(bidders, mandatoryCount, i);
    forall j | 0 <= j < |bidders| && Qualifies(bidders[j])
      ensures Assess(bidders[i], mandatoryCount).award <= Assess(bidders[j], mandatoryCount).award
      ensures j < i ==> Assess(bidders[i], mandatoryCount).award < Assess(bidders[j], mandatoryCount).award
    {
      AssessAllAt(bidders, mandatoryCount, j);
    }
  }

  /** With valid weights and an eligible bidder, the winner sentence names the
      first qualifying bidder whose award price is the lowest among the
      qualifying bidders, and quotes that award price rounded. */
  lemma WinnerHasLeastAward(bidders: seq<Bidder>, w: Weights, mandatoryCount: int)
    requires !WeightsOff(w) && AnyEligible(bidders, mandatoryCount)
    ensures exists i :: (0 <= i < |bidders| && Qualifies(bidders[i])
      && NationalEvaluation(bidders, w, mandatoryCount).winner
           == Named(bidders[i].name, RoundInt(Assess(bidders[i], mandatoryCount).award) as real)
      && (forall j :: 0 <= j < |bidders| && Qualifies(bidders[j]) ==>
            Assess(bidders[i], mandatoryCount).award <= Assess(bidders[j], mandatoryCount).award)
      && (forall j :: 0 <= j < i && Qualifies(bidders[j]) ==>
            Assess(bidders[i], mandatoryCount).award < Assess(bidders[j], mandatoryCount).award))
  {
    var rs := AssessAll(bidders, mandatoryCount);
    WinnerIsFirstLeast(rs);
    var i :| FirstLeastAt(rs, i) && rs[i] == NatWinner(bidders, mandatoryCount);
    FirstLeastBidder(bidders, mandatoryCount, i);
  }

  /** The winner does not depend on the weights, only on the award prices. */
  lemma WinnerIgnoresWeights(bidders: seq<Bidder>, w1: Weights, w2: Weights, mandatoryCount: int)
    requires !WeightsOff(w1) && !WeightsOff(w2)
    ensures NationalEvaluation(bidders, w1, mandatoryCount).Table?
              == NationalEvaluation(bidders, w2, mandatoryCount).Table?
    ensures NationalEvaluation(bidders, w1, mandatoryCount).Table? ==>
              NationalEvaluation(bidders, w1, mandatoryCount).winner
                == NationalEvaluation(bidders, w2, mandatoryCount).winner
  {
  }

  // ---------------------------------------------------------------- a fully national bid

  /** Every entered price is non-negative. */
  predicate NonNegativePrices(b: Bidder)
  {
    b.price >= 0.0 && b.mandatoryPrice >= 0.0 && b.foreignPrice >= 0.0 && b.nationalPrice >= 0.0
  }

  /** A qualifying bid with purely national content and no mandatory items has
      effective and award price 0. */
  lemma FullyNationalAwardZero(b: Bidder, mandatoryCount: int)
    requires Qualifies(b) && b.foreignPrice == 0.0 && b.nationalPrice > 0.0 && b.mandatoryPrice == 0.0
    ensures Assess(b, mandatoryCount).effective == 0.0 && Assess(b, mandatoryCount).award == 0.0
  {
    ShareBounds(b);
  }

  /** When all prices are non-negative and bidder i qualifies with purely
      national content and no mandatory items, the winner sentence quotes an
      award price of 0, while bidder i's row shows a financial score and a
      total of 0: the displayed totals do not decide the winner. */
  lemma FullyNationalBid(bidders: seq<Bidder>, w: Weights, mandatoryCount: int, i: int)
    requires !WeightsOff(w) && 0 <= i < |bidders|
    requires forall j :: 0 <= j < |bidders| ==> NonNegativePrices(bidders[j])
    requires Qualifies(bidders[i]) && bidders[i].foreignPrice == 0.0 && bidders[i].nationalPrice > 0.0
    requires bidders[i].mandatoryPrice == 0.0
    ensures NationalEvaluation(bidders, w, mandatoryCount).Table?
    ensures NationalEvaluation(bidders, w, mandatoryCount).winner.Named?
    ensures NationalEvaluation(bidders, w, mandatoryCount).winner.figure == 0.0
    ensures NationalEvaluation(bidders, w, mandatoryCount).rows[i].finW == 0
    ensures NationalEvaluation(bidders, w, mandatoryCount).rows[i].total == 0
  {
    FullyNationalAwardZero(bidders[i], mandatoryCount);
    ZeroEffectiveShowsZero(bidders, w, mandatoryCount, i);
    WinnerHasLeastAward(bidders, w, mandatoryCount);
    var k :| 0 <= k < |bidders| && Qualifies(bidders[k])
      && NationalEvaluation(bidders, w, mandatoryCount).winner
           == Named(bidders[k].name, RoundInt(Assess(bidders[k], mandatoryCount).award) as real)
      && (forall j :: 0 <= j < |bidders| && Qualifies(bidders[j]) ==>
            Assess(bidders[k], mandatoryCount).award <= Assess(bidders[j], mandatoryCount).award);
    EligibleBounds(bidders[k], mandatoryCount);
    assert Assess(bidders[k], mandatoryCount).award == 0.0;
    RoundUnique(0.0, 0);
  }
}
