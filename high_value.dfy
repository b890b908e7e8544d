/** computeHighValue: the high-value projects formula. A bidder is excluded
    when its local-content target is 0 or its average technical score is below
    the pass mark. Every other bidder gets a financial score (price relative
    to the cheapest eligible price, out of 60, plus local-content, baseline
    and listing points weighted by 0.40) and a technical score (relative to
    the best eligible average, out of 60); the final score is 0.40 times the
    financial score plus the technical score. The table is sorted by final
    score, highest first, and the winner is the first bidder in that order
    that is not excluded. */
module HighValue {
  import opened Numbers
  import opened Report
  import opened StableSort

  /** weight_financial: the share of the price score in the financial score. */
  const FinancialWeight: real := 0.6
  /** weight_technical: the factor on the bonus points and on the financial score. */
  const TechnicalWeight: real := 0.4
  /** local_multiplier. */
  const LocalMultiplier: real := 0.5
  /** listed_points: the bonus for a listed company. */
  const ListedPoints: real := 0.05
  /** The technical score of the best eligible average. */
  const TechnicalScale: real := 60.0

  /** One competitor as entered. */
  datatype Bidder = Bidder(name: string, price: real, techAvg: real, localTarget: real,
                           baseline: real, listed: bool)

  /** A bidder with its exclusion flag and scores. Scores are JavaScript
      numbers: a price of 0 gives NaN or Infinity. */
  datatype Scored = Scored(bidder: Bidder, excluded: bool, financial: Num, technical: Num, final: Num)

  /** One displayed row; every figure goes through round2(toNum(...)). */
  datatype HvRow = HvRow(name: string, price: real, techAvg: real, technical: real,
                         financial: real, final: real)

  const Zero: Num := Finite(0.0)

  /** `toNum(localTarget) === 0 || toNum(techAvg) < toNum(minTechPass)`. */
  predicate Excluded(b: Bidder, minTechPass: real)
  {
    b.localTarget == 0.0 || b.techAvg < minTechPass
  }

  /** The local-content, baseline and listing points. */
  function BonusPoints(b: Bidder): real
  {
    b.localTarget * LocalMultiplier
    + (if b.baseline == 0.0 then 0.0 else b.baseline * LocalMultiplier)
    + (if b.listed then ListedPoints else 0.0)
  }

  /** The scoring map for one bidder. */
  function ScoreBidder(b: Bidder, minTechPass: real, minPrice: real, maxTech: real): (s: Scored)
    ensures s.bidder == b && s.excluded == Excluded(b, minTechPass)
    ensures s.excluded ==> s.financial == Zero && s.technical == Zero && s.final == Zero
  {
    if Excluded(b, minTechPass) then Scored(b, true, Zero, Zero, Zero)
    else
      var financialWeight := Scale(Scale(Div(minPrice, b.price), 100.0), FinancialWeight);
      var financial := Plus(financialWeight, Finite(BonusPoints(b) * TechnicalWeight));
      var technical := Scale(Div(b.techAvg, maxTech), TechnicalScale);
      Scored(b, false, financial, technical, Plus(Scale(financial, TechnicalWeight), technical))
  }

  function ScoreAll(bidders: seq<Bidder>, minTechPass: real, minPrice: real, maxTech: real): (r: seq<Scored>)
    ensures |r| == |bidders|
  {
    if bidders == [] then []
    else [ScoreBidder(bidders[0], minTechPass, minPrice, maxTech)] + ScoreAll(bidders[1..], minTechPass, minPrice, maxTech)
  }

  /** `valid.filter(c => !c.excluded)`. */
  function EligibleBidders(bidders: seq<Bidder>, minTechPass: real): (e: seq<Bidder>)
    ensures forall b :: b in e <==> b in bidders && !Excluded(b, minTechPass)
  {
    if bidders == [] then []
    else (if Excluded(bidders[0], minTechPass) then [] else [bidders[0]]) + EligibleBidders(bidders[1..], minTechPass)
  }

  function Prices(e: seq<Bidder>): (r: seq<real>)
    ensures |r| == |e|
    ensures forall i :: 0 <= i < |e| ==> r[i] == e[i].price
  {
    if e == [] then [] else [e[0].price] + Prices(e[1..])
  }

  function TechAvgs(e: seq<Bidder>): (r: seq<real>)
    ensures |r| == |e|
    ensures forall i :: 0 <= i < |e| ==> r[i] == e[i].techAvg
  {
    if e == [] then [] else [e[0].techAvg] + TechAvgs(e[1..])
  }

  predicate AnyEligible(bidders: seq<Bidder>, minTechPass: real)
  {
    EligibleBidders(bidders, minTechPass) != []
  }

  /** minPrice: the least price of an eligible bidder. */
  function MinPrice(bidders: seq<Bidder>, minTechPass: real): real
    requires AnyEligible(bidders, minTechPass)
  {
    MinOf(Prices(EligibleBidders(bidders, minTechPass)))
  }

  /** maxTech: the greatest technical average of an eligible bidder. */
  function MaxTechAvg(bidders: seq<Bidder>, minTechPass: real): real
    requires AnyEligible(bidders, minTechPass)
  {
    MaxOf(TechAvgs(EligibleBidders(bidders, minTechPass)))
  }

  /** The scored list, in input order. */
  function HvScored(bidders: seq<Bidder>, minTechPass: real): (r: seq<Scored>)
    requires AnyEligible(bidders, minTechPass)
    ensures |r| == |bidders|
  {
    ScoreAll(bidders, minTechPass, MinPrice(bidders, minTechPass), MaxTechAvg(bidders, minTechPass))
  }

  /** The sort key, `toNum(final_score)`: NaN and Infinity count as 0. */
  function FinalKey(s: Scored): real
  {
    ToNum(s.final)
  }

  /** `[...scored].sort((a, b) => toNum(b.final_score) - toNum(a.final_score))`. */
  function HvRanking(bidders: seq<Bidder>, minTechPass: real): (r: seq<Scored>)
    requires AnyEligible(bidders, minTechPass)
  {
    SortDesc(HvScored(bidders, minTechPass), FinalKey)
  }

  /** `sorted.find(c => !c.excluded)` and the winner sentence built from it. */
  function FirstEligible(sorted: seq<Scored>): (w: Winner)
    ensures w.AllExcluded? <==> forall i :: 0 <= i < |sorted| ==> sorted[i].excluded
  {
    if sorted == [] then AllExcluded
    else if !sorted[0].excluded then Named(sorted[0].bidder.name, Round2(FinalKey(sorted[0])))
    else
      var w := FirstEligible(sorted[1..]);
      assert forall i :: 1 <= i < |sorted| ==> sorted[i] == sorted[1..][i - 1];
      w
  }

  function HvDisplay(s: Scored): (row: HvRow)
  {
    HvRow(s.bidder.name, Round2(s.bidder.price), Round2(s.bidder.techAvg), Round2(ToNum(s.technical)),
          Round2(ToNum(s.financial)), Round2(ToNum(s.final)))
  }

  function HvRows(sorted: seq<Scored>): (rows: seq<HvRow>)
    ensures |rows| == |sorted|
    ensures forall i :: 0 <= i < |sorted| ==> rows[i] == HvDisplay(sorted[i])
  {
    if sorted == [] then [] else [HvDisplay(sorted[0])] + HvRows(sorted[1..])
  }

  /** The result of computeHighValue as a function of its inputs. */
  function HvEvaluation(bidders: seq<Bidder>, minTechPass: real): (r: Outcome<HvRow>)
  {
    if !AnyEligible(bidders, minTechPass) then StatusOnly(NoEligibleBidder)
    else
      var sorted := HvRanking(bidders, minTechPass);
      Table(HvRows(sorted), FirstEligible(sorted))
  }

  // ---------------------------------------------------------------- indexing

  lemma {:induction false} ScoreAllAt(bidders: seq<Bidder>, minTechPass: real, minPrice: real, maxTech: real, k: int)
    requires 0 <= k < |bidders|
    ensures ScoreAll(bidders, minTechPass, minPrice, maxTech)[k] == ScoreBidder(bidders[k], minTechPass, minPrice, maxTech)
  {
    if k > 0 {
      ScoreAllAt(bidders[1..], minTechPass, minPrice, maxTech, k - 1);
    }
  }

  /** Entry i of the scored list belongs to bidder i and carries its exclusion
      flag; an excluded bidder scores 0 throughout. */
  lemma HvScoredAt(bidders: seq<Bidder>, minTechPass: real, i: int)
    requires AnyEligible(bidders, minTechPass) && 0 <= i < |bidders|
    ensures HvScored(bidders, minTechPass)[i]
         == ScoreBidder(bidders[i], minTechPass, MinPrice(bidders, minTechPass), MaxTechAvg(bidders, minTechPass))
    ensures HvScored(bidders, minTechPass)[i].bidder == bidders[i]
    ensures HvScored(bidders, minTechPass)[i].excluded == Excluded(bidders[i], minTechPass)
    ensures Excluded(bidders[i], minTechPass) ==>
              HvScored(bidders, minTechPass)[i].final == Zero
              && HvScored(bidders, minTechPass)[i].financial == Zero
              && HvScored(bidders, minTechPass)[i].technical == Zero
  {
    ScoreAllAt(bidders, minTechPass, MinPrice(bidders, minTechPass), MaxTechAvg(bidders, minTechPass), i);
  }

  /** The part of HvScoredAt the ranking proofs need. */
  lemma HvScoredFlags(bidders: seq<Bidder>, minTechPass: real, i: int)
    requires AnyEligible(bidders, minTechPass) && 0 <= i < |bidders|
    ensures HvScored(bidders, minTechPass)[i].bidder == bidders[i]
    ensures HvScored(bidders, minTechPass)[i].excluded == Excluded(bidders[i], minTechPass)
  {
    HvScoredAt(bidders, minTechPass, i);
  }

  // ---------------------------------------------------------------- exclusion

  /** Some bidder is eligible exactly when some bidder is not excluded. */
  lemma AnyEligibleIff(bidders: seq<Bidder>, minTechPass: real)
    ensures AnyEligible(bidders, minTechPass)
        <==> exists i :: 0 <= i < |bidders| && !Excluded(bidders[i], minTechPass)
  {
    var e := EligibleBidders(bidders, minTechPass);
    if e != [] {
      assert e[0] in e;
    }
    if i :| 0 <= i < |bidders| && !Excluded(bidders[i], minTechPass) {
      assert bidders[i] in bidders;
      assert bidders[i] in e;
    }
  }

  /** The "no eligible competitor" row appears exactly when every bidder is
      excluded; otherwise there is a table with one row per bidder. */
  lemma NoEligibleIff(bidders: seq<Bidder>, minTechPass: real)
    ensures (HvEvaluation(bidders, minTechPass) == StatusOnly(NoEligibleBidder))
        <==> (forall i :: 0 <= i < |bidders| ==> Excluded(bidders[i], minTechPass))
    ensures HvEvaluation(bidders, minTechPass).Table? ==> |HvEvaluation(bidders, minTechPass).rows| == |bidders|
  {
    AnyEligibleIff(bidders, minTechPass);
  }

  // ---------------------------------------------------------------- scores

  /** The reference points: an eligible bidder's price is at least minPrice
      and its technical average at most maxTech. */
  lemma WithinReference(bidders: seq<Bidder>, minTechPass: real, i: int)
    requires 0 <= i < |bidders| && !Excluded(bidders[i], minTechPass)
    ensures AnyEligible(bidders, minTechPass)
    ensures MinPrice(bidders, minTechPass) <= bidders[i].price
    ensures bidders[i].techAvg <= MaxTechAvg(bidders, minTechPass)
  {
    var e := EligibleBidders(bidders, minTechPass);
    assert bidders[i] in bidders;
    assert bidders[i] in e;
    var k :| 0 <= k < |e| && e[k] == bidders[i];
    assert Prices(e)[k] == bidders[i].price;
    assert TechAvgs(e)[k] == bidders[i].techAvg;
  }

  /** The scores of an eligible bidder against positive reference points: the
      price part of the financial score lies in (0, 60] and is 60 exactly for
      the cheapest price; the technical score lies in (0, 60] and is 60
      exactly for the best average; the final score is 0.40 times the
      financial score plus the technical score. */
  lemma ScoreRanges(b: Bidder, minTechPass: real, minPrice: real, maxTech: real)
    requires !Excluded(b, minTechPass) && 0.0 < minPrice <= b.price && 0.0 < b.techAvg <= maxTech
    ensures var s := ScoreBidder(b, minTechPass, minPrice, maxTech);
      s.financial.Finite? && s.technical.Finite? && s.final.Finite?
      && 0.0 < s.financial.value - BonusPoints(b) * TechnicalWeight <= 60.0
      && (s.financial.value - BonusPoints(b) * TechnicalWeight == 60.0 <==> b.price == minPrice)
      && 0.0 < s.technical.value <= TechnicalScale
      && (s.technical.value == TechnicalScale <==> b.techAvg == maxTech)
      && s.final.value == s.financial.value * TechnicalWeight + s.technical.value
  {
    var s := ScoreBidder(b, minTechPass, minPrice, maxTech);
    RatioPercent(minPrice, b.price);
    RatioPercent(b.techAvg, maxTech);
    var p := (minPrice / b.price) * 100.0;
    assert s.financial.value - BonusPoints(b) * TechnicalWeight == p * FinancialWeight;
    var t := b.techAvg / maxTech;
    assert s.technical.value == t * TechnicalScale;
    assert t * TechnicalScale == (t * 100.0) * 0.6;
  }

  /** A listed company gains 0.4 * 0.4 * 0.05 = 0.008 in final score over an
      otherwise equal unlisted one, whenever the scores are finite. */
  lemma ListedBonus(b: Bidder, minTechPass: real, minPrice: real, maxTech: real)
    requires !Excluded(b, minTechPass) && !b.listed && b.price != 0.0 && maxTech != 0.0
    ensures ScoreBidder(b.(listed := true), minTechPass, minPrice, maxTech).final.Finite?
    ensures ScoreBidder(b, minTechPass, minPrice, maxTech).final.Finite?
    ensures ScoreBidder(b.(listed := true), minTechPass, minPrice, maxTech).final.value
         == ScoreBidder(b, minTechPass, minPrice, maxTech).final.value + 0.008
  {
    assert BonusPoints(b.(listed := true)) == BonusPoints(b) + ListedPoints;
  }

  /** A price of 0 gives an eligible bidder NaN or Infinity as financial and
      final score; the table shows 0 for both and the sort ranks it as 0. */
  lemma ZeroPriceShowsZero(b: Bidder, minTechPass: real, minPrice: real, maxTech: real)
    requires !Excluded(b, minTechPass) && b.price == 0.0
    ensures ScoreBidder(b, minTechPass, minPrice, maxTech).financial.NonFinite?
    ensures ScoreBidder(b, minTechPass, minPrice, maxTech).final.NonFinite?
    ensures FinalKey(ScoreBidder(b, minTechPass, minPrice, maxTech)) == 0.0
    ensures HvDisplay(ScoreBidder(b, minTechPass, minPrice, maxTech)).final == 0.0
  {
    assert (0.0 * 100.0).Floor == 0;
  }

  // ---------------------------------------------------------------- ranking and winner

  /** The table is a rearrangement of the scored bidders, highest final score
      first, with equal scores in input order. */
  lemma RankingIsStableSort(bidders: seq<Bidder>, minTechPass: real)
    requires AnyEligible(bidders, minTechPass)
    ensures multiset(HvRanking(bidders, minTechPass)) == multiset(HvScored(bidders, minTechPass))
    ensures NonIncreasing(HvRanking(bidders, minTechPass), FinalKey)
    ensures forall k :: WithKey(HvRanking(bidders, minTechPass), FinalKey, k)
                     == WithKey(HvScored(bidders, minTechPass), FinalKey, k)
  {
    SortDescCorrect(HvScored(bidders, minTechPass), FinalKey);
  }

  /** The winner sentence names the first non-excluded entry. */
  lemma {:induction false} FirstEligibleAt(sorted: seq<Scored>)
    requires exists i :: 0 <= i < |sorted| && !sorted[i].excluded
    ensures exists k :: 0 <= k < |sorted| && !sorted[k].excluded
              && (forall j :: 0 <= j < k ==> sorted[j].excluded)
              && FirstEligible(sorted) == Named(sorted[k].bidder.name, Round2(FinalKey(sorted[k])))
  {
    if sorted[0].excluded {
      var i :| 0 <= i < |sorted| && !sorted[i].excluded;
      assert !sorted[1..][i - 1].excluded;
      FirstEligibleAt(sorted[1..]);
      var k :| 0 <= k < |sorted[1..]| && !sorted[1..][k].excluded
                 && (forall j :: 0 <= j < k ==> sorted[1..][j].excluded)
                 && FirstEligible(sorted[1..]) == Named(sorted[1..][k].bidder.name, Round2(FinalKey(sorted[1..][k])));
      forall j | 0 <= j < k + 1 ensures sorted[j].excluded {
        if j > 0 {
          assert sorted[j] == sorted[1..][j - 1];
        }
      }
    }
  }

  /** In a non-increasing list, the first non-excluded entry has the greatest
      key among the non-excluded entries. */
  lemma FirstEligibleIsBest(sorted: seq<Scored>, k: int)
    requires NonIncreasing(sorted, FinalKey)
    requires 0 <= k < |sorted| && !sorted[k].excluded && forall j :: 0 <= j < k ==> sorted[j].excluded
    ensures forall x :: x in sorted && !x.excluded ==> FinalKey(x) <= FinalKey(sorted[k])
  {
    forall x | x in sorted && !x.excluded ensures FinalKey(x) <= FinalKey(sorted[k]) {
      var p :| 0 <= p < |sorted| && sorted[p] == x;
      if p != k {
        assert p > k;
      }
    }
  }

  /** No entry before i is a non-excluded one with key v. */
  ghost predicate NoEarlierEligibleWithKey(s: seq<Scored>, v: real, i: int)
    requires 0 <= i <= |s|
  {
    forall j :: 0 <= j < i ==> !(FinalKey(s[j]) == v && !s[j].excluded)
  }

  /** The first non-excluded entry of WithKey(s, FinalKey, v) is the first
      non-excluded entry of s with key v. */
  lemma {:induction false} FirstOfKey(s: seq<Scored>, v: real, m: int)
    requires 0 <= m < |WithKey(s, FinalKey, v)| && !WithKey(s, FinalKey, v)[m].excluded
    requires forall j :: 0 <= j < m ==> WithKey(s, FinalKey, v)[j].excluded
    ensures exists i :: 0 <= i < |s| && s[i] == WithKey(s, FinalKey, v)[m] && NoEarlierEligibleWithKey(s, v, i)
  {
    var w := WithKey(s, FinalKey, v);
    var t := WithKey(s[1..], FinalKey, v);
    if FinalKey(s[0]) == v {
      assert w == [s[0]] + t;
      if m > 0 {
        forall j | 0 <= j < m - 1 ensures t[j].excluded {
          assert t[j] == w[j + 1];
        }
        FirstOfKey(s[1..], v, m - 1);
        var i :| 0 <= i < |s[1..]| && s[1..][i] == t[m - 1] && NoEarlierEligibleWithKey(s[1..], v, i);
        assert w[0].excluded;
        assert NoEarlierEligibleWithKey(s, v, i + 1) by {
          forall j | 0 <= j < i + 1 ensures !(FinalKey(s[j]) == v && !s[j].excluded) {
            if j > 0 {
              assert s[j] == s[1..][j - 1];
            }
          }
        }
      }
    } else {
      assert w == t;
      FirstOfKey(s[1..], v, m);
      var i :| 0 <= i < |s[1..]| && s[1..][i] == t[m] && NoEarlierEligibleWithKey(s[1..], v, i);
      assert NoEarlierEligibleWithKey(s, v, i + 1) by {
        forall j | 0 <= j < i + 1 ensures !(FinalKey(s[j]) == v && !s[j].excluded) {
          if j > 0 {
            assert s[j] == s[1..][j - 1];
          }
        }
      }
    }
  }

  /** Conversely, the first non-excluded entry of s, when it has key v, is the
      first non-excluded entry of WithKey(s, FinalKey, v). */
  lemma {:induction false} OfKeyFirst(s: seq<Scored>, v: real, k: int)
    requires 0 <= k < |s| && !s[k].excluded && FinalKey(s[k]) == v
    requires forall j :: 0 <= j < k ==> s[j].excluded
    ensures exists m :: 0 <= m < |WithKey(s, FinalKey, v)| && WithKey(s, FinalKey, v)[m] == s[k]
              && forall j :: 0 <= j < m ==> WithKey(s, FinalKey, v)[j].excluded
  {
    var w := WithKey(s, FinalKey, v);
    var t := WithKey(s[1..], FinalKey, v);
    if k == 0 {
      assert w == [s[0]] + t;
      assert w[0] == s[k];
    } else {
      forall j | 0 <= j < k - 1 ensures s[1..][j].excluded {
        assert s[1..][j] == s[j + 1];
      }
      OfKeyFirst(s[1..], v, k - 1);
      var m :| 0 <= m < |t| && t[m] == s[1..][k - 1] && forall j :: 0 <= j < m ==> t[j].excluded;
      if FinalKey(s[0]) == v {
        assert w == [s[0]] + t;
        assert w[m + 1] == t[m] == s[k];
        forall j | 0 <= j < m + 1 ensures w[j].excluded {
          if j > 0 {
            assert w[j] == t[j - 1];
          }
        }
      } else {
        assert w == t;
      }
    }
  }

  /** With an eligible bidder the winner always exists: it is a bidder that
      is not excluded, quoted with its rounded final score; no eligible bidder
      has a higher final score, and every eligible bidder entered before it
      has a strictly lower one. */
  lemma WinnerIsBestEligible(bidders: seq<Bidder>, minTechPass: real)
    requires AnyEligible(bidders, minTechPass)
    ensures HvEvaluation(bidders, minTechPass).Table?
    ensures exists i :: (0 <= i < |bidders| && !Excluded(bidders[i], minTechPass)
      && HvEvaluation(bidders, minTechPass).winner
           == Named(bidders[i].name, Round2(FinalKey(HvScored(bidders, minTechPass)[i])))
      && (forall j :: 0 <= j < |bidders| && !Excluded(bidders[j], minTechPass) ==>
           FinalKey(HvScored(bidders, minTechPass)[j]) <= FinalKey(HvScored(bidders, minTechPass)[i]))
      && (forall j :: 0 <= j < i && !Excluded(bidders[j], minTechPass) ==>
           FinalKey(HvScored(bidders, minTechPass)[j]) < FinalKey(HvScored(bidders, minTechPass)[i])))
  {
    var sc := HvScored(bidders, minTechPass);
    var sorted := HvRanking(bidders, minTechPass);
    var k := WinnerPosition(bidders, minTechPass);
    var v := FinalKey(sorted[k]);
    RankingIsStableSort(bidders, minTechPass);
    OfKeyFirst(sorted, v, k);
    var m :| 0 <= m < |WithKey(sorted, FinalKey, v)| && WithKey(sorted, FinalKey, v)[m] == sorted[k]
              && forall j :: 0 <= j < m ==> WithKey(sorted, FinalKey, v)[j].excluded;
    FirstOfKey(sc, v, m);
    var i :| 0 <= i < |sc| && sc[i] == sorted[k] && NoEarlierEligibleWithKey(sc, v, i);
    HvScoredFlags(bidders, minTechPass, i);
    EligibleBelowWinner(bidders, minTechPass, k, i);
  }

  /** Every eligible bidder scores at most the winner's final score, and
      strictly less when entered before it. */
  lemma EligibleBelowWinner(bidders: seq<Bidder>, minTechPass: real, k: int, i: int)
    requires AnyEligible(bidders, minTechPass)
    requires 0 <= k < |HvRanking(bidders, minTechPass)| && 0 <= i < |bidders|
    requires forall x :: x in HvRanking(bidders, minTechPass) && !x.excluded ==>
               FinalKey(x) <= FinalKey(HvRanking(bidders, minTechPass)[k])
    requires HvScored(bidders, minTechPass)[i] == HvRanking(bidders, minTechPass)[k]
    requires NoEarlierEligibleWithKey(HvScored(bidders, minTechPass), FinalKey(HvRanking(bidders, minTechPass)[k]), i)
    ensures forall j :: 0 <= j < |bidders| && !Excluded(bidders[j], minTechPass) ==>
              FinalKey(HvScored(bidders, minTechPass)[j]) <= FinalKey(HvScored(bidders, minTechPass)[i])
    ensures forall j :: 0 <= j < i && !Excluded(bidders[j], minTechPass) ==>
              FinalKey(HvScored(bidders, minTechPass)[j]) < FinalKey(HvScored(bidders, minTechPass)[i])
  {
    var sc := HvScored(bidders, minTechPass);
    var sorted := HvRanking(bidders, minTechPass);
    var v := FinalKey(sorted[k]);
    RankingIsStableSort(bidders, minTechPass);
    forall j | 0 <= j < |bidders| && !Excluded(bidders[j], minTechPass)
      ensures FinalKey(sc[j]) <= v
      ensures j < i ==> FinalKey(sc[j]) < v
    {
      HvScoredFlags(bidders, minTechPass, j);
      assert sc[j] in multiset(sorted);
    }
  }

  /** The position of the winner in the sorted table: the first non-excluded
      entry, which has the greatest final score among non-excluded entries. */
  lemma WinnerPosition(bidders: seq<Bidder>, minTechPass: real) returns (k: int)
    requires AnyEligible(bidders, minTechPass)
    ensures 0 <= k < |HvRanking(bidders, minTechPass)|
    ensures !HvRanking(bidders, minTechPass)[k].excluded
    ensures forall j :: 0 <= j < k ==> HvRanking(bidders, minTechPass)[j].excluded
    ensures HvEvaluation(bidders, minTechPass).Table?
    ensures HvEvaluation(bidders, minTechPass).winner
         == Named(HvRanking(bidders, minTechPass)[k].bidder.name, Round2(FinalKey(HvRanking(bidders, minTechPass)[k])))
    ensures forall x :: x in HvRanking(bidders, minTechPass) && !x.excluded ==>
              FinalKey(x) <= FinalKey(HvRanking(bidders, minTechPass)[k])
  {
    var sc := HvScored(bidders, minTechPass);
    var sorted := HvRanking(bidders, minTechPass);
    RankingIsStableSort(bidders, minTechPass);
    AnyEligibleIff(bidders, minTechPass);
    var e :| 0 <= e < |bidders| && !Excluded(bidders[e], minTechPass);
    HvScoredFlags(bidders, minTechPass, e);
    assert sc[e] in multiset(sorted);
    var pe :| 0 <= pe < |sorted| && sorted[pe] == sc[e];
    FirstEligibleAt(sorted);
    k :| 0 <= k < |sorted| && !sorted[k].excluded
          && (forall j :: 0 <= j < k ==> sorted[j].excluded)
          && FirstEligible(sorted) == Named(sorted[k].bidder.name, Round2(FinalKey(sorted[k])));
    FirstEligibleIsBest(sorted, k);
  }

  /** A bidder with a local-content target of 0 never wins: the winner is
      always some other, non-excluded bidder. */
  lemma NoLocalTargetNeverWins(bidders: seq<Bidder>, minTechPass: real, z: int)
    requires 0 <= z < |bidders| && bidders[z].localTarget == 0.0 && AnyEligible(bidders, minTechPass)
    ensures exists i :: (0 <= i < |bidders| && i != z && !Excluded(bidders[i], minTechPass)
      && HvEvaluation(bidders, minTechPass).winner
           == Named(bidders[i].name, Round2(FinalKey(HvScored(bidders, minTechPass)[i]))))
  {
    WinnerIsBestEligible(bidders, minTechPass);
  }
}
