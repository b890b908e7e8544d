/** Numeric helpers of the scoring engine: JavaScript's finite/non-finite
    distinction, the `toNum` coercion, `Math.round` and the two display
    roundings, and `Math.min`/`Math.max` over a non-empty list. */
module Numbers {

  /** A JavaScript number as the engine sees it: a finite value, or NaN/±Infinity
      (the only way the engine produces the latter is a division by zero). */
  datatype Num = Finite(value: real) | NonFinite

  /** Division as JavaScript does it: dividing by zero gives NaN or ±Infinity. */
  function Div(a: real, b: real): (r: Num)
    ensures r.Finite? <==> b != 0.0
    ensures r.Finite? ==> r.value * b == a
  {
    if b == 0.0 then NonFinite else Finite(a / b)
  }

  /** Multiplication by a finite factor; a non-finite operand stays non-finite. */
  function Scale(n: Num, k: real): (r: Num)
    ensures r.Finite? <==> n.Finite?
    ensures r.Finite? ==> r.value == n.value * k
  {
    match n
    case Finite(v) => Finite(v * k)
    case NonFinite => NonFinite
  }

  /** Addition; a non-finite operand makes the sum non-finite. */
  function Plus(a: Num, b: Num): (r: Num)
    ensures r.Finite? <==> a.Finite? && b.Finite?
    ensures r.Finite? ==> r.value == a.value + b.value
  {
    if a.Finite? && b.Finite? then Finite(a.value + b.value) else NonFinite
  }

  /** `toNum`: a finite number passes through, anything else becomes 0. */
  function ToNum(n: Num): (r: real)
    ensures n.Finite? ==> r == n.value
    ensures n.NonFinite? ==> r == 0.0
  {
    match n
    case Finite(v) => v
    case NonFinite => 0.0
  }

  /** `Math.round` (section 21.3.2.28 of ECMA-262): the nearest integer,
      halves rounded towards +Infinity. */
  function Round(x: real): (r: int)
    ensures r as real - 0.5 <= x < r as real + 0.5
  {
    (x + 0.5).Floor
  }

  /** The two conditions of Round's contract determine its result. */
  lemma RoundUnique(x: real, k: int)
    requires k as real - 0.5 <= x < k as real + 0.5
    ensures Round(x) == k
  {
  }

  /** Rounding preserves order, so a list ordered by exact values is still
      ordered by the rounded figures it displays. */
  lemma RoundMonotone(x: real, y: real)
    requires x <= y
    ensures Round(x) <= Round(y)
  {
  }

  /** Python's `round` on a float followed by `int`: the nearest integer,
      halves rounded to the even neighbour. The comments at
      ChatSupport.tsx lines 243 and 281 say intRound matches this; the code
      calls Math.round instead. */
  function RoundHalfEven(x: real): (r: int)
    ensures r as real - 0.5 <= x <= r as real + 0.5
    ensures (x + 0.5).Floor as real == x + 0.5 ==> r % 2 == 0
  {
    var f := (x + 0.5).Floor;
    if f as real == x + 0.5 && f % 2 != 0 then f - 1 else f
  }

  /** Away from halves the two rules agree. */
  lemma RoundAgreesHalfEvenOffHalves(x: real)
    requires (x + 0.5).Floor as real != x + 0.5
    ensures Round(x) == RoundHalfEven(x)
  {
  }

  /** They disagree exactly on the halves whose Math.round result is odd. */
  lemma RoundHalfEvenDiffersIff(x: real)
    ensures Round(x) != RoundHalfEven(x)
        <==> (x + 0.5).Floor as real == x + 0.5 && Round(x) % 2 != 0
  {
  }

  /** The figure 58.5 of the worked SME case: Math.round shows 59, Python's
      int(round(58.5)) is 58. */
  lemma RoundDiffersOnOddHalf()
    ensures Round(58.5) == 59 && RoundHalfEven(58.5) == 58
  {
    assert (58.5 + 0.5).Floor == 59;
  }

  /** `roundInt`. */
  function RoundInt(x: real): (r: int)
    ensures r as real - 0.5 <= x < r as real + 0.5
  {
    Round(x)
  }

  /** `round2`: Math.round(x * 100) / 100, the nearest multiple of 0.01. */
  function Round2(x: real): (r: real)
    ensures (r * 100.0).Floor as real == r * 100.0
    ensures x - 0.005 < r <= x + 0.005
  {
    var k := Round(x * 100.0);
    assert k as real - 0.5 <= x * 100.0 < k as real + 0.5;
    var r := k as real / 100.0;
    assert r * 100.0 == k as real;
    r
  }

  /** `intRound`: Math.round of a finite number, 0 for NaN and ±Infinity. */
  function IntRound(n: Num): (r: int)
    ensures n.NonFinite? ==> r == 0
    ensures n.Finite? ==> r as real - 0.5 <= n.value < r as real + 0.5
  {
    if n.Finite? then Round(n.value) else 0
  }

  /** `Math.min(...s)` for a non-empty list. */
  function MinOf(s: seq<real>): (m: real)
    requires |s| > 0
    ensures m in s
    ensures forall i :: 0 <= i < |s| ==> m <= s[i]
  {
    if |s| == 1 then s[0]
    else
      var rest := MinOf(s[1..]);
      assert forall i :: 1 <= i < |s| ==> s[i] == s[1..][i - 1];
      if s[0] <= rest then s[0] else rest
  }

  /** `Math.max(...s)` for a non-empty list. */
  function MaxOf(s: seq<real>): (m: real)
    requires |s| > 0
    ensures m in s
    ensures forall i :: 0 <= i < |s| ==> s[i] <= m
  {
    if |s| == 1 then s[0]
    else
      var rest := MaxOf(s[1..]);
      assert forall i :: 1 <= i < |s| ==> s[i] == s[1..][i - 1];
      if s[0] >= rest then s[0] else rest
  }

  /** (a / b) * 100 for 0 < a <= b is in (0, 100], and is 100 exactly when a == b:
      the "best value gets full marks" normalisation of the scoring policies. */
  lemma RatioPercent(a: real, b: real)
    requires 0.0 < a <= b
    ensures 0.0 < (a / b) * 100.0 <= 100.0
    ensures (a / b) * 100.0 == 100.0 <==> a == b
  {
    assert a / b <= 1.0 by {
      assert a / b * b == a;
    }
  }

  /** Multiplying by a non-negative factor preserves order, strictly so for a
      positive factor. */
  lemma ScaleMonotone(c: real, x: real, y: real)
    requires c >= 0.0 && x <= y
    ensures c * x <= c * y
    ensures c > 0.0 && x < y ==> c * x < c * y
  {
    assert c * y - c * x == c * (y - x);
  }
}
