/**
 * Quota conversions: saturation, half-away rounding, the strict wallet conversion, and the per-token
 * settlement of a channel test.  Finite floats are exact reals here; `Float` adds the special values.
 */
module QuotaMath {
  import opened Options

  const MAX_QUOTA := 0x7fff_ffff
  const MIN_QUOTA := -0x8000_0000
  const MAX_WALLET := 0x1f_ffff_ffff_ffff    // 2^53 - 1

  datatype Float = NaN | PosInf | NegInf | Finite(v: real)

  datatype ClampKind = Overflow | Underflow | NotANumber

  /** A converted quota and, when it had to be clamped, why. */
  datatype Converted = Converted(quota: int, clamp: Option<ClampKind>)

  /** int(v): truncation toward zero. */
  function Truncate(v: real): int {
    if v >= 0.0 then v.Floor else -((-v).Floor)
  }

  /** math.Round and decimal Round(0): to the nearest integer, halves away from zero. */
  function RoundHalfAway(v: real): int {
    if v >= 0.0 then (v + 0.5).Floor else -((-v + 0.5).Floor)
  }

  function Saturate(f: Float, max: int, min: int): Converted {
    match f
    case NaN => Converted(0, Some(NotANumber))
    case PosInf => Converted(max, Some(Overflow))
    case NegInf => Converted(min, Some(Underflow))
    case Finite(v) =>
      if v > max as real then Converted(max, Some(Overflow))
      else if v < min as real then Converted(min, Some(Underflow))
      else Converted(Truncate(v), None)
  }

  function Round(f: Float): Float {
    if f.Finite? then Finite(RoundHalfAway(f.v) as real) else f
  }

  function QuotaRoundChecked(f: Float): Converted {
    Saturate(Round(f), MAX_QUOTA, MIN_QUOTA)
  }

  function QuotaFromFloatChecked(f: Float): Converted {
    Saturate(f, MAX_QUOTA, MIN_QUOTA)
  }

  /** A strict conversion fails instead of clamping. */
  function Strict(c: Converted): Option<int> {
    if c.clamp.Some? then None else Some(c.quota)
  }

  // ----- Rounding and saturation -----

  /** Rounding errs by at most a half, exactly away from zero on ties, and keeps order. */
  lemma {:induction false} RoundNearest(v: real, w: real)
    ensures -0.5 <= RoundHalfAway(v) as real - v <= 0.5
    ensures RoundHalfAway(v) as real - v == 0.5 ==> v >= 0.0
    ensures v - RoundHalfAway(v) as real == 0.5 ==> v < 0.0
    ensures v <= w ==> RoundHalfAway(v) <= RoundHalfAway(w)
  {
  }

  lemma {:induction false} RoundOfInt(n: int)
    ensures RoundHalfAway(n as real) == n && Truncate(n as real) == n
  {
  }

  /** Forced between the least and the greatest 32-bit number. */
  function In32Bits(n: int): int {
    if n > 2_147_483_647 then 2_147_483_647 else if n < -2_147_483_648 then -2_147_483_648 else n
  }

  /** A rounded quota is the rounded value forced into the 32-bit range, marked exactly when forced. */
  lemma {:induction false} QuotaRoundMeaning(v: real)
    ensures var c, r := QuotaRoundChecked(Finite(v)), RoundHalfAway(v);
            && c.quota == In32Bits(r)
            && c.clamp ==
               if r > 2_147_483_647 then Some(Overflow) else if r < -2_147_483_648 then Some(Underflow) else None
  {
    RoundOfInt(RoundHalfAway(v));
  }

  /** The special values: not a number becomes 0, the infinities the ends of the range, each marked as such. */
  lemma {:induction false} SpecialValues(max: int, min: int)
    ensures Saturate(NaN, max, min) == Converted(0, Some(NotANumber))
    ensures Saturate(PosInf, max, min) == Converted(max, Some(Overflow))
    ensures Saturate(NegInf, max, min) == Converted(min, Some(Underflow))
    ensures QuotaRoundChecked(NaN) == QuotaFromFloatChecked(NaN) == Converted(0, Some(NotANumber))
    ensures QuotaRoundChecked(PosInf) == QuotaFromFloatChecked(PosInf) == Converted(2_147_483_647, Some(Overflow))
    ensures QuotaRoundChecked(NegInf) == QuotaFromFloatChecked(NegInf) == Converted(-2_147_483_648, Some(Underflow))
  {
  }

  lemma {:induction false} QuotaRoundMonotone(v: real, w: real)
    requires v <= w
    ensures QuotaRoundChecked(Finite(v)).quota <= QuotaRoundChecked(Finite(w)).quota
  {
    RoundNearest(v, w);
    QuotaRoundMeaning(v);
    QuotaRoundMeaning(w);
  }

  /** Every conversion lands in range, and truncation never moves a value away from zero. */
  lemma {:induction false} SaturateInRange(f: Float, max: int, min: int)
    requires min <= 0 <= max
    ensures min <= Saturate(f, max, min).quota <= max
    ensures f.Finite? && Saturate(f, max, min).clamp.None? ==>
              var q := Saturate(f, max, min).quota as real;
              (f.v >= 0.0 ==> f.v - 1.0 < q <= f.v) && (f.v <= 0.0 ==> f.v <= q < f.v + 1.0)
  {
  }

  // ----- The strict wallet conversion -----

  /**
   * What is used of converting an integer to float64: exact up to 2^53 in magnitude, and monotone
   * (overflow to infinity included).
   */
  predicate Above(f: Float, n: int) {
    f.PosInf? || (f.Finite? && f.v >= n as real)
  }

  predicate BelowOrAt(f: Float, n: int) {
    f.NegInf? || (f.Finite? && f.v <= n as real)
  }

  ghost predicate Float64Conversion(toFloat: int -> Float) {
    && (forall n: int {:trigger toFloat(n)} :: -(MAX_WALLET + 1) <= n <= MAX_WALLET + 1 ==>
        toFloat(n) == Finite(n as real))
    && (forall n: int {:trigger toFloat(n)} :: n > MAX_WALLET + 1 ==> Above(toFloat(n), MAX_WALLET + 1))
    && (forall n: int {:trigger toFloat(n)} :: n < -(MAX_WALLET + 1) ==> BelowOrAt(toFloat(n), -(MAX_WALLET + 1)))
  }

  function WalletQuotaFromDecimalStrict(toFloat: int -> Float, d: real): Option<int> {
    Strict(Saturate(toFloat(RoundHalfAway(d)), MAX_WALLET, -MAX_WALLET))
  }

  /** It returns exactly the rounded decimal, or fails; it fails exactly when the magnitude exceeds 2^53 - 1. */
  lemma {:induction false} WalletExactOrFails(toFloat: int -> Float, d: real)
    requires Float64Conversion(toFloat)
    ensures var r := RoundHalfAway(d);
            WalletQuotaFromDecimalStrict(toFloat, d) ==
              if -9_007_199_254_740_991 <= r <= 9_007_199_254_740_991 then Some(r) else None
  {
    var r := RoundHalfAway(d);
    if -MAX_WALLET <= r <= MAX_WALLET { RoundOfInt(r); }
  }

  // ----- Settling a channel test -----

  function QuotaRound(v: real): int {
    QuotaRoundChecked(Finite(v)).quota
  }

  function Times(units: int, ratio: real): real {
    units as real * ratio
  }

  function Sum(a: int, b: int): real {
    a as real + b as real
  }

  /** A priced model costs at least one unit. */
  function AtLeastOne(quota: int, ratio: real): int {
    if ratio != 0.0 && quota <= 0 then 1 else quota
  }

  /** The completion's share, rounded on its own. */
  function CompletionQuota(completion: int, completionRatio: real): int {
    QuotaRound(Times(completion, completionRatio))
  }

  function Tokens(prompt: int, completion: int, completionRatio: real): int {
    QuotaRound(Sum(prompt, CompletionQuota(completion, completionRatio)))
  }

  /** Three roundings, then at least one unit when the model has a price. */
  function SettlePerToken(prompt: int, completion: int, completionRatio: real, modelRatio: real): int {
    AtLeastOne(QuotaRound(Times(Tokens(prompt, completion, completionRatio), modelRatio)), modelRatio)
  }

  function SettleByPrice(modelPrice: real, quotaPerUnit: real): int {
    QuotaFromFloatChecked(Finite(modelPrice * quotaPerUnit)).quota
  }

  lemma {:induction false} MulMonotone(a: real, b: real, r: real)
    requires a <= b && r >= 0.0
    ensures a * r <= b * r
  {
  }

  lemma {:induction false} TimesMonotone(a: int, b: int, ratio: real)
    requires a <= b && ratio >= 0.0
    ensures Times(a, ratio) <= Times(b, ratio)
  {
    MulMonotone(a as real, b as real, ratio);
  }

  lemma {:induction false} AtLeastOneMonotone(a: int, b: int, ratio: real)
    requires a <= b
    ensures AtLeastOne(a, ratio) <= AtLeastOne(b, ratio)
  {
  }

  lemma TokensMonotone(p1: int, c1: int, p2: int, c2: int, completionRatio: real)
    requires p1 <= p2 && c1 <= c2 && completionRatio >= 0.0
    ensures Tokens(p1, c1, completionRatio) <= Tokens(p2, c2, completionRatio)
  {
    TimesMonotone(c1, c2, completionRatio);
    QuotaRoundMonotone(Times(c1, completionRatio), Times(c2, completionRatio));
    QuotaRoundMonotone(Sum(p1, CompletionQuota(c1, completionRatio)), Sum(p2, CompletionQuota(c2, completionRatio)));
  }

  /** More tokens never cost less. */
  lemma {:induction false} SettleMonotone(p1: int, c1: int, p2: int, c2: int, completionRatio: real, modelRatio: real)
    requires p1 <= p2 && c1 <= c2 && completionRatio >= 0.0 && modelRatio >= 0.0
    ensures SettlePerToken(p1, c1, completionRatio, modelRatio) <= SettlePerToken(p2, c2, completionRatio, modelRatio)
  {
    var t1, t2 := Tokens(p1, c1, completionRatio), Tokens(p2, c2, completionRatio);
    TokensMonotone(p1, c1, p2, c2, completionRatio);
    SettledMonotone(t1, t2, modelRatio);
  }

  lemma SettledMonotone(t1: int, t2: int, modelRatio: real)
    requires t1 <= t2 && modelRatio >= 0.0
    ensures AtLeastOne(QuotaRound(Times(t1, modelRatio)), modelRatio)
            <= AtLeastOne(QuotaRound(Times(t2, modelRatio)), modelRatio)
  {
    TimesMonotone(t1, t2, modelRatio);
    QuotaRoundMonotone(Times(t1, modelRatio), Times(t2, modelRatio));
    AtLeastOneMonotone(QuotaRound(Times(t1, modelRatio)), QuotaRound(Times(t2, modelRatio)), modelRatio);
  }

  /** A flat price is charged truncated: by less than one unit too little, up to the 32-bit maximum. */
  lemma SettleByPriceClose(modelPrice: real, quotaPerUnit: real)
    requires modelPrice >= 0.0 && quotaPerUnit >= 0.0
    ensures var exact, quota := modelPrice * quotaPerUnit, SettleByPrice(modelPrice, quotaPerUnit);
            if exact > 2147483647.0 then quota == 2_147_483_647 else exact - 1.0 < quota as real <= exact
  {
    MulMonotone(0.0, modelPrice, quotaPerUnit);
  }

  // ----- What a settlement is, clamping included -----

  lemma {:induction false} QuotaRoundIs(v: real)
    ensures QuotaRound(v) == In32Bits(RoundHalfAway(v))
  {
    QuotaRoundMeaning(v);
  }

  /** Rounded to the nearest number of units, halves away from zero, and forced into range. */
  function Charge(units: int, ratio: real): int {
    In32Bits(RoundHalfAway(units as real * ratio))
  }

  lemma {:induction false} TimesCharged(units: int, ratio: real)
    ensures QuotaRound(Times(units, ratio)) == Charge(units, ratio)
  {
    QuotaRoundIs(Times(units, ratio));
  }

  lemma {:induction false} SumCharged(a: int, b: int)
    ensures QuotaRound(Sum(a, b)) == In32Bits(a + b)
  {
    QuotaRoundIs(Sum(a, b));
    RoundOfInt(a + b);
    assert Sum(a, b) == (a + b) as real;
  }

  /** The completion's share is rounded, the prompt added, the product rounded again; each step is forced into range. */
  lemma {:induction false} SettleExactly(prompt: int, completion: int, completionRatio: real, modelRatio: real)
    ensures var quota := Charge(In32Bits(prompt + Charge(completion, completionRatio)), modelRatio);
            SettlePerToken(prompt, completion, completionRatio, modelRatio) ==
              if modelRatio != 0.0 && quota <= 0 then 1 else quota
  {
    TimesCharged(completion, completionRatio);
    SumCharged(prompt, Charge(completion, completionRatio));
    TimesCharged(In32Bits(prompt + Charge(completion, completionRatio)), modelRatio);
  }

  /** A priced model never costs less than one unit, and one whose ratio is zero costs nothing. */
  lemma {:induction false} PricedCostsAtLeastOne(prompt: int, completion: int, completionRatio: real, modelRatio: real)
    ensures modelRatio != 0.0 ==> SettlePerToken(prompt, completion, completionRatio, modelRatio) >= 1
    ensures modelRatio == 0.0 ==> SettlePerToken(prompt, completion, completionRatio, modelRatio) == 0
  {
    SettleExactly(prompt, completion, completionRatio, modelRatio);
    if modelRatio == 0.0 {
      assert forall t: int {:trigger t as real} :: t as real * modelRatio == 0.0;
    }
  }

  // ----- How far the composed roundings can be from the exact price -----

  /** Converting `v` with rounding does not clamp. */
  predicate Fits(v: real) {
    QuotaRoundChecked(Finite(v)).clamp.None?
  }

  /** None of the three conversions clamps. */
  predicate Unclamped(prompt: int, completion: int, completionRatio: real, modelRatio: real) {
    && Fits(Times(completion, completionRatio))
    && Fits(Sum(prompt, CompletionQuota(completion, completionRatio)))
    && Fits(Times(Tokens(prompt, completion, completionRatio), modelRatio))
  }

  /** a is within e of b. */
  predicate Within(a: real, b: real, e: real) {
    -e <= a - b <= e
  }

  lemma {:induction false} FitsRound(v: real)
    requires Fits(v)
    ensures QuotaRound(v) == RoundHalfAway(v) && Within(QuotaRound(v) as real, v, 0.5)
  {
    QuotaRoundMeaning(v);
    RoundNearest(v, v);
  }

  /** The middle rounding adds two integers and is exact. */
  lemma {:induction false} SumIsExact(a: int, b: int)
    requires Fits(Sum(a, b))
    ensures QuotaRound(Sum(a, b)) == a + b
  {
    FitsRound(Sum(a, b));
    assert Sum(a, b) == (a + b) as real;
    RoundOfInt(a + b);
  }

  function Exact(prompt: int, completion: int, completionRatio: real): real {
    prompt as real + Times(completion, completionRatio)
  }

  function Scaled(v: real, ratio: real): real {
    v * ratio
  }

  lemma {:induction false} TokensClose(prompt: int, completion: int, completionRatio: real)
    requires Fits(Times(completion, completionRatio))
    requires Fits(Sum(prompt, CompletionQuota(completion, completionRatio)))
    ensures Within(Tokens(prompt, completion, completionRatio) as real, Exact(prompt, completion, completionRatio), 0.5)
  {
    FitsRound(Times(completion, completionRatio));
    var q := CompletionQuota(completion, completionRatio);
    SumIsExact(prompt, q);
    AddSameInt(prompt, q, Times(completion, completionRatio));
  }

  lemma {:induction false} AddSameInt(prompt: int, q: int, exact: real)
    requires Within(q as real, exact, 0.5)
    ensures Within((prompt + q) as real, prompt as real + exact, 0.5)
  {
  }

  lemma {:induction false} HalfMore(b: real, r: real)
    ensures (b + 0.5) * r == b * r + r / 2.0 && (b - 0.5) * r == b * r - r / 2.0
  {
  }

  lemma {:induction false} ScaledError(a: int, b: real, r: real)
    requires Within(a as real, b, 0.5) && r >= 0.0
    ensures Within(Times(a, r), Scaled(b, r), r / 2.0)
  {
    MulMonotone(a as real, b + 0.5, r);
    MulMonotone(b - 0.5, a as real, r);
    HalfMore(b, r);
  }

  lemma {:induction false} ExactNonNegative(prompt: int, completion: int, completionRatio: real)
    requires prompt >= 0 && completion >= 0 && completionRatio >= 0.0
    ensures Exact(prompt, completion, completionRatio) >= 0.0
  {
    MulMonotone(0.0, completion as real, completionRatio);
  }

  /** Half a unit from the last rounding, half a ratio carried over, and up to one unit from the minimum charge. */
  lemma {:induction false} ErrorBudget(scaled: real, exact: real, ratio: real)
    requires Fits(scaled) && Within(scaled, exact, ratio / 2.0) && exact >= 0.0 && ratio >= 0.0
    ensures Within(AtLeastOne(QuotaRound(scaled), ratio) as real, exact, ratio / 2.0 + 1.0)
  {
    FitsRound(scaled);
  }

  lemma {:induction false} ScaledNonNegative(v: real, ratio: real)
    requires v >= 0.0 && ratio >= 0.0
    ensures Scaled(v, ratio) >= 0.0
  {
  }

  lemma ScaledClose(tokens: int, exact: real, modelRatio: real)
    requires Within(tokens as real, exact, 0.5) && Fits(Times(tokens, modelRatio))
    requires modelRatio >= 0.0 && exact >= 0.0
    ensures Within(AtLeastOne(QuotaRound(Times(tokens, modelRatio)), modelRatio) as real,
                   Scaled(exact, modelRatio), modelRatio / 2.0 + 1.0)
  {
    ScaledNonNegative(exact, modelRatio);
    ScaledError(tokens, exact, modelRatio);
    ErrorBudget(Times(tokens, modelRatio), Scaled(exact, modelRatio), modelRatio);
  }

  /** The composed roundings stay within half a model ratio and one unit of the exact price. */
  lemma {:induction false} SettleClose(prompt: int, completion: int, completionRatio: real, modelRatio: real)
    requires prompt >= 0 && completion >= 0 && completionRatio >= 0.0 && modelRatio >= 0.0
    requires Unclamped(prompt, completion, completionRatio, modelRatio)
    ensures Within(SettlePerToken(prompt, completion, completionRatio, modelRatio) as real,
                   Scaled(Exact(prompt, completion, completionRatio), modelRatio), modelRatio / 2.0 + 1.0)
  {
    TokensClose(prompt, completion, completionRatio);
    ExactNonNegative(prompt, completion, completionRatio);
    ScaledClose(Tokens(prompt, completion, completionRatio), Exact(prompt, completion, completionRatio), modelRatio);
  }
}
