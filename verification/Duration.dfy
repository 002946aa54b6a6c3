/**
 Durations given in seconds as decimal text: parsed through a floating-point test and exact
 rational arithmetic to whole nanoseconds, and printed with up to three decimals.
 */
module Duration {
  import opened Results
  import opened Text

  const NANOS: int := 1_000_000_000
  const MAX_EXPONENT: int := 1_000_000

  /** Where the float parser's rounding turns a positive number into zero or into an error; the
      former is between ten to the minus 324 and a nanosecond. */
  datatype FloatRange = FloatRange(tiny: real, huge: real) {
    ghost predicate Valid() {
      Scaled(1, -324) <= tiny < 1.0 / NANOS as real && huge > MAX_INT64 as real
    }
  }

  /** A decimal numeral: sign, digits before and after the point, signed exponent digits. */
  datatype Numeral = Numeral(negative: bool, whole: string, frac: string, expNegative: bool, expDigits: string) {
    predicate Valid() {
      AllDigits(whole) && AllDigits(frac) && whole + frac != "" && AllDigits(expDigits)
    }

    function Mantissa(): nat
      requires Valid()
    {
      DigitsValue(whole + frac)
    }

    function Exponent(): int
      requires Valid()
    {
      if expNegative then -(DigitsValue(expDigits) as int) else DigitsValue(expDigits)
    }

    /** The power of ten the mantissa is scaled by. */
    function Scale(): int
      requires Valid()
    {
      Exponent() - |frac|
    }
  }

  /** m times ten to the e. */
  function Scaled(m: nat, e: int): real {
    if e >= 0 then (m * Pow10(e)) as real else m as real / Pow10(-e) as real
  }

  // ----- the text

  function StripSign(s: string): string {
    if s != "" && (s[0] == '+' || s[0] == '-') then s[1..] else s
  }

  predicate HasMinus(s: string) {
    s != "" && s[0] == '-'
  }

  function MarkerIndex(s: string): (i: nat)
    ensures i <= |s|
    ensures i < |s| ==> s[i] == 'e' || s[i] == 'E'
    ensures forall k | 0 <= k < i :: s[k] != 'e' && s[k] != 'E'
  {
    if s == "" || s[0] == 'e' || s[0] == 'E' then 0 else 1 + MarkerIndex(s[1..])
  }

  /** digits [. digits], with a digit somewhere. */
  function ParseMantissa(t: string): (r: Option<(string, string)>)
    ensures r.Some? ==> AllDigits(r.value.0) && AllDigits(r.value.1) && r.value.0 + r.value.1 != ""
  {
    var p := Index(t, '.');
    var whole, frac := t[..p], if p < |t| then t[p + 1..] else "";
    if whole + frac == "" || !AllDigits(whole) || !AllDigits(frac) then None else Some((whole, frac))
  }

  /** Nothing, or marker [sign] digits. */
  function ParseExponent(t: string): (r: Option<(bool, string)>)
    ensures r.Some? ==> AllDigits(r.value.1)
  {
    if t == "" then Some((false, ""))
    else if StripSign(t[1..]) == "" || !AllDigits(StripSign(t[1..])) then None
    else Some((HasMinus(t[1..]), StripSign(t[1..])))
  }

  /** [sign] mantissa [exponent]. */
  function ParseNumeral(s: string): (r: Option<Numeral>)
    ensures r.Some? ==> r.value.Valid()
  {
    var body := StripSign(s);
    var m := MarkerIndex(body);
    match ParseMantissa(body[..m])
    case None => None
    case Some((whole, frac)) =>
      match ParseExponent(body[m..])
      case None => None
      case Some((expNegative, expDigits)) => Some(Numeral(HasMinus(s), whole, frac, expNegative, expDigits))
  }

  // ----- which text spells which numeral

  predicate IsSign(s: string) {
    s == "" || s == "+" || s == "-"
  }

  /** Digits, point and decimals; the point may be left out when there are no decimals. */
  predicate IsMantissa(t: string, whole: string, frac: string, point: string) {
    && t == whole + point + frac && whole + frac != "" && AllDigits(whole) && AllDigits(frac)
    && (point == "." || (point == "" && frac == ""))
  }

  /** Marker, sign and digits, or none of them. */
  predicate IsExponent(t: string, negative: bool, digits: string, marker: string, sign: string) {
    && t == marker + (sign + digits) && AllDigits(digits) && IsSign(sign) && negative == (sign == "-")
    && if digits == "" then marker == sign == "" else marker == "e" || marker == "E"
  }

  /** s is a sign, a mantissa and an exponent with the parts of n, in that order. */
  predicate SpellsWith(s: string, n: Numeral, sign: string, mantissa: string, exponent: string, point: string,
                       marker: string, expSign: string) {
    && s == sign + (mantissa + exponent) && IsSign(sign) && n.negative == (sign == "-")
    && IsMantissa(mantissa, n.whole, n.frac, point)
    && IsExponent(exponent, n.expNegative, n.expDigits, marker, expSign)
  }

  ghost predicate Spells(s: string, n: Numeral) {
    exists sign, mantissa, exponent, point, marker, expSign ::
      SpellsWith(s, n, sign, mantissa, exponent, point, marker, expSign)
  }

  lemma SignStrips(sign: string, body: string)
    requires IsSign(sign) && body != "" && body[0] != '+' && body[0] != '-'
    ensures StripSign(sign + body) == body && HasMinus(sign + body) == (sign == "-")
  {
    if sign == "" {
      assert sign + body == body;
    }
  }

  lemma StrippedSign(s: string) returns (sign: string)
    ensures s == sign + StripSign(s) && IsSign(sign) && HasMinus(s) == (sign == "-")
  {
    sign := s[..|s| - |StripSign(s)|];
    if StripSign(s) != s {
      assert sign == [s[0]];
    }
  }

  /** What a mantissa looks like from outside. */
  lemma MantissaChars(t: string, whole: string, frac: string, point: string)
    requires IsMantissa(t, whole, frac, point)
    ensures t != "" && t[0] != '+' && t[0] != '-' && 'e' !in t && 'E' !in t
  {
    forall c | c in t
      ensures IsDigit(c) || c == '.'
    {
      assert c in whole || c == '.' || c in frac;
    }
    assert t[0] in t;
  }

  lemma MantissaParses(t: string, whole: string, frac: string, point: string)
    requires IsMantissa(t, whole, frac, point)
    ensures ParseMantissa(t) == Some((whole, frac))
  {
    forall k | 0 <= k < |whole|
      ensures t[k] != '.'
    {
      assert t[k] == whole[k] && whole[k] in whole;
    }
    if point == "." {
      assert t[|whole|] == '.' && t[|whole| + 1..] == frac;
    } else {
      assert t == whole;
    }
    assert Index(t, '.') == |whole| && t[..|whole|] == whole;
  }

  lemma MantissaParsed(t: string, whole: string, frac: string) returns (point: string)
    requires ParseMantissa(t) == Some((whole, frac))
    ensures IsMantissa(t, whole, frac, point)
  {
    point := if Index(t, '.') < |t| then "." else "";
  }

  lemma ExponentParses(t: string, negative: bool, digits: string, marker: string, sign: string)
    requires IsExponent(t, negative, digits, marker, sign)
    ensures ParseExponent(t) == Some((negative, digits))
    ensures t != "" ==> t[0] == 'e' || t[0] == 'E'
  {
    if digits != "" {
      assert t[1..] == sign + digits;
      assert digits[0] in digits;
      SignStrips(sign, digits);
    }
  }

  lemma ExponentParsed(t: string, negative: bool, digits: string) returns (marker: string, sign: string)
    requires ParseExponent(t) == Some((negative, digits)) && (t != "" ==> t[0] == 'e' || t[0] == 'E')
    ensures IsExponent(t, negative, digits, marker, sign)
  {
    if t == "" {
      marker, sign := "", "";
    } else {
      marker := t[..1];
      sign := StrippedSign(t[1..]);
      assert t == marker + t[1..];
    }
  }

  lemma MarkerAt(mantissa: string, rest: string)
    requires 'e' !in mantissa && 'E' !in mantissa && (rest != "" ==> rest[0] == 'e' || rest[0] == 'E')
    ensures var body := mantissa + rest;
            MarkerIndex(body) == |mantissa| && body[..|mantissa|] == mantissa && body[|mantissa|..] == rest
  {
    var body := mantissa + rest;
    forall k | 0 <= k < |mantissa|
      ensures body[k] != 'e' && body[k] != 'E'
    {
      assert body[k] in mantissa;
    }
    assert rest != "" ==> body[|mantissa|] == rest[0];
  }

  lemma SpeltParses(s: string, n: Numeral, sign: string, mantissa: string, exponent: string, point: string,
                    marker: string, expSign: string)
    requires SpellsWith(s, n, sign, mantissa, exponent, point, marker, expSign)
    ensures ParseNumeral(s) == Some(n)
  {
    MantissaChars(mantissa, n.whole, n.frac, point);
    MantissaParses(mantissa, n.whole, n.frac, point);
    ExponentParses(exponent, n.expNegative, n.expDigits, marker, expSign);
    MarkerAt(mantissa, exponent);
    SignStrips(sign, mantissa + exponent);
  }

  lemma JoinsUp(s: string, sign: string, body: string, m: nat)
    requires s == sign + body && m <= |body|
    ensures s == sign + (body[..m] + body[m..])
  {
    assert body == body[..m] + body[m..];
  }

  lemma SpelledBy(s: string, n: Numeral, sign: string, mantissa: string, exponent: string, point: string,
                  marker: string, expSign: string)
    requires s == sign + (mantissa + exponent) && IsSign(sign) && n.negative == (sign == "-")
    requires IsMantissa(mantissa, n.whole, n.frac, point)
    requires IsExponent(exponent, n.expNegative, n.expDigits, marker, expSign)
    ensures Spells(s, n)
  {
    assert SpellsWith(s, n, sign, mantissa, exponent, point, marker, expSign);
  }

  lemma ParsedIsSpelt(s: string, n: Numeral)
    requires ParseNumeral(s) == Some(n)
    ensures Spells(s, n)
  {
    var body := StripSign(s);
    var m := MarkerIndex(body);
    var sign := StrippedSign(s);
    var point := MantissaParsed(body[..m], n.whole, n.frac);
    var marker, expSign := ExponentParsed(body[m..], n.expNegative, n.expDigits);
    JoinsUp(s, sign, body, m);
    SpelledBy(s, n, sign, body[..m], body[m..], point, marker, expSign);
  }

  /** A text is read as a numeral exactly when it spells that numeral. */
  lemma NumeralSpelt(s: string, n: Numeral)
    ensures ParseNumeral(s) == Some(n) <==> Spells(s, n)
  {
    if ParseNumeral(s) == Some(n) {
      ParsedIsSpelt(s, n);
    }
    if sign, mantissa, exponent, point, marker, expSign :|
        SpellsWith(s, n, sign, mantissa, exponent, point, marker, expSign) {
      SpeltParses(s, n, sign, mantissa, exponent, point, marker, expSign);
    }
  }

  /** Text that starts with a digit or a point and ends with a digit is not trimmed. */
  lemma NumeralTrimmed(mantissa: string, exponent: string)
    requires mantissa != "" && (IsDigit(mantissa[0]) || mantissa[0] == '.')
    requires var s := mantissa + exponent; IsDigit(s[|s| - 1])
    ensures Trim(mantissa + exponent) == mantissa + exponent
  {
    TrimExact(mantissa + exponent);
  }

  // ----- the parser

  /** The float parser stops accumulating exponent digits at ten thousand. */
  function FloatExponent(digits: string): nat
    requires AllDigits(digits)
  {
    if digits == "" then 0
    else
      var e := FloatExponent(digits[..|digits| - 1]);
      if e < 10000 then 10 * e + DigitValue(digits[|digits| - 1]) else e
  }

  /** The float test: no range error, not zero after rounding, not negative. */
  predicate FloatAccepts(n: Numeral, floats: FloatRange)
    requires n.Valid()
  {
    var e := FloatExponent(n.expDigits) as int;
    var v := Scaled(n.Mantissa(), (if n.expNegative then -e else e) - |n.frac|);
    !n.negative && floats.tiny < v < floats.huge
  }

  /** The rational parser refuses scales beyond a million. */
  predicate RationalAccepts(n: Numeral)
    requires n.Valid()
  {
    -MAX_EXPONENT <= n.Scale() <= MAX_EXPONENT
  }

  function Numerator(n: Numeral): nat
    requires n.Valid()
  {
    if n.Scale() >= 0 then n.Mantissa() * Pow10(n.Scale()) else n.Mantissa()
  }

  function Denominator(n: Numeral): (d: nat)
    requires n.Valid()
    ensures d >= 1
  {
    if n.Scale() >= 0 then 1 else Pow10(-n.Scale())
  }

  function NumeralDuration(n: Numeral, floats: FloatRange): (r: Option<int>)
    requires n.Valid()
    ensures r.Some? ==> 1 <= r.value <= MAX_INT64
  {
    if !FloatAccepts(n, floats) || !RationalAccepts(n) || n.negative || Numerator(n) == 0 then None
    else
      var nanos := Numerator(n) * NANOS;
      if nanos > MAX_INT64 * Denominator(n) then None
      else
        var duration := nanos / Denominator(n);
        QuotientBound(nanos, Denominator(n), MAX_INT64);
        if duration <= 0 then None else Some(duration)
  }

  function ParseSeconds(raw: string, floats: FloatRange): (r: Option<int>)
    ensures r.Some? ==> 1 <= r.value <= MAX_INT64
  {
    match ParseNumeral(Trim(raw))
    case None => None
    case Some(n) => NumeralDuration(n, floats)
  }

  lemma QuotientBound(p: nat, q: nat, b: nat)
    requires q >= 1 && p <= b * q
    ensures p / q <= b
  {
    assert (p / q) * q <= p;
    CancelInt(p / q, b, q);
  }

  lemma CancelInt(a: int, b: int, q: int)
    requires q >= 1 && a * q <= b * q
    ensures a <= b
  {
    assert (b - a) * q >= 0;
  }

  lemma CancelReal(a: real, b: real, q: real)
    requires q > 0.0
    ensures a * q <= b * q <==> a <= b
    ensures a * q < b * q <==> a < b
  {
    var d := b - a;
    assert d * q == b * q - a * q;
    assert d > 0.0 ==> d * q > 0.0;
    assert d < 0.0 ==> d * q < 0.0;
  }

  // ----- exactness

  /** Integer division of numerator by denominator is the floor of the ratio, in whatever terms
      the ratio is written. */
  lemma QuotientIsFloor(p: nat, q: nat, r: real)
    requires q >= 1 && r * q as real == p as real
    ensures p / q == r.Floor
  {
    var k, rest := p / q, p % q;
    assert p == k * q + rest;
    var qr, kr := q as real, k as real;
    MulCast(k, q);
    assert (r - kr) * qr == rest as real;
    CancelReal(0.0, r - kr, qr);
    CancelReal(r - kr, 1.0, qr);
    assert kr <= r < kr + 1.0;
  }

  lemma MulCast(a: int, b: int)
    ensures (a * b) as real == a as real * b as real
  {
  }

  lemma RatioOfNumeral(n: Numeral)
    requires n.Valid()
    ensures Scaled(n.Mantissa(), n.Scale()) * Denominator(n) as real == Numerator(n) as real
  {
  }

  lemma {:induction false} FloatExponentExact(digits: string)
    requires AllDigits(digits) && DigitsValue(digits) <= 99999
    ensures FloatExponent(digits) == DigitsValue(digits)
  {
    if digits != "" {
      FloatExponentExact(digits[..|digits| - 1]);
    }
  }

  /** In seconds, in nanoseconds. */
  ghost function Seconds(n: Numeral): real
    requires n.Valid()
  {
    if n.negative then -Scaled(n.Mantissa(), n.Scale()) else Scaled(n.Mantissa(), n.Scale())
  }

  ghost predicate InRange(s: real) {
    1.0 <= s * 1_000_000_000.0 <= 9_223_372_036_854_775_807.0
  }

  /** Numerals both parsers read as written. */
  predicate Ordinary(n: Numeral)
    requires n.Valid()
  {
    DigitsValue(n.expDigits) <= 99999 && RationalAccepts(n)
  }

  /** Numerator and denominator of the nanoseconds. */
  lemma NanosRatio(n: Numeral)
    requires n.Valid()
    ensures (Scaled(n.Mantissa(), n.Scale()) * NANOS as real) * Denominator(n) as real == (Numerator(n) * NANOS) as real
  {
    RatioOfNumeral(n);
    MulCast(Numerator(n), NANOS);
  }

  lemma FloatSide(n: Numeral, floats: FloatRange)
    requires n.Valid() && floats.Valid() && Ordinary(n) && !n.negative && InRange(Scaled(n.Mantissa(), n.Scale()))
    ensures FloatAccepts(n, floats)
  {
    FloatExponentExact(n.expDigits);
    FloatTestIsWeaker(Scaled(n.Mantissa(), n.Scale()), floats);
  }

  /** What is accepted, for every numeral: a value in range that both parsers can read. */
  lemma NumeralExact(n: Numeral, floats: FloatRange)
    requires n.Valid()
    ensures NumeralDuration(n, floats)
         == if InRange(Seconds(n)) && RationalAccepts(n) && FloatAccepts(n, floats)
            then Some((Seconds(n) * NANOS as real).Floor) else None
  {
    ScaledNonNegative(n.Mantissa(), n.Scale());
    if !n.negative {
      NanosRatio(n);
      RangeOfRatio(Numerator(n) * NANOS, Denominator(n), Scaled(n.Mantissa(), n.Scale()) * NANOS as real);
    }
  }

  lemma ScaledNonNegative(m: nat, e: int)
    ensures Scaled(m, e) >= 0.0
  {
    if e < 0 {
      var v, d := Scaled(m, e), Pow10(-e) as real;
      assert v * d == m as real;
      CancelReal(0.0, v, d);
    }
  }

  lemma RangeOfRatio(p: nat, q: nat, r: real)
    requires q >= 1 && r * q as real == p as real
    ensures p > MAX_INT64 * q <==> r > MAX_INT64 as real
    ensures p / q <= 0 <==> r < 1.0
    ensures p / q == r.Floor
    ensures p == 0 ==> r < 1.0
  {
    QuotientIsFloor(p, q, r);
    OverBound(p, q, r, MAX_INT64);
    CancelReal(0.0, r, q as real);
  }

  lemma OverBound(p: nat, q: nat, r: real, b: nat)
    requires q >= 1 && r * q as real == p as real
    ensures p > b * q <==> r > b as real
  {
    MulCast(b, q);
    CancelReal(b as real, r, q as real);
    assert p > b * q <==> p as real > (b * q) as real;
  }

  lemma FloatTestIsWeaker(s: real, floats: FloatRange)
    requires floats.Valid() && InRange(s)
    ensures floats.tiny < s < floats.huge
  {
  }

  /** What is accepted, for every text: one that spells a numeral in range that both number
      parsers can read. */
  lemma TextExact(raw: string, floats: FloatRange)
    ensures forall n | Spells(Trim(raw), n) ::
              ParseSeconds(raw, floats)
                == if InRange(Seconds(n)) && RationalAccepts(n) && FloatAccepts(n, floats)
                   then Some((Seconds(n) * NANOS as real).Floor) else None
    ensures (forall n :: !Spells(Trim(raw), n)) ==> ParseSeconds(raw, floats) == None
  {
    forall n | Spells(Trim(raw), n)
      ensures n.Valid() && ParseSeconds(raw, floats) == NumeralDuration(n, floats)
      ensures NumeralDuration(n, floats)
           == if InRange(Seconds(n)) && RationalAccepts(n) && FloatAccepts(n, floats)
              then Some((Seconds(n) * NANOS as real).Floor) else None
    {
      NumeralSpelt(Trim(raw), n);
      NumeralExact(n, floats);
    }
    if ParseNumeral(Trim(raw)).Some? {
      NumeralSpelt(Trim(raw), ParseNumeral(Trim(raw)).value);
    }
  }

  /** Text that spells an ordinary numeral is accepted exactly when it denotes between one
      nanosecond and the largest duration, and then gives the whole nanoseconds in it. */
  lemma ParseSecondsExact(raw: string, n: Numeral, floats: FloatRange)
    requires floats.Valid() && Spells(Trim(raw), n) && Ordinary(n)
    ensures ParseSeconds(raw, floats)
         == if InRange(Seconds(n)) then Some((Seconds(n) * NANOS as real).Floor) else None
  {
    NumeralSpelt(Trim(raw), n);
    NumeralExact(n, floats);
    if InRange(Seconds(n)) {
      ScaledNonNegative(n.Mantissa(), n.Scale());
      FloatSide(n, floats);
    }
  }

  lemma SpeltDuration(raw: string, n: Numeral, d: nat, floats: FloatRange)
    requires floats.Valid() && Spells(Trim(raw), n) && n.Valid() && Ordinary(n)
    requires InRange(Seconds(n)) && Seconds(n) * NANOS as real == d as real
    ensures ParseSeconds(raw, floats) == Some(d)
  {
    ParseSecondsExact(raw, n, floats);
  }

  /** Text for a larger number never gives a shorter duration. */
  lemma ParseSecondsMonotone(rawA: string, a: Numeral, rawB: string, b: Numeral, floats: FloatRange)
    requires Spells(Trim(rawA), a) && Spells(Trim(rawB), b) && Seconds(a) <= Seconds(b)
    requires ParseSeconds(rawA, floats).Some? && ParseSeconds(rawB, floats).Some?
    ensures ParseSeconds(rawA, floats).value <= ParseSeconds(rawB, floats).value
  {
    TextExact(rawA, floats);
    TextExact(rawB, floats);
  }

  function Zeros(k: nat): (s: string)
    ensures AllDigits(s) && |s| == k
  {
    if k == 0 then "" else Zeros(k - 1) + "0"
  }

  lemma {:induction false} OneThenZeros(k: nat)
    ensures AllDigits("1" + Zeros(k)) && DigitsValue("1" + Zeros(k)) == Pow10(k)
  {
    if k == 0 {
      assert "1" + Zeros(0) == "1" && DigitsValue("1") == 10 * DigitsValue("") + 1;
    } else {
      OneThenZeros(k - 1);
      assert ("1" + Zeros(k))[..k] == "1" + Zeros(k - 1);
    }
  }

  /** An exponent of six digits or more loses at least its last one. */
  lemma {:induction false} FloatExponentCut(digits: string)
    requires AllDigits(digits)
    ensures FloatExponent(digits) <= DigitsValue(digits)
    ensures DigitsValue(digits) >= 100000 ==> FloatExponent(digits) <= DigitsValue(digits) / 10
  {
    if digits != "" {
      var front := digits[..|digits| - 1];
      FloatExponentCut(front);
      assert digits[|digits| - 1] in digits;
      if DigitsValue(front) <= 99999 {
        FloatExponentExact(front);
      }
    }
  }

  lemma {:induction false} Pow10Grows(a: nat, b: nat)
    requires a <= b
    ensures Pow10(a) <= Pow10(b)
    decreases b
  {
    if a < b {
      Pow10Grows(a, b - 1);
    }
  }

  /** A smaller power of ten is a smaller number. */
  lemma SmallPower(e: int, m: int)
    requires e <= m < 0
    ensures Scaled(1, e) <= Scaled(1, m)
  {
    var p, q := Pow10(-m) as real, Pow10(-e) as real;
    Pow10Grows(-m, -e);
    assert Scaled(1, m) * p == 1.0 && Scaled(1, e) * q == 1.0;
    ReciprocalOrder(Scaled(1, e), q, Scaled(1, m), p);
  }

  lemma ReciprocalOrder(x: real, q: real, y: real, p: real)
    requires 0.0 < p <= q && x * q == 1.0 && y * p == 1.0
    ensures x <= y
  {
    CancelReal(0.0, x, q);
    assert x * p <= x * q by { CancelReal(p, q, x); }
    CancelReal(x, y, p);
  }

  lemma {:induction false} ZerosAreWorthless(k: nat)
    ensures DigitsValue(Zeros(k)) == 0
  {
    if k > 0 {
      ZerosAreWorthless(k - 1);
      assert Zeros(k)[..k - 1] == Zeros(k - 1);
    }
  }

  /** Ten to the minus k, written out, times ten to the k. */
  function OneSecondLong(k: nat): Numeral
    requires k > 0
  {
    Numeral(false, "", Zeros(k - 1) + "1", false, Itoa(k))
  }

  lemma OneSecondLongIsOne(k: nat)
    requires k > 0
    ensures var n := OneSecondLong(k);
            n.Valid() && n.Mantissa() == 1 && |n.frac| == k && n.Scale() == 0 && Seconds(n) == 1.0
  {
    var n := OneSecondLong(k);
    ZerosAreWorthless(k - 1);
    ItoaValue(k);
    assert n.whole + n.frac == n.frac && n.frac[..k - 1] == Zeros(k - 1);
    assert Scaled(1, 0) == 1.0;
  }

  /** The text for it. */
  function LongExponentText(k: nat): string
    requires k > 0
  {
    "." + (Zeros(k - 1) + "1") + ("e" + Itoa(k))
  }

  lemma LongExponentSpelt(k: nat)
    requires k > 0
    ensures Spells(Trim(LongExponentText(k)), OneSecondLong(k))
  {
    var n, digits := OneSecondLong(k), Itoa(k);
    var mantissa, exponent := "." + n.frac, "e" + digits;
    assert exponent[|exponent| - 1] == digits[|digits| - 1] && digits[|digits| - 1] in digits;
    assert digits != "" && n.frac != "";
    NumeralTrimmed(mantissa, exponent);
    assert mantissa == "" + "." + n.frac && "" + n.frac == n.frac && exponent == "e" + ("" + digits);
    assert LongExponentText(k) == "" + (mantissa + exponent);
    SpelledBy(LongExponentText(k), n, "", mantissa, exponent, ".", "e", "");
  }

  lemma LongExponentUnread(k: nat, floats: FloatRange)
    requires k >= 100000 && floats.Valid()
    ensures !FloatAccepts(OneSecondLong(k), floats)
  {
    var n := OneSecondLong(k);
    OneSecondLongIsOne(k);
    ItoaValue(k);
    FloatExponentCut(n.expDigits);
    SmallPower(FloatExponent(n.expDigits) - k, -324);
  }

  /** Range alone does not decide: one second, written with k decimals and an exponent to match,
      is read as one second up to 99999 decimals, and from a hundred thousand on is refused,
      because the float parser cuts the exponent short. */
  lemma LongExponentExactly(k: nat, floats: FloatRange)
    requires k > 0 && floats.Valid()
    ensures var n := OneSecondLong(k);
            Spells(Trim(LongExponentText(k)), n) && n.Valid() && Seconds(n) == 1.0 && InRange(1.0)
    ensures ParseSeconds(LongExponentText(k), floats) == if k <= 99999 then Some(1_000_000_000) else None
  {
    var n := OneSecondLong(k);
    OneSecondLongIsOne(k);
    LongExponentSpelt(k);
    if k <= 99999 {
      ItoaValue(k);
      SpeltDuration(LongExponentText(k), n, 1_000_000_000, floats);
    } else {
      LongExponentUnread(k, floats);
      NumeralSpelt(Trim(LongExponentText(k)), n);
    }
  }

  /** One second with k decimals, all zero. */
  function LongNumeral(k: nat): Numeral {
    Numeral(false, "1", Zeros(k), false, "")
  }

  lemma LongNumeralIsOne(k: nat)
    ensures var n := LongNumeral(k);
            n.Valid() && Seconds(n) == 1.0 && InRange(1.0) && n.Scale() == 0 - k
  {
    var n := LongNumeral(k);
    OneThenZeros(k);
    assert n.Mantissa() == Pow10(k) && n.Scale() == 0 - k;
    ScaledOne(k);
  }

  function LongNumeralText(k: nat): string {
    "1." + Zeros(k)
  }

  lemma LongNumeralSpelt(k: nat)
    requires k > 0
    ensures Spells(Trim(LongNumeralText(k)), LongNumeral(k))
  {
    assert LongNumeralText(k) == "1" + "." + Zeros(k);
    PlainSpelt("1", Zeros(k), LongNumeralText(k));
  }

  /** One second with k zeros behind the point is read as one second up to a million of them, and
      refused from there on, because the rational parser caps its exponent. */
  lemma LongNumeralExactly(k: nat, floats: FloatRange)
    requires k > 0 && floats.Valid()
    ensures var n := LongNumeral(k);
            Spells(Trim(LongNumeralText(k)), n) && n.Valid() && Seconds(n) == 1.0 && InRange(1.0)
    ensures ParseSeconds(LongNumeralText(k), floats) == if k <= 1_000_000 then Some(1_000_000_000) else None
  {
    LongNumeralIsOne(k);
    LongNumeralSpelt(k);
    if k <= 1_000_000 {
      SpeltDuration(LongNumeralText(k), LongNumeral(k), 1_000_000_000, floats);
    } else {
      NumeralSpelt(Trim(LongNumeralText(k)), LongNumeral(k));
    }
  }

  lemma ScaledOne(k: nat)
    ensures Scaled(Pow10(k), 0 - k) == 1.0
  {
    Itself(Pow10(k) as real);
  }

  lemma Itself(p: real)
    requires p > 0.0
    ensures p / p == 1.0
  {
  }

  // ----- every duration can be given

  /** A duration in nanoseconds, with the exponent that makes it seconds. */
  function NanosText(ns: nat): (s: string)
    ensures s != ""
  {
    Itoa(ns) + "e-9"
  }

  /** The numeral it spells. */
  function NanosNumeral(ns: nat): Numeral {
    Numeral(false, Itoa(ns), "", true, "9")
  }

  lemma NanosSpelt(ns: nat)
    ensures Spells(Trim(NanosText(ns)), NanosNumeral(ns))
  {
    var w, n, e := Itoa(ns), NanosNumeral(ns), "e-9";
    assert w[0] in w && (w + e)[|w + e| - 1] == e[2];
    NumeralTrimmed(w, e);
    assert IsMantissa(w, w, "", "") by {
      assert w == w + "" + "";
    }
    assert IsExponent(e, true, "9", "e", "-") by {
      assert e == "e" + ("-" + "9");
    }
    assert w + e == "" + (w + e);
    SpelledBy(w + e, n, "", w, e, "", "e", "-");
  }

  lemma NanosValue(ns: nat)
    requires 1 <= ns <= MAX_INT64
    ensures var n := NanosNumeral(ns);
            n.Valid() && Ordinary(n) && InRange(Seconds(n)) && Seconds(n) * NANOS as real == ns as real
  {
    var n := NanosNumeral(ns);
    ItoaValue(ns);
    assert n.whole + n.frac == Itoa(ns);
    assert DigitsValue("9") == 10 * DigitsValue("") + 9;
    BillionthsOf(ns);
  }

  /** Every duration up to the largest is the reading of some text. */
  lemma EveryDurationGiven(ns: nat, floats: FloatRange)
    requires floats.Valid() && 1 <= ns <= MAX_INT64
    ensures ParseSeconds(NanosText(ns), floats) == Some(ns)
  {
    NanosValue(ns);
    NanosSpelt(ns);
    SpeltDuration(NanosText(ns), NanosNumeral(ns), ns, floats);
  }

  lemma BillionthsOf(ns: nat)
    ensures Scaled(ns, -9) * NANOS as real == ns as real
  {
    SmallPowers();
    assert Pow10(6) == 10 * (10 * (10 * Pow10(3)));
    assert Pow10(9) == 10 * (10 * (10 * Pow10(6)));
  }

  // ----- printing

  function TrimRightChar(s: string, c: char): string {
    if s != "" && s[|s| - 1] == c then TrimRightChar(s[..|s| - 1], c) else s
  }

  /** A whole number of milliseconds in seconds to three places, without trailing zeros or a
      trailing point. */
  function FormatProbeTimeout(ms: nat): string {
    var formatted := Itoa(ms / 1000) + "." + [Tenths(ms), Hundredths(ms), Thousandths(ms)];
    TrimRightChar(TrimRightChar(formatted, '0'), '.')
  }

  function Tenths(ms: nat): char {
    DigitChar(ms % 1000 / 100)
  }

  function Hundredths(ms: nat): char {
    DigitChar(ms % 1000 % 100 / 10)
  }

  function Thousandths(ms: nat): char {
    DigitChar(ms % 1000 % 100 % 10)
  }

  /** The decimals left after trimming. */
  function Significant(a: char, b: char, c: char): string {
    if c != '0' then [a, b, c] else if b != '0' then [a, b] else if a != '0' then [a] else ""
  }

  function Decimals(ms: nat): string {
    Significant(Tenths(ms), Hundredths(ms), Thousandths(ms))
  }

  lemma TrimOne(s: string, d: char, c: char)
    ensures TrimRightChar(s + [d], c) == if d == c then TrimRightChar(s, c) else s + [d]
  {
    assert (s + [d])[..|s|] == s;
  }

  lemma TrimZeros(point: string, a: char, b: char, c: char)
    requires TrimRightChar(point, '0') == point
    ensures TrimRightChar(point + [a, b, c], '0') == point + Significant(a, b, c)
  {
    assert point + [a, b, c] == ((point + [a]) + [b]) + [c];
    assert point + [a, b] == (point + [a]) + [b];
    assert point + "" == point;
    TrimOne((point + [a]) + [b], c, '0');
    TrimOne(point + [a], b, '0');
    TrimOne(point, a, '0');
  }

  lemma TrimPoint(w: string, f: string)
    requires w != "" && w[|w| - 1] != '.' && (f != "" ==> f[|f| - 1] != '.')
    ensures TrimRightChar(w + "." + f, '.') == if f == "" then w else w + "." + f
  {
    var text := w + "." + f;
    if f == "" {
      assert text == w + ".";
      TrimOne(w, '.', '.');
    } else {
      assert text[|text| - 1] == f[|f| - 1];
    }
  }

  lemma FormatShape(ms: nat)
    ensures FormatProbeTimeout(ms)
         == if Decimals(ms) == "" then Itoa(ms / 1000) else Itoa(ms / 1000) + "." + Decimals(ms)
  {
    var w := Itoa(ms / 1000);
    assert w[|w| - 1] in w;
    TrimOne(w, '.', '0');
    TrimZeros(w + ".", Tenths(ms), Hundredths(ms), Thousandths(ms));
    TrimPoint(w, Decimals(ms));
  }

  /** What is printed has at most three decimals, none of them a trailing zero, and no point
      without decimals. */
  lemma FormatIsShort(ms: nat)
    ensures var text, w := FormatProbeTimeout(ms), Itoa(ms / 1000);
            text == w || exists f :: text == w + "." + f && 1 <= |f| <= 3 && AllDigits(f) && f[|f| - 1] != '0'
  {
    FormatShape(ms);
    DecimalsValue(ms);
  }

  lemma ThousandDigits(ms: nat)
    ensures ms % 1000 == 100 * (ms % 1000 / 100) + 10 * (ms % 1000 % 100 / 10) + ms % 1000 % 100 % 10
  {
  }

  lemma SignificantValue(a: char, b: char, c: char)
    requires IsDigit(a) && IsDigit(b) && IsDigit(c)
    ensures var f := Significant(a, b, c);
            && AllDigits(f) && |f| <= 3
            && DigitsValue(f) * Pow10(3 - |f|) == 100 * DigitValue(a) + 10 * DigitValue(b) + DigitValue(c)
  {
    SmallPowers();
    assert [a][..0] == "" && [a, b][..1] == [a] && [a, b, c][..2] == [a, b];
    assert DigitsValue([a]) == 10 * DigitsValue("") + DigitValue(a);
    assert DigitsValue([a, b]) == 10 * DigitsValue([a]) + DigitValue(b);
    assert DigitsValue([a, b, c]) == 10 * DigitsValue([a, b]) + DigitValue(c);
  }

  lemma SmallPowers()
    ensures Pow10(0) == 1 && Pow10(1) == 10 && Pow10(2) == 100 && Pow10(3) == 1000
  {
    assert Pow10(2) == 10 * Pow10(1);
    assert Pow10(3) == 10 * Pow10(2);
  }

  lemma DecimalsValue(ms: nat)
    ensures AllDigits(Decimals(ms)) && |Decimals(ms)| <= 3
    ensures DigitsValue(Decimals(ms)) * Pow10(3 - |Decimals(ms)|) == ms % 1000
  {
    SignificantValue(Tenths(ms), Hundredths(ms), Thousandths(ms));
    ThousandDigits(ms);
  }

  lemma PlainTrimmed(w: string, f: string, text: string)
    requires w != "" && AllDigits(w) && AllDigits(f) && text == if f == "" then w else w + "." + f
    ensures Trim(text) == text
  {
    var first, last := w[0], if f == "" then w[|w| - 1] else f[|f| - 1];
    assert first in w && (last in w || last in f);
    assert text[0] == first && text[|text| - 1] == last;
    TrimExact(text);
  }

  /** A mantissa alone spells its numeral. */
  lemma WithoutExponent(t: string, n: Numeral, point: string)
    requires IsMantissa(t, n.whole, n.frac, point) && !n.negative && !n.expNegative && n.expDigits == ""
    ensures Spells(t, n)
  {
    var none: string := "";
    assert t == none + (t + none) && none == none + (none + n.expDigits);
    SpelledBy(t, n, none, t, none, point, none, none);
  }

  /** Plain digits with an optional point are spelt as written. */
  lemma PlainSpelt(w: string, f: string, text: string)
    requires w != "" && AllDigits(w) && AllDigits(f) && text == if f == "" then w else w + "." + f
    ensures Spells(Trim(text), Numeral(false, w, f, false, ""))
  {
    var point := if f == "" then "" else ".";
    PlainTrimmed(w, f, text);
    assert IsMantissa(text, w, f, point) by {
      assert text == w + point + f;
    }
    WithoutExponent(text, Numeral(false, w, f, false, ""), point);
  }

  /** The numeral a duration is printed as. */
  function Printed(ms: nat): Numeral {
    Numeral(false, Itoa(ms / 1000), Decimals(ms), false, "")
  }

  lemma PrintedValue(ms: nat)
    requires 1 <= ms && ms * 1_000_000 <= MAX_INT64
    ensures var n := Printed(ms);
            n.Valid() && Ordinary(n) && InRange(Seconds(n)) && Seconds(n) * NANOS as real == (ms * 1_000_000) as real
  {
    var n := Printed(ms);
    DecimalsValue(ms);
    ItoaValue(ms / 1000);
    DigitsConcat(n.whole, n.frac);
    MillisOf(n, ms);
  }

  lemma PrintedSpelt(ms: nat)
    ensures Spells(Trim(FormatProbeTimeout(ms)), Printed(ms))
  {
    FormatShape(ms);
    DecimalsValue(ms);
    PlainSpelt(Itoa(ms / 1000), Decimals(ms), FormatProbeTimeout(ms));
  }

  /** Printing and parsing back: every positive whole-millisecond duration survives. */
  lemma FormatRoundTrip(ms: nat, floats: FloatRange)
    requires floats.Valid() && 1 <= ms && ms * 1_000_000 <= MAX_INT64
    ensures ParseSeconds(FormatProbeTimeout(ms), floats) == Some(ms * 1_000_000)
  {
    PrintedValue(ms);
    PrintedSpelt(ms);
    SpeltDuration(FormatProbeTimeout(ms), Printed(ms), ms * 1_000_000, floats);
  }

  lemma MillisOf(n: Numeral, ms: nat)
    requires n.Valid() && !n.negative && n.expDigits == "" && |n.frac| <= 3
    requires n.Mantissa() == (ms / 1000) * Pow10(|n.frac|) + DigitsValue(n.frac)
    requires DigitsValue(n.frac) * Pow10(3 - |n.frac|) == ms % 1000
    ensures Seconds(n) * NANOS as real == (ms * 1_000_000) as real
  {
    SmallPowers();
    var f := |n.frac|;
    assert n.Mantissa() * Pow10(3 - f) == ms;
  }
}
