/**
 The string operations the front end relies on: trimming, searching, decimal integers. Text is
 a sequence of Unicode characters.
 */
module Text {
  import opened Results

  const MAX_INT64: int := 0x7FFF_FFFF_FFFF_FFFF

  // ----- trimming

  /** The characters with the Unicode White_Space property. */
  predicate IsSpace(c: char) {
    || c in {' ', '\t', '\n', '\U{0B}', '\U{0C}', '\r', '\U{85}', '\U{A0}', '\U{1680}'}
    || '\U{2000}' <= c <= '\U{200A}'
    || c in {'\U{2028}', '\U{2029}', '\U{202F}', '\U{205F}', '\U{3000}'}
  }

  /** By code point. */
  lemma SpaceCodePoints(c: char)
    ensures var n := c as int;
            IsSpace(c) <==> || 9 <= n <= 13 || n == 32 || n == 133 || n == 160 || n == 5760 || 8192 <= n <= 8202
                            || n == 8232 || n == 8233 || n == 8239 || n == 8287 || n == 12288
  {
  }

  function TrimLeft(s: string): (r: string)
    ensures |r| <= |s|
  {
    if s != "" && IsSpace(s[0]) then TrimLeft(s[1..]) else s
  }

  function TrimRight(s: string): (r: string)
    ensures |r| <= |s|
  {
    if s != "" && IsSpace(s[|s| - 1]) then TrimRight(s[..|s| - 1]) else s
  }

  function Trim(s: string): string {
    TrimLeft(TrimRight(s))
  }

  /** No white space at either end. */
  predicate Trimmed(s: string) {
    s == "" || (!IsSpace(s[0]) && !IsSpace(s[|s| - 1]))
  }

  lemma {:induction false} TrimLeftSuffix(s: string)
    ensures TrimLeft(s) == s[|s| - |TrimLeft(s)|..]
    ensures TrimLeft(s) != "" ==> !IsSpace(TrimLeft(s)[0])
  {
    if s != "" && IsSpace(s[0]) {
      TrimLeftSuffix(s[1..]);
    }
  }

  lemma {:induction false} TrimRightPrefix(s: string)
    ensures TrimRight(s) == s[..|TrimRight(s)|]
    ensures TrimRight(s) != "" ==> !IsSpace(TrimRight(s)[|TrimRight(s)| - 1])
  {
    if s != "" && IsSpace(s[|s| - 1]) {
      TrimRightPrefix(s[..|s| - 1]);
    }
  }

  /** Trimming yields trimmed text and leaves exactly the trimmed texts alone. */
  lemma TrimExact(s: string)
    ensures Trimmed(Trim(s))
    ensures Trim(s) == s <==> Trimmed(s)
  {
    TrimRightPrefix(s);
    TrimLeftSuffix(TrimRight(s));
    if Trimmed(s) {
      assert TrimRight(s) == s;
    }
  }

  /** What is left was there before, and only white space is lost. */
  lemma {:induction false} TrimLeftKeeps(s: string, c: char)
    ensures c in TrimLeft(s) ==> c in s
    ensures c in s && !IsSpace(c) ==> c in TrimLeft(s)
  {
    if s != "" && IsSpace(s[0]) {
      assert s == [s[0]] + s[1..];
      TrimLeftKeeps(s[1..], c);
    }
  }

  lemma {:induction false} TrimRightKeeps(s: string, c: char)
    ensures c in TrimRight(s) ==> c in s
    ensures c in s && !IsSpace(c) ==> c in TrimRight(s)
  {
    if s != "" && IsSpace(s[|s| - 1]) {
      assert s == s[..|s| - 1] + [s[|s| - 1]];
      TrimRightKeeps(s[..|s| - 1], c);
    }
  }

  lemma TrimKeeps(s: string, c: char)
    ensures c in Trim(s) ==> c in s
    ensures c in s && !IsSpace(c) ==> c in Trim(s)
  {
    TrimRightKeeps(s, c);
    TrimLeftKeeps(TrimRight(s), c);
  }

  // ----- searching

  function Count(s: string, c: char): nat {
    if s == "" then 0 else (if s[0] == c then 1 else 0) + Count(s[1..], c)
  }

  /** Position of the first c, or the length when there is none. */
  function Index(s: string, c: char): (i: nat)
    ensures i <= |s|
    ensures i < |s| ==> s[i] == c
    ensures forall k | 0 <= k < i :: s[k] != c
  {
    if s == "" || s[0] == c then 0 else 1 + Index(s[1..], c)
  }

  /** Position of the last c, or the length when there is none. */
  function LastIndex(s: string, c: char): (i: nat)
    ensures i <= |s|
    ensures i < |s| ==> s[i] == c && forall k | i < k < |s| :: s[k] != c
    ensures i == |s| ==> c !in s
  {
    if s == "" then 0
    else if s[|s| - 1] == c then |s| - 1
    else
      var front := s[..|s| - 1];
      var i := LastIndex(front, c);
      assert s == front + [s[|s| - 1]];
      if i == |front| then |s| else i
  }

  lemma {:induction false} CountConcat(s: string, t: string, c: char)
    ensures Count(s + t, c) == Count(s, c) + Count(t, c)
  {
    if s == "" {
      assert s + t == t;
    } else {
      CountConcat(s[1..], t, c);
      assert (s + t)[1..] == s[1..] + t;
    }
  }

  lemma {:induction false} CountNone(s: string, c: char)
    ensures Count(s, c) == 0 <==> c !in s
  {
    if s != "" {
      CountNone(s[1..], c);
    }
  }

  // ----- decimal integers

  predicate IsDigit(c: char) {
    '0' <= c <= '9'
  }

  predicate AllDigits(s: string) {
    forall c | c in s :: IsDigit(c)
  }

  function DigitValue(c: char): nat
    requires IsDigit(c)
  {
    c as int - '0' as int
  }

  function DigitChar(n: nat): (c: char)
    requires n < 10
    ensures IsDigit(c) && DigitValue(c) == n
  {
    ('0' as int + n) as char
  }

  function DigitsValue(s: string): nat
    requires AllDigits(s)
  {
    if s == "" then 0 else 10 * DigitsValue(s[..|s| - 1]) + DigitValue(s[|s| - 1])
  }

  function Pow10(n: nat): (p: nat)
    ensures p >= 1
  {
    if n == 0 then 1 else 10 * Pow10(n - 1)
  }

  /** The sum of the digits times their powers of ten. */
  function PlaceValue(s: string): nat
    requires AllDigits(s)
  {
    if s == "" then 0 else DigitValue(s[0]) * Pow10(|s| - 1) + PlaceValue(s[1..])
  }

  lemma {:induction false} DigitsConcat(s: string, t: string)
    requires AllDigits(s) && AllDigits(t)
    ensures AllDigits(s + t) && DigitsValue(s + t) == DigitsValue(s) * Pow10(|t|) + DigitsValue(t)
  {
    if t == "" {
      assert s + t == s;
    } else {
      var front := t[..|t| - 1];
      DigitsConcat(s, front);
      assert (s + t)[..|s + t| - 1] == s + front;
      TenTimes(DigitsValue(s), Pow10(|front|), DigitsValue(front));
    }
  }

  lemma TenTimes(a: nat, p: nat, b: nat)
    ensures 10 * (a * p + b) == a * (10 * p) + 10 * b
  {
  }

  /** Reading digit by digit computes the place value. */
  lemma {:induction false} DigitsAreWorth(s: string)
    requires AllDigits(s)
    ensures DigitsValue(s) == PlaceValue(s)
  {
    if s != "" {
      DigitsAreWorth(s[1..]);
      assert s == [s[0]] + s[1..];
      DigitsConcat([s[0]], s[1..]);
      assert DigitsValue([s[0]]) == 10 * DigitsValue("") + DigitValue(s[0]);
    }
  }

  function Itoa(n: nat): (s: string)
    ensures s != "" && AllDigits(s)
  {
    if n < 10 then [DigitChar(n)] else Itoa(n / 10) + [DigitChar(n % 10)]
  }

  lemma {:induction false} ItoaValue(n: nat)
    ensures DigitsValue(Itoa(n)) == n
  {
    if n < 10 {
      assert DigitsValue([DigitChar(n)]) == 10 * DigitsValue([]) + n;
    } else {
      ItoaValue(n / 10);
      assert Itoa(n)[..|Itoa(n)| - 1] == Itoa(n / 10);
    }
  }

  /** A decimal integer with an optional sign, within 64 bits. */
  function Atoi(s: string): Option<int> {
    var signed := s != "" && (s[0] == '+' || s[0] == '-');
    var body := if signed then s[1..] else s;
    if body == "" || !AllDigits(body) then None
    else
      var magnitude: int := DigitsValue(body);
      var n := if signed && s[0] == '-' then -magnitude else magnitude;
      if FitsInt64(n) then Some(n) else None
  }

  lemma AtoiOfItoa(n: nat)
    requires n <= MAX_INT64
    ensures Atoi(Itoa(n)) == Some(n)
  {
    ItoaValue(n);
    assert Itoa(n)[0] in Itoa(n);
  }

  predicate DecimalWith(s: string, n: int, digits: string) {
    && digits != "" && AllDigits(digits)
    && (|| ((s == digits || s == "+" + digits) && n == PlaceValue(digits))
        || (s == "-" + digits && -n == PlaceValue(digits)))
  }

  /** s is n in decimal: digits worth n, after an optional sign. */
  ghost predicate IsDecimal(s: string, n: int) {
    exists digits :: DecimalWith(s, n, digits)
  }

  predicate FitsInt64(n: int) {
    -MAX_INT64 - 1 <= n <= MAX_INT64
  }

  lemma AtoiReads(s: string, n: int)
    requires Atoi(s) == Some(n)
    ensures IsDecimal(s, n) && FitsInt64(n)
  {
    var signed := s != "" && (s[0] == '+' || s[0] == '-');
    var digits := if signed then s[1..] else s;
    DigitsAreWorth(digits);
    assert signed ==> s == [s[0]] + digits;
    assert DecimalWith(s, n, digits);
  }

  lemma AtoiAccepts(s: string, n: int)
    requires IsDecimal(s, n) && FitsInt64(n)
    ensures Atoi(s) == Some(n)
  {
    var digits :| DecimalWith(s, n, digits);
    DigitsAreWorth(digits);
    assert digits[0] in digits;
    if s != digits {
      assert s[1..] == digits;
    }
  }

  /** The integer parser accepts exactly the decimal numerals within 64 bits, as their value. */
  lemma AtoiExact(s: string, n: int)
    ensures Atoi(s) == Some(n)
       <==> IsDecimal(s, n) && -0x8000_0000_0000_0000 <= n <= 0x7FFF_FFFF_FFFF_FFFF
  {
    if Atoi(s) == Some(n) {
      AtoiReads(s, n);
    }
    if IsDecimal(s, n) && FitsInt64(n) {
      AtoiAccepts(s, n);
    }
  }

  /** The decimal form of an integer, as strconv.Itoa prints it. */
  function FormatInt(n: int): (s: string)
    ensures s != ""
  {
    if n < 0 then "-" + Itoa(-n) else Itoa(n)
  }

  /** A minus sign for negative numbers only, and no leading zeros. */
  lemma FormatIntCanonical(n: int)
    ensures var s, digits := FormatInt(n), Itoa(if n < 0 then -n else n);
            s == (if n < 0 then "-" + digits else digits) && (digits[0] == '0' ==> digits == "0" && n == 0)
  {
    NoLeadingZero(if n < 0 then -n else n);
  }

  lemma {:induction false} NoLeadingZero(n: nat)
    ensures Itoa(n)[0] == '0' ==> Itoa(n) == "0" && n == 0
  {
    if n >= 10 {
      NoLeadingZero(n / 10);
    }
  }

  lemma AtoiOfFormatInt(n: int)
    requires FitsInt64(n)
    ensures Atoi(FormatInt(n)) == Some(n)
  {
    if n >= 0 {
      AtoiOfItoa(n);
    } else {
      ItoaValue(-n);
      assert FormatInt(n)[1..] == Itoa(-n);
    }
  }

  // ----- size in bytes

  /** Length of the UTF-8 encoding. */
  function ByteLength(s: string): nat {
    if s == "" then 0
    else ByteLength(s[1..]) +
         if s[0] < '\U{80}' then 1 else if s[0] < '\U{800}' then 2 else if s[0] < '\U{10000}' then 3 else 4
  }

  /** A character takes the fewest bytes whose payload, of 7, 11, 16 and 21 bits (section 3 of
      RFC 3629), holds its code point; texts add up. */
  lemma {:induction false} ByteLengthExact(s: string, c: char)
    ensures ByteLength([c]) == 1 <==> (c as int) < 0x80
    ensures ByteLength([c]) == 2 <==> 0x80 <= c as int < 0x800
    ensures ByteLength([c]) == 3 <==> 0x800 <= c as int < 0x1_0000
    ensures ByteLength([c]) == 4 <==> 0x1_0000 <= c as int
    ensures ByteLength(s + [c]) == ByteLength(s) + ByteLength([c])
  {
    assert ByteLength("") == 0 && [c][1..] == "";
    if s == "" {
      assert s + [c] == [c];
    } else {
      ByteLengthExact(s[1..], c);
      assert (s + [c])[1..] == s[1..] + [c];
    }
  }
}
