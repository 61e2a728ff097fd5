/**
  The two decimal conversions the codec relies on: `strconv.Atoi`, which
  reads every numeric part of the leader and the directory, and the
  zero-padded `fmt.Sprintf("%0Nd", n)` the assembler writes them with.
 */
module Decimal {
  import opened MarcTypes

  predicate IsDigit(c: Byte) {
    '0' <= c <= '9'
  }

  predicate AllDigits(s: Bytes) {
    forall i | 0 <= i < |s| :: IsDigit(s[i])
  }

  function DigitValue(c: Byte): nat
    requires IsDigit(c)
  {
    c as int - '0' as int
  }

  function DigitChar(d: nat): (c: Byte)
    requires d < 10
    ensures IsDigit(c) && DigitValue(c) == d
  {
    (d + '0' as int) as char
  }

  /** The value of a string of decimal digits, most significant first. */
  function DigitsValue(s: Bytes): nat
    requires AllDigits(s)
  {
    if |s| == 0 then 0 else DigitsValue(s[..|s| - 1]) * 10 + DigitValue(s[|s| - 1])
  }

  function Pow10(k: nat): (p: nat)
    ensures p >= 1
  {
    if k == 0 then 1 else 10 * Pow10(k - 1)
  }

  lemma {:induction false} Pow10Monotone(j: nat, k: nat)
    requires j <= k
    ensures Pow10(j) <= Pow10(k)
  {
    if j < k {
      Pow10Monotone(j, k - 1);
    }
  }

  lemma Pow10Eighteen()
    ensures Pow10(18) == 1_000_000_000_000_000_000
  {
    assert Pow10(1) == 10;
    assert Pow10(2) == 100;
    assert Pow10(3) == 1000;
    assert Pow10(4) == 10000;
    assert Pow10(5) == 100000;
    assert Pow10(6) == 1000000;
    assert Pow10(7) == 10000000;
    assert Pow10(8) == 100000000;
    assert Pow10(9) == 1000000000;
    assert Pow10(10) == 10000000000;
    assert Pow10(11) == 100000000000;
    assert Pow10(12) == 1000000000000;
    assert Pow10(13) == 10000000000000;
    assert Pow10(14) == 100000000000000;
    assert Pow10(15) == 1000000000000000;
    assert Pow10(16) == 10000000000000000;
    assert Pow10(17) == 100000000000000000;
    assert Pow10(18) == 1000000000000000000;
  }

  /** `k` digits never denote a value of `10^k` or more. */
  lemma {:induction false} DigitsValueBound(s: Bytes)
    requires AllDigits(s)
    ensures DigitsValue(s) < Pow10(|s|)
  {
    if |s| > 0 {
      DigitsValueBound(s[..|s| - 1]);
    }
  }

  /** Go's `int` is 64 bits wide; `Atoi` reports a range error outside it. */
  const MIN_INT: int := -0x8000_0000_0000_0000
  const MAX_INT: int := 0x7fff_ffff_ffff_ffff

  /** The part of `s` after one optional leading sign. */
  function Unsigned(s: Bytes): Bytes {
    if |s| > 0 && (s[0] == '+' || s[0] == '-') then s[1..] else s
  }

  /** `strconv.Atoi`: an optional '+' or '-', then at least one decimal digit,
      nothing else (no blanks), and a value that fits a 64-bit int. */
  function Atoi(s: Bytes): (r: Result<int>)
    ensures r.Ok? ==> |s| >= 1 && AllDigits(Unsigned(s)) && |Unsigned(s)| >= 1
    ensures r.Ok? ==> MIN_INT <= r.value <= MAX_INT
    ensures r.Ok? && AllDigits(s) ==> r.value == DigitsValue(s)
    ensures r.Ok? && s[0] == '-' ==> r.value == 0 - DigitsValue(s[1..])
    ensures r.Ok? && s[0] == '+' ==> r.value == DigitsValue(s[1..])
    ensures !r.Ok? ==> r == Err(NotANumber)
    ensures |s| <= 18 && |Unsigned(s)| >= 1 && AllDigits(Unsigned(s)) ==> r.Ok?
  {
    var digits := Unsigned(s);
    if |digits| == 0 || !AllDigits(digits) then Err(NotANumber)
    else
      var magnitude: int := DigitsValue(digits);
      DigitsValueBound(digits);
      Pow10Monotone(if |digits| <= 18 then |digits| else 18, 18);
      Pow10Eighteen();
      var v := if s[0] == '-' then -magnitude else magnitude;
      if v < MIN_INT || v > MAX_INT then Err(NotANumber) else Ok(v)
  }

  /** The shortest decimal rendering of `n` (`%d`). */
  function Digits(n: nat): (r: Bytes)
    ensures |r| >= 1 && AllDigits(r) && DigitsValue(r) == n
  {
    if n < 10 then [DigitChar(n)]
    else
      var r := Digits(n / 10) + [DigitChar(n % 10)];
      assert r[..|r| - 1] == Digits(n / 10);
      r
  }

  function Zeros(k: nat): (r: Bytes)
    ensures |r| == k && AllDigits(r) && DigitsValue(r) == 0
  {
    if k == 0 then []
    else
      var r := Zeros(k - 1) + ['0'];
      assert r[..|r| - 1] == Zeros(k - 1);
      r
  }

  /** `fmt.Sprintf("%0*d", width, n)` for a non-negative `n`: the digits of `n`,
      left-padded with zeros to `width` bytes, never truncated. */
  function ZeroPad(n: nat, width: nat): (r: Bytes)
    ensures AllDigits(r) && DigitsValue(r) == n
    ensures |r| == if |Digits(n)| < width then width else |Digits(n)|
  {
    var d := Digits(n);
    var r := if |d| < width then Zeros(width - |d|) + d else d;
    LeadingZerosValue(if |d| < width then width - |d| else 0, d);
    assert |d| >= width ==> r == Zeros(0) + d;
    r
  }

  lemma {:induction false} LeadingZerosValue(k: nat, s: Bytes)
    requires AllDigits(s)
    ensures AllDigits(Zeros(k) + s) && DigitsValue(Zeros(k) + s) == DigitsValue(s)
  {
    var z := Zeros(k) + s;
    if |s| == 0 {
      assert z == Zeros(k);
    } else {
      LeadingZerosValue(k, s[..|s| - 1]);
      assert z[..|z| - 1] == Zeros(k) + s[..|s| - 1];
    }
  }

  /** The shortest rendering has at most `k` digits exactly when `n < 10^k`. */
  lemma {:induction false} DigitsLength(n: nat, k: nat)
    requires k >= 1
    ensures |Digits(n)| <= k <==> n < Pow10(k)
  {
    if n >= 10 {
      if k == 1 {
        assert |Digits(n)| == |Digits(n / 10)| + 1;
      } else {
        DigitsLength(n / 10, k - 1);
      }
    }
  }

  /** Zero padding to `width` digits gives exactly `width` bytes for every `n` below `10^width`. */
  lemma ZeroPadWidth(n: nat, width: nat)
    requires width >= 1 && n < Pow10(width)
    ensures |ZeroPad(n, width)| == width
  {
    DigitsLength(n, width);
  }

  /** `Atoi` reads back what `%0*d` wrote, whatever the padding. */
  lemma AtoiOfZeroPad(n: nat, width: nat)
    requires n <= MAX_INT
    ensures Atoi(ZeroPad(n, width)) == Ok(n)
  {
    var s := ZeroPad(n, width);
    assert Unsigned(s) == s;
  }

  /** Worked cases of Go's syntax: leading zeros are accepted ... */
  lemma AtoiPaddedExample()
    ensures Atoi("00350") == Ok(350)
  {
    assert AllDigits("00350");
    assert DigitsValue("00350") == 350 by {
      assert "00350"[..4] == "0035";
      assert "0035"[..3] == "003";
      assert "003"[..2] == "00";
      assert "00"[..1] == "0";
      assert "0"[..0] == "";
    }
  }

  /** ... and so is a sign in front of them. */
  lemma AtoiSignedExamples()
    ensures Atoi("-0001") == Ok(-1)
    ensures Atoi("+7") == Ok(7)
  {
    assert Unsigned("-0001") == "0001";
    assert DigitsValue("0001") == 1 by {
      assert "0001"[..3] == "000";
      assert "000"[..2] == "00";
      assert "00"[..1] == "0";
      assert "0"[..0] == "";
    }
    assert Unsigned("+7") == "7";
    assert "7"[..0] == "";
  }

  /** Worked refusals: empty input, a lone sign and a leading blank. */
  lemma AtoiRefusesExamples()
    ensures Atoi("") == Err(NotANumber)
    ensures Atoi("-") == Err(NotANumber)
    ensures Atoi(" 350") == Err(NotANumber)
  {
    assert !IsDigit(' ');
  }
}
