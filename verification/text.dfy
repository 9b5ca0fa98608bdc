/** Character-level helpers: decimal digits, fixed-width and zero-padded
    formatting (`strftime` fields, `"{:02d}"`), Python's `int(str)` on plain
    decimal text, ASCII lower-casing and `str.startswith`. */
module Text {
  import opened Results

  predicate IsDigit(c: char) { '0' <= c <= '9' }

  function DigitValue(c: char): (d: nat)
    requires IsDigit(c)
    ensures d < 10
  {
    (c as int) - ('0' as int)
  }

  function DigitChar(d: nat): (c: char)
    requires d < 10
    ensures IsDigit(c) && DigitValue(c) == d
  {
    (('0' as int) + d) as char
  }

  predicate AllDigits(s: string) { forall i | 0 <= i < |s| :: IsDigit(s[i]) }

  /** Value of a string of decimal digits, most significant first. */
  function DigitsValue(s: string): nat
    requires AllDigits(s)
    decreases |s|
  {
    if |s| == 0 then 0 else DigitsValue(s[..|s| - 1]) * 10 + DigitValue(s[|s| - 1])
  }

  function Pow10(k: nat): (p: nat)
    ensures p >= 1
  {
    if k == 0 then 1 else 10 * Pow10(k - 1)
  }

  /** The last `width` decimal digits of `n`, zero-padded on the left. */
  function FixedDigits(n: nat, width: nat): (s: string)
    ensures |s| == width && AllDigits(s)
    ensures DigitsValue(s) == n % Pow10(width)
  {
    if width == 0 then ""
    else
      var s := FixedDigits(n / 10, width - 1) + [DigitChar(n % 10)];
      assert s[..|s| - 1] == FixedDigits(n / 10, width - 1);
      DivModStep(n, Pow10(width - 1));
      s
  }

  /** Peeling one decimal digit off `n` commutes with reduction mod 10^k. */
  lemma DivModStep(n: nat, p: nat)
    requires p >= 1
    ensures (n / 10) % p * 10 + n % 10 == n % (10 * p)
  {
    var q := n / 10;
    var d := n % 10;
    assert n == q * 10 + d;
    var a := q / p;
    var b := q % p;
    assert q == a * p + b;
    assert n == a * (10 * p) + (b * 10 + d);
    assert 0 <= b * 10 + d < 10 * p;
    DivModUnique(n, 10 * p, a, b * 10 + d);
  }

  lemma DivModUnique(n: int, m: int, q: int, r: int)
    requires m > 0 && 0 <= r < m && n == q * m + r
    ensures n / m == q && n % m == r
  {
    var q' := n / m;
    var r' := n % m;
    assert n == q' * m + r';
    if q > q' {
      MulAtLeast(q - q', m);
    } else if q < q' {
      MulAtLeast(q' - q, m);
    }
  }

  lemma {:induction false} MulAtLeast(d: int, m: int)
    requires d >= 1 && m > 0
    ensures d * m >= m
  {
    if d > 1 {
      MulAtLeast(d - 1, m);
      assert d * m == (d - 1) * m + m;
    }
  }

  /** Number of decimal digits Python prints for `n`. */
  function NumDigits(n: nat): (k: nat)
    ensures k >= 1 && n < Pow10(k)
  {
    if n < 10 then 1 else 1 + NumDigits(n / 10)
  }

  lemma Pow10Monotone(a: nat, b: nat)
    requires a <= b
    ensures Pow10(a) <= Pow10(b)
  {
    if a < b {
      Pow10Monotone(a, b - 1);
    }
  }

  /** Python's `"{:0wd}".format(n)`: decimal `n`, zero-padded to at least
      `width` characters and never truncated. */
  function Padded(n: nat, width: nat): (s: string)
    ensures AllDigits(s) && DigitsValue(s) == n
    ensures |s| >= width && (|s| > width ==> |s| == NumDigits(n))
  {
    var w := if width < NumDigits(n) then NumDigits(n) else width;
    Pow10Monotone(NumDigits(n), w);
    DivModUnique(n, Pow10(w), 0, n);
    FixedDigits(n, w)
  }

  /** Distinct numbers are never padded to the same text. */
  lemma PaddedInjective(a: nat, b: nat, width: nat)
    requires Padded(a, width) == Padded(b, width)
    ensures a == b
  {
  }

  /** Formatting a digit string's value back at its own width gives the
      string itself: fixed-width fields have exactly one spelling. */
  lemma {:induction false} FixedDigitsOfValue(s: string)
    requires AllDigits(s)
    ensures DigitsValue(s) < Pow10(|s|)
    ensures FixedDigits(DigitsValue(s), |s|) == s
  {
    if |s| > 0 {
      var init := s[..|s| - 1];
      assert AllDigits(init);
      FixedDigitsOfValue(init);
      var v := DigitsValue(s);
      assert v == DigitsValue(init) * 10 + DigitValue(s[|s| - 1]);
      DivModUnique(v, 10, DigitsValue(init), DigitValue(s[|s| - 1]));
      assert init + [s[|s| - 1]] == s;
    }
  }

  /** Python's `int(text)` on ASCII input: an optional sign followed by at
      least one decimal digit; anything else raises `ValueError`. */
  function ParseInt(s: string): (r: Option<int>)
    ensures r.Some? <==> IsIntLiteral(s)
    ensures r.Some? && AllDigits(s) ==> r.value == DigitsValue(s)
    ensures r.Some? && s[0] == '+' ==> r.value == DigitsValue(s[1..])
    ensures r.Some? && s[0] == '-' ==> r.value == -(DigitsValue(s[1..]) as int)
  {
    if |s| > 0 && (s[0] == '-' || s[0] == '+') then
      var digits := s[1..];
      if |digits| > 0 && AllDigits(digits) then
        Some(if s[0] == '-' then -(DigitsValue(digits) as int) else DigitsValue(digits))
      else None
    else if |s| > 0 && AllDigits(s) then Some(DigitsValue(s))
    else None
  }

  /** The texts `int()` accepts here: digits, or one sign and then digits. */
  predicate IsIntLiteral(s: string)
  {
    || (|s| > 0 && AllDigits(s))
    || (|s| > 1 && (s[0] == '-' || s[0] == '+') && AllDigits(s[1..]))
  }

  /** `int(str(n))` returns `n`, for either sign. */
  lemma ParseIntRoundTrip(n: int)
    ensures n >= 0 ==> ParseInt(Padded(n, 1)) == Some(n)
    ensures n < 0 ==> ParseInt("-" + Padded(-n, 1)) == Some(n)
  {
    if n < 0 {
      var s := "-" + Padded(-n, 1);
      assert s[1..] == Padded(-n, 1);
    } else {
      var s := Padded(n, 1);
      assert s[0] != '-' && s[0] != '+';
    }
  }

  /** Python's `str.lower()` restricted to ASCII letters. */
  function LowerChar(c: char): char
  {
    if 'A' <= c <= 'Z' then ((c as int) + 32) as char else c
  }

  function Lower(s: string): (r: string)
    ensures |r| == |s|
    ensures forall i | 0 <= i < |s| :: r[i] == LowerChar(s[i])
  {
    if |s| == 0 then "" else [LowerChar(s[0])] + Lower(s[1..])
  }

  /** Lower-casing changes letters only: dots stay dots and nothing else becomes one. */
  lemma LowerKeepsDots(s: string)
    ensures forall i | 0 <= i < |s| :: (Lower(s)[i] == '.' <==> s[i] == '.')
  {
  }

  /** Python's `s.startswith(prefix)`. */
  predicate StartsWith(s: string, prefix: string)
  {
    |prefix| <= |s| && s[..|prefix|] == prefix
  }

  /** Two facts about consing onto a sequence, kept apart so that proofs
      about runs need not rediscover them. */
  lemma ConsAssoc<T>(x: T, p: seq<T>, q: seq<T>)
    ensures [x] + (p + q) == ([x] + p) + q
  { }

  lemma ConsIndex<T>(x: T, s: seq<T>, i: int)
    requires 0 < i <= |s|
    ensures ([x] + s)[i] == s[i - 1]
  { }
}
