/**
 * Decimal text of an unsigned integer, as Rust's `Display` for `u16` writes it
 * inside `format!("{}{}", topic_prefix, year)`: digits only, no sign, no
 * padding, and no leading zero except for the number zero itself.
 * `ParseDecimal` reads such text back; it exists to state the round trips.
 */
module DecimalText {
  import opened Primitives

  predicate IsDigit(ch: char) {
    '0' <= ch <= '9'
  }

  predicate AllDigits(s: string) {
    forall i :: 0 <= i < |s| ==> IsDigit(s[i])
  }

  /** Decimal text in the form `Display` produces: non-empty, all digits, no superfluous leading zero. */
  predicate IsCanonical(s: string) {
    s != [] && AllDigits(s) && (s[0] == '0' ==> |s| == 1)
  }

  function DigitChar(d: nat): (ch: char)
    requires d < 10
    ensures IsDigit(ch)
  {
    ('0' as int + d) as char
  }

  function Pow10(k: nat): (p: nat)
    ensures p >= 1
  {
    if k == 0 then 1 else 10 * Pow10(k - 1)
  }

  /** `Display` of an unsigned integer: the shortest digit string whose value is `n`. */
  function Show(n: nat): (r: string)
    ensures IsCanonical(r)
    ensures (r[0] == '0') == (n == 0)
    ensures n < Pow10(|r|)
    ensures n >= 1 ==> Pow10(|r| - 1) <= n
    decreases n
  {
    if n < 10 then [DigitChar(n)] else Show(n / 10) + [DigitChar(n % 10)]
  }

  /** The value of a string of decimal digits, most significant first. */
  function Value(s: string): nat
    requires AllDigits(s)
    decreases |s|
  {
    if s == [] then 0
    else Value(s[..|s| - 1]) * 10 + (s[|s| - 1] as int - '0' as int)
  }

  /** Reads a non-empty string of decimal digits; any other string is rejected. */
  function ParseDecimal(s: string): Option<nat> {
    if s != [] && AllDigits(s) then Some(Value(s)) else None
  }

  /** Reading back what `Show` writes gives the number. */
  lemma {:induction false} ParseShow(n: nat)
    ensures ParseDecimal(Show(n)) == Some(n)
    decreases n
  {
    var r := Show(n);
    if n >= 10 {
      ParseShow(n / 10);
      assert r[..|r| - 1] == Show(n / 10);
      assert r[|r| - 1] as int - '0' as int == n % 10;
      assert Value(r) == (n / 10) * 10 + n % 10;
    } else {
      assert r[0] as int - '0' as int == n;
      assert Value(r) == Value([]) * 10 + n;
    }
  }

  /** Distinct numbers have distinct decimal texts. */
  lemma ShowInjective(a: nat, b: nat)
    ensures Show(a) == Show(b) <==> a == b
  {
    if Show(a) == Show(b) {
      ParseShow(a);
      ParseShow(b);
    }
  }

  /** A digit string with a non-zero first digit has a non-zero value. */
  lemma {:induction false} LeadingDigitPositive(s: string)
    requires AllDigits(s) && s != [] && s[0] != '0'
    ensures Value(s) >= 1
    decreases |s|
  {
    if |s| > 1 {
      var t := s[..|s| - 1];
      assert t[0] == s[0];
      LeadingDigitPositive(t);
    }
  }

  /** Every canonical decimal text is the `Show` of the number it denotes. */
  lemma {:induction false} ShowParse(s: string)
    requires IsCanonical(s)
    ensures ParseDecimal(s).Some? && Show(ParseDecimal(s).value) == s
    decreases |s|
  {
    if |s| > 1 {
      var t := s[..|s| - 1];
      assert t[0] == s[0];
      LeadingDigitPositive(t);
      ShowParse(t);
      var n := Value(s);
      assert n / 10 == Value(t) && n % 10 == s[|s| - 1] as int - '0' as int;
      assert s == t + [s[|s| - 1]];
    }
  }

  /** Rust's `u16` prints with at most five digits. */
  lemma ShowU16Length(y: u16)
    ensures 1 <= |Show(y as nat)| <= 5
  {
    var r := Show(y as nat);
    if |r| > 5 {
      assert Pow10(5) == 100000;
      PowMonotone(5, |r| - 1);
    }
  }

  lemma {:induction false} PowMonotone(i: nat, j: nat)
    requires i <= j
    ensures Pow10(i) <= Pow10(j)
    decreases j
  {
    if i < j { PowMonotone(i, j - 1); }
  }

  /** The extreme values of a `u16` as they appear in topic names. */
  lemma ShowU16Bounds()
    ensures Show(0) == "0"
    ensures Show(65535) == "65535"
  {
    assert Show(6) == "6";
    assert Show(65) == "65";
    assert Show(655) == "655";
    assert Show(6553) == "6553";
  }
}
