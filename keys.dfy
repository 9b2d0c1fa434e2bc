/** Number keys: the screen labels option `k` with `String(k + 1)` and turns a
    pressed key back into an option position with `parseInt(key, 10) - 1`. */
module Keys {

  /** Key code of the space bar. */
  const Space: int := 32

  /** A keyboard event: the `key` text and the numeric `keyCode`. */
  datatype KeyEvent = KeyEvent(key: string, keyCode: int)

  predicate IsDigit(c: char)
  {
    '0' <= c <= '9'
  }

  function DigitChar(d: nat): (c: char)
    requires d < 10
    ensures IsDigit(c)
  {
    (48 + d) as char
  }

  function DigitValue(c: char): (d: nat)
    requires IsDigit(c)
    ensures d < 10
  {
    c as int - 48
  }

  /** `String(n)` for a non-negative integer: its decimal digits, most
      significant first, with no leading zero. */
  function Decimal(n: nat): (s: string)
    ensures |s| > 0
    ensures forall i :: 0 <= i < |s| ==> IsDigit(s[i])
    ensures s[0] == '0' ==> n == 0
  {
    if n < 10 then [DigitChar(n)] else Decimal(n / 10) + [DigitChar(n % 10)]
  }

  function Pow10(k: nat): (p: nat)
    ensures p >= 1
  {
    if k == 0 then 1 else 10 * Pow10(k - 1)
  }

  /** `parseInt(s, 10)` on a string made only of decimal digits. */
  function ParseDigits(s: string): (r: nat)
    requires forall i :: 0 <= i < |s| ==> IsDigit(s[i])
    ensures r < Pow10(|s|)
    ensures |s| == 1 ==> r == DigitValue(s[0])
  {
    if s == [] then 0 else ParseDigits(s[..|s| - 1]) * 10 + DigitValue(s[|s| - 1])
  }

  /** Parsing the text of a number gives the number back. */
  lemma {:induction false} ParseDecimal(n: nat)
    ensures ParseDigits(Decimal(n)) == n
  {
    if n >= 10 {
      var s := Decimal(n);
      assert s[..|s| - 1] == Decimal(n / 10);
      ParseDecimal(n / 10);
    }
  }

  /** Distinct numbers have distinct texts, so a key names at most one
      option. */
  lemma DecimalInjective(m: nat, n: nat)
    requires Decimal(m) == Decimal(n)
    ensures m == n
  {
    ParseDecimal(m);
    ParseDecimal(n);
  }

  /** The label shown on, and the key that picks, the option at position `k`. */
  function OptionKey(k: nat): (s: string)
    ensures forall i :: 0 <= i < |s| ==> IsDigit(s[i])
    ensures ParseDigits(s) == k + 1
  {
    ParseDecimal(k + 1);
    Decimal(k + 1)
  }
}
