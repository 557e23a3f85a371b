/** Decimal numbers in text, as Go's strconv reads and writes them. */
module Numerals {
  import opened Texts

  datatype Parsed = Number(n: nat) | Syntax | Range

  /** Decimal digits from place `i` on; a number too large is seen before anything that follows it. */
  function Digits(s: string, i: nat, n: nat, max: nat): (p: Parsed)
    requires i <= |s| && n <= max
    ensures p.Number? ==> p.n <= max
    decreases |s| - i
  {
    if i == |s| then Number(n)
    else if !('0' <= s[i] <= '9') then Syntax
    else
      var m := 10 * n + (s[i] as int - '0' as int);
      if m > max then Range else Digits(s, i + 1, m, max)
  }

  /** `strconv.ParseUint` with its error dropped: 0 for bad syntax, the maximum for too large. */
  function Unsigned(s: string, max: nat): (n: nat)
    ensures n <= max
  {
    if s == "" then 0
    else
      match Digits(s, 0, 0, max)
      case Number(n) => n
      case Syntax => 0
      case Range => max
  }

  /** The digits of a number, then more of them. */
  lemma {:induction false} DigitsOn(s: string, i: nat, n: nat, max: nat, d: nat)
    requires i <= |s| && n <= max && d < 10
    requires Digits(s, i, n, max).Number? && 10 * Digits(s, i, n, max).n + d <= max
    ensures Digits(s + ["0123456789"[d]], i, n, max) == Number(10 * Digits(s, i, n, max).n + d)
    decreases |s| - i
  {
    var t := s + ["0123456789"[d]];
    if i < |s| {
      DigitsOn(s, i + 1, 10 * n + (s[i] as int - '0' as int), max, d);
    } else {
      DigitIs(d);
      assert Digits(t, i + 1, 10 * n + d, max) == Number(10 * n + d);
    }
  }

  lemma DigitIs(d: nat)
    requires d < 10
    ensures '0' <= "0123456789"[d] <= '9' && "0123456789"[d] as int - '0' as int == d
  {
  }

  lemma {:induction false} DecimalDigits(n: nat, max: nat)
    requires n <= max
    ensures Decimal(n) != "" && Digits(Decimal(n), 0, 0, max) == Number(n)
    ensures forall i :: 0 <= i < |Decimal(n)| ==> '0' <= Decimal(n)[i] <= '9'
    decreases n
  {
    DigitIs(n % 10);
    if n >= 10 {
      DecimalDigits(n / 10, max);
      DigitsOn(Decimal(n / 10), 0, 0, max, n % 10);
    } else {
      assert Decimal(n) == ["0123456789"[n]];
      DigitsOn("", 0, 0, max, n);
      assert "" + ["0123456789"[n]] == Decimal(n);
    }
  }

  /** A numeral says which number it is. */
  lemma DecimalInjective(m: nat, n: nat)
    requires Decimal(m) == Decimal(n)
    ensures m == n
  {
    hide Decimal, Digits;
    var max := if m < n then n else m;
    DecimalDigits(m, max);
    DecimalDigits(n, max);
  }
}
