/**
 * Fixed-width positional notation over an alphabet of digit characters.
 * Both the "N" rendering of a GUID (32 lower-case hexadecimal digits) and
 * the zero-padded fields of the fixed UTC date format are instances of it.
 */
module Numerals {

  function Power(base: nat, n: nat): (r: nat)
    requires base >= 1
    ensures r >= 1
  {
    if n == 0 then 1 else base * Power(base, n - 1)
  }

  /** No character occurs twice in the alphabet, so every digit has one value. */
  predicate DistinctChars(alphabet: string)
  {
    forall i, j :: 0 <= i < j < |alphabet| ==> alphabet[i] != alphabet[j]
  }

  predicate AllIn(alphabet: string, s: string)
  {
    forall i :: 0 <= i < |s| ==> s[i] in alphabet
  }

  /** The `width` least significant digits of `n`, most significant first, padded with the zero digit. */
  function Numeral(alphabet: string, n: nat, width: nat): (s: string)
    requires |alphabet| >= 2
    ensures |s| == width
    ensures AllIn(alphabet, s)
  {
    if width == 0 then []
    else Numeral(alphabet, n / |alphabet|, width - 1) + [alphabet[n % |alphabet|]]
  }

  /** The position of a digit character in the alphabet, i.e. its value. */
  function DigitValue(alphabet: string, c: char): (k: nat)
    requires c in alphabet
    ensures k < |alphabet| && alphabet[k] == c
  {
    if alphabet[0] == c then 0 else 1 + DigitValue(alphabet[1..], c)
  }

  lemma {:induction false} DigitValueOfDigit(alphabet: string, k: nat)
    requires DistinctChars(alphabet) && k < |alphabet|
    ensures DigitValue(alphabet, alphabet[k]) == k
  {
  }

  /** The number that a string of digits denotes, most significant digit first. */
  function ValueOf(alphabet: string, s: string): (v: nat)
    requires AllIn(alphabet, s)
    decreases |s|
  {
    if s == [] then 0
    else ValueOf(alphabet, s[..|s| - 1]) * |alphabet| + DigitValue(alphabet, s[|s| - 1])
  }

  /** Reading back a numeral gives the number it was made from, provided the number fits the width. */
  lemma {:induction false} ValueOfNumeral(alphabet: string, n: nat, width: nat)
    requires |alphabet| >= 2 && DistinctChars(alphabet)
    requires n < Power(|alphabet|, width)
    ensures ValueOf(alphabet, Numeral(alphabet, n, width)) == n
    decreases width
  {
    var b := |alphabet|;
    if width > 0 {
      var q, d := n / b, n % b;
      var s := Numeral(alphabet, n, width);
      var init := Numeral(alphabet, q, width - 1);
      assert s == init + [alphabet[d]];
      assert s[..width - 1] == init;
      assert q < Power(b, width - 1) by {
        DivBelow(n, b, Power(b, width - 1));
      }
      ValueOfNumeral(alphabet, q, width - 1);
      DigitValueOfDigit(alphabet, d);
      DivMod(n, b);
      calc {
        ValueOf(alphabet, s);
        ValueOf(alphabet, init) * b + DigitValue(alphabet, alphabet[d]);
        q * b + d;
        n;
      }
    }
  }

  /** Rendering the value of a digit string at its own width gives the string back. */
  lemma {:induction false} NumeralOfValue(alphabet: string, s: string)
    requires |alphabet| >= 2 && AllIn(alphabet, s)
    ensures Numeral(alphabet, ValueOf(alphabet, s), |s|) == s
    decreases |s|
  {
    if s != [] {
      var b := |alphabet|;
      var init := s[..|s| - 1];
      var d := DigitValue(alphabet, s[|s| - 1]);
      var v := ValueOf(alphabet, s);
      assert v == ValueOf(alphabet, init) * b + d;
      assert v / b == ValueOf(alphabet, init) && v % b == d by {
        DivModOfAffine(ValueOf(alphabet, init), b, d);
      }
      NumeralOfValue(alphabet, init);
      assert s == init + [s[|s| - 1]];
    }
  }

  lemma DivModOfAffine(q: nat, b: nat, d: nat)
    requires d < b
    ensures (q * b + d) / b == q && (q * b + d) % b == d
  {
    var x := q * b + d;
    var q', r' := x / b, x % b;
    assert x == q' * b + r' && 0 <= r' < b;
    assert (q - q') * b == r' - d;
    if q > q' {
      MulMonotone(1, q - q', b);
    } else if q < q' {
      MulMonotone(1, q' - q, b);
    }
  }

  lemma DivMod(n: nat, b: nat)
    requires b > 0
    ensures n == (n / b) * b + n % b
  {
  }

  lemma DivBelow(n: nat, b: nat, p: nat)
    requires b >= 1 && n < b * p
    ensures n / b < p
  {
    if n / b >= p {
      MulMonotone(p, n / b, b);
    }
  }

  lemma MulMonotone(a: int, c: int, b: nat)
    requires a <= c
    ensures a * b <= c * b
  {
  }

  /** Numerals of one width that agree denote the same number (within range). */
  lemma NumeralInjective(alphabet: string, m: nat, n: nat, width: nat)
    requires |alphabet| >= 2 && DistinctChars(alphabet)
    requires m < Power(|alphabet|, width) && n < Power(|alphabet|, width)
    requires Numeral(alphabet, m, width) == Numeral(alphabet, n, width)
    ensures m == n
  {
    ValueOfNumeral(alphabet, m, width);
    ValueOfNumeral(alphabet, n, width);
  }
}
