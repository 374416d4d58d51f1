/**
 * Decimal rendering of naturals, as JavaScript's `Number.prototype.toString()`
 * gives it for a non-negative integer, left padding with `'0'` as
 * `String.prototype.padStart(w, '0')` does, and the inverse reading of a
 * digit string.
 */
module Decimal {

  predicate IsDigit(c: char) {
    '0' <= c <= '9'
  }

  predicate AllDigits(s: string) {
    forall i :: 0 <= i < |s| ==> IsDigit(s[i])
  }

  function DigitChar(d: nat): (c: char)
    requires d < 10
    ensures IsDigit(c)
  {
    ['0', '1', '2', '3', '4', '5', '6', '7', '8', '9'][d]
  }

  function DigitValue(c: char): (d: nat)
    requires IsDigit(c)
    ensures d < 10
  {
    (c as int) - ('0' as int)
  }

  /** `n.toString()`: the shortest decimal numeral of `n`. */
  function Digits(n: nat): (r: string)
    ensures |r| >= 1
  {
    if n < 10 then [DigitChar(n)] else Digits(n / 10) + [DigitChar(n % 10)]
  }

  /** The number a string of decimal digits denotes; leading zeros are allowed. */
  function Value(s: string): nat
    requires AllDigits(s)
  {
    if s == [] then 0 else Value(s[..|s| - 1]) * 10 + DigitValue(s[|s| - 1])
  }

  function Zeros(k: nat): (r: string)
    ensures |r| == k
  {
    if k == 0 then [] else Zeros(k - 1) + ['0']
  }

  /** `s.padStart(w, '0')`: zeros prepended up to width `w`. */
  function PadStart(s: string, w: nat): (r: string)
    ensures |r| == if |s| < w then w else |s|
  {
    if |s| < w then Zeros(w - |s|) + s else s
  }

  /** The characters of `s` from index `i` up to `j` are all digits. */
  predicate DigitsIn(s: string, i: int, j: int)
    requires 0 <= i <= j <= |s|
    decreases j - i
  {
    i == j || (DigitsIn(s, i, j - 1) && IsDigit(s[j - 1]))
  }

  /** The number the digits of `s` from index `i` up to `j` denote. */
  function ValueIn(s: string, i: int, j: int): nat
    requires 0 <= i <= j <= |s| && DigitsIn(s, i, j)
    decreases j - i
  {
    if i == j then 0 else ValueIn(s, i, j - 1) * 10 + DigitValue(s[j - 1])
  }

  /**
   * `n.toString()` is a numeral: at least one character, all of them
   * digits, and no leading zero from 10 upwards.
   */
  lemma {:induction false} DigitsSpec(n: nat)
    ensures |Digits(n)| >= 1 && AllDigits(Digits(n))
    ensures n >= 10 ==> Digits(n)[0] != '0'
  {
    var r := Digits(n);
    if n >= 10 {
      var q := Digits(n / 10);
      DigitsSpec(n / 10);
      forall i | 0 <= i < |r| ensures IsDigit(r[i]) {
        if i < |q| { assert r[i] == q[i]; }
      }
      assert r[0] == q[0];
    }
  }

  /** Padding zeros are all `'0'`, and so all digits. */
  lemma {:induction false} ZerosSpec(k: nat)
    ensures AllDigits(Zeros(k)) && forall i :: 0 <= i < k ==> Zeros(k)[i] == '0'
  {
    if k > 0 {
      ZerosSpec(k - 1);
      forall i | 0 <= i < k ensures Zeros(k)[i] == '0' {
        if i < k - 1 { assert Zeros(k)[i] == Zeros(k - 1)[i]; }
      }
    }
  }

  lemma {:induction false} DigitValueOfChar(d: nat)
    requires d < 10
    ensures DigitValue(DigitChar(d)) == d
  {
  }

  /** Reading back the numeral `n.toString()` gives `n`. */
  lemma {:induction false} ValueOfDigits(n: nat)
    ensures AllDigits(Digits(n)) && Value(Digits(n)) == n
  {
    var r := Digits(n);
    DigitsSpec(n);
    DigitValueOfChar(n % 10);
    if n >= 10 {
      ValueOfDigits(n / 10);
      assert r[..|r| - 1] == Digits(n / 10);
    }
  }

  /** A numeral is no longer than the number of decimal places its value needs. */
  lemma {:induction false} DigitsLength(n: nat, k: nat, bound: nat)
    requires 1 <= k && bound == Pow10(k) && n < bound
    ensures |Digits(n)| <= k
  {
    if n >= 10 {
      assert Pow10(1) == 10;
      DigitsLength(n / 10, k - 1, Pow10(k - 1));
    }
  }

  function Pow10(k: nat): (r: nat)
    ensures r >= 1
  {
    if k == 0 then 1 else 10 * Pow10(k - 1)
  }

  /** Leading zeros do not change the value of a numeral. */
  lemma {:induction false} ValueIgnoresLeadingZeros(k: nat, s: string)
    requires AllDigits(s)
    ensures AllDigits(Zeros(k) + s) && Value(Zeros(k) + s) == Value(s)
  {
    var z := Zeros(k) + s;
    ZerosSpec(k);
    assert AllDigits(z) by {
      forall i | 0 <= i < |z| ensures IsDigit(z[i]) {
        if i < k { assert z[i] == Zeros(k)[i]; } else { assert z[i] == s[i - k]; }
      }
    }
    if s == [] {
      assert z == Zeros(k);
      if k > 0 {
        assert z[..|z| - 1] == Zeros(k - 1) + [];
        ValueIgnoresLeadingZeros(k - 1, []);
      }
    } else {
      var init := s[..|s| - 1];
      assert z[..|z| - 1] == Zeros(k) + init;
      assert z[|z| - 1] == s[|s| - 1];
      ValueIgnoresLeadingZeros(k, init);
    }
  }

  /** `n.toString().padStart(w, '0')` still reads back as `n`. */
  lemma PaddedValue(n: nat, w: nat)
    ensures AllDigits(PadStart(Digits(n), w))
    ensures Value(PadStart(Digits(n), w)) == n
  {
    var d := Digits(n);
    ValueOfDigits(n);
    if |d| < w {
      ValueIgnoresLeadingZeros(w - |d|, d);
    }
  }

  /** Reading the first `j` digits of a numeral in place gives what reading them alone gives. */
  lemma {:induction false} ValueInPrefix(s: string, j: nat)
    requires j <= |s| && AllDigits(s)
    ensures DigitsIn(s, 0, j) && ValueIn(s, 0, j) == Value(s[..j])
  {
    if j > 0 {
      ValueInPrefix(s, j - 1);
      assert s[..j][..j - 1] == s[..j - 1];
    }
  }

  /** A numeral read in place denotes its value. */
  lemma ValueInWhole(s: string)
    requires AllDigits(s)
    ensures DigitsIn(s, 0, |s|) && ValueIn(s, 0, |s|) == Value(s)
  {
    ValueInPrefix(s, |s|);
    assert s[..|s|] == s;
  }

  /** The first `j` digits of `g`, copied into `u` at `i`, read there as they read in `g`. */
  lemma {:induction false} ValueInShiftPrefix(u: string, i: nat, g: string, j: nat)
    requires j <= |g| && i + |g| <= |u| && u[i..i + |g|] == g
    requires DigitsIn(g, 0, j)
    ensures DigitsIn(u, i, i + j) && ValueIn(u, i, i + j) == ValueIn(g, 0, j)
  {
    if j > 0 {
      ValueInShiftPrefix(u, i, g, j - 1);
      assert u[i..i + |g|][j - 1] == u[i + j - 1];
    }
  }

  /** A numeral copied into `u` between `i` and `k` reads there as it reads alone. */
  lemma ValueInShift(u: string, i: nat, k: nat, g: string)
    requires i <= k <= |u| && u[i..k] == g
    requires DigitsIn(g, 0, |g|)
    ensures DigitsIn(u, i, k) && ValueIn(u, i, k) == ValueIn(g, 0, |g|)
  {
    ValueInShiftPrefix(u, i, g, |g|);
  }

  /** Padding never truncates: the padded text ends with the original and starts with zeros only. */
  lemma PadStartSpec(s: string, w: nat)
    ensures |PadStart(s, w)| == if |s| < w then w else |s|
    ensures PadStart(s, w)[|PadStart(s, w)| - |s|..] == s
    ensures forall i :: 0 <= i < |PadStart(s, w)| - |s| ==> PadStart(s, w)[i] == '0'
  {
    var r := PadStart(s, w);
    if |s| < w {
      ZerosSpec(w - |s|);
      assert r[|r| - |s|..] == s;
      forall i | 0 <= i < |r| - |s| ensures r[i] == '0' {
        assert r[i] == Zeros(w - |s|)[i];
      }
    }
  }
}
