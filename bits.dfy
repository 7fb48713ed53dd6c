/**
  The bit-level text conventions the search relies on: `format(n, "0{k}b")`,
  which writes the oracle most significant bit first, and `int(s, 2)`, which
  reads the winning measurement back as a big-endian unsigned number.
*/
module Bits {
  import opened Results

  function Pow2(i: nat): (r: nat)
    ensures r >= 1
  {
    if i == 0 then 1 else 2 * Pow2(i - 1)
  }

  lemma {:induction false} Pow2Monotone(i: nat, j: nat)
    requires i <= j
    ensures Pow2(i) <= Pow2(j)
  {
    if i < j {
      Pow2Monotone(i, j - 1);
    }
  }

  /** Bit `i` of `n`, bit 0 being the least significant. */
  function Bit(n: nat, i: nat): (b: nat)
    ensures b < 2
  {
    if i == 0 then n % 2 else Bit(n / 2, i - 1)
  }

  function Digit(b: nat): char
    requires b < 2
  {
    if b == 0 then '0' else '1'
  }

  predicate IsBinaryDigit(c: char) {
    c == '0' || c == '1'
  }

  predicate IsBinaryNumeral(s: string) {
    forall j :: 0 <= j < |s| ==> IsBinaryDigit(s[j])
  }

  /** The shortest numeral of `n` in base 2, as `format(n, "b")` writes it: "0" for zero, no leading zero otherwise. */
  function Binary(n: nat): (s: string)
    ensures 1 <= |s|
  {
    if n < 2 then [Digit(n)] else Binary(n / 2) + [Digit(n % 2)]
  }

  function Zeros(d: nat): (s: string)
    ensures |s| == d
    ensures forall j :: 0 <= j < d ==> s[j] == '0'
  {
    seq(d, _ => '0')
  }

  /**
    `format(n, "0{width}b")`: the binary numeral of `n`, padded on the left
    with zeros to at least `width` characters. A width of 0 still writes
    one digit.
  */
  function Format(n: nat, width: nat): string {
    var digits := Binary(n);
    if |digits| < width then Zeros(width - |digits|) + digits else digits
  }

  /** The big-endian value of a numeral: the last character is bit 0. */
  function Value(s: string): nat {
    if s == [] then 0 else 2 * Value(s[..|s| - 1]) + (if s[|s| - 1] == '1' then 1 else 0)
  }

  /**
    `int(s, 2)` on the strings a histogram can hold: fails (Python raises
    ValueError) on the empty string and on any character other than 0 or 1.
  */
  function ParseBinary(s: string): (r: Option<nat>)
    ensures r.Some? <==> s != [] && IsBinaryNumeral(s)
    ensures r.Some? ==> r.value < Pow2(|s|)
  {
    ValueBound(s);
    if s != [] && IsBinaryNumeral(s) then Some(Value(s)) else None
  }

  lemma {:induction false} ValueBound(s: string)
    ensures Value(s) < Pow2(|s|)
  {
    if s != [] {
      ValueBound(s[..|s| - 1]);
    }
  }

  /** The numeral `format` writes is made of binary digits and denotes `n`. */
  lemma {:induction false} BinaryDenotes(n: nat)
    ensures IsBinaryNumeral(Binary(n))
    ensures Value(Binary(n)) == n
  {
    if n >= 2 {
      BinaryDenotes(n / 2);
      var s := Binary(n);
      assert s[..|s| - 1] == Binary(n / 2);
    }
  }

  /** Leading zeros do not change the value of a numeral. */
  lemma {:induction false} LeadingZeros(d: nat, s: string)
    ensures Value(Zeros(d) + s) == Value(s)
  {
    if s == [] {
      assert Zeros(d) + s == Zeros(d);
      ZerosValue(d);
    } else {
      var t := Zeros(d) + s;
      assert t[..|t| - 1] == Zeros(d) + s[..|s| - 1];
      LeadingZeros(d, s[..|s| - 1]);
    }
  }

  lemma {:induction false} ZerosValue(d: nat)
    ensures Value(Zeros(d)) == 0
  {
    if d > 0 {
      assert Zeros(d)[..d - 1] == Zeros(d - 1);
      ZerosValue(d - 1);
    }
  }

  /** Round trip: `int(format(n, "0{width}b"), 2) == n` for every n >= 0 and every width. */
  lemma FormatRoundTrip(n: nat, width: nat)
    ensures ParseBinary(Format(n, width)) == Some(n)
  {
    BinaryDenotes(n);
    var digits := Binary(n);
    if |digits| < width {
      LeadingZeros(width - |digits|, digits);
      var s := Zeros(width - |digits|) + digits;
      forall j | 0 <= j < |s| ensures IsBinaryDigit(s[j]) {
        if j >= width - |digits| {
          assert s[j] == digits[j - (width - |digits|)];
        }
      }
    }
  }

  /** The shortest numeral of `n` has no more digits than any width `m >= 1` that can hold `n`. */
  lemma {:induction false} BinaryFits(n: nat, m: nat)
    requires 1 <= m && n < Pow2(m)
    ensures |Binary(n)| <= m
  {
    if n >= 2 && m > 1 {
      BinaryFits(n / 2, m - 1);
    }
  }

  /** For `0 <= n < 2^k` with `k >= 1` the formatted oracle has exactly `k` characters. */
  lemma FormatLength(n: nat, k: nat)
    requires 1 <= k && n < Pow2(k)
    ensures |Format(n, k)| == k
  {
    BinaryFits(n, k);
  }

  lemma {:induction false} BinaryBound(n: nat)
    ensures n < Pow2(|Binary(n)|)
  {
    if n >= 2 {
      BinaryBound(n / 2);
    }
  }

  /** A bit at or above the width that holds `n` is 0. */
  lemma {:induction false} HighBitZero(n: nat, i: nat)
    requires n < Pow2(i)
    ensures Bit(n, i) == 0
  {
    if i > 0 {
      HighBitZero(n / 2, i - 1);
    }
  }

  lemma {:induction false} BinaryAt(n: nat, j: nat)
    requires j < |Binary(n)|
    ensures Binary(n)[j] == Digit(Bit(n, |Binary(n)| - 1 - j))
  {
    if n >= 2 && j < |Binary(n)| - 1 {
      BinaryAt(n / 2, j);
    }
  }

  /**
    Character `j` of the `k`-bit string of `n` is bit `k - 1 - j` of `n`:
    the string is most significant bit first.
  */
  lemma FormatAt(n: nat, k: nat, j: nat)
    requires 1 <= k && n < Pow2(k) && j < k
    ensures Format(n, k)[j] == Digit(Bit(n, k - 1 - j))
  {
    BinaryFits(n, k);
    var digits := Binary(n);
    var pad := k - |digits|;
    if j < pad {
      BinaryBound(n);
      Pow2Monotone(|digits|, k - 1 - j);
      HighBitZero(n, k - 1 - j);
    } else {
      assert Format(n, k)[j] == digits[j - pad];
      BinaryAt(n, j - pad);
    }
  }
}
