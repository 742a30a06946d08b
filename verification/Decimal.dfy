/** Decimal text as strconv and fmt print and parse it. */
module Decimal {
  import opened GoBase

  const MINUS: byte := 45
  const PLUS: byte := 43
  const ZERO: byte := 48

  predicate IsDigit(c: byte) { 48 <= c <= 57 }

  predicate AllDigits(t: Text) { forall i :: 0 <= i < |t| ==> IsDigit(t[i]) }

  function PrintNat(n: nat): (t: Text)
    ensures |t| > 0 && AllDigits(t)
  {
    if n < 10 then [ZERO + n] else PrintNat(n / 10) + [ZERO + n % 10]
  }

  function PrintInt(n: int): (t: Text)
    ensures |t| > 0 && IsDigit(t[|t| - 1])
  {
    if n < 0 then [MINUS] + PrintNat(-n) else PrintNat(n)
  }

  function DigitsValue(t: Text): (n: nat)
    requires AllDigits(t)
  {
    if t == [] then 0 else 10 * DigitsValue(t[..|t| - 1]) + (t[|t| - 1] - ZERO)
  }

  lemma {:induction false} PrintNatValue(n: nat)
    ensures DigitsValue(PrintNat(n)) == n
  {
    if n < 10 {
      assert PrintNat(n)[..0] == [];
    } else {
      PrintNatValue(n / 10);
      assert PrintNat(n)[..|PrintNat(n)| - 1] == PrintNat(n / 10);
    }
  }

  lemma PrintNatInjective(m: nat, n: nat)
    ensures PrintNat(m) == PrintNat(n) <==> m == n
  {
    PrintNatValue(m);
    PrintNatValue(n);
  }

  lemma PrintIntInjective(m: int, n: int)
    ensures PrintInt(m) == PrintInt(n) <==> m == n
  {
    if m >= 0 && n >= 0 {
      PrintNatInjective(m, n);
    } else if m < 0 && n < 0 {
      assert PrintInt(m)[1..] == PrintNat(-m) && PrintInt(n)[1..] == PrintNat(-n);
      PrintNatInjective(-m, -n);
    } else {
      assert IsDigit(PrintNat(if m >= 0 then m else n)[0]);
    }
  }

  /** Decimal digits without a leading zero. */
  predicate Canonical(t: Text) {
    t != [] && AllDigits(t) && (|t| > 1 ==> t[0] != ZERO)
  }

  /** The text of an integer: canonical digits, behind a minus sign if it is negative. */
  predicate IntText(t: Text, n: int) {
    if n >= 0 then Canonical(t) && DigitsValue(t) == n
    else t != [] && t[0] == MINUS && Canonical(t[1..]) && DigitsValue(t[1..]) == -n
  }

  lemma {:induction false} PrintNatCanonical(n: nat)
    ensures Canonical(PrintNat(n)) && (n > 0 ==> PrintNat(n)[0] != ZERO)
  {
    if n >= 10 {
      PrintNatCanonical(n / 10);
    }
  }

  lemma {:induction false} ValuePositive(t: Text)
    requires Canonical(t) && t[0] != ZERO
    ensures DigitsValue(t) > 0
  {
    if |t| > 1 {
      ValuePositive(t[..|t| - 1]);
    }
  }

  lemma {:induction false} CanonicalIsPrinted(t: Text)
    requires Canonical(t)
    ensures t == PrintNat(DigitsValue(t))
  {
    var front, last := t[..|t| - 1], t[|t| - 1];
    assert t == front + [last];
    if |t| == 1 {
      assert DigitsValue(t) == last - ZERO;
    } else {
      ValuePositive(front);
      CanonicalIsPrinted(front);
    }
  }

  /** The printed text is the one canonical text with that value. */
  lemma PrintNatIs(t: Text, n: nat)
    ensures t == PrintNat(n) <==> Canonical(t) && DigitsValue(t) == n
  {
    PrintNatCanonical(n);
    PrintNatValue(n);
    if Canonical(t) {
      CanonicalIsPrinted(t);
    }
  }

  lemma PrintIntIs(t: Text, n: int)
    ensures t == PrintInt(n) <==> IntText(t, n)
  {
    if n >= 0 {
      PrintNatIs(t, n);
    } else if t != [] {
      PrintNatIs(t[1..], -n);
      assert t == [t[0]] + t[1..];
      assert PrintInt(n)[1..] == PrintNat(-n);
    }
  }

  /** Digits count by tens: appending a digit to a number's text. */
  lemma TenTimes(n: nat, digit: nat)
    requires n > 0 && digit < 10
    ensures PrintNat(10 * n + digit) == PrintNat(n) + [ZERO + digit]
  {
  }

  function Pow2(k: nat): (p: nat)
    ensures p > 0
  {
    if k == 0 then 1 else 2 * Pow2(k - 1)
  }

  /** strconv.ParseUint(t, 10, bits): digits only, in range. */
  function ParseUint(t: Text, bits: nat): (r: Option<nat>)
    ensures r.Some? ==> r.value < Pow2(bits)
  {
    if t == [] || !AllDigits(t) then None
    else if DigitsValue(t) >= Pow2(bits) then None
    else Some(DigitsValue(t))
  }

  /** strconv.ParseInt(t, 10, bits): an optional sign, digits, in two's-complement range. */
  function ParseInt(t: Text, bits: nat): (r: Option<int>)
    requires bits > 0
    ensures r.Some? ==> -(Pow2(bits - 1) as int) <= r.value < Pow2(bits - 1)
  {
    if t == [] then None
    else
      var negative := t[0] == MINUS;
      var digits := if negative || t[0] == PLUS then t[1..] else t;
      if digits == [] || !AllDigits(digits) then None
      else
        var u := DigitsValue(digits);
        if !negative && u >= Pow2(bits - 1) then None
        else if negative && u > Pow2(bits - 1) then None
        else Some(if negative then -(u as int) else u)
  }

  lemma {:induction false} Pow2Shift(k: nat, v: nat)
    requires k >= 8 && Pow2(k - 8) == v
    ensures Pow2(k) == 256 * v
  {
    assert Pow2(k) == 2 * Pow2(k - 1) == 4 * Pow2(k - 2) == 8 * Pow2(k - 3) == 16 * Pow2(k - 4);
    assert Pow2(k - 4) == 2 * Pow2(k - 5) == 4 * Pow2(k - 6) == 8 * Pow2(k - 7) == 16 * Pow2(k - 8);
  }

  /** The ranges of 32-bit and 64-bit integers. */
  lemma Widths(half: nat, word: nat)
    requires half == 32 && word == 64
    ensures Pow2(half) == U32 && Pow2(word) == U64
    ensures Pow2(half - 1) == 0x8000_0000 && Pow2(word - 1) == 0x8000_0000_0000_0000
  {
    Pow2Shift(half - 24, 1);
    Pow2Shift(half - 16, 0x100);
    Pow2Shift(half - 8, 0x1_0000);
    Pow2Shift(half, 0x100_0000);
    Pow2Shift(word - 24, U32);
    Pow2Shift(word - 16, 0x100_0000_0000);
    Pow2Shift(word - 8, 0x1_0000_0000_0000);
    Pow2Shift(word, 0x100_0000_0000_0000);
    assert Pow2(half) == 2 * Pow2(half - 1) && Pow2(word) == 2 * Pow2(word - 1);
  }

  function Zeros(z: nat): (t: Text)
    ensures |t| == z && forall i :: 0 <= i < z ==> t[i] == ZERO
  {
    seq(z, _ => ZERO)
  }

  lemma {:induction false} ZerosValue(z: nat, t: Text)
    requires AllDigits(t)
    ensures AllDigits(Zeros(z) + t) && DigitsValue(Zeros(z) + t) == DigitsValue(t)
    decreases |t|, z
  {
    var all := Zeros(z) + t;
    if t != [] {
      ZerosValue(z, t[..|t| - 1]);
      assert all[..|all| - 1] == Zeros(z) + t[..|t| - 1];
    } else if z > 0 {
      ZerosValue(z - 1, []);
      assert all[..|all| - 1] == Zeros(z - 1) + [];
    } else {
      assert all == [];
    }
  }

  /** Digits are leading zeros in front of the canonical text of their value. */
  lemma {:induction false} DigitsAre(t: Text) returns (z: nat)
    requires t != [] && AllDigits(t)
    ensures t == Zeros(z) + PrintNat(DigitsValue(t))
  {
    if Canonical(t) {
      CanonicalIsPrinted(t);
      z := 0;
      assert Zeros(0) + t == t;
    } else {
      var rest := t[1..];
      z := DigitsAre(rest);
      assert t == Zeros(1) + rest;
      ZerosValue(1, rest);
      assert Zeros(1) + (Zeros(z) + PrintNat(DigitsValue(rest))) == Zeros(z + 1) + PrintNat(DigitsValue(rest));
      z := z + 1;
    }
  }

  ghost predicate PaddedText(t: Text, n: nat) { exists z: nat :: t == Zeros(z) + PrintNat(n) }

  lemma PaddedExactly(t: Text, n: nat)
    ensures PaddedText(t, n) <==> t != [] && AllDigits(t) && DigitsValue(t) == n
  {
    if PaddedText(t, n) {
      var z: nat :| t == Zeros(z) + PrintNat(n);
      ZerosValue(z, PrintNat(n));
      PrintNatValue(n);
    }
    if t != [] && AllDigits(t) {
      var z := DigitsAre(t);
    }
  }

  /** Unsigned parsing accepts exactly the texts of numbers in range, with any leading zeros. */
  lemma ParseUintExactly(t: Text, bits: nat, n: nat)
    ensures ParseUint(t, bits) == Some(n) <==> n < Pow2(bits) && PaddedText(t, n)
  {
    PaddedExactly(t, n);
  }

  /** Signed parsing accepts exactly those texts, behind an optional sign. */
  lemma ParseIntExactly(t: Text, bits: nat, n: int)
    requires bits > 0
    ensures ParseInt(t, bits) == Some(n) <==>
            && -(Pow2(bits - 1) as int) <= n < Pow2(bits - 1) && t != []
            && (|| (n >= 0 && t[0] != MINUS && PaddedText(if t[0] == PLUS then t[1..] else t, n))
                || (n <= 0 && t[0] == MINUS && PaddedText(t[1..], -n)))
  {
    if t != [] {
      var digits := if t[0] == MINUS || t[0] == PLUS then t[1..] else t;
      PaddedExactly(digits, if n >= 0 then n else -n);
    }
  }

  lemma ParsePrintUint(n: nat, bits: nat)
    requires n < Pow2(bits)
    ensures ParseUint(PrintNat(n), bits) == Some(n)
  {
    PrintNatValue(n);
  }

  lemma ParsePrintInt(n: int, bits: nat)
    requires bits > 0
    requires -(Pow2(bits - 1) as int) <= n < Pow2(bits - 1)
    ensures ParseInt(PrintInt(n), bits) == Some(n)
  {
    if n < 0 {
      PrintNatValue(-n);
      assert PrintInt(n)[1..] == PrintNat(-n);
    } else {
      PrintNatValue(n);
      assert IsDigit(PrintNat(n)[0]);
    }
  }
}
