/** Arbitrary precision base conversion (src/util/base_convert.cpp).
    Index 0 of a string is its least significant digit. */
module BaseConvert {
  import opened Arithmetic
  import opened ByteStrings

  function Pow(base: nat, exponent: nat): nat
  {
    if exponent == 0 then 1 else base * Pow(base, exponent - 1)
  }

  /** The number a digit string denotes. */
  function Value(digits: seq<nat>, base: nat): nat
  {
    if digits == [] then 0 else digits[0] + base * Value(digits[1..], base)
  }

  /** How many zeros stand at the most significant end. */
  function MsZeros(digits: seq<nat>): (n: nat)
    ensures n <= |digits|
  {
    if digits == [] then 0
    else
      var rest := MsZeros(digits[1..]);
      if digits[0] == 0 && rest == |digits| - 1 then |digits| else rest
  }

  predicate DigitsBelow(digits: seq<nat>, base: nat)
  {
    forall i :: 0 <= i < |digits| ==> digits[i] < base
  }

  /** What a base conversion means, without saying how it is computed. */
  predicate IsConversion(source: seq<nat>, sink: seq<nat>, sourceBase: nat, sinkBase: nat)
  {
    && DigitsBelow(sink, sinkBase)
    && Value(sink, sinkBase) == Value(source, sourceBase)
    && MsZeros(sink) == MsZeros(source)
  }

  function ToDigits(n: nat, base: nat): (digits: Bytes)
    requires 2 <= base <= 256
    decreases n
  {
    if n == 0 then [] else
      DivDecreases(n, base);
      [n % base] + ToDigits(n / base, base)
  }

  function Convert(source: Bytes, sourceBase: nat, sinkBase: nat): (sink: Bytes)
    requires 2 <= sinkBase <= 256
  {
    ToDigits(Value(source, sourceBase), sinkBase) + Zeros(MsZeros(source))
  }

  /** base_convert: Horner accumulation from the most significant end, digit
      emission from the least significant end, then the most significant zeros. */
  method ConvertBase(source: Bytes, sourceBase: nat, sinkBase: nat) returns (sink: Bytes)
    requires 2 <= sourceBase <= 256 && 2 <= sinkBase <= 256
    ensures IsConversion(source, sink, sourceBase, sinkBase)
    ensures sink == Convert(source, sourceBase, sinkBase)
  {
    var base10, msZeros := Accumulate(source, sourceBase);
    sink := Emit(base10, sinkBase);
    ghost var significant := sink;
    for j := 0 to msZeros
      invariant sink == significant + Zeros(j)
    {
      sink := sink + [0];
    }
    ConvertIsConversion(source, sourceBase, sinkBase);
  }

  method Accumulate(source: Bytes, sourceBase: nat) returns (base10: nat, msZeros: nat)
    ensures base10 == Value(source, sourceBase)
    ensures msZeros == MsZeros(source)
  {
    base10, msZeros := 0, 0;
    var nonZeroByte := false;
    var i := |source| - 1;
    while i >= 0
      invariant -1 <= i < |source|
      invariant base10 == if i >= 0 then sourceBase * Value(source[i + 1..], sourceBase)
                          else Value(source, sourceBase)
      invariant msZeros == MsZeros(source[i + 1..])
      invariant nonZeroByte <==> msZeros < |source| - (i + 1)
    {
      assert source[i..][1..] == source[i + 1..];
      var digit := source[i];
      base10 := base10 + digit;
      assert base10 == Value(source[i..], sourceBase);
      if i != 0 {
        base10 := sourceBase * base10;
      } else {
        assert source[i..] == source;
      }
      if digit == 0 && !nonZeroByte {
        msZeros := msZeros + 1;
      } else {
        nonZeroByte := true;
      }
      i := i - 1;
    }
    assert source[0..] == source;
  }

  method Emit(number: nat, sinkBase: nat) returns (sink: Bytes)
    requires 2 <= sinkBase <= 256
    ensures sink == ToDigits(number, sinkBase)
  {
    var base10: nat := number;
    sink := [];
    while base10 != 0
      invariant sink + ToDigits(base10, sinkBase) == ToDigits(number, sinkBase)
      decreases base10
    {
      var quotient, digit := Divide(base10, sinkBase);
      DigitsUnfold(base10, sinkBase, quotient, digit);
      sink, base10 := sink + [digit], quotient;
    }
  }

  /** The least significant digit, and the number without it. */
  method Divide(n: nat, base: nat) returns (quotient: nat, digit: byte)
    requires 2 <= base <= 256
    ensures digit < base && n == digit + base * quotient
  {
    DivMod(n, base);
    quotient, digit := n / base, n % base;
  }

  lemma DivModUnique(n: nat, base: nat, quotient: nat, digit: nat)
    requires digit < base && n == digit + base * quotient
    ensures quotient == n / base && digit == n % base
  {
    DivMod(n, base);
    LeastDigit(digit, quotient, n % base, n / base, base);
  }

  lemma DigitsUnfold(n: nat, base: nat, quotient: nat, digit: nat)
    requires n > 0 && 2 <= base <= 256 && digit < base && n == digit + base * quotient
    ensures quotient < n
    ensures ToDigits(n, base) == [digit] + ToDigits(quotient, base)
  {
    DivModUnique(n, base, quotient, digit);
    DivDecreases(n, base);
  }

  /** The two directions are inverse to each other, on every digit string. */
  lemma Invertible(source: Bytes, sourceBase: nat, sinkBase: nat)
    requires 2 <= sourceBase <= 256 && 2 <= sinkBase <= 256
    requires DigitsBelow(source, sourceBase)
    ensures DigitsBelow(Convert(source, sourceBase, sinkBase), sinkBase)
    ensures Convert(Convert(source, sourceBase, sinkBase), sinkBase, sourceBase) == source
  {
    var there := Convert(source, sourceBase, sinkBase);
    ConvertIsConversion(source, sourceBase, sinkBase);
    ConvertIsConversion(there, sinkBase, sourceBase);
    Unique(Convert(there, sinkBase, sourceBase), source, sourceBase);
  }

  lemma ConvertIsConversion(source: Bytes, sourceBase: nat, sinkBase: nat)
    requires 2 <= sinkBase <= 256
    ensures IsConversion(source, Convert(source, sourceBase, sinkBase), sourceBase, sinkBase)
  {
    var n := Value(source, sourceBase);
    ToDigitsDenote(n, sinkBase);
    AppendZeros(ToDigits(n, sinkBase), MsZeros(source), sinkBase);
  }

  /** A conversion is determined by what it means. */
  lemma {:induction false} Unique(s: seq<nat>, t: seq<nat>, base: nat)
    requires 2 <= base
    requires DigitsBelow(s, base) && DigitsBelow(t, base)
    requires Value(s, base) == Value(t, base)
    requires MsZeros(s) == MsZeros(t)
    ensures s == t
  {
    if s == [] {
      ZeroValue(t, base);
    } else if t == [] {
      ZeroValue(s, base);
    } else {
      LeastDigit(s[0], Value(s[1..], base), t[0], Value(t[1..], base), base);
      ZeroValue(s[1..], base);
      ZeroValue(t[1..], base);
      Unique(s[1..], t[1..], base);
      assert s == [s[0]] + s[1..] && t == [t[0]] + t[1..];
    }
  }

  /** MsZeros counts exactly the zeros at the most significant end. */
  lemma {:induction false} MsZerosMeaning(s: seq<nat>)
    ensures forall i :: |s| - MsZeros(s) <= i < |s| ==> s[i] == 0
    ensures MsZeros(s) < |s| ==> s[|s| - MsZeros(s) - 1] != 0
  {
    if s != [] {
      MsZerosMeaning(s[1..]);
      forall i | |s| - MsZeros(s) <= i < |s| ensures s[i] == 0 {
        if i > 0 {
          assert s[i] == s[1..][i - 1];
        }
      }
    }
  }

  /** Converting to a base that is no larger never shortens the string. */
  lemma NeverShortens(source: Bytes, sourceBase: nat, sinkBase: nat)
    requires 2 <= sinkBase <= sourceBase <= 256
    ensures |Convert(source, sourceBase, sinkBase)| >= |source|
  {
    var sink := Convert(source, sourceBase, sinkBase);
    ConvertIsConversion(source, sourceBase, sinkBase);
    var k, m := |source| - MsZeros(source), |sink| - MsZeros(sink);
    if m < k {
      ValueAtLeast(source, sourceBase);
      ValueBelow(sink, sinkBase);
      PowMonotone(sinkBase, sourceBase, m);
      PowGrows(sourceBase, m, k - 1);
      assert false;
    }
  }

  /** The string grows by at most `slack` digits when the powers say so. */
  lemma GrowsByAtMost(source: Bytes, sourceBase: nat, sinkBase: nat, slack: nat)
    requires 2 <= sinkBase <= 256 && 2 <= sourceBase
    requires DigitsBelow(source, sourceBase)
    requires forall k: nat :: k <= |source| ==> Pow(sourceBase, k) <= Pow(sinkBase, k + slack)
    ensures |Convert(source, sourceBase, sinkBase)| <= |source| + slack
  {
    var sink := Convert(source, sourceBase, sinkBase);
    ConvertIsConversion(source, sourceBase, sinkBase);
    var k, m := |source| - MsZeros(source), |sink| - MsZeros(sink);
    if m > k + slack {
      ValueBelow(source, sourceBase);
      ValueAtLeast(sink, sinkBase);
      PowGrows(sinkBase, k + slack, m - 1);
      assert false;
    }
  }

  // ----- the digits of a number

  lemma {:induction false} ToDigitsDenote(n: nat, base: nat)
    requires 2 <= base <= 256
    ensures Denotes(ToDigits(n, base), base, n)
    decreases n
  {
    if n != 0 {
      var quotient, digit := SplitDigit(n, base);
      ToDigitsDenote(quotient, base);
      DenoteStep(n, base, quotient, digit);
    }
  }

  lemma SplitDigit(n: nat, base: nat) returns (quotient: nat, digit: nat)
    requires n > 0 && base >= 2
    ensures quotient < n && digit < base && n == digit + base * quotient
  {
    DivDecreases(n, base);
    DivMod(n, base);
    quotient, digit := n / base, n % base;
  }

  predicate Denotes(digits: seq<nat>, base: nat, n: nat)
  {
    DigitsBelow(digits, base) && Value(digits, base) == n && MsZeros(digits) == 0
  }

  lemma DenoteStep(n: nat, base: nat, quotient: nat, digit: nat)
    requires n > 0 && 2 <= base <= 256 && digit < base && n == digit + base * quotient
    requires Denotes(ToDigits(quotient, base), base, quotient)
    ensures Denotes(ToDigits(n, base), base, n)
  {
    DigitsUnfold(n, base, quotient, digit);
    DigitInFront(digit, ToDigits(quotient, base), base);
    ZeroValue(ToDigits(quotient, base), base);
  }

  lemma DigitInFront(digit: nat, rest: seq<nat>, base: nat)
    ensures Value([digit] + rest, base) == digit + base * Value(rest, base)
    ensures MsZeros([digit] + rest) == if digit == 0 && MsZeros(rest) == |rest| then |rest| + 1 else MsZeros(rest)
  {
    assert ([digit] + rest)[1..] == rest;
  }

  lemma {:induction false} AppendZeros(s: Bytes, k: nat, base: nat)
    requires MsZeros(s) == 0
    ensures Value(s + Zeros(k), base) == Value(s, base)
    ensures MsZeros(s + Zeros(k)) == k
  {
    if s != [] {
      assert (s + Zeros(k))[1..] == s[1..] + Zeros(k);
      AppendZeros(s[1..], k, base);
    } else {
      assert s + Zeros(k) == Zeros(k);
      OnlyZeros(Zeros(k), base);
    }
  }

  lemma {:induction false} OnlyZeros(s: seq<nat>, base: nat)
    requires forall i :: 0 <= i < |s| ==> s[i] == 0
    ensures Value(s, base) == 0 && MsZeros(s) == |s|
  {
    if s != [] {
      OnlyZeros(s[1..], base);
    }
  }

  lemma {:induction false} ZeroValue(s: seq<nat>, base: nat)
    requires base > 0
    ensures Value(s, base) == 0 <==> MsZeros(s) == |s|
  {
    if s != [] {
      ZeroValue(s[1..], base);
      if Value(s[1..], base) > 0 {
        MulPositive(base, Value(s[1..], base));
      }
    }
  }

  lemma {:induction false} ValueBelow(s: seq<nat>, base: nat)
    requires base >= 2 && DigitsBelow(s, base)
    ensures Value(s, base) < Pow(base, |s| - MsZeros(s))
  {
    if s != [] {
      var k := |s| - MsZeros(s);
      ValueBelow(s[1..], base);
      ZeroValue(s[1..], base);
      if k == 0 {
        ZeroValue(s, base);
      } else if MsZeros(s[1..]) < |s| - 1 {
        Step(s[0], Value(s[1..], base), Pow(base, k - 1), base);
      }
    }
  }

  lemma {:induction false} ValueAtLeast(s: seq<nat>, base: nat)
    requires base >= 2
    ensures |s| - MsZeros(s) > 0 ==> Value(s, base) >= Pow(base, |s| - MsZeros(s) - 1)
  {
    if s != [] && MsZeros(s) < |s| {
      var k := |s| - MsZeros(s);
      ValueAtLeast(s[1..], base);
      ZeroValue(s[1..], base);
      if MsZeros(s[1..]) < |s| - 1 {
        MulMonotone(base, Pow(base, k - 2), Value(s[1..], base));
      }
    }
  }

  // ----- arithmetic

  lemma DivDecreases(n: nat, base: nat)
    requires n > 0 && base >= 2
    ensures n / base < n
  {
  }

  lemma LeastDigit(d: nat, m: nat, e: nat, n: nat, base: nat)
    requires d < base && e < base
    requires d + base * m == e + base * n
    ensures d == e && m == n
  {
    if m < n {
      MulMonotone(base, m + 1, n);
    } else if n < m {
      MulMonotone(base, n + 1, m);
    }
  }

  lemma Step(d: nat, v: nat, p: nat, base: nat)
    requires d < base && v < p
    ensures d + base * v < base * p
  {
    MulMonotone(base, v + 1, p);
  }

  lemma {:induction false} PowPositive(base: nat, n: nat)
    requires base > 0
    ensures Pow(base, n) > 0
  {
    if n > 0 {
      PowPositive(base, n - 1);
      MulPositive(base, Pow(base, n - 1));
    }
  }

  lemma {:induction false} PowMonotone(a: nat, b: nat, n: nat)
    requires a <= b
    ensures Pow(a, n) <= Pow(b, n)
  {
    if n > 0 {
      PowMonotone(a, b, n - 1);
      MulMonotone(a, Pow(a, n - 1), Pow(b, n - 1));
      MulMonotone(Pow(b, n - 1), a, b);
    }
  }

  lemma {:induction false} PowGrows(base: nat, m: nat, n: nat)
    requires base > 0 && m <= n
    ensures Pow(base, m) <= Pow(base, n)
  {
    if m < n {
      PowGrows(base, m, n - 1);
      MulMonotone(Pow(base, n - 1), 1, base);
    }
  }

  lemma {:induction false} PowAdd(base: nat, m: nat, n: nat)
    ensures Pow(base, m + n) == Pow(base, m) * Pow(base, n)
  {
    if m > 0 {
      PowAdd(base, m - 1, n);
      Associate(base, Pow(base, m - 1), Pow(base, n));
    }
  }

  lemma {:induction false} PowOfProduct(a: nat, b: nat, n: nat)
    ensures Pow(a * b, n) == Pow(a, n) * Pow(b, n)
  {
    if n > 0 {
      PowOfProduct(a, b, n - 1);
      Regroup(a, b, Pow(a, n - 1), Pow(b, n - 1));
    }
  }

  lemma Regroup(a: nat, b: nat, x: nat, y: nat)
    ensures (a * b) * (x * y) == (a * x) * (b * y)
  {
  }

  lemma {:induction false} PowOfPow(base: nat, m: nat, n: nat)
    ensures Pow(Pow(base, m), n) == Pow(base, m * n)
  {
    if n > 0 {
      PowOfPow(base, m, n - 1);
      assert m * n == m + m * (n - 1);
      PowAdd(base, m, m * (n - 1));
    }
  }
}
