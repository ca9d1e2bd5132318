/** The radix codec of gibbercode: a 128-bit unsigned integer written as a
    string of bytes over an ordered alphabet, in base |alphabet|, least
    significant digit first, and read back with wrapping u128 arithmetic. */
module Radix {

  /** An 8-bit byte; the codec works on the bytes of its strings. */
  type Byte = x: int | 0 <= x < 256

  /** 2^128: the range of Rust's `u128`, and the modulus of its wrapping arithmetic. */
  const U128_MODULUS: nat := 0x1_0000_0000_0000_0000_0000_0000_0000_0000

  /** A value of Rust's `u128`. */
  type U128 = x: int | 0 <= x < 0x1_0000_0000_0000_0000_0000_0000_0000_0000

  function Pow(b: nat, n: nat): (r: nat)
    ensures b > 0 ==> r > 0
  {
    if n == 0 then 1 else b * Pow(b, n - 1)
  }

  /** No byte occurs twice in `a`. */
  predicate Distinct(a: seq<Byte>) {
    forall i, j | 0 <= i < j < |a| :: a[i] != a[j]
  }

  /** Every byte of `s` is a digit of the alphabet `a`. */
  predicate AllIn(s: seq<Byte>, a: seq<Byte>) {
    forall i | 0 <= i < |s| :: s[i] in a
  }

  /** The base-|a| digits of `v`, least significant first, each digit written
      as the alphabet byte at that index; zero has no digits at all. An empty
      alphabet (division by zero) and a one-byte alphabet (a loop that never
      ends) admit only zero. */
  function Digits(v: nat, a: seq<Byte>): (r: seq<Byte>)
    requires v == 0 || |a| >= 2
    ensures AllIn(r, a)
    ensures r == [] <==> v == 0
    decreases v
  {
    if v == 0 then [] else [a[v % |a|]] + Digits(v / |a|, a)
  }

  /** `encode_with_alphabet`: repeated division by the base, pushing the
      alphabet byte of each remainder. */
  method EncodeWithAlphabet(value: U128, alphabet: seq<Byte>) returns (s: seq<Byte>)
    requires value == 0 || |alphabet| >= 2
    ensures s == Digits(value, alphabet)
  {
    var base := |alphabet|;
    var toCode: nat := value;
    var accum: seq<Byte> := [];
    while toCode > 0
      invariant toCode == 0 || base >= 2
      invariant accum + Digits(toCode, alphabet) == Digits(value, alphabet)
      decreases toCode
    {
      DigitsUnfold(toCode, alphabet);
      var rem, quot := toCode % base, toCode / base;
      accum := accum + [alphabet[rem]];
      toCode := quot;
    }
    s := accum;
  }

  /** One step of `Digits`, with the remainder and quotient named. */
  lemma DigitsUnfold(v: nat, a: seq<Byte>)
    requires v > 0 && |a| >= 2
    ensures 0 <= v % |a| < |a| && 0 <= v / |a| < v
    ensures Digits(v, a) == [a[v % |a|]] + Digits(v / |a|, a)
  {
    DivShrinks(v, |a|);
  }

  lemma DivShrinks(v: nat, n: nat)
    requires v > 0 && n >= 2
    ensures v / n < v
  {
  }

  lemma DivModParts(v: nat, n: nat)
    requires n > 0
    ensures v == v % n + n * (v / n)
  {
  }

  /** The digit value of byte `c`: the table built from the alphabet keeps,
      for a byte listed more than once, the index it was inserted at last. */
  function Lookup(a: seq<Byte>, c: Byte): (r: nat)
    requires c in a
    ensures r < |a| && a[r] == c
    ensures forall j | r < j < |a| :: a[j] != c
  {
    if a[|a| - 1] == c then |a| - 1 else Lookup(a[..|a| - 1], c)
  }

  /** u128 multiplication with wrap-around (the length of a slice and an
      index into it always fit in a u128). */
  function WrappingMul(x: U128, y: nat): U128 {
    (x * y) % U128_MODULUS
  }

  /** u128 addition with wrap-around. */
  function WrappingAdd(x: U128, y: nat): U128 {
    (x + y) % U128_MODULUS
  }

  /** `decode_with_alphabet`: a fold over the digits from the last to the
      first, `accum * base + digit`, in wrapping u128 arithmetic. A byte
      outside the alphabet makes the table lookup panic, so callers pass
      only alphabet bytes. */
  function DecodeWithAlphabet(toDecode: seq<Byte>, alphabet: seq<Byte>): (r: U128)
    requires AllIn(toDecode, alphabet)
    ensures toDecode == [] ==> r == 0
  {
    if toDecode == [] then 0
    else
      WrappingAdd(WrappingMul(DecodeWithAlphabet(toDecode[1..], alphabet), |alphabet|),
                  Lookup(alphabet, toDecode[0]))
  }

  /** The number a digit string denotes: the sum of digit(s[i]) * |a|^i. */
  function Value(s: seq<Byte>, a: seq<Byte>): nat
    requires AllIn(s, a)
  {
    if s == [] then 0
    else Value(s[..|s| - 1], a) + Lookup(a, s[|s| - 1]) * Pow(|a|, |s| - 1)
  }

  /** Horner's rule: the first digit is the least significant one. */
  lemma {:induction false} ValueCons(s: seq<Byte>, a: seq<Byte>)
    requires AllIn(s, a) && s != []
    ensures Value(s, a) == Lookup(a, s[0]) + |a| * Value(s[1..], a)
    decreases |s|
  {
    var n, u := |a|, s[1..];
    if u == [] {
      assert s[..0] == [];
    } else {
      var init, last := s[..|s| - 1], s[|s| - 1];
      var p, d := Pow(n, |u| - 1), Lookup(a, last);
      ValueCons(init, a);
      assert init[1..] == u[..|u| - 1] && u[|u| - 1] == last && init[0] == s[0];
      var rest := Value(init[1..], a);
      assert Value(u, a) == rest + d * p;
      assert Value(s, a) == Value(init, a) + d * Pow(n, |u|);
      assert Pow(n, |u|) == n * p;
      HornerStep(Lookup(a, s[0]), n, rest, d, p);
    }
  }

  lemma HornerStep(l: int, n: int, rest: int, d: int, p: int)
    ensures l + n * rest + d * (n * p) == l + n * (rest + d * p)
  {
  }

  lemma MulComm(x: int, y: int)
    ensures x * y == y * x
  {
  }

  lemma MulAtLeast(k: int, m: int)
    requires k >= 1 && m > 0
    ensures k * m >= m
  {
  }

  lemma DivModUnique(v: int, m: int, q: int, r: int)
    requires m > 0 && 0 <= r < m && v == q * m + r
    ensures v / m == q && v % m == r
  {
    var q', r' := v / m, v % m;
    assert v == q' * m + r';
    if q > q' {
      assert (q - q') * m == r' - r;
      MulAtLeast(q - q', m);
      assert false;
    } else if q < q' {
      assert (q' - q) * m == r - r';
      MulAtLeast(q' - q, m);
      assert false;
    }
  }

  lemma ModAddMultiple(y: int, k: int, m: int)
    requires m > 0
    ensures (y + m * k) % m == y % m
  {
    var q, r := y / m, y % m;
    assert y + m * k == (q + k) * m + r;
    DivModUnique(y + m * k, m, q + k, r);
  }

  lemma SplitProduct(x: int, n: int, m: int, q: int, r: int, p: int, s: int)
    requires x == r + m * q && r * n == s + m * p
    ensures x * n == s + m * (q * n + p)
  {
    calc {
      x * n;
      (r + m * q) * n;
      r * n + m * (q * n);
      s + m * p + m * (q * n);
      s + m * (q * n + p);
    }
  }

  lemma ModMulAdd(x: nat, n: nat, d: nat, m: nat)
    requires m > 0
    ensures ((x % m) * n % m + d) % m == (x * n + d) % m
  {
    var q, r := x / m, x % m;
    DivModParts(x, m);
    var p, s := r * n / m, r * n % m;
    DivModParts(r * n, m);
    SplitProduct(x, n, m, q, r, p, s);
    ModAddMultiple(s + d, q * n + p, m);
  }

  /** The wrapping fold computes the positional value reduced modulo 2^128. */
  lemma {:induction false} DecodeIsValueMod(s: seq<Byte>, a: seq<Byte>)
    requires AllIn(s, a)
    ensures DecodeWithAlphabet(s, a) == Value(s, a) % U128_MODULUS
    decreases |s|
  {
    if s != [] {
      DecodeIsValueMod(s[1..], a);
      ValueCons(s, a);
      var rest, d, n := Value(s[1..], a), Lookup(a, s[0]), |a|;
      assert Value(s, a) == d + n * rest;
      MulComm(n, rest);
      ModMulAdd(rest, n, d, U128_MODULUS);
    }
  }

  /** In an alphabet of distinct bytes, the byte at index k has digit value k. */
  lemma LookupDistinct(a: seq<Byte>, k: nat)
    requires Distinct(a) && k < |a|
    ensures Lookup(a, a[k]) == k
  {
  }

  /** The digits of v denote v again. */
  lemma {:induction false} ValueOfDigits(v: nat, a: seq<Byte>)
    requires |a| >= 2 && Distinct(a)
    ensures Value(Digits(v, a), a) == v
    decreases v
  {
    if v > 0 {
      var n, r := |a|, Digits(v, a);
      DivShrinks(v, n);
      ValueOfDigits(v / n, a);
      ValueCons(r, a);
      LookupDistinct(a, v % n);
      assert r[1..] == Digits(v / n, a);
      assert Value(r, a) == v % n + n * (v / n);
      DivModParts(v, n);
    }
  }

  /** Round trip of the radix codec over an alphabet of at least two distinct bytes. */
  lemma DecodeEncode(v: U128, a: seq<Byte>)
    requires |a| >= 2 && Distinct(a)
    ensures DecodeWithAlphabet(Digits(v, a), a) == v
  {
    var digits := Digits(v, a);
    DecodeIsValueMod(digits, a);
    ValueOfDigits(v, a);
    SmallMod(v, U128_MODULUS);
  }

  lemma SmallMod(x: nat, m: nat)
    requires x < m
    ensures x % m == x
  {
  }

  lemma DivDiv(v: nat, n: nat, p: nat)
    requires n > 0 && p > 0
    ensures v / n / p == v / (n * p)
  {
    var q := v / n / p;
    var r := v / n % p;
    assert v / n == q * p + r;
    assert v == (q * p + r) * n + v % n;
    assert v == q * (n * p) + (r * n + v % n);
    assert r * n + v % n < n * p by {
      assert r <= p - 1;
      assert r * n <= (p - 1) * n;
    }
    DivModUnique(v, n * p, q, r * n + v % n);
  }

  /** The i-th byte written is the i-th base-|a| digit of v. */
  lemma {:induction false} DigitsAt(v: nat, a: seq<Byte>, i: nat)
    requires |a| >= 2 && i < |Digits(v, a)|
    ensures Digits(v, a)[i] == a[v / Pow(|a|, i) % |a|]
    decreases i
  {
    var n := |a|;
    if i > 0 {
      assert Digits(v, a)[i] == Digits(v / n, a)[i - 1];
      DigitsAt(v / n, a, i - 1);
      DivDiv(v, n, Pow(n, i - 1));
      assert Pow(n, i) == n * Pow(n, i - 1);
    } else {
      assert Pow(n, 0) == 1;
    }
  }

  /** There are exactly as many bytes as v has base-|a| digits. */
  lemma {:induction false} DigitsLength(v: nat, a: seq<Byte>)
    requires |a| >= 2
    ensures v < Pow(|a|, |Digits(v, a)|)
    ensures |Digits(v, a)| > 0 ==> Pow(|a|, |Digits(v, a)| - 1) <= v
    decreases v
  {
    var n := |a|;
    if v > 0 {
      var t := Digits(v / n, a);
      assert |Digits(v, a)| == |t| + 1;
      DivShrinks(v, n);
      DigitsLength(v / n, a);
      BelowNextPower(v, n, Pow(n, |t|));
      if |t| > 0 {
        AtLeastPower(v, n, Pow(n, |t| - 1));
      }
    }
  }

  lemma MulMono(k: int, x: int, y: int)
    requires k >= 0 && x <= y
    ensures k * x <= k * y
  {
  }

  /** A number whose quotient by n is below p is below n * p. */
  lemma BelowNextPower(v: nat, n: nat, p: nat)
    requires n > 0 && v / n < p
    ensures v < n * p
  {
    DivModParts(v, n);
    MulMono(n, v / n, p - 1);
    assert n * (p - 1) == n * p - n;
  }

  /** A number whose quotient by n is at least q is at least n * q. */
  lemma AtLeastPower(v: nat, n: nat, q: nat)
    requires n > 0 && q <= v / n
    ensures n * q <= v
  {
    DivModParts(v, n);
    MulMono(n, q, v / n);
  }

  /** The test `encode_trivial`: 31415926 over a sixteen-letter alphabet. */
  lemma EncodeTrivialExample()
    ensures Digits(31415926, ['a' as Byte, 'b' as Byte, 'c' as Byte, 'd' as Byte, 'e' as Byte,
                              'f' as Byte, 'g' as Byte, 'h' as Byte, 'i' as Byte, 'j' as Byte,
                              'k' as Byte, 'l' as Byte, 'm' as Byte, 'n' as Byte, 'o' as Byte,
                              'p' as Byte])
         == ['g' as Byte, 'h' as Byte, 'o' as Byte, 'f' as Byte, 'p' as Byte, 'n' as Byte, 'b' as Byte]
  {
    var a := ['a' as Byte, 'b' as Byte, 'c' as Byte, 'd' as Byte, 'e' as Byte,
              'f' as Byte, 'g' as Byte, 'h' as Byte, 'i' as Byte, 'j' as Byte,
              'k' as Byte, 'l' as Byte, 'm' as Byte, 'n' as Byte, 'o' as Byte,
              'p' as Byte];
    // 31415926 = 0x1DF5E76: the digits 6, 7, 14, 5, 15, 13, 1 from the lowest up
    assert |a| == 16;
    DigitsStep(1, a, 0, 1);
    DigitsStep(29, a, 1, 13);
    DigitsStep(479, a, 29, 15);
    DigitsStep(7669, a, 479, 5);
    DigitsStep(122718, a, 7669, 14);
    DigitsStep(1963495, a, 122718, 7);
    DigitsStep(31415926, a, 1963495, 6);
  }

  /** One division step on known quotient and remainder. */
  lemma DigitsStep(v: nat, a: seq<Byte>, q: nat, d: nat)
    requires |a| >= 2 && d < |a| && v == q * |a| + d && v > 0
    ensures Digits(v, a) == [a[d]] + Digits(q, a)
  {
    DivModUnique(v, |a|, q, d);
  }
}
