/** The pieces of the Java platform the model depends on: 32-bit `int`
    wrap-around, `String.hashCode`, `Arrays.hashCode` (used by
    `Objects.hash`), `String.compareTo` and `Integer.toString` for
    non-negative values. Characters are compared by their code point. */
module JavaText {

  const TWO_31: int := 0x8000_0000
  const TWO_32: int := 0x1_0000_0000

  /** Java's `int`. */
  type Int32 = x: int | -0x8000_0000 <= x < 0x8000_0000

  /** The value a Java `int` holds after an arithmetic result `x` overflows. */
  function Wrap32(x: int): (r: Int32)
    ensures -TWO_31 <= x < TWO_31 ==> r == x
  {
    (x + TWO_31) % TWO_32 - TWO_31
  }

  /** Wrapping differs from the exact value by a whole multiple of 2^32. */
  lemma WrapOffset(x: int)
    ensures Wrap32(x) == x - TWO_32 * ((x + TWO_31) / TWO_32)
  {
  }

  /** Adding a multiple of 2^32 does not change the wrapped value. */
  lemma WrapShift(x: int, j: int)
    ensures Wrap32(x + TWO_32 * j) == Wrap32(x)
  {
  }

  /** Java's hash loop `h = 31 * h + x` over `xs` starting from `seed`,
      with every step wrapped to 32 bits as the JVM does. */
  function HashSteps(seed: Int32, xs: seq<Int32>): Int32
    decreases |xs|
  {
    if |xs| == 0 then seed
    else Wrap32(31 * HashSteps(seed, xs[..|xs| - 1]) + xs[|xs| - 1])
  }

  /** The documented polynomial `seed*31^n + xs[0]*31^(n-1) + ... + xs[n-1]`,
      in Horner form and without overflow. */
  function Polynomial(seed: int, xs: seq<int>): int
    decreases |xs|
  {
    if |xs| == 0 then seed
    else 31 * Polynomial(seed, xs[..|xs| - 1]) + xs[|xs| - 1]
  }

  /** Wrapping after every step gives the same `int` as evaluating the
      polynomial exactly and wrapping once: the overflow the JVM performs is
      harmless for a hash. */
  lemma {:induction false} HashStepsIsWrappedPolynomial(seed: Int32, xs: seq<Int32>)
    ensures HashSteps(seed, xs) == Wrap32(Polynomial(seed, xs))
    decreases |xs|
  {
    if |xs| > 0 {
      var init := xs[..|xs| - 1];
      var p := Polynomial(seed, init);
      HashStepsIsWrappedPolynomial(seed, init);
      WrapOffset(p);
      var q := (p + TWO_31) / TWO_32;
      assert 31 * Wrap32(p) + xs[|xs| - 1] == 31 * p + xs[|xs| - 1] + TWO_32 * (-31 * q);
      WrapShift(31 * p + xs[|xs| - 1], -31 * q);
    }
  }

  /** The UTF-16 code units of one character: the character itself below
      U+10000, otherwise its high and low surrogates. */
  function CharUnits(c: char): (units: seq<Int32>)
    ensures 1 <= |units| <= 2
    ensures forall i :: 0 <= i < |units| ==> 0 <= units[i] < 0x1_0000
    ensures c as int < 0x1_0000 ==> units == [c as int]
    ensures c as int >= 0x1_0000 ==>
      |units| == 2 && 0xD800 <= units[0] < 0xDC00 && 0xDC00 <= units[1] < 0xE000
      && 0x1_0000 + (units[0] - 0xD800) * 0x400 + (units[1] - 0xDC00) == c as int
  {
    var v := c as int;
    if v < 0x1_0000 then [v]
    else [0xD800 + (v - 0x1_0000) / 0x400, 0xDC00 + (v - 0x1_0000) % 0x400]
  }

  /** The UTF-16 code units of a string, as Java stores it: one unit per
      character of the Basic Multilingual Plane, a surrogate pair otherwise. */
  function Utf16(s: string): (units: seq<Int32>)
    ensures |s| <= |units| <= 2 * |s|
    ensures (forall i :: 0 <= i < |s| ==> s[i] as int < 0x1_0000) ==>
      |units| == |s| && forall i :: 0 <= i < |s| ==> units[i] == s[i] as int
    decreases |s|
  {
    if |s| == 0 then []
    else CharUnits(s[0]) + Utf16(s[1..])
  }

  /** `String.hashCode`: `h = 31 * h + value[i]` over the UTF-16 code units, from `h = 0`. */
  function StringHash(s: string): Int32
  {
    HashSteps(0, Utf16(s))
  }

  /** A character outside the Basic Multilingual Plane is hashed as its two
      surrogates: U+1F600 hashes to `31 * 0xD83D + 0xDE00`. */
  lemma StringHashOfSurrogatePair()
    ensures StringHash("\U{1F600}") == 1772899
  {
    assert Utf16("\U{1F600}") == [0xD83D, 0xDE00];
    assert [0xD83D, 0xDE00][..1] == [0xD83D];
    assert [0xD83D][..0] == [];
    assert HashSteps(0, [0xD83D]) == 0xD83D;
    assert HashSteps(0, [0xD83D, 0xDE00]) == Wrap32(31 * 0xD83D + 0xDE00);
  }

  /** `Arrays.hashCode` (hence `Objects.hash`): `h = 31 * h + hash(e)` from `h = 1`. */
  function ArraysHash(hashes: seq<Int32>): Int32
  {
    HashSteps(1, hashes)
  }

  /** The loop of `String.hashCode`, written as the JDK writes it over the
      string's code-unit array. */
  method ComputeStringHash(s: string) returns (h: Int32)
    ensures h == Wrap32(Polynomial(0, Utf16(s)))
    ensures h == StringHash(s)
  {
    var units := Utf16(s);
    h := 0;
    var i := 0;
    while i < |units|
      invariant 0 <= i <= |units|
      invariant h == HashSteps(0, units[..i])
    {
      assert units[..i + 1][..i] == units[..i];
      h := Wrap32(31 * h + units[i]);
      i := i + 1;
    }
    assert units[..|units|] == units;
    HashStepsIsWrappedPolynomial(0, units);
  }

  /** `String.compareTo`: the difference of the first differing characters,
      or the difference of the lengths when one string is a prefix of the other. */
  function CompareTo(a: string, b: string): int
    decreases |a|
  {
    if |a| == 0 || |b| == 0 then |a| - |b|
    else if a[0] != b[0] then a[0] as int - b[0] as int
    else CompareTo(a[1..], b[1..])
  }

  /** `compareTo` returns zero exactly for equal strings. */
  lemma {:induction false} CompareToZeroIff(a: string, b: string)
    ensures CompareTo(a, b) == 0 <==> a == b
    decreases |a|
  {
    if |a| > 0 && |b| > 0 && a[0] == b[0] {
      CompareToZeroIff(a[1..], b[1..]);
      assert a == [a[0]] + a[1..] && b == [b[0]] + b[1..];
    }
  }

  /** Swapping the arguments negates the result. */
  lemma {:induction false} CompareToAntisymmetric(a: string, b: string)
    ensures CompareTo(b, a) == -CompareTo(a, b)
    decreases |a|
  {
    if |a| > 0 && |b| > 0 && a[0] == b[0] {
      CompareToAntisymmetric(a[1..], b[1..]);
    }
  }

  /** The order `compareTo` induces is transitive. */
  lemma {:induction false} CompareToTransitive(a: string, b: string, c: string)
    requires CompareTo(a, b) < 0 && CompareTo(b, c) < 0
    ensures CompareTo(a, c) < 0
    decreases |a|
  {
    if |a| > 0 && |b| > 0 && |c| > 0 && a[0] == b[0] && b[0] == c[0] {
      CompareToTransitive(a[1..], b[1..], c[1..]);
    }
  }

  /** `a` sorts strictly before `b` (what a `TreeMap` keyed by name uses). */
  predicate Before(a: string, b: string)
  {
    CompareTo(a, b) < 0
  }

  /** Two distinct strings are ordered one way or the other, never both. */
  lemma BeforeTotal(a: string, b: string)
    ensures a != b ==> (Before(a, b) <==> !Before(b, a))
    ensures !Before(a, a)
  {
    CompareToZeroIff(a, b);
    CompareToZeroIff(a, a);
    CompareToAntisymmetric(a, b);
  }

  /** The decimal digit character for `d`. */
  function DigitChar(d: nat): char
    requires d < 10
  {
    (d + '0' as int) as char
  }

  predicate IsDigit(c: char)
  {
    '0' <= c <= '9'
  }

  /** `Integer.toString(n)` for a non-negative `n` (here, a 1-based note number). */
  function DecimalString(n: nat): (s: string)
    ensures |s| >= 1
    ensures forall i :: 0 <= i < |s| ==> IsDigit(s[i])
    ensures s[0] == '0' <==> n == 0
    decreases n
  {
    if n < 10 then [DigitChar(n)]
    else DecimalString(n / 10) + [DigitChar(n % 10)]
  }

  /** The number a string of decimal digits denotes. */
  function DecimalValue(s: string): nat
    requires forall i :: 0 <= i < |s| ==> IsDigit(s[i])
    decreases |s|
  {
    if |s| == 0 then 0
    else
      assert IsDigit(s[|s| - 1]);
      10 * DecimalValue(s[..|s| - 1]) + (s[|s| - 1] as int - '0' as int)
  }

  /** Reading the rendered number back gives the number: note numbers in
      rendered lists are unambiguous. */
  lemma {:induction false} DecimalRoundTrip(n: nat)
    ensures DecimalValue(DecimalString(n)) == n
    decreases n
  {
    if n >= 10 {
      var s := DecimalString(n);
      assert s[..|s| - 1] == DecimalString(n / 10);
      DecimalRoundTrip(n / 10);
    }
  }
}
