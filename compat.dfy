/** The portable fallbacks for two compiler builtins (src/lib/compat.cc):
    count-trailing-zeros and population count of a 64-bit unsigned word.
    An `unsigned long long` is a natural below 2^64; its bit operations are
    written out on naturals. */
module Compat {
  import opened Arith

  /** CHAR_BIT * sizeof(unsigned long long). */
  const WordBits: nat := 64

  type Word = x: nat | x < Pow2(WordBits)

  /** Bitwise exclusive or, one bit at a time from the least significant. */
  function Xor(a: nat, b: nat): nat
    decreases a + b
  {
    if a == 0 && b == 0 then 0
    else (if a % 2 != b % 2 then 1 else 0) + 2 * Xor(a / 2, b / 2)
  }

  /** Number of shifts right that bring x to zero (the position of its
      highest set bit plus one). */
  function BitLength(x: nat): nat
  {
    if x == 0 then 0 else 1 + BitLength(x / 2)
  }

  /** Reference definition: the number of low-order zero bits of a non-zero
      value. */
  function TrailingZeros(v: nat): nat
    requires v > 0
  {
    if v % 2 == 1 then 0 else 1 + TrailingZeros(v / 2)
  }

  /** Reference definition: the number of one bits of a value. */
  function Ones(w: nat): nat
  {
    if w == 0 then 0 else w % 2 + Ones(w / 2)
  }

  /** Bit i of w (bit 0 is the least significant). */
  predicate Bit(w: nat, i: nat)
  {
    (w / Pow2(i)) % 2 == 1
  }

  lemma {:induction false} XorSelf(a: nat)
    ensures Xor(a, a) == 0
  {
    if a != 0 {
      XorSelf(a / 2);
    }
  }

  /** The trick `(v ^ (v - 1)) >> 1` turns the trailing zeros of v into ones
      and clears everything else, so its bit length is the trailing-zero count. */
  lemma {:induction false} TrailingMaskLength(v: nat)
    requires v > 0
    ensures BitLength(Xor(v, v - 1) / 2) == TrailingZeros(v)
  {
    if v % 2 == 1 {
      var h := v / 2;
      assert v - 1 == 2 * h;
      assert (v - 1) / 2 == h && (v - 1) % 2 == 0;
      XorSelf(h);
      assert Xor(v, v - 1) == 1 + 2 * Xor(h, h);
    } else {
      var w := v / 2;
      assert v == 2 * w && w > 0;
      assert v - 1 == 2 * (w - 1) + 1;
      assert (v - 1) / 2 == w - 1 && (v - 1) % 2 == 1;
      assert Xor(v, v - 1) == 1 + 2 * Xor(w, w - 1);
      var m := Xor(w, w - 1);
      assert Xor(v, v - 1) / 2 == m;
      assert m % 2 == 1 by {
        assert w % 2 != (w - 1) % 2;
        assert m == (if w % 2 != (w - 1) % 2 then 1 else 0) + 2 * Xor(w / 2, (w - 1) / 2);
      }
      assert BitLength(m) == 1 + BitLength(m / 2);
      TrailingMaskLength(w);
    }
  }

  /** The trailing-zero count c of a non-zero v below 2^n is below n, and v
      is divisible by 2^c but not by 2^(c+1). */
  lemma {:induction false} TrailingZerosLowestBit(v: nat, n: nat)
    requires 0 < v < Pow2(n)
    ensures TrailingZeros(v) < n
    ensures v % Pow2(TrailingZeros(v)) == 0
    ensures v % Pow2(TrailingZeros(v) + 1) != 0
  {
    if v % 2 == 0 {
      var w := v / 2;
      assert v == 2 * w;
      TrailingZerosLowestBit(w, n - 1);
      var c := TrailingZeros(w);
      ModDouble(w, Pow2(c));
      ModDouble(w, Pow2(c + 1));
    }
  }

  /** `__builtin_ctzll`: 64 for zero, else the index of the lowest set bit. */
  method CountTrailingZeros(v0: Word) returns (c: nat)
    ensures v0 == 0 ==> c == WordBits
    ensures v0 != 0 ==> c < WordBits && v0 % Pow2(c) == 0 && v0 % Pow2(c + 1) != 0
    ensures v0 != 0 ==> c == TrailingZeros(v0)
  {
    var v: nat := v0;
    if v != 0 {
      v := Xor(v, v - 1) / 2;
      ghost var mask := v;
      c := 0;
      while v != 0
        invariant c + BitLength(v) == BitLength(mask)
        decreases v
      {
        v := v / 2;
        c := c + 1;
      }
      TrailingMaskLength(v0);
      TrailingZerosLowestBit(v0, WordBits);
    } else {
      c := WordBits;
    }
  }

  lemma {:induction false} OnesBound(w: nat, n: nat)
    requires w < Pow2(n)
    ensures Ones(w) <= n
    ensures Ones(w) == 0 <==> w == 0
  {
    if w != 0 {
      OnesBound(w / 2, n - 1);
      assert w % 2 == 1 || w / 2 != 0;
    }
  }

  /** `__builtin_popcountll`: counts the set bits among the 64 positions of
      w, as `std::bitset<64>::count` does. */
  method PopCount(w: Word) returns (n: nat)
    ensures n == Ones(w)
    ensures n <= WordBits
    ensures n == 0 <==> w == 0
  {
    n := 0;
    for i := 0 to WordBits
      invariant n + Ones(w / Pow2(i)) == Ones(w)
    {
      if Bit(w, i) {
        n := n + 1;
      }
      DivDouble(w, Pow2(i));
    }
    DivPow2Small(w, WordBits);
    OnesBound(w, WordBits);
  }
}
