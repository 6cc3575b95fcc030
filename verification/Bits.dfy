/** Bit strings, written most significant bit first, and the 32-bit arithmetic the programs do on them. */
module Bits {
  import opened Arithmetic

  type BitString = seq<bool>

  const WORD: nat := 0x1_0000_0000

  /** An unsigned 32-bit machine word, kept as the number it stands for. */
  type Word32 = w: nat | w < 0x1_0000_0000

  function Pow2(n: nat): (p: nat)
    ensures p > 0
  {
    if n == 0 then 1 else 2 * Pow2(n - 1)
  }

  lemma Pow2Add(a: nat, b: nat)
    ensures Pow2(a + b) == Pow2(a) * Pow2(b)
  {
    if a > 0 {
      Pow2Add(a - 1, b);
    }
  }

  lemma Pow2Constants()
    ensures Pow2(1) == 2 && Pow2(3) == 8 && Pow2(4) == 16 && Pow2(5) == 32 && Pow2(7) == 128
    ensures Pow2(28) == 0x1000_0000 && Pow2(29) == 0x2000_0000 && Pow2(31) == 0x8000_0000 && Pow2(32) == WORD
  {
    assert Pow2(4) == 16;
    assert Pow2(8) == 256;
    Pow2Add(8, 8);
    assert Pow2(16) == 0x10000;
    Pow2Add(16, 8);
    Pow2Add(24, 4);
    Pow2Add(28, 3);
  }

  /** The number a bit string stands for. */
  function Val(b: BitString): nat
  {
    if b == [] then 0 else 2 * Val(b[..|b| - 1]) + if b[|b| - 1] then 1 else 0
  }

  /** The low `n` bits of `x`. */
  function ToBits(x: nat, n: nat): (b: BitString)
    ensures |b| == n
  {
    if n == 0 then [] else ToBits(x / 2, n - 1) + [x % 2 == 1]
  }

  function Zeros(n: nat): (b: BitString)
    ensures |b| == n
    ensures forall i :: 0 <= i < n ==> !b[i]
  {
    seq(n, _ => false)
  }

  predicate AllZero(b: BitString)
  {
    forall i :: 0 <= i < |b| ==> !b[i]
  }

  /** Bit `i` of the endless string that continues `b` with zeros. */
  predicate At(b: BitString, i: nat)
  {
    i < |b| && b[i]
  }

  /** The first `n` bits of that endless string. */
  function Take(b: BitString, n: nat): (t: BitString)
    ensures |t| == n
    ensures forall i :: 0 <= i < n ==> t[i] == At(b, i)
  {
    if n <= |b| then b[..n] else b + Zeros(n - |b|)
  }

  /** What follows its first `n` bits. */
  function Drop(b: BitString, n: nat): (d: BitString)
    ensures |d| == if n <= |b| then |b| - n else 0
    ensures forall i: nat :: At(d, i) == At(b, n + i)
  {
    if n <= |b| then b[n..] else []
  }

  lemma ValBound(b: BitString)
    ensures Val(b) < Pow2(|b|)
  {
    if b != [] {
      ValBound(b[..|b| - 1]);
    }
  }

  lemma {:induction false} ValConcat(a: BitString, b: BitString)
    ensures Val(a + b) == Val(a) * Pow2(|b|) + Val(b)
  {
    if b == [] {
      assert a + b == a;
    } else {
      var c := b[..|b| - 1];
      ValConcat(a, c);
      assert (a + b)[..|a + b| - 1] == a + c;
      assert Val(a) * Pow2(|b|) == 2 * (Val(a) * Pow2(|c|));
    }
  }

  lemma {:induction false} ValZero(b: BitString)
    ensures Val(b) == 0 <==> AllZero(b)
  {
    if b != [] {
      var c := b[..|b| - 1];
      ValZero(c);
      assert b == c + [b[|b| - 1]];
    }
  }

  lemma {:induction false} ValInjective(a: BitString, b: BitString)
    requires |a| == |b| && Val(a) == Val(b)
    ensures a == b
  {
    if a != [] {
      var n := |a| - 1;
      assert a[n] == b[n];
      ValInjective(a[..n], b[..n]);
      assert a == a[..n] + [a[n]] && b == b[..n] + [b[n]];
    }
  }

  lemma {:induction false} ValToBits(x: nat, n: nat)
    requires x < Pow2(n)
    ensures Val(ToBits(x, n)) == x
  {
    if n > 0 {
      ValToBits(x / 2, n - 1);
      assert ToBits(x, n)[..n - 1] == ToBits(x / 2, n - 1);
    }
  }

  lemma ToBitsVal(b: BitString)
    ensures Val(b) < Pow2(|b|)
    ensures ToBits(Val(b), |b|) == b
  {
    ValBound(b);
    ValToBits(Val(b), |b|);
    ValInjective(ToBits(Val(b), |b|), b);
  }

  /** Splitting a bit string by division. */
  lemma Split(b: BitString, k: nat)
    requires k <= |b|
    ensures Val(b) == Val(b[..k]) * Pow2(|b| - k) + Val(b[k..])
    ensures Val(b) / Pow2(|b| - k) == Val(b[..k])
    ensures Val(b) % Pow2(|b| - k) == Val(b[k..])
  {
    hide Val, Pow2;
    assert b == b[..k] + b[k..];
    ValConcat(b[..k], b[k..]);
    ValBound(b[k..]);
    DivMod(Val(b[..k]), Pow2(|b| - k), Val(b[k..]));
  }

  /** Appending zeros multiplies. */
  lemma AppendZeros(b: BitString, k: nat)
    ensures Val(b + Zeros(k)) == Val(b) * Pow2(k)
  {
    hide Val, Pow2;
    ValConcat(b, Zeros(k));
    ValZero(Zeros(k));
  }

  /** Shifting a bit string left inside a fixed width. */
  lemma ShiftLeft(b: BitString, k: nat)
    requires k <= |b|
    ensures Val(b) * Pow2(k) % Pow2(|b|) == Val(b[k..] + Zeros(k))
  {
    hide Val, Pow2;
    Split(b, k);
    AppendZeros(b[k..], k);
    ValBound(b[k..]);
    Pow2Add(|b| - k, k);
    ShiftModulo(Val(b[..k]), Pow2(|b| - k), Val(b[k..]), Pow2(k));
  }

  lemma ShiftModulo(h: nat, p: nat, t: nat, k: nat)
    requires t < p && 0 < k && 0 < p * k
    ensures (h * p + t) * k % (p * k) == t * k
  {
    assert (h * p + t) * k == h * (p * k) + t * k;
    assert t * k < p * k;
    DivMod(h, p * k, t * k);
  }

  /** Bitwise or and exclusive or of two numbers. */
  function BitOr(a: nat, b: nat): nat
  {
    if a == 0 && b == 0 then 0 else 2 * BitOr(a / 2, b / 2) + if a % 2 == 1 || b % 2 == 1 then 1 else 0
  }

  function BitXor(a: nat, b: nat): nat
  {
    if a == 0 && b == 0 then 0 else 2 * BitXor(a / 2, b / 2) + if a % 2 != b % 2 then 1 else 0
  }

  /** Where no bit is set in both operands, or, exclusive or and addition agree. */
  lemma {:induction false} DisjointBits(q: nat, n: nat, r: nat)
    requires r < Pow2(n)
    ensures BitOr(q * Pow2(n), r) == BitXor(q * Pow2(n), r) == q * Pow2(n) + r
  {
    if n > 0 {
      var p := Pow2(n - 1);
      assert q * Pow2(n) == 2 * (q * p);
      DisjointBits(q, n - 1, r / 2);
    } else {
      OrZero(q);
    }
  }

  lemma OrZero(a: nat)
    ensures BitOr(a, 0) == BitXor(a, 0) == a
  {
  }

  /** The two's complement reading of a word, and the word of an integer. */
  function Signed(w: Word32): int
  {
    if w < 0x8000_0000 then w else w - WORD
  }

  function Unsigned(n: int): Word32
  {
    n % WORD
  }

  lemma UnsignedMinus(a: int, b: int)
    ensures Unsigned(Unsigned(a) - b) == Unsigned(a - b)
  {
  }

  predicate IsInt32(n: int)
  {
    -0x8000_0000 <= n < 0x8000_0000
  }

  /** The word as a 32-bit row of bits. */
  function Row(w: Word32): (b: BitString)
    ensures |b| == 32 && Val(b) == w
  {
    Pow2Constants();
    ValToBits(w, 32);
    ToBits(w, 32)
  }

  /** The number of 27 bits, sign included, that agrees with `x` modulo 2^27. */
  function Short(x: int): (n: int)
    ensures -0x400_0000 <= n < 0x400_0000
    ensures -0x400_0000 <= x < 0x400_0000 <==> n == x
  {
    (x + 0x400_0000) % 0x800_0000 - 0x400_0000
  }

  /** The low 27 bits of a number in the upper 27 bits of a word, and back. */
  lemma ShiftedNumber(x: int)
    ensures Unsigned(x) * 32 % WORD == Unsigned(x * 32) == x % 0x800_0000 * 32
  {
    var a, low := x / 0x800_0000, x % 0x800_0000;
    assert x * 32 == a * WORD + low * 32;
    var q, w := x / WORD, x % WORD;
    assert w * 32 == (a - 32 * q) * WORD + low * 32;
  }

  lemma NumberBack(x: int, tags: nat)
    requires tags < 32
    ensures x % 0x800_0000 * 32 + tags < WORD
    ensures Signed(x % 0x800_0000 * 32 + tags) / 32 == Short(x)
  {
    var low := x % 0x800_0000;
    assert Short(x) == if low < 0x400_0000 then low else low - 0x800_0000;
    SignedShift(low, tags);
  }

  lemma SignedShift(low: nat, tags: nat)
    requires low < 0x800_0000 && tags < 32
    ensures Signed(low * 32 + tags) / 32 == if low < 0x400_0000 then low else low - 0x800_0000
  {
  }
}
