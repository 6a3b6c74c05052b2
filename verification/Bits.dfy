/** Numbers as strings of bits. */
module Bits {

  /** The width of a word, 32 bits. It is given by its bounds, so that proofs take it for
      any number and do not work through all of its bits. */
  const WORD: nat := var w: nat :| 31 < w < 33; w

  const BYTE: nat := var b: nat :| 7 < b < 9; b

  function Pow2(n: nat): (p: nat)
    ensures p >= 1
  {
    if n == 0 then 1 else 2 * Pow2(n - 1)
  }

  /** Bit `i` of `x`, the least significant being bit 0. */
  predicate Bit(x: nat, i: nat) {
    if i == 0 then x % 2 == 1 else Bit(x / 2, i - 1)
  }

  function Digit(b: bool): nat { if b then 1 else 0 }

  function And(a: nat, b: nat): (r: nat)
    decreases a
  {
    if a == 0 then 0 else Digit(a % 2 == 1 && b % 2 == 1) + 2 * And(a / 2, b / 2)
  }

  function Or(a: nat, b: nat): (r: nat)
    decreases a
  {
    if a == 0 then b else Digit(a % 2 == 1 || b % 2 == 1) + 2 * Or(a / 2, b / 2)
  }

  function Xor(a: nat, b: nat): (r: nat)
    decreases a
  {
    if a == 0 then b else Digit((a % 2 == 1) != (b % 2 == 1)) + 2 * Xor(a / 2, b / 2)
  }

  /** The complement within `n` bits. */
  function Not(a: nat, n: nat): (r: nat)
    requires a < Pow2(n)
  {
    Pow2(n) - 1 - a
  }

  lemma {:induction false} BitZero(i: nat)
    ensures !Bit(0, i)
  {
    if i > 0 { BitZero(i - 1); }
  }

  lemma {:induction false} BitAnd(a: nat, b: nat, i: nat)
    ensures Bit(And(a, b), i) <==> Bit(a, i) && Bit(b, i)
    decreases i
  {
    if a == 0 { BitZero(i); }
    else if i > 0 { BitAnd(a / 2, b / 2, i - 1); }
  }

  lemma {:induction false} BitOr(a: nat, b: nat, i: nat)
    ensures Bit(Or(a, b), i) <==> Bit(a, i) || Bit(b, i)
    decreases i
  {
    if a == 0 { BitZero(i); }
    else if i > 0 { BitOr(a / 2, b / 2, i - 1); }
  }

  lemma {:induction false} BitXor(a: nat, b: nat, i: nat)
    ensures Bit(Xor(a, b), i) <==> Bit(a, i) != Bit(b, i)
    decreases i
  {
    if a == 0 { BitZero(i); }
    else if i > 0 { BitXor(a / 2, b / 2, i - 1); }
  }

  lemma {:induction false} BitNot(a: nat, n: nat, i: nat)
    requires a < Pow2(n)
    ensures Bit(Not(a, n), i) <==> i < n && !Bit(a, i)
    decreases n
  {
    if n == 0 { BitZero(i); }
    else if i > 0 {
      BitNot(a / 2, n - 1, i - 1);
      assert Not(a, n) / 2 == Not(a / 2, n - 1);
    }
  }

  lemma OnesBit(n: nat, i: nat)
    ensures Bit(Pow2(n) - 1, i) <==> i < n
  {
    BitNot(0, n, i);
    BitZero(i);
  }

  /** No bits beyond the size. */
  lemma {:induction false} BitAbove(x: nat, n: nat, i: nat)
    requires x < Pow2(n) && i >= n
    ensures !Bit(x, i)
    decreases n
  {
    if n == 0 { BitZero(i); }
    else { BitAbove(x / 2, n - 1, i - 1); }
  }

  /** Numbers that agree in the bits of their size are equal. */
  lemma {:induction false} SameBits(a: nat, b: nat, n: nat)
    requires a < Pow2(n) && b < Pow2(n) && forall i: nat :: i < n ==> Bit(a, i) == Bit(b, i)
    ensures a == b
    decreases n
  {
    if n > 0 {
      assert Bit(a, 0) == Bit(b, 0);
      forall i: nat | i < n - 1 ensures Bit(a / 2, i) == Bit(b / 2, i) {
        assert Bit(a, i + 1) == Bit(b, i + 1);
      }
      SameBits(a / 2, b / 2, n - 1);
    }
  }

  lemma {:induction false} Pow2Mono(m: nat, n: nat)
    requires m <= n
    ensures Pow2(m) <= Pow2(n)
    decreases n
  {
    if m < n { Pow2Mono(m, n - 1); }
  }

  lemma {:induction false} Pow2Above(x: nat)
    ensures x < Pow2(x)
  {
    if x > 0 { Pow2Above(x - 1); }
  }

  lemma {:induction false} Pow2Add(m: nat, n: nat)
    ensures Pow2(m + n) == Pow2(m) * Pow2(n)
    decreases m
  {
    if m > 0 { Pow2Add(m - 1, n); }
  }

  lemma {:induction false} AndBelow(a: nat, b: nat)
    ensures And(a, b) <= a && And(a, b) <= b
    decreases a
  {
    if a > 0 { AndBelow(a / 2, b / 2); }
  }

  lemma {:induction false} AndCommutes(a: nat, b: nat)
    ensures And(a, b) == And(b, a)
    decreases a
  {
    if b == 0 { AndBelow(a, b); }
    else if a == 0 { AndBelow(b, a); }
    else { AndCommutes(a / 2, b / 2); }
  }

  lemma {:induction false} OrBelow(a: nat, b: nat, n: nat)
    requires a < Pow2(n) && b < Pow2(n)
    ensures Or(a, b) < Pow2(n)
    decreases n
  {
    if n > 0 && a > 0 { OrBelow(a / 2, b / 2, n - 1); }
  }

  lemma {:induction false} XorBelow(a: nat, b: nat, n: nat)
    requires a < Pow2(n) && b < Pow2(n)
    ensures Xor(a, b) < Pow2(n)
    decreases n
  {
    if n > 0 && a > 0 { XorBelow(a / 2, b / 2, n - 1); }
  }

  lemma {:induction false} BitPow2(n: nat, i: nat)
    ensures Bit(Pow2(n), i) <==> i == n
    decreases n
  {
    if n == 0 { if i > 0 { BitZero(i - 1); } }
    else if i > 0 { BitPow2(n - 1, i - 1); }
  }

  /** Masking with a single bit. */
  lemma {:induction false} AndPow2(x: nat, n: nat)
    ensures And(x, Pow2(n)) == if Bit(x, n) then Pow2(n) else 0
    decreases n
  {
    if x == 0 { BitZero(n); }
    else if n > 0 { AndPow2(x / 2, n - 1); }
    else { AndBelow(x / 2, 0); }
  }

  lemma {:induction false} BitShiftLeft(x: nat, k: nat, i: nat)
    ensures Bit(x * Pow2(k), i) <==> i >= k && Bit(x, i - k)
    decreases k
  {
    if k > 0 {
      assert x * Pow2(k) == 2 * (x * Pow2(k - 1));
      if i > 0 { BitShiftLeft(x, k - 1, i - 1); }
    } else {
      assert x * Pow2(0) == x;
    }
  }

  /** `x >> k`. */
  function Shr(x: nat, k: nat): (r: nat)
    decreases k
  {
    if k == 0 then x else Shr(x / 2, k - 1)
  }

  /** The `k` lowest bits of `x`. */
  function Low(x: nat, k: nat): (r: nat)
    ensures r < Pow2(k)
    decreases k
  {
    if k == 0 then 0 else x % 2 + 2 * Low(x / 2, k - 1)
  }

  lemma {:induction false} BitShiftRight(x: nat, k: nat, i: nat)
    ensures Bit(Shr(x, k), i) <==> Bit(x, i + k)
    decreases k
  {
    if k > 0 { BitShiftRight(x / 2, k - 1, i); }
  }

  lemma {:induction false} BitLow(x: nat, k: nat, i: nat)
    ensures Bit(Low(x, k), i) <==> i < k && Bit(x, i)
    decreases k
  {
    if k == 0 { BitZero(i); }
    else if i > 0 { BitLow(x / 2, k - 1, i - 1); }
  }

  /** The two parts make up the number: quotient and remainder by `Pow2(k)`. */
  lemma {:induction false} Split(x: nat, k: nat)
    ensures x == Shr(x, k) * Pow2(k) + Low(x, k)
    decreases k
  {
    if k > 0 {
      Split(x / 2, k - 1);
      assert 2 * (Shr(x, k) * Pow2(k - 1)) == Shr(x, k) * Pow2(k);
    }
  }

  lemma {:induction false} LowSmall(x: nat, k: nat)
    requires x < Pow2(k)
    ensures Low(x, k) == x && Shr(x, k) == 0
    decreases k
  {
    if k > 0 { LowSmall(x / 2, k - 1); }
  }

  lemma {:induction false} ShrShr(x: nat, a: nat, b: nat)
    ensures Shr(Shr(x, a), b) == Shr(x, a + b)
    decreases a
  {
    if a > 0 { ShrShr(x / 2, a - 1, b); }
  }

  lemma {:induction false} ShrLower(x: nat, k: nat)
    ensures Shr(x, k) <= x
    decreases k
  {
    if k > 0 { ShrLower(x / 2, k - 1); }
  }

  lemma {:induction false} ShrMono(a: nat, b: nat, k: nat)
    requires a <= b
    ensures Shr(a, k) <= Shr(b, k)
    decreases k
  {
    if k > 0 { ShrMono(a / 2, b / 2, k - 1); }
  }

  lemma {:induction false} ShrNext(x: nat, k: nat)
    ensures Shr(x, k + 1) == Shr(x, k) / 2
    decreases k
  {
    if k > 0 { ShrNext(x / 2, k - 1); }
  }

  /** `x` above the `k` bits of `y`: `x * Pow2(k) + y`, bit by bit. */
  function Join(x: nat, k: nat, y: nat): nat
    decreases k
  {
    if k == 0 then x + y else 2 * Join(x, k - 1, y / 2) + y % 2
  }

  lemma {:induction false} JoinIs(x: nat, k: nat, y: nat)
    ensures Join(x, k, y) == x * Pow2(k) + y
    decreases k
  {
    if k == 0 {
      assert x * Pow2(0) == x;
    } else {
      JoinIs(x, k - 1, y / 2);
      Twice(x, Pow2(k - 1));
    }
  }

  lemma Twice(x: nat, p: nat)
    ensures x * (2 * p) == 2 * (x * p)
  {}

  lemma {:induction false} JoinParts(x: nat, k: nat, y: nat)
    requires y < Pow2(k)
    ensures Low(Join(x, k, y), k) == y && Shr(Join(x, k, y), k) == x
    decreases k
  {
    if k > 0 { JoinParts(x, k - 1, y / 2); }
  }

  lemma {:induction false} JoinBound(x: nat, k: nat, y: nat, b: nat)
    requires x < Pow2(b) && y < Pow2(k)
    ensures Join(x, k, y) < Pow2(k + b)
    decreases k
  {
    if k > 0 { JoinBound(x, k - 1, y / 2, b); }
  }

  lemma {:induction false} JoinZero(k: nat, y: nat)
    ensures Join(0, k, y) == y
    decreases k
  {
    if k > 0 { JoinZero(k - 1, y / 2); }
  }

  lemma {:induction false} JoinJoin(x: nat, b: nat, n: nat, k: nat, y: nat)
    requires y < Pow2(k)
    ensures Join(x, k + b, Join(n, k, y)) == Join(Join(x, b, n), k, y)
    decreases k
  {
    if k > 0 { JoinJoin(x, b, n, k - 1, y / 2); }
  }

  /** Fields that do not overlap may be or-ed. */
  lemma {:induction false} OrFields(x: nat, y: nat, k: nat)
    requires y < Pow2(k)
    ensures Or(Join(x, k, 0), y) == Join(x, k, y)
    decreases k
  {
    if k == 0 { OrZero(x); }
    else {
      OrFields(x, y / 2, k - 1);
      if Join(x, k, 0) == 0 { assert Or(Join(x, k - 1, 0), y / 2) == y / 2; }
    }
  }

  lemma {:induction false} OrZero(x: nat)
    ensures Or(x, 0) == x
    decreases x
  {
    if x > 0 { OrZero(x / 2); }
  }

  /** A field is not affected by what is above it. */
  lemma {:induction false} FieldBelow(x: nat, y: nat, k: nat, s: nat, b: nat)
    requires s + b <= k
    ensures Low(Shr(Join(x, k, y), s), b) == Low(Shr(y, s), b)
    decreases s, b
  {
    if s > 0 { FieldBelow(x, y / 2, k - 1, s - 1, b); }
    else if b > 0 { FieldBelow(x, y / 2, k - 1, 0, b - 1); }
  }

  /** Masking out a field and shifting it down. */
  lemma {:induction false} MaskedField(x: nat, shift: nat, bits: nat)
    ensures Shr(And(x, Join(Pow2(bits) - 1, shift, 0)), shift) == Low(Shr(x, shift), bits)
    decreases shift
  {
    if shift == 0 { LowMask(x, bits); }
    else if x == 0 { ZeroField(shift, bits); }
    else {
      MaskedField(x / 2, shift - 1, bits);
      var m := Join(Pow2(bits) - 1, shift - 1, 0);
      assert Join(Pow2(bits) - 1, shift, 0) == 2 * m;
      assert And(x, 2 * m) == 2 * And(x / 2, m);
    }
  }

  lemma {:induction false} ZeroField(shift: nat, bits: nat)
    ensures Shr(0, shift) == 0 && Low(0, bits) == 0
  {
    LowSmall(0, shift);
    LowSmall(0, bits);
  }

  lemma {:induction false} LowMask(x: nat, bits: nat)
    ensures And(x, Pow2(bits) - 1) == Low(x, bits)
    decreases bits
  {
    if bits == 0 { AndBelow(x, 0); }
    else if x == 0 { ZeroField(0, bits); }
    else { LowMask(x / 2, bits - 1); }
  }

  function Shl(x: nat, k: nat): nat { Join(x, k, 0) }

  lemma {:induction false} BitJoin(x: nat, k: nat, y: nat, i: nat)
    requires y < Pow2(k)
    ensures Bit(Join(x, k, y), i) <==> if i < k then Bit(y, i) else Bit(x, i - k)
    decreases k
  {
    if k > 0 && i > 0 { BitJoin(x, k - 1, y / 2, i - 1); }
  }

  // ----- products -----

  lemma ProductMonotone(a: nat, b: nat, a': nat, b': nat)
    requires a' <= a && b' <= b
    ensures a' * b' <= a * b
  {
    assert a' * b' <= a * b' <= a * b;
  }
}
