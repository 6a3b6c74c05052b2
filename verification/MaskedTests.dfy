/** Masked equalities, taken apart into tests of bits. */
module MaskedTests {
  import opened Semantics
  import opened Bits
  import opened Expr
  import RelAccess

  // ----- words of a wide number -----

  /** Word `i` of a number, word 0 being the least significant one. */
  function WordOf(x: nat, i: nat): (w: nat) { Low(Shr(x, 32 * i), WORD) }

  lemma WordBit(x: nat, i: nat, j: nat, n: nat)
    requires j < 32 && n == 32 * i
    ensures Bit(WordOf(x, i), j) == Bit(x, n + j)
  {
    BitLow(Shr(x, n), WORD, j);
    BitShiftRight(x, n, j);
  }

  /** What remains of word `w` after `j` shifts to the left. */
  ghost predicate Shifted(m: nat, w: nat, j: nat) {
    m < Pow2(WORD) && forall t: nat | t < WORD :: Bit(m, t) <==> t >= j && Bit(w, t - j)
  }

  lemma ShiftOnce(m: nat, w: nat, j: nat)
    requires Shifted(m, w, j)
    ensures Shifted(Low(2 * m, WORD), w, j + 1)
  {
    forall t: nat | t < WORD ensures Bit(Low(2 * m, WORD), t) <==> t >= j + 1 && Bit(w, t - j - 1) {
      BitLow(2 * m, WORD, t);
      if t > 0 { assert Bit(2 * m, t) == Bit(m, t - 1); }
    }
  }

  lemma ShiftStart(w: nat)
    requires w < Pow2(WORD)
    ensures Shifted(w, w, 0)
  {}

  /** Nothing is left after all bits were shifted out. */
  lemma ShiftedOut(m: nat, w: nat, j: nat)
    requires Shifted(m, w, j) && j >= WORD
    ensures m == 0
  {
    forall t: nat | t < WORD ensures Bit(m, t) == Bit(0, t) { BitZero(t); }
    SameBits(m, 0, WORD);
  }

  lemma TopBit(m: nat)
    ensures And(m, Pow2(WORD - 1)) != 0 <==> Bit(m, WORD - 1)
  {
    AndPow2(m, WORD - 1);
  }

  // ----- what a masked value asks for -----

  /** Bit `j` of a word, the most significant one being bit 0: if it is in the mask, the
      packet has it as the value. */
  predicate BitAsked(env: Env, group: int, off: nat, mask: nat, value: nat, j: nat) {
    j < WORD && Bit(mask, WORD - 1 - j) ==> env.bit(group, off + j) == Bit(value, WORD - 1 - j)
  }

  ghost predicate BitsAsked(env: Env, group: int, off: nat, mask: nat, value: nat, n: nat) {
    forall j: nat | j < n :: BitAsked(env, group, off, mask, value, j)
  }

  ghost predicate WordAsked(env: Env, group: int, off: nat, mask: nat, value: nat, i: nat) {
    i < 4 ==> BitsAsked(env, group, off + (3 - i) * 32, WordOf(mask, i), WordOf(value, i), WORD)
  }

  /** ... of the words from `i` on. */
  ghost predicate WordsAsked(env: Env, group: int, off: nat, mask: nat, value: nat, i: nat) {
    forall k: nat | i <= k < 4 :: WordAsked(env, group, off, mask, value, k)
  }

  lemma BitMore(env: Env, group: int, off: nat, mask: nat, value: nat, j: nat)
    ensures BitsAsked(env, group, off, mask, value, j + 1) <==> BitsAsked(env, group, off, mask, value, j) && BitAsked(env, group, off, mask, value, j)
  {}

  lemma WordMore(env: Env, group: int, off: nat, mask: nat, value: nat, i: nat)
    ensures WordsAsked(env, group, off, mask, value, i) <==> WordsAsked(env, group, off, mask, value, i + 1) && WordAsked(env, group, off, mask, value, i)
  {}

  /** Nothing is asked for where the mask is used up. */
  lemma NothingLeft(env: Env, group: int, off: nat, mask: nat, value: nat, j: nat)
    requires Shifted(0, mask, j) && j <= WORD
    ensures BitsAsked(env, group, off, mask, value, WORD) <==> BitsAsked(env, group, off, mask, value, j)
  {
    forall k: nat | j <= k < WORD ensures BitAsked(env, group, off, mask, value, k) {
      BitZero(WORD - 1 - k + j);
    }
    if BitsAsked(env, group, off, mask, value, j) {
      forall k: nat | k < WORD ensures BitAsked(env, group, off, mask, value, k) {
        if k < j { assert BitAsked(env, group, off, mask, value, k); }
      }
    }
  }

  /** Bit `i` of a field, the least significant one being bit 0. */
  predicate FieldBitAsked(env: Env, group: int, off: nat, length: nat, mask: nat, value: nat, i: nat) {
    i < length && Bit(mask, i) ==> env.bit(group, off + length - 1 - i) == Bit(value, i)
  }

  ghost predicate FieldAsked(env: Env, group: int, off: nat, length: nat, mask: nat, value: nat) {
    forall i: nat | i < length :: FieldBitAsked(env, group, off, length, mask, value, i)
  }

  /** A number aligned to the left of 128 bits. */
  function Aligned(x: nat, length: nat): (y: nat)
    requires length <= WIDTH
  {
    Low(Shl(x, WIDTH - length), WIDTH)
  }

  lemma AlignedBit(x: nat, length: nat, k: nat, j: nat, n: nat)
    requires length <= WIDTH && k < 4 && j < 32 && n == 32 * k
    ensures Bit(WordOf(Aligned(x, length), k), j) <==> n + j >= WIDTH - length && Bit(x, n + j - (WIDTH - length))
  {
    WordBit(Aligned(x, length), k, j, n);
    BitLow(Shl(x, WIDTH - length), WIDTH, n + j);
    BitJoin(x, WIDTH - length, 0, n + j);
    BitZero(n + j);
  }

  lemma AlignedAsks(env: Env, group: int, off: nat, length: nat, mask: nat, value: nat, k: nat, j: nat, i: int, o: nat, m: nat, v: nat)
    requires length <= WIDTH && k < 4 && j < 32 && i == 32 * k + 31 - j - (WIDTH - length) && o == off + (3 - k) * 32
    requires m == WordOf(Aligned(mask, length), k) && v == WordOf(Aligned(value, length), k)
    ensures BitAsked(env, group, o, m, v, j) <==> (i >= 0 ==> FieldBitAsked(env, group, off, length, mask, value, i))
  {
    var t, n: nat := 31 - j, 32 * k;
    assert WORD - 1 - j == t;
    assert off + length - 1 - i == o + j;
    assert Bit(m, t) <==> i >= 0 && Bit(mask, i) by { AlignedBit(mask, length, k, t, n); }
    assert Bit(v, t) <==> i >= 0 && Bit(value, i) by { AlignedBit(value, length, k, t, n); }
  }

  lemma FieldFromWords(env: Env, group: int, off: nat, length: nat, mask: nat, value: nat, i: nat, n: nat, k: nat, j: nat)
    requires length <= WIDTH && i < length && n == i + (WIDTH - length) && n == 32 * k + 31 - j && j < 32 && k < 4
    requires WordsAsked(env, group, off, Aligned(mask, length), Aligned(value, length), 0)
    ensures FieldBitAsked(env, group, off, length, mask, value, i)
  {
    var m, v, o := WordOf(Aligned(mask, length), k), WordOf(Aligned(value, length), k), off + (3 - k) * 32;
    assert WordAsked(env, group, off, Aligned(mask, length), Aligned(value, length), k);
    assert BitAsked(env, group, o, m, v, j);
    AlignedAsks(env, group, off, length, mask, value, k, j, i, o, m, v);
  }

  lemma WordFromField(env: Env, group: int, off: nat, length: nat, mask: nat, value: nat, k: nat, o: nat, m: nat, v: nat)
    requires length <= WIDTH && k < 4 && o == off + (3 - k) * 32 && FieldAsked(env, group, off, length, mask, value)
    requires m == WordOf(Aligned(mask, length), k) && v == WordOf(Aligned(value, length), k)
    ensures BitsAsked(env, group, o, m, v, WORD)
  {
    forall j: nat | j < WORD ensures BitAsked(env, group, o, m, v, j) {
      var i := 32 * k + 31 - j - (WIDTH - length);
      AlignedAsks(env, group, off, length, mask, value, k, j, i, o, m, v);
      if 0 <= i { assert i < length ==> FieldBitAsked(env, group, off, length, mask, value, i); }
    }
  }

  lemma AskedInWords(env: Env, group: int, off: nat, length: nat, mask: nat, value: nat)
    requires length <= WIDTH
    ensures WordsAsked(env, group, off, Aligned(mask, length), Aligned(value, length), 0) <==> FieldAsked(env, group, off, length, mask, value)
  {
    var m, v := Aligned(mask, length), Aligned(value, length);
    if WordsAsked(env, group, off, m, v, 0) {
      forall i: nat | i < length ensures FieldBitAsked(env, group, off, length, mask, value, i) {
        var n := i + (WIDTH - length);
        FieldFromWords(env, group, off, length, mask, value, i, n, n / 32, 31 - n % 32);
      }
    }
    if FieldAsked(env, group, off, length, mask, value) {
      forall k: nat | k < 4 ensures WordAsked(env, group, off, m, v, k) {
        WordFromField(env, group, off, length, mask, value, k, off + (3 - k) * 32, WordOf(m, k), WordOf(v, k));
      }
    }
  }

  /** Asking for the bits in the mask is comparing the masked field with as much of the
      value as there are bits in the field. */
  lemma AskedIsMasked(env: Env, group: int, off: nat, length: nat, mask: nat, value: nat)
    requires And(value, mask) == value
    ensures FieldAsked(env, group, off, length, mask, value) <==> And(FieldValue(env, group, off, length), mask) == Low(value, length)
  {
    var f := FieldValue(env, group, off, length);
    forall i: nat ensures Bit(And(f, mask), i) <==> i < length && env.bit(group, off + length - 1 - i) && Bit(mask, i) {
      BitAnd(f, mask, i);
      FieldBit(env, group, off, length, i);
    }
    forall i: nat ensures Bit(Low(value, length), i) <==> i < length && Bit(value, i) { BitLow(value, length, i); }
    forall i: nat ensures Bit(value, i) ==> Bit(mask, i) { BitAnd(value, mask, i); }
    if FieldAsked(env, group, off, length, mask, value) {
      forall i: nat ensures Bit(And(f, mask), i) == Bit(Low(value, length), i) {
        if i < length { assert FieldBitAsked(env, group, off, length, mask, value, i); }
      }
      RelAccess.EqualBits(And(f, mask), Low(value, length));
    }
    if And(f, mask) == Low(value, length) {
      forall i: nat | i < length ensures FieldBitAsked(env, group, off, length, mask, value, i) {
        assert Bit(And(f, mask), i) == Bit(Low(value, length), i);
      }
    }
  }

  /** The tests made of a masked comparison ignore bits of the value beyond the field.
      They are exact if and only if there are none, or the value is not in the mask, so
      that the row is dropped. */
  lemma DecomposeExact(group: int, off: nat, length: nat, mask: nat, value: nat)
    requires length <= WIDTH && mask < Pow2(WIDTH) && value < Pow2(WIDTH)
    ensures (forall env :: MaskedMatch(env, group, off, length, mask, value) <==> And(FieldValue(env, group, off, length), mask) == value)
      <==> (value < Pow2(length) || And(value, mask) != value)
  {
    if value < Pow2(length) {
      LowSmall(value, length);
      forall env ensures MaskedMatch(env, group, off, length, mask, value) <==> And(FieldValue(env, group, off, length), mask) == value {
        if And(FieldValue(env, group, off, length), mask) == value { RelAccess.WithinMask(FieldValue(env, group, off, length), mask, value); }
      }
    } else if And(value, mask) != value {
      forall env ensures And(FieldValue(env, group, off, length), mask) != value {
        if And(FieldValue(env, group, off, length), mask) == value { RelAccess.WithinMask(FieldValue(env, group, off, length), mask, value); }
      }
    } else {
      var env := FieldOf(off, length, value);
      forall i: nat | i < length ensures FieldBitAsked(env, group, off, length, mask, value, i) {}
      AskedIsMasked(env, group, off, length, mask, value);
      AndBelow(FieldValue(env, group, off, length), mask);
      assert MaskedMatch(env, group, off, length, mask, value) && And(FieldValue(env, group, off, length), mask) != value;
    }
  }

  /** What is left of the comparison. */
  predicate MaskedMatch(env: Env, group: int, off: nat, length: nat, mask: nat, value: nat) {
    And(value, mask) == value && And(FieldValue(env, group, off, length), mask) == Low(value, length)
  }

  // ----- masks on an access -----

  /** Accesses are of 1 to 128 bits, and belong to an offset group. */
  predicate Sized(x: Term) {
    match x
    case Access(group, _, size) => group >= 0 && 0 < size <= WIDTH
    case MaskLeft(_, y) => Sized(y)
    case MaskRight(y, _) => Sized(y)
    case ShiftLeft(y, _) => Sized(y)
    case ShiftRight(y, _) => Sized(y)
  }

  predicate Typed(d: Expr) {
    match d
    case Compare(_, x, c) => Sized(x) && c < Pow2(WIDTH)
    case LNot(a) => Typed(a)
    case LAnd(a, b) => Typed(a) && Typed(b)
    case LOr(a, b) => Typed(a) && Typed(b)
    case _ => true
  }

  /** An access with masks. */
  predicate MaskChain(x: Term) { x.Access? || ((x.MaskLeft? || x.MaskRight?) && MaskChain(x.x)) }

  function ChainBase(x: Term): (a: Term)
    requires MaskChain(x)
    ensures a.Access? && (Sized(x) ==> Sized(a))
  {
    if x.Access? then x else ChainBase(x.x)
  }

  /** All masks, in arithmetic of `w` bits. */
  function ChainMask(x: Term, w: nat): (m: nat)
    requires MaskChain(x)
    ensures m < Pow2(w)
  {
    if x.Access? then Pow2(w) - 1 else AndBelow(x.mask, ChainMask(x.x, w)); And(x.mask, ChainMask(x.x, w))
  }

  lemma {:induction false} ChainValue(x: Term, env: Env, w: nat)
    requires MaskChain(x) && ChainBase(x).size <= w
    ensures var a := ChainBase(x); TermValue(x, env) == And(FieldValue(env, a.group, 8 * a.offset, a.size), ChainMask(x, w))
    decreases x
  {
    var a := ChainBase(x);
    var f := FieldValue(env, a.group, 8 * a.offset, a.size);
    if x.Access? {
      Pow2Mono(x.size, w);
      LowMask(f, w);
      LowSmall(f, w);
    } else {
      ChainValue(x.x, env, w);
      RelAccess.AndAnd(f, x.mask, ChainMask(x.x, w));
      AndCommutes(x.mask, TermValue(x.x, env));
    }
  }

  /** The masks of `x` are those of `a` and `mask`. */
  ghost predicate Peeled(x: Term, a: Term, mask: nat, w: nat)
    requires MaskChain(x) && MaskChain(a)
  {
    forall i: nat :: Bit(ChainMask(x, w), i) <==> Bit(ChainMask(a, w), i) && Bit(mask, i)
  }

  lemma PeelOne(x: Term, a: Term, mask: nat, w: nat)
    requires MaskChain(x) && MaskChain(a) && Peeled(x, a, mask, w) && !a.Access?
    ensures Peeled(x, a.x, And(mask, a.mask), w)
  {
    forall i: nat ensures Bit(ChainMask(x, w), i) <==> Bit(ChainMask(a.x, w), i) && Bit(And(mask, a.mask), i) {
      BitAnd(a.mask, ChainMask(a.x, w), i);
      BitAnd(mask, a.mask, i);
    }
  }

  lemma NoneStripped(x: Term, w: nat)
    requires MaskChain(x)
    ensures Peeled(x, x, Pow2(w) - 1, w)
  {
    forall i: nat ensures Bit(ChainMask(x, w), i) ==> Bit(Pow2(w) - 1, i) {
      OnesBit(w, i);
      if i >= w { BitAbove(ChainMask(x, w), w, i); }
    }
  }

  lemma AllPeeled(x: Term, a: Term, mask: nat, w: nat)
    requires MaskChain(x) && a.Access? && Peeled(x, a, mask, w) && mask < Pow2(w)
    ensures mask == ChainMask(x, w)
  {
    forall i: nat ensures Bit(ChainMask(x, w), i) == Bit(mask, i) {
      OnesBit(w, i);
      if i >= w { BitAbove(mask, w, i); }
    }
    RelAccess.EqualBits(ChainMask(x, w), mask);
  }

  /** A test that is compiled exactly. */
  predicate ExactTest(d: Expr) {
    && d.Compare? && d.rel == EQ && MaskChain(d.x)
    && (d.c < Pow2(ChainBase(d.x).size) || And(d.c, ChainMask(d.x, WIDTH)) != d.c)
  }

  /** An access with masks to its right. */
  predicate RightMasks(x: Term) { x.Access? || (x.MaskRight? && RightMasks(x.x)) }

  lemma {:induction false} RightMasksChain(x: Term)
    requires RightMasks(x)
    ensures MaskChain(x)
    decreases x
  {
    if x.MaskRight? { RightMasksChain(x.x); }
  }

  /** A test a rule can express as it is. */
  predicate PlainTest(d: Expr) { ExactTest(d) && RightMasks(d.x) }

  /** All tests are such. */
  predicate PlainTests(d: Expr) {
    match d
    case Compare(_, _, _) => PlainTest(d) && Typed(d)
    case LNot(a) => PlainTests(a)
    case LAnd(a, b) => PlainTests(a) && PlainTests(b)
    case LOr(a, b) => PlainTests(a) && PlainTests(b)
    case _ => true
  }

  lemma {:induction false} PlainTestsTyped(d: Expr)
    requires PlainTests(d)
    ensures Typed(d)
    decreases d
  {
    match d
    case LNot(a) => PlainTestsTyped(a);
    case LAnd(a, b) => PlainTestsTyped(a); PlainTestsTyped(b);
    case LOr(a, b) => PlainTestsTyped(a); PlainTestsTyped(b);
    case _ =>
  }

  /** An exact test holds if what is left of it does. */
  lemma ChainMatch(x: Term, c: nat, a: Term, mask: nat, env: Env)
    requires ExactTest(Compare(EQ, x, c)) && Sized(x) && c < Pow2(WIDTH) && mask < Pow2(WIDTH)
    requires a == ChainBase(x) && Peeled(x, a, mask, WIDTH)
    ensures MaskedMatch(env, a.group, 8 * a.offset, a.size, mask, c) <==> TermValue(x, env) == c
  {
    AllPeeled(x, a, mask, WIDTH);
    ChainValue(x, env, WIDTH);
    DecomposeExact(a.group, 8 * a.offset, a.size, mask, c);
    assert MaskedMatch(env, a.group, 8 * a.offset, a.size, mask, c) <==> And(FieldValue(env, a.group, 8 * a.offset, a.size), mask) == c;
  }
}
