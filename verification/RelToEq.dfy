/** Orderings against powers of two, turned into one masked test. */
module RelToEq {
  import opened Bits
  import opened Expr
  import Comparisons
  import RelAccess
  import U128
  import MaskedTests

  // ----- powers of two -----

  /** Which power of two is it? */
  ghost predicate PowerIs(v: nat, ld: int) {
    if ld < 0 then forall k: nat :: v != Pow2(k) else v == Pow2(ld)
  }

  /** Bit `k` and no other. */
  ghost predicate OneBit(v: nat, k: nat) { forall i: nat {:trigger Bit(v, i)} :: Bit(v, i) <==> i == k }

  lemma OneBitPower(v: nat, k: nat)
    ensures OneBit(v, k) <==> v == Pow2(k)
  {
    forall i: nat ensures Bit(Pow2(k), i) <==> i == k { BitPow2(k, i); }
    if OneBit(v, k) {
      forall i: nat ensures Bit(v, i) == Bit(Pow2(k), i) {}
      RelAccess.EqualBits(v, Pow2(k));
    }
  }

  lemma {:induction false} ShlDouble(u: nat, k: nat)
    ensures Shl(2 * u, k) == Shl(u, k + 1)
    decreases k
  {
    assert Join(u, k + 1, 0) == 2 * Join(u, k, 0);
    if k > 0 {
      ShlDouble(u, k - 1);
      assert Join(2 * u, k, 0) == 2 * Join(2 * u, k - 1, 0);
    }
  }

  lemma OddPower(v: nat, u: nat, ld: nat)
    requires v == Shl(u, ld) && u % 2 == 1
    ensures PowerIs(v, if u == 1 then ld else -1)
  {
    RelAccess.ShlOne(ld);
    BitJoin(u, ld, 0, ld);
    forall k: nat | v == Pow2(k) ensures u == 1 {
      BitPow2(k, ld);
      RelAccess.ShlOrder(EQ, u, 1, ld);
    }
  }

  method Log2(v: nat) returns (ld: int)
    ensures PowerIs(v, ld)
  {
    if v == 0 { return -1; }
    var u := v;
    ld := 0;
    while u % 2 == 0
      invariant u > 0 && ld >= 0 && v == Shl(u, ld)
      decreases u
    {
      ShlDouble(u / 2, ld);
      ld, u := ld + 1, u / 2;
    }
    OddPower(v, u, ld);
    if u != 1 { ld := -1; }
  }

  /** The bits of a word of `v`. */
  lemma InWord(v: nat, i: nat, n: nat, j: nat)
    requires n == 32 * i
    ensures Bit(MaskedTests.WordOf(v, i), j) <==> j < 32 && Bit(v, n + j)
  {
    BitLow(Shr(v, n), WORD, j);
    BitShiftRight(v, n, j);
  }

  ghost predicate Blank(v: nat, from: nat, to: nat) { forall j: nat {:trigger Bit(v, j)} :: from <= j < to ==> !Bit(v, j) }

  lemma BlankWord(v: nat, i: nat, n: nat, m: nat)
    requires n == 32 * i && m == n + 32
    ensures MaskedTests.WordOf(v, i) == 0 <==> Blank(v, n, m)
  {
    var w := MaskedTests.WordOf(v, i);
    if w == 0 {
      forall j: nat | n <= j < m ensures !Bit(v, j) {
        InWord(v, i, n, j - n);
        BitZero(j - n);
      }
    }
    if Blank(v, n, m) {
      forall j: nat ensures Bit(w, j) == Bit(0, j) {
        InWord(v, i, n, j);
        BitZero(j);
      }
      RelAccess.EqualBits(w, 0);
    }
  }

  lemma WordIsPower(v: nat, i: nat, n: nat, w: nat, ld: nat)
    requires n == 32 * i && w == MaskedTests.WordOf(v, i) && w == Pow2(ld)
    ensures ld < 32 && Bit(v, n + ld)
    ensures (forall j: nat :: Bit(v, j) ==> n <= j < n + 32) ==> v == Pow2(n + ld)
  {
    OneBitPower(w, ld);
    assert Bit(w, ld);
    InWord(v, i, n, ld);
    if forall j: nat :: Bit(v, j) ==> n <= j < n + 32 {
      forall j: nat ensures Bit(v, j) <==> j == n + ld {
        if j >= n { InWord(v, i, n, j - n); }
      }
      OneBitPower(v, n + ld);
    }
  }

  lemma WordIsNone(v: nat, i: nat, n: nat, w: nat)
    requires n == 32 * i && w == MaskedTests.WordOf(v, i) && w != 0 && PowerIs(w, -1)
    ensures PowerIs(v, -1)
  {
    Pow2Above(w);
    var b := Comparisons.SomeBit(w, w);
    InWord(v, i, n, b);
    forall k: nat ensures v != Pow2(k) {
      if v == Pow2(k) {
        OneBitPower(v, k);
        assert k == n + b;
        forall j: nat ensures Bit(w, j) <==> j == b { InWord(v, i, n, j); }
        OneBitPower(w, b);
      }
    }
  }

  lemma TwoBits(v: nat, j: nat, k: nat)
    requires j != k && Bit(v, j) && Bit(v, k)
    ensures PowerIs(v, -1)
  {
    forall m: nat ensures v != Pow2(m) { BitPow2(m, j); BitPow2(m, k); }
  }

  lemma BlankTo(v: nat, from: nat, mid: nat, to: nat)
    requires Blank(v, from, mid) && Blank(v, mid, to)
    ensures Blank(v, from, to)
  {}

  method FirstWord(v: nat) returns (i: nat)
    ensures i <= 4 && Blank(v, 0, 32 * i) && (i < 4 ==> MaskedTests.WordOf(v, i) != 0)
  {
    i := 0;
    while i < 4 && MaskedTests.WordOf(v, i) == 0
      invariant i <= 4 && Blank(v, 0, 32 * i)
    {
      BlankWord(v, i, 32 * i, 32 * (i + 1));
      BlankTo(v, 0, 32 * i, 32 * (i + 1));
      i := i + 1;
    }
  }

  method LaterWords(v: nat, i: nat) returns (blank: bool)
    requires 0 < i <= 4
    ensures blank ==> Blank(v, 32 * i, 128)
    ensures !blank ==> exists k: nat :: 32 * i <= k && Bit(v, k)
  {
    var j := i;
    while j < 4
      invariant i <= j <= 4 && Blank(v, 32 * i, 32 * j)
    {
      BlankWord(v, j, 32 * j, 32 * (j + 1));
      if MaskedTests.WordOf(v, j) != 0 { return false; }
      BlankTo(v, 32 * i, 32 * j, 32 * (j + 1));
      j := j + 1;
    }
    return true;
  }

  method Log2Words(v: nat) returns (ld: int)
    requires v < Pow2(WIDTH)
    ensures PowerIs(v, ld)
  {
    var i := FirstWord(v);
    if i == 4 {
      NothingSet(v);
      return -1;
    }
    var w := MaskedTests.WordOf(v, i);
    ld := Log2(w);
    if ld < 0 {
      WordIsNone(v, i, 32 * i, w);
      return -1;
    }
    WordIsPower(v, i, 32 * i, w, ld);
    var blank := LaterWords(v, i + 1);
    if !blank {
      var k: nat :| 32 * (i + 1) <= k && Bit(v, k);
      TwoBits(v, 32 * i + ld, k);
      return -1;
    }
    OnlyWord(v, 32 * i);
    ld := ld + 32 * i;
  }

  lemma NothingSet(v: nat)
    requires v < Pow2(WIDTH) && Blank(v, 0, 128)
    ensures PowerIs(v, -1)
  {
    forall k: nat ensures v != Pow2(k) {
      BitPow2(k, k);
      if k >= WIDTH { BitAbove(v, WIDTH, k); }
    }
  }

  lemma OnlyWord(v: nat, n: nat)
    requires v < Pow2(WIDTH) && Blank(v, 0, n) && Blank(v, n + 32, 128)
    ensures forall j: nat :: Bit(v, j) ==> n <= j < n + 32
  {
    forall j: nat | Bit(v, j) ensures n <= j < n + 32 {
      if j >= WIDTH { BitAbove(v, WIDTH, j); }
    }
  }

  /** The logarithm of the constant, or of the next one, in 32 or in 128 bits. */
  method Log2Any(c: nat, increment: bool) returns (ld: int)
    requires c < Pow2(WIDTH)
    ensures PowerIs(if increment then c + 1 else c, ld)
  {
    var v := if increment then c + 1 else c;
    if c < Pow2(WORD) {
      if v == Pow2(WORD) { return WORD; }
      ld := Log2(v);
    } else {
      if v == Pow2(WIDTH) { return WIDTH; }
      ld := Log2Words(v);
    }
  }

  // ----- the test made of an ordering -----

  ghost predicate Apart(u: nat, mask: nat) { forall j: nat {:trigger Bit(u, j)} :: !(Bit(u, j) && Bit(mask, j)) }

  ghost predicate EndsBy(u: nat, n: nat) { forall j: nat {:trigger Bit(u, j)} :: Bit(u, j) ==> j < n }

  lemma AndApart(u: nat, mask: nat)
    ensures And(u, mask) == 0 <==> Apart(u, mask)
  {
    if And(u, mask) == 0 {
      forall j: nat ensures !(Bit(u, j) && Bit(mask, j)) { BitAnd(u, mask, j); BitZero(j); }
    }
    if Apart(u, mask) {
      forall j: nat ensures Bit(And(u, mask), j) == Bit(0, j) { BitAnd(u, mask, j); BitZero(j); }
      RelAccess.EqualBits(And(u, mask), 0);
    }
  }

  lemma BelowPower(u: nat, n: nat)
    ensures u < Pow2(n) <==> EndsBy(u, n)
  {
    if u < Pow2(n) {
      forall j: nat | Bit(u, j) ensures j < n { if j >= n { BitAbove(u, n, j); } }
    }
    if EndsBy(u, n) {
      forall j: nat ensures Bit(u, j) == Bit(Low(u, n), j) { BitLow(u, n, j); }
      RelAccess.EqualBits(u, Low(u, n));
    }
  }

  /** The mask of 32 bits tells for numbers of 32 bits, but not for others. */
  lemma NarrowMask(u: nat, n: nat, b: nat)
    requires n <= WORD && b == Pow2(n) - 1 && b < Pow2(WORD)
    ensures u < Pow2(WORD) ==> (And(u, Not(b, WORD)) == 0 <==> u < Pow2(n))
    ensures (forall j: nat :: Bit(u, j) ==> j >= WORD) ==> And(u, Not(b, WORD)) == 0
  {
    var mask := Not(b, WORD);
    forall j: nat ensures Bit(mask, j) <==> n <= j < WORD { BitNot(b, WORD, j); OnesBit(n, j); }
    AndApart(u, mask);
    BelowPower(u, n);
    BelowPower(u, WORD);
  }

  /** The mask of 128 bits has the lowest bit in addition. */
  lemma WideMask(u: nat, n: nat, b: nat)
    requires 0 < n <= WIDTH && b == Pow2(n) - 1 && u < Pow2(WIDTH)
    ensures And(u, U128.Mod128(-(b as int))) == 0 <==> u < Pow2(n) && !Bit(u, 0)
  {
    var mask := U128.Mod128(-(b as int));
    Pow2Mono(n, WIDTH);
    Pow2Mono(1, n);
    RelAccess.Modulus();
    Negated(b, WIDTH, mask);
    forall j: nat ensures Bit(mask, j) <==> j == 0 || n <= j < WIDTH {
      LowestSet(Not(b, WIDTH), j);
      BitNot(b, WIDTH, j);
      BitNot(b, WIDTH, 0);
      OnesBit(n, j);
      OnesBit(n, 0);
    }
    AndApart(u, mask);
    BelowPower(u, n);
    BelowPower(u, WIDTH);
  }

  lemma Negated(b: nat, w: nat, mask: nat)
    requires 0 < b < Pow2(w) && Pow2(w) == 0x1_0000_0000_0000_0000_0000_0000_0000_0000 && mask == U128.Mod128(-(b as int))
    ensures mask == Not(b, w) + 1
  {}

  lemma LowestSet(x: nat, j: nat)
    ensures !Bit(x, 0) ==> (Bit(x + 1, j) <==> j == 0 || Bit(x, j))
  {
    if j > 0 && x % 2 == 0 { assert (x + 1) / 2 == x / 2; }
  }

  /** What can be told of a masked value: with a constant of 32 bits everything, if the
      mask has no more; else everything if the lowest bit is not in the mask. */
  predicate ToEqRight(mask: nat, c: nat) { if c < Pow2(WORD) then mask < Pow2(WORD) else !Bit(mask, 0) }

  /** The lower and the upper orderings come with the power itself or with one less. */
  predicate Below(rel: Rel) { rel == LT || rel == LE }

  predicate Inclusive(rel: Rel) { rel == LE || rel == GT }

  function TestMask(b: nat, wide: bool): nat
    requires !wide ==> b < Pow2(WORD)
  {
    if wide then U128.Mod128(-(b as int)) else Not(b, WORD)
  }

  /** Is the constant a power of two, or one less? */
  ghost predicate AtPower(rel: Rel, c: nat) {
    rel != EQ && rel != NE && exists k: nat :: (if Inclusive(rel) then c + 1 else c) == Pow2(k)
  }

  /** The ordering asks whether the value is below the power. */
  lemma AsksBelow(rel: Rel, u: nat, c: nat, p: nat)
    requires rel != EQ && rel != NE && p > 0 && c == if Inclusive(rel) then p - 1 else p
    ensures Holds(rel, u, c) <==> (Below(rel) <==> u < p)
  {}

  /** For masked values the test is right, and one value tells if the condition fails. */
  lemma MaskTells(u: nat, mask: nat, n: nat, b: nat, c: nat)
    requires mask < Pow2(WIDTH) && And(u, mask) == u && n <= WIDTH && b == Pow2(n) - 1 && (c == b || c == b + 1)
    requires if c < Pow2(WORD) then n <= WORD else n > 0
    requires c < Pow2(WORD) ==> b < Pow2(WORD)
    ensures ToEqRight(mask, c) ==> (And(u, TestMask(b, c >= Pow2(WORD))) == 0 <==> u < Pow2(n))
    ensures !ToEqRight(mask, c) && u == Teller(mask, c) ==> !(And(u, TestMask(b, c >= Pow2(WORD))) == 0 <==> u < Pow2(n))
  {
    AndBelow(u, mask);
    if c < Pow2(WORD) {
      NarrowMask(u, n, b);
      if mask >= Pow2(WORD) && u == Teller(mask, c) { HighPart(mask, n, u); }
    } else {
      WideMask(u, n, b);
      BitAnd(u, mask, 0);
      if u == 1 { Pow2Mono(1, n); }
    }
  }

  /** A masked value that shows the failure. */
  function Teller(mask: nat, c: nat): nat { if c < Pow2(WORD) then Shl(Shr(mask, WORD), WORD) else 1 }

  lemma HighPart(mask: nat, n: nat, u: nat)
    requires mask >= Pow2(WORD) && n <= WORD && u == Shl(Shr(mask, WORD), WORD)
    ensures (forall j: nat :: Bit(u, j) ==> j >= WORD) && u >= Pow2(n)
  {
    forall j: nat ensures Bit(u, j) <==> j >= WORD && Bit(mask, j) { HighBit(mask, j); }
    BelowPower(mask, WORD);
    var j: nat :| Bit(mask, j) && j >= WORD;
    assert Bit(u, j);
    BelowPower(u, n);
  }

  lemma HighBit(mask: nat, j: nat)
    ensures Bit(Shl(Shr(mask, WORD), WORD), j) <==> j >= WORD && Bit(mask, j)
  {
    BitJoin(Shr(mask, WORD), WORD, 0, j);
    BitZero(j);
    if j >= WORD { BitShiftRight(mask, WORD, j - WORD); }
  }

  lemma TellerWithin(mask: nat, c: nat)
    requires !ToEqRight(mask, c)
    ensures And(Teller(mask, c), mask) == Teller(mask, c)
  {
    var u := Teller(mask, c);
    forall j: nat ensures Bit(And(u, mask), j) == Bit(u, j) {
      BitAnd(u, mask, j);
      if c < Pow2(WORD) { HighBit(mask, j); } else { BitPow2(0, j); }
    }
    RelAccess.EqualBits(And(u, mask), u);
  }

  /** Orderings at powers of two become tests of a mask; all others stay. The test means
      the same exactly if the condition holds. */
  method RelToEq(rel: Rel, x: Term, c: nat) returns (d: Expr)
    requires x.MaskRight? && x.x.Access? && x.x.size <= WIDTH && x.mask < Pow2(x.x.size) && c < Pow2(WIDTH)
    ensures !AtPower(rel, c) ==> d == Compare(rel, x, c)
    ensures AtPower(rel, c) ==> d.Compare? && (d.rel == EQ || d.rel == NE)
    ensures SameMeaning(d, Compare(rel, x, c)) <==> (AtPower(rel, c) ==> ToEqRight(x.mask, c))
  {
    d := Compare(rel, x, c);
    if rel == EQ || rel == NE { return; }
    var ld := Log2Any(c, Inclusive(rel));
    if ld < 0 { return; }
    var p := if Inclusive(rel) then c + 1 else c;
    PowerBound(c, p, ld);
    var b := p - 1;
    d := Compare(if Below(rel) then EQ else NE, MaskRight(x, TestMask(b, c >= Pow2(WORD))), 0);
    TestExact(rel, x, c, ld, b, d);
  }

  lemma PowerBound(c: nat, p: nat, n: nat)
    requires p == Pow2(n) && (p == c || p == c + 1) && c < Pow2(WIDTH)
    ensures n <= WIDTH && p > 0
    ensures if c < Pow2(WORD) then n <= WORD && p - 1 < Pow2(WORD) else n > 0
  {
    if n > WIDTH { Pow2Mono(WIDTH + 1, n); }
    if c < Pow2(WORD) && n > WORD { Pow2Mono(WORD + 1, n); }
  }

  lemma TestExact(rel: Rel, x: Term, c: nat, n: nat, b: nat, d: Expr)
    requires x.MaskRight? && x.x.Access? && x.x.size <= WIDTH && x.mask < Pow2(x.x.size)
    requires rel != EQ && rel != NE && n <= WIDTH && b == Pow2(n) - 1 && c == (if Inclusive(rel) then b else b + 1)
    requires if c < Pow2(WORD) then n <= WORD && b < Pow2(WORD) else n > 0
    requires d == Compare(if Below(rel) then EQ else NE, MaskRight(x, TestMask(b, c >= Pow2(WORD))), 0)
    ensures SameMeaning(d, Compare(rel, x, c)) <==> ToEqRight(x.mask, c)
  {
    Pow2Mono(x.x.size, WIDTH);
    forall env
      ensures var u := TermValue(x, env);
        And(u, x.mask) == u && (Holds(rel, u, c) <==> (Below(rel) <==> u < Pow2(n)))
    {
      Masked(TermValue(x.x, env), x.mask);
      AsksBelow(rel, TermValue(x, env), c, Pow2(n));
    }
    if ToEqRight(x.mask, c) {
      forall env, h ensures Eval(d, env, h) == Eval(Compare(rel, x, c), env, h) {
        MaskTells(TermValue(x, env), x.mask, n, b, c);
      }
    } else {
      TellerWithin(x.mask, c);
      var env := RelAccess.Attained(x.x, x.mask, Teller(x.mask, c));
      MaskTells(TermValue(x, env), x.mask, n, b, c);
      assert Eval(d, env, []) != Eval(Compare(rel, x, c), env, []);
    }
  }

  lemma Masked(v: nat, mask: nat)
    ensures And(And(v, mask), mask) == And(v, mask)
  {
    var u := And(v, mask);
    forall j: nat ensures Bit(And(u, mask), j) == Bit(u, j) { BitAnd(u, mask, j); BitAnd(v, mask, j); }
    RelAccess.EqualBits(And(u, mask), u);
  }
}
