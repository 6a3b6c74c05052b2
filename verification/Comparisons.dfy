/** Turning `<`, `<=`, `>`, `>=` and `!=` into tests for equality, either of single
    bits or of prefixes. */
module Comparisons {
  import opened Semantics
  import opened Bits
  import opened Expr

  /** The 128-bit words the masks and constants are made of. */
  function GetBit(v: nat, n: nat): bool { Shr(v, n) % 2 == 1 }

  function AllOnes(): nat { Pow2(WIDTH) - 1 }

  function BitMask(n: nat): nat { HighMask(n, WIDTH) }

  /** The bits of `v` from bit `n` up, bit `n` itself turned over. */
  function PrefixAndTwist(v: nat, n: nat): nat { Xor(And(v, BitMask(n)), Pow2(n)) }

  lemma {:induction false} GetBitIs(v: nat, n: nat)
    ensures GetBit(v, n) <==> Bit(v, n)
    decreases n
  {
    if n > 0 { GetBitIs(v / 2, n - 1); }
  }

  function Twist(v: nat): nat { if v % 2 == 1 then v - 1 else v + 1 }

  /** All bits of a word of width `w` from bit `n` up. */
  function HighMask(n: nat, w: nat): nat { Low(Shl(Pow2(w) - 1, n), w) }

  lemma HighMaskBit(n: nat, w: nat, i: nat)
    ensures Bit(HighMask(n, w), i) <==> n <= i < w
  {
    BitLow(Shl(Pow2(w) - 1, n), w, i);
    BitJoin(Pow2(w) - 1, n, 0, i);
    BitZero(i);
    if i >= n { OnesBit(w, i - n); }
  }

  lemma {:induction false} ShrJoin(x: nat, k: nat)
    ensures Join(Shr(x, k), k, 0) <= x
    decreases k
  {
    if k > 0 { ShrJoin(x / 2, k - 1); }
  }

  lemma HighBits(v: nat, n: nat, w: nat, i: nat)
    requires i < w
    ensures Bit(And(v, HighMask(n, w)), i) == Bit(Join(Shr(v, n), n, 0), i)
  {
    BitAnd(v, HighMask(n, w), i);
    HighMaskBit(n, w, i);
    BitJoin(Shr(v, n), n, 0, i);
    if i >= n { BitShiftRight(v, n, i - n); } else { BitZero(i); }
  }

  /** Masking out the lower bits. */
  lemma AndHigh(v: nat, n: nat, w: nat)
    requires v < Pow2(w)
    ensures And(v, HighMask(n, w)) == Join(Shr(v, n), n, 0)
  {
    AndBelow(v, HighMask(n, w));
    ShrJoin(v, n);
    forall i: nat | i < w ensures Bit(And(v, HighMask(n, w)), i) == Bit(Join(Shr(v, n), n, 0), i) { HighBits(v, n, w, i); }
    SameBits(And(v, HighMask(n, w)), Join(Shr(v, n), n, 0), w);
  }

  lemma {:induction false} XorLowest(x: nat, n: nat)
    ensures Xor(Join(x, n, 0), Pow2(n)) == Join(Twist(x), n, 0)
    decreases n
  {
    if n > 0 {
      XorLowest(x, n - 1);
      if Join(x, n, 0) == 0 { JoinZeroIs(x, n); }
    } else {
      XorOne(x);
    }
  }

  lemma {:induction false} JoinZeroIs(x: nat, n: nat)
    requires Join(x, n, 0) == 0
    ensures x == 0
    decreases n
  {
    if n > 0 { JoinZeroIs(x, n - 1); }
  }

  lemma XorOne(x: nat)
    ensures Xor(x, 1) == Twist(x)
  {
    XorZero(x / 2);
  }

  lemma {:induction false} XorZero(x: nat)
    ensures Xor(x, 0) == x
    decreases x
  {
    if x > 0 { XorZero(x / 2); }
  }

  lemma {:induction false} JoinInjective(x: nat, y: nat, n: nat)
    ensures Join(x, n, 0) == Join(y, n, 0) <==> x == y
    decreases n
  {
    if n > 0 { JoinInjective(x, y, n - 1); }
  }

  /** A prefix test asks for the bits above `n` to agree, and bit `n` not to. */
  lemma PrefixTest(v: nat, c: nat, n: nat)
    requires v < Pow2(WIDTH) && c < Pow2(WIDTH)
    ensures And(v, BitMask(n)) == PrefixAndTwist(c, n) <==> Shr(v, n) == Twist(Shr(c, n))
  {
    AndHigh(v, n, WIDTH);
    AndHigh(c, n, WIDTH);
    XorLowest(Shr(c, n), n);
    JoinInjective(Shr(v, n), Twist(Shr(c, n)), n);
  }

  // ----- what is compared -----

  /** A term of at most 128 bits. */
  predicate Narrow(x: Term) {
    match x
    case Access(_, _, size) => size <= WIDTH
    case MaskLeft(_, y) => Narrow(y)
    case MaskRight(y, _) => Narrow(y)
    case ShiftLeft(y, _) => Narrow(y)
    case ShiftRight(y, _) => Narrow(y)
  }

  lemma {:induction false} NarrowValue(x: Term, env: Env)
    requires Narrow(x)
    ensures TermValue(x, env) < Pow2(WIDTH)
    decreases x
  {
    match x
    case Access(_, _, size) => Pow2Mono(size, WIDTH);
    case MaskLeft(m, y) => NarrowValue(y, env); AndBelow(m, TermValue(y, env));
    case MaskRight(y, m) => NarrowValue(y, env); AndBelow(TermValue(y, env), m);
    case ShiftLeft(y, n) =>
    case ShiftRight(y, n) => NarrowValue(y, env); ShrLower(TermValue(y, env), n);
  }

  /** The bits that can be set: those of a mask on the right, or all. */
  function MaskOf(x: Term): nat {
    match x
    case MaskRight(_, m) => m
    case _ => AllOnes()
  }

  lemma UnmaskedZero(x: Term, env: Env, i: nat)
    requires Narrow(x) && !GetBit(MaskOf(x), i)
    ensures !Bit(TermValue(x, env), i)
  {
    GetBitIs(MaskOf(x), i);
    if x.MaskRight? {
      BitAnd(TermValue(x.x, env), x.mask, i);
    } else {
      NarrowValue(x, env);
      BeyondWord(TermValue(x, env), WIDTH, i);
    }
  }

  lemma BeyondWord(v: nat, w: nat, i: nat)
    requires v < Pow2(w) && !Bit(Pow2(w) - 1, i)
    ensures !Bit(v, i)
  {
    OnesBit(w, i);
    BitAbove(v, w, i);
  }

  lemma {:induction false} ShrSplit(v: nat, i: nat)
    ensures Shr(v, i) == 2 * Shr(v, i + 1) + Digit(Bit(v, i))
    decreases i
  {
    if i > 0 { ShrSplit(v / 2, i - 1); }
  }

  // ----- bit by bit, from the highest down -----

  datatype Link = Link(both: bool, test: Expr)

  /** A chain of tests joined by `&&` or `||` ending in `last`. */
  function Close(chain: seq<Link>, last: Expr): Expr {
    if chain == [] then last
    else
      var rest := Close(chain[1..], last);
      if chain[0].both then LAnd(chain[0].test, rest) else LOr(chain[0].test, rest)
  }

  lemma {:induction false} CloseLast(chain: seq<Link>, l: Link, last: Expr)
    ensures Close(chain + [l], last) == Close(chain, if l.both then LAnd(l.test, last) else LOr(l.test, last))
    decreases |chain|
  {
    if chain == [] { assert ([] + [l])[1..] == []; }
    else {
      assert (chain + [l])[1..] == chain[1..] + [l];
      CloseLast(chain[1..], l, last);
    }
  }

  /** The chain has decided unless the value agrees with `c` from bit `i` up. */
  ghost predicate Decided(chain: seq<Link>, acc: Term, c: nat, invert: bool, i: nat) {
    forall last, env, h :: DecidedAt(chain, last, TermValue(acc, env), c, invert, i, env, h)
  }

  ghost predicate DecidedAt(chain: seq<Link>, last: Expr, v: nat, c: nat, invert: bool, i: nat, env: Env, h: Hist) {
    Eval(Close(chain, last), env, h) ==
      if Shr(v, i) == Shr(c, i) then Eval(last, env, h) else Value(TruthOf((Shr(v, i) < Shr(c, i)) != invert), h)
  }

  lemma DecidedNext(chain: seq<Link>, l: Link, acc: Term, c: nat, invert: bool, i: nat)
    requires Decided(chain, acc, c, invert, i + 1) && l.both == (Bit(c, i) == invert)
    requires forall env, h :: Eval(l.test, env, h) == Value(TruthOf(Bit(TermValue(acc, env), i) == invert), h)
    ensures Decided(chain + [l], acc, c, invert, i)
  {
    forall last, env, h ensures DecidedAt(chain + [l], last, TermValue(acc, env), c, invert, i, env, h) {
      var v := TermValue(acc, env);
      var next := if l.both then LAnd(l.test, last) else LOr(l.test, last);
      assert DecidedAt(chain, next, v, c, invert, i + 1, env, h);
      assert Eval(l.test, env, h) == Value(TruthOf(Bit(v, i) == invert), h);
      DecidedStep(chain, l, last, v, c, invert, i, env, h);
    }
  }

  lemma DecidedStep(chain: seq<Link>, l: Link, last: Expr, v: nat, c: nat, invert: bool, i: nat, env: Env, h: Hist)
    requires l.both == (Bit(c, i) == invert) && Eval(l.test, env, h) == Value(TruthOf(Bit(v, i) == invert), h)
    requires DecidedAt(chain, if l.both then LAnd(l.test, last) else LOr(l.test, last), v, c, invert, i + 1, env, h)
    ensures DecidedAt(chain + [l], last, v, c, invert, i, env, h)
  {
    CloseLast(chain, l, last);
    ShrSplit(v, i);
    ShrSplit(c, i);
  }

  /** `acc <= c`, or `acc > c` if inverted. */
  method BuildLeBit(acc: Term, c: nat, mask: nat, invert: bool, ghost w: nat) returns (d: Expr)
    requires Narrow(acc) && c < Pow2(WIDTH) && mask == MaskOf(acc)
    ensures SameMeaning(d, Compare(if invert then GT else LE, acc, c)) && Ordinary(d)
    ensures Fitting(acc, c, w) ==> On(d, acc, w)
  {
    var chain := [];
    var i := WIDTH;
    NothingDecided(acc, c, invert, WIDTH);
    while i > 0
      invariant 0 <= i <= WIDTH && Decided(chain, acc, c, invert, i)
      invariant forall k | 0 <= k < |chain| :: Ordinary(chain[k].test)
      invariant Fitting(acc, c, w) ==> forall k | 0 <= k < |chain| :: On(chain[k].test, acc, w)
    {
      i := i - 1;
      var test := BitTest(acc, i, mask, invert, w);
      var l := Link(GetBit(c, i) == invert, test);
      GetBitIs(c, i);
      DecidedNext(chain, l, acc, c, invert, i);
      chain := chain + [l];
    }
    var last := Const(if invert then 0 else 1);
    d := Close(chain, last);
    OrdinaryClose(chain, last);
    if Fitting(acc, c, w) { OnClose(chain, last, acc, w); }
    AllDecided(chain, acc, c, invert, last);
  }

  lemma NothingDecided(acc: Term, c: nat, invert: bool, w: nat)
    requires Narrow(acc) && c < Pow2(w) && w >= WIDTH
    ensures Decided([], acc, c, invert, w)
  {
    LowSmall(c, w);
    Pow2Mono(WIDTH, w);
    forall last, env, h ensures DecidedAt([], last, TermValue(acc, env), c, invert, w, env, h) {
      NarrowValue(acc, env);
      LowSmall(TermValue(acc, env), w);
    }
  }

  lemma AllDecided(chain: seq<Link>, acc: Term, c: nat, invert: bool, last: Expr)
    requires Decided(chain, acc, c, invert, 0) && last == Const(if invert then 0 else 1)
    ensures SameMeaning(Close(chain, last), Compare(if invert then GT else LE, acc, c))
  {
    forall env, h ensures Eval(Close(chain, last), env, h) == Eval(Compare(if invert then GT else LE, acc, c), env, h) {
      assert DecidedAt(chain, last, TermValue(acc, env), c, invert, 0, env, h);
      FullyDecided(chain, last, TermValue(acc, env), c, invert, 0, env, h);
    }
  }

  lemma FullyDecided(chain: seq<Link>, last: Expr, v: nat, c: nat, invert: bool, i: nat, env: Env, h: Hist)
    requires i == 0 && last == Const(if invert then 0 else 1) && DecidedAt(chain, last, v, c, invert, i, env, h)
    ensures Eval(Close(chain, last), env, h) == Value(TruthOf(Holds(if invert then GT else LE, v, c)), h)
  {
    assert Shr(v, i) == v && Shr(c, i) == c;
  }

  /** Is bit `i` set, or not set, as `set` says? A bit that is masked out is known. */
  method BitTest(acc: Term, i: nat, mask: nat, set': bool, ghost w: nat) returns (test: Expr)
    requires Narrow(acc) && mask == MaskOf(acc)
    ensures mask < Pow2(w) ==> On(test, acc, w)
    ensures Ordinary(test) && forall env, h :: Eval(test, env, h) == Value(TruthOf(Bit(TermValue(acc, env), i) == set'), h)
  {
    if !GetBit(mask, i) {
      test := Const(if set' then 0 else 1);
      forall env ensures !Bit(TermValue(acc, env), i) { UnmaskedZero(acc, env, i); }
    } else {
      test := Compare(EQ, MaskRight(acc, Pow2(i)), if set' then Pow2(i) else 0);
      GetBitIs(mask, i);
      if mask < Pow2(w) { BitFits(mask, i, w); }
      forall env ensures And(TermValue(acc, env), Pow2(i)) == if Bit(TermValue(acc, env), i) then Pow2(i) else 0 {
        AndPow2(TermValue(acc, env), i);
      }
    }
  }

  // ----- alternatives -----

  /** No comparison but for equality and difference. */
  predicate Unordered(d: Expr) {
    match d
    case Compare(rel, _, _) => rel == EQ || rel == NE
    case LNot(a) => Unordered(a)
    case LAnd(a, b) => Unordered(a) && Unordered(b)
    case LOr(a, b) => Unordered(a) && Unordered(b)
    case _ => true
  }

  /** No comparison but for equality, and no decision or meter. */
  predicate Ordinary(d: Expr) {
    match d
    case Const(_) => true
    case Compare(rel, _, _) => rel == EQ
    case LAnd(a, b) => Ordinary(a) && Ordinary(b)
    case LOr(a, b) => Ordinary(a) && Ordinary(b)
    case _ => false
  }

  /** Only tests of masked bits of `acc` for constants of `w` bits. */
  predicate On(d: Expr, acc: Term, w: nat) {
    match d
    case Const(_) => true
    case Compare(rel, x, c) => rel == EQ && x.MaskRight? && x.x == acc && c < Pow2(w)
    case LAnd(a, b) => On(a, acc, w) && On(b, acc, w)
    case LOr(a, b) => On(a, acc, w) && On(b, acc, w)
    case _ => false
  }

  /** Constant and mask have no more than `w` bits. */
  predicate Fitting(acc: Term, c: nat, w: nat) { c < Pow2(w) && MaskOf(acc) < Pow2(w) }

  /** Nothing below the first number of more bits needs these. */
  predicate JustFitting(acc: Term, c: nat, invert: bool, w: nat) {
    MaskOf(acc) < Pow2(w) && (c < Pow2(w) || (!invert && c == Pow2(w)))
  }

  lemma PrefixFits(acc: Term, c: nat, mask: nat, invert: bool, i: nat, w: nat)
    requires JustFitting(acc, c, invert, w) && mask == MaskOf(acc) && c < Pow2(WIDTH) && i < WIDTH
    requires Bit(c, i) != invert && (Bit(mask, i) || Bit(c, i))
    ensures PrefixAndTwist(c, i) < Pow2(w)
  {
    if c < Pow2(w) {
      BitFits(if Bit(mask, i) then mask else c, i, w);
      TwistFits(c, i, w);
    } else {
      BitPow2(w, i);
      TopTwist(w);
    }
  }

  lemma TopTwist(w: nat)
    requires Pow2(w) < Pow2(WIDTH)
    ensures PrefixAndTwist(Pow2(w), w) == 0
  {
    AndHigh(Pow2(w), w, WIDTH);
    JoinZero(w, 0);
    ShrPow2(w);
    XorLowest(1, w);
  }

  lemma {:induction false} ShrPow2(w: nat)
    ensures Shr(Pow2(w), w) == 1
    decreases w
  {
    if w > 0 { ShrPow2(w - 1); }
  }

  lemma {:induction false} OnClose(chain: seq<Link>, last: Expr, acc: Term, w: nat)
    requires On(last, acc, w) && forall k | 0 <= k < |chain| :: On(chain[k].test, acc, w)
    ensures On(Close(chain, last), acc, w)
    decreases |chain|
  {
    if chain != [] { OnClose(chain[1..], last, acc, w); }
  }

  predicate AllOn(tests: seq<Expr>, acc: Term, w: nat) { forall k | 0 <= k < |tests| :: On(tests[k], acc, w) }

  lemma {:induction false} OnAny(tests: seq<Expr>, acc: Term, w: nat)
    requires tests != [] && AllOn(tests, acc, w)
    ensures On(Any(tests), acc, w)
    decreases |tests|
  {
    if |tests| > 1 { OnAny(tests[1..], acc, w); }
  }

  /** A bit of a number of `w` bits, or a prefix of one. */
  lemma BitFits(x: nat, i: nat, w: nat)
    requires x < Pow2(w) && Bit(x, i)
    ensures i < w && Pow2(i) < Pow2(w)
  {
    if i >= w { BitAbove(x, w, i); }
    Pow2Mono(i + 1, w);
  }

  lemma TwistFits(c: nat, i: nat, w: nat)
    requires c < Pow2(w) && Pow2(i) < Pow2(w)
    ensures PrefixAndTwist(c, i) < Pow2(w)
  {
    AndBelow(c, BitMask(i));
    XorBelow(And(c, BitMask(i)), Pow2(i), w);
  }

  lemma {:induction false} OrdinaryClose(chain: seq<Link>, last: Expr)
    requires Ordinary(last) && forall k | 0 <= k < |chain| :: Ordinary(chain[k].test)
    ensures Ordinary(Close(chain, last))
    decreases |chain|
  {
    if chain != [] { OrdinaryClose(chain[1..], last); }
  }

  function Any(tests: seq<Expr>): Expr
    requires tests != []
    decreases |tests|
  {
    if |tests| == 1 then tests[0] else LOr(tests[0], Any(tests[1..]))
  }

  predicate IsTest(e: Expr) { e.Compare? && e.rel == EQ }

  predicate Holding(tests: seq<Expr>, env: Env) {
    exists k | 0 <= k < |tests| :: tests[k].Compare? && TermValue(tests[k].x, env) == tests[k].c
  }

  lemma {:induction false} AnyHolding(tests: seq<Expr>, env: Env, h: Hist)
    requires tests != [] && forall k | 0 <= k < |tests| :: IsTest(tests[k])
    ensures Eval(Any(tests), env, h) == Value(TruthOf(Holding(tests, env)), h) && Ordinary(Any(tests))
    decreases |tests|
  {
    assert IsTest(tests[0]);
    if |tests| > 1 {
      AnyHolding(tests[1..], env, h);
      HoldingFirst(tests, env);
    }
  }

  lemma HoldingFirst(tests: seq<Expr>, env: Env)
    requires tests != [] && IsTest(tests[0])
    ensures Holding(tests, env) <==> TermValue(tests[0].x, env) == tests[0].c || Holding(tests[1..], env)
  {
    if k :| 0 < k < |tests| && tests[k].Compare? && TermValue(tests[k].x, env) == tests[k].c { assert tests[1..][k - 1] == tests[k]; }
    if k :| 0 <= k < |tests[1..]| && tests[1..][k].Compare? && TermValue(tests[1..][k].x, env) == tests[1..][k].c { assert tests[k + 1] == tests[1..][k]; }
  }

  lemma HoldingLast(tests: seq<Expr>, t: Expr, env: Env)
    requires IsTest(t)
    ensures Holding(tests + [t], env) <==> Holding(tests, env) || TermValue(t.x, env) == t.c
  {
    var all := tests + [t];
    assert all[|tests|] == t;
    if k :| 0 <= k < |tests| && tests[k].Compare? && TermValue(tests[k].x, env) == tests[k].c { assert all[k] == tests[k]; }
  }

  /** The value agrees with `c` from bit `i` up and is on the right side below. */
  predicate BelowFrom(v: nat, c: nat, invert: bool, i: nat) {
    Shr(v, i) == Shr(c, i) && if invert then Low(c, i) < Low(v, i) else Low(v, i) < Low(c, i)
  }

  lemma {:induction false} LowNext(v: nat, i: nat)
    ensures Low(v, i + 1) == Low(v, i) + (if Bit(v, i) then Pow2(i) else 0)
    decreases i
  {
    if i > 0 { LowNext(v / 2, i - 1); } else { assert Pow2(0) == 1; }
  }

  lemma BelowNext(v: nat, c: nat, invert: bool, i: nat)
    ensures BelowFrom(v, c, invert, i + 1) <==>
      BelowFrom(v, c, invert, i) || (Bit(c, i) != invert && Shr(v, i) == Twist(Shr(c, i)))
  {
    ShrSplit(v, i);
    ShrSplit(c, i);
    LowNext(v, i);
    LowNext(c, i);
  }

  /** `acc < c`, or `acc > c` if inverted: one prefix for every bit in which a smaller
      (larger) value may be the first to differ. Nothing if there is no such bit. */
  method BuildLtPrefix(acc: Term, c: nat, mask: nat, invert: bool, ghost w: nat) returns (d: Option<Expr>)
    requires Narrow(acc) && c < Pow2(WIDTH) && mask == MaskOf(acc)
    ensures d.Some? && JustFitting(acc, c, invert, w) ==> On(d.value, acc, w)
    ensures d.Some? ==> SameMeaning(d.value, Compare(if invert then GT else LT, acc, c)) && Ordinary(d.value)
    ensures d.None? <==> NoWitness(c, mask, invert, WIDTH)
  {
    var tests := [];
    for i := 0 to WIDTH
      invariant Prefixes(tests, acc, c, invert, i)
      invariant tests == [] <==> NoWitness(c, mask, invert, i)
      invariant JustFitting(acc, c, invert, w) ==> AllOn(tests, acc, w)
    {
      GetBitIs(c, i);
      GetBitIs(mask, i);
      ghost var before := tests;
      if GetBit(c, i) != invert && (GetBit(mask, i) || GetBit(c, i)) {
        if JustFitting(acc, c, invert, w) { PrefixFits(acc, c, mask, invert, i, w); }
        tests := tests + [Compare(EQ, MaskRight(acc, BitMask(i)), PrefixAndTwist(c, i))];
      }
      PrefixesNext(acc, c, mask, invert, i, before, tests);
    }
    if tests == [] { return None; }
    d := Some(Any(tests));
    PrefixesDone(tests, acc, c, invert, WIDTH);
    if JustFitting(acc, c, invert, w) { OnAny(tests, acc, w); }
  }

  /** No bit below `n` calls for a prefix. */
  predicate NoWitness(c: nat, mask: nat, invert: bool, n: nat) {
    forall i: nat | i < n :: Bit(c, i) == invert || (invert && !Bit(mask, i))
  }

  /** The prefixes for the bits below `i`. */
  ghost predicate Prefixes(tests: seq<Expr>, acc: Term, c: nat, invert: bool, i: nat) {
    && (forall k | 0 <= k < |tests| :: IsTest(tests[k]))
    && (forall env :: Holding(tests, env) <==> BelowFrom(TermValue(acc, env), c, invert, i))
  }

  lemma PrefixesNext(acc: Term, c: nat, mask: nat, invert: bool, i: nat, tests: seq<Expr>, tests': seq<Expr>)
    requires Narrow(acc) && c < Pow2(WIDTH) && mask == MaskOf(acc) && Prefixes(tests, acc, c, invert, i)
    requires tests' == if Bit(c, i) != invert && (Bit(mask, i) || Bit(c, i))
      then tests + [Compare(EQ, MaskRight(acc, BitMask(i)), PrefixAndTwist(c, i))] else tests
    ensures Prefixes(tests', acc, c, invert, i + 1)
  {
    forall env ensures Holding(tests', env) <==> BelowFrom(TermValue(acc, env), c, invert, i + 1) {
      PrefixStep(acc, c, mask, invert, i, tests, tests', env);
    }
  }

  lemma BelowAll(v: nat, c: nat, invert: bool, w: nat)
    requires v < Pow2(w) && c < Pow2(w)
    ensures BelowFrom(v, c, invert, w) <==> if invert then c < v else v < c
  {
    LowSmall(v, w);
    LowSmall(c, w);
  }

  lemma PrefixesHolding(tests: seq<Expr>, acc: Term, c: nat, invert: bool, w: nat, env: Env)
    requires Narrow(acc) && w >= WIDTH && c < Pow2(w) && Prefixes(tests, acc, c, invert, w)
    ensures Holding(tests, env) <==> Holds(if invert then GT else LT, TermValue(acc, env), c)
  {
    NarrowBelow(acc, env, w);
    assert Holding(tests, env) <==> BelowFrom(TermValue(acc, env), c, invert, w);
    BelowAll(TermValue(acc, env), c, invert, w);
  }

  lemma NarrowBelow(acc: Term, env: Env, w: nat)
    requires Narrow(acc) && w >= WIDTH
    ensures TermValue(acc, env) < Pow2(w)
  {
    NarrowValue(acc, env);
    Pow2Mono(WIDTH, w);
  }

  lemma PrefixesDone(tests: seq<Expr>, acc: Term, c: nat, invert: bool, w: nat)
    requires Narrow(acc) && w >= WIDTH && c < Pow2(w) && Prefixes(tests, acc, c, invert, w) && tests != []
    ensures SameMeaning(Any(tests), Compare(if invert then GT else LT, acc, c)) && Ordinary(Any(tests))
  {
    forall env ensures Holding(tests, env) <==> Holds(if invert then GT else LT, TermValue(acc, env), c) {
      PrefixesHolding(tests, acc, c, invert, w, env);
    }
    AnyMeans(tests, if invert then GT else LT, acc, c);
  }

  lemma AnyMeans(tests: seq<Expr>, rel: Rel, acc: Term, c: nat)
    requires tests != [] && forall k | 0 <= k < |tests| :: IsTest(tests[k])
    requires forall env :: Holding(tests, env) <==> Holds(rel, TermValue(acc, env), c)
    ensures SameMeaning(Any(tests), Compare(rel, acc, c)) && Ordinary(Any(tests))
  {
    forall env, h ensures Eval(Any(tests), env, h) == Eval(Compare(rel, acc, c), env, h) {
      AnyHolding(tests, env, h);
      assert Holding(tests, env) <==> Holds(rel, TermValue(acc, env), c);
    }
    AnyHolding(tests, Env((_, _) => false, (_, _) => false), []);
  }

  lemma PrefixStep(acc: Term, c: nat, mask: nat, invert: bool, i: nat, tests: seq<Expr>, tests': seq<Expr>, env: Env)
    requires Narrow(acc) && c < Pow2(WIDTH) && mask == MaskOf(acc)
    requires Holding(tests, env) <==> BelowFrom(TermValue(acc, env), c, invert, i)
    requires tests' == if Bit(c, i) != invert && (Bit(mask, i) || Bit(c, i))
      then tests + [Compare(EQ, MaskRight(acc, BitMask(i)), PrefixAndTwist(c, i))] else tests
    ensures Holding(tests', env) <==> BelowFrom(TermValue(acc, env), c, invert, i + 1)
  {
    var v := TermValue(acc, env);
    NarrowValue(acc, env);
    if !Bit(mask, i) {
      GetBitIs(mask, i);
      UnmaskedZero(acc, env, i);
    }
    PrefixValue(v, c, mask, invert, i);
    if tests' != tests { HoldingLast(tests, Compare(EQ, MaskRight(acc, BitMask(i)), PrefixAndTwist(c, i)), env); }
  }

  lemma PrefixValue(v: nat, c: nat, mask: nat, invert: bool, i: nat)
    requires v < Pow2(WIDTH) && c < Pow2(WIDTH) && (Bit(mask, i) || !Bit(v, i))
    ensures BelowFrom(v, c, invert, i + 1) <==>
      BelowFrom(v, c, invert, i) || (Bit(c, i) != invert && (Bit(mask, i) || Bit(c, i)) && And(v, BitMask(i)) == PrefixAndTwist(c, i))
  {
    BelowNext(v, c, invert, i);
    PrefixTest(v, c, i);
    if Bit(c, i) != invert && !Bit(mask, i) && !Bit(c, i) { NoTwist(v, c, i); }
  }

  lemma NoTwist(v: nat, c: nat, i: nat)
    requires !Bit(v, i) && !Bit(c, i)
    ensures Shr(v, i) != Twist(Shr(c, i))
  {
    ShrSplit(v, i);
    ShrSplit(c, i);
  }

  // ----- choosing the form -----

  /** Is there no prefix to build? The mask has no bit that the constant, less one for `>=`,
      does not have. */
  predicate Covered(rel: Rel, acc: Term, c: nat) {
    || (rel == GT && c != AllOnes() && NoWitness(c, MaskOf(acc), true, WIDTH))
    || (rel == GE && c != 0 && NoWitness(c - 1, MaskOf(acc), true, WIDTH))
  }

  /** Then nothing is greater than the constant. */
  lemma CoveredNever(rel: Rel, acc: Term, c: nat)
    requires Narrow(acc) && c < Pow2(WIDTH) && Covered(rel, acc, c)
    ensures forall env :: !Holds(rel, TermValue(acc, env), c)
  {
    NeverHolds(rel, acc, c, if rel == GE then c - 1 else c, MaskOf(acc), true);
  }

  /** The comparison `rel` with `c`, as `build_rel` is set up for it. Nothing is built
      exactly where there is no prefix to build. */
  method BuildRel(rel: Rel, acc: Term, c: nat, prefix: bool, ghost w: nat) returns (d: Option<Expr>)
    requires rel != EQ && rel != NE && Narrow(acc) && c < Pow2(WIDTH)
    ensures d.Some? ==> SameMeaning(d.value, Compare(rel, acc, c)) && Ordinary(d.value)
    ensures d.None? <==> prefix && Covered(rel, acc, c)
    ensures d.Some? && Fitting(acc, c, w) ==> On(d.value, acc, w)
  {
    var invert, constRes, constIfZero := rel == GT || rel == GE, rel == LE || rel == GE, rel == LT || rel == GE;
    if (if constIfZero then c == 0 else c == AllOnes()) {
      AtTheLimit(rel, acc, c);
      return Some(Const(if constRes then 1 else 0));
    }
    if prefix {
      d := BuildRelPrefix(rel, acc, c, w);
    } else {
      var bits := BuildRelBit(rel, acc, c, w);
      d := Some(bits);
    }
  }

  lemma AtTheLimit(rel: Rel, acc: Term, c: nat)
    requires Narrow(acc) && rel != EQ && rel != NE
    requires c == if rel == LT || rel == GE then 0 else AllOnes()
    ensures SameMeaning(Const(if rel == LE || rel == GE then 1 else 0), Compare(rel, acc, c))
  {
    forall env ensures Holds(rel, TermValue(acc, env), c) == (rel == LE || rel == GE) { NarrowValue(acc, env); }
  }

  method BuildRelBit(rel: Rel, acc: Term, c: nat, ghost w: nat) returns (d: Expr)
    requires rel != EQ && rel != NE && Narrow(acc) && c < Pow2(WIDTH)
    requires rel == LT || rel == GE ==> c != 0
    ensures SameMeaning(d, Compare(rel, acc, c)) && Ordinary(d)
    ensures Fitting(acc, c, w) ==> On(d, acc, w)
  {
    var invert := rel == GT || rel == GE;
    var c' := if rel == LT || rel == GE then c - 1 else c;
    d := BuildLeBit(acc, c', MaskOf(acc), invert, w);
    SameComparison(d, if invert then GT else LE, acc, c', rel, c);
  }

  method BuildRelPrefix(rel: Rel, acc: Term, c: nat, ghost w: nat) returns (d: Option<Expr>)
    requires rel != EQ && rel != NE && Narrow(acc) && c < Pow2(WIDTH)
    requires if rel == LT || rel == GE then c != 0 else c != AllOnes()
    ensures d.Some? ==> SameMeaning(d.value, Compare(rel, acc, c)) && Ordinary(d.value)
    ensures d.None? <==> Covered(rel, acc, c)
    ensures d.Some? && Fitting(acc, c, w) ==> On(d.value, acc, w)
  {
    var invert := rel == GT || rel == GE;
    var c' := c;
    if rel == LE || rel == GE { c' := if invert then c - 1 else c + 1; }
    d := BuildLtPrefix(acc, c', MaskOf(acc), invert, w);
    if d.Some? { SameComparison(d.value, if invert then GT else LT, acc, c', rel, c); }
    else if !invert { NeverBeyond(acc, c', MaskOf(acc), invert, Env((_, _) => false, (_, _) => false)); }
  }

  /** Do the comparisons say the same? */
  predicate Neighbours(rel: Rel, c: nat, rel': Rel, c': nat) {
    || (rel == rel' && c == c')
    || (rel == LT && rel' == LE && c == c' + 1) || (rel == LE && rel' == LT && c + 1 == c')
    || (rel == GT && rel' == GE && c + 1 == c') || (rel == GE && rel' == GT && c == c' + 1)
  }

  /** A comparison stands for another with a neighbouring constant. */
  lemma SameComparison(d: Expr, rel: Rel, acc: Term, c: nat, rel': Rel, c': nat)
    requires SameMeaning(d, Compare(rel, acc, c)) && Neighbours(rel, c, rel', c')
    ensures SameMeaning(d, Compare(rel', acc, c'))
  {
    forall env, h ensures Eval(d, env, h) == Eval(Compare(rel', acc, c'), env, h) {
      assert Eval(d, env, h) == Eval(Compare(rel, acc, c), env, h);
      assert Holds(rel, TermValue(acc, env), c) == Holds(rel', TermValue(acc, env), c');
    }
  }

  lemma NeverHolds(rel: Rel, acc: Term, c: nat, c': nat, mask: nat, invert: bool)
    requires Narrow(acc) && c' < Pow2(WIDTH) && mask == MaskOf(acc) && NoWitness(c', mask, invert, WIDTH)
    requires (invert || c' > 0) && Neighbours(if invert then GT else LT, c', rel, c)
    ensures invert && forall env :: !Holds(rel, TermValue(acc, env), c)
  {
    NeverBeyond(acc, c', mask, invert, Env((_, _) => false, (_, _) => false));
    forall env ensures !Holds(rel, TermValue(acc, env), c) {
      NeverBeyond(acc, c', mask, invert, env);
      assert Holds(if invert then GT else LT, TermValue(acc, env), c') == Holds(rel, TermValue(acc, env), c);
    }
  }

  lemma NeverBeyond(acc: Term, c: nat, mask: nat, invert: bool, env: Env)
    requires Narrow(acc) && c < Pow2(WIDTH) && mask == MaskOf(acc) && NoWitness(c, mask, invert, WIDTH)
    ensures if invert then TermValue(acc, env) <= c else c == 0
  {
    if invert {
      NarrowValue(acc, env);
      forall i: nat | Bit(TermValue(acc, env), i) ensures Bit(c, i) {
        if i >= WIDTH { BitAbove(TermValue(acc, env), WIDTH, i); }
        if !Bit(mask, i) { GetBitIs(mask, i); UnmaskedZero(acc, env, i); }
      }
      SubsetBelow(TermValue(acc, env), c);
    } else {
      forall i: nat | i < WIDTH ensures Bit(c, i) == Bit(0, i) { BitZero(i); }
      SameBits(c, 0, WIDTH);
    }
  }

  lemma {:induction false} SubsetBelow(a: nat, b: nat)
    requires forall i: nat :: Bit(a, i) ==> Bit(b, i)
    ensures a <= b
    decreases a
  {
    if a > 0 {
      assert Bit(a, 0) ==> Bit(b, 0);
      forall i: nat | Bit(a / 2, i) ensures Bit(b / 2, i) { assert Bit(a, i + 1) ==> Bit(b, i + 1); }
      SubsetBelow(a / 2, b / 2);
    }
  }

  // ----- difference -----

  /** Differs from `c` in a masked bit: one test for every bit of the mask. What `c`
      has outside the mask does not matter. */
  method BuildNeBit(acc: Term, c: nat, ghost w: nat) returns (d: Option<Expr>)
    requires Narrow(acc) && c < Pow2(WIDTH) && MaskOf(acc) < Pow2(WIDTH)
    ensures d.Some? <==> MaskOf(acc) != 0
    ensures d.Some? && Fitting(acc, c, w) ==> On(d.value, acc, w)
    ensures d.Some? ==> SameMeaning(d.value, Compare(NE, acc, And(c, MaskOf(acc)))) && Ordinary(d.value)
  {
    var mask := MaskOf(acc);
    var tests := [];
    for i := 0 to WIDTH
      invariant Differences(tests, acc, c, i) && (tests == [] <==> NoBitBelow(mask, i))
      invariant Fitting(acc, c, w) ==> AllOn(tests, acc, w)
    {
      GetBitIs(c, i);
      GetBitIs(mask, i);
      ghost var before := tests;
      if GetBit(mask, i) {
        if Fitting(acc, c, w) { BitFits(mask, i, w); }
        tests := tests + [Compare(EQ, MaskRight(acc, Pow2(i)), if GetBit(c, i) then 0 else Pow2(i))];
      }
      DifferencesNext(acc, c, i, before, tests);
    }
    EmptyMask(mask, WIDTH);
    if tests == [] { return None; }
    d := Some(Any(tests));
    DifferencesDone(tests, acc, c, WIDTH);
    if Fitting(acc, c, w) { OnAny(tests, acc, w); }
  }

  lemma DifferencesDone(tests: seq<Expr>, acc: Term, c: nat, w: nat)
    requires w == WIDTH && Narrow(acc) && c < Pow2(w) && tests != [] && Differences(tests, acc, c, w)
    ensures SameMeaning(Any(tests), Compare(NE, acc, And(c, MaskOf(acc)))) && Ordinary(Any(tests))
  {
    forall env ensures Holding(tests, env) <==> Holds(NE, TermValue(acc, env), And(c, MaskOf(acc))) {
      DiffersAll(acc, c, env);
    }
    AnyMeans(tests, NE, acc, And(c, MaskOf(acc)));
  }

  ghost predicate Differences(tests: seq<Expr>, acc: Term, c: nat, i: nat) {
    && (forall k | 0 <= k < |tests| :: IsTest(tests[k]))
    && (forall env :: Holding(tests, env) <==> DiffersBelow(TermValue(acc, env), c, MaskOf(acc), i))
  }

  lemma DifferencesNext(acc: Term, c: nat, i: nat, tests: seq<Expr>, tests': seq<Expr>)
    requires Differences(tests, acc, c, i)
    requires tests' == if Bit(MaskOf(acc), i)
      then tests + [Compare(EQ, MaskRight(acc, Pow2(i)), if Bit(c, i) then 0 else Pow2(i))] else tests
    ensures Differences(tests', acc, c, i + 1)
  {
    forall env ensures Holding(tests', env) <==> DiffersBelow(TermValue(acc, env), c, MaskOf(acc), i + 1) {
      DiffersNext(TermValue(acc, env), c, MaskOf(acc), i);
      if tests' != tests {
        HoldingLast(tests, Compare(EQ, MaskRight(acc, Pow2(i)), if Bit(c, i) then 0 else Pow2(i)), env);
        AndPow2(TermValue(acc, env), i);
      }
    }
  }

  predicate NoBitBelow(mask: nat, n: nat) { n == 0 || (NoBitBelow(mask, n - 1) && !Bit(mask, n - 1)) }

  lemma EmptyMask(mask: nat, w: nat)
    requires mask < Pow2(w)
    ensures mask == 0 <==> NoBitBelow(mask, w)
  {
    if mask == 0 { NoBits(mask, w); } else {
      var j := SomeBit(mask, w);
      BitCounted(mask, j, w);
    }
  }

  lemma {:induction false} NoBits(mask: nat, n: nat)
    requires mask == 0
    ensures NoBitBelow(mask, n)
    decreases n
  {
    if n > 0 { NoBits(mask, n - 1); NoBit(mask, n - 1); }
  }

  lemma {:induction false} BitCounted(mask: nat, j: nat, n: nat)
    requires j < n && Bit(mask, j)
    ensures !NoBitBelow(mask, n)
    decreases n
  {
    if j < n - 1 { BitCounted(mask, j, n - 1); }
  }

  lemma {:induction false} SomeBit(x: nat, w: nat) returns (j: nat)
    requires 0 < x < Pow2(w)
    ensures j < w && Bit(x, j)
    decreases w
  {
    if x % 2 == 1 { j := 0; }
    else {
      j := SomeBit(x / 2, w - 1);
      j := j + 1;
    }
  }

  lemma {:induction false} NoBit(x: nat, i: nat)
    requires x == 0
    ensures !Bit(x, i)
    decreases i
  {
    if i > 0 { NoBit(x / 2, i - 1); }
  }

  ghost predicate DiffersBelow(v: nat, c: nat, mask: nat, n: nat) {
    exists j: nat :: j < n && Bit(mask, j) && Bit(v, j) != Bit(c, j)
  }

  lemma DiffersNext(v: nat, c: nat, mask: nat, n: nat)
    ensures DiffersBelow(v, c, mask, n + 1) <==> DiffersBelow(v, c, mask, n) || (Bit(mask, n) && Bit(v, n) != Bit(c, n))
  {}

  /** A term's value has no bit outside its mask. */
  lemma ValueMasked(acc: Term, env: Env, i: nat)
    requires Narrow(acc)
    ensures Bit(TermValue(acc, env), i) ==> Bit(MaskOf(acc), i)
  {
    GetBitIs(MaskOf(acc), i);
    if !GetBit(MaskOf(acc), i) { UnmaskedZero(acc, env, i); }
  }

  lemma DiffersAll(acc: Term, c: nat, env: Env)
    requires Narrow(acc) && c < Pow2(WIDTH)
    ensures DiffersBelow(TermValue(acc, env), c, MaskOf(acc), WIDTH) <==> TermValue(acc, env) != And(c, MaskOf(acc))
  {
    var v, mask := TermValue(acc, env), MaskOf(acc);
    NarrowValue(acc, env);
    AndBelow(c, mask);
    forall i: nat ensures Bit(And(c, mask), i) <==> Bit(c, i) && Bit(mask, i) { BitAnd(c, mask, i); }
    forall i: nat ensures Bit(v, i) ==> Bit(mask, i) { ValueMasked(acc, env, i); }
    if !DiffersBelow(v, c, mask, WIDTH) {
      forall i: nat | i < WIDTH ensures Bit(v, i) == Bit(And(c, mask), i) {
        assert !(Bit(mask, i) && Bit(v, i) != Bit(c, i));
      }
      SameBits(v, And(c, mask), WIDTH);
    }
  }

  /** Differs from `c`, which lies within the mask: one prefix for every bit of the
      mask, in which the value may be the first to differ. */
  method BuildNePrefix(acc: Term, c: nat, ghost w: nat) returns (d: Option<Expr>)
    requires Narrow(acc) && c < Pow2(WIDTH) && MaskOf(acc) < Pow2(WIDTH) && And(c, MaskOf(acc)) == c
    ensures d.Some? <==> MaskOf(acc) != 0
    ensures d.Some? && Fitting(acc, c, w) ==> On(d.value, acc, w)
    ensures d.Some? ==> SameMeaning(d.value, Compare(NE, acc, c)) && Ordinary(d.value)
  {
    var mask := MaskOf(acc);
    var tests := [];
    for i := 0 to WIDTH
      invariant Twists(tests, acc, c, i) && (tests == [] <==> NoBitBelow(mask, i))
      invariant Fitting(acc, c, w) ==> AllOn(tests, acc, w)
    {
      GetBitIs(mask, i);
      ghost var before := tests;
      if GetBit(mask, i) {
        if Fitting(acc, c, w) { BitFits(mask, i, w); TwistFits(c, i, w); }
        tests := tests + [Compare(EQ, MaskRight(acc, BitMask(i)), PrefixAndTwist(c, i))];
      }
      TwistsNext(acc, c, i, before, tests);
    }
    EmptyMask(mask, WIDTH);
    if tests == [] { return None; }
    d := Some(Any(tests));
    TwistsDone(tests, acc, c, WIDTH);
    if Fitting(acc, c, w) { OnAny(tests, acc, w); }
  }

  lemma TwistsDone(tests: seq<Expr>, acc: Term, c: nat, w: nat)
    requires w == WIDTH && Narrow(acc) && c < Pow2(w) && And(c, MaskOf(acc)) == c && tests != [] && Twists(tests, acc, c, w)
    ensures SameMeaning(Any(tests), Compare(NE, acc, c)) && Ordinary(Any(tests))
  {
    forall env ensures Holding(tests, env) <==> Holds(NE, TermValue(acc, env), c) { TwistedAll(acc, c, env); }
    AnyMeans(tests, NE, acc, c);
  }

  ghost predicate Twists(tests: seq<Expr>, acc: Term, c: nat, i: nat) {
    && (forall k | 0 <= k < |tests| :: IsTest(tests[k]))
    && (forall env :: Holding(tests, env) <==> TwistedBelow(TermValue(acc, env), c, MaskOf(acc), i))
  }

  lemma TwistsNext(acc: Term, c: nat, i: nat, tests: seq<Expr>, tests': seq<Expr>)
    requires Narrow(acc) && c < Pow2(WIDTH) && Twists(tests, acc, c, i)
    requires tests' == if Bit(MaskOf(acc), i)
      then tests + [Compare(EQ, MaskRight(acc, BitMask(i)), PrefixAndTwist(c, i))] else tests
    ensures Twists(tests', acc, c, i + 1)
  {
    forall env ensures Holding(tests', env) <==> TwistedBelow(TermValue(acc, env), c, MaskOf(acc), i + 1) {
      TwistedNext(TermValue(acc, env), c, MaskOf(acc), i);
      if tests' != tests {
        HoldingLast(tests, Compare(EQ, MaskRight(acc, BitMask(i)), PrefixAndTwist(c, i)), env);
        NarrowValue(acc, env);
        PrefixTest(TermValue(acc, env), c, i);
      }
    }
  }

  ghost predicate TwistedBelow(v: nat, c: nat, mask: nat, n: nat) {
    exists j: nat :: j < n && Bit(mask, j) && Shr(v, j) == Twist(Shr(c, j))
  }

  lemma TwistedNext(v: nat, c: nat, mask: nat, n: nat)
    ensures TwistedBelow(v, c, mask, n + 1) <==> TwistedBelow(v, c, mask, n) || (Bit(mask, n) && Shr(v, n) == Twist(Shr(c, n)))
  {}

  /** Where two numbers differ, there is a highest bit in which they do. */
  lemma {:induction false} HighestDifference(v: nat, c: nat, n: nat) returns (j: nat)
    requires Shr(v, n) == Shr(c, n) && v != c
    ensures j < n && Shr(v, j) == Twist(Shr(c, j)) && Bit(v, j) != Bit(c, j)
    decreases n
  {
    ShrSplit(v, n - 1);
    ShrSplit(c, n - 1);
    if Shr(v, n - 1) == Shr(c, n - 1) { j := HighestDifference(v, c, n - 1); } else { j := n - 1; }
  }

  lemma TwistedAll(acc: Term, c: nat, env: Env)
    requires Narrow(acc) && c < Pow2(WIDTH) && And(c, MaskOf(acc)) == c
    ensures TwistedBelow(TermValue(acc, env), c, MaskOf(acc), WIDTH) <==> TermValue(acc, env) != c
  {
    var v := TermValue(acc, env);
    NarrowValue(acc, env);
    if v != c {
      ShrGone(v, WIDTH);
      ShrGone(c, WIDTH);
      var j := HighestDifference(v, c, WIDTH);
      ValueMasked(acc, env, j);
      BitAnd(c, MaskOf(acc), j);
    }
  }

  lemma ShrGone(v: nat, w: nat)
    requires v < Pow2(w)
    ensures Shr(v, w) == 0
  {
    LowSmall(v, w);
  }

  // ----- whole expressions -----

  /** Comparisons of 128-bit terms with 128-bit constants. */
  predicate Wide(d: Expr) {
    match d
    case Compare(_, x, c) => Narrow(x) && c < Pow2(WIDTH) && MaskOf(x) < Pow2(WIDTH)
    case LNot(a) => Wide(a)
    case LAnd(a, b) => Wide(a) && Wide(b)
    case LOr(a, b) => Wide(a) && Wide(b)
    case _ => true
  }

  lemma {:induction false} OrdinaryUnordered(d: Expr)
    requires Ordinary(d)
    ensures Unordered(d) && OnlyEqual(d)
    decreases d
  {
    match d
    case LAnd(a, b) => OrdinaryUnordered(a); OrdinaryUnordered(b);
    case LOr(a, b) => OrdinaryUnordered(a); OrdinaryUnordered(b);
    case _ =>
  }

  predicate OnlyEqual(d: Expr) {
    match d
    case Compare(rel, _, _) => rel == EQ
    case LNot(a) => OnlyEqual(a)
    case LAnd(a, b) => OnlyEqual(a) && OnlyEqual(b)
    case LOr(a, b) => OnlyEqual(a) && OnlyEqual(b)
    case _ => true
  }

  /** Tests for difference have a constant within a mask that is not empty. */
  predicate SettledNe(d: Expr) {
    match d
    case Compare(rel, x, c) =>
      rel == NE ==> Narrow(x) && c < Pow2(WIDTH) && MaskOf(x) < Pow2(WIDTH) && MaskOf(x) != 0 && And(c, MaskOf(x)) == c
    case LNot(a) => SettledNe(a)
    case LAnd(a, b) => SettledNe(a) && SettledNe(b)
    case LOr(a, b) => SettledNe(a) && SettledNe(b)
    case _ => true
  }

  lemma {:induction false} OrdinarySettled(d: Expr)
    requires Ordinary(d)
    ensures SettledNe(d)
    decreases d
  {
    match d
    case LAnd(a, b) => OrdinarySettled(a); OrdinarySettled(b);
    case LOr(a, b) => OrdinarySettled(a); OrdinarySettled(b);
    case _ =>
  }

  /** Comparisons were left alone or unfolded into tests of their masked bits, by numbers
      of no more bits than theirs. */
  predicate Unfolds(d: Expr, d': Expr, w: nat) {
    match d
    case Compare(rel, x, c) => d' == d || (rel != EQ && (Fitting(x, c, w) ==> On(d', x, w)))
    case LNot(a) => d'.LNot? && Unfolds(a, d'.a, w)
    case LAnd(a, b) => d'.LAnd? && Unfolds(a, d'.a, w) && Unfolds(b, d'.b, w)
    case LOr(a, b) => d'.LOr? && Unfolds(a, d'.a, w) && Unfolds(b, d'.b, w)
    case _ => d' == d
  }

  /** Is an ordering left without any prefix? */
  predicate HasCovered(d: Expr) {
    match d
    case Compare(rel, x, c) => Covered(rel, x, c)
    case LNot(a) => HasCovered(a)
    case LAnd(a, b) => HasCovered(a) || HasCovered(b)
    case LOr(a, b) => HasCovered(a) || HasCovered(b)
    case _ => false
  }

  /** Is a `>` or `>=` in the expression that is true of no packet? */
  ghost predicate Vain(d: Expr) {
    match d
    case Compare(rel, x, c) => (rel == GT || rel == GE) && forall env :: !Holds(rel, TermValue(x, env), c)
    case LNot(a) => Vain(a)
    case LAnd(a, b) => Vain(a) || Vain(b)
    case LOr(a, b) => Vain(a) || Vain(b)
    case _ => false
  }

  /** Replaces the ordering comparisons of an expression. */
  method RelGeneral(d: Expr, prefix: bool, ghost w: nat) returns (d': Option<Expr>)
    requires Wide(d) && SettledNe(d)
    ensures d'.Some? ==> SameMeaning(d, d'.value) && Unordered(d'.value) && SettledNe(d'.value)
    ensures d'.None? <==> prefix && HasCovered(d)
    ensures d'.Some? ==> Unfolds(d, d'.value, w)
    decreases d
  {
    match d {
      case Compare(rel, x, c) =>
        if rel == EQ || rel == NE { return Some(d); }
        d' := BuildRel(rel, x, c, prefix, w);
        if d'.Some? { OrdinaryUnordered(d'.value); OrdinarySettled(d'.value); }
      case LNot(a) =>
        var a' := RelGeneral(a, prefix, w);
        if a'.None? { return None; }
        d' := Some(LNot(a'.value));
        CongruentNot(a, a'.value);
      case LAnd(a, b) =>
        var a' := RelGeneral(a, prefix, w);
        if a'.None? { return None; }
        var b' := RelGeneral(b, prefix, w);
        if b'.None? { return None; }
        d' := Some(LAnd(a'.value, b'.value));
        CongruentAnd(a, a'.value, b, b'.value);
      case LOr(a, b) =>
        var a' := RelGeneral(a, prefix, w);
        if a'.None? { return None; }
        var b' := RelGeneral(b, prefix, w);
        if b'.None? { return None; }
        d' := Some(LOr(a'.value, b'.value));
        CongruentOr(a, a'.value, b, b'.value);
      case _ => d' := Some(d);
    }
  }

  /** Replaces the tests for difference. */
  method NeToEq(d: Expr, prefix: bool, ghost w: nat) returns (d': Expr)
    requires SettledNe(d) && Unordered(d)
    ensures SameMeaning(d, d') && OnlyEqual(d') && Unfolds(d, d', w)
    decreases d
  {
    d' := d;
    match d {
      case Compare(rel, x, c) =>
        if rel == NE {
          var new';
          if prefix { new' := BuildNePrefix(x, c, w); } else { new' := BuildNeBit(x, c, w); }
          d' := new'.value;
          OrdinaryUnordered(d');
        }
      case LNot(a) =>
        var a' := NeToEq(a, prefix, w);
        d' := LNot(a');
        CongruentNot(a, a');
      case LAnd(a, b) =>
        var a' := NeToEq(a, prefix, w);
        var b' := NeToEq(b, prefix, w);
        d' := LAnd(a', b');
        CongruentAnd(a, a', b, b');
      case LOr(a, b) =>
        var a' := NeToEq(a, prefix, w);
        var b' := NeToEq(b, prefix, w);
        d' := LOr(a', b');
        CongruentOr(a, a', b, b');
      case _ =>
    }
  }
}
