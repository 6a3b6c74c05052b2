/** Elimination of negation: `!` and `!=` are expressed with `||`, `&&` and the
    decisions that surround them. */
module Negation {
  import opened Semantics
  import opened Bits
  import opened Expr
  import opened Repeats
  import opened MaskedTests
  import BitTree

  // ----- single-bit tests -----

  /** The constant mask of a comparison's left side, looked for on the left of the
      `&` first. */
  function OuterMask(x: Term): Option<nat> {
    match x
    case MaskLeft(m, _) => Some(m)
    case MaskRight(_, m) => Some(m)
    case _ => None
  }

  /** Does `mask` consist of one bit? Found by shifting it down to its lowest one. */
  method SingleBit(mask: nat) returns (single: bool)
    requires mask > 0
    ensures single <==> exists n :: mask == Pow2(n)
  {
    var tmp, n := mask, 0;
    while tmp % 2 == 0
      invariant tmp > 0 && mask == tmp * Pow2(n)
      decreases tmp
    {
      assert tmp == 2 * (tmp / 2);
      assert mask == (tmp / 2) * Pow2(n + 1) by { assert 2 * (tmp / 2) * Pow2(n) == (tmp / 2) * (2 * Pow2(n)); }
      tmp, n := tmp / 2, n + 1;
    }
    single := tmp == 1;
    if tmp != 1 {
      forall k ensures mask != Pow2(k) { OddFactor(tmp, n, k); }
    }
  }

  /** A power of two has no odd factor but 1. */
  lemma {:induction false} OddFactor(t: nat, n: nat, k: nat)
    requires t % 2 == 1 && t != 1
    ensures t * Pow2(n) != Pow2(k)
    decreases n
  {
    if n == 0 {
      assert t * Pow2(0) == t;
    } else if k == 0 {
      assert t * Pow2(n) >= 2;
    } else {
      OddFactor(t, n - 1, k - 1);
      assert t * Pow2(n) == 2 * (t * Pow2(n - 1));
    }
  }

  /** Negates an equality by testing for the other value, if it is about a single
      bit. The mask word is not read further than 128 bits. */
  method SingleBitTest(x: Term, c: nat) returns (done: bool, d: Expr)
    ensures done ==> d.Compare? && d.rel == EQ && d.x == x
    ensures done ==> SameMeaning(d, Compare(NE, x, c))
    ensures done ==> FitTest(NE, x, c) ==> FitTest(EQ, x, d.c)
    ensures !done ==> d == Compare(EQ, x, c)
    ensures done <==> OuterMask(x).Some? && (c == 0 || c == OuterMask(x).value) && exists n :: OuterMask(x).value == Pow2(n)
  {
    done, d := false, Compare(EQ, x, c);
    var mask := OuterMask(x);
    if mask.None? { return; }
    if mask.value == 0 { return; }
    if c != 0 && c != mask.value { return; }
    var single := SingleBit(mask.value);
    if !single { return; }
    done, d := true, Compare(EQ, x, if c == 0 then mask.value else 0);
    if FitTest(NE, x, c) { SingleBitFits(x, c, mask.value); }
    var n :| mask.value == Pow2(n);
    forall env, h ensures Eval(d, env, h) == Eval(Compare(NE, x, c), env, h) {
      AndPow2(TermValue(x.x, env), n);
      AndCommutes(Pow2(n), TermValue(x.x, env));
    }
  }

  // ----- contexts -----

  /** What expression `e` comes to in the context of a continuation `next`, taken if
      it is true, and an alternative `otherwise`, taken if it is false. */
  function InContext(v: Value, next: Expr, otherwise: Expr, env: Env): Value {
    match v.truth
    case True => Eval(next, env, v.hist)
    case False => Eval(otherwise, env, v.hist)
    case Taken(_) => v
  }

  /** `d'` may be put in the place of `d`: it either evaluates just as `d` does, or
      has already come to the decision that `d` and its context would take. This is
      asked for wherever `d` in its context does take a decision. */
  predicate RefinesAt(d': Expr, d: Expr, next: Expr, otherwise: Expr, env: Env, h: Hist) {
    InContext(Eval(d, env, h), next, otherwise, env).truth.Taken? ==>
      Eval(d', env, h) == Eval(d, env, h)
      || Eval(d', env, h) == InContext(Eval(d, env, h), next, otherwise, env)
  }

  ghost predicate Refines(d': Expr, d: Expr, next: Expr, otherwise: Expr) {
    forall env, h :: RefinesAt(d', d, next, otherwise, env, h)
  }

  predicate Positive(e: Expr) {
    match e
    case Compare(rel, _, _) => rel != NE
    case LNot(_) => false
    case LAnd(a, b) => Positive(a) && Positive(b)
    case LOr(a, b) => Positive(a) && Positive(b)
    case _ => true
  }

  /** The context of a left operand: the right operand in the context of both. */
  function Extended(b: Expr, next: Expr, otherwise: Expr): Expr {
    LOr(LAnd(b, next), otherwise)
  }

  /** Where the context decides, a rewritten operand standing in the extended context
      decides as the operand did. */
  lemma ExtendedDecides(b': Expr, b: Expr, next: Expr, otherwise: Expr, env: Env, h: Hist)
    requires RefinesAt(b', b, next, otherwise, env, h)
    requires InContext(Eval(b, env, h), next, otherwise, env).truth.Taken?
    ensures Eval(Extended(b', next, otherwise), env, h) == InContext(Eval(b, env, h), next, otherwise, env)
  {
    ExtendedEval(b', next, otherwise, env, h);
  }

  /** The extended context takes the decision of the context it extends. */
  lemma ExtendedEval(b: Expr, next: Expr, otherwise: Expr, env: Env, h: Hist)
    requires InContext(Eval(b, env, h), next, otherwise, env).truth.Taken?
    ensures Eval(Extended(b, next, otherwise), env, h) == InContext(Eval(b, env, h), next, otherwise, env)
  {
    var v := Eval(b, env, h);
    assert Eval(LAnd(b, next), env, h) == if v.truth.True? then Eval(next, env, v.hist) else v;
  }

  lemma RefinesOr(a': Expr, a: Expr, b': Expr, b: Expr, next: Expr, otherwise: Expr)
    requires Refines(b', b, next, otherwise)
    requires Refines(a', a, next, Extended(b', next, otherwise))
    ensures Refines(LOr(a', b'), LOr(a, b), next, otherwise)
  {
    forall env, h ensures RefinesAt(LOr(a', b'), LOr(a, b), next, otherwise, env, h) {
      var v := Eval(a, env, h);
      assert RefinesAt(a', a, next, Extended(b', next, otherwise), env, h);
      assert RefinesAt(b', b, next, otherwise, env, v.hist);
      if v.truth.False? && InContext(Eval(LOr(a, b), env, h), next, otherwise, env).truth.Taken? {
        ExtendedDecides(b', b, next, otherwise, env, v.hist);
      }
    }
  }

  lemma RefinesAnd(a': Expr, a: Expr, b': Expr, b: Expr, next: Expr, otherwise: Expr)
    requires Refines(b', b, next, otherwise)
    requires Refines(a', a, Extended(b', next, otherwise), otherwise)
    ensures Refines(LAnd(a', b'), LAnd(a, b), next, otherwise)
  {
    forall env, h ensures RefinesAt(LAnd(a', b'), LAnd(a, b), next, otherwise, env, h) {
      var v := Eval(a, env, h);
      assert RefinesAt(a', a, Extended(b', next, otherwise), otherwise, env, h);
      assert RefinesAt(b', b, next, otherwise, env, v.hist);
      if v.truth.True? && InContext(Eval(LAnd(a, b), env, h), next, otherwise, env).truth.Taken? {
        ExtendedDecides(b', b, next, otherwise, env, v.hist);
      }
    }
  }

  /** A negation is its operand with the context turned around. */
  lemma RefinesNot(a': Expr, a: Expr, next: Expr, otherwise: Expr)
    requires Refines(a', a, otherwise, next)
    ensures Refines(LOr(LAnd(a', otherwise), next), LNot(a), next, otherwise)
  {
    forall env, h ensures RefinesAt(LOr(LAnd(a', otherwise), next), LNot(a), next, otherwise, env, h) {
      assert RefinesAt(a', a, otherwise, next, env, h);
    }
  }

  lemma RefinesEqual(d': Expr, d: Expr, next: Expr, otherwise: Expr)
    requires SameMeaning(d', d)
    ensures Refines(d', d, next, otherwise)
  {
    forall env, h ensures RefinesAt(d', d, next, otherwise, env, h) {
      assert Eval(d', env, h) == Eval(d, env, h);
    }
  }

  lemma RefinesSame(d': Expr, d: Expr, e: Expr, next: Expr, otherwise: Expr)
    requires Refines(d', d, next, otherwise) && SameMeaning(d, e)
    ensures Refines(d', e, next, otherwise)
  {
    forall env, h ensures RefinesAt(d', e, next, otherwise, env, h) {
      assert RefinesAt(d', d, next, otherwise, env, h);
      assert Eval(d, env, h) == Eval(e, env, h);
    }
  }

  // ----- shapes kept by the pass -----

  /** Both outcomes lead to a decision. */
  predicate Decides(e: Expr) { !MayBeTrue(e) && !MayBeFalse(e) }

  /** Every negation stands in a context that decides; `n` and `o` say whether the
      continuation and the alternative of `d` do. */
  predicate Anchored(d: Expr, n: bool, o: bool) {
    match d
    case Compare(rel, _, _) => rel == NE ==> n && o
    case LNot(a) => n && o
    case LAnd(a, b) => Anchored(b, n, o) && Anchored(a, DecidesAfter(b, n, o), o)
    case LOr(a, b) => Anchored(b, n, o) && Anchored(a, n, DecidesAfter(b, n, o))
    case _ => true
  }

  /** Does the context extended by `b` decide? */
  predicate DecidesAfter(b: Expr, n: bool, o: bool) {
    Decides(b) || (o && (n || !MayBeTrue(b)))
  }

  lemma {:induction false} DecidingAnchors(d: Expr)
    ensures Anchored(d, true, true)
    decreases d
  {
    match d
    case LAnd(a, b) => DecidingAnchors(a); DecidingAnchors(b);
    case LOr(a, b) => DecidingAnchors(a); DecidingAnchors(b);
    case _ =>
  }

  lemma {:induction false} BetterAnchored(d: Expr, n: bool, o: bool, n': bool, o': bool)
    requires Anchored(d, n, o) && (n ==> n') && (o ==> o')
    ensures Anchored(d, n', o')
    decreases d
  {
    match d
    case LAnd(a, b) => BetterAnchored(b, n, o, n', o'); BetterAnchored(a, DecidesAfter(b, n, o), o, DecidesAfter(b, n', o'), o');
    case LOr(a, b) => BetterAnchored(b, n, o, n', o'); BetterAnchored(a, n, DecidesAfter(b, n, o), n', DecidesAfter(b, n', o'));
    case _ =>
  }

  /** Where all negations are anchored none of the outcomes becomes possible. */
  predicate NoNewOutcome(d': Expr, d: Expr) {
    (MayBeTrue(d') ==> MayBeTrue(d)) && (MayBeFalse(d') ==> MayBeFalse(d))
  }

  lemma OutcomesJoined(a': Expr, a: Expr, b': Expr, b: Expr)
    ensures NoNewOutcome(a', a) && NoNewOutcome(b', b) ==>
      NoNewOutcome(LAnd(a', b'), LAnd(a, b)) && NoNewOutcome(LOr(a', b'), LOr(a, b))
  {}

  lemma ExtendedAnchors(b': Expr, b: Expr, next: Expr, otherwise: Expr)
    requires NoNewOutcome(b', b) && DecidesAfter(b, Decides(next), Decides(otherwise))
    ensures Decides(Extended(b', next, otherwise))
  {
    assert MayBeTrue(LAnd(b', next)) ==> MayBeTrue(b') && MayBeTrue(next);
    assert MayBeFalse(LAnd(b', next)) ==> MayBeFalse(b') || MayBeFalse(next);
  }

  /** What later passes take: tests for equality or difference, with constants and
      masks that fit the field, in one offset group. */
  predicate Fits(e: Expr, group: int) {
    match e
    case Compare(rel, x, c) => FitTest(rel, x, c) && ChainBase(x).group == group
    case LNot(a) => Fits(a, group)
    case LAnd(a, b) => Fits(a, group) && Fits(b, group)
    case LOr(a, b) => Fits(a, group) && Fits(b, group)
    case _ => true
  }

  predicate FitTest(rel: Rel, x: Term, c: nat) {
    && (rel == EQ || rel == NE) && BitTree.Masked(x) && c < Pow2(WORD)
    && (c < Pow2(ChainBase(x).size) || And(c, BitTree.Masks(x)) != c)
    && (rel == NE && OuterMask(x).Some? ==> OuterMask(x).value < Pow2(ChainBase(x).size))
  }

  lemma SingleBitFits(x: Term, c: nat, m: nat)
    requires FitTest(NE, x, c) && OuterMask(x) == Some(m) && (c == 0 || c == m)
    ensures FitTest(EQ, x, if c == 0 then m else 0)
  {
    Pow2Mono(0, ChainBase(x).size);
    Pow2Mono(ChainBase(x).size, WORD);
  }

  lemma {:induction false} PositiveFits(e: Expr, group: int)
    requires Positive(e) && Fits(e, group)
    ensures BitTree.Equalities(e) && BitTree.AllIn(e, group)
    decreases e
  {
    match e
    case LAnd(a, b) => PositiveFits(a, group); PositiveFits(b, group);
    case LOr(a, b) => PositiveFits(a, group); PositiveFits(b, group);
    case _ =>
  }

  // ----- tests on the two sides of a conformance test -----

  /** The tests of a context on its own. */
  function TestsIn(e: Expr): set<Key> { BitTree.TestedBy(e, {}, {}) }

  predicate ApartIn(e: Expr) { BitTree.KeptApart(e, {}, {}) }

  /** `flag` says that the context decides, with no other tests than those of `k`. */
  predicate Covered(e: Expr, flag: bool, k: set<Key>) { flag ==> Decides(e) && TestsIn(e) <= k }

  /** In a context that has tests `t` and `f` anyway, the result adds none, and none to the
      other side of a conformance test. */
  predicate FrugalAt(d': Expr, d: Expr, next: Expr, otherwise: Expr, n: bool, o: bool, t: set<Key>, f: set<Key>) {
    Covered(next, n, t) && Covered(otherwise, o, f) && Anchored(d, n, o) ==>
      && BitTree.TestedBy(d', t, f) <= BitTree.TestedBy(d, t, f)
      && (BitTree.KeptApart(d, t, f) && (n && MayBeTrue(d) ==> ApartIn(next)) && (o && MayBeFalse(d) ==> ApartIn(otherwise))
          ==> BitTree.KeptApart(d', t, f))
  }

  ghost predicate Frugal(d': Expr, d: Expr, next: Expr, otherwise: Expr) {
    forall n, o, t, f :: FrugalAt(d', d, next, otherwise, n, o, t, f)
  }

  lemma OutcomesAt(d': Expr, d: Expr, next: Expr, otherwise: Expr, n: bool, o: bool, t: set<Key>, f: set<Key>)
    requires Anchored(d, Decides(next), Decides(otherwise)) ==> NoNewOutcome(d', d)
    requires Covered(next, n, t) && Covered(otherwise, o, f) && Anchored(d, n, o)
    ensures NoNewOutcome(d', d)
  {
    BetterAnchored(d, n, o, Decides(next), Decides(otherwise));
  }

  /** What the extended context adds to the tests and to the sides of conformance tests. */
  lemma ExtendedCovered(b': Expr, b: Expr, next: Expr, otherwise: Expr, n: bool, o: bool, t: set<Key>, f: set<Key>)
    requires Covered(next, n, t) && Covered(otherwise, o, f) && NoNewOutcome(b', b)
    ensures Covered(Extended(b', next, otherwise), DecidesAfter(b, n, o), BitTree.TestedBy(b', t, f))
    ensures
      DecidesAfter(b, n, o) && BitTree.KeptApart(b', t, f)
      && (n && MayBeTrue(b) ==> ApartIn(next)) && (o && MayBeFalse(b) ==> ApartIn(otherwise))
      ==> ApartIn(Extended(b', next, otherwise))
  {
    if DecidesAfter(b, n, o) {
      var rest := TestsIn(otherwise);
      var after_ := BitTree.TestedBy(next, {}, rest);
      ExtendedAnchors(b', b, next, otherwise);
      assert BitTree.TestedBy(LAnd(b', next), {}, rest) == BitTree.TestedBy(b', after_, rest);
      assert TestsIn(Extended(b', next, otherwise)) == BitTree.TestedBy(b', after_, rest);
      if Decides(b) {
        BitTree.TestsIndependent(b', after_, rest, t, f);
      } else {
        if n { BitTree.TestsIndependent(next, {}, rest, {}, {}); }
        else { BitTree.TestsIndependent(b', after_, rest, t, rest); }
        BitTree.TestsMonotone(b', if n then after_ else t, rest, t, f);
      }
      ExtendedApart(b', next, otherwise, rest, after_);
    }
  }

  lemma ExtendedApart(b': Expr, next: Expr, otherwise: Expr, rest: set<Key>, after_: set<Key>)
    requires rest == TestsIn(otherwise) && after_ == BitTree.TestedBy(next, {}, rest)
    ensures ApartIn(Extended(b', next, otherwise)) <==>
      BitTree.KeptApart(b', after_, rest) && (MayBeTrue(b') ==> BitTree.KeptApart(next, {}, rest))
      && (MayBeFalse(LAnd(b', next)) ==> ApartIn(otherwise))
  {
    assert BitTree.KeptApart(LAnd(b', next), {}, rest) <==>
      BitTree.KeptApart(b', after_, rest) && (MayBeTrue(b') ==> BitTree.KeptApart(next, {}, rest));
  }

  /** Both operands add no tests, the left one in the context extended by the right one. */
  predicate FrugalOperands(d': Expr, d: Expr, next: Expr, otherwise: Expr, n: bool, o: bool, t: set<Key>, f: set<Key>)
    requires (d.LOr? && d'.LOr?) || (d.LAnd? && d'.LAnd?)
  {
    var ext, after, kb := Extended(d'.b, next, otherwise), DecidesAfter(d.b, n, o), BitTree.TestedBy(d'.b, t, f);
    && NoNewOutcome(d'.b, d.b) && NoNewOutcome(d'.a, d.a)
    && FrugalAt(d'.b, d.b, next, otherwise, n, o, t, f)
    && if d.LOr? then FrugalAt(d'.a, d.a, next, ext, n, after, t, kb) else FrugalAt(d'.a, d.a, ext, otherwise, after, o, kb, f)
  }

  lemma FrugalJoined(d': Expr, d: Expr, next: Expr, otherwise: Expr, n: bool, o: bool, t: set<Key>, f: set<Key>)
    requires (d.LOr? && d'.LOr?) || (d.LAnd? && d'.LAnd?)
    requires Covered(next, n, t) && Covered(otherwise, o, f) && Anchored(d, n, o)
    requires FrugalOperands(d', d, next, otherwise, n, o, t, f)
    ensures BitTree.TestedBy(d', t, f) <= BitTree.TestedBy(d, t, f)
    ensures
      BitTree.KeptApart(d, t, f) && (n && MayBeTrue(d) ==> ApartIn(next)) && (o && MayBeFalse(d) ==> ApartIn(otherwise))
      ==> BitTree.KeptApart(d', t, f)
  {
    var kb, kb' := BitTree.TestedBy(d.b, t, f), BitTree.TestedBy(d'.b, t, f);
    assert kb' <= kb;
    ExtendedCovered(d'.b, d.b, next, otherwise, n, o, t, f);
    if d.LOr? { BitTree.TestsMonotone(d.a, t, kb', t, kb); } else { BitTree.TestsMonotone(d.a, kb', f, kb, f); }
  }

  lemma FrugalOr(a': Expr, a: Expr, b': Expr, b: Expr, next: Expr, otherwise: Expr)
    requires Frugal(b', b, next, otherwise) && Frugal(a', a, next, Extended(b', next, otherwise))
    requires Anchored(b, Decides(next), Decides(otherwise)) ==> NoNewOutcome(b', b)
    requires Anchored(a, Decides(next), Decides(Extended(b', next, otherwise))) ==> NoNewOutcome(a', a)
    ensures Frugal(LOr(a', b'), LOr(a, b), next, otherwise)
  {
    var d', d := LOr(a', b'), LOr(a, b);
    forall n, o, t, f ensures FrugalAt(d', d, next, otherwise, n, o, t, f) {
      if Covered(next, n, t) && Covered(otherwise, o, f) && Anchored(d, n, o) {
        var ext, after, kb' := Extended(b', next, otherwise), DecidesAfter(b, n, o), BitTree.TestedBy(b', t, f);
        OutcomesAt(b', b, next, otherwise, n, o, t, f);
        ExtendedCovered(b', b, next, otherwise, n, o, t, f);
        OutcomesAt(a', a, next, ext, n, after, t, kb');
        assert FrugalOperands(d', d, next, otherwise, n, o, t, f);
        FrugalJoined(d', d, next, otherwise, n, o, t, f);
      }
    }
  }

  lemma FrugalAnd(a': Expr, a: Expr, b': Expr, b: Expr, next: Expr, otherwise: Expr)
    requires Frugal(b', b, next, otherwise) && Frugal(a', a, Extended(b', next, otherwise), otherwise)
    requires Anchored(b, Decides(next), Decides(otherwise)) ==> NoNewOutcome(b', b)
    requires Anchored(a, Decides(Extended(b', next, otherwise)), Decides(otherwise)) ==> NoNewOutcome(a', a)
    ensures Frugal(LAnd(a', b'), LAnd(a, b), next, otherwise)
  {
    var d', d := LAnd(a', b'), LAnd(a, b);
    forall n, o, t, f ensures FrugalAt(d', d, next, otherwise, n, o, t, f) {
      if Covered(next, n, t) && Covered(otherwise, o, f) && Anchored(d, n, o) {
        var ext, after, kb' := Extended(b', next, otherwise), DecidesAfter(b, n, o), BitTree.TestedBy(b', t, f);
        OutcomesAt(b', b, next, otherwise, n, o, t, f);
        ExtendedCovered(b', b, next, otherwise, n, o, t, f);
        OutcomesAt(a', a, ext, otherwise, after, o, kb', f);
        assert FrugalOperands(d', d, next, otherwise, n, o, t, f);
        FrugalJoined(d', d, next, otherwise, n, o, t, f);
      }
    }
  }

  lemma FrugalNot(a': Expr, a: Expr, next: Expr, otherwise: Expr)
    requires Frugal(a', a, otherwise, next) && (Anchored(a, Decides(otherwise), Decides(next)) ==> NoNewOutcome(a', a))
    ensures Frugal(LOr(LAnd(a', otherwise), next), LNot(a), next, otherwise)
  {
    forall n, o, t, f ensures FrugalAt(LOr(LAnd(a', otherwise), next), LNot(a), next, otherwise, n, o, t, f) {
      if Covered(next, n, t) && Covered(otherwise, o, f) && Anchored(LNot(a), n, o) {
        DecidingAnchors(a);
        assert FrugalAt(a', a, otherwise, next, true, true, f, t);
        var kn := BitTree.TestedBy(next, t, f);
        var ko := BitTree.TestedBy(otherwise, t, kn);
        BitTree.TestsIndependent(next, t, f, {}, {});
        BitTree.TestsIndependent(otherwise, t, kn, {}, {});
        BitTree.TestsMonotone(a', ko, kn, f, t);
        assert BitTree.KeptApart(LAnd(a', otherwise), t, kn) <==>
          BitTree.KeptApart(a', ko, kn) && (MayBeTrue(a') ==> BitTree.KeptApart(otherwise, t, kn));
      }
    }
  }

  /** Tests of the same field. */
  lemma FrugalTest(d': Expr, d: Expr, next: Expr, otherwise: Expr)
    requires forall t, f :: BitTree.TestedBy(d', t, f) == BitTree.TestedBy(d, t, f) && (BitTree.KeptApart(d, t, f) ==> BitTree.KeptApart(d', t, f))
    ensures Frugal(d', d, next, otherwise)
  {
    forall n, o, t, f ensures FrugalAt(d', d, next, otherwise, n, o, t, f) {}
  }

  /** The two expressions test and branch alike. */
  predicate Alike(d: Expr, e: Expr, n: bool, o: bool, t: set<Key>, f: set<Key>) {
    && MayBeTrue(d) == MayBeTrue(e) && MayBeFalse(d) == MayBeFalse(e) && (Anchored(e, n, o) ==> Anchored(d, n, o))
    && BitTree.TestedBy(e, t, f) == BitTree.TestedBy(d, t, f) && (BitTree.KeptApart(e, t, f) ==> BitTree.KeptApart(d, t, f))
  }

  lemma FrugalSame(d': Expr, d: Expr, e: Expr, next: Expr, otherwise: Expr)
    requires Frugal(d', d, next, otherwise) && forall n, o, t, f :: Alike(d, e, n, o, t, f)
    ensures Frugal(d', e, next, otherwise)
  {
    forall n, o, t, f ensures FrugalAt(d', e, next, otherwise, n, o, t, f) {
      FrugalSameAt(d', d, e, next, otherwise, n, o, t, f);
    }
  }

  lemma FrugalSameAt(d': Expr, d: Expr, e: Expr, next: Expr, otherwise: Expr, n: bool, o: bool, t: set<Key>, f: set<Key>)
    requires FrugalAt(d', d, next, otherwise, n, o, t, f) && Alike(d, e, n, o, t, f)
    ensures FrugalAt(d', e, next, otherwise, n, o, t, f)
  {}

  lemma TurnedTest(x: Term, c: nat)
    ensures forall t, f ::
      var d', d := Compare(EQ, x, c), LNot(Compare(NE, x, c));
      BitTree.TestedBy(d', t, f) == BitTree.TestedBy(d, t, f) && (BitTree.KeptApart(d, t, f) ==> BitTree.KeptApart(d', t, f))
  {
    forall t, f ensures BitTree.TestedBy(Compare(EQ, x, c), t, f) == BitTree.TestedBy(LNot(Compare(NE, x, c)), t, f) {
      assert BitTree.TestedBy(Compare(NE, x, c), f, t) == BitTree.FieldKeys(x) + f + t;
    }
  }

  lemma AlikeTwice(c: Expr)
    ensures forall n, o, t, f :: Alike(c, LNot(LNot(c)), n, o, t, f)
  {
    forall n, o, t, f ensures Alike(c, LNot(LNot(c)), n, o, t, f) {
      if n && o { DecidingAnchors(c); }
      assert BitTree.TestedBy(LNot(c), f, t) == BitTree.TestedBy(c, t, f);
      assert BitTree.KeptApart(LNot(c), f, t) == BitTree.KeptApart(c, t, f);
      assert MayBeTrue(LNot(c)) == MayBeFalse(c) && MayBeFalse(LNot(c)) == MayBeTrue(c);
    }
  }

  lemma AlikeUnequal(x: Term, c: nat)
    ensures forall n, o, t, f :: Alike(LNot(Compare(EQ, x, c)), Compare(NE, x, c), n, o, t, f)
  {
    forall n, o, t, f ensures Alike(LNot(Compare(EQ, x, c)), Compare(NE, x, c), n, o, t, f) {
      assert BitTree.TestedBy(Compare(EQ, x, c), f, t) == BitTree.TestedBy(Compare(NE, x, c), t, f);
    }
  }

  // ----- the pass -----

  function Size(e: Expr): nat {
    match e
    case Compare(rel, _, _) => if rel == NE then 3 else 1
    case LNot(a) => 1 + Size(a)
    case LAnd(a, b) => 1 + Size(a) + Size(b)
    case LOr(a, b) => 1 + Size(a) + Size(b)
    case _ => 1
  }

  lemma SizeUnequal(x: Term, c: nat)
    ensures Size(LNot(Compare(EQ, x, c))) < Size(Compare(NE, x, c))
  {
    assert Size(Compare(EQ, x, c)) == 1;
  }

  lemma ExtendedFits(b: Expr, next: Expr, otherwise: Expr, group: int)
    ensures Fits(b, group) && Fits(next, group) && Fits(otherwise, group)
      ==> Fits(Extended(b, next, otherwise), group)
  {
    assert Fits(LAnd(b, next), group) <==> Fits(b, group) && Fits(next, group);
  }

  lemma AnchoredOperands(d: Expr, b': Expr, next: Expr, otherwise: Expr)
    requires d.LOr? || d.LAnd?
    requires Anchored(d, Decides(next), Decides(otherwise)) ==> NoNewOutcome(b', d.b)
    ensures Anchored(d, Decides(next), Decides(otherwise)) ==>
      if d.LOr? then Anchored(d.a, Decides(next), Decides(Extended(b', next, otherwise)))
      else Anchored(d.a, Decides(Extended(b', next, otherwise)), Decides(otherwise))
  {
    var n, o := Decides(next), Decides(otherwise);
    if Anchored(d, n, o) {
      if DecidesAfter(d.b, n, o) { ExtendedAnchors(b', d.b, next, otherwise); }
      var e := Decides(Extended(b', next, otherwise));
      if d.LOr? { BetterAnchored(d.a, n, DecidesAfter(d.b, n, o), n, e); }
      else { BetterAnchored(d.a, DecidesAfter(d.b, n, o), o, e, o); }
    }
  }

  /** What the pass makes of `d` in its context. */
  ghost predicate Bubbled(d': Expr, d: Expr, next: Expr, otherwise: Expr, group: int) {
    && Positive(d') && Refines(d', d, next, otherwise) && Frugal(d', d, next, otherwise)
    && (Anchored(d, Decides(next), Decides(otherwise)) ==> NoNewOutcome(d', d))
    && (Fits(d, group) && Fits(next, group) && Fits(otherwise, group) ==> Fits(d', group))
  }

  lemma BubbledOr(a': Expr, a: Expr, b': Expr, b: Expr, next: Expr, otherwise: Expr, group: int)
    requires Bubbled(b', b, next, otherwise, group)
    requires Bubbled(a', a, next, Extended(b', next, otherwise), group)
    ensures Bubbled(LOr(a', b'), LOr(a, b), next, otherwise, group)
  {
    AnchoredOperands(LOr(a, b), b', next, otherwise);
    RefinesOr(a', a, b', b, next, otherwise);
    FrugalOr(a', a, b', b, next, otherwise);
    OutcomesJoined(a', a, b', b);
    ExtendedFits(b', next, otherwise, group);
  }

  lemma BubbledAnd(a': Expr, a: Expr, b': Expr, b: Expr, next: Expr, otherwise: Expr, group: int)
    requires Bubbled(b', b, next, otherwise, group)
    requires Bubbled(a', a, Extended(b', next, otherwise), otherwise, group)
    ensures Bubbled(LAnd(a', b'), LAnd(a, b), next, otherwise, group)
  {
    AnchoredOperands(LAnd(a, b), b', next, otherwise);
    RefinesAnd(a', a, b', b, next, otherwise);
    FrugalAnd(a', a, b', b, next, otherwise);
    OutcomesJoined(a', a, b', b);
    ExtendedFits(b', next, otherwise, group);
  }

  lemma BubbledNot(a': Expr, a: Expr, next: Expr, otherwise: Expr, group: int)
    requires Bubbled(a', a, otherwise, next, group) && Positive(next) && Positive(otherwise)
    ensures Bubbled(LOr(LAnd(a', otherwise), next), LNot(a), next, otherwise, group)
  {
    RefinesNot(a', a, next, otherwise);
    FrugalNot(a', a, next, otherwise);
    if Decides(next) && Decides(otherwise) {
      DecidingAnchors(a);
      ExtendedAnchors(a', a', otherwise, next);
    }
    ExtendedFits(a', otherwise, next, group);
    assert Positive(LAnd(a', otherwise));
  }

  /** The same for an expression that means, tests and branches the same. */
  lemma BubbledSame(d': Expr, d: Expr, e: Expr, next: Expr, otherwise: Expr, group: int)
    requires Bubbled(d', d, next, otherwise, group) && SameMeaning(d, e) && (Fits(e, group) ==> Fits(d, group))
    requires forall n, o, t, f :: Alike(d, e, n, o, t, f)
    ensures Bubbled(d', e, next, otherwise, group)
  {
    RefinesSame(d', d, e, next, otherwise);
    FrugalSame(d', d, e, next, otherwise);
    var n, o := Decides(next), Decides(otherwise);
    SameBranches(d, e, n, o);
  }

  lemma SameBranches(d: Expr, e: Expr, n: bool, o: bool)
    requires forall n, o, t, f :: Alike(d, e, n, o, t, f)
    ensures MayBeTrue(d) == MayBeTrue(e) && MayBeFalse(d) == MayBeFalse(e) && (Anchored(e, n, o) ==> Anchored(d, n, o))
  {
    assert Alike(d, e, n, o, {}, {});
  }

  lemma Twice(c: Expr, group: int)
    ensures SameMeaning(c, LNot(LNot(c))) && (Fits(LNot(LNot(c)), group) ==> Fits(c, group))
  {
    assert Fits(LNot(LNot(c)), group) == Fits(LNot(c), group) == Fits(c, group);
    forall env, h ensures Eval(c, env, h) == Eval(LNot(LNot(c)), env, h) {
      assert Eval(LNot(c), env, h) == var v := Eval(c, env, h); if v.truth.Taken? then v else Value(TruthOf(v.truth.False?), v.hist);
    }
  }

  /** An inequality is the negation of an equality. */
  lemma Unequal(x: Term, c: nat, group: int)
    ensures SameMeaning(LNot(Compare(EQ, x, c)), Compare(NE, x, c))
    ensures Fits(Compare(NE, x, c), group) ==> Fits(LNot(Compare(EQ, x, c)), group)
  {
    assert Fits(LNot(Compare(EQ, x, c)), group) == Fits(Compare(EQ, x, c), group);
    forall env, h ensures Eval(LNot(Compare(EQ, x, c)), env, h) == Eval(Compare(NE, x, c), env, h) {
      assert Eval(Compare(EQ, x, c), env, h) == Value(TruthOf(TermValue(x, env) == c), h);
    }
  }

  lemma TurnedMeaning(x: Term, c: nat, group: int)
    ensures SameMeaning(Compare(EQ, x, c), LNot(Compare(NE, x, c)))
    ensures Fits(LNot(Compare(NE, x, c)), group) ==> Fits(Compare(EQ, x, c), group)
    ensures NoNewOutcome(Compare(EQ, x, c), LNot(Compare(NE, x, c)))
  {
    assert Fits(LNot(Compare(NE, x, c)), group) == Fits(Compare(NE, x, c), group);
    assert MayBeTrue(Compare(NE, x, c)) && MayBeFalse(Compare(NE, x, c));
    forall env, h ensures Eval(Compare(EQ, x, c), env, h) == Eval(LNot(Compare(NE, x, c)), env, h) {
      assert Eval(Compare(NE, x, c), env, h) == Value(TruthOf(TermValue(x, env) != c), h);
    }
  }

  /** An expression that may stand for `d` anywhere. */
  lemma BubbledEqual(d': Expr, d: Expr, next: Expr, otherwise: Expr, group: int)
    requires Positive(d') && SameMeaning(d', d) && NoNewOutcome(d', d) && (Fits(d, group) ==> Fits(d', group))
    requires forall t, f :: BitTree.TestedBy(d', t, f) == BitTree.TestedBy(d, t, f) && (BitTree.KeptApart(d, t, f) ==> BitTree.KeptApart(d', t, f))
    ensures Bubbled(d', d, next, otherwise, group)
  {
    RefinesEqual(d', d, next, otherwise);
    FrugalTest(d', d, next, otherwise);
  }

  method BubbleNot(d: Expr, next: Expr, otherwise: Expr, ghost group: int) returns (d': Expr)
    requires Positive(next) && Positive(otherwise)
    ensures Bubbled(d', d, next, otherwise, group)
    decreases Size(d), 1
  {
    match d {
      case Compare(NE, x, c) =>
        var done;
        done, d' := SingleBitTest(x, c);
        if done {
          BubbledEqual(d', d, next, otherwise, group);
          return;
        }
        SizeUnequal(x, c);
        d' := BubbleNegation(Compare(EQ, x, c), next, otherwise, group);
        Unequal(x, c, group);
        AlikeUnequal(x, c);
        BubbledSame(d', LNot(Compare(EQ, x, c)), d, next, otherwise, group);
      case LNot(a) =>
        d' := BubbleNegation(a, next, otherwise, group);
      case LOr(a, b) =>
        var b' := BubbleNot(b, next, otherwise, group);
        var a' := BubbleNot(a, next, Extended(b', next, otherwise), group);
        d' := LOr(a', b');
        BubbledOr(a', a, b', b, next, otherwise, group);
      case LAnd(a, b) =>
        var b' := BubbleNot(b, next, otherwise, group);
        var a' := BubbleNot(a, Extended(b', next, otherwise), otherwise, group);
        d' := LAnd(a', b');
        BubbledAnd(a', a, b', b, next, otherwise, group);
      case _ =>
        d' := d;
        BubbledEqual(d', d, next, otherwise, group);
    }
  }

  /** The case of `!a`: a second negation or an inequality below cancels, anything
      else is turned around in its context. */
  method BubbleNegation(a: Expr, next: Expr, otherwise: Expr, ghost group: int) returns (d': Expr)
    requires Positive(next) && Positive(otherwise)
    ensures Bubbled(d', LNot(a), next, otherwise, group)
    decreases Size(LNot(a)), 0
  {
    if a.LNot? {
      assert Size(LNot(a)) == 1 + Size(a) == 2 + Size(a.a);
      d' := BubbleNot(a.a, next, otherwise, group);
      assert LNot(a) == LNot(LNot(a.a));
      Twice(a.a, group);
      AlikeTwice(a.a);
      BubbledSame(d', a.a, LNot(a), next, otherwise, group);
    } else if a.Compare? && a.rel == NE {
      d' := Compare(EQ, a.x, a.c);
      TurnedTest(a.x, a.c);
      TurnedMeaning(a.x, a.c, group);
      assert a == Compare(NE, a.x, a.c);
      BubbledEqual(d', LNot(a), next, otherwise, group);
    } else {
      var a' := BubbleNot(a, otherwise, next, group);
      d' := LOr(LAnd(a', otherwise), next);
      BubbledNot(a', a, next, otherwise, group);
    }
  }

  /** Removes all negation. Wherever the expression takes a decision, the result
      takes the same one after the same counts. */
  method IflibNot(d: Expr, ghost group: int) returns (d': Expr)
    ensures Positive(d')
    ensures forall env, h :: Eval(d, env, h).truth.Taken? ==> Eval(d', env, h) == Eval(d, env, h)
    ensures Anchored(d, false, false) ==> NoNewOutcome(d', d) && (ApartIn(d) ==> ApartIn(d'))
    ensures Fits(d, group) ==> Fits(d', group)
  {
    d' := BubbleNot(d, Const(1), Const(0), group);
    assert FrugalAt(d', d, Const(1), Const(0), false, false, {}, {});
    if Anchored(d, false, false) { BetterAnchored(d, false, false, Decides(Const(1)), Decides(Const(0))); }
    forall env, h | Eval(d, env, h).truth.Taken? ensures Eval(d', env, h) == Eval(d, env, h) {
      assert RefinesAt(d', d, Const(1), Const(0), env, h);
    }
  }
}
