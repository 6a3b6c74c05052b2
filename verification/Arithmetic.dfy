/** Comparisons of masked and shifted fields as tests for equality, on the way from
    filters to rules. */
module Arithmetic {
  import opened Semantics
  import opened Bits
  import opened Expr
  import opened Comparisons
  import opened MaskedTests
  import opened Repeats
  import BitTree
  import RelAccess
  import Negation
  import Combine
  import opened Rules
  import opened IflibBit

  // ----- what is compared -----

  /** Comparisons of terms with constant masks and shifts. */
  predicate Plain(d: Expr) {
    match d
    case Compare(_, x, c) => Narrow(x) && RelAccess.Constants(x) && RelAccess.NonEmpty(x) && c < Pow2(WIDTH)
    case LNot(a) => Plain(a)
    case LAnd(a, b) => Plain(a) && Plain(b)
    case LOr(a, b) => Plain(a) && Plain(b)
    case _ => true
  }

  /** All comparisons keep their meaning when masks and shifts are gathered. */
  predicate Accurate(d: Expr) {
    match d
    case Compare(rel, x, c) => RelAccess.AccessRight(rel, x, c)
    case LNot(a) => Accurate(a)
    case LAnd(a, b) => Accurate(a) && Accurate(b)
    case LOr(a, b) => Accurate(a) && Accurate(b)
    case _ => true
  }

  function BaseOf(x: Term): (a: Term)
    ensures a.Access?
  {
    if x.Access? then x else BaseOf(x.x)
  }

  /** Fields have at most 32 bits and are in one offset group; for orderings, so does the
      constant once it is moved to the field. */
  predicate Short(d: Expr, group: int) {
    match d
    case Compare(rel, x, c) =>
      BaseOf(x).size <= WORD && BaseOf(x).group == group && (rel == EQ || rel == NE || Movable(x, c))
    case LNot(a) => Short(a, group)
    case LAnd(a, b) => Short(a, group) && Short(b, group)
    case LOr(a, b) => Short(a, group) && Short(b, group)
    case _ => true
  }

  predicate Movable(x: Term, c: nat) {
    var r := RelAccess.ShiftSpec(c, RelAccess.Stripped(x, Pow2(WIDTH) - 1, 0).2, WIDTH);
    r.Overflow? || (if r.Lost? then r.c + 1 else r.c) < Pow2(WORD)
  }

  // ----- what becomes of it -----

  /** Tests of one field. */
  predicate Made(e: Expr, a: Term) {
    match e
    case Const(_) => true
    case Compare(_, x, _) => MaskChain(x) && ChainBase(x) == a
    case LAnd(p, q) => Made(p, a) && Made(q, a)
    case LOr(p, q) => Made(p, a) && Made(q, a)
    case _ => false
  }

  /** Comparisons have become tests of their fields. */
  predicate Refined(d: Expr, e: Expr) {
    match d
    case Compare(_, x, _) => Made(e, BaseOf(x))
    case LNot(a) => e.LNot? && Refined(a, e.a)
    case LAnd(a, b) => e.LAnd? && Refined(a, e.a) && Refined(b, e.b)
    case LOr(a, b) => e.LOr? && Refined(a, e.a) && Refined(b, e.b)
    case _ => e == d
  }

  /** The masks let through no more than the field has, and constants have 32 bits. */
  predicate Trim(rel: Rel, x: Term, c: nat, group: int) {
    && BitTree.Masked(x) && ChainBase(x).group == group && BitTree.Masks(x) < Pow2(ChainBase(x).size) && c < Pow2(WORD)
    && (rel != EQ ==> x.MaskRight? && x.mask < Pow2(ChainBase(x).size))
  }

  predicate Trimmed(e: Expr, group: int) {
    match e
    case Compare(rel, x, c) => Trim(rel, x, c, group)
    case LNot(a) => Trimmed(a, group)
    case LAnd(a, b) => Trimmed(a, group) && Trimmed(b, group)
    case LOr(a, b) => Trimmed(a, group) && Trimmed(b, group)
    case _ => true
  }

  lemma TrimMore(rel: Rel, x: Term, c: nat, group: int, x': Term, c': nat)
    requires Trim(rel, x, c, group) && x'.MaskRight? && x'.x == x && c' < Pow2(WORD)
    ensures Trim(EQ, x', c', group) && ChainBase(x') == ChainBase(x)
  {
    AndBelow(x'.mask, BitTree.Masks(x));
  }

  lemma {:induction false} OnTrimmed(e: Expr, rel: Rel, x: Term, c: nat, group: int)
    requires Trim(rel, x, c, group) && On(e, x, WORD)
    ensures Trimmed(e, group) && Made(e, ChainBase(x))
    decreases e
  {
    match e
    case Const(_) =>
    case Compare(_, x', c') => TrimMore(rel, x, c, group, x', c');
    case LAnd(p, q) => OnTrimmed(p, rel, x, c, group); OnTrimmed(q, rel, x, c, group);
    case LOr(p, q) => OnTrimmed(p, rel, x, c, group); OnTrimmed(q, rel, x, c, group);
  }

  lemma TrimFitting(rel: Rel, x: Term, c: nat, group: int)
    requires Trim(rel, x, c, group) && rel != EQ
    ensures Fitting(x, c, WORD)
  {
    Pow2Mono(ChainBase(x).size, WORD);
  }

  lemma {:induction false} UnfoldedTrimmed(e: Expr, e': Expr, group: int)
    requires Trimmed(e, group) && Unfolds(e, e', WORD)
    ensures Trimmed(e', group)
    decreases e
  {
    match e
    case Compare(rel, x, c) => if e' != e { TrimFitting(rel, x, c, group); OnTrimmed(e', rel, x, c, group); }
    case LNot(a) => UnfoldedTrimmed(a, e'.a, group);
    case LAnd(a, b) => UnfoldedTrimmed(a, e'.a, group); UnfoldedTrimmed(b, e'.b, group);
    case LOr(a, b) => UnfoldedTrimmed(a, e'.a, group); UnfoldedTrimmed(b, e'.b, group);
    case _ =>
  }

  lemma {:induction false} UnfoldedMade(e: Expr, e': Expr, a: Term, group: int)
    requires Made(e, a) && Trimmed(e, group) && Unfolds(e, e', WORD)
    ensures Made(e', a)
    decreases e
  {
    match e
    case Const(_) =>
    case Compare(rel, x, c) => if e' != e { TrimFitting(rel, x, c, group); OnTrimmed(e', rel, x, c, group); }
    case LAnd(p, q) => UnfoldedMade(p, e'.a, a, group); UnfoldedMade(q, e'.b, a, group);
    case LOr(p, q) => UnfoldedMade(p, e'.a, a, group); UnfoldedMade(q, e'.b, a, group);
  }

  lemma {:induction false} UnfoldedRefined(d: Expr, e: Expr, e': Expr, group: int)
    requires Refined(d, e) && Trimmed(e, group) && Unfolds(e, e', WORD)
    ensures Refined(d, e')
    decreases d
  {
    match d
    case Compare(_, x, _) => UnfoldedMade(e, e', BaseOf(x), group);
    case LNot(a) => UnfoldedRefined(a, e.a, e'.a, group);
    case LAnd(a, b) => UnfoldedRefined(a, e.a, e'.a, group); UnfoldedRefined(b, e.b, e'.b, group);
    case LOr(a, b) => UnfoldedRefined(a, e.a, e'.a, group); UnfoldedRefined(b, e.b, e'.b, group);
    case _ =>
  }

  lemma {:induction false} TrimmedFits(e: Expr, group: int)
    requires Trimmed(e, group) && Unordered(e)
    ensures Negation.Fits(e, group)
    decreases e
  {
    match e
    case Compare(_, x, c) => AndBelow(c, BitTree.Masks(x));
    case LNot(a) => TrimmedFits(a, group);
    case LAnd(a, b) => TrimmedFits(a, group); TrimmedFits(b, group);
    case LOr(a, b) => TrimmedFits(a, group); TrimmedFits(b, group);
    case _ =>
  }

  // ----- gathering masks and shifts -----

  lemma {:induction false} StrippedBase(x: Term, mask: nat, s: int)
    ensures RelAccess.Stripped(x, mask, s).0.Access? ==> RelAccess.Stripped(x, mask, s).0 == BaseOf(x)
    decreases x
  {
    match x
    case Access(_, _, _) =>
    case MaskLeft(m, y) => StrippedBase(y, And(mask, m), s);
    case MaskRight(y, m) => StrippedBase(y, And(mask, m), s);
    case ShiftLeft(y, n) => StrippedBase(y, Shr(mask, n), s - n);
    case ShiftRight(y, n) => StrippedBase(y, Low(Shl(mask, n), WIDTH), s + n);
  }

  /** What is left of one comparison. */
  lemma SettledTrim(rel: Rel, x0: Term, c0: nat, d: Expr, group: int)
    requires RelAccess.Settled(rel, x0, c0, d)
    ensures Refined(Compare(rel, x0, c0), d) && Wide(d) && SettledNe(d) && RelAccess.NonEmpty(d.x)
    ensures Short(Compare(rel, x0, c0), group) ==> Trimmed(d, group)
  {
    StrippedBase(x0, Pow2(WIDTH) - 1, 0);
    var a := d.x.x;
    assert ChainBase(d.x) == a;
    if Short(Compare(rel, x0, c0), group) {
      AndBelow(d.x.mask, BitTree.Masks(a));
      Pow2Mono(a.size, WORD);
      AndBelow(d.c, d.x.mask);
    }
    Pow2Mono(a.size, WIDTH);
  }

  lemma {:induction false} OnlyUnordered(e: Expr)
    requires OnlyEqual(e)
    ensures Unordered(e)
    decreases e
  {
    match e
    case LNot(a) => OnlyUnordered(a);
    case LAnd(a, b) => OnlyUnordered(a); OnlyUnordered(b);
    case LOr(a, b) => OnlyUnordered(a); OnlyUnordered(b);
    case _ =>
  }

  /** Is an ordering left, when masks and shifts are gathered, that has no prefix? */
  predicate Unbuildable(d: Expr) {
    match d
    case Compare(rel, x, c) =>
      var r := RelAccess.Remains(rel, x, c);
      r.Some? && Covered(r.value.rel, r.value.x, r.value.c)
    case LNot(a) => Unbuildable(a)
    case LAnd(a, b) => Unbuildable(a) || Unbuildable(b)
    case LOr(a, b) => Unbuildable(a) || Unbuildable(b)
    case _ => false
  }

  /** A comparison that means the same as one without prefix is true of no packet. */
  lemma CoveredVain(rel: Rel, x: Term, c: nat, d: Expr)
    requires RelAccess.Settled(rel, x, c, d) && Narrow(d.x) && Covered(d.rel, d.x, d.c) && SameMeaning(d, Compare(rel, x, c))
    ensures Vain(Compare(rel, x, c))
  {
    CoveredNever(d.rel, d.x, d.c);
    forall env ensures !Holds(rel, TermValue(x, env), c) {
      assert Eval(d, env, []) == Eval(Compare(rel, x, c), env, []);
    }
  }

  /** Gathers the masks and shifts of all comparisons. */
  method AccessAll(d: Expr, ghost group: int) returns (d': Expr)
    requires Plain(d)
    ensures Accurate(d) ==> SameMeaning(d, d')
    ensures Wide(d') && SettledNe(d') && Refined(d, d') && (Short(d, group) ==> Trimmed(d', group))
    ensures (HasCovered(d') <==> Unbuildable(d)) && (Unbuildable(d) && Accurate(d) ==> Vain(d))
    decreases d
  {
    d' := d;
    match d {
      case Compare(rel, x, c) =>
        d' := RelAccess.RelAccess(rel, x, c);
        if !d'.Const? {
          SettledTrim(rel, x, c, d', group);
          if Accurate(d) && HasCovered(d') { CoveredVain(rel, x, c, d'); }
        }
      case LNot(a) =>
        var a' := AccessAll(a, group);
        d' := LNot(a');
        if Accurate(d) { CongruentNot(a, a'); }
      case LAnd(a, b) =>
        var a' := AccessAll(a, group);
        var b' := AccessAll(b, group);
        d' := LAnd(a', b');
        if Accurate(d) { CongruentAnd(a, a', b, b'); }
      case LOr(a, b) =>
        var a' := AccessAll(a, group);
        var b' := AccessAll(b, group);
        d' := LOr(a', b');
        if Accurate(d) { CongruentOr(a, a', b, b'); }
      case _ =>
    }
  }

  /** Brings all comparisons into the form later passes take: equality of a masked field,
      or difference, unless that is to be removed as well. Nothing comes out exactly where
      prefixes are to be used and there is none for an ordering; if that kept its meaning, it
      is a `>` or `>=` that is true of no packet. */
  method IflibArith(d: Expr, prefix: bool, ne: bool, ghost group: int) returns (d': Option<Expr>)
    requires Plain(d)
    ensures d'.Some? ==> Unordered(d'.value) && (ne ==> OnlyEqual(d'.value)) && (Accurate(d) ==> SameMeaning(d, d'.value))
    ensures d'.Some? && Short(d, group) ==> Negation.Fits(d'.value, group) && Refined(d, d'.value)
    ensures d'.None? <==> prefix && Unbuildable(d)
    ensures d'.None? && Accurate(d) ==> Vain(d)
  {
    var e := AccessAll(d, group);
    var f := RelGeneral(e, prefix, WORD);
    if f.None? { return None; }
    if Accurate(d) { SameMeaningTrans(d, e, f.value); }
    if Short(d, group) {
      UnfoldedRefined(d, e, f.value, group);
      UnfoldedTrimmed(e, f.value, group);
      TrimmedFits(f.value, group);
    }
    if !ne { return f; }
    var g := NeToEq(f.value, prefix, WORD);
    OnlyUnordered(g);
    if Accurate(d) { SameMeaningTrans(d, f.value, g); }
    if Short(d, group) {
      UnfoldedRefined(d, f.value, g, group);
      UnfoldedTrimmed(f.value, g, group);
      TrimmedFits(g, group);
    }
    d' := Some(g);
  }

  // ----- which bits are tested -----

  /** All bits of a field. */
  function FieldBits(a: Term): set<Key>
    requires a.Access?
  {
    BitTree.KeysTo(a.group, a.offset, a.size, Pow2(a.size) - 1, a.size)
  }

  /** The bits that may be tested in the end, given those the continuations test. */
  function Touched(d: Expr, t: set<Key>, f: set<Key>): set<Key> {
    match d
    case Const(_) => t + f
    case Decide(_) => {}
    case Compare(_, x, _) => FieldBits(BaseOf(x)) + t + f
    case ConformTo(_) => t + f
    case CountOn(_) => t
    case LNot(a) => Touched(a, f, t)
    case LAnd(a, b) => Touched(a, Touched(b, t, f), f)
    case LOr(a, b) => Touched(a, t, Touched(b, t, f))
  }

  /** Is no field touched on both sides of a conformance test? */
  predicate TouchedApart(d: Expr, t: set<Key>, f: set<Key>) {
    match d
    case ConformTo(_) => t !! f
    case LNot(a) => TouchedApart(a, f, t)
    case LAnd(a, b) => TouchedApart(a, Touched(b, t, f), f) && (MayBeTrue(a) ==> TouchedApart(b, t, f))
    case LOr(a, b) => TouchedApart(a, t, Touched(b, t, f)) && (MayBeFalse(a) ==> TouchedApart(b, t, f))
    case _ => true
  }

  lemma FieldCovers(x: Term)
    requires MaskChain(x)
    ensures BitTree.FieldKeys(x) <= FieldBits(ChainBase(x))
  {
    var a := ChainBase(x);
    forall k | k in BitTree.FieldKeys(x) ensures k in FieldBits(a) {
      var i: nat :| i < a.size && Bit(BitTree.Masks(x), i) && k == (a.group, a.size - i - 1 + a.offset * 8);
      OnesBit(a.size, i);
      assert i < a.size && Bit(Pow2(a.size) - 1, i);
    }
  }

  lemma {:induction false} MadeTests(e: Expr, a: Term, t: set<Key>, f: set<Key>)
    requires a.Access? && Made(e, a)
    ensures BitTree.TestedBy(e, t, f) <= FieldBits(a) + t + f && BitTree.KeptApart(e, t, f)
    decreases e
  {
    match e
    case Const(_) =>
    case Compare(_, x, _) => FieldCovers(x);
    case LAnd(p, q) => MadeTests(q, a, t, f); MadeTests(p, a, BitTree.TestedBy(q, t, f), f);
    case LOr(p, q) => MadeTests(q, a, t, f); MadeTests(p, a, t, BitTree.TestedBy(q, t, f));
  }

  lemma {:induction false} RefinedMay(d: Expr, e: Expr)
    requires Refined(d, e)
    ensures (MayBeTrue(e) ==> MayBeTrue(d)) && (MayBeFalse(e) ==> MayBeFalse(d))
    decreases d
  {
    match d
    case LNot(a) => RefinedMay(a, e.a);
    case LAnd(a, b) => RefinedMay(a, e.a); RefinedMay(b, e.b);
    case LOr(a, b) => RefinedMay(a, e.a); RefinedMay(b, e.b);
    case _ =>
  }

  /** No more bits are tested than the fields have, and what is kept apart stays so. */
  lemma {:induction false} RefinedTests(d: Expr, e: Expr, t: set<Key>, f: set<Key>, t': set<Key>, f': set<Key>)
    requires Refined(d, e) && t' <= t && f' <= f
    ensures BitTree.TestedBy(e, t', f') <= Touched(d, t, f)
    ensures TouchedApart(d, t, f) ==> BitTree.KeptApart(e, t', f')
    decreases d
  {
    match d
    case Compare(_, x, _) => MadeTests(e, BaseOf(x), t', f');
    case LNot(a) => RefinedTests(a, e.a, f, t, f', t');
    case LAnd(a, b) =>
      RefinedTests(b, e.b, t, f, t', f');
      RefinedTests(a, e.a, Touched(b, t, f), f, BitTree.TestedBy(e.b, t', f'), f');
      RefinedMay(a, e.a);
    case LOr(a, b) =>
      RefinedTests(b, e.b, t, f, t', f');
      RefinedTests(a, e.a, t, Touched(b, t, f), t', BitTree.TestedBy(e.b, t', f'));
      RefinedMay(a, e.a);
    case _ =>
  }

  // ----- from filters to rules -----

  /** A filter all passes can take, and that keeps its meaning. */
  predicate Takes(x: Combine.If, group: int) { Plain(x.expr) && Accurate(x.expr) && Short(x.expr, group) }

  function TouchedFrom(ifs: seq<Combine.If>): set<Key> {
    if ifs == [] then {} else Touched(ifs[0].expr, {}, TouchedFrom(ifs[1..]))
  }

  predicate AllApart(ifs: seq<Combine.If>) {
    ifs == [] || (AllApart(ifs[1..]) && TouchedApart(ifs[0].expr, {}, TouchedFrom(ifs[1..])))
  }

  /** Decisions are of no account. */
  lemma {:induction false} LeavesTake(d: Expr, target: Decision, group: int)
    requires Plain(d) && Accurate(d) && Short(d, group)
    ensures var e := Combine.ComplementLeaves(d, target); Plain(e) && Accurate(e) && Short(e, group)
    decreases d
  {
    match d
    case LNot(a) => LeavesTake(a, target, group);
    case LAnd(a, b) => LeavesTake(a, target, group); LeavesTake(b, target, group);
    case LOr(a, b) => LeavesTake(a, target, group); LeavesTake(b, target, group);
    case _ =>
  }

  lemma {:induction false} LeavesTouch(d: Expr, target: Decision, t: set<Key>, f: set<Key>)
    ensures Touched(Combine.ComplementLeaves(d, target), t, f) == Touched(d, t, f)
    ensures TouchedApart(Combine.ComplementLeaves(d, target), t, f) == TouchedApart(d, t, f)
    decreases d
  {
    Combine.LeavesTest(d, target, t, f);
    match d
    case LNot(a) => LeavesTouch(a, target, f, t);
    case LAnd(a, b) =>
      Combine.LeavesTest(a, target, t, f);
      LeavesTouch(b, target, t, f);
      LeavesTouch(a, target, Touched(b, t, f), f);
    case LOr(a, b) =>
      Combine.LeavesTest(a, target, t, f);
      LeavesTouch(b, target, t, f);
      LeavesTouch(a, target, t, Touched(b, t, f));
    case _ =>
  }

  /** A filter made to decide touches what it touched. */
  lemma ComplementTouches(x: Combine.If, f: set<Key>)
    ensures Touched(Combine.ComplementDecisions(x), {}, f) == Touched(x.expr, {}, f)
    ensures TouchedApart(Combine.ComplementDecisions(x), {}, f) == TouchedApart(x.expr, {}, f)
  {
    var next := Decide(x.target);
    LeavesTouch(LAnd(x.expr, next), x.target, {}, f);
    assert Touched(next, {}, f) == {} && TouchedApart(next, {}, f);
  }

  lemma {:induction false} LaterApart(ifs: seq<Combine.If>, i: nat)
    requires AllApart(ifs) && i <= |ifs|
    ensures AllApart(ifs[i..])
    decreases |ifs|
  {
    if i > 0 {
      LaterApart(ifs[1..], i - 1);
      assert ifs[1..][i - 1..] == ifs[i..];
    } else {
      assert ifs[i..] == ifs;
    }
  }

  lemma {:induction false} JoinedApart(ifs: seq<Combine.If>, i: nat)
    requires AllApart(ifs) && 0 < i <= |ifs|
    ensures TouchedApart(Combine.Joined(ifs[..i]), {}, TouchedFrom(ifs[i..]))
    decreases i
  {
    var k := i - 1;
    LaterApart(ifs, k);
    assert ifs[..i][..k] == ifs[..k] && ifs[..i][k] == ifs[k];
    assert ifs[k..][0] == ifs[k] && ifs[k..][1..] == ifs[i..];
    ComplementTouches(ifs[k], TouchedFrom(ifs[i..]));
    if k > 0 { JoinedApart(ifs, k); }
  }

  lemma {:induction false} JoinedTakes(ifs: seq<Combine.If>, group: int)
    requires ifs != [] && forall i | 0 <= i < |ifs| :: Takes(ifs[i], group)
    ensures var d := Combine.Joined(ifs); Plain(d) && Accurate(d) && Short(d, group)
    decreases |ifs|
  {
    var k := |ifs| - 1;
    assert Takes(ifs[k], group);
    LeavesTake(LAnd(ifs[k].expr, Decide(ifs[k].target)), ifs[k].target, group);
    if k > 0 { JoinedTakes(ifs[..k], group); }
  }

  lemma {:induction false} LeavesUnbuildable(d: Expr, target: Decision)
    ensures Unbuildable(Combine.ComplementLeaves(d, target)) == Unbuildable(d)
    ensures Vain(Combine.ComplementLeaves(d, target)) == Vain(d)
    decreases d
  {
    match d
    case LNot(a) => LeavesUnbuildable(a, target);
    case LAnd(a, b) => LeavesUnbuildable(a, target); LeavesUnbuildable(b, target);
    case LOr(a, b) => LeavesUnbuildable(a, target); LeavesUnbuildable(b, target);
    case _ =>
  }

  lemma ComplementUnbuildable(x: Combine.If)
    ensures Unbuildable(Combine.ComplementDecisions(x)) == Unbuildable(x.expr)
    ensures Vain(Combine.ComplementDecisions(x)) == Vain(x.expr)
  {
    var next := Decide(x.target);
    LeavesUnbuildable(LAnd(x.expr, next), x.target);
    assert !Unbuildable(next) && !Vain(next);
  }

  /** What cannot be built in the joined expression is in one of the filters. */
  lemma {:induction false} JoinedUnbuildable(ifs: seq<Combine.If>)
    requires ifs != []
    ensures Unbuildable(Combine.Joined(ifs)) <==> exists i :: 0 <= i < |ifs| && Unbuildable(ifs[i].expr)
    decreases |ifs|
  {
    var k := |ifs| - 1;
    ComplementUnbuildable(ifs[k]);
    if k > 0 {
      JoinedUnbuildable(ifs[..k]);
      if Unbuildable(Combine.Joined(ifs[..k])) {
        var i :| 0 <= i < k && Unbuildable(ifs[..k][i].expr);
        assert Unbuildable(ifs[i].expr);
      }
      if i :| 0 <= i < |ifs| && Unbuildable(ifs[i].expr) {
        if i < k { assert ifs[..k][i] == ifs[i]; }
      }
    }
  }

  lemma {:induction false} JoinedVain(ifs: seq<Combine.If>)
    requires ifs != [] && Vain(Combine.Joined(ifs))
    ensures exists i :: 0 <= i < |ifs| && Vain(ifs[i].expr)
    decreases |ifs|
  {
    var k := |ifs| - 1;
    ComplementUnbuildable(ifs[k]);
    if Vain(ifs[k].expr) {
    } else {
      JoinedVain(ifs[..k]);
      var i :| 0 <= i < k && Vain(ifs[..k][i].expr);
      assert Vain(ifs[i].expr);
    }
  }

  /** Arithmetic leaves the joined filters alternatives that decide. */
  lemma {:induction false} JoinedRefined(ifs: seq<Combine.If>, e: Expr)
    requires ifs != [] && Refined(Combine.Joined(ifs), e)
    ensures Combine.Alternative(e)
    decreases |ifs|
  {
    var k := |ifs| - 1;
    var last := if k == 0 then e else e.b;
    var target := ifs[k].target;
    var next, end := Decide(target), Decide(Combine.Retarget(target, target));
    assert Combine.ComplementLeaves(next, target) == end;
    assert Combine.ComplementDecisions(ifs[k]) == LAnd(Combine.ComplementLeaves(ifs[k].expr, target), end);
    assert Refined(end, last.b) && last == LAnd(last.a, end);
    Negation.DecidingAnchors(last.a);
    assert !MayBeTrue(end);
    if k > 0 {
      JoinedRefined(ifs[..k], e.a);
      Combine.AlternativesJoin(e.a, last);
    }
  }

  /** Filters with orderings, masks and shifts, about fields of up to 32 bits in one offset
      group, become actions and rules that take the decision of the first filter that takes
      one, and count what it counts. */
  method CompileArith(ifs: seq<Combine.If>, default: Decision, prefix: bool, ne: bool, ghost group: int)
    returns (r: Option<(seq<Action>, seq<Rule>)>)
    requires ifs != [] && AllApart(ifs) && forall i | 0 <= i < |ifs| :: Takes(ifs[i], group)
    ensures r.None? <==> prefix && exists i :: 0 <= i < |ifs| && Unbuildable(ifs[i].expr)
    ensures r.None? ==> exists i :: 0 <= i < |ifs| && Vain(ifs[i].expr)
    ensures r.Some? ==> RulesOf(r.value.1, group)
    ensures r.Some? ==> forall env, h :: Classify(r.value.0, r.value.1, env, h) == Outcome(Combine.Verdict(ifs, default, env, h))
  {
    var joined := Combine.IflibCombine(ifs);
    var last := Decide(default);
    var whole := LOr(joined, last);
    JoinedTakes(ifs, group);
    assert Plain(last) && Accurate(last) && Short(last, group);
    assert Plain(whole) && Accurate(whole) && Short(whole, group);
    var e := IflibArith(whole, prefix, ne, group);
    JoinedUnbuildable(ifs);
    if e.None? {
      JoinedVain(ifs);
      return None;
    }
    assert Refined(joined, e.value.a) && Refined(last, e.value.b);
    JoinedRefined(ifs, e.value.a);
    Combine.WithDefault(e.value.a, default, group);
    WholeApart(ifs, default, e.value);
    var d := Negation.IflibNot(e.value, group);
    Negation.PositiveFits(d, group);
    var table, rules := Compile(d, group);
    r := Some((table, rules));
    forall env, h ensures Classify(table, rules, env, h) == Outcome(Combine.Verdict(ifs, default, env, h)) {
      assert Eval(joined, env, h) == Combine.Tried(ifs, env, h);
      assert Eval(whole, env, h) == Combine.Verdict(ifs, default, env, h);
      assert Eval(e.value, env, h) == Eval(whole, env, h);
      assert Eval(d, env, h) == Eval(e.value, env, h);
    }
  }

  lemma WholeApart(ifs: seq<Combine.If>, default: Decision, e: Expr)
    requires ifs != [] && AllApart(ifs) && Refined(LOr(Combine.Joined(ifs), Decide(default)), e)
    ensures Negation.ApartIn(e)
  {
    var joined, last := Combine.Joined(ifs), Decide(default);
    JoinedApart(ifs, |ifs|);
    assert ifs[..|ifs|] == ifs && ifs[|ifs|..] == [];
    assert Touched(last, {}, {}) == {} && TouchedApart(last, {}, {});
    RefinedTests(LOr(joined, last), e, {}, {}, {}, {});
  }
}
