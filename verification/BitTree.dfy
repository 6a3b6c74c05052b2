/** From expressions to decision graphs. */
module BitTree {
  import opened Semantics
  import opened Bits
  import opened Expr
  import opened Graph
  import opened Static
  import opened Repeats
  import opened MaskedTests
  import opened BitFsm

  // ----- tests of one field -----

  /** What `eq_fsm` takes: masks on an access of at most 32 bits. */
  predicate Masked(x: Term) { MaskChain(x) && ChainBase(x).size <= WORD }

  function Masks(x: Term): (m: nat)
    requires MaskChain(x)
    ensures m < Pow2(WORD)
  {
    ChainMask(x, WORD)
  }

  /** The tested bits, below bit `n` of the field, are those of `value`. */
  ghost predicate Agrees(env: Env, group: int, offset: nat, length: nat, value: nat, mask: nat, n: nat) {
    forall i: nat | i < n :: FieldBitAsked(env, group, 8 * offset, length, mask, value, i)
  }

  /** What `eq_fsm` makes of a comparison with `c`. */
  ghost predicate Accepts(env: Env, x: Term, c: nat)
    requires Masked(x)
  {
    var a := ChainBase(x);
    And(c, Masks(x)) == c && Agrees(env, a.group, a.offset, a.size, c, Masks(x), a.size)
  }

  lemma AcceptsMatch(env: Env, x: Term, c: nat)
    requires Masked(x)
    ensures var a := ChainBase(x); Accepts(env, x, c) <==> MaskedMatch(env, a.group, 8 * a.offset, a.size, Masks(x), c)
    ensures var a := ChainBase(x); TermValue(x, env) == And(FieldValue(env, a.group, 8 * a.offset, a.size), Masks(x))
  {
    var a := ChainBase(x);
    ChainValue(x, env, WORD);
    if And(c, Masks(x)) == c { AskedIsMasked(env, a.group, 8 * a.offset, a.size, Masks(x), c); }
  }

  /** The graph of an equality is right for every packet exactly when the constant
      fits the field or has bits outside the masks. */
  lemma EqualityExact(x: Term, c: nat)
    requires Masked(x) && c < Pow2(WORD)
    ensures
      (forall env :: Accepts(env, x, c) <==> TermValue(x, env) == c)
      <==> (c < Pow2(ChainBase(x).size) || And(c, Masks(x)) != c)
  {
    var a := ChainBase(x);
    Pow2Mono(WORD, WIDTH);
    DecomposeExact(a.group, 8 * a.offset, a.size, Masks(x), c);
    forall env
      ensures Accepts(env, x, c) <==> MaskedMatch(env, a.group, 8 * a.offset, a.size, Masks(x), c)
      ensures TermValue(x, env) == And(FieldValue(env, a.group, 8 * a.offset, a.size), Masks(x))
    {
      AcceptsMatch(env, x, c);
    }
    if forall env :: Accepts(env, x, c) <==> TermValue(x, env) == c {
      forall env ensures MaskedMatch(env, a.group, 8 * a.offset, a.size, Masks(x), c) <==> And(FieldValue(env, a.group, 8 * a.offset, a.size), Masks(x)) == c {
        assert Accepts(env, x, c) <==> TermValue(x, env) == c;
      }
    }
    if c < Pow2(a.size) || And(c, Masks(x)) != c {
      forall env ensures Accepts(env, x, c) <==> TermValue(x, env) == c {
        assert MaskedMatch(env, a.group, 8 * a.offset, a.size, Masks(x), c) <==> And(FieldValue(env, a.group, 8 * a.offset, a.size), Masks(x)) == c;
      }
    }
  }

  // ----- the shape of the graph, read off the expression -----

  /** The packet bits a comparison looks at. */
  function FieldKeys(x: Term): set<Key> {
    if MaskChain(x) then var a := ChainBase(x); KeysTo(a.group, a.offset, a.size, Masks(x), a.size) else {}
  }

  /** The bits of a field that are in the mask, of the `n` least significant ones. */
  function KeysTo(group: int, offset: nat, length: nat, mask: nat, n: nat): set<Key> {
    set i: nat | i < n && i < length && Bit(mask, i) :: (group, length - i - 1 + offset * 8)
  }

  /** The bits the graph of `e` may test, given those its continuations do. */
  function TestedBy(e: Expr, t: set<Key>, f: set<Key>): set<Key> {
    match e
    case Const(n) => if n != 0 then t else f
    case Decide(_) => {}
    case Compare(_, x, _) => FieldKeys(x) + t + f
    case ConformTo(_) => t + f
    case CountOn(_) => t
    case LNot(a) => TestedBy(a, f, t)
    case LAnd(a, b) => TestedBy(a, TestedBy(b, t, f), f)
    case LOr(a, b) => TestedBy(a, t, TestedBy(b, t, f))
  }

  /** Is no bit tested on both sides of a conformance test that may be reached? */
  predicate KeptApart(e: Expr, t: set<Key>, f: set<Key>) {
    match e
    case ConformTo(_) => t !! f
    case LNot(a) => KeptApart(a, f, t)
    case LAnd(a, b) => KeptApart(a, TestedBy(b, t, f), f) && (MayBeTrue(a) ==> KeptApart(b, t, f))
    case LOr(a, b) => KeptApart(a, t, TestedBy(b, t, f)) && (MayBeFalse(a) ==> KeptApart(b, t, f))
    case _ => true
  }

  /** Every access is in the given offset group. */
  predicate AllIn(e: Expr, group: int) {
    match e
    case Compare(_, x, _) => MaskChain(x) ==> ChainBase(x).group == group
    case LNot(a) => AllIn(a, group)
    case LAnd(a, b) => AllIn(a, group) && AllIn(b, group)
    case LOr(a, b) => AllIn(a, group) && AllIn(b, group)
    case _ => true
  }

  /** What earlier passes leave: equalities of masked accesses with constants that
      fit the field. */
  predicate Equalities(e: Expr) {
    match e
    case Compare(rel, x, c) =>
      rel == EQ && Masked(x) && c < Pow2(WORD) && (c < Pow2(ChainBase(x).size) || And(c, Masks(x)) != c)
    case LNot(a) => Equalities(a)
    case LAnd(a, b) => Equalities(a) && Equalities(b)
    case LOr(a, b) => Equalities(a) && Equalities(b)
    case _ => true
  }

  // ----- what a continuation sees -----

  /** The result of an expression's value once its continuation has run. */
  ghost function Then(s: Store, v: Value, t: Ref, f: Ref, env: Env): Result
    requires Acyclic(s) && t < |s| && f < |s|
  {
    match v.truth
    case True => Run(s, t, env, v.hist)
    case False => Run(s, f, env, v.hist)
    case Taken(d) => Result(Some(d), v.hist)
  }

  /** Node `r` computes the expression and goes on at `t` or `f`. */
  ghost predicate Computes(s: Store, r: Ref, e: Expr, t: Ref, f: Ref)
    requires Acyclic(s) && r < |s| && t < |s| && f < |s|
  {
    forall env, h :: Run(s, r, env, h) == Then(s, Eval(e, env, h), t, f, env)
  }

  /** The graph has the tests of the expression. */
  ghost predicate TestsOf(s: Store, r: Ref, e: Expr, t: Ref, f: Ref)
    requires Acyclic(s) && r < |s| && t < |s| && f < |s|
  {
    && Tested(s, r) <= TestedBy(e, Tested(s, t), Tested(s, f))
    && (KeptApart(e, Tested(s, t), Tested(s, f)) && (MayBeTrue(e) ==> Separate(s, t)) && (MayBeFalse(e) ==> Separate(s, f)) ==> Separate(s, r))
  }

  ghost predicate Shaped(s: Store, r: Ref, e: Expr, t: Ref, f: Ref)
    requires Acyclic(s) && r < |s| && t < |s| && f < |s|
  {
    && TestsOf(s, r, e, t, f)
    && (forall g :: AllIn(e, g) && (MayBeTrue(e) ==> Plain(s, t, g)) && (MayBeFalse(e) ==> Plain(s, f, g)) ==> Plain(s, r, g))
  }

  ghost predicate Builds(s: Store, r: Ref, e: Expr, t: Ref, f: Ref) {
    Acyclic(s) && r < |s| && t < |s| && f < |s| && Computes(s, r, e, t, f) && Shaped(s, r, e, t, f)
  }

  // ----- construction -----

  /** Nodes are only added. */
  ghost predicate Grows(s: Store, s': Store) { s <= s' && Preserves(s, s') && KeepsStatic(s, s') }

  lemma GrowsTrans(a: Store, b: Store, c: Store)
    requires Grows(a, b) && Grows(b, c)
    ensures Grows(a, c)
  {
    PreservesTrans(a, b, c);
    KeepsStaticTrans(a, b, c);
  }

  /** Node `r` goes to `t` if the field bits below `n` agree, and to `f` if not. */
  ghost predicate TestsField(s: Store, r: Ref, group: int, offset: nat, length: nat, value: nat, mask: nat, n: nat, t: Ref, f: Ref) {
    && Acyclic(s) && r < |s| && t < |s| && f < |s|
    && (forall env, h :: Run(s, r, env, h) == Run(s, if Agrees(env, group, offset, length, value, mask, n) then t else f, env, h))
    && FieldShape(s, r, group, KeysTo(group, offset, length, mask, n), t, f)
  }

  /** The tests between `r` and its continuations are those of `keys`, in one group. */
  ghost predicate FieldShape(s: Store, r: Ref, group: int, keys: set<Key>, t: Ref, f: Ref)
    requires Acyclic(s) && r < |s| && t < |s| && f < |s|
  {
    && Tested(s, r) <= keys + Tested(s, t) + Tested(s, f)
    && (Separate(s, t) && Separate(s, f) ==> Separate(s, r))
    && (Plain(s, t, group) && Plain(s, f, group) ==> Plain(s, r, group))
  }

  function TestNode(group: int, offset: nat, length: nat, value: nat, n: nat, next: Ref, f: Ref): Node
    requires n < length
  {
    var bit := length - n - 1 + offset * 8;
    if Bit(value, n) then Data(group, bit, next, f) else Data(group, bit, f, next)
  }

  lemma AgreesStep(env: Env, group: int, offset: nat, length: nat, value: nat, mask: nat, n: nat)
    requires n < length
    ensures Agrees(env, group, offset, length, value, mask, n + 1)
      <==> Agrees(env, group, offset, length, value, mask, n)
           && (Bit(mask, n) ==> env.bit(group, length - n - 1 + offset * 8) == Bit(value, n))
  {
    if Agrees(env, group, offset, length, value, mask, n + 1) && Bit(mask, n) {
      assert FieldBitAsked(env, group, 8 * offset, length, mask, value, n);
    }
  }

  lemma TestsFieldStep(s: Store, r: Ref, group: int, offset: nat, length: nat, value: nat, mask: nat, n: nat, t: Ref, f: Ref)
    requires TestsField(s, r, group, offset, length, value, mask, n, t, f) && n < length && Bit(mask, n)
    ensures TestsField(s + [TestNode(group, offset, length, value, n, r, f)], |s|, group, offset, length, value, mask, n + 1, t, f)
  {
    var node := TestNode(group, offset, length, value, n, r, f);
    var s' := s + [node];
    Append(s, node);
    forall env, h ensures Run(s', |s|, env, h) == Run(s', if Agrees(env, group, offset, length, value, mask, n + 1) then t else f, env, h) {
      AgreesStep(env, group, offset, length, value, mask, n);
      TestNodeRun(s, group, offset, length, value, n, r, f, env, h);
      var answer := if Agrees(env, group, offset, length, value, mask, n) then t else f;
      assert Run(s', r, env, h) == Run(s, r, env, h) && Run(s', answer, env, h) == Run(s, answer, env, h);
    }
    KeysStep(group, offset, length, mask, n);
    TestNodeKey(group, offset, length, value, n, r, f);
    TestNodeShape(s, node, group, t, f, r, KeysTo(group, offset, length, mask, n), KeysTo(group, offset, length, mask, n + 1));
  }

  lemma TestNodeKey(group: int, offset: nat, length: nat, value: nat, n: nat, r: Ref, f: Ref)
    requires n < length
    ensures Tests(TestNode(group, offset, length, value, n, r, f)) == {(group, length - n - 1 + offset * 8)}
  {}

  lemma TestNodeRun(s: Store, group: int, offset: nat, length: nat, value: nat, n: nat, r: Ref, f: Ref, env: Env, h: Hist)
    requires Acyclic(s) && r < |s| && f < |s| && n < length
    requires Acyclic(s + [TestNode(group, offset, length, value, n, r, f)])
    ensures
      var s' := s + [TestNode(group, offset, length, value, n, r, f)];
      Run(s', |s|, env, h) == Run(s', if env.bit(group, length - n - 1 + offset * 8) == Bit(value, n) then r else f, env, h)
  {
    var node := TestNode(group, offset, length, value, n, r, f);
    EdgeDown(s + [node], |s|, true); EdgeDown(s + [node], |s|, false);
  }

  lemma TestNodeShape(s: Store, node: Node, group: int, t: Ref, f: Ref, r: Ref, keys: set<Key>, keys': set<Key>)
    requires Acyclic(s) && Acyclic(s + [node]) && t < |s| && f < |s| && r < |s|
    requires node.Data? && node.group == group && ((node.t == r && node.f == f) || (node.t == f && node.f == r))
    requires FieldShape(s, r, group, keys, t, f) && keys + Tests(node) <= keys'
    ensures FieldShape(s + [node], |s|, group, keys', t, f)
  {
    TestNodePlain(s, node, group, t, f, r);
    TestNodeTests(s, node, t, f, r);
  }

  lemma TestNodePlain(s: Store, node: Node, group: int, t: Ref, f: Ref, r: Ref)
    requires Acyclic(s) && Acyclic(s + [node]) && t < |s| && f < |s| && r < |s|
    requires node.Data? && node.group == group && ((node.t == r && node.f == f) || (node.t == f && node.f == r))
    requires Plain(s, t, group) && Plain(s, f, group) ==> Plain(s, r, group)
    ensures Plain(s + [node], t, group) && Plain(s + [node], f, group) ==> Plain(s + [node], |s|, group)
  {
    AppendKeepsStatic(s, node);
    EdgeDown(s + [node], |s|, true); EdgeDown(s + [node], |s|, false);
  }

  lemma TestNodeTests(s: Store, node: Node, t: Ref, f: Ref, r: Ref)
    requires Acyclic(s) && Acyclic(s + [node]) && t < |s| && f < |s| && r < |s|
    requires node.Data? && ((node.t == r && node.f == f) || (node.t == f && node.f == r))
    requires Separate(s, t) && Separate(s, f) ==> Separate(s, r)
    ensures
      var s' := s + [node];
      && Tested(s', |s|) == Tests(node) + Tested(s, r) + Tested(s, f)
      && Tested(s', t) == Tested(s, t) && Tested(s', f) == Tested(s, f)
      && (Separate(s', t) && Separate(s', f) ==> Separate(s', |s|))
  {
    AppendTested(s, node, t); AppendTested(s, node, f); AppendTested(s, node, r);
    EdgeDown(s + [node], |s|, true); EdgeDown(s + [node], |s|, false);
  }

  lemma KeysStep(group: int, offset: nat, length: nat, mask: nat, n: nat)
    ensures KeysTo(group, offset, length, mask, n) <= KeysTo(group, offset, length, mask, n + 1)
    ensures n < length && Bit(mask, n) ==> {(group, length - n - 1 + offset * 8)} <= KeysTo(group, offset, length, mask, n + 1)
  {
    forall k | k in KeysTo(group, offset, length, mask, n) ensures k in KeysTo(group, offset, length, mask, n + 1) {
      var i: nat :| i < n && i < length && Bit(mask, i) && k == (group, length - i - 1 + offset * 8);
    }
  }

  lemma TestsFieldSkip(s: Store, r: Ref, group: int, offset: nat, length: nat, value: nat, mask: nat, n: nat, t: Ref, f: Ref)
    requires TestsField(s, r, group, offset, length, value, mask, n, t, f) && n < length && !Bit(mask, n)
    ensures TestsField(s, r, group, offset, length, value, mask, n + 1, t, f)
  {
    forall env, h ensures Run(s, r, env, h) == Run(s, if Agrees(env, group, offset, length, value, mask, n + 1) then t else f, env, h) {
      AgreesStep(env, group, offset, length, value, mask, n);
    }
    KeysStep(group, offset, length, mask, n);
  }

  lemma NothingNew(s: Store)
    requires Acyclic(s)
    ensures Grows(s, s)
  {}

  /** A test of the next bit, if it is masked, above those of the bits below it. */
  method AddTest(fsm: Fsm, offset: nat, value: nat, mask: nat, length: nat, i: nat, last: Ref, ghost t: Ref, f: Ref, group: int) returns (r: Ref)
    requires fsm.Valid() && TestsField(fsm.store, last, group, offset, length, value, mask, i, t, f) && i < length
    modifies fsm`store, fsm`rank
    ensures fsm.Valid() && Grows(old(fsm.store), fsm.store)
    ensures TestsField(fsm.store, r, group, offset, length, value, mask, i + 1, t, f)
  {
    if !Bit(mask, i) {
      TestsFieldSkip(fsm.store, last, group, offset, length, value, mask, i, t, f);
      NothingNew(fsm.store);
      return last;
    }
    TestsFieldStep(fsm.store, last, group, offset, length, value, mask, i, t, f);
    r := fsm.Alloc(TestNode(group, offset, length, value, i, last, f), 1 + fsm.rank[last] + fsm.rank[f]);
  }

  lemma NothingTested(s: Store, t: Ref, f: Ref, group: int, offset: nat, length: nat, value: nat, mask: nat)
    requires Acyclic(s) && t < |s| && f < |s|
    ensures Grows(s, s) && TestsField(s, t, group, offset, length, value, mask, 0, t, f)
  {}

  /** One test per masked bit, the least significant one nearest to `t`. */
  method ValueFsm(fsm: Fsm, offset: nat, value: nat, mask: nat, length: nat, t: Ref, f: Ref, group: int) returns (last: Ref)
    requires fsm.Valid() && t < |fsm.store| && f < |fsm.store|
    modifies fsm`store, fsm`rank
    ensures fsm.Valid()
    ensures Grows(old(fsm.store), fsm.store)
    ensures TestsField(fsm.store, last, group, offset, length, value, mask, length, t, f)
  {
    last := t;
    var i := 0;
    NothingTested(fsm.store, t, f, group, offset, length, value, mask);
    while i < length
      invariant 0 <= i <= length
      invariant fsm.Valid()
      invariant Grows(old(fsm.store), fsm.store)
      invariant TestsField(fsm.store, last, group, offset, length, value, mask, i, t, f)
    {
      ghost var before := fsm.store;
      last := AddTest(fsm, offset, value, mask, length, i, last, t, f, group);
      GrowsTrans(old(fsm.store), before, fsm.store);
      i := i + 1;
    }
  }

  /** Descends to the access, gathering the masks on the way. */
  method PeelMasks(x: Term) returns (a: Term, mask: nat)
    requires Masked(x)
    ensures a == ChainBase(x) && mask == Masks(x)
  {
    a, mask := x, Pow2(WORD) - 1;
    NoneStripped(x, WORD);
    while !a.Access?
      invariant MaskChain(a) && ChainBase(a) == ChainBase(x) && mask < Pow2(WORD) && Peeled(x, a, mask, WORD)
      decreases a
    {
      PeelOne(x, a, mask, WORD);
      AndBelow(mask, a.mask);
      mask, a := And(mask, a.mask), a.x;
    }
    AllPeeled(x, a, mask, WORD);
  }

  /** The graph of an equality. Constant bits outside the masks make it false. */
  method EqFsm(fsm: Fsm, x: Term, c: nat, t: Ref, f: Ref) returns (r: Ref)
    requires fsm.Valid() && t < |fsm.store| && f < |fsm.store|
    requires Equalities(Compare(EQ, x, c))
    modifies fsm`store, fsm`rank
    ensures fsm.Valid()
    ensures Grows(old(fsm.store), fsm.store)
    ensures Builds(fsm.store, r, Compare(EQ, x, c), t, f)
  {
    var a, mask := PeelMasks(x);
    if And(c, mask) != c {
      r := f;
    } else {
      r := ValueFsm(fsm, a.offset, c, mask, a.size, t, f, a.group);
    }
    EqBuilds(fsm.store, r, x, c, t, f);
  }

  lemma EqBuilds(s: Store, r: Ref, x: Term, c: nat, t: Ref, f: Ref)
    requires Equalities(Compare(EQ, x, c)) && Acyclic(s) && t < |s| && f < |s|
    requires
      var a := ChainBase(x);
      if And(c, Masks(x)) != c then r == f else TestsField(s, r, a.group, a.offset, a.size, c, Masks(x), a.size, t, f)
    ensures Builds(s, r, Compare(EQ, x, c), t, f)
  {
    EqualityExact(x, c);
    forall env, h ensures Run(s, r, env, h) == Then(s, Eval(Compare(EQ, x, c), env, h), t, f, env) {
      assert Accepts(env, x, c) <==> TermValue(x, env) == c;
    }
  }

  /** Does the evaluation begin with a conformance test? */
  predicate MeterFirst(e: Expr) { e.ConformTo? || ((e.LAnd? || e.LOr?) && MeterFirst(e.a)) }

  /** The graph of `e`: every packet reaches `t` when `e` is true of it, `f` when it
      is false and the decision when it takes one, having counted the same. */
  method Build(fsm: Fsm, e: Expr, t: Ref, f: Ref) returns (r: Ref)
    requires fsm.Valid() && t < |fsm.store| && f < |fsm.store| && Equalities(e)
    modifies fsm`store, fsm`rank
    ensures fsm.Valid()
    ensures Grows(old(fsm.store), fsm.store)
    ensures Builds(fsm.store, r, e, t, f)
    ensures MeterFirst(e) ==> fsm.store[r].Conform?
    decreases e
  {
    match e {
      case LOr(a, b) =>
        var rest := Build(fsm, b, t, f);
        ghost var s1 := fsm.store;
        r := Build(fsm, a, t, rest);
        BuildsLater(s1, fsm.store, rest, b, t, f);
        BuildsOr(fsm.store, r, rest, a, b, t, f);
        GrowsTrans(old(fsm.store), s1, fsm.store);
      case LAnd(a, b) =>
        var rest := Build(fsm, b, t, f);
        ghost var s1 := fsm.store;
        r := Build(fsm, a, rest, f);
        BuildsLater(s1, fsm.store, rest, b, t, f);
        BuildsAnd(fsm.store, r, rest, a, b, t, f);
        GrowsTrans(old(fsm.store), s1, fsm.store);
      case LNot(a) =>
        r := Build(fsm, a, f, t);
        BuildsNot(fsm.store, r, a, t, f);
      case Compare(_, x, c) =>
        r := EqFsm(fsm, x, c, t, f);
      case ConformTo(k) =>
        r := fsm.Alloc(Conform(k, t, f), 1 + fsm.rank[t] + fsm.rank[f]);
        BuildsMeter(fsm.store, r, e, t, f);
      case CountOn(k) =>
        r := fsm.Alloc(Count(k, t), 1 + fsm.rank[t]);
        BuildsMeter(fsm.store, r, e, t, f);
      case Const(n) =>
        r := if n != 0 then t else f;
      case Decide(d) =>
        r := fsm.Alloc(Leaf(d), 0);
    }
  }

  // ----- why the construction is right -----

  lemma {:induction false} ExtendTests(s: Store, s': Store, r: Ref)
    requires Acyclic(s) && Acyclic(s') && s <= s' && r < |s|
    ensures Tested(s', r) == Tested(s, r) && (Separate(s', r) <==> Separate(s, r))
    decreases Rank(s)[r]
  {
    if HasEdge(s[r], true) { EdgeDown(s, r, true); EdgeDown(s', r, true); ExtendTests(s, s', s[r].t); }
    if HasEdge(s[r], false) { EdgeDown(s, r, false); EdgeDown(s', r, false); ExtendTests(s, s', s[r].f); }
    forall br | HasEdge(s[r], br) ensures Edge(s[r], br) < |s| && (Separate(s', Edge(s[r], br)) <==> Separate(s, Edge(s[r], br))) {}
  }

  /** Growing the heap takes nothing from what has been built. */
  lemma BuildsLater(s: Store, s': Store, r: Ref, e: Expr, t: Ref, f: Ref)
    requires Builds(s, r, e, t, f) && Grows(s, s')
    ensures Builds(s', r, e, t, f)
  {
    ExtendTests(s, s', r); ExtendTests(s, s', t); ExtendTests(s, s', f);
    forall env, h ensures Run(s', r, env, h) == Then(s', Eval(e, env, h), t, f, env) {
      assert Run(s', r, env, h) == Run(s, r, env, h);
      assert Run(s, r, env, h) == Then(s, Eval(e, env, h), t, f, env);
    }
  }

  lemma OrTests(s: Store, r: Ref, rest: Ref, a: Expr, b: Expr, t: Ref, f: Ref)
    requires Acyclic(s) && r < |s| && rest < |s| && t < |s| && f < |s|
    requires TestsOf(s, rest, b, t, f) && TestsOf(s, r, a, t, rest)
    ensures TestsOf(s, r, LOr(a, b), t, f)
  {
    var kt, kf := Tested(s, t), Tested(s, f);
    TestsMonotone(a, kt, Tested(s, rest), kt, TestedBy(b, kt, kf));
    assert TestedBy(LOr(a, b), kt, kf) == TestedBy(a, kt, TestedBy(b, kt, kf));
    assert KeptApart(LOr(a, b), kt, kf) <==> KeptApart(a, kt, TestedBy(b, kt, kf)) && (MayBeFalse(a) ==> KeptApart(b, kt, kf));
  }

  lemma AndTests(s: Store, r: Ref, rest: Ref, a: Expr, b: Expr, t: Ref, f: Ref)
    requires Acyclic(s) && r < |s| && rest < |s| && t < |s| && f < |s|
    requires TestsOf(s, rest, b, t, f) && TestsOf(s, r, a, rest, f)
    ensures TestsOf(s, r, LAnd(a, b), t, f)
  {
    var kt, kf := Tested(s, t), Tested(s, f);
    TestsMonotone(a, Tested(s, rest), kf, TestedBy(b, kt, kf), kf);
    assert TestedBy(LAnd(a, b), kt, kf) == TestedBy(a, TestedBy(b, kt, kf), kf);
    assert KeptApart(LAnd(a, b), kt, kf) <==> KeptApart(a, TestedBy(b, kt, kf), kf) && (MayBeTrue(a) ==> KeptApart(b, kt, kf));
  }

  lemma BuildsOr(s: Store, r: Ref, rest: Ref, a: Expr, b: Expr, t: Ref, f: Ref)
    requires Builds(s, rest, b, t, f) && Builds(s, r, a, t, rest)
    ensures Builds(s, r, LOr(a, b), t, f)
  {
    forall env, h ensures Run(s, r, env, h) == Then(s, Eval(LOr(a, b), env, h), t, f, env) {
      var v := Eval(a, env, h);
      assert Run(s, r, env, h) == Then(s, v, t, rest, env);
      assert Run(s, rest, env, v.hist) == Then(s, Eval(b, env, v.hist), t, f, env);
    }
    OrTests(s, r, rest, a, b, t, f);
  }

  lemma BuildsAnd(s: Store, r: Ref, rest: Ref, a: Expr, b: Expr, t: Ref, f: Ref)
    requires Builds(s, rest, b, t, f) && Builds(s, r, a, rest, f)
    ensures Builds(s, r, LAnd(a, b), t, f)
  {
    forall env, h ensures Run(s, r, env, h) == Then(s, Eval(LAnd(a, b), env, h), t, f, env) {
      var v := Eval(a, env, h);
      assert Run(s, r, env, h) == Then(s, v, rest, f, env);
      assert Run(s, rest, env, v.hist) == Then(s, Eval(b, env, v.hist), t, f, env);
    }
    AndTests(s, r, rest, a, b, t, f);
  }

  lemma BuildsNot(s: Store, r: Ref, a: Expr, t: Ref, f: Ref)
    requires Builds(s, r, a, f, t)
    ensures Builds(s, r, LNot(a), t, f)
  {
    forall env, h ensures Run(s, r, env, h) == Then(s, Eval(LNot(a), env, h), t, f, env) {
      assert Run(s, r, env, h) == Then(s, Eval(a, env, h), f, t, env);
    }
  }

  lemma BuildsMeter(s: Store, r: Ref, e: Expr, t: Ref, f: Ref)
    requires Acyclic(s) && r < |s| && t < |s| && f < |s|
    requires (e.ConformTo? && s[r] == Conform(e.bucket, t, f)) || (e.CountOn? && s[r] == Count(e.bucket, t))
    ensures Builds(s, r, e, t, f)
  {
    EdgeDown(s, r, true);
    if e.ConformTo? { EdgeDown(s, r, false); }
  }

  /** Continuations with fewer tests make for graphs with fewer tests. */
  lemma {:induction false} TestsMonotone(e: Expr, t: set<Key>, f: set<Key>, t': set<Key>, f': set<Key>)
    requires t <= t' && f <= f'
    ensures TestedBy(e, t, f) <= TestedBy(e, t', f')
    ensures KeptApart(e, t', f') ==> KeptApart(e, t, f)
    decreases e
  {
    match e
    case LNot(a) => TestsMonotone(a, f, t, f', t');
    case LAnd(a, b) =>
      TestsMonotone(b, t, f, t', f');
      TestsMonotone(a, TestedBy(b, t, f), f, TestedBy(b, t', f'), f');
    case LOr(a, b) =>
      TestsMonotone(b, t, f, t', f');
      TestsMonotone(a, t, TestedBy(b, t, f), t', TestedBy(b, t', f'));
    case _ =>
  }

  /** An outcome that is not possible is not followed by tests. */
  lemma {:induction false} TestsIndependent(e: Expr, t: set<Key>, f: set<Key>, t': set<Key>, f': set<Key>)
    requires (MayBeTrue(e) ==> t == t') && (MayBeFalse(e) ==> f == f')
    ensures TestedBy(e, t, f) == TestedBy(e, t', f')
    ensures KeptApart(e, t, f) <==> KeptApart(e, t', f')
    decreases e
  {
    match e
    case LNot(a) => TestsIndependent(a, f, t, f', t');
    case LAnd(a, b) =>
      if MayBeTrue(a) { TestsIndependent(b, t, f, t', f'); }
      TestsIndependent(a, TestedBy(b, t, f), f, TestedBy(b, t', f'), f');
    case LOr(a, b) =>
      if MayBeFalse(a) { TestsIndependent(b, t, f, t', f'); }
      TestsIndependent(a, t, TestedBy(b, t, f), t', TestedBy(b, t', f'));
    case _ =>
  }
}
