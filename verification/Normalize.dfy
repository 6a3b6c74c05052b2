/** Normalization: `||` is moved above `&&`, chains are made to lean right. */
module Normalize {
  import opened Semantics
  import opened Expr
  import opened Actions
  import opened MaskedTests
  import opened Bits

  /** No count anywhere: evaluation leaves the meters alone. */
  predicate CountFree(d: Expr) {
    match d
    case CountOn(_) => false
    case LNot(a) => CountFree(a)
    case LAnd(a, b) => CountFree(a) && CountFree(b)
    case LOr(a, b) => CountFree(a) && CountFree(b)
    case _ => true
  }

  lemma {:induction false} CountFreeEval(d: Expr, env: Env, h: Hist)
    requires CountFree(d)
    ensures Eval(d, env, h).hist == h
    decreases d
  {
    match d
    case LNot(a) => CountFreeEval(a, env, h);
    case LAnd(a, b) => CountFreeEval(a, env, h); CountFreeEval(b, env, h);
    case LOr(a, b) => CountFreeEval(a, env, h); CountFreeEval(b, env, h);
    case _ =>
  }

  // ----- distribution -----

  predicate Harmless(a: Expr, b: Expr, c: Expr, env: Env, h: Hist) {
    Eval(a, env, h).truth.True? && Eval(c, env, h).truth.False? ==> !Eval(b, env, h).truth.Taken?
  }

  function Gathered(a: Expr, b: Expr, c: Expr): Expr { LAnd(LOr(a, b), c) }

  function Distributed(a: Expr, b: Expr, c: Expr): Expr { LOr(LAnd(a, c), LAnd(b, c)) }

  lemma DistributeAt(a: Expr, b: Expr, c: Expr, env: Env, h: Hist)
    requires CountFree(a) && CountFree(b) && CountFree(c)
    ensures Eval(Gathered(a, b, c), env, h) == Eval(Distributed(a, b, c), env, h) <==> Harmless(a, b, c, env, h)
  {
    CountFreeEval(a, env, h); CountFreeEval(b, env, h); CountFreeEval(c, env, h);
  }

  /** Distributing over an `||` on the left evaluates `b` once more, where `a` and
      not `c` is true. It is sound exactly when `b` takes no decision there. */
  lemma DistributeLeft(a: Expr, b: Expr, c: Expr)
    requires CountFree(a) && CountFree(b) && CountFree(c)
    ensures SameMeaning(Gathered(a, b, c), Distributed(a, b, c)) <==> (forall env, h :: Harmless(a, b, c, env, h))
  {
    forall env, h
      ensures Eval(Gathered(a, b, c), env, h) == Eval(Distributed(a, b, c), env, h) <==> Harmless(a, b, c, env, h)
    {
      DistributeAt(a, b, c, env, h);
    }
    if SameMeaning(Gathered(a, b, c), Distributed(a, b, c)) {
      forall env, h ensures Harmless(a, b, c, env, h) {
        assert Eval(Gathered(a, b, c), env, h) == Eval(Distributed(a, b, c), env, h);
      }
    }
  }

  /** The guards under which the code distributes over an `||` on the left. */
  predicate SafeLeft(a: Expr, b: Expr, c: Expr) {
    !SideEffect(b) || SelfContained(c) == Settled || SelfContained(a) == Settled
  }

  /** The remaining guard: the left alternative is never false. */
  predicate EscapeLeft(a: Expr) { SelfContained(a) == NeverFalse }

  /** The escape guard alone does not do: `((x || first) || second) && y`, for a
      packet with `x` but not `y`, goes on to the next filter, but after
      distribution takes the second decision. */
  lemma EscapeUnsound(x: Expr, y: Expr, first: Decision, second: Decision, env: Env, h: Hist)
    requires CountFree(x) && CountFree(y) && SelfContained(x) == Open
    requires Eval(x, env, h).truth.True? && Eval(y, env, h).truth.False?
    ensures
      var a, b := LOr(x, Decide(first)), Decide(second);
      EscapeLeft(a)
      && Eval(Gathered(a, b, y), env, h).truth.False?
      && Eval(Distributed(a, b, y), env, h).truth == Taken(second)
  {
    var a, b := LOr(x, Decide(first)), Decide(second);
    CountFreeEval(x, env, h);
    CountFreeEval(y, env, h);
    assert SelfContained(a) == NeverFalse;
    assert Eval(a, env, h) == Value(True, h);
    assert Eval(LOr(a, b), env, h) == Value(True, h);
    assert Eval(LAnd(a, y), env, h) == Value(False, h);
    assert Eval(LAnd(b, y), env, h) == Value(Taken(second), h);
  }

  // ----- the measure -----

  /** `&&` as product, `||` as sum plus one. */
  function Weight(d: Expr): (w: nat)
    ensures w >= 2
  {
    match d
    case LNot(a) => Weight(a) + 1
    case LAnd(a, b) => Product(Weight(a), Weight(b)); Weight(a) * Weight(b)
    case LOr(a, b) => Weight(a) + Weight(b) + 1
    case _ => 2
  }

  lemma Product(x: nat, y: nat)
    requires x >= 2 && y >= 2
    ensures x * y > x && x * y > y
  {
    assert x * y >= 2 * y && x * y >= x * 2;
  }

  lemma SumProduct(x: nat, y: nat, z: nat, s: nat, p: nat, q: nat, r: nat)
    requires z >= 2 && s == x + y + 1 && p == x * z && q == y * z && r == s * z
    ensures p + q + 1 < r
  {
    assert (x + y + 1) * z == x * z + y * z + z;
  }

  lemma Commutes(x: nat, y: nat)
    ensures x * y == y * x
  {}

  lemma WeightAnd(a: Expr, b: Expr) returns (w: nat)
    ensures w == Weight(a) * Weight(b)
    ensures Weight(LAnd(a, b)) == w == Weight(LAnd(b, a))
  {
    w := Weight(LAnd(a, b));
    Commutes(Weight(a), Weight(b));
  }

  lemma DistributeLighter(a: Expr, b: Expr, c: Expr)
    ensures Weight(Distributed(a, b, c)) < Weight(Gathered(a, b, c))
    ensures Weight(LOr(LAnd(c, a), LAnd(c, b))) < Weight(LAnd(c, LOr(a, b)))
  {
    var p := WeightAnd(a, c);
    var q := WeightAnd(b, c);
    var r := WeightAnd(LOr(a, b), c);
    var s := Weight(LOr(a, b));
    SumProduct(Weight(a), Weight(b), Weight(c), s, p, q, r);
  }

  /** Distribution brings in neither counts nor side effects. */
  lemma DistributeKeeps(a: Expr, b: Expr, c: Expr)
    ensures CountFree(LAnd(c, LOr(a, b))) || CountFree(Gathered(a, b, c)) ==>
      CountFree(a) && CountFree(b) && CountFree(c) && CountFree(Distributed(a, b, c)) && CountFree(LOr(LAnd(c, a), LAnd(c, b)))
    ensures !SideEffect(LAnd(c, LOr(a, b))) || !SideEffect(Gathered(a, b, c)) ==>
      !SideEffect(b) && !SideEffect(Distributed(a, b, c)) && !SideEffect(LOr(LAnd(c, a), LAnd(c, b)))
  {
    assert CountFree(LOr(a, b)) == (CountFree(a) && CountFree(b));
    assert CountFree(LAnd(a, c)) == (CountFree(a) && CountFree(c)) && CountFree(LAnd(b, c)) == (CountFree(b) && CountFree(c));
    assert CountFree(LAnd(c, a)) == (CountFree(a) && CountFree(c)) && CountFree(LAnd(c, b)) == (CountFree(b) && CountFree(c));
    assert SideEffect(LOr(a, b)) == (SideEffect(a) || SideEffect(b));
    assert SideEffect(LAnd(a, c)) == (SideEffect(a) || SideEffect(c)) && SideEffect(LAnd(b, c)) == (SideEffect(b) || SideEffect(c));
    assert SideEffect(LAnd(c, a)) == (SideEffect(a) || SideEffect(c)) && SideEffect(LAnd(c, b)) == (SideEffect(b) || SideEffect(c));
  }

  /** ... and keeps conditions plain. */
  lemma DistributePlain(a: Expr, b: Expr, c: Expr)
    ensures LeftPlain(Gathered(a, b, c)) ==> !SideEffect(b) && LeftPlain(Distributed(a, b, c))
    ensures LeftPlain(LAnd(c, LOr(a, b))) ==> LeftPlain(LOr(LAnd(c, a), LAnd(c, b)))
  {
    assert SideEffect(LOr(a, b)) == (SideEffect(a) || SideEffect(b));
    assert LeftPlain(LOr(a, b)) == (LeftPlain(a) && LeftPlain(b));
    assert LeftPlain(LAnd(a, c)) == (!SideEffect(a) && LeftPlain(c)) && LeftPlain(LAnd(b, c)) == (!SideEffect(b) && LeftPlain(c));
    assert LeftPlain(LAnd(c, a)) == (!SideEffect(c) && LeftPlain(a)) && LeftPlain(LAnd(c, b)) == (!SideEffect(c) && LeftPlain(b));
  }

  // ----- normal form -----

  /** Is this `&&` as far as the code will take it? Its left side may settle neither
      way; an `||` stays on the left only where distributing is not allowed, and then
      is no reason to stop; one stays on the right only if it is an action. */
  predicate AndDone(a: Expr, b: Expr) {
    && SelfContained(a) != Settled && SelfContained(a) != NeverTrue
    && (a.LOr? ==> !SafeLeft(a.a, a.b, b) && !EscapeLeft(a.a))
    && (b.LOr? ==> ActionTree(b) && SelfContained(b) == Settled)
  }

  predicate Normal(d: Expr) {
    match d
    case LNot(a) => Normal(a)
    case LAnd(a, b) => Normal(a) && Normal(b) && AndDone(a, b)
    case LOr(a, b) => Normal(a) && Normal(b)
    case _ => true
  }

  /** The left side of every `&&` is a plain condition, as where decisions only end
      rows of tests. */
  predicate LeftPlain(d: Expr) {
    match d
    case LNot(a) => LeftPlain(a)
    case LAnd(a, b) => !SideEffect(a) && LeftPlain(b)
    case LOr(a, b) => LeftPlain(a) && LeftPlain(b)
    case _ => true
  }

  lemma {:induction false} Plain(d: Expr)
    requires !SideEffect(d)
    ensures LeftPlain(d) && CountFree(d)
    decreases d
  {
    match d
    case LNot(a) => Plain(a);
    case LAnd(a, b) => Plain(a); Plain(b);
    case LOr(a, b) => Plain(a); Plain(b);
    case _ =>
  }

  // ----- tables of tests and actions -----

  /** A condition on the packet. */
  predicate Condition(d: Expr) {
    match d
    case Compare(_, _, _) => true
    case LAnd(a, b) => Condition(a) && Condition(b)
    case LOr(a, b) => Condition(a) && Condition(b)
    case _ => false
  }

  /** Actions that decide, alternatives, and conditions in front of them. */
  predicate Tabular(d: Expr) {
    if ActionTree(d) then SelfContained(d) == Settled
    else (d.LAnd? && Condition(d.a) && Tabular(d.b)) || (d.LOr? && Tabular(d.a) && Tabular(d.b))
  }

  /** Nor is there anything to do about the actions, counts and all. */
  predicate Table(d: Expr) {
    if ActionTree(d) then SelfContained(d) == Settled && Normal(d)
    else (d.LAnd? && Condition(d.a) && Table(d.b)) || (d.LOr? && Table(d.a) && Table(d.b))
  }

  lemma {:induction false} TableTabular(d: Expr)
    requires Table(d)
    ensures Tabular(d)
    decreases d
  {
    if !ActionTree(d) {
      TableTabular(d.b);
      if d.LOr? { TableTabular(d.a); }
    }
  }

  lemma {:induction false} ConditionOpen(d: Expr)
    requires Condition(d)
    ensures SelfContained(d) == Open && !ActionTree(d) && !SideEffect(d)
    decreases d
  {
    match d
    case LAnd(a, b) => ConditionOpen(a); ConditionOpen(b);
    case LOr(a, b) => ConditionOpen(a); ConditionOpen(b);
    case _ =>
  }

  // ----- what the rewrites keep -----

  /** Neither counts nor side effects come in. */
  predicate KeptPlain(d: Expr, d': Expr) {
    (CountFree(d) ==> CountFree(d')) && (!SideEffect(d) ==> !SideEffect(d')) && (LeftPlain(d) ==> LeftPlain(d'))
  }

  predicate KeptForm(d: Expr, d': Expr) {
    && (Normal(d) ==> d' == d) && (Condition(d) ==> Condition(d')) && (PlainTests(d) ==> PlainTests(d'))
    && (Table(d) ==> Table(d') && ActionTree(d') == ActionTree(d))
  }

  /** Nothing is done to a normal expression; conditions, tables and the tests in them
      stay such. */
  predicate Kept(d: Expr, d': Expr) { KeptPlain(d, d') && KeptForm(d, d') }

  lemma KeptTrans(a: Expr, b: Expr, c: Expr)
    requires Kept(a, b) && Kept(b, c)
    ensures Kept(a, c)
  {}

  lemma KeptAnd(a: Expr, a': Expr, b: Expr, b': Expr)
    requires Kept(a, a') && Kept(b, b')
    ensures Kept(LAnd(a, b), LAnd(a', b'))
  {
    if Condition(a) { ConditionOpen(a); ConditionOpen(a'); }
  }

  lemma KeptOr(a: Expr, a': Expr, b: Expr, b': Expr)
    requires Kept(a, a') && Kept(b, b')
    ensures Kept(LOr(a, b), LOr(a', b'))
  {
    var d, d' := LOr(a, b), LOr(a', b');
    assert Normal(d) == (Normal(a) && Normal(b));
    if Table(d) && !Normal(d) {
      assert !ActionTree(d) && Table(a) && Table(b) && !ActionTree(a);
      assert Table(d') && !ActionTree(d');
    }
  }

  lemma KeptNot(a: Expr, a': Expr)
    requires Kept(a, a')
    ensures Kept(LNot(a), LNot(a'))
  {}

  lemma KeptFirst(a: Expr, b: Expr)
    requires SelfContained(a) == Settled || SelfContained(a) == NeverTrue
    ensures Kept(LAnd(a, b), a)
  {
    if Condition(a) { ConditionOpen(a); }
    if !SideEffect(a) { Plain(a); }
  }

  lemma KeptLeft(a: Expr, b: Expr, c: Expr)
    requires SafeLeft(a, b, c) || EscapeLeft(a)
    ensures Kept(Gathered(a, b, c), Distributed(a, b, c))
  {
    DistributeKeeps(a, b, c);
    DistributePlain(a, b, c);
    if Condition(LOr(a, b)) { ConditionOpen(a); ConditionOpen(b); ConditionOpen(LOr(a, b)); }
    FormLeft(a, b, c);
  }

  lemma FormLeft(a: Expr, b: Expr, c: Expr)
    requires SafeLeft(a, b, c) || EscapeLeft(a)
    requires Condition(LOr(a, b)) ==> !ActionTree(a) && !ActionTree(b)
    ensures KeptForm(Gathered(a, b, c), Distributed(a, b, c))
  {
    var g, d := Gathered(a, b, c), Distributed(a, b, c);
    assert Condition(LOr(a, b)) == (Condition(a) && Condition(b));
    assert PlainTests(LOr(a, b)) == (PlainTests(a) && PlainTests(b));
    assert PlainTests(LAnd(a, c)) == (PlainTests(a) && PlainTests(c)) && PlainTests(LAnd(b, c)) == (PlainTests(b) && PlainTests(c));
    assert !Normal(g);
    if Table(g) {
      assert !ActionTree(g) && Condition(LOr(a, b)) && Table(c);
      assert Table(LAnd(a, c)) && Table(LAnd(b, c)) && !ActionTree(LAnd(a, c));
    }
  }

  lemma KeptRight(a: Expr, b: Expr, c: Expr)
    requires !(ActionTree(LOr(b, c)) && SelfContained(LOr(b, c)) == Settled)
    ensures Kept(LAnd(a, LOr(b, c)), LOr(LAnd(a, b), LAnd(a, c)))
  {
    DistributeKeeps(b, c, a);
    DistributePlain(b, c, a);
    if Condition(a) { ConditionOpen(a); }
    FormRight(a, b, c);
  }

  lemma FormRight(a: Expr, b: Expr, c: Expr)
    requires !(ActionTree(LOr(b, c)) && SelfContained(LOr(b, c)) == Settled)
    requires Condition(a) ==> !ActionTree(a)
    ensures KeptForm(LAnd(a, LOr(b, c)), LOr(LAnd(a, b), LAnd(a, c)))
  {
    var g := LAnd(a, LOr(b, c));
    assert Condition(LOr(b, c)) == (Condition(b) && Condition(c));
    assert PlainTests(LOr(b, c)) == (PlainTests(b) && PlainTests(c));
    assert PlainTests(LAnd(a, b)) == (PlainTests(a) && PlainTests(b)) && PlainTests(LAnd(a, c)) == (PlainTests(a) && PlainTests(c));
    assert !Normal(g);
    if Table(g) {
      assert !ActionTree(g) && Condition(a) && Table(LOr(b, c));
      assert Table(b) && Table(c);
      assert Table(LAnd(a, b)) && Table(LAnd(a, c)) && !ActionTree(LAnd(a, b));
    }
  }

  // ----- what may be evaluated twice -----

  /** Where it comes out false it has counted nothing. */
  predicate Traceless(d: Expr) {
    !MayBeFalse(d) || CountFree(d)
    || (match d
        case LAnd(a, b) => CountFree(a) && Traceless(b)
        case LOr(a, b) => Traceless(a) && Traceless(b)
        case _ => false)
  }

  lemma {:induction false} TracelessFalse(d: Expr, env: Env, h: Hist)
    requires Traceless(d) && Eval(d, env, h).truth.False?
    ensures Eval(d, env, h).hist == h
    decreases d
  {
    MayBeSound(d, env, h);
    if CountFree(d) {
      CountFreeEval(d, env, h);
    } else if d.LAnd? {
      CountFreeEval(d.a, env, h);
      if Eval(d.a, env, h).truth.True? { TracelessFalse(d.b, env, h); }
    } else {
      TracelessFalse(d.a, env, h);
      TracelessFalse(d.b, env, h);
    }
  }

  /** Neither asks nor charges the meters. */
  predicate Meterless(d: Expr) {
    match d
    case ConformTo(_) => false
    case CountOn(_) => false
    case LNot(a) => Meterless(a)
    case LAnd(a, b) => Meterless(a) && Meterless(b)
    case LOr(a, b) => Meterless(a) && Meterless(b)
    case _ => true
  }

  lemma {:induction false} MeterlessEval(d: Expr, env: Env, h: Hist, h': Hist)
    requires Meterless(d)
    ensures Eval(d, env, h) == Value(Eval(d, env, h').truth, h)
    decreases d
  {
    match d
    case LNot(a) => MeterlessEval(a, env, h, h');
    case LAnd(a, b) => MeterlessEval(a, env, h, h'); MeterlessEval(a, env, h', h'); MeterlessEval(b, env, h, h');
    case LOr(a, b) => MeterlessEval(a, env, h, h'); MeterlessEval(a, env, h', h'); MeterlessEval(b, env, h, h');
    case _ =>
  }

  /** The classes are exact: what may be true and what may be false, and nothing else,
      tells which one it is. */
  lemma {:induction false} SettlingMayBe(d: Expr)
    ensures SelfContained(d) == Settled <==> !MayBeTrue(d) && !MayBeFalse(d)
    ensures SelfContained(d) == NeverTrue <==> !MayBeTrue(d) && MayBeFalse(d)
    ensures SelfContained(d) == NeverFalse <==> MayBeTrue(d) && !MayBeFalse(d)
    decreases d
  {
    match d
    case LNot(a) => SettlingMayBe(a);
    case LAnd(a, b) => SettlingMayBe(a); SettlingMayBe(b);
    case LOr(a, b) => SettlingMayBe(a); SettlingMayBe(b);
    case _ =>
  }

  /** Distributing over an `||` on the left: after `a` is true and `c` false, `b` and
      `c` are evaluated once more. */
  predicate CarefulLeft(a: Expr, b: Expr, c: Expr) {
    !MayBeTrue(a) || !MayBeFalse(c) || (!SideEffect(b) && Traceless(c))
  }

  /** ... and on the right: `a` is evaluated once more unless `b` has been true. */
  predicate CarefulRight(a: Expr, b: Expr) {
    (!MayBeFalse(a) && !MayBeFalse(b)) || (CountFree(a) && (Traceless(b) || Meterless(a)))
  }

  lemma CarefulLeftSound(a: Expr, b: Expr, c: Expr)
    requires CarefulLeft(a, b, c)
    ensures SameMeaning(Gathered(a, b, c), Distributed(a, b, c))
  {
    forall env, h ensures Eval(Gathered(a, b, c), env, h) == Eval(Distributed(a, b, c), env, h) {
      MayBeSound(a, env, h);
      var h' := Eval(a, env, h).hist;
      MayBeSound(c, env, h');
      if MayBeTrue(a) && Eval(c, env, h').truth.False? {
        TracelessFalse(c, env, h');
        NoSideEffect(b, env, h');
      }
    }
  }

  lemma CarefulRightSound(a: Expr, b: Expr, c: Expr)
    requires CarefulRight(a, b)
    ensures SameMeaning(LAnd(a, LOr(b, c)), LOr(LAnd(a, b), LAnd(a, c)))
  {
    forall env, h ensures Eval(LAnd(a, LOr(b, c)), env, h) == Eval(LOr(LAnd(a, b), LAnd(a, c)), env, h) {
      MayBeSound(a, env, h);
      var h' := Eval(a, env, h).hist;
      MayBeSound(b, env, h');
      if CountFree(a) {
        CountFreeEval(a, env, h);
        if Eval(b, env, h').truth.False? {
          if Meterless(a) { MeterlessEval(a, env, Eval(b, env, h').hist, h); } else { TracelessFalse(b, env, h'); }
        }
      }
    }
  }

  // ----- bubbling -----

  /** What one rewrite makes of an `&&` of bubbled operands, if one applies. */
  function Rewrite(a: Expr, b: Expr): Option<Expr> {
    if SelfContained(a) == Settled || SelfContained(a) == NeverTrue then Some(a)
    else if a.LOr? && (SafeLeft(a.a, a.b, b) || EscapeLeft(a.a)) then Some(Distributed(a.a, a.b, b))
    else if b.LOr? && !(ActionTree(b) && SelfContained(b) == Settled) then Some(LOr(LAnd(a, b.a), LAnd(a, b.b)))
    else None
  }

  lemma RewriteLighter(a: Expr, b: Expr)
    requires Rewrite(a, b).Some?
    ensures Weight(Rewrite(a, b).value) < Weight(LAnd(a, b))
  {
    Product(Weight(a), Weight(b));
    if a.LOr? { DistributeLighter(a.a, a.b, b); }
    if b.LOr? { DistributeLighter(b.a, b.b, a); }
  }

  lemma AndLighter(a: Expr, b: Expr)
    ensures Weight(a) < Weight(LAnd(a, b)) && Weight(b) < Weight(LAnd(a, b))
  {
    Product(Weight(a), Weight(b));
  }

  lemma AndNoHeavier(a: Expr, b: Expr, a': Expr, b': Expr)
    requires Weight(a') <= Weight(a) && Weight(b') <= Weight(b)
    ensures Weight(LAnd(a', b')) <= Weight(LAnd(a, b))
  {
    var w := WeightAnd(a, b);
    var w' := WeightAnd(a', b');
    ProductMonotone(Weight(a), Weight(b), Weight(a'), Weight(b'));
  }

  /** Operands first, then the `&&` itself as long as a rewrite applies. */
  function Bubble(d: Expr): (d': Expr)
    ensures Weight(d') <= Weight(d)
    decreases Weight(d)
  {
    match d
    case LNot(a) => LNot(Bubble(a))
    case LAnd(a, b) =>
      AndLighter(a, b);
      var a', b' := Bubble(a), Bubble(b);
      AndNoHeavier(a, b, a', b');
      if Rewrite(a', b').None? then LAnd(a', b') else (RewriteLighter(a', b'); Bubble(Rewrite(a', b').value))
    case LOr(a, b) => LOr(Bubble(a), Bubble(b))
    case _ => d
  }

  predicate CarefulStep(a: Expr, b: Expr) {
    SelfContained(a) == Settled || SelfContained(a) == NeverTrue
    || (if a.LOr? && (SafeLeft(a.a, a.b, b) || EscapeLeft(a.a)) then CarefulLeft(a.a, a.b, b)
        else b.LOr? && !(ActionTree(b) && SelfContained(b) == Settled) ==> CarefulRight(a, b.a))
  }

  /** No rewrite on the way evaluates a second time what decides or counts. */
  predicate Careful(d: Expr)
    decreases Weight(d)
  {
    match d
    case LNot(a) => Careful(a)
    case LAnd(a, b) =>
      AndLighter(a, b);
      var a', b' := Bubble(a), Bubble(b);
      AndNoHeavier(a, b, a', b');
      Careful(a) && Careful(b) && CarefulStep(a', b')
      && (Rewrite(a', b').Some? ==> (RewriteLighter(a', b'); Careful(Rewrite(a', b').value)))
    case LOr(a, b) => Careful(a) && Careful(b)
    case _ => true
  }

  lemma RewriteKeeps(a: Expr, b: Expr)
    requires Rewrite(a, b).Some?
    ensures Kept(LAnd(a, b), Rewrite(a, b).value)
  {
    if SelfContained(a) == Settled || SelfContained(a) == NeverTrue { KeptFirst(a, b); }
    else if a.LOr? && (SafeLeft(a.a, a.b, b) || EscapeLeft(a.a)) { KeptLeft(a.a, a.b, b); }
    else { KeptRight(a, b.a, b.b); }
  }

  /** No rewrite applies to the result; normal forms are left alone. */
  lemma {:induction false} BubbleKeeps(d: Expr)
    ensures Normal(Bubble(d)) && Kept(d, Bubble(d))
    decreases Weight(d)
  {
    match d
    case LNot(a) => BubbleKeeps(a); KeptNot(a, Bubble(a));
    case LAnd(a, b) =>
      AndLighter(a, b);
      BubbleKeeps(a);
      BubbleKeeps(b);
      BubbleAndKeeps(a, b);
    case LOr(a, b) => BubbleKeeps(a); BubbleKeeps(b); KeptOr(a, Bubble(a), b, Bubble(b));
    case _ =>
  }

  lemma {:induction false} BubbleAndKeeps(a: Expr, b: Expr)
    requires Normal(Bubble(a)) && Kept(a, Bubble(a)) && Normal(Bubble(b)) && Kept(b, Bubble(b))
    ensures Normal(Bubble(LAnd(a, b))) && Kept(LAnd(a, b), Bubble(LAnd(a, b)))
    decreases Weight(LAnd(a, b)), 0
  {
    var a', b' := Bubble(a), Bubble(b);
    KeptAnd(a, a', b, b');
    AndNoHeavier(a, b, a', b');
    if Rewrite(a', b').Some? {
      var e := Rewrite(a', b').value;
      RewriteLighter(a', b');
      RewriteKeeps(a', b');
      BubbleKeeps(e);
      KeptTrans(LAnd(a, b), LAnd(a', b'), e);
      KeptTrans(LAnd(a, b), e, Bubble(e));
    }
  }

  lemma RewriteSound(a: Expr, b: Expr)
    requires Rewrite(a, b).Some? && CarefulStep(a, b)
    ensures SameMeaning(LAnd(a, b), Rewrite(a, b).value)
  {
    SettledFirst(a, b);
    if SelfContained(a) == Settled || SelfContained(a) == NeverTrue { }
    else if a.LOr? && (SafeLeft(a.a, a.b, b) || EscapeLeft(a.a)) { CarefulLeftSound(a.a, a.b, b); }
    else { CarefulRightSound(a, b.a, b.b); }
  }

  /** Careful rewriting keeps decisions and counts. */
  lemma {:induction false} BubbleSound(d: Expr)
    requires Careful(d)
    ensures SameMeaning(d, Bubble(d))
    decreases Weight(d)
  {
    match d
    case LNot(a) => BubbleSound(a); CongruentNot(a, Bubble(a));
    case LAnd(a, b) =>
      var a', b' := Bubble(a), Bubble(b);
      AndLighter(a, b);
      AndNoHeavier(a, b, a', b');
      BubbleSound(a);
      BubbleSound(b);
      CongruentAnd(a, a', b, b');
      if Rewrite(a', b').Some? {
        var e := Rewrite(a', b').value;
        RewriteLighter(a', b');
        RewriteSound(a', b');
        BubbleSound(e);
        SameMeaningTrans(d, LAnd(a', b'), e);
        SameMeaningTrans(d, e, Bubble(e));
      }
    case LOr(a, b) => BubbleSound(a); BubbleSound(b); CongruentOr(a, Bubble(a), b, Bubble(b));
    case _ =>
  }

  /** Moves `||` above `&&`. */
  method BubbleOr(d: Expr) returns (d': Expr)
    ensures d' == Bubble(d)
    ensures Normal(d') && Weight(d') <= Weight(d) && Kept(d, d')
    ensures Careful(d) ==> SameMeaning(d, d')
    decreases Weight(d)
  {
    d' := d;
    while true
      invariant Weight(d') <= Weight(d) && Bubble(d') == Bubble(d)
      decreases Weight(d')
    {
      match d' {
        case LNot(a) =>
          var a' := BubbleOr(a);
          d' := LNot(a');
          break;
        case LAnd(a, b) =>
          AndLighter(a, b);
          var a' := BubbleOr(a);
          var b' := BubbleOr(b);
          AndNoHeavier(a, b, a', b');
          d' := LAnd(a', b');
        case LOr(a, b) =>
          var a' := BubbleOr(a);
          var b' := BubbleOr(b);
          d' := LOr(a', b');
          break;
        case _ => break;
      }
      var a, b := d'.a, d'.b;
      if Rewrite(a, b).Some? { RewriteLighter(a, b); }
      if SelfContained(a) == Settled || SelfContained(a) == NeverTrue {
        d' := a;
      } else if a.LOr? && (SafeLeft(a.a, a.b, b) || EscapeLeft(a.a)) {
        d' := LOr(LAnd(a.a, b), LAnd(a.b, b));
      } else if b.LOr? {
        if ActionTree(b) && SelfContained(b) == Settled { break; }
        d' := LOr(LAnd(a, b.a), LAnd(a, b.b));
      } else {
        break;
      }
    }
    BubbleKeeps(d);
    if Careful(d) { BubbleSound(d); }
  }

  // ----- which expressions are rewritten carefully -----

  /** A step that is not careful although nothing is counted goes by the escape guard
      alone: an alternative that may decide, before something that may be false. */
  lemma CarelessStep(a: Expr, b: Expr)
    requires CountFree(LAnd(a, b)) && Rewrite(a, b).Some? && !CarefulStep(a, b)
    ensures a.LOr? && EscapeLeft(a.a) && !SafeLeft(a.a, a.b, b) && MayBeTrue(a.a) && SideEffect(a.b) && MayBeFalse(b)
  {
    assert CountFree(a) && CountFree(b);
    SettlingMayBe(b);
    if a.LOr? { SettlingMayBe(a.a); }
  }

  predicate EscapeStep(a: Expr, b: Expr) {
    && SelfContained(a) != Settled && SelfContained(a) != NeverTrue
    && a.LOr? && EscapeLeft(a.a) && !SafeLeft(a.a, a.b, b)
  }

  /** Some rewrite on the way is allowed by the escape guard alone. */
  predicate Escapes(d: Expr)
    decreases Weight(d)
  {
    match d
    case LNot(a) => Escapes(a)
    case LAnd(a, b) =>
      AndLighter(a, b);
      var a', b' := Bubble(a), Bubble(b);
      AndNoHeavier(a, b, a', b');
      Escapes(a) || Escapes(b) || EscapeStep(a', b')
      || (Rewrite(a', b').Some? && (RewriteLighter(a', b'); Escapes(Rewrite(a', b').value)))
    case LOr(a, b) => Escapes(a) || Escapes(b)
    case _ => false
  }

  /** Without counts, that is the only way not to be careful. */
  lemma {:induction false} EscapeFree(d: Expr)
    requires CountFree(d) && !Escapes(d)
    ensures Careful(d)
    decreases Weight(d)
  {
    match d
    case LNot(a) => EscapeFree(a);
    case LAnd(a, b) =>
      var a', b' := Bubble(a), Bubble(b);
      AndLighter(a, b);
      AndNoHeavier(a, b, a', b');
      EscapeFree(a);
      EscapeFree(b);
      BubbleKeeps(a);
      BubbleKeeps(b);
      if Rewrite(a', b').Some? {
        if !CarefulStep(a', b') { CarelessStep(a', b'); }
        RewriteLighter(a', b');
        RewriteKeeps(a', b');
        EscapeFree(Rewrite(a', b').value);
      }
    case LOr(a, b) => EscapeFree(a); EscapeFree(b);
    case _ =>
  }

  /** Careful are: what is normal already, rows that count nothing, and tables. */
  predicate Trusted(d: Expr) { Normal(d) || (CountFree(d) && LeftPlain(d)) || Table(d) }

  lemma TrustedOperands(d: Expr)
    requires Trusted(d)
    ensures d.LNot? ==> Trusted(d.a)
    ensures d.LAnd? || d.LOr? ==> Trusted(d.a) && Trusted(d.b)
  {
    if d.LAnd? {
      if !SideEffect(d.a) { Plain(d.a); }
      if Condition(d.a) { ConditionOpen(d.a); }
    }
  }

  lemma {:induction false} TabularTraceless(d: Expr)
    requires Tabular(d)
    ensures Traceless(d)
    decreases d
  {
    if ActionTree(d) {
      SettlingMayBe(d);
    } else {
      TabularTraceless(d.b);
      if d.LAnd? { ConditionMeterless(d.a); } else { TabularTraceless(d.a); }
    }
  }

  lemma {:induction false} ConditionMeterless(d: Expr)
    requires Condition(d)
    ensures Meterless(d) && CountFree(d)
    decreases d
  {
    match d
    case LAnd(a, b) => ConditionMeterless(a); ConditionMeterless(b);
    case LOr(a, b) => ConditionMeterless(a); ConditionMeterless(b);
    case _ =>
  }

  lemma TrustedStep(a: Expr, b: Expr)
    requires Trusted(LAnd(a, b)) && Rewrite(a, b).Some?
    ensures CarefulStep(a, b)
  {
    assert !Normal(LAnd(a, b));
    if Table(LAnd(a, b)) {
      ConditionMeterless(a);
      ConditionOpen(a);
      TableTabular(b);
      TabularTraceless(b);
      if b.LOr? && !ActionTree(b) { TabularTraceless(b.a); }
      if a.LOr? { ConditionOpen(a.b); }
    } else {
      assert !SideEffect(a) && CountFree(a) && CountFree(b);
    }
  }

  lemma {:induction false} TrustedCareful(d: Expr)
    requires Trusted(d)
    ensures Careful(d)
    decreases Weight(d)
  {
    TrustedOperands(d);
    match d
    case LNot(a) => TrustedCareful(a);
    case LAnd(a, b) =>
      var a', b' := Bubble(a), Bubble(b);
      AndLighter(a, b);
      AndNoHeavier(a, b, a', b');
      TrustedCareful(a);
      TrustedCareful(b);
      BubbleKeeps(a);
      BubbleKeeps(b);
      KeptAnd(a, a', b, b');
      if Rewrite(a', b').Some? {
        TrustedStep(a', b');
        RewriteLighter(a', b');
        RewriteKeeps(a', b');
        TrustedCareful(Rewrite(a', b').value);
      }
    case LOr(a, b) => TrustedCareful(a); TrustedCareful(b);
    case _ =>
  }

  lemma {:induction false} NormalDecided(a: Expr, decision: Decision)
    requires Normal(a)
    ensures Careful(LAnd(a, Decide(decision)))
    decreases a
  {
    var end := Decide(decision);
    AndLighter(a, end);
    BubbleKeeps(a);
    TrustedCareful(a);
    assert Bubble(end) == end && Bubble(a) == a;
    if SelfContained(a) != Settled && SelfContained(a) != NeverTrue && a.LOr? {
      NormalDecided(a.a, decision);
      NormalDecided(a.b, decision);
      assert Careful(Distributed(a.a, a.b, end));
    }
  }

  /** The class or drop that is put behind a filter brings in no careless rewrite:
      joined filters are as careful as each of them is. */
  lemma DecidedCareful(d: Expr, decision: Decision)
    ensures Careful(LAnd(d, Decide(decision))) <==> Careful(d)
  {
    var a', end := Bubble(d), Decide(decision);
    BubbleKeeps(d);
    BubbleKeeps(a');
    AndLighter(d, end);
    AndLighter(a', end);
    NormalDecided(a', decision);
    assert Bubble(end) == end && Bubble(a') == a';
  }

  // ----- the shape of the result -----

  /** What `||` is left below `&&`: on the left, if the right alternative has a side
      effect; on the right, if it is an action that decides. */
  predicate Raised(d: Expr) {
    match d
    case LNot(a) => Raised(a)
    case LAnd(a, b) =>
      && Raised(a) && Raised(b) && SelfContained(a) != Settled && SelfContained(a) != NeverTrue
      && (a.LOr? ==> SideEffect(a.b)) && (b.LOr? ==> ActionTree(b) && SelfContained(b) == Settled)
    case LOr(a, b) => Raised(a) && Raised(b)
    case _ => true
  }

  lemma {:induction false} NormalRaised(d: Expr)
    requires Normal(d)
    ensures Raised(d)
    decreases d
  {
    match d
    case LNot(a) => NormalRaised(a);
    case LAnd(a, b) => NormalRaised(a); NormalRaised(b);
    case LOr(a, b) => NormalRaised(a); NormalRaised(b);
    case _ =>
  }

  /** No `||` below an `&&`. */
  predicate NoOr(d: Expr) {
    match d
    case LOr(_, _) => false
    case LAnd(a, b) => NoOr(a) && NoOr(b)
    case _ => true
  }

  predicate Disjunctive(d: Expr) {
    match d
    case LOr(a, b) => Disjunctive(a) && Disjunctive(b)
    case _ => NoOr(d)
  }

  /** On plain conditions nothing is guarded: the result is in disjunctive form. */
  lemma {:induction false} RaisedCondition(d: Expr)
    requires Raised(d) && !SideEffect(d)
    ensures Disjunctive(d) && (!d.LOr? ==> NoOr(d))
    decreases d
  {
    match d
    case LOr(a, b) => RaisedCondition(a); RaisedCondition(b);
    case LAnd(a, b) =>
      RaisedCondition(a); RaisedCondition(b);
      if b.LOr? { ConditionNotSettled(b); }
    case _ =>
  }

  lemma {:induction false} ConditionNotSettled(d: Expr)
    requires !SideEffect(d)
    ensures SelfContained(d) != Settled
    decreases d
  {
    match d
    case LNot(a) => ConditionNotSettled(a);
    case LAnd(a, b) => ConditionNotSettled(a); ConditionNotSettled(b);
    case LOr(a, b) => ConditionNotSettled(a); ConditionNotSettled(b);
    case _ =>
  }

  // ----- linear chains -----

  function Nodes(d: Expr): nat {
    match d
    case LNot(a) => 1 + Nodes(a)
    case LAnd(a, b) => 1 + Nodes(a) + Nodes(b)
    case LOr(a, b) => 1 + Nodes(a) + Nodes(b)
    case _ => 1
  }

  /** No operator has itself on its left. */
  predicate RightLinear(d: Expr) {
    match d
    case LNot(a) => RightLinear(a)
    case LAnd(a, b) => RightLinear(a) && RightLinear(b) && !a.LAnd?
    case LOr(a, b) => RightLinear(a) && RightLinear(b) && !a.LOr?
    case _ => true
  }

  lemma Associates(a: Expr, b: Expr, c: Expr)
    ensures SameMeaning(LOr(LOr(a, b), c), LOr(a, LOr(b, c)))
    ensures SameMeaning(LAnd(LAnd(a, b), c), LAnd(a, LAnd(b, c)))
  {}

  /** Turning a chain keeps its operator and what is known of it. */
  predicate Turned(d: Expr, d': Expr) {
    && d'.LAnd? == d.LAnd? && d'.LOr? == d.LOr?
    && SelfContained(d') == SelfContained(d) && SideEffect(d') == SideEffect(d) && (ActionTree(d) ==> ActionTree(d'))
    && (d.LOr? && SideEffect(d.b) ==> SideEffect(d'.b))
  }

  predicate TurnedForm(d: Expr, d': Expr) {
    && (Condition(d) ==> Condition(d')) && (PlainTests(d) ==> PlainTests(d'))
    && (Tabular(d) ==> Tabular(d')) && (Raised(d) ==> Raised(d'))
  }

  predicate Straightened(d: Expr, d': Expr) { Turned(d, d') && TurnedForm(d, d') && Nodes(d') == Nodes(d) }

  lemma StraightTrans(a: Expr, b: Expr, c: Expr)
    requires Straightened(a, b) && Straightened(b, c)
    ensures Straightened(a, c)
  {}

  lemma StraightNot(a: Expr, a': Expr)
    requires Straightened(a, a')
    ensures Straightened(LNot(a), LNot(a'))
  {}

  lemma StraightAnd(a: Expr, a': Expr, b: Expr, b': Expr)
    requires Straightened(a, a') && Straightened(b, b')
    ensures Straightened(LAnd(a, b), LAnd(a', b'))
  {
    var d, d' := LAnd(a, b), LAnd(a', b');
    if Condition(a) { ConditionOpen(a'); }
    if Tabular(d) && !ActionTree(d) {
      assert Condition(a') && Tabular(b');
      assert Tabular(d');
    }
    if Raised(d) { assert Raised(d'); }
  }

  lemma StraightOr(a: Expr, a': Expr, b: Expr, b': Expr)
    requires Straightened(a, a') && Straightened(b, b')
    ensures Straightened(LOr(a, b), LOr(a', b'))
  {
    var d, d' := LOr(a, b), LOr(a', b');
    if Tabular(d) && !ActionTree(d) {
      assert Tabular(a') && Tabular(b');
      assert Tabular(d');
    }
  }

  lemma RotateOr(a: Expr, b: Expr, c: Expr)
    ensures Straightened(LOr(LOr(a, b), c), LOr(a, LOr(b, c)))
  {
    var l, r := LOr(a, b), LOr(b, c);
    assert SideEffect(l) == (SideEffect(a) || SideEffect(b)) && SideEffect(r) == (SideEffect(b) || SideEffect(c));
    RotateOrKnown(a, b, c, l, r);
    RotateOrForm(a, b, c, l, r);
  }

  lemma RotateOrSettling(x: Settling, y: Settling, z: Settling)
    ensures SettleOr(SettleOr(x, y), z) == SettleOr(x, SettleOr(y, z))
  {}

  lemma RotateOrKnown(a: Expr, b: Expr, c: Expr, l: Expr, r: Expr)
    requires l == LOr(a, b) && r == LOr(b, c)
    ensures SelfContained(LOr(l, c)) == SelfContained(LOr(a, r)) && (ActionTree(LOr(l, c)) ==> ActionTree(LOr(a, r)))
  {
    var x, y, z := SelfContained(a), SelfContained(b), SelfContained(c);
    RotateOrSettling(x, y, z);
    assert SelfContained(l) == SettleOr(x, y) && SelfContained(r) == SettleOr(y, z);
    assert ActionTree(l) == (ActionTree(a) && (x == Settled || ActionTree(b)));
    assert ActionTree(r) == (ActionTree(b) && (y == Settled || ActionTree(c)));
  }

  lemma RotateOrForm(a: Expr, b: Expr, c: Expr, l: Expr, r: Expr)
    requires l == LOr(a, b) && r == LOr(b, c) && (ActionTree(LOr(l, c)) ==> ActionTree(LOr(a, r)))
    requires SelfContained(LOr(l, c)) == SelfContained(LOr(a, r))
    ensures TurnedForm(LOr(l, c), LOr(a, r))
  {
    assert Condition(l) == (Condition(a) && Condition(b)) && Condition(r) == (Condition(b) && Condition(c));
    assert PlainTests(l) == (PlainTests(a) && PlainTests(b)) && PlainTests(r) == (PlainTests(b) && PlainTests(c));
    assert Raised(l) == (Raised(a) && Raised(b)) && Raised(r) == (Raised(b) && Raised(c));
    if Tabular(LOr(l, c)) && !ActionTree(LOr(l, c)) {
      assert Tabular(l) && Tabular(c);
      assert !ActionTree(l);
      assert Tabular(a) && Tabular(b);
      assert Tabular(r);
    }
  }

  lemma RotateAnd(a: Expr, b: Expr, c: Expr)
    ensures Straightened(LAnd(LAnd(a, b), c), LAnd(a, LAnd(b, c)))
  {
    var l, r := LAnd(a, b), LAnd(b, c);
    assert SideEffect(l) == (SideEffect(a) || SideEffect(b)) && SideEffect(r) == (SideEffect(b) || SideEffect(c));
    RotateAndKnown(a, b, c, l, r);
    RotateAndForm(a, b, c, l, r);
  }

  lemma RotateAndSettling(x: Settling, y: Settling, z: Settling)
    ensures SettleAnd(SettleAnd(x, y), z) == SettleAnd(x, SettleAnd(y, z))
  {}

  lemma RotateAndKnown(a: Expr, b: Expr, c: Expr, l: Expr, r: Expr)
    requires l == LAnd(a, b) && r == LAnd(b, c)
    ensures SelfContained(LAnd(l, c)) == SelfContained(LAnd(a, r)) && (ActionTree(LAnd(l, c)) ==> ActionTree(LAnd(a, r)))
  {
    var x, y, z := SelfContained(a), SelfContained(b), SelfContained(c);
    RotateAndSettling(x, y, z);
    assert SelfContained(l) == SettleAnd(x, y) && SelfContained(r) == SettleAnd(y, z);
    assert ActionTree(l) == (ActionTree(a) && (x == Settled || ActionTree(b)));
    assert ActionTree(r) == (ActionTree(b) && (y == Settled || ActionTree(c)));
  }

  lemma RotateRaised(a: Expr, b: Expr, c: Expr, l: Expr, r: Expr)
    requires l == LAnd(a, b) && r == LAnd(b, c)
    ensures Raised(LAnd(l, c)) ==> Raised(LAnd(a, r))
  {
    if Raised(LAnd(l, c)) {
      assert Raised(l) && Raised(c);
      assert Raised(r);
    }
  }

  lemma RotateAndForm(a: Expr, b: Expr, c: Expr, l: Expr, r: Expr)
    requires l == LAnd(a, b) && r == LAnd(b, c) && (ActionTree(LAnd(l, c)) ==> ActionTree(LAnd(a, r)))
    requires SelfContained(LAnd(l, c)) == SelfContained(LAnd(a, r))
    ensures TurnedForm(LAnd(l, c), LAnd(a, r))
  {
    assert Condition(l) == (Condition(a) && Condition(b)) && Condition(r) == (Condition(b) && Condition(c));
    assert PlainTests(l) == (PlainTests(a) && PlainTests(b)) && PlainTests(r) == (PlainTests(b) && PlainTests(c));
    if Tabular(LAnd(l, c)) && !ActionTree(LAnd(l, c)) {
      assert Condition(l) && Tabular(c);
      ConditionOpen(b);
      assert Tabular(r);
    }
    RotateRaised(a, b, c, l, r);
  }

  /** Makes chains lean right, whatever they count or decide. */
  method Linearize(d: Expr) returns (d': Expr)
    ensures SameMeaning(d, d') && RightLinear(d') && Straightened(d, d')
    decreases Nodes(d)
  {
    d' := d;
    while (d'.LAnd? && d'.a.LAnd?) || (d'.LOr? && d'.a.LOr?)
      invariant SameMeaning(d, d') && Straightened(d, d')
      decreases if d'.LAnd? || d'.LOr? then Nodes(d'.a) else 0
    {
      ghost var before := d';
      Associates(d'.a.a, d'.a.b, d'.b);
      if d'.LAnd? { RotateAnd(d'.a.a, d'.a.b, d'.b); } else { RotateOr(d'.a.a, d'.a.b, d'.b); }
      d' := if d'.LAnd? then LAnd(d'.a.a, LAnd(d'.a.b, d'.b)) else LOr(d'.a.a, LOr(d'.a.b, d'.b));
      SameMeaningTrans(d, before, d');
      StraightTrans(d, before, d');
    }
    ghost var chain := d';
    match d' {
      case LNot(a) =>
        var a' := Linearize(a);
        CongruentNot(a, a');
        StraightNot(a, a');
        d' := LNot(a');
      case LAnd(a, b) =>
        var a' := Linearize(a);
        var b' := Linearize(b);
        CongruentAnd(a, a', b, b');
        StraightAnd(a, a', b, b');
        d' := LAnd(a', b');
      case LOr(a, b) =>
        var a' := Linearize(a);
        var b' := Linearize(b);
        CongruentOr(a, a', b, b');
        StraightOr(a, a', b, b');
        d' := LOr(a', b');
      case _ =>
    }
    SameMeaningTrans(d, chain, d');
    StraightTrans(d, chain, d');
  }

  /** A normal expression may not be normal once its chains are turned: what now follows
      the `||` always decides, which would have been a reason to distribute. */
  lemma NormalNotLinear(p: Term, c: nat)
    ensures
      var test, count, drop, next := Compare(EQ, p, c), CountOn(0), Decide(Drop), Decide(Continue);
      var d, d' := LAnd(LAnd(LOr(test, drop), count), next), LAnd(LOr(test, drop), LAnd(count, next));
      Normal(d) && Straightened(d, d') && !Normal(d') && SafeLeft(test, drop, LAnd(count, next))
  {
    var test, count, drop, next := Compare(EQ, p, c), CountOn(0), Decide(Drop), Decide(Continue);
    var l := LOr(test, drop);
    assert SelfContained(test) == Open && SelfContained(l) == NeverFalse && Normal(test) && Normal(drop);
    assert !SafeLeft(test, drop, count) && Normal(l) && AndDone(l, count);
    assert SelfContained(LAnd(l, count)) == NeverFalse;
    assert Normal(LAnd(l, count));
    RotateAnd(l, count, next);
    assert SelfContained(LAnd(count, next)) == Settled;
    assert !AndDone(l, LAnd(count, next));
  }

  /** One turn of a chain keeps a normal form, except an `&&` chain with `||` in front
      of what is never false and then decides. */
  lemma TurnNormal(a: Expr, b: Expr, c: Expr)
    ensures Normal(LOr(LOr(a, b), c)) <==> Normal(LOr(a, LOr(b, c)))
    ensures Normal(LAnd(LAnd(a, b), c)) ==>
      (Normal(LAnd(a, LAnd(b, c))) <==> !(a.LOr? && SelfContained(b) == NeverFalse && SelfContained(c) == Settled))
  {
    var l, r := LAnd(a, b), LAnd(b, c);
    assert Normal(LAnd(l, c)) == (Normal(l) && Normal(c) && AndDone(l, c)) && Normal(l) == (Normal(a) && Normal(b) && AndDone(a, b));
    assert Normal(LAnd(a, r)) == (Normal(a) && Normal(r) && AndDone(a, r)) && Normal(r) == (Normal(b) && Normal(c) && AndDone(b, c));
    assert SelfContained(l) == SettleAnd(SelfContained(a), SelfContained(b));
    assert SelfContained(r) == SettleAnd(SelfContained(b), SelfContained(c));
    assert Normal(LOr(LOr(a, b), c)) == (Normal(LOr(a, b)) && Normal(c)) && Normal(LOr(a, LOr(b, c))) == (Normal(a) && Normal(LOr(b, c)));
  }

  /** Both steps, on any expression: chains lean right, and `||` is left below `&&` only
      as in `Raised`. A plain condition ends up as an `||` chain of `&&` chains. The
      meaning is kept if bubbling is careful. */
  method IflibNormalize(d: Expr) returns (d': Expr)
    ensures RightLinear(d') && Raised(d') && Straightened(Bubble(d), d')
    ensures Careful(d) || (CountFree(d) && !Escapes(d)) ==> SameMeaning(d, d')
    ensures !SideEffect(d) ==> SameMeaning(d, d') && Disjunctive(d')
    ensures (Table(d) ==> SameMeaning(d, d') && Tabular(d')) && (PlainTests(d) ==> PlainTests(d'))
  {
    var e := BubbleOr(d);
    NormalRaised(e);
    if Trusted(d) { TrustedCareful(d); }
    if Table(d) { TableTabular(e); }
    d' := Linearize(e);
    if !SideEffect(d) { Plain(d); TrustedCareful(d); RaisedCondition(d'); }
    if CountFree(d) && !Escapes(d) { EscapeFree(d); }
    if Careful(d) { SameMeaningTrans(d, e, d'); }
  }
}
