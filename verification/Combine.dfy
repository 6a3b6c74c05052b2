/** From the `if`s of a queuing discipline to one expression, and on to rules. */
module Combine {
  import opened Semantics
  import opened Expr
  import opened Rules
  import opened Negation
  import opened IflibBit
  import opened Repeats
  import BitTree

  /** An `if` and the class it selects for; selecting for the drop class means to drop. */
  datatype If = If(expr: Expr, target: Decision)

  // ----- what the filters mean, tried one by one -----

  /** A decision inside an `if` selects the class the `if` belongs to. */
  function Retarget(d: Decision, target: Decision): Decision {
    if target == Drop then Drop else if d.Class? then target else d
  }

  function Try(f: If, env: Env, h: Hist): Value {
    var v := Eval(f.expr, env, h);
    match v.truth
    case True => Value(Taken(Retarget(f.target, f.target)), v.hist)
    case False => v
    case Taken(d) => Value(Taken(Retarget(d, f.target)), v.hist)
  }

  /** The first `if` that comes to a decision wins. */
  function Tried(ifs: seq<If>, env: Env, h: Hist): (w: Value)
    ensures !w.truth.True?
  {
    if ifs == [] then Value(False, h)
    else
      var v := Try(ifs[0], env, h);
      if v.truth.Taken? then v else Tried(ifs[1..], env, v.hist)
  }

  function Verdict(ifs: seq<If>, default: Decision, env: Env, h: Hist): Value {
    var v := Tried(ifs, env, h);
    if v.truth.Taken? then v else Value(Taken(default), v.hist)
  }

  lemma {:induction false} TriedLast(ifs: seq<If>, f: If, env: Env, h: Hist)
    ensures Tried(ifs + [f], env, h) ==
      var v := Tried(ifs, env, h); if v.truth.Taken? then v else Try(f, env, v.hist)
    decreases |ifs|
  {
    if ifs == [] {
      assert ([] + [f])[1..] == [];
    } else {
      assert (ifs + [f])[1..] == ifs[1..] + [f];
      TriedLast(ifs[1..], f, env, Try(ifs[0], env, h).hist);
    }
  }

  // ----- tests on the two sides of a conformance test -----

  /** The packet bits that may be tested from the first of the filters on. */
  function TestsFrom(ifs: seq<If>): set<Key> {
    if ifs == [] then {} else BitTree.TestedBy(ifs[0].expr, {}, TestsFrom(ifs[1..]))
  }

  /** No filter tests a bit on both sides of a conformance test, counting what the filters
      after it test as being on the side where it does not decide. */
  predicate FiltersApart(ifs: seq<If>) {
    ifs == [] || (FiltersApart(ifs[1..]) && BitTree.KeptApart(ifs[0].expr, {}, TestsFrom(ifs[1..])))
  }

  lemma {:induction false} LaterApart(ifs: seq<If>, i: nat)
    requires FiltersApart(ifs) && i <= |ifs|
    ensures FiltersApart(ifs[i..])
    decreases |ifs|
  {
    if i > 0 {
      LaterApart(ifs[1..], i - 1);
      assert ifs[1..][i - 1..] == ifs[i..];
    } else {
      assert ifs[i..] == ifs;
    }
  }

  // ----- one expression for all -----

  function ComplementLeaves(d: Expr, target: Decision): Expr {
    match d
    case Decide(x) => Decide(Retarget(x, target))
    case LNot(a) => LNot(ComplementLeaves(a, target))
    case LAnd(a, b) => LAnd(ComplementLeaves(a, target), ComplementLeaves(b, target))
    case LOr(a, b) => LOr(ComplementLeaves(a, target), ComplementLeaves(b, target))
    case _ => d
  }

  function ComplementDecisions(f: If): Expr {
    ComplementLeaves(LAnd(f.expr, Decide(f.target)), f.target)
  }

  lemma {:induction false} LeavesEval(d: Expr, target: Decision, env: Env, h: Hist)
    ensures Eval(ComplementLeaves(d, target), env, h) ==
      var v := Eval(d, env, h);
      if v.truth.Taken? then Value(Taken(Retarget(v.truth.decision, target)), v.hist) else v
    decreases d
  {
    match d
    case LNot(a) => LeavesEval(a, target, env, h);
    case LAnd(a, b) =>
      LeavesEval(a, target, env, h);
      LeavesEval(b, target, env, Eval(a, env, h).hist);
    case LOr(a, b) =>
      LeavesEval(a, target, env, h);
      LeavesEval(b, target, env, Eval(a, env, h).hist);
    case _ =>
  }

  lemma {:induction false} LeavesFit(d: Expr, target: Decision, group: int)
    requires Fits(d, group)
    ensures Fits(ComplementLeaves(d, target), group)
    decreases d
  {
    match d
    case LNot(a) => LeavesFit(a, target, group);
    case LAnd(a, b) => LeavesFit(a, target, group); LeavesFit(b, target, group);
    case LOr(a, b) => LeavesFit(a, target, group); LeavesFit(b, target, group);
    case _ =>
  }

  lemma {:induction false} LeavesTest(d: Expr, target: Decision, t: set<Key>, f: set<Key>)
    ensures BitTree.TestedBy(ComplementLeaves(d, target), t, f) == BitTree.TestedBy(d, t, f)
    ensures BitTree.KeptApart(ComplementLeaves(d, target), t, f) == BitTree.KeptApart(d, t, f)
    ensures MayBeTrue(ComplementLeaves(d, target)) == MayBeTrue(d) && MayBeFalse(ComplementLeaves(d, target)) == MayBeFalse(d)
    decreases d
  {
    match d
    case LNot(a) => LeavesTest(a, target, f, t);
    case LAnd(a, b) => LeavesTest(b, target, t, f); LeavesTest(a, target, BitTree.TestedBy(b, t, f), f);
    case LOr(a, b) => LeavesTest(b, target, t, f); LeavesTest(a, target, t, BitTree.TestedBy(b, t, f));
    case _ =>
  }

  /** A filter made to decide tests what it tested. */
  lemma ComplementTests(x: If, f: set<Key>)
    ensures BitTree.TestedBy(ComplementDecisions(x), {}, f) == BitTree.TestedBy(x.expr, {}, f)
    ensures BitTree.KeptApart(ComplementDecisions(x), {}, f) == BitTree.KeptApart(x.expr, {}, f)
  {
    var d := LAnd(x.expr, Decide(x.target));
    LeavesTest(d, x.target, {}, f);
    assert BitTree.TestedBy(Decide(x.target), {}, f) == {} && BitTree.KeptApart(Decide(x.target), {}, f);
    assert BitTree.TestedBy(d, {}, f) == BitTree.TestedBy(x.expr, {}, f);
  }

  lemma ComplementTries(f: If, env: Env, h: Hist)
    ensures Eval(ComplementDecisions(f), env, h) == Try(f, env, h)
  {
    var v := Eval(f.expr, env, h);
    LeavesEval(LAnd(f.expr, Decide(f.target)), f.target, env, h);
    assert Eval(LAnd(f.expr, Decide(f.target)), env, h) == if v.truth.True? then Value(Taken(f.target), v.hist) else v;
  }

  /** What an `if` comes to decides for the class it belongs to, whatever class is named
      inside, but an inner `drop` stays one, and an inner `continue` does. An `if` of the
      drop class drops whatever it does not leave alone. */
  lemma ComplementMeans(f: If, env: Env, h: Hist)
    ensures var v, w := Eval(f.expr, env, h), Eval(ComplementDecisions(f), env, h);
      && w.hist == v.hist && !w.truth.True? && (w.truth.False? <==> v.truth.False?)
      && (v.truth == Taken(Drop) ==> w.truth == Taken(Drop))
      && (f.target == Drop && !v.truth.False? ==> w.truth == Taken(Drop))
      && (f.target != Drop && v.truth == Taken(Continue) ==> w.truth == Taken(Continue))
      && (f.target != Drop && (v.truth.True? || (v.truth.Taken? && v.truth.decision.Class?)) ==> w.truth == Taken(f.target))
  {
    ComplementTries(f, env, h);
  }

  /** A packet comes to the class of one of the filters, or to none. */
  lemma {:induction false} JoinedClasses(ifs: seq<If>, env: Env, h: Hist)
    requires ifs != []
    ensures var w := Eval(Joined(ifs), env, h);
      w.truth.Taken? && w.truth.decision.Class? ==> exists f :: f in ifs && f.target == w.truth.decision
  {
    var k := |ifs| - 1;
    assert ifs[k] in ifs && forall f | f in ifs[..k] :: f in ifs;
    if k == 0 {
      ComplementMeans(ifs[0], env, h);
    } else {
      JoinedClasses(ifs[..k], env, h);
      ComplementMeans(ifs[k], env, Eval(Joined(ifs[..k]), env, h).hist);
    }
  }

  /** Every negation in an alternative decides one way or the other as long as
      something that decides follows. */
  ghost predicate Alternative(d: Expr) {
    !MayBeTrue(d) && forall n :: Anchored(d, n, true)
  }

  lemma ComplementAlternative(f: If)
    ensures Alternative(ComplementDecisions(f))
  {
    var e := ComplementLeaves(f.expr, f.target);
    DecidingAnchors(e);
    assert !MayBeTrue(Decide(Retarget(f.target, f.target)));
    var x := Decide(f.target);
    assert ComplementLeaves(x, f.target) == Decide(Retarget(f.target, f.target));
    assert ComplementDecisions(f) == LAnd(e, Decide(Retarget(f.target, f.target)));
  }

  lemma AlternativesJoin(a: Expr, b: Expr)
    requires Alternative(a) && Alternative(b)
    ensures Alternative(LOr(a, b))
  {
    forall n ensures Anchored(LOr(a, b), n, true) {
      assert Anchored(b, n, true) && Anchored(a, n, true) && DecidesAfter(b, n, true);
    }
  }

  /** All `if`s joined with `||`, in order. */
  function Joined(ifs: seq<If>): Expr
    requires ifs != []
    decreases |ifs|
  {
    var k := |ifs| - 1;
    if k == 0 then ComplementDecisions(ifs[0]) else LOr(Joined(ifs[..k]), ComplementDecisions(ifs[k]))
  }

  method IflibCombine(ifs: seq<If>) returns (d: Expr)
    requires ifs != []
    ensures d == Joined(ifs)
    ensures forall env, h :: Eval(d, env, h) == Tried(ifs, env, h)
  {
    d := ComplementDecisions(ifs[0]);
    assert ifs[..1] == [ifs[0]];
    for i := 1 to |ifs|
      invariant d == Joined(ifs[..i])
    {
      var e := ComplementDecisions(ifs[i]);
      assert ifs[..i + 1][..i] == ifs[..i] && ifs[..i + 1][i] == ifs[i];
      d := LOr(d, e);
    }
    assert ifs[..|ifs|] == ifs;
    forall env, h ensures Eval(d, env, h) == Tried(ifs, env, h) { JoinedTries(ifs, env, h); }
  }

  /** The joined expression tries the filters one by one. */
  lemma {:induction false} JoinedTries(ifs: seq<If>, env: Env, h: Hist)
    requires ifs != []
    ensures Eval(Joined(ifs), env, h) == Tried(ifs, env, h)
    decreases |ifs|
  {
    var k := |ifs| - 1;
    assert ifs == ifs[..k] + [ifs[k]];
    ComplementTries(ifs[k], env, Tried(ifs[..k], env, h).hist);
    TriedLast(ifs[..k], ifs[k], env, h);
    if k > 0 { JoinedTries(ifs[..k], env, h); } else { assert ifs[..k] == []; }
  }

  lemma {:induction false} JoinedAlternative(ifs: seq<If>)
    requires ifs != []
    ensures Alternative(Joined(ifs))
    decreases |ifs|
  {
    var k := |ifs| - 1;
    ComplementAlternative(ifs[k]);
    if k > 0 {
      JoinedAlternative(ifs[..k]);
      AlternativesJoin(Joined(ifs[..k]), ComplementDecisions(ifs[k]));
    }
  }

  lemma {:induction false} JoinedFits(ifs: seq<If>, group: int)
    requires ifs != [] && forall i | 0 <= i < |ifs| :: Fits(ifs[i].expr, group)
    ensures Fits(Joined(ifs), group)
    decreases |ifs|
  {
    var k := |ifs| - 1;
    LeavesFit(LAnd(ifs[k].expr, Decide(ifs[k].target)), ifs[k].target, group);
    if k > 0 { JoinedFits(ifs[..k], group); }
  }

  /** The first filters are kept apart from those that follow. */
  lemma {:induction false} JoinedApart(ifs: seq<If>, i: nat)
    requires FiltersApart(ifs) && 0 < i <= |ifs|
    ensures BitTree.KeptApart(Joined(ifs[..i]), {}, TestsFrom(ifs[i..]))
    decreases i
  {
    var k := i - 1;
    LaterApart(ifs, k);
    assert ifs[..i][..k] == ifs[..k] && ifs[..i][k] == ifs[k];
    assert ifs[k..][0] == ifs[k] && ifs[k..][1..] == ifs[i..];
    ComplementTests(ifs[k], TestsFrom(ifs[i..]));
    if k > 0 { JoinedApart(ifs, k); }
  }

  // ----- the way to rules -----

  lemma WithDefault(d: Expr, default: Decision, group: int)
    requires Alternative(d) && Fits(d, group)
    ensures var e := LOr(d, Decide(default)); Fits(e, group) && Anchored(e, false, false) && Decides(e)
  {
    var x := Decide(default);
    assert !MayBeTrue(x) && !MayBeFalse(x) && Anchored(x, false, false) && Fits(x, group);
    assert Anchored(d, false, true) && DecidesAfter(x, false, false);
  }

  /** Combines the `if`s, lets the default decide what they leave open, and removes
      negation. All packets, meter answers and earlier counts keep verdict and counts. */
  method Prepare(ifs: seq<If>, default: Decision, ghost group: int) returns (d: Expr)
    requires ifs != [] && forall i | 0 <= i < |ifs| :: Fits(ifs[i].expr, group)
    ensures forall env, h :: Eval(d, env, h) == Verdict(ifs, default, env, h)
    ensures Positive(d) && Decides(d) && Fits(d, group) && (FiltersApart(ifs) ==> ApartIn(d))
  {
    d := IflibCombine(ifs);
    JoinedAlternative(ifs);
    JoinedFits(ifs, group);
    if FiltersApart(ifs) {
      JoinedApart(ifs, |ifs|);
      assert ifs[..|ifs|] == ifs && ifs[|ifs|..] == [];
    }
    ghost var combined := d;
    d := LOr(d, Decide(default));
    ghost var whole := d;
    assert Anchored(combined, false, true);
    WithDefault(combined, default, group);
    assert BitTree.TestedBy(Decide(default), {}, {}) == {} && BitTree.KeptApart(Decide(default), {}, {});
    assert ApartIn(whole) <==> ApartIn(combined);
    d := IflibNot(d, group);
    forall env, h ensures Eval(d, env, h) == Verdict(ifs, default, env, h) {
      assert Eval(Decide(default), env, Tried(ifs, env, h).hist).truth.Taken?;
      assert Eval(whole, env, h) == Verdict(ifs, default, env, h);
    }
  }

  /** Filters, all about one offset group, become actions and rules that take the decision
      of the first filter that takes one, and count what it counts, whatever the packet
      and the meters. No bit may be tested on both sides of a conformance test. */
  method CompileFilters(ifs: seq<If>, default: Decision, ghost group: int) returns (table: seq<Action>, rules: seq<Rule>)
    requires ifs != [] && FiltersApart(ifs) && forall i | 0 <= i < |ifs| :: Fits(ifs[i].expr, group)
    ensures forall env, h :: Classify(table, rules, env, h) == Outcome(Verdict(ifs, default, env, h))
    ensures RulesOf(rules, group)
  {
    var d := Prepare(ifs, default, group);
    PositiveFits(d, group);
    table, rules := Compile(d, group);
  }
}
