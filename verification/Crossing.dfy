/** What becomes of a packet bit that is tested on both sides of a conformance test. */
module Crossing {
  import opened Semantics
  import opened Bits
  import opened Expr
  import opened Graph
  import opened Static
  import opened Repeats
  import opened Rules
  import opened BitFsm
  import opened MaskedTests
  import opened BitTree
  import opened IflibBit

  /** A rule for a path that asks for both values of a bit matches some packet, although
      none takes the path. */
  lemma RepeatMisleads(steps: seq<Step>, sorted: seq<Step>, s: Step, t: Step) returns (env: Env)
    requires AscendingBits(sorted) && (forall x | x in sorted :: x in steps) && forall x | x in steps :: NumberIn(x.bit, sorted)
    requires s in steps && t in steps && s.group == t.group && s.bit == t.bit && s.val != t.val
    ensures StepsHold(sorted, env) && forall e :: !StepsHold(steps, e)
  {
    SortExact(steps, sorted);
    assert forall e :: StepHolds(s, e) != StepHolds(t, e);
    env :| StepsHold(sorted, env) != StepsHold(steps, env);
  }

  // ----- an expression -----

  /** Bit 7 of the first byte. */
  function Low7(group: int): Expr { Compare(EQ, Field7(group), 1) }

  function Field7(group: int): Term { MaskRight(Access(group, 0, 8), 1) }

  /** Class `a` or `b`, depending on that bit. */
  function Side(group: int, a: nat, b: nat): Expr { LOr(LAnd(Low7(group), Decide(Class(a))), Decide(Class(b))) }

  /** Packets that conform go to class 1 or 2, others to class 3 or 4, depending on the
      same bit. */
  function Crossed(group: int): Expr { LOr(LAnd(ConformTo(0), Side(group, 1, 2)), Side(group, 3, 4)) }

  /** Its graph once all tests are above the meters. */
  function Bubbled(group: int): Store {
    [Leaf(Class(1)), Leaf(Class(2)), Leaf(Class(3)), Leaf(Class(4)),
     Conform(0, 0, 2), Conform(0, 1, 2), Conform(0, 0, 3), Conform(0, 1, 3),
     Data(group, 7, 4, 5), Data(group, 7, 6, 7), Data(group, 7, 8, 9)]
  }

  lemma Low7Value(group: int, env: Env, h: Hist)
    ensures Eval(Low7(group), env, h) == Value(TruthOf(env.bit(group, 7)), h)
  {
    var n := BYTE;
    var f := FieldValue(env, group, 0, n);
    FieldBit(env, group, 0, n, 0);
    AndPow2(f, 0);
    assert Access(group, 0, 8) == Access(group, 0, n);
    assert TermValue(Access(group, 0, n), env) == f;
    assert TermValue(Field7(group), env) == And(f, 1);
  }

  lemma SideValue(group: int, a: nat, b: nat, env: Env, h: Hist)
    ensures Eval(Side(group, a, b), env, h) == Value(Taken(Class(if env.bit(group, 7) then a else b)), h)
  {
    Low7Value(group, env, h);
    assert Eval(LAnd(Low7(group), Decide(Class(a))), env, h) == if env.bit(group, 7) then Value(Taken(Class(a)), h) else Value(False, h);
  }

  lemma CrossedValue(group: int, env: Env, h: Hist)
    ensures
      var bit, c := env.bit(group, 7), Conforms(env, h, 0);
      Eval(Crossed(group), env, h) == Value(Taken(Class(if c then (if bit then 1 else 2) else if bit then 3 else 4)), h)
  {
    SideValue(group, 1, 2, env, h);
    SideValue(group, 3, 4, env, h);
    var t := Side(group, 1, 2);
    assert Eval(LAnd(ConformTo(0), t), env, h) == if Conforms(env, h, 0) then Eval(t, env, h) else Value(False, h);
  }

  lemma BubbledRuns(group: int, env: Env, h: Hist)
    ensures Acyclic(Bubbled(group)) && Run(Bubbled(group), 10, env, h) == Outcome(Eval(Crossed(group), env, h))
  {
    BubbledAcyclic(group);
    CrossedValue(group, env, h);
    var s, bit, c := Bubbled(group), env.bit(group, 7), Conforms(env, h, 0);
    var mid, low := if bit then 8 else 9, if bit then 4 else 7;
    EdgeDown(s, 10, bit);
    assert Run(s, 10, env, h) == Run(s, mid, env, h);
    EdgeDown(s, mid, bit);
    assert Run(s, mid, env, h) == Run(s, low, env, h);
    EdgeDown(s, low, c);
    assert Run(s, low, env, h) == Run(s, Edge(s[low], c), env, h);
  }

  lemma BubbledAcyclic(group: int)
    ensures Acyclic(Bubbled(group))
  {
    var s, rk := Bubbled(group), [0, 0, 0, 0, 1, 1, 1, 1, 2, 2, 3];
    forall i: Ref, br | i < |s| ensures Below(s, rk, i, br) {}
    assert Ranked(s, rk);
  }

  /** The graph computes the expression, has its tests above the meters, and a path that
      asks for both values of the bit: so a rule for that path takes packets that the
      graph sends elsewhere. */
  lemma CrossedFails(group: int, sorted: seq<Step>) returns (env: Env)
    requires
      var steps := [Step(group, 7, true), Step(group, 7, false)];
      AscendingBits(sorted) && (forall x | x in sorted :: x in steps) && forall x | x in steps :: NumberIn(x.bit, sorted)
    ensures !KeptApart(Crossed(group), {}, {})
    ensures Acyclic(Bubbled(group)) && !NoRepeat(Bubbled(group), 10, {})
    ensures forall e, h :: Run(Bubbled(group), 10, e, h) == Outcome(Eval(Crossed(group), e, h))
    ensures StepsHold(sorted, env) && Run(Bubbled(group), 10, env, []) != Run(Bubbled(group), 5, env, [])
  {
    var steps := [Step(group, 7, true), Step(group, 7, false)];
    CrossedTests(group);
    BubbledAcyclic(group);
    BubbledRepeats(group);
    forall e, h ensures Run(Bubbled(group), 10, e, h) == Outcome(Eval(Crossed(group), e, h)) { BubbledRuns(group, e, h); }
    var some := RepeatMisleads(steps, sorted, steps[0], steps[1]);
    env := Env(some.bit, (_, _) => some.bit(group, 7));
    assert StepsHold(sorted, env) by {
      forall x | x in sorted ensures StepHolds(x, env) { assert StepHolds(x, some); }
    }
    BubbledRuns(group, env, []);
    SentElsewhere(group, env);
  }

  /** Where the graph and the node at the end of the path send the packet. */
  lemma SentElsewhere(group: int, env: Env)
    requires env.conf(0, 0) == env.bit(group, 7)
    ensures Acyclic(Bubbled(group)) && Run(Bubbled(group), 10, env, []) != Run(Bubbled(group), 5, env, [])
  {
    BubbledRuns(group, env, []);
    CrossedValue(group, env, []);
    var s, bit := Bubbled(group), env.bit(group, 7);
    assert Conforms(env, [], 0) == bit;
    EdgeDown(s, 5, bit);
    assert Run(s, 5, env, []) == Run(s, Edge(s[5], bit), env, []) == Result(Some(Class(if bit then 2 else 3)), []);
  }

  lemma BubbledRepeats(group: int)
    requires Acyclic(Bubbled(group))
    ensures !NoRepeat(Bubbled(group), 10, {})
  {
    var s := Bubbled(group);
    EdgeDown(s, 10, true);
    assert NoRepeat(s, 10, {}) ==> NoRepeat(s, 8, {} + Tests(s[10]));
    assert (group, 7) in Tests(s[8]) && (group, 7) in Tests(s[10]);
  }

  lemma SideTests(group: int, a: nat, b: nat, f: set<Key>)
    ensures (group, 7) in TestedBy(Side(group, a, b), {}, f)
  {
    KeyOfLow7(group);
    var d := LAnd(Low7(group), Decide(Class(a)));
    assert TestedBy(Decide(Class(b)), {}, f) == {} == TestedBy(Decide(Class(a)), {}, {});
    assert TestedBy(d, {}, {}) == TestedBy(Low7(group), {}, {}) == FieldKeys(Field7(group)) + {} + {};
  }

  lemma CrossedTests(group: int)
    ensures !KeptApart(Crossed(group), {}, {})
  {
    var t, f := Side(group, 1, 2), Side(group, 3, 4);
    var kf := TestedBy(f, {}, {});
    SideTests(group, 3, 4, {});
    SideTests(group, 1, 2, kf);
    assert KeptApart(LAnd(ConformTo(0), t), {}, kf) ==> KeptApart(ConformTo(0), TestedBy(t, {}, kf), kf);
  }

  lemma KeyOfLow7(group: int)
    ensures (group, 7) in FieldKeys(Field7(group))
  {
    var x, n := Field7(group), BYTE;
    assert ChainBase(x) == ChainBase(x.x) == x.x == Access(group, 0, n);
    OnesBit(WORD, 0);
    BitAnd(1, ChainMask(x.x, WORD), 0);
    assert Bit(Masks(x), 0);
    KeysStep(group, 0, n, Masks(x), 0);
    KeysGrow(group, 0, n, Masks(x), 1, n);
  }

  lemma {:induction false} KeysGrow(group: int, offset: nat, length: nat, mask: nat, n: nat, m: nat)
    requires n <= m
    ensures KeysTo(group, offset, length, mask, n) <= KeysTo(group, offset, length, mask, m)
    decreases m
  {
    if n < m {
      KeysGrow(group, offset, length, mask, n, m - 1);
      KeysStep(group, offset, length, mask, m - 1);
    }
  }

  // ----- what the passes make of it -----

  /** Packets that differ only in a bit not tested are treated alike. */
  lemma {:induction false} Untested(s: Store, r: Ref, k: Key, env: Env, env': Env, h: Hist)
    requires Acyclic(s) && r < |s| && k !in Tested(s, r) && env.conf == env'.conf
    requires forall g, n :: (g, n) != k ==> env.bit(g, n) == env'.bit(g, n)
    ensures Run(s, r, env, h) == Run(s, r, env', h)
    decreases Rank(s)[r]
  {
    var n := s[r];
    if n.Data? || n.Conform? || n.Count? {
      var br := Takes(n, env, h);
      assert Tests(n) <= Tested(s, r);
      assert n.Data? ==> (n.group, n.bit) != k;
      EdgeDown(s, r, br);
      var h' := if n.Count? then h + [n.bucket] else h;
      Untested(s, Edge(n, br), k, env, env', h');
    }
  }

  /** Whose outcome depends on the bit either way tests it on both sides. */
  lemma BothSides(s: Store, r: Ref, group: int)
    requires Acyclic(s) && r < |s| && s[r].Conform?
    requires forall env, h :: Run(s, r, env, h) == Outcome(Eval(Crossed(group), env, h))
    ensures !Separate(s, r)
  {
    var k := (group, 7);
    forall br ensures HasEdge(s[r], br) && Edge(s[r], br) < |s| && k in Tested(s, Edge(s[r], br)) {
      EdgeDown(s, r, br);
      var next := Edge(s[r], br);
      var one, zero := Env((g, n) => (g, n) == k, (_, _) => br), Env((_, _) => false, (_, _) => br);
      CrossedValue(group, one, []);
      CrossedValue(group, zero, []);
      assert Run(s, r, one, []) == Run(s, next, one, []) && Run(s, r, zero, []) == Run(s, next, zero, []);
      if k !in Tested(s, next) { Untested(s, next, k, one, zero, []); }
    }
    assert Edge(s[r], true) == s[r].t && Edge(s[r], false) == s[r].f;
  }

  /** Whatever graph is built of the expression, once its tests are above the meters a
      path tests the bit twice. */
  method BuildCrossed(group: int) returns (fsm: Fsm, root: Ref)
    ensures fresh(fsm) && Acyclic(fsm.store) && root < |fsm.store|
    ensures IsStatic(fsm.store, root) && !NoRepeat(fsm.store, root, {})
    ensures forall env, h :: Run(fsm.store, root, env, h) == Outcome(Eval(Crossed(group), env, h))
  {
    fsm := new Fsm();
    var end := fsm.Alloc(Null, 0);
    CrossedTakes(group);
    root := Build(fsm, Crossed(group), end, end);
    ghost var built, first := fsm.store, root;
    forall env, h ensures Run(built, first, env, h) == Outcome(Eval(Crossed(group), env, h)) {
      assert Run(built, first, env, h) == Then(built, Eval(Crossed(group), env, h), end, end, env);
      CrossedValue(group, env, h);
    }
    BothSides(built, first, group);
    ghost var weights := WeightExists(fsm.store);
    fsm.rank := weights;
    root := fsm.BubbleStatic(root);
    WeightedRanked(fsm.store, fsm.rank);
    forall env, h ensures Run(fsm.store, root, env, h) == Outcome(Eval(Crossed(group), env, h)) {
      assert Run(fsm.store, root, env, h) == Run(built, first, env, h);
    }
  }

  lemma SideTakes(group: int, a: nat, b: nat)
    ensures Equalities(Side(group, a, b))
  {
    var x, n := Field7(group), BYTE;
    assert x.x == Access(group, 0, n);
    assert ChainBase(x) == ChainBase(x.x) == x.x;
    Pow2Mono(1, n);
    Pow2Mono(n, WORD);
    assert Equalities(Low7(group));
    assert Equalities(LAnd(Low7(group), Decide(Class(a))));
  }

  lemma CrossedTakes(group: int)
    ensures Equalities(Crossed(group)) && MeterFirst(Crossed(group))
  {
    var t, f := Side(group, 1, 2), Side(group, 3, 4);
    SideTakes(group, 1, 2);
    SideTakes(group, 3, 4);
    assert Equalities(LAnd(ConformTo(0), t)) && MeterFirst(LAnd(ConformTo(0), t));
  }
}
