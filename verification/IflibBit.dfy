/** The single-bit algorithm from expression to rules. */
module IflibBit {
  import opened Semantics
  import opened Expr
  import opened Graph
  import opened Static
  import opened Shape
  import opened Repeats
  import opened Retests
  import opened Duplicates
  import opened Collapsing
  import opened Rules
  import opened Emission
  import opened BitFsm
  import opened BitTree

  /** What an expression that always takes a decision comes to. */
  function Outcome(v: Value): Result {
    Result(if v.truth.Taken? then Some(v.truth.decision) else None, v.hist)
  }

  /** Builds the graph of `d` and removes tests made before. Falling off the end of
      the expression leads to NULL. */
  method BuildClean(d: Expr, ghost group: int) returns (fsm: Fsm, root: Ref)
    requires Equalities(d) && AllIn(d, group) && !MayBeTrue(d) && !MayBeFalse(d)
    ensures fresh(fsm) && fsm.Valid() && root < |fsm.store|
    ensures fsm.number == map[] && fsm.table == [] && fsm.file == []
    ensures forall env, h :: Run(fsm.store, root, env, h) == Outcome(Eval(d, env, h))
    ensures NoRepeat(fsm.store, root, {}) && NoRetest(fsm.store, root, {}) && Plain(fsm.store, root, group)
    ensures KeptApart(d, {}, {}) ==> Separate(fsm.store, root)
  {
    fsm := new Fsm();
    var end := fsm.Alloc(Null, 0);
    root := Build(fsm, d, end, end);
    ghost var built := fsm.store;
    assert Tested(built, end) == {} && Separate(built, end);
    var walk := fsm.RemoveDuplicates(root, []);
    assert Seen(fsm.store, walk) == {} && Asked(fsm.store, walk) == {};
    assert FewerTests(built, root, fsm.store, root);
    forall env, h ensures Run(fsm.store, root, env, h) == Outcome(Eval(d, env, h)) {
      assert Run(built, root, env, h) == Then(built, Eval(d, env, h), end, end, env);
    }
  }

  /** ... and moves the tests above the meters. Unless a bit is tested on both sides of
      a conformance test, no path tests one twice afterwards. */
  method BuildStatic(d: Expr, ghost group: int) returns (fsm: Fsm, root: Ref)
    requires Equalities(d) && AllIn(d, group) && !MayBeTrue(d) && !MayBeFalse(d)
    ensures fresh(fsm) && fsm.Valid() && root < |fsm.store|
    ensures fsm.number == map[] && fsm.table == [] && fsm.file == []
    ensures forall env, h :: Run(fsm.store, root, env, h) == Outcome(Eval(d, env, h))
    ensures IsStatic(fsm.store, root) && Plain(fsm.store, root, group)
    ensures KeptApart(d, {}, {}) ==> NoRepeat(fsm.store, root, {})
  {
    fsm, root := BuildClean(d, group);
    ghost var clean, first := fsm.store, root;
    ghost var weights := WeightExists(fsm.store);
    fsm.rank := weights;
    root := fsm.BubbleStatic(root);
    WeightedRanked(fsm.store, fsm.rank);
    assert Plain(fsm.store, root, group) <==> Plain(clean, first, group);
    forall env, h ensures Run(fsm.store, root, env, h) == Outcome(Eval(d, env, h)) {
      assert Run(fsm.store, root, env, h) == Run(clean, first, env, h);
    }
  }

  /** ... and shares and collapses what is common. */
  method BuildReduced(d: Expr, ghost group: int) returns (fsm: Fsm, root: Ref, ghost used: set<Ref>)
    requires Equalities(d) && AllIn(d, group) && !MayBeTrue(d) && !MayBeFalse(d) && KeptApart(d, {}, {})
    ensures fresh(fsm) && fsm.Valid() && Closed(fsm.store, used) && root in used
    ensures fsm.number == map[] && fsm.table == [] && fsm.file == []
    ensures MetersLow(fsm.store, used) && InGroup(fsm.store, used, group)
    ensures NoRepeat(fsm.store, root, {}) && Choices(fsm.store, used)
    ensures forall env, h :: Run(fsm.store, root, env, h) == Outcome(Eval(d, env, h))
  {
    fsm, root := BuildStatic(d, group);
    ghost var s0, root0, used0 := fsm.store, root, Reach(fsm.store, root);
    ReachLive(s0, root, group);
    root, used := fsm.MergeCommon(root, used0);
    ghost var s1, root1 := fsm.store, root;
    root := fsm.CollapseCommon(root, used);
    OnAllReplaces(s1, root1, root);
    forall r | r in used ensures r < |fsm.store| && (fsm.store[r].Data? ==> fsm.store[r].group == group) {
      assert SameTest(fsm.store[r], s1[r]) && SameTest(s1[r], s0[r]);
    }
    forall env, h ensures Run(fsm.store, root, env, h) == Outcome(Eval(d, env, h)) {
      assert Run(s1, root1, env, h) == Run(s0, root0, env, h);
      assert Run(fsm.store, root, env, h) == Run(s1, root, env, h);
    }
  }

  /** Compiles `d` to numbered actions and rules. Read first-match they take the
      decision of the expression and perform its counts, for every packet and
      whatever the meters say. */
  method Compile(d: Expr, ghost group: int) returns (table: seq<Action>, rules: seq<Rule>)
    requires Equalities(d) && AllIn(d, group) && !MayBeTrue(d) && !MayBeFalse(d) && KeptApart(d, {}, {})
    ensures forall env, h :: Classify(table, rules, env, h) == Outcome(Eval(d, env, h))
    ensures forall env, h :: Eval(d, env, h).truth.Taken?
    ensures RulesOf(rules, group)
  {
    ghost var used;
    var fsm, root;
    fsm, root, used := BuildReduced(d, group);
    ghost var s0 := fsm.store;
    fsm.NumberActions(root, used);
    ghost var live := CoveredNodes(fsm.store, fsm.number, used);
    CoveredClosed(fsm.store, fsm.number, fsm.table, used);
    forall r, env, h | r in live && r < |fsm.store| && !fsm.store[r].Data?
      ensures r in fsm.number && Perform(fsm.table, fsm.number[r], env, h) == Run(fsm.store, r, env, h)
    {
      PerformIsRun(fsm.store, fsm.number, fsm.table, r, env, h);
    }
    fsm.SmartDump(root, live, group);
    table, rules := fsm.table, fsm.file;
    forall env, h ensures Eval(d, env, h).truth.Taken? { MayBeSound(d, env, h); }
    forall env, h ensures Classify(table, rules, env, h) == Outcome(Eval(d, env, h)) {
      assert Classify(fsm.table, fsm.file, env, h) == Run(s0, root, env, h);
    }
  }
}
