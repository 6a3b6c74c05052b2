/** Why the rules of `smart_dump` classify as the graph does: all packets going
    through one branch are dealt with by rules, then the branch can go. */
module Emission {
  import opened Semantics
  import opened Graph
  import opened Repeats
  import opened Shape
  import opened Rules

  /** The packet's way through the tests from `r` meets node `e`. */
  ghost predicate Passes(s: Store, r: Ref, env: Env, e: Ref)
    requires Acyclic(s) && r < |s|
    decreases Rank(s)[r]
  {
    r == e
    || (s[r].Data? && (EdgeDown(s, r, env.bit(s[r].group, s[r].bit));
                       Passes(s, Edge(s[r], env.bit(s[r].group, s[r].bit)), env, e)))
  }

  /** ... and leaves it by its branch `br`. */
  ghost predicate PassesOn(s: Store, r: Ref, env: Env, e: Ref, br: bool)
    requires Acyclic(s) && r < |s| && e < |s| && s[e].Data?
  {
    Passes(s, r, env, e) && env.bit(s[e].group, s[e].bit) == br
  }

  lemma {:induction false} PassesRun(s: Store, r: Ref, env: Env, e: Ref, br: bool, h: Hist)
    requires Acyclic(s) && r < |s| && e < |s| && s[e].Data? && PassesOn(s, r, env, e, br)
    ensures Edge(s[e], br) < |s| && Run(s, r, env, h) == Run(s, Edge(s[e], br), env, h)
    decreases Rank(s)[r]
  {
    EdgeDown(s, e, br);
    if r != e {
      var go := env.bit(s[r].group, s[r].bit);
      EdgeDown(s, r, go);
      PassesRun(s, Edge(s[r], go), env, e, br, h);
    }
  }

  lemma {:induction false} PassesRank(s: Store, r: Ref, env: Env, e: Ref)
    requires Acyclic(s) && r < |s| && e < |s| && Passes(s, r, env, e)
    ensures Rank(s)[e] <= Rank(s)[r]
    decreases Rank(s)[r]
  {
    if r != e {
      var go := env.bit(s[r].group, s[r].bit);
      EdgeDown(s, r, go);
      PassesRank(s, Edge(s[r], go), env, e);
    }
  }

  /** Branch `br` of test `p` is abandoned: both now lead where the other did. */
  ghost predicate Cut(s: Store, s': Store, p: Ref, br: bool) {
    p < |s| && s[p].Data? && Edge(s[p], !br) < |s| && s' == s[p := SetEdge(s[p], br, Edge(s[p], !br))]
  }

  lemma CutRanked(s: Store, s': Store, p: Ref, br: bool, rk: seq<nat>)
    requires Ranked(s, rk) && Cut(s, s', p, br)
    ensures Ranked(s', rk)
  {
    assert Below(s, rk, p, !br);
    RankedRedirect(s, s', p, br, Edge(s[p], !br), rk);
  }

  /** Below the tests nothing changes. */
  lemma {:induction false} CutLow(s: Store, s': Store, p: Ref, br: bool, live: set<Ref>, r: Ref, env: Env, h: Hist)
    requires Acyclic(s) && Acyclic(s') && Cut(s, s', p, br) && Closed(s, live) && MetersLow(s, live)
    requires r in live && r < |s| && !s[r].Data?
    ensures Run(s', r, env, h) == Run(s, r, env, h)
    decreases Rank(s)[r]
  {
    if !s[r].Leaf? {
      var go := Takes(s[r], env, h);
      EdgeDown(s, r, go);
      assert LowAt(s, r, go) && HasEdge(s[r], go);
      CutLow(s, s', p, br, live, Edge(s[r], go), env, After(s[r], h));
    }
  }

  /** Packets that do not take the abandoned branch fare as before. */
  lemma {:induction false} CutRun(s: Store, s': Store, p: Ref, br: bool, live: set<Ref>, r: Ref, env: Env, h: Hist)
    requires Acyclic(s) && Acyclic(s') && Cut(s, s', p, br) && Closed(s, live) && MetersLow(s, live)
    requires r in live && r < |s| && !PassesOn(s, r, env, p, br)
    ensures Run(s', r, env, h) == Run(s, r, env, h)
    decreases Rank(s)[r]
  {
    if s[r].Data? {
      var go := env.bit(s[r].group, s[r].bit);
      EdgeDown(s, r, go);
      assert HasEdge(s[r], go);
      var c := Edge(s[r], go);
      if r == p && Passes(s, c, env, p) { PassesRank(s, c, env, p); }
      CutRun(s, s', p, br, live, c, env, h);
    } else {
      CutLow(s, s', p, br, live, r, env, h);
    }
  }

  lemma {:induction false} CutNoRepeat(s: Store, s': Store, p: Ref, br: bool, r: Ref, seen: set<Key>)
    requires Acyclic(s) && Acyclic(s') && Cut(s, s', p, br) && r < |s| && NoRepeat(s, r, seen)
    ensures NoRepeat(s', r, seen)
    decreases Rank(s)[r]
  {
    forall go | HasEdge(s'[r], go)
      ensures Edge(s'[r], go) < |s'| && NoRepeat(s', Edge(s'[r], go), seen + Tests(s'[r]))
    {
      var was := if r == p then !br else go;
      EdgeDown(s, r, was);
      NoRepeatEdge(s, r, seen, was);
      CutNoRepeat(s, s', p, br, Edge(s[r], was), seen + Tests(s[r]));
    }
  }

  lemma CutShape(s: Store, s': Store, p: Ref, br: bool, live: set<Ref>, group: int)
    requires Cut(s, s', p, br) && Closed(s, live) && MetersLow(s, live) && InGroup(s, live, group) && p in live
    ensures Closed(s', live) && MetersLow(s', live) && InGroup(s', live, group)
  {
    assert HasEdge(s[p], !br);
    forall r, b | r in live && HasEdge(s'[r], b) ensures Edge(s'[r], b) in live {
      assert HasEdge(s[r], b) ==> Edge(s[r], b) in live;
    }
    forall r, b | r in live ensures LowAt(s', r, b) { assert LowAt(s, r, b); }
  }

  /** The live packet tests: every round leaves fewer. */
  ghost function LiveTests(s: Store, live: set<Ref>): set<Ref> {
    set r | r in live && r < |s| && s[r].Data?
  }

  lemma LiveTestsFall(s: Store, live: set<Ref>, s': Store, live': set<Ref>, gone: Ref)
    requires live' <= live && gone in live && gone !in live' && gone < |s| && s[gone].Data?
    requires |s'| == |s| && forall r | r in live' :: r < |s| && s'[r].Data? == s[r].Data?
    ensures |LiveTests(s', live')| < |LiveTests(s, live)|
  {
    var a, b := LiveTests(s', live'), LiveTests(s, live);
    assert a <= b && gone in b && gone !in a;
    SubsetSize(a, b - {gone});
  }

  lemma {:induction false} SubsetSize<T>(a: set<T>, b: set<T>)
    requires a <= b
    ensures |a| <= |b|
    decreases a
  {
    if a != {} {
      var x :| x in a;
      SubsetSize(a - {x}, b - {x});
    }
  }

  // ----- histories -----

  ghost function StepKeys(hist: seq<Step>): set<Key> {
    set s | s in hist :: (s.group, s.bit)
  }

  lemma StepKeysPush(hist: seq<Step>, s: Step)
    ensures StepKeys(hist + [s]) == StepKeys(hist) + {(s.group, s.bit)}
  {
    forall k ensures k in StepKeys(hist + [s]) <==> k in StepKeys(hist) + {(s.group, s.bit)} {
      if k in StepKeys(hist) { var x :| x in hist && k == (x.group, x.bit); assert x in hist + [s]; }
      if k == (s.group, s.bit) { assert s in hist + [s]; }
    }
  }

  /** Taking a further step asks for just that bit on top. */
  ghost predicate Narrows(hist: seq<Step>, s: Step) {
    forall env :: StepsHold(hist + [s], env) <==> StepsHold(hist, env) && StepHolds(s, env)
  }

  /** A further step of the same group on a bit not yet tested. */
  lemma HistoryPush(hist: seq<Step>, s: Step, group: int)
    requires OneGroup(hist, group) && DistinctBits(hist) && s.group == group && (s.group, s.bit) !in StepKeys(hist)
    ensures OneGroup(hist + [s], group) && DistinctBits(hist + [s])
    ensures Narrows(hist, s)
  {
    forall i | 0 <= i < |hist| ensures hist[i].bit != s.bit {
      assert hist[i] in hist;
      assert (hist[i].group, hist[i].bit) in StepKeys(hist);
    }
    forall env ensures StepsHold(hist + [s], env) <==> StepsHold(hist, env) && StepHolds(s, env) {
      if StepsHold(hist + [s], env) {
        assert s in hist + [s];
        forall x | x in hist ensures StepHolds(x, env) { assert x in hist + [s]; }
      }
    }
  }

  lemma SortedHolds(steps: seq<Step>, sorted: seq<Step>)
    requires (forall s | s in sorted :: s in steps) && (forall s | s in steps :: s in sorted)
    ensures forall env :: StepsHold(sorted, env) <==> StepsHold(steps, env)
  {}

  // ----- the rules for all ways through one branch -----

  /** The rules hold exactly of the packets that follow the walked steps and then
      go through branch `br` of `e`. */
  ghost predicate RulesFor(s: Store, r: Ref, hist: seq<Step>, e: Ref, br: bool, rules: seq<Rule>, action: nat)
    requires Acyclic(s) && r < |s| && e < |s| && s[e].Data?
  {
    && (forall i | 0 <= i < |rules| :: rules[i].action == action)
    && (forall env :: AnyHolds(rules, env) <==> StepsHold(hist, env) && PassesOn(s, r, env, e, br))
  }

  lemma AnyHoldsAppend(a: seq<Rule>, b: seq<Rule>, env: Env)
    ensures AnyHolds(a + b, env) <==> AnyHolds(a, env) || AnyHolds(b, env)
  {
    if AnyHolds(a, env) {
      var i :| 0 <= i < |a| && FieldsHold(a[i].fields, env);
      assert (a + b)[i] == a[i];
    }
    if AnyHolds(b, env) {
      var i :| 0 <= i < |b| && FieldsHold(b[i].fields, env);
      assert (a + b)[|a| + i] == b[i];
    }
  }

  lemma RulesForBranches(s: Store, r: Ref, hist: seq<Step>, e: Ref, br: bool, yes: seq<Rule>, no: seq<Rule>, action: nat)
    requires Acyclic(s) && r < |s| && e < |s| && s[e].Data? && s[r].Data? && r != e
    requires s[r].t < |s| && s[r].f < |s|
    requires RulesFor(s, s[r].t, hist + [Step(s[r].group, s[r].bit, true)], e, br, yes, action)
    requires RulesFor(s, s[r].f, hist + [Step(s[r].group, s[r].bit, false)], e, br, no, action)
    requires forall v :: Narrows(hist, Step(s[r].group, s[r].bit, v))
    ensures RulesFor(s, r, hist, e, br, yes + no, action)
  {
    forall env ensures AnyHolds(yes + no, env) <==> StepsHold(hist, env) && PassesOn(s, r, env, e, br) {
      AnyHoldsAppend(yes, no, env);
      var go := env.bit(s[r].group, s[r].bit);
      EdgeDown(s, r, go);
      assert StepHolds(Step(s[r].group, s[r].bit, go), env) && !StepHolds(Step(s[r].group, s[r].bit, !go), env);
    }
  }

  /** No way from here: no rules. */
  lemma RulesForNone(s: Store, r: Ref, hist: seq<Step>, e: Ref, br: bool, action: nat)
    requires Acyclic(s) && r < |s| && e < |s| && s[e].Data? && r != e && !s[r].Data?
    ensures RulesFor(s, r, hist, e, br, [], action)
  {}

  /** At the branch itself: one rule. */
  lemma RulesForHere(s: Store, hist: seq<Step>, e: Ref, br: bool, fields: seq<Field>, action: nat)
    requires Acyclic(s) && e < |s| && s[e].Data?
    requires forall env :: FieldsHold(fields, env) <==> StepsHold(hist + [Step(s[e].group, s[e].bit, br)], env)
    requires Narrows(hist, Step(s[e].group, s[e].bit, br))
    ensures RulesFor(s, e, hist, e, br, [Rule(fields, action)], action)
  {
    var rules := [Rule(fields, action)];
    forall env ensures AnyHolds(rules, env) <==> StepsHold(hist, env) && PassesOn(s, e, env, e, br) {
      assert rules[0].fields == fields;
    }
  }

  // ----- numbered actions -----

  ghost predicate EdgesNumbered(s: Store, number: map<Ref, nat>, r: Ref)
    requires r < |s|
  {
    && (HasEdge(s[r], true) ==> Edge(s[r], true) in number)
    && (HasEdge(s[r], false) ==> Edge(s[r], false) in number)
  }

  /** The line printed for a node, its successors referred to by number. */
  ghost function ActionFor(s: Store, number: map<Ref, nat>, r: Ref): Action
    requires r < |s| && !s[r].Data? && !s[r].Null?
    requires EdgesNumbered(s, number, r)
  {
    match s[r]
    case Leaf(d) => DecideAction(d)
    case Count(k, t) => CountAction(k, number[t])
    case Conform(k, t, f) => ConformAction(k, number[t], number[f])
  }

  /** Node `r` has its line in the table, below those it refers to. */
  ghost predicate HasLine(s: Store, number: map<Ref, nat>, table: seq<Action>, r: Ref)
    requires r in number
  {
    && r < |s| && !s[r].Data? && !s[r].Null? && number[r] < |table|
    && EdgesNumbered(s, number, r)
    && (HasEdge(s[r], true) ==> number[Edge(s[r], true)] < number[r])
    && (HasEdge(s[r], false) ==> number[Edge(s[r], false)] < number[r])
    && table[number[r]] == ActionFor(s, number, r)
  }

  ghost predicate Numbering(s: Store, number: map<Ref, nat>, table: seq<Action>) {
    forall r {:trigger HasLine(s, number, table, r)} | r in number :: HasLine(s, number, table, r)
  }

  /** Carrying out a numbered action is running the graph from its node. */
  lemma {:induction false} PerformIsRun(s: Store, number: map<Ref, nat>, table: seq<Action>, r: Ref, env: Env, h: Hist)
    requires Acyclic(s) && Numbering(s, number, table) && r in number && r < |s|
    ensures Perform(table, number[r], env, h) == Run(s, r, env, h)
    decreases Rank(s)[r]
  {
    assert HasLine(s, number, table, r);
    if !s[r].Leaf? {
      var br := Takes(s[r], env, h);
      EdgeDown(s, r, br);
      assert HasEdge(s[r], br);
      PerformIsRun(s, number, table, Edge(s[r], br), env, After(s[r], h));
    }
  }

  lemma NumberingPush(s: Store, number: map<Ref, nat>, table: seq<Action>, r: Ref)
    requires Numbering(s, number, table) && r !in number && r < |s| && !s[r].Data? && !s[r].Null?
    requires EdgesNumbered(s, number, r)
    ensures Numbering(s, number[r := |table|], table + [ActionFor(s, number, r)])
  {
    var number', table' := number[r := |table|], table + [ActionFor(s, number, r)];
    forall br | HasEdge(s[r], br) ensures number[Edge(s[r], br)] < |table| {
      assert HasLine(s, number, table, Edge(s[r], br));
    }
    forall x | x in number' ensures HasLine(s, number', table', x) {
      if x != r { assert HasLine(s, number, table, x); }
      assert EdgesNumbered(s, number, x);
    }
  }

  /** All actions the tests from `r` can lead to are numbered. */
  ghost predicate Covered(s: Store, number: map<Ref, nat>, r: Ref)
    requires Acyclic(s) && r < |s|
    decreases Rank(s)[r]
  {
    if s[r].Data? then forall br :: (EdgeDown(s, r, br); Covered(s, number, Edge(s[r], br)))
    else r in number
  }

  lemma {:induction false} CoveredMore(s: Store, number: map<Ref, nat>, number': map<Ref, nat>, r: Ref)
    requires Acyclic(s) && r < |s| && Covered(s, number, r) && number.Keys <= number'.Keys
    ensures Covered(s, number', r)
    decreases Rank(s)[r]
  {
    if s[r].Data? {
      forall br ensures Edge(s[r], br) < |s| && Covered(s, number', Edge(s[r], br)) {
        EdgeDown(s, r, br);
        CoveredMore(s, number, number', Edge(s[r], br));
      }
    }
  }

  ghost function CoveredNodes(s: Store, number: map<Ref, nat>, live: set<Ref>): set<Ref>
    requires Acyclic(s) && Closed(s, live)
  {
    set r | r in live && Covered(s, number, r)
  }

  lemma CoveredClosed(s: Store, number: map<Ref, nat>, table: seq<Action>, live: set<Ref>)
    requires Acyclic(s) && Closed(s, live) && Numbering(s, number, table) && MetersLow(s, live)
    ensures Closed(s, CoveredNodes(s, number, live))
  {
    var c := CoveredNodes(s, number, live);
    forall r, br | r in c && HasEdge(s[r], br) ensures Edge(s[r], br) in c {
      EdgeDown(s, r, br);
      if !s[r].Data? {
        assert HasLine(s, number, table, r);
        assert HasLine(s, number, table, Edge(s[r], br));
      }
    }
  }

  // ----- one round -----

  /** Every live action is numbered, and its number stands for what it does. */
  ghost predicate ActionsAgree(s: Store, live: set<Ref>, number: map<Ref, nat>, table: seq<Action>)
    requires Acyclic(s)
  {
    forall r {:trigger r in number} | r in live && r < |s| && !s[r].Data? ::
      r in number && forall env, h :: Perform(table, number[r], env, h) == Run(s, r, env, h)
  }

  lemma ActionsStillAgree(s: Store, live: set<Ref>, s': Store, live': set<Ref>, number: map<Ref, nat>, table: seq<Action>)
    requires Acyclic(s) && ActionsAgree(s, live, number, table) && Preserves(s, s') && live' <= live
    requires |s'| == |s| && forall r | r in live' :: r < |s| && s'[r].Data? == s[r].Data?
    ensures ActionsAgree(s', live', number, table)
  {
    forall r | r in live' && r < |s'| && !s'[r].Data?
      ensures r in number && forall env, h :: Perform(table, number[r], env, h) == Run(s', r, env, h)
    {
      forall env, h ensures r in number && Perform(table, number[r], env, h) == Run(s', r, env, h) {
        assert Run(s', r, env, h) == Run(s, r, env, h);
      }
    }
  }

  lemma ActionsAfterCut(s: Store, s': Store, p: Ref, br: bool, live: set<Ref>, number: map<Ref, nat>, table: seq<Action>)
    requires Acyclic(s) && Acyclic(s') && Cut(s, s', p, br) && Closed(s, live) && MetersLow(s, live)
    requires ActionsAgree(s, live, number, table)
    ensures ActionsAgree(s', live, number, table)
  {
    forall r | r in live && r < |s'| && !s'[r].Data?
      ensures r in number && forall env, h :: Perform(table, number[r], env, h) == Run(s', r, env, h)
    {
      forall env, h ensures r in number && Perform(table, number[r], env, h) == Run(s', r, env, h) {
        CutLow(s, s', p, br, live, r, env, h);
      }
    }
  }

  /** The rules written so far decide as the original graph did, and the remaining
      graph decides the packets no rule matches. */
  ghost predicate Settled(s0: Store, root0: Ref, s: Store, root: Ref, table: seq<Action>, rules: seq<Rule>)
    requires Acyclic(s0) && root0 < |s0| && Acyclic(s) && root < |s|
  {
    forall env, h :: SettledFor(s0, root0, s, root, table, rules, env, h)
  }

  ghost predicate SettledFor(s0: Store, root0: Ref, s: Store, root: Ref, table: seq<Action>, rules: seq<Rule>, env: Env, h: Hist)
    requires Acyclic(s0) && root0 < |s0| && Acyclic(s) && root < |s|
  {
    var m := FirstMatch(rules, env);
    (if m.Some? then Perform(table, m.value, env, h) else Run(s, root, env, h)) == Run(s0, root0, env, h)
  }

  lemma SettleRound(s0: Store, root0: Ref, s: Store, root: Ref, table: seq<Action>, rules: seq<Rule>,
                    live: set<Ref>, number: map<Ref, nat>, e: Ref, br: bool, new': seq<Rule>, s': Store)
    requires Acyclic(s0) && root0 < |s0| && Acyclic(s) && root < |s| && Settled(s0, root0, s, root, table, rules)
    requires Closed(s, live) && MetersLow(s, live) && root in live && e in live && e < |s| && s[e].Data?
    requires ActionsAgree(s, live, number, table)
    requires Edge(s[e], br) < |s| && !s[Edge(s[e], br)].Data? && Edge(s[e], br) in number
    requires RulesFor(s, root, [], e, br, new', number[Edge(s[e], br)])
    requires Acyclic(s') && Cut(s, s', e, br)
    ensures Settled(s0, root0, s', root, table, rules + new')
  {
    var a := Edge(s[e], br);
    assert HasEdge(s[e], br);
    forall env, h ensures SettledFor(s0, root0, s', root, table, rules + new', env, h) {
      assert SettledFor(s0, root0, s, root, table, rules, env, h);
      FirstMatchAppend(rules, new', env);
      FirstMatchUniform(new', number[a], env);
      if PassesOn(s, root, env, e, br) {
        PassesRun(s, root, env, e, br, h);
      } else {
        CutRun(s, s', e, br, live, root, env, h);
      }
    }
  }
}
