/** The classifier as it is handed to an external matcher: a table of numbered
    actions and a list of rules, the first matching one of which applies. */
module Rules {
  import opened Semantics

  /** A match field: the bits of `vals` are expected from bit `bit` onwards. */
  datatype Field = Field(group: int, bit: nat, vals: seq<bool>)

  datatype Rule = Rule(fields: seq<Field>, action: nat)

  /** A line of the actions group. Actions refer to earlier ones by number. */
  datatype Action =
    | ConformAction(bucket: nat, yes: nat, no: nat)
    | CountAction(bucket: nat, then_: nat)
    | DecideAction(decision: Decision)

  predicate FieldHolds(r: Field, env: Env) {
    forall i | 0 <= i < |r.vals| :: env.bit(r.group, r.bit + i) == r.vals[i]
  }

  predicate FieldsHold(fields: seq<Field>, env: Env) {
    forall r | r in fields :: FieldHolds(r, env)
  }

  predicate AnyHolds(rules: seq<Rule>, env: Env) {
    exists i | 0 <= i < |rules| :: FieldsHold(rules[i].fields, env)
  }

  /** The action of the first rule all of whose fields match. */
  function FirstMatch(rules: seq<Rule>, env: Env): Option<nat> {
    if rules == [] then None
    else if FieldsHold(rules[0].fields, env) then Some(rules[0].action)
    else FirstMatch(rules[1..], env)
  }

  lemma {:induction false} FirstMatchAppend(a: seq<Rule>, b: seq<Rule>, env: Env)
    ensures FirstMatch(a + b, env) == if FirstMatch(a, env).Some? then FirstMatch(a, env) else FirstMatch(b, env)
  {
    if a == [] {
      assert a + b == b;
    } else {
      assert (a + b)[1..] == a[1..] + b;
      FirstMatchAppend(a[1..], b, env);
    }
  }

  /** Rules that all name one action select it, or nothing. */
  lemma {:induction false} FirstMatchUniform(rules: seq<Rule>, action: nat, env: Env)
    requires forall i | 0 <= i < |rules| :: rules[i].action == action
    ensures FirstMatch(rules, env) == if AnyHolds(rules, env) then Some(action) else None
  {
    if rules != [] {
      FirstMatchUniform(rules[1..], action, env);
      if !FieldsHold(rules[0].fields, env) {
        if AnyHolds(rules, env) {
          var i :| 0 <= i < |rules| && FieldsHold(rules[i].fields, env);
          assert rules[1..][i - 1] == rules[i];
        }
        if AnyHolds(rules[1..], env) {
          var i :| 0 <= i < |rules[1..]| && FieldsHold(rules[1..][i].fields, env);
          assert rules[1..][i] == rules[i + 1];
        }
      }
    }
  }

  /** Carrying out action `n` (`action` of the matcher). */
  function Perform(table: seq<Action>, n: nat, env: Env, h: Hist): Result
  {
    if n >= |table| then Result(None, h) else
    match table[n]
    case DecideAction(d) => Result(Some(d), h)
    case CountAction(k, a) => if a < n then Perform(table, a, env, h + [k]) else Result(None, h)
    case ConformAction(k, a, b) =>
      var next := if Conforms(env, h, k) then a else b;
      if next < n then Perform(table, next, env, h) else Result(None, h)
  }

  lemma {:induction false} PerformAppend(table: seq<Action>, more: seq<Action>, n: nat, env: Env, h: Hist)
    requires n < |table|
    ensures Perform(table + more, n, env, h) == Perform(table, n, env, h)
    decreases n
  {
    match table[n]
    case DecideAction(_) =>
    case CountAction(k, a) => if a < n { PerformAppend(table, more, a, env, h + [k]); }
    case ConformAction(k, a, b) =>
      var next := if Conforms(env, h, k) then a else b;
      if next < n { PerformAppend(table, more, next, env, h); }
  }

  /** What the external matcher makes of a packet. */
  function Classify(table: seq<Action>, rules: seq<Rule>, env: Env, h: Hist): Result {
    var m := FirstMatch(rules, env);
    if m.Some? then Perform(table, m.value, env, h) else Result(None, h)
  }

  // ----- from a history of branches to match fields -----

  /** A branch taken on the way: this bit had this value. */
  datatype Step = Step(group: int, bit: nat, val: bool)

  predicate StepHolds(s: Step, env: Env) { env.bit(s.group, s.bit) == s.val }

  predicate StepsHold(steps: seq<Step>, env: Env) {
    forall s | s in steps :: StepHolds(s, env)
  }

  predicate OneGroup(steps: seq<Step>, group: int) {
    forall s | s in steps :: s.group == group
  }

  ghost predicate DistinctBits(steps: seq<Step>) {
    forall i, j | 0 <= i < j < |steps| :: steps[i].bit != steps[j].bit
  }

  ghost predicate AscendingBits(steps: seq<Step>) {
    forall i, j | 0 <= i < j < |steps| :: steps[i].bit < steps[j].bit
  }

  predicate NumberIn(bit: nat, steps: seq<Step>) {
    exists i | 0 <= i < |steps| :: steps[i].bit == bit
  }

  /** Different steps never share a bit number, be it in different groups or with
      different values. */
  ghost predicate OneStepPerNumber(steps: seq<Step>) {
    forall s, t | s in steps && t in steps && s.bit == t.bit :: s == t
  }

  /** A packet that has what the steps ask for and nothing of `s` otherwise. */
  function Contrary(steps: seq<Step>, s: Step): Env {
    Env((g, n) => if g == s.group && n == s.bit && !(exists v :: Step(s.group, s.bit, v) in steps) then !s.val
                  else n >= 0 && Step(g, n, true) in steps,
        (_, _) => false)
  }

  lemma AscendingOne(sorted: seq<Step>, s: Step, t: Step)
    requires AscendingBits(sorted) && s in sorted && t in sorted && s.bit == t.bit
    ensures s == t
  {
    var i :| 0 <= i < |sorted| && sorted[i] == s;
    var j :| 0 <= j < |sorted| && sorted[j] == t;
  }

  lemma ContraryHolds(sorted: seq<Step>, s: Step)
    requires AscendingBits(sorted) && s !in sorted
    ensures StepsHold(sorted, Contrary(sorted, s)) && !StepHolds(s, Contrary(sorted, s))
  {
    var env := Contrary(sorted, s);
    forall t | t in sorted ensures StepHolds(t, env) {
      if Step(t.group, t.bit, !t.val) in sorted { AscendingOne(sorted, t, Step(t.group, t.bit, !t.val)); }
      assert Step(t.group, t.bit, t.val) == t;
    }
    if Step(s.group, s.bit, !s.val) in sorted { assert Step(s.group, s.bit, s.val) == s; }
  }

  /** Sorting by bit number alone keeps the conditions of a path exactly when no two
      different steps of it share a number: in particular on a path within one offset
      group that asks for no bit twice. */
  lemma SortExact(steps: seq<Step>, sorted: seq<Step>)
    requires AscendingBits(sorted) && (forall s | s in sorted :: s in steps)
    requires forall s | s in steps :: NumberIn(s.bit, sorted)
    ensures (forall env :: StepsHold(sorted, env) <==> StepsHold(steps, env)) <==> OneStepPerNumber(steps)
  {
    if OneStepPerNumber(steps) {
      forall s | s in steps ensures s in sorted {
        var i :| 0 <= i < |sorted| && sorted[i].bit == s.bit;
        assert sorted[i] in sorted;
      }
    } else {
      var s, t :| s in steps && t in steps && s.bit == t.bit && s != t;
      var lost := if s in sorted then t else s;
      if s in sorted && t in sorted { AscendingOne(sorted, s, t); }
      ContraryHolds(sorted, lost);
      var env := Contrary(sorted, lost);
      assert StepsHold(sorted, env) && !StepsHold(steps, env);
    }
  }

  /** The step with the lowest bit beyond `last`, if any. */
  method NextStep(steps: seq<Step>, last: int) returns (best: Option<Step>)
    ensures best.None? ==> forall s | s in steps :: s.bit <= last
    ensures best.Some? ==> best.value in steps && last < best.value.bit
    ensures best.Some? ==> forall s | s in steps && last < s.bit :: best.value.bit <= s.bit
  {
    best := None;
    for i := 0 to |steps|
      invariant best.None? ==> forall k | 0 <= k < i :: steps[k].bit <= last
      invariant best.Some? ==> best.value in steps && last < best.value.bit
      invariant best.Some? ==> forall k | 0 <= k < i && last < steps[k].bit :: best.value.bit <= steps[k].bit
    {
      if last < steps[i].bit && (best.None? || steps[i].bit < best.value.bit) {
        best := Some(steps[i]);
      }
    }
  }

  ghost function Highest(steps: seq<Step>): int
    ensures forall s | s in steps :: s.bit <= Highest(steps)
  {
    if steps == [] then -1
    else
      var rest := Highest(steps[1..]);
      assert steps == [steps[0]] + steps[1..];
      if rest < steps[0].bit then steps[0].bit else rest
  }

  /** Selects the steps in order of their bit numbers, one step per number. */
  method SortSteps(steps: seq<Step>) returns (sorted: seq<Step>)
    ensures AscendingBits(sorted) && (forall s | s in sorted :: s in steps)
    ensures DistinctBits(steps) ==> forall s | s in steps :: s in sorted
    ensures forall s | s in steps :: NumberIn(s.bit, sorted)
  {
    sorted := [];
    var last: int := -1;
    while true
      invariant AscendingBits(sorted) && forall s | s in sorted :: s in steps && s.bit <= last
      invariant DistinctBits(steps) ==> forall s | s in steps && s.bit <= last :: s in sorted
      invariant forall s | s in steps && s.bit <= last :: NumberIn(s.bit, sorted)
      invariant last <= Highest(steps)
      decreases Highest(steps) - last
    {
      var next := NextStep(steps, last);
      if next.None? { return; }
      forall s | s in steps && s.bit <= next.value.bit && DistinctBits(steps) ensures s in sorted + [next.value] {
        if s.bit > last {
          var i :| 0 <= i < |steps| && steps[i] == s;
          var j :| 0 <= j < |steps| && steps[j] == next.value;
          assert s.bit == next.value.bit;
        }
      }
      forall s | s in steps && s.bit <= next.value.bit ensures NumberIn(s.bit, sorted + [next.value]) {
        if s.bit <= last {
          var i :| 0 <= i < |sorted| && sorted[i].bit == s.bit;
          assert (sorted + [next.value])[i].bit == s.bit;
        } else {
          assert (sorted + [next.value])[|sorted|].bit == s.bit;
        }
      }
      sorted := sorted + [next.value];
      last := next.value.bit;
    }
  }

  /** The steps a field stands for. */
  predicate Covers(r: Field, steps: seq<Step>) {
    |r.vals| == |steps| && forall i | 0 <= i < |steps| :: steps[i] == Step(r.group, r.bit + i, r.vals[i])
  }

  lemma CoversHolds(r: Field, steps: seq<Step>, env: Env)
    requires Covers(r, steps)
    ensures FieldHolds(r, env) <==> StepsHold(steps, env)
  {
    if StepsHold(steps, env) {
      forall i | 0 <= i < |r.vals| ensures env.bit(r.group, r.bit + i) == r.vals[i] {
        assert StepHolds(steps[i], env);
      }
    }
    if FieldHolds(r, env) {
      forall s | s in steps ensures StepHolds(s, env) {
        var i :| 0 <= i < |steps| && steps[i] == s;
        assert env.bit(r.group, r.bit + i) == r.vals[i];
      }
    }
  }

  lemma FieldsPush(fields: seq<Field>, r: Field, done: seq<Step>, steps: seq<Step>)
    requires Covers(r, steps)
    requires forall env :: FieldsHold(fields, env) <==> StepsHold(done, env)
    ensures forall env :: FieldsHold(fields + [r], env) <==> StepsHold(done + steps, env)
  {
    forall env ensures FieldsHold(fields + [r], env) <==> StepsHold(done + steps, env) {
      CoversHolds(r, steps, env);
      assert FieldsHold(fields, env) <==> StepsHold(done, env);
      if FieldsHold(fields + [r], env) {
        assert FieldsHold(fields, env) && FieldHolds(r, env);
      }
      if StepsHold(done + steps, env) {
        assert StepsHold(done, env) && StepsHold(steps, env);
      }
    }
  }

  /** Fields of one offset group, none of them empty. */
  predicate FieldsOf(fields: seq<Field>, group: int) {
    forall r | r in fields :: r.group == group && r.vals != []
  }

  predicate RulesOf(rules: seq<Rule>, group: int) {
    forall i | 0 <= i < |rules| :: FieldsOf(rules[i].fields, group)
  }

  /** Joins steps testing consecutive bits into match fields. */
  method MergeSteps(sorted: seq<Step>, ghost group: int) returns (fields: seq<Field>)
    requires OneGroup(sorted, group)
    ensures forall env :: FieldsHold(fields, env) <==> StepsHold(sorted, env)
    ensures FieldsOf(fields, group)
  {
    fields := [];
    var start, length := 0, 0;
    for i := 0 to |sorted|
      invariant 0 <= start && 0 <= length && start + length == i && (length == 0 ==> i == 0)
      invariant forall j | start <= j < start + length :: sorted[j].bit == sorted[start].bit + (j - start)
      invariant forall env :: FieldsHold(fields, env) <==> StepsHold(sorted[..start], env)
      invariant FieldsOf(fields, group)
    {
      if length > 0 && sorted[start].bit + length == sorted[i].bit {
        length := length + 1;
      } else {
        if length > 0 {
          fields := EmitField(sorted, start, length, fields, group);
        }
        start, length := i, 1;
      }
    }
    if length > 0 {
      fields := EmitField(sorted, start, length, fields, group);
    }
    assert sorted[..start + length] == sorted;
  }

  method EmitField(sorted: seq<Step>, start: nat, length: nat, fields: seq<Field>, ghost group: int) returns (fields': seq<Field>)
    requires start + length <= |sorted| && length > 0 && OneGroup(sorted, group)
    requires forall j | start <= j < start + length :: sorted[j].bit == sorted[start].bit + (j - start)
    requires forall env :: FieldsHold(fields, env) <==> StepsHold(sorted[..start], env)
    requires FieldsOf(fields, group)
    ensures forall env :: FieldsHold(fields', env) <==> StepsHold(sorted[..start + length], env)
    ensures FieldsOf(fields', group)
  {
    var vals := [];
    for k := 0 to length
      invariant |vals| == k && forall j | 0 <= j < k :: vals[j] == sorted[start + j].val
    {
      vals := vals + [sorted[start + k].val];
    }
    var r := Field(sorted[start].group, sorted[start].bit, vals);
    var piece := sorted[start..start + length];
    forall k | 0 <= k < length ensures piece[k] == Step(r.group, r.bit + k, r.vals[k]) {
      assert piece[k] == sorted[start + k];
      assert sorted[start + k].group == group && sorted[start].group == group;
    }
    FieldsPush(fields, r, sorted[..start], piece);
    assert sorted[..start] + piece == sorted[..start + length];
    fields' := fields + [r];
  }
}
