/** Rules for expressions that are lists of rows: tests first, an action at the end. */
module ExtDump {
  import opened Semantics
  import opened Bits
  import opened Expr
  import opened Actions
  import opened Rules
  import opened MaskedTests
  import RelAccess
  import ExtParse
  import opened Normalize
  import opened IflibBit

  // ----- the list of bits -----

  /** No bit is tested twice. */
  ghost predicate OneTestPerBit(bits: seq<Step>) {
    forall i, j | 0 <= i < j < |bits| :: bits[i].group != bits[j].group || bits[i].bit != bits[j].bit
  }

  ghost predicate SameSteps(a: seq<Step>, b: seq<Step>) { multiset(a) == multiset(b) }

  lemma SameStepsHold(a: seq<Step>, b: seq<Step>, env: Env)
    requires SameSteps(a, b)
    ensures StepsHold(a, env) <==> StepsHold(b, env)
  {
    assert forall s :: s in a <==> s in multiset(a);
    assert forall s :: s in b <==> s in multiset(b);
  }

  lemma StepsHoldPush(bits: seq<Step>, s: Step, env: Env)
    ensures StepsHold(bits + [s], env) <==> StepsHold(bits, env) && StepHolds(s, env)
  {
    assert s in bits + [s];
    assert forall t :: t in bits + [s] <==> t in bits || t == s;
  }

  /** The tests are those of `before` and of the first `j` bits of a word. */
  ghost predicate AskedSoFar(before: seq<Step>, after: seq<Step>, group: int, off: nat, mask: nat, value: nat, j: nat) {
    forall env :: StepsHold(before, env) && BitsAsked(env, group, off, mask, value, j) <==> StepsHold(after, env)
  }

  /** One bit was taken up, if it could hold with the others. */
  ghost predicate BitAdded(before: seq<Step>, ok: bool, after: seq<Step>, group: int, off: nat, mask: nat, value: nat, j: nat) {
    forall env :: StepsHold(before, env) && BitAsked(env, group, off, mask, value, j) <==> ok && StepsHold(after, env)
  }

  lemma BitTaken(group: int, off: nat, mask0: nat, value0: nat, mask: nat, value: nat, j: nat, before: seq<Step>, ok: bool, after: seq<Step>)
    requires j < WORD && Shifted(mask, mask0, j) && Shifted(value, value0, j)
    requires if Bit(mask, WORD - 1) then forall env :: StepsHold(before, env) && env.bit(group, off + j) == Bit(value, WORD - 1) <==> ok && StepsHold(after, env)
      else ok && after == before
    ensures BitAdded(before, ok, after, group, off, mask0, value0, j)
  {
    assert Bit(mask, WORD - 1) == Bit(mask0, WORD - 1 - j) && Bit(value, WORD - 1) == Bit(value0, WORD - 1 - j);
  }

  lemma TestTakenUp(bits0: seq<Step>, before: seq<Step>, ok: bool, after: seq<Step>, group: int, off: nat, mask: nat, value: nat, j: nat)
    requires AskedSoFar(bits0, before, group, off, mask, value, j) && BitAdded(before, ok, after, group, off, mask, value, j) && j < WORD
    ensures ok ==> AskedSoFar(bits0, after, group, off, mask, value, j + 1)
    ensures !ok ==> forall env :: !(StepsHold(bits0, env) && BitsAsked(env, group, off, mask, value, WORD))
  {
    forall env ensures StepsHold(bits0, env) && BitsAsked(env, group, off, mask, value, j + 1) <==> ok && StepsHold(after, env) {
      BitMore(env, group, off, mask, value, j);
    }
    forall env ensures !ok ==> !(StepsHold(bits0, env) && BitsAsked(env, group, off, mask, value, WORD)) {
      assert BitsAsked(env, group, off, mask, value, WORD) ==> BitsAsked(env, group, off, mask, value, j + 1);
    }
  }

  lemma AllAsked(before: seq<Step>, after: seq<Step>, group: int, off: nat, mask: nat, value: nat, j: nat)
    requires AskedSoFar(before, after, group, off, mask, value, j) && Shifted(0, mask, j) && j <= WORD
    ensures AskedSoFar(before, after, group, off, mask, value, WORD)
  {
    forall env ensures StepsHold(before, env) && BitsAsked(env, group, off, mask, value, WORD) <==> StepsHold(after, env) {
      NothingLeft(env, group, off, mask, value, j);
    }
  }

  // ----- in order within each group -----

  /** Within every group, bits come in ascending order up to position `n`, and before what
      is beyond. */
  ghost predicate AscendingTo(bits: seq<Step>, n: nat) {
    forall a, b | 0 <= a < b < |bits| && a < n && bits[a].group == bits[b].group :: bits[a].bit <= bits[b].bit
  }

  /** Position `i` has the lowest bit of its group from there to `j`. */
  ghost predicate LowestTo(bits: seq<Step>, i: nat, j: nat) {
    i < |bits| && forall b | i < b < j && b < |bits| && bits[i].group == bits[b].group :: bits[i].bit <= bits[b].bit
  }

  ghost predicate SameGroups(a: seq<Step>, b: seq<Step>) {
    |a| == |b| && forall i | 0 <= i < |a| :: a[i].group == b[i].group
  }

  lemma Exchange(s: seq<Step>, i: nat, j: nat, t: seq<Step>)
    requires i < j < |s| && s[i].group == s[j].group && s[i].bit > s[j].bit && t == s[i := s[j]][j := s[i]]
    requires AscendingTo(s, i) && LowestTo(s, i, j)
    ensures AscendingTo(t, i) && LowestTo(t, i, j + 1) && SameGroups(s, t) && SameSteps(s, t)
  {}

  // ----- from tests to fields -----

  function StepsOf(f: Field): (s: seq<Step>)
    ensures |s| == |f.vals|
  {
    seq(|f.vals|, i requires 0 <= i < |f.vals| => Step(f.group, f.bit + i, f.vals[i]))
  }

  function AllSteps(fields: seq<Field>): seq<Step> {
    if fields == [] then [] else AllSteps(fields[..|fields| - 1]) + StepsOf(fields[|fields| - 1])
  }

  /** Fields hold if the tests they were made of do. */
  lemma {:induction false} AllStepsHold(fields: seq<Field>, env: Env)
    ensures FieldsHold(fields, env) <==> StepsHold(AllSteps(fields), env)
    decreases |fields|
  {
    if fields != [] {
      var last, rest := fields[|fields| - 1], fields[..|fields| - 1];
      AllStepsHold(rest, env);
      CoversHolds(last, StepsOf(last), env);
      assert fields == rest + [last];
      assert FieldsHold(fields, env) <==> FieldsHold(rest, env) && FieldHolds(last, env);
      assert StepsHold(AllSteps(rest) + StepsOf(last), env) <==> StepsHold(AllSteps(rest), env) && StepsHold(StepsOf(last), env);
    }
  }

  /** The test continues the field. */
  predicate Continues(f: Field, s: Step) { s.group == f.group && s.bit == f.bit + |f.vals| }

  /** Fields could not have been longer. */
  predicate Whole(fields: seq<Field>) {
    (forall f | f in fields :: f.vals != [])
    && forall i | 0 < i < |fields| && fields[i].vals != [] :: !Continues(fields[i - 1], StepsOf(fields[i])[0])
  }

  lemma {:induction false} FieldMore(fields: seq<Field>, f: Field, bits: seq<Step>, walk: nat, end: nat)
    requires Whole(fields) && walk < end <= |bits| && AllSteps(fields) == bits[..walk] && StepsOf(f) == bits[walk..end]
    requires fields != [] ==> !Continues(fields[|fields| - 1], bits[walk])
    ensures Whole(fields + [f]) && AllSteps(fields + [f]) == bits[..end]
  {
    assert StepsOf(f)[0] == bits[walk];
    assert (fields + [f])[..|fields|] == fields && bits[..walk] + bits[walk..end] == bits[..end];
  }

  // ----- rows -----

  /** Tests, then an action that decides. */
  predicate Row(d: Expr) {
    if ActionTree(d) then SelfContained(d) == Settled else d.LAnd? && PlainTest(d.a) && Row(d.b)
  }

  predicate Rows(d: Expr) {
    if d.LOr? && !ActionTree(d) then Row(d.a) && Rows(d.b) else Row(d)
  }

  /** A linear table with no other `||` below `&&` than normalization leaves there is a
      list of rows. */
  lemma {:induction false} NormalRows(d: Expr)
    requires Tabular(d) && Raised(d) && RightLinear(d) && PlainTests(d)
    ensures Rows(d) && ((d.LOr? && !ActionTree(d)) || Row(d))
    decreases d
  {
    if !ActionTree(d) {
      NormalRows(d.b);
      if d.LOr? {
        NormalRows(d.a);
      } else if d.a.LOr? {
        ConditionOpen(d.a);
      }
    }
  }

  /** Any table of plain tests and of actions that need no rewriting, policing or not,
      becomes a list of rows of the same meaning. */
  method TableToRows(d: Expr) returns (d': Expr)
    requires Table(d) && PlainTests(d)
    ensures SameMeaning(d, d') && Rows(d') && Typed(d')
  {
    d' := IflibNormalize(d);
    NormalRows(d');
    PlainTestsTyped(d');
  }

  /** The numbered actions are those of the expression. */
  ghost predicate Numbered(table: seq<Action>, number: Expr -> nat, d: Expr) {
    if ActionTree(d) then forall env, h :: Perform(table, number(d), env, h) == Outcome(Eval(d, env, h))
    else (d.LAnd? || d.LOr? ==> Numbered(table, number, d.a) && Numbered(table, number, d.b))
  }

  /** The rule stands for the row. */
  ghost predicate RuleFor(table: seq<Action>, r: Rule, d: Expr) {
    && (forall env, h | FieldsHold(r.fields, env) :: Perform(table, r.action, env, h) == Outcome(Eval(d, env, h)) && Eval(d, env, h).truth.Taken?)
    && (forall env, h | !FieldsHold(r.fields, env) :: Eval(d, env, h) == Value(False, h))
    && (exists env :: FieldsHold(r.fields, env))
  }

  ghost predicate NeverHolds(d: Expr) { forall env, h :: Eval(d, env, h) == Value(False, h) }

  /** The rules stand for the rows before `d` of the rows `d0`. */
  ghost predicate RulesBefore(table: seq<Action>, rules: seq<Rule>, d0: Expr, d: Expr) {
    forall env, h :: var m := FirstMatch(rules, env);
      if m.Some? then Perform(table, m.value, env, h) == Outcome(Eval(d0, env, h)) else Eval(d0, env, h) == Eval(d, env, h)
  }

  lemma RowSkipped(table: seq<Action>, rules: seq<Rule>, d0: Expr, d: Expr)
    requires RulesBefore(table, rules, d0, d) && d.LOr? && NeverHolds(d.a)
    ensures RulesBefore(table, rules, d0, d.b)
  {
    forall env, h ensures FirstMatch(rules, env).None? ==> Eval(d0, env, h) == Eval(d.b, env, h) {
      assert Eval(d.a, env, h) == Value(False, h);
      assert FirstMatch(rules, env).None? ==> Eval(d0, env, h) == Eval(d, env, h);
    }
  }

  lemma FirstOfOne(r: Rule, env: Env)
    ensures FirstMatch([r], env) == if FieldsHold(r.fields, env) then Some(r.action) else None
  {
    assert [r][1..] == [];
  }

  lemma RowAdded(table: seq<Action>, rules: seq<Rule>, d0: Expr, d: Expr, r: Rule)
    requires RulesBefore(table, rules, d0, d) && d.LOr? && RuleFor(table, r, d.a)
    ensures RulesBefore(table, rules + [r], d0, d.b)
  {
    forall env, h ensures var m := FirstMatch(rules + [r], env);
      if m.Some? then Perform(table, m.value, env, h) == Outcome(Eval(d0, env, h)) else Eval(d0, env, h) == Eval(d.b, env, h)
    {
      FirstMatchAppend(rules, [r], env);
      FirstOfOne(r, env);
      assert FirstMatch(rules, env).None? ==> Eval(d0, env, h) == Eval(d, env, h);
      if !FieldsHold(r.fields, env) { assert Eval(d.a, env, h) == Value(False, h); }
    }
  }

  // ----- what has been written -----

  predicate AllPrinted(rules: seq<Rule>) { forall i | 0 <= i < |rules| :: ExtParse.AllPrintable(rules[i]) }

  ghost predicate TestAdded(d: Expr, before: seq<Step>, ok: bool, after: seq<Step>)
    requires d.Compare?
  {
    forall env :: StepsHold(before, env) && TermValue(d.x, env) == d.c <==> ok && StepsHold(after, env)
  }

  ghost predicate ActionWritten(number: Expr -> nat, d: Expr, before: seq<Rule>, tests: seq<Step>, after: seq<Rule>) {
    && |after| == |before| + 1 && after[..|before|] == before
    && after[|before|].action == number(d) && forall env :: FieldsHold(after[|before|].fields, env) <==> StepsHold(tests, env)
  }

  /** A rule was written for the row, or it never holds. */
  ghost predicate RowWritten(table: seq<Action>, d: Expr, before: seq<Rule>, ok: bool, after: seq<Rule>) {
    if ok then |after| == |before| + 1 && after[..|before|] == before && RuleFor(table, after[|before|], d)
    else after == before && NeverHolds(d)
  }

  ghost predicate RowsWritten(table: seq<Action>, d: Expr, before: seq<Rule>, after: seq<Rule>) {
    && |before| <= |after| && after[..|before|] == before
    && forall env, h :: Classify(table, after[|before|..], env, h) == Outcome(Eval(d, env, h))
  }

  /** The tests found are those before `d` in the row `d0`. */
  ghost predicate TestsBefore(table: seq<Action>, number: Expr -> nat, d0: Expr, d: Expr, bits: seq<Step>) {
    && Row(d) && Numbered(table, number, d)
    && forall env, h :: Eval(d0, env, h) == if StepsHold(bits, env) then Eval(d, env, h) else Value(False, h)
  }

  lemma TestTaken(table: seq<Action>, number: Expr -> nat, d0: Expr, d: Expr, before: seq<Step>, ok: bool, after: seq<Step>)
    requires TestsBefore(table, number, d0, d, before) && d.LAnd? && !ActionTree(d) && TestAdded(d.a, before, ok, after)
    ensures if ok then TestsBefore(table, number, d0, d.b, after) else NeverHolds(d0)
  {
    forall env, h ensures Eval(d0, env, h) == if ok && StepsHold(after, env) then Eval(d.b, env, h) else Value(False, h) {
      assert StepsHold(before, env) && TermValue(d.a.x, env) == d.a.c <==> ok && StepsHold(after, env);
      assert Eval(d.a, env, h) == Value(TruthOf(TermValue(d.a.x, env) == d.a.c), h);
      assert Eval(d0, env, h) == if StepsHold(before, env) then Eval(d, env, h) else Value(False, h);
    }
  }

  lemma RowEnds(table: seq<Action>, number: Expr -> nat, d0: Expr, d: Expr, tests: seq<Step>, before: seq<Rule>, after: seq<Rule>)
    requires TestsBefore(table, number, d0, d, tests) && ActionTree(d) && ActionWritten(number, d, before, tests, after)
    requires OneTestPerBit(tests)
    ensures RowWritten(table, d0, before, true, after)
  {
    var r := after[|before|];
    forall env, h | FieldsHold(r.fields, env)
      ensures Perform(table, r.action, env, h) == Outcome(Eval(d0, env, h)) && Eval(d0, env, h).truth.Taken?
    {
      SelfContainedSound(d, env, h);
      assert Eval(d0, env, h) == Eval(d, env, h);
    }
    forall env, h | !FieldsHold(r.fields, env) ensures Eval(d0, env, h) == Value(False, h) {
      assert !StepsHold(tests, env);
    }
    var env := TestsCanHold(tests);
    assert FieldsHold(r.fields, env);
  }

  lemma RowDone(table: seq<Action>, rules: seq<Rule>, d0: Expr, d: Expr, file0: seq<Rule>, before: seq<Rule>, ok: bool, after: seq<Rule>)
    returns (rules': seq<Rule>)
    requires RulesBefore(table, rules, d0, d) && d.LOr? && before == file0 + rules && RowWritten(table, d.a, before, ok, after)
    ensures after == file0 + rules' && RulesBefore(table, rules', d0, d.b)
  {
    if ok {
      rules' := rules + [after[|before|]];
      RowAdded(table, rules, d0, d, after[|before|]);
      assert after == after[..|before|] + [after[|before|]];
    } else {
      rules' := rules;
      RowSkipped(table, rules, d0, d);
    }
  }

  lemma RowsDone(table: seq<Action>, rules: seq<Rule>, d0: Expr, d: Expr, file0: seq<Rule>, before: seq<Rule>, ok: bool, after: seq<Rule>)
    requires RulesBefore(table, rules, d0, d) && before == file0 + rules && RowWritten(table, d, before, ok, after)
    ensures RowsWritten(table, d0, file0, after)
  {
    var more := after[|before|..];
    RowsEnd(table, rules, d0, d, more);
    assert after == before + more;
    assert after[|file0|..] == rules + more;
  }

  /** The groups of fields are those of their tests. */
  lemma {:induction false} GroupsKept(fields: seq<Field>, bits: seq<Step>)
    requires AllSteps(fields) == bits && Whole(fields) && forall s | s in bits :: s.group >= 0
    ensures forall f | f in fields :: ExtParse.Printable(f)
  {
    forall f | f in fields ensures ExtParse.Printable(f) { StepAmong(fields, f); }
  }

  lemma {:induction false} StepAmong(fields: seq<Field>, f: Field)
    requires f in fields && f.vals != []
    ensures StepsOf(f)[0] in AllSteps(fields)
    decreases |fields|
  {
    var rest := fields[..|fields| - 1];
    assert fields == rest + [fields[|fields| - 1]];
    if f in rest { StepAmong(rest, f); }
  }

  /** The last row. */
  lemma RowsEnd(table: seq<Action>, rules: seq<Rule>, d0: Expr, d: Expr, more: seq<Rule>)
    requires RulesBefore(table, rules, d0, d)
    requires (more == [] && NeverHolds(d)) || (|more| == 1 && RuleFor(table, more[0], d))
    ensures forall env, h :: Classify(table, rules + more, env, h) == Outcome(Eval(d0, env, h))
  {
    forall env, h ensures Classify(table, rules + more, env, h) == Outcome(Eval(d0, env, h)) {
      FirstMatchAppend(rules, more, env);
      if more != [] { assert more == [more[0]]; FirstOfOne(more[0], env); }
      assert FirstMatch(rules, env).None? ==> Eval(d0, env, h) == Eval(d, env, h);
    }
  }

  /** Tests of different bits can all hold. */
  lemma TestsCanHold(bits: seq<Step>) returns (env: Env)
    requires OneTestPerBit(bits)
    ensures StepsHold(bits, env)
  {
    env := Env((g, n) => n >= 0 && Step(g, n, true) in bits, (_, _) => false);
    forall s | s in bits ensures StepHolds(s, env) {
      assert s == Step(s.group, s.bit, s.val);
      if !s.val && Step(s.group, s.bit, true) in bits {
        OneTest(bits, s, Step(s.group, s.bit, true));
      }
    }
  }

  lemma OneTest(bits: seq<Step>, s: Step, t: Step)
    requires OneTestPerBit(bits) && s in bits && t in bits && s.group == t.group && s.bit == t.bit
    ensures s == t
  {
    var i :| 0 <= i < |bits| && bits[i] == s;
    var j :| 0 <= j < |bits| && bits[j] == t;
  }

  class Dumper {
    /** The tests of the row being written, in the order they were found. */
    var bits: seq<Step>
    /** The lines written. */
    var file: seq<Rule>

    /** No bit is tested twice, and all are in offset groups. */
    ghost predicate Valid()
      reads this
    {
      OneTestPerBit(bits) && forall s | s in bits :: s.group >= 0
    }

    constructor ()
      ensures bits == [] && file == []
    {
      bits, file := [], [];
    }

    /** Adds a test, unless it is there already. Says whether it can hold together with
        the others. */
    method BitMatch(group: int, off: nat, value: bool) returns (ok: bool)
      requires Valid() && group >= 0
      modifies `bits
      ensures Valid() && (!ok ==> bits == old(bits))
      ensures forall env :: StepsHold(old(bits), env) && env.bit(group, off) == value <==> ok && StepsHold(bits, env)
    {
      for i := 0 to |bits|
        invariant forall k | 0 <= k < i :: bits[k].group != group || bits[k].bit != off
      {
        if bits[i].group == group && bits[i].bit == off {
          assert bits[i] in bits;
          assert forall env | StepsHold(bits, env) :: StepHolds(bits[i], env);
          return bits[i].val == value;
        }
      }
      forall env ensures StepsHold(bits + [Step(group, off, value)], env) <==> StepsHold(bits, env) && env.bit(group, off) == value {
        StepsHoldPush(bits, Step(group, off, value), env);
      }
      bits := bits + [Step(group, off, value)];
      ok := true;
    }

    /** Adds the tests of one word, most significant bit first, until the mask is used up. */
    method DecomposeWord(group: int, off: nat, mask0: nat, value0: nat) returns (ok: bool)
      requires Valid() && group >= 0 && mask0 < Pow2(WORD) && value0 < Pow2(WORD)
      modifies `bits
      ensures Valid()
      ensures forall env :: StepsHold(old(bits), env) && BitsAsked(env, group, off, mask0, value0, WORD) <==> ok && StepsHold(bits, env)
    {
      var mask, value, j: nat := mask0, value0, 0;
      ShiftStart(mask0);
      ShiftStart(value0);
      while mask != 0
        invariant j <= WORD && Shifted(mask, mask0, j) && Shifted(value, value0, j) && Valid()
        invariant AskedSoFar(old(bits), bits, group, off, mask0, value0, j)
        decreases WORD - j
      {
        if j == WORD { ShiftedOut(mask, mask0, j); }
        ghost var before := bits;
        TopBit(mask);
        var b := true;
        if And(mask, Pow2(WORD - 1)) != 0 { b := BitMatch(group, off + j, Bit(value, WORD - 1)); }
        BitTaken(group, off, mask0, value0, mask, value, j, before, b, bits);
        TestTakenUp(old(bits), before, b, bits, group, off, mask0, value0, j);
        if !b { return false; }
        ShiftOnce(mask, mask0, j);
        ShiftOnce(value, value0, j);
        mask, value, j := Low(2 * mask, WORD), Low(2 * value, WORD), j + 1;
      }
      AllAsked(old(bits), bits, group, off, mask0, value0, j);
      ok := true;
    }

    /** Adds the tests for all words, the most significant one first. */
    method DoDecomposeMatch(group: int, off: nat, mask: nat, value: nat) returns (ok: bool)
      requires Valid() && group >= 0
      modifies `bits
      ensures Valid()
      ensures forall env :: StepsHold(old(bits), env) && WordsAsked(env, group, off, mask, value, 0) <==> ok && StepsHold(bits, env)
    {
      var i: nat := 4;
      while i > 0
        invariant i <= 4 && Valid()
        invariant forall env :: StepsHold(old(bits), env) && WordsAsked(env, group, off, mask, value, i) <==> StepsHold(bits, env)
      {
        ghost var before := bits;
        i := i - 1;
        var b := DecomposeWord(group, off + (3 - i) * 32, WordOf(mask, i), WordOf(value, i));
        forall env ensures StepsHold(old(bits), env) && WordsAsked(env, group, off, mask, value, i) <==> b && StepsHold(bits, env) {
          WordMore(env, group, off, mask, value, i);
          assert StepsHold(old(bits), env) && WordsAsked(env, group, off, mask, value, i + 1) <==> StepsHold(before, env);
          assert WordAsked(env, group, off, mask, value, i) <==> BitsAsked(env, group, off + (3 - i) * 32, WordOf(mask, i), WordOf(value, i), WORD);
        }
        if !b {
          forall env ensures !(StepsHold(old(bits), env) && WordsAsked(env, group, off, mask, value, 0)) {
            if WordsAsked(env, group, off, mask, value, 0) { assert WordsAsked(env, group, off, mask, value, i); }
          }
          return false;
        }
      }
      ok := true;
    }

    /** Adds the tests of a masked comparison. A value that is not in the mask is never
        found. */
    method DecomposeMatch(group: int, off: nat, length: nat, mask: nat, value: nat) returns (ok: bool)
      requires Valid() && group >= 0 && length <= WIDTH && mask < Pow2(WIDTH) && value < Pow2(WIDTH)
      modifies `bits
      ensures Valid()
      ensures forall env :: StepsHold(old(bits), env) && MaskedMatch(env, group, off, length, mask, value) <==> ok && StepsHold(bits, env)
    {
      RelAccess.OutsideMask(mask, value, WIDTH);
      if And(value, Not(mask, WIDTH)) != 0 { return false; }
      ok := DoDecomposeMatch(group, off, Low(Shl(mask, WIDTH - length), WIDTH), Low(Shl(value, WIDTH - length), WIDTH));
      forall env ensures StepsHold(old(bits), env) && MaskedMatch(env, group, off, length, mask, value) <==> ok && StepsHold(bits, env) {
        AskedInWords(env, group, off, length, mask, value);
        AskedIsMasked(env, group, off, length, mask, value);
        assert WordsAsked(env, group, off, Aligned(mask, length), Aligned(value, length), 0) <==> MaskedMatch(env, group, off, length, mask, value);
      }
    }

    /** Exchanges tests until those of every group are in order; which positions belong
        to which group stays. */
    method SortBits()
      modifies `bits
      ensures SameSteps(old(bits), bits) && SameGroups(old(bits), bits) && AscendingTo(bits, |bits|)
    {
      for i := 0 to |bits|
        invariant SameSteps(old(bits), bits) && SameGroups(old(bits), bits) && AscendingTo(bits, i)
      {
        for j := i + 1 to |bits|
          invariant SameSteps(old(bits), bits) && SameGroups(old(bits), bits) && AscendingTo(bits, i) && LowestTo(bits, i, j)
        {
          if bits[i].group == bits[j].group && bits[i].bit > bits[j].bit {
            ghost var before := bits;
            bits := bits[i := bits[j]][j := bits[i]];
            Exchange(before, i, j, bits);
          }
        }
      }
    }

    /** The field of the tests from `walk` on that follow one another. */
    method CollectField(walk: nat) returns (f: Field, end: nat)
      requires walk < |bits|
      ensures walk < end <= |bits| && StepsOf(f) == bits[walk..end] && (end < |bits| ==> !Continues(f, bits[end]))
    {
      var vals := [bits[walk].val];
      end := walk + 1;
      f := Field(bits[walk].group, bits[walk].bit, vals);
      while end < |bits| && bits[walk].group == bits[end].group && bits[end].bit == bits[walk].bit + |vals|
        invariant walk < end <= |bits| && StepsOf(f) == bits[walk..end] && f == Field(bits[walk].group, bits[walk].bit, vals)
        decreases |bits| - end
      {
        FieldLonger(f, bits, walk, end);
        vals, end := vals + [bits[end].val], end + 1;
        f := Field(bits[walk].group, bits[walk].bit, vals);
      }
    }

    /** The tests as fields, each as long as tests of one bit after the other follow. */
    method CollectBits() returns (fields: seq<Field>)
      ensures AllSteps(fields) == bits && Whole(fields)
    {
      fields := [];
      var walk := 0;
      while walk < |bits|
        invariant 0 <= walk <= |bits| && AllSteps(fields) == bits[..walk] && Whole(fields)
        invariant fields != [] && walk < |bits| ==> !Continues(fields[|fields| - 1], bits[walk])
      {
        var f, end := CollectField(walk);
        FieldMore(fields, f, bits, walk, end);
        fields, walk := fields + [f], end;
      }
      assert bits[..walk] == bits;
    }

    /** Writes a rule with the tests found and the number of the action. */
    method DumpAction(number: Expr -> nat, d: Expr)
      requires Valid()
      modifies `bits, `file
      ensures bits == [] && |file| == |old(file)| + 1 && file[..|old(file)|] == old(file)
      ensures
        var r := file[|old(file)|];
        r.action == number(d) && ExtParse.AllPrintable(r) && forall env :: FieldsHold(r.fields, env) <==> StepsHold(old(bits), env)
    {
      SortBits();
      var fields := CollectBits();
      forall env ensures FieldsHold(fields, env) <==> StepsHold(old(bits), env) {
        AllStepsHold(fields, env);
        SameStepsHold(old(bits), bits, env);
      }
      assert forall s :: s in bits <==> s in multiset(bits);
      GroupsKept(fields, bits);
      bits := [];
      file := file + [Rule(fields, number(d))];
    }

    /** Adds the tests of an equality. Fails for operators a rule cannot express. */
    method DumpMatch(x: Term, c: nat) returns (ok: Option<bool>)
      requires Valid() && Sized(x) && c < Pow2(WIDTH)
      modifies `bits
      ensures Valid()
      ensures PlainTest(Compare(EQ, x, c)) ==> ok.Some? && forall env :: StepsHold(old(bits), env) && TermValue(x, env) == c <==> ok.value && StepsHold(bits, env)
    {
      var a, mask: nat := x, Pow2(WIDTH) - 1;
      if RightMasks(x) { RightMasksChain(x); }
      if MaskChain(x) { NoneStripped(x, WIDTH); }
      while a.MaskRight?
        invariant bits == old(bits) && Sized(a) && mask < Pow2(WIDTH) && (RightMasks(x) <==> RightMasks(a)) && (MaskChain(x) <==> MaskChain(a))
        invariant MaskChain(x) ==> ChainBase(x) == ChainBase(a) && Peeled(x, a, mask, WIDTH)
        decreases a
      {
        if MaskChain(x) { PeelOne(x, a, mask, WIDTH); }
        AndBelow(mask, a.mask);
        mask, a := And(mask, a.mask), a.x;
      }
      if !a.Access? { return None; }
      var b := DecomposeMatch(a.group, 8 * a.offset, a.size, mask, c);
      ok := Some(b);
      if PlainTest(Compare(EQ, x, c)) {
        assert MaskChain(x) && ChainBase(x) == ChainBase(a) == a && Peeled(x, a, mask, WIDTH);
        forall env ensures StepsHold(old(bits), env) && TermValue(x, env) == c <==> b && StepsHold(bits, env) {
          ChainMatch(x, c, a, mask, env);
        }
      }
    }

    /** A test, or the action at the end. Fails for anything else. */
    method DumpOther(number: Expr -> nat, d: Expr) returns (ok: Option<bool>)
      requires Valid() && Typed(d) && AllPrinted(file)
      modifies `bits, `file
      ensures Valid() && AllPrinted(file)
      ensures PlainTest(d) ==> file == old(file) && ok.Some? && TestAdded(d, old(bits), ok.value, bits)
      ensures ActionTree(d) ==> ok == Some(true) && bits == [] && ActionWritten(number, d, old(file), old(bits), file)
    {
      if d.Compare? && d.rel == EQ {
        ok := DumpMatch(d.x, d.c);
      } else if ActionTree(d) {
        DumpAction(number, d);
        ok := Some(true);
      } else {
        ok := None;
      }
    }

    /** Writes the rule of a row, unless no packet can match it. */
    method DumpAnd(number: Expr -> nat, d: Expr, ghost table: seq<Action>) returns (ok: Option<bool>)
      requires Valid() && Typed(d) && AllPrinted(file)
      modifies `bits, `file
      ensures Valid() && AllPrinted(file)
      ensures Row(d) && Numbered(table, number, d) && old(bits) == [] ==> ok.Some? && bits == [] && RowWritten(table, d, old(file), ok.value, file)
    {
      var walk := d;
      while walk.LAnd? && !ActionTree(walk)
        invariant Valid() && Typed(walk) && AllPrinted(file)
        invariant Row(d) && Numbered(table, number, d) && old(bits) == [] ==> file == old(file) && TestsBefore(table, number, d, walk, bits)
        decreases walk
      {
        ghost var before := bits;
        var r := DumpOther(number, walk.a);
        if r.None? { return None; }
        if Row(d) && Numbered(table, number, d) && old(bits) == [] { TestTaken(table, number, d, walk, before, r.value, bits); }
        if !r.value {
          bits := [];
          return Some(false);
        }
        walk := walk.b;
      }
      ghost var before := bits;
      ok := DumpOther(number, walk);
      if Row(d) && Numbered(table, number, d) && old(bits) == [] { RowEnds(table, number, d, walk, before, old(file), file); }
    }

    /** Writes rules for all rows. */
    method DumpOr(number: Expr -> nat, d: Expr, ghost table: seq<Action>) returns (ok: bool)
      requires Valid() && Typed(d) && AllPrinted(file)
      modifies `bits, `file
      ensures Valid() && AllPrinted(file)
      ensures Rows(d) && Numbered(table, number, d) && old(bits) == [] ==> ok && RowsWritten(table, d, old(file), file)
    {
      var walk := d;
      ghost var good := Rows(d) && Numbered(table, number, d) && old(bits) == [];
      ghost var rules := [];
      assert RulesBefore(table, [], d, d);
      while walk.LOr? && !ActionTree(walk)
        invariant Valid() && Typed(walk) && AllPrinted(file)
        invariant good ==> bits == [] && Rows(walk) && Numbered(table, number, walk) && file == old(file) + rules && RulesBefore(table, rules, d, walk)
        decreases walk
      {
        ghost var before := file;
        var r := DumpAnd(number, walk.a, table);
        if r.None? { return false; }
        if good { rules := RowDone(table, rules, d, walk, old(file), before, r.value, file); }
        walk := walk.b;
      }
      ghost var before := file;
      var r := DumpAnd(number, walk, table);
      if good { RowsDone(table, rules, d, walk, old(file), before, r.value, file); }
      ok := r.Some?;
    }
  }

  lemma FieldLonger(f: Field, bits: seq<Step>, walk: nat, end: nat)
    requires walk < end < |bits| && StepsOf(f) == bits[walk..end] && Continues(f, bits[end])
    ensures StepsOf(Field(f.group, f.bit, f.vals + [bits[end].val])) == bits[walk..end + 1]
  {
    assert bits[walk..end + 1] == bits[walk..end] + [bits[end]];
    assert StepsOf(Field(f.group, f.bit, f.vals + [bits[end].val])) == StepsOf(f) + [bits[end]];
  }
}
