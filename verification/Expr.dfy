/** `if` expressions and what they mean. */
module Expr {
  import opened Semantics
  import opened Bits

  /** The arithmetic the comparisons are made of, in 128 bits: packet fields, and
      masks and shifts by constants. `group` is the offset group of the access,
      `offset` counts bytes, `size` bits. */
  datatype Term =
    | Access(group: int, offset: nat, size: nat)
    | MaskLeft(mask: nat, x: Term)
    | MaskRight(x: Term, mask: nat)
    | ShiftLeft(x: Term, n: nat)
    | ShiftRight(x: Term, n: nat)

  datatype Rel = EQ | NE | LT | LE | GT | GE

  datatype Expr =
    | Const(value: nat)
    | Decide(decision: Decision)
    | Compare(rel: Rel, x: Term, c: nat)
    | ConformTo(bucket: nat)
    | CountOn(bucket: nat)
    | LNot(a: Expr)
    | LAnd(a: Expr, b: Expr)
    | LOr(a: Expr, b: Expr)

  /** The width of arithmetic, 128 bits, given by its bounds as well. */
  const WIDTH: nat := var w: nat :| 127 < w < 129; w

  /** `size` packet bits from bit `start`, the first one most significant. */
  function FieldValue(env: Env, group: int, start: nat, size: nat): (v: nat)
    ensures v < Pow2(size)
    decreases size
  {
    if size == 0 then 0
    else 2 * FieldValue(env, group, start, size - 1) + Digit(env.bit(group, start + size - 1))
  }

  lemma {:induction false} FieldBit(env: Env, group: int, start: nat, size: nat, i: nat)
    ensures Bit(FieldValue(env, group, start, size), i) <==> i < size && env.bit(group, start + size - 1 - i)
    decreases size
  {
    if size == 0 { BitZero(i); }
    else if i > 0 {
      FieldBit(env, group, start, size - 1, i - 1);
    }
  }

  /** A packet whose field, from bit `off` of `length` bits, is the value. */
  function FieldOf(off: nat, length: nat, value: nat): Env {
    Env((g, n) => 0 <= off + length - 1 - n && Bit(value, off + length - 1 - n), (_, _) => false)
  }

  lemma FieldOfValue(group: int, off: nat, length: nat, value: nat)
    requires value < Pow2(length)
    ensures FieldValue(FieldOf(off, length, value), group, off, length) == value
  {
    forall i: nat | i < length ensures Bit(FieldValue(FieldOf(off, length, value), group, off, length), i) == Bit(value, i) {
      FieldBit(FieldOf(off, length, value), group, off, length, i);
    }
    SameBits(FieldValue(FieldOf(off, length, value), group, off, length), value, length);
  }

  function TermValue(t: Term, env: Env): (v: nat)
    decreases t
  {
    match t
    case Access(g, o, s) => FieldValue(env, g, 8 * o, s)
    case MaskLeft(m, x) => And(m, TermValue(x, env))
    case MaskRight(x, m) => And(TermValue(x, env), m)
    case ShiftLeft(x, n) => Low(Shl(TermValue(x, env), n), WIDTH)
    case ShiftRight(x, n) => Shr(TermValue(x, env), n)
  }

  predicate Holds(rel: Rel, a: nat, b: nat) {
    match rel
    case EQ => a == b
    case NE => a != b
    case LT => a < b
    case LE => a <= b
    case GT => a > b
    case GE => a >= b
  }

  /** An expression is true or false, unless a decision is met on the way, which
      ends the evaluation. */
  datatype Truth = True | False | Taken(decision: Decision)

  datatype Value = Value(truth: Truth, hist: Hist)

  function TruthOf(b: bool): Truth { if b then True else False }

  function Eval(e: Expr, env: Env, h: Hist): Value
    decreases e
  {
    match e
    case Const(n) => Value(TruthOf(n != 0), h)
    case Decide(d) => Value(Taken(d), h)
    case Compare(rel, x, c) => Value(TruthOf(Holds(rel, TermValue(x, env), c)), h)
    case ConformTo(k) => Value(TruthOf(Conforms(env, h, k)), h)
    case CountOn(k) => Value(True, h + [k])
    case LNot(a) =>
      var v := Eval(a, env, h);
      if v.truth.Taken? then v else Value(TruthOf(v.truth.False?), v.hist)
    case LAnd(a, b) =>
      var v := Eval(a, env, h);
      if v.truth.True? then Eval(b, env, v.hist) else v
    case LOr(a, b) =>
      var v := Eval(a, env, h);
      if v.truth.False? then Eval(b, env, v.hist) else v
  }

  /** Two expressions that decide alike and count alike, whatever the packet and
      the meters. */
  ghost predicate SameMeaning(a: Expr, b: Expr) {
    forall env, h :: Eval(a, env, h) == Eval(b, env, h)
  }

  // ----- replacing parts by their equals -----

  lemma CongruentNot(a: Expr, a': Expr)
    requires SameMeaning(a, a')
    ensures SameMeaning(LNot(a), LNot(a'))
  {
    forall env, h ensures Eval(LNot(a), env, h) == Eval(LNot(a'), env, h) {
      assert Eval(a, env, h) == Eval(a', env, h);
    }
  }

  lemma CongruentAnd(a: Expr, a': Expr, b: Expr, b': Expr)
    requires SameMeaning(a, a') && SameMeaning(b, b')
    ensures SameMeaning(LAnd(a, b), LAnd(a', b'))
  {
    forall env, h ensures Eval(LAnd(a, b), env, h) == Eval(LAnd(a', b'), env, h) {
      assert Eval(a, env, h) == Eval(a', env, h);
      assert Eval(b, env, Eval(a, env, h).hist) == Eval(b', env, Eval(a, env, h).hist);
    }
  }

  lemma CongruentOr(a: Expr, a': Expr, b: Expr, b': Expr)
    requires SameMeaning(a, a') && SameMeaning(b, b')
    ensures SameMeaning(LOr(a, b), LOr(a', b'))
  {
    forall env, h ensures Eval(LOr(a, b), env, h) == Eval(LOr(a', b'), env, h) {
      assert Eval(a, env, h) == Eval(a', env, h);
      assert Eval(b, env, Eval(a, env, h).hist) == Eval(b', env, Eval(a, env, h).hist);
    }
  }

  lemma SameMeaningTrans(a: Expr, b: Expr, c: Expr)
    requires SameMeaning(a, b) && SameMeaning(b, c)
    ensures SameMeaning(a, c)
  {
    forall env, h ensures Eval(a, env, h) == Eval(c, env, h) {
      assert Eval(a, env, h) == Eval(b, env, h);
    }
  }

  /** Can the expression come out true? An upper bound read off its shape. */
  predicate MayBeTrue(e: Expr) {
    match e
    case Const(n) => n != 0
    case Decide(_) => false
    case Compare(_, _, _) => true
    case ConformTo(_) => true
    case CountOn(_) => true
    case LNot(a) => MayBeFalse(a)
    case LAnd(a, b) => MayBeTrue(a) && MayBeTrue(b)
    case LOr(a, b) => MayBeTrue(a) || (MayBeFalse(a) && MayBeTrue(b))
  }

  predicate MayBeFalse(e: Expr) {
    match e
    case Const(n) => n == 0
    case Decide(_) => false
    case Compare(_, _, _) => true
    case ConformTo(_) => true
    case CountOn(_) => false
    case LNot(a) => MayBeTrue(a)
    case LAnd(a, b) => MayBeFalse(a) || (MayBeTrue(a) && MayBeFalse(b))
    case LOr(a, b) => MayBeFalse(a) && MayBeFalse(b)
  }

  lemma {:induction false} MayBeSound(e: Expr, env: Env, h: Hist)
    ensures Eval(e, env, h).truth.True? ==> MayBeTrue(e)
    ensures Eval(e, env, h).truth.False? ==> MayBeFalse(e)
    decreases e
  {
    match e
    case LNot(a) => MayBeSound(a, env, h);
    case LAnd(a, b) =>
      MayBeSound(a, env, h);
      MayBeSound(b, env, Eval(a, env, h).hist);
    case LOr(a, b) =>
      MayBeSound(a, env, h);
      MayBeSound(b, env, Eval(a, env, h).hist);
    case _ =>
  }
}
