/** Expressions that settle a packet's fate, and the dead branches behind them. */
module Actions {
  import opened Semantics
  import opened Expr

  /** What is known of an expression that may or may not take a decision. */
  datatype Settling = Open | NeverTrue | NeverFalse | Settled

  function SettleAnd(a: Settling, b: Settling): Settling {
    if a == Settled || a == NeverTrue then a
    else if a == NeverFalse then b
    else if b == Settled || b == NeverTrue then NeverTrue else Open
  }

  function SettleOr(a: Settling, b: Settling): Settling {
    if a == Settled || a == NeverFalse then a
    else if a == NeverTrue then b
    else if b == Settled || b == NeverFalse then NeverFalse else Open
  }

  function SelfContained(d: Expr): Settling {
    match d
    case Const(n) => if n != 0 then NeverFalse else NeverTrue
    case Decide(_) => Settled
    case ConformTo(_) => Open
    case CountOn(_) => NeverFalse
    case LNot(a) =>
      (match SelfContained(a)
       case Open => Open
       case NeverFalse => NeverTrue
       case NeverTrue => NeverFalse
       case Settled => Settled)
    case LAnd(a, b) => SettleAnd(SelfContained(a), SelfContained(b))
    case LOr(a, b) => SettleOr(SelfContained(a), SelfContained(b))
    case Compare(_, _, _) => Open
  }

  /** The classification never errs, side effects and all. */
  lemma {:induction false} SelfContainedSound(d: Expr, env: Env, h: Hist)
    ensures SelfContained(d) == Settled ==> Eval(d, env, h).truth.Taken?
    ensures SelfContained(d) == NeverTrue ==> !Eval(d, env, h).truth.True?
    ensures SelfContained(d) == NeverFalse ==> !Eval(d, env, h).truth.False?
    decreases d
  {
    match d
    case LNot(a) => SelfContainedSound(a, env, h);
    case LAnd(a, b) =>
      SelfContainedSound(a, env, h);
      SelfContainedSound(b, env, Eval(a, env, h).hist);
    case LOr(a, b) =>
      SelfContainedSound(a, env, h);
      SelfContainedSound(b, env, Eval(a, env, h).hist);
    case _ =>
  }

  predicate ActionTree(d: Expr) {
    match d
    case Decide(_) => true
    case ConformTo(_) => true
    case CountOn(_) => true
    case LAnd(a, b) => ActionTree(a) && (SelfContained(a) == Settled || ActionTree(b))
    case LOr(a, b) => ActionTree(a) && (SelfContained(a) == Settled || ActionTree(b))
    case _ => false
  }

  predicate SideEffect(d: Expr) {
    match d
    case Decide(_) => true
    case CountOn(_) => true
    case LNot(a) => SideEffect(a)
    case LAnd(a, b) => SideEffect(a) || SideEffect(b)
    case LOr(a, b) => SideEffect(a) || SideEffect(b)
    case _ => false
  }

  /** Without side effects an expression is just a condition. */
  lemma {:induction false} NoSideEffect(d: Expr, env: Env, h: Hist)
    requires !SideEffect(d)
    ensures Eval(d, env, h).hist == h && !Eval(d, env, h).truth.Taken?
    decreases d
  {
    match d
    case LNot(a) => NoSideEffect(a, env, h);
    case LAnd(a, b) => NoSideEffect(a, env, h); NoSideEffect(b, env, h);
    case LOr(a, b) => NoSideEffect(a, env, h); NoSideEffect(b, env, h);
    case _ =>
  }

  /** What follows an operand that settles the matter is never evaluated. */
  lemma SettledFirst(a: Expr, b: Expr)
    ensures SelfContained(a) == Settled || SelfContained(a) == NeverTrue ==> SameMeaning(LAnd(a, b), a)
    ensures SelfContained(a) == Settled || SelfContained(a) == NeverFalse ==> SameMeaning(LOr(a, b), a)
  {
    forall env, h
      ensures SelfContained(a) == Settled || SelfContained(a) == NeverTrue ==> Eval(LAnd(a, b), env, h) == Eval(a, env, h)
      ensures SelfContained(a) == Settled || SelfContained(a) == NeverFalse ==> Eval(LOr(a, b), env, h) == Eval(a, env, h)
    {
      SelfContainedSound(a, env, h);
    }
  }

  // ----- trimming -----

  /** No operand follows one that always decides. */
  predicate Trimmed(d: Expr) {
    match d
    case LNot(a) => Trimmed(a)
    case LAnd(a, b) => Trimmed(a) && Trimmed(b) && SelfContained(a) != Settled
    case LOr(a, b) => Trimmed(a) && Trimmed(b) && SelfContained(a) != Settled
    case _ => true
  }

  /** Drops what follows a self-contained operand. */
  method TrimSelfContained(d: Expr) returns (d': Expr)
    ensures SameMeaning(d, d') && Trimmed(d')
    decreases d
  {
    match d {
      case LNot(a) =>
        var a' := TrimSelfContained(a);
        CongruentNot(a, a');
        d' := LNot(a');
      case LAnd(a, b) =>
        var a' := TrimSelfContained(a);
        var b' := TrimSelfContained(b);
        CongruentAnd(a, a', b, b');
        d' := LAnd(a', b');
        if SelfContained(a') == Settled {
          SettledFirst(a', b');
          SameMeaningTrans(d, d', a');
          d' := a';
        }
      case LOr(a, b) =>
        var a' := TrimSelfContained(a);
        var b' := TrimSelfContained(b);
        CongruentOr(a, a', b, b');
        d' := LOr(a', b');
        if SelfContained(a') == Settled {
          SettledFirst(a', b');
          SameMeaningTrans(d, d', a');
          d' := a';
        }
      case _ => d' := d;
    }
  }

  // ----- shortcuts -----

  /** No operator has a constant or a decision on its left, nor a constant on its
      right, except one kept for the side effects before it. */
  predicate Pruned(d: Expr) {
    match d
    case LNot(a) => Pruned(a)
    case LAnd(a, b) =>
      Pruned(a) && Pruned(b) && !a.Decide? && !a.Const? && (b.Const? ==> b.value == 0 && SideEffect(a))
    case LOr(a, b) =>
      Pruned(a) && Pruned(b) && !a.Decide? && !a.Const? && (b.Const? ==> b.value != 0 && SideEffect(a))
    case _ => true
  }

  method PruneAnd(a: Expr, b: Expr) returns (d: Expr)
    requires Pruned(a) && Pruned(b)
    ensures SameMeaning(LAnd(a, b), d) && Pruned(d)
  {
    if a.Decide? { return a; }
    if a.Const? {
      if a.value == 0 { return Const(0); }
      return b;
    }
    if b.Const? {
      if b.value == 0 && !SideEffect(a) {
        forall env, h ensures Eval(LAnd(a, b), env, h) == Eval(Const(0), env, h) { NoSideEffect(a, env, h); }
        return Const(0);
      }
      if b.value != 0 { return a; }
    }
    return LAnd(a, b);
  }

  method PruneOr(a: Expr, b: Expr) returns (d: Expr)
    requires Pruned(a) && Pruned(b)
    ensures SameMeaning(LOr(a, b), d) && Pruned(d)
  {
    if a.Decide? { return a; }
    if a.Const? {
      if a.value != 0 { return Const(1); }
      return b;
    }
    if b.Const? {
      if b.value != 0 && !SideEffect(a) {
        forall env, h ensures Eval(LOr(a, b), env, h) == Eval(Const(1), env, h) { NoSideEffect(a, env, h); }
        return Const(1);
      }
      if b.value == 0 { return a; }
    }
    return LOr(a, b);
  }

  /** Removes branches that shortcut evaluation never reaches. */
  method PruneShortcuts(d: Expr) returns (d': Expr)
    ensures SameMeaning(d, d') && Pruned(d')
    decreases d
  {
    match d {
      case LNot(a) =>
        var a' := PruneShortcuts(a);
        CongruentNot(a, a');
        d' := LNot(a');
      case LAnd(a, b) =>
        var a' := PruneShortcuts(a);
        var b' := PruneShortcuts(b);
        CongruentAnd(a, a', b, b');
        d' := PruneAnd(a', b');
        SameMeaningTrans(d, LAnd(a', b'), d');
      case LOr(a, b) =>
        var a' := PruneShortcuts(a);
        var b' := PruneShortcuts(b);
        CongruentOr(a, a', b, b');
        d' := PruneOr(a', b');
        SameMeaningTrans(d, LOr(a', b'), d');
      case _ => d' := d;
    }
  }
}
