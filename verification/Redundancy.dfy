/** Removal of repeated operands. */
module Redundancy {
  import opened Semantics
  import opened Expr
  import opened Normalize

  function Join(both: bool, a: Expr, b: Expr): Expr { if both then LAnd(a, b) else LOr(a, b) }

  predicate Joined(both: bool, d: Expr) { if both then d.LAnd? else d.LOr? }

  // ----- repeated operands -----

  /** The operands passed over, put back in front of the rest of the chain. */
  function Relink(both: bool, skipped: seq<Expr>, rest: Expr): Expr
    decreases |skipped|
  {
    if skipped == [] then rest else Join(both, skipped[0], Relink(both, skipped[1..], rest))
  }

  lemma {:induction false} RelinkLast(both: bool, skipped: seq<Expr>, x: Expr, rest: Expr)
    ensures Relink(both, skipped + [x], rest) == Relink(both, skipped, Join(both, x, rest))
    decreases |skipped|
  {
    if skipped != [] {
      assert (skipped + [x])[1..] == skipped[1..] + [x];
      RelinkLast(both, skipped[1..], x, rest);
    }
  }

  /** Behind an operand that came out `both`, two chain ends are as good as each
      other. */
  predicate AlikeBehind(a: Expr, both: bool, x: Expr, y: Expr, env: Env, h: Hist) {
    Eval(a, env, h).truth == TruthOf(both) ==> Eval(x, env, h) == Eval(y, env, h)
  }

  /** Behind `a` itself, a second `a` adds nothing, first or last. */
  lemma SecondTimeLucky(a: Expr, both: bool, x: Expr, env: Env, h: Hist)
    requires CountFree(a) && CountFree(x)
    ensures AlikeBehind(a, both, Join(both, a, x), x, env, h)
    ensures AlikeBehind(a, both, Join(both, x, a), x, env, h)
  {
    CountFreeEval(a, env, h);
    CountFreeEval(x, env, h);
  }

  /** What one search for a second `a` in the rest of a chain comes to: none, one with more
      of the chain behind it, or one at the end. */
  datatype Search = Nowhere | Before(rest: Expr) | AtEnd(rest: Expr)

  function SearchRepeat(both: bool, a: Expr, b: Expr): Search {
    if !Joined(both, b) then Nowhere
    else if a == b.a then Before(b.b)
    else if a == b.b then AtEnd(b.a)
    else
      match SearchRepeat(both, a, b.b)
      case Nowhere => Nowhere
      case Before(rest) => Before(Join(both, b.a, rest))
      case AtEnd(rest) => AtEnd(Join(both, b.a, rest))
  }

  lemma {:induction false} SearchSmaller(both: bool, a: Expr, b: Expr)
    ensures !SearchRepeat(both, a, b).Nowhere? ==> Nodes(SearchRepeat(both, a, b).rest) < Nodes(b)
    decreases b
  {
    if Joined(both, b) && a != b.a && a != b.b { SearchSmaller(both, a, b.b); }
  }

  /** The rest of a chain without what repeats `a`. */
  function Settle(both: bool, a: Expr, b: Expr): (b': Expr)
    ensures Nodes(b') <= Nodes(b)
    decreases Nodes(b)
  {
    SearchSmaller(both, a, b);
    match SearchRepeat(both, a, b)
    case Nowhere => b
    case Before(rest) => Settle(both, a, rest)
    case AtEnd(rest) => rest
  }

  /** Every chain without what repeats its first operand, and so on within the operands. */
  function Thinned(d: Expr): (d': Expr)
    ensures Nodes(d') <= Nodes(d)
    decreases Nodes(d)
  {
    match d
    case LNot(a) => LNot(Thinned(a))
    case LAnd(a, b) => LAnd(Thinned(a), Thinned(Settle(true, a, b)))
    case LOr(a, b) => LOr(Thinned(a), Thinned(Settle(false, a, b)))
    case _ => d
  }

  /** The operands passed over are not `a`, and nor was what came after each of them. */
  predicate PassedOver(both: bool, a: Expr, skipped: seq<Expr>, walk: Expr) {
    skipped == [] ||
    (skipped[0] != a && Relink(both, skipped[1..], walk) != a && PassedOver(both, a, skipped[1..], walk))
  }

  /** A search from further on is a search in the whole chain. */
  lemma {:induction false} SearchOn(both: bool, a: Expr, skipped: seq<Expr>, walk: Expr)
    requires PassedOver(both, a, skipped, walk)
    ensures SearchRepeat(both, a, Relink(both, skipped, walk)) ==
      match SearchRepeat(both, a, walk)
      case Nowhere => Nowhere
      case Before(rest) => Before(Relink(both, skipped, rest))
      case AtEnd(rest) => AtEnd(Relink(both, skipped, rest))
    decreases |skipped|
  {
    if skipped != [] { SearchOn(both, a, skipped[1..], walk); }
  }

  lemma {:induction false} PassOver(both: bool, a: Expr, skipped: seq<Expr>, x: Expr, rest: Expr)
    requires PassedOver(both, a, skipped, Join(both, x, rest)) && x != a && rest != a
    ensures PassedOver(both, a, skipped + [x], rest)
    decreases |skipped|
  {
    var more := skipped + [x];
    if skipped == [] {
      assert more[1..] == [];
    } else {
      assert more[1..] == skipped[1..] + [x];
      RelinkLast(both, skipped[1..], x, rest);
      PassOver(both, a, skipped[1..], x, rest);
    }
  }

  /** Looks through the rest of a chain for a second `a` and takes it out. */
  method DropRepeat(both: bool, a: Expr, b: Expr) returns (found: Search)
    ensures found == SearchRepeat(both, a, b)
  {
    var skipped, walk := [], b;
    while Joined(both, walk)
      invariant Relink(both, skipped, walk) == b && PassedOver(both, a, skipped, walk)
      decreases walk
    {
      if a == walk.a || a == walk.b {
        SearchOn(both, a, skipped, walk);
        return if a == walk.a then Before(Relink(both, skipped, walk.b)) else AtEnd(Relink(both, skipped, walk.a));
      }
      PassOver(both, a, skipped, walk.a, walk.b);
      RelinkLast(both, skipped, walk.a, walk.b);
      skipped, walk := skipped + [walk.a], walk.b;
    }
    SearchOn(both, a, skipped, walk);
    return Nowhere;
  }

  // ----- the meaning is kept -----

  /** Behind `a`, what is left of the chain means what all of it did. */
  lemma {:induction false} SearchAlike(both: bool, a: Expr, b: Expr, env: Env, h: Hist)
    requires CountFree(a) && CountFree(b) && !SearchRepeat(both, a, b).Nowhere?
    ensures CountFree(SearchRepeat(both, a, b).rest) && AlikeBehind(a, both, b, SearchRepeat(both, a, b).rest, env, h)
    decreases b
  {
    if a == b.a || a == b.b {
      SecondTimeLucky(a, both, if a == b.a then b.b else b.a, env, h);
    } else {
      SearchAlike(both, a, b.b, env, h);
      CountFreeEval(b.a, env, h);
    }
  }

  lemma {:induction false} SettleAlike(both: bool, a: Expr, b: Expr, env: Env, h: Hist)
    requires CountFree(a) && CountFree(b)
    ensures CountFree(Settle(both, a, b)) && AlikeBehind(a, both, b, Settle(both, a, b), env, h)
    decreases Nodes(b)
  {
    var found := SearchRepeat(both, a, b);
    if !found.Nowhere? {
      SearchAlike(both, a, b, env, h);
      SearchSmaller(both, a, b);
      if found.Before? { SettleAlike(both, a, found.rest, env, h); }
    }
  }

  lemma SettleSound(both: bool, a: Expr, b: Expr)
    requires CountFree(a) && CountFree(b)
    ensures CountFree(Settle(both, a, b)) && SameMeaning(Join(both, a, b), Join(both, a, Settle(both, a, b)))
  {
    var b' := Settle(both, a, b);
    forall env, h ensures Eval(Join(both, a, b), env, h) == Eval(Join(both, a, b'), env, h) {
      SettleAlike(both, a, b, env, h);
      CountFreeEval(a, env, h);
    }
    SettleAlike(both, a, b, Env((_, _) => false, (_, _) => false), []);
  }

  lemma {:induction false} ThinnedSound(d: Expr)
    requires CountFree(d)
    ensures CountFree(Thinned(d)) && SameMeaning(d, Thinned(d))
    decreases Nodes(d)
  {
    match d
    case LNot(a) => ThinnedSound(a); CongruentNot(a, Thinned(a));
    case LAnd(a, b) =>
      var b' := Settle(true, a, b);
      SettleSound(true, a, b);
      ThinnedSound(a);
      ThinnedSound(b');
      CongruentAnd(a, Thinned(a), b', Thinned(b'));
      SameMeaningTrans(d, LAnd(a, b'), Thinned(d));
    case LOr(a, b) =>
      var b' := Settle(false, a, b);
      SettleSound(false, a, b);
      ThinnedSound(a);
      ThinnedSound(b');
      CongruentOr(a, Thinned(a), b', Thinned(b'));
      SameMeaningTrans(d, LOr(a, b'), Thinned(d));
    case _ =>
  }

  /** Removes operands that repeat the first one of their chain. */
  method CommonSubexpressions(d: Expr) returns (d': Expr)
    ensures d' == Thinned(d) && Nodes(d') <= Nodes(d)
    ensures CountFree(d) ==> CountFree(d') && SameMeaning(d, d')
    decreases Nodes(d)
  {
    if CountFree(d) { ThinnedSound(d); }
    d' := d;
    while d'.LAnd? || d'.LOr?
      invariant Thinned(d') == Thinned(d) && Nodes(d') <= Nodes(d)
      invariant d'.LAnd? == d.LAnd? && d'.LOr? == d.LOr?
      decreases Nodes(d')
    {
      var both := d'.LAnd?;
      var found := DropRepeat(both, d'.a, d'.b);
      SearchSmaller(both, d'.a, d'.b);
      if found.Nowhere? { break; }
      d' := Join(both, d'.a, found.rest);
      if found.AtEnd? { break; }
    }
    match d' {
      case LNot(a) =>
        var a' := CommonSubexpressions(a);
        d' := LNot(a');
      case LAnd(a, b) =>
        var a' := CommonSubexpressions(a);
        var b' := CommonSubexpressions(b);
        d' := LAnd(a', b');
      case LOr(a, b) =>
        var a' := CommonSubexpressions(a);
        var b' := CommonSubexpressions(b);
        d' := LOr(a', b');
      case _ =>
    }
  }

  // ----- what is left of a chain -----

  function Operands(both: bool, d: Expr): (l: seq<Expr>)
    ensures l != []
  {
    if Joined(both, d) then [d.a] + Operands(both, d.b) else [d]
  }

  /** The chain leans right: none of its operands is a chain of the same kind. */
  predicate Leaning(both: bool, d: Expr) { Joined(both, d) ==> !Joined(both, d.a) && Leaning(both, d.b) }

  function Without(l: seq<Expr>, a: Expr): (r: seq<Expr>)
    ensures |r| <= |l|
  {
    if l == [] then [] else if l[0] == a then Without(l[1..], a) else [l[0]] + Without(l[1..], a)
  }

  lemma {:induction false} InWithout(l: seq<Expr>, a: Expr, x: Expr)
    ensures x in Without(l, a) <==> x in l && x != a
    decreases |l|
  {
    if l != [] {
      InWithout(l[1..], a, x);
      assert l == [l[0]] + l[1..];
    }
  }

  lemma {:induction false} WithoutAppend(k: seq<Expr>, l: seq<Expr>, a: Expr)
    ensures Without(k + l, a) == Without(k, a) + Without(l, a)
    decreases |k|
  {
    if k == [] {
      assert k + l == l;
    } else {
      assert (k + l)[1..] == k[1..] + l;
      WithoutAppend(k[1..], l, a);
    }
  }

  lemma {:induction false} WithoutNone(l: seq<Expr>, a: Expr)
    requires a !in l
    ensures Without(l, a) == l
    decreases |l|
  {
    if l != [] { WithoutNone(l[1..], a); }
  }

  /** What a search finds is the first place of `a`, unless that is all there is. */
  lemma {:induction false} SearchFinds(both: bool, a: Expr, b: Expr)
    requires !Joined(both, a) && Leaning(both, b)
    ensures
      var found, l := SearchRepeat(both, a, b), Operands(both, b);
      && (found.Nowhere? <==> |l| == 1 || a !in l)
      && (!found.Nowhere? ==> Leaning(both, found.rest) && Without(Operands(both, found.rest), a) == Without(l, a))
      && (found.AtEnd? ==> a !in Operands(both, found.rest))
    decreases b
  {
    if Joined(both, b) && a != b.a && a != b.b { SearchFinds(both, a, b.b); }
  }

  /** All that repeats `a` is gone from the rest of the chain, unless nothing else is there:
      then one `a` is left. */
  lemma {:induction false} SettleLeaves(both: bool, a: Expr, b: Expr)
    requires !Joined(both, a) && Leaning(both, b)
    ensures Leaning(both, Settle(both, a, b))
    ensures
      var l := Without(Operands(both, b), a);
      Operands(both, Settle(both, a, b)) == if l == [] then [a] else l
    decreases Nodes(b)
  {
    var found, l := SearchRepeat(both, a, b), Operands(both, b);
    SearchFinds(both, a, b);
    SearchSmaller(both, a, b);
    match found
    case Nowhere => if a !in l { WithoutNone(l, a); }
    case Before(rest) => SettleLeaves(both, a, rest);
    case AtEnd(rest) => WithoutNone(Operands(both, rest), a);
  }

  function Thin(l: seq<Expr>): (r: seq<Expr>)
    requires l != []
    ensures r != []
    decreases |l|
  {
    if |l| == 1 then l
    else
      var rest := Without(l[1..], l[0]);
      [l[0]] + if rest == [] then [l[0]] else Thin(rest)
  }

  function ThinnedAll(l: seq<Expr>): (r: seq<Expr>)
    ensures |r| == |l| && forall i | 0 <= i < |l| :: r[i] == Thinned(l[i])
  {
    seq(|l|, i requires 0 <= i < |l| => Thinned(l[i]))
  }

  lemma {:induction false} SearchLinear(both: bool, a: Expr, b: Expr)
    requires RightLinear(b) && !SearchRepeat(both, a, b).Nowhere? && !Joined(both, a)
    ensures RightLinear(SearchRepeat(both, a, b).rest)
    decreases b
  {
    if a != b.a && a != b.b { SearchLinear(both, a, b.b); }
  }

  lemma {:induction false} SettleLinear(both: bool, a: Expr, b: Expr)
    requires RightLinear(b) && !Joined(both, a)
    ensures RightLinear(Settle(both, a, b))
    decreases Nodes(b)
  {
    var found := SearchRepeat(both, a, b);
    if !found.Nowhere? {
      SearchLinear(both, a, b);
      SearchSmaller(both, a, b);
      if found.Before? { SettleLinear(both, a, found.rest); }
    }
  }

  lemma {:induction false} LinearLeans(both: bool, d: Expr)
    requires RightLinear(d)
    ensures Leaning(both, d)
    decreases d
  {
    if Joined(both, d) { LinearLeans(both, d.b); }
  }

  /** The operands of the result are those of the chain, each thinned out itself. */
  lemma {:induction false} ThinnedChain(both: bool, d: Expr)
    requires RightLinear(d)
    ensures Operands(both, Thinned(d)) == ThinnedAll(Thin(Operands(both, d)))
    decreases Nodes(d)
  {
    if Joined(both, d) {
      var b', l := Settle(both, d.a, d.b), Operands(both, d);
      LinearLeans(both, d);
      SettleLeaves(both, d.a, d.b);
      SettleLinear(both, d.a, d.b);
      ThinnedChain(both, b');
      assert l[1..] == Operands(both, d.b);
      assert Thin(l) == [d.a] + Thin(Operands(both, b'));
    }
  }

  /** The operands, each where it comes first. */
  function Firsts(l: seq<Expr>): (r: seq<Expr>)
    requires l != []
    ensures r != []
  {
    var k := |l| - 1;
    if k == 0 then l else if l[k] in l[..k] then Firsts(l[..k]) else Firsts(l[..k]) + [l[k]]
  }

  /** No operand is there twice, and none is missing. */
  lemma {:induction false} FirstsDistinct(l: seq<Expr>)
    requires l != []
    ensures forall x :: x in Firsts(l) <==> x in l
    ensures forall i, j | 0 <= i < j < |Firsts(l)| :: Firsts(l)[i] != Firsts(l)[j]
    decreases |l|
  {
    var k := |l| - 1;
    if k > 0 {
      FirstsDistinct(l[..k]);
      assert l == l[..k] + [l[k]];
    }
  }

  lemma FirstsEnd(l: seq<Expr>, x: Expr)
    requires l != []
    ensures Firsts(l + [x]) == if x in l then Firsts(l) else Firsts(l) + [x]
  {
    assert (l + [x])[..|l|] == l;
  }

  /** With the first operand put aside. */
  function FirstsAfter(a: Expr, w: seq<Expr>): seq<Expr> { if w == [] then [a] else [a] + Firsts(w) }

  lemma FirstsStep(a: Expr, m: seq<Expr>, w: seq<Expr>, end: Expr)
    requires w == Without(m, a) && end != a && Firsts([a] + m) == FirstsAfter(a, w)
    ensures Firsts([a] + m + [end]) == FirstsAfter(a, w + [end])
  {
    FirstsEnd([a] + m, end);
    InWithout(m, a, end);
    assert end in [a] + m <==> end in w;
    if w == [] {
      assert w + [end] == [end];
    } else {
      FirstsEnd(w, end);
      assert [a] + (Firsts(w) + [end]) == [a] + Firsts(w) + [end];
    }
  }

  lemma {:induction false} FirstsFront(a: Expr, l: seq<Expr>)
    ensures Firsts([a] + l) == FirstsAfter(a, Without(l, a))
    decreases |l|
  {
    if l == [] {
      assert [a] + l == [a];
    } else {
      var k := |l| - 1;
      var m, end := l[..k], l[k];
      var w := Without(m, a);
      FirstsFront(a, m);
      WithoutAppend(m, [end], a);
      OneWithout(end, a);
      assert l == m + [end] && [a] + l == [a] + m + [end];
      if end == a {
        FirstsEnd([a] + m, end);
        assert w + [] == w;
      } else {
        FirstsStep(a, m, w, end);
      }
    }
  }

  lemma OneWithout(x: Expr, a: Expr)
    ensures Without([x], a) == if x == a then [] else [x]
  {
    assert [x][1..] == [];
  }

  /** What is left of a chain: its operands, each where it comes first. But if the one that
      comes first last comes again, it stays twice. */
  lemma {:induction false} ThinIs(l: seq<Expr>)
    requires l != []
    ensures Thin(l) == Firsts(l) + LastAgain(l)
    decreases |l|
  {
    if |l| > 1 {
      var rest := Without(l[1..], l[0]);
      assert l == [l[0]] + l[1..];
      FirstsFront(l[0], l[1..]);
      if rest == [] {
        OnlyThis(l[1..], l[0]);
        assert multiset(l)[l[0]] > 1;
      } else {
        ThinIs(rest);
        LastBehind(l[0], l[1..]);
      }
    }
  }

  /** The last one of `firsts`, if it comes again in `l`. */
  function Again(l: seq<Expr>, firsts: seq<Expr>): seq<Expr>
    requires firsts != []
  {
    var last := firsts[|firsts| - 1];
    if multiset(l)[last] > 1 then [last] else []
  }

  function LastAgain(l: seq<Expr>): seq<Expr>
    requires l != []
  {
    Again(l, Firsts(l))
  }

  lemma AgainBehind(a: Expr, l: seq<Expr>, rest: seq<Expr>, firsts: seq<Expr>)
    requires firsts != [] && firsts[|firsts| - 1] != a
    requires multiset(rest)[firsts[|firsts| - 1]] == multiset(l)[firsts[|firsts| - 1]]
    ensures Again([a] + l, [a] + firsts) == Again(rest, firsts)
  {
    assert ([a] + firsts)[|firsts|] == firsts[|firsts| - 1];
  }

  lemma LastBehind(a: Expr, l: seq<Expr>)
    requires Without(l, a) != []
    ensures LastAgain([a] + l) == LastAgain(Without(l, a))
  {
    var rest := Without(l, a);
    var firsts := Firsts(rest);
    var last := firsts[|firsts| - 1];
    FirstsFront(a, l);
    LastOf(rest);
    InWithout(l, a, last);
    WithoutCounts(l, a, last);
    AgainBehind(a, l, rest, firsts);
  }

  lemma {:induction false} LastOf(l: seq<Expr>)
    requires l != []
    ensures Firsts(l)[|Firsts(l)| - 1] in l
    decreases |l|
  {
    if |l| > 1 { LastOf(l[..|l| - 1]); }
  }

  lemma OnlyThis(l: seq<Expr>, a: Expr)
    requires l != [] && Without(l, a) == []
    ensures multiset(l)[a] > 0
  {
    InWithout(l, a, l[0]);
    assert a in multiset(l);
  }

  lemma {:induction false} WithoutCounts(l: seq<Expr>, a: Expr, x: Expr)
    requires x != a
    ensures multiset(Without(l, a))[x] == multiset(l)[x]
    decreases |l|
  {
    if l != [] {
      WithoutCounts(l[1..], a, x);
      assert l == [l[0]] + l[1..];
    }
  }

  predicate Leaf(d: Expr) { !d.LNot? && !d.LAnd? && !d.LOr? }

  /** On a chain of tests that is all. */
  lemma TestsThinned(both: bool, d: Expr)
    requires RightLinear(d) && forall x | x in Operands(both, d) :: Leaf(x)
    ensures Operands(both, Thinned(d)) == Firsts(Operands(both, d)) + LastAgain(Operands(both, d))
  {
    ThinnedChain(both, d);
    ThinLeaves(Operands(both, d));
    ThinIs(Operands(both, d));
  }

  lemma ThinLeaves(l: seq<Expr>)
    requires l != [] && forall x | x in l :: Leaf(x)
    ensures ThinnedAll(Thin(l)) == Thin(l)
  {
    var t := Thin(l);
    forall i | 0 <= i < |t| ensures Thinned(t[i]) == t[i] { ThinFrom(l, i); }
  }

  lemma {:induction false} ThinFrom(l: seq<Expr>, i: nat)
    requires l != [] && i < |Thin(l)|
    ensures Thin(l)[i] in l
    decreases |l|
  {
    if |l| > 1 && i > 0 {
      var rest := Without(l[1..], l[0]);
      if rest != [] {
        ThinFrom(rest, i - 1);
        InWithout(l[1..], l[0], Thin(rest)[i - 1]);
      }
    }
  }

  /** Nothing changes, or the expression gets smaller. */
  lemma {:induction false} ThinnedSmaller(d: Expr)
    ensures Thinned(d) == d || Nodes(Thinned(d)) < Nodes(d)
    decreases Nodes(d)
  {
    match d
    case LNot(a) => ThinnedSmaller(a);
    case LAnd(a, b) => ThinnedSmaller(a); SettleSmaller(true, a, b); ThinnedSmaller(Settle(true, a, b));
    case LOr(a, b) => ThinnedSmaller(a); SettleSmaller(false, a, b); ThinnedSmaller(Settle(false, a, b));
    case _ =>
  }

  lemma SettleSmaller(both: bool, a: Expr, b: Expr)
    ensures Settle(both, a, b) == b || Nodes(Settle(both, a, b)) < Nodes(b)
  {
    SearchSmaller(both, a, b);
  }

  /** `a && a` stays as it is, alone or at the end of a chain. */
  lemma TwiceAtEnd(both: bool, a: Expr)
    requires Leaf(a)
    ensures Thinned(Join(both, a, a)) == Join(both, a, a)
  {}
}
