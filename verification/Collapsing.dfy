/** States that are always reached: what `gather_common` looks for, and why such a
    state may replace the node above it. */
module Collapsing {
  import opened Semantics
  import opened Graph
  import opened Repeats
  import opened Merging
  import opened Static
  import opened Shape

  /** Every path from `r` meets `x` before it gets past a count. */
  ghost predicate OnAll(s: Store, r: Ref, x: Ref)
    requires Acyclic(s) && r < |s|
    decreases Rank(s)[r]
  {
    r == x
    || (Inner(s[r]) && (EdgeDown(s, r, true); EdgeDown(s, r, false);
                        OnAll(s, s[r].t, x) && OnAll(s, s[r].f, x)))
  }

  ghost predicate CommonBelow(s: Store, r: Ref, x: Ref)
    requires Acyclic(s) && r < |s|
  {
    Inner(s[r]) && (EdgeDown(s, r, true); EdgeDown(s, r, false);
                    OnAll(s, s[r].t, x) && OnAll(s, s[r].f, x))
  }

  ghost predicate NothingCommon(s: Store, r: Ref)
    requires Acyclic(s) && r < |s|
  {
    forall x :: !CommonBelow(s, r, x)
  }

  lemma {:induction false} OnAllRank(s: Store, rk: seq<nat>, r: Ref, x: Ref)
    requires Acyclic(s) && Ranked(s, rk) && r < |s| && OnAll(s, r, x)
    ensures x < |s| && rk[x] <= rk[r] && (x != r ==> rk[x] < rk[r])
    decreases Rank(s)[r]
  {
    if r != x {
      EdgeDown(s, r, true);
      assert Below(s, rk, r, true);
      OnAllRank(s, rk, s[r].t, x);
    }
  }

  lemma {:induction false} OnAllLive(s: Store, live: set<Ref>, r: Ref, x: Ref)
    requires Acyclic(s) && Closed(s, live) && r in live && OnAll(s, r, x)
    ensures x in live
    decreases Rank(s)[r]
  {
    if r != x {
      EdgeDown(s, r, true);
      assert HasEdge(s[r], true);
      OnAllLive(s, live, s[r].t, x);
    }
  }

  lemma {:induction false} OnAllRun(s: Store, r: Ref, x: Ref, env: Env, h: Hist)
    requires Acyclic(s) && r < |s| && x < |s| && OnAll(s, r, x)
    ensures Run(s, x, env, h) == Run(s, r, env, h)
    decreases Rank(s)[r]
  {
    if r != x {
      EdgeDown(s, r, true); EdgeDown(s, r, false);
      OnAllRun(s, Edge(s[r], Takes(s[r], env, h)), x, env, h);
    }
  }

  lemma {:induction false} OnAllNoRepeat(s: Store, r: Ref, x: Ref, seen: set<Key>)
    requires Acyclic(s) && r < |s| && x < |s| && OnAll(s, r, x) && NoRepeat(s, r, seen)
    ensures NoRepeat(s, x, seen)
    decreases Rank(s)[r]
  {
    if r != x {
      EdgeDown(s, r, true);
      NoRepeatEdge(s, r, seen, true);
      NoRepeatFewer(s, s[r].t, seen + Tests(s[r]), seen);
      OnAllNoRepeat(s, s[r].t, x, seen);
    }
  }

  lemma {:induction false} OnAllShape(s: Store, r: Ref, x: Ref)
    requires Acyclic(s) && r < |s| && x < |s| && OnAll(s, r, x)
    ensures NoData(s, r) ==> NoData(s, x)
    ensures IsStatic(s, r) ==> IsStatic(s, x)
    ensures forall g :: Plain(s, r, g) ==> Plain(s, x, g)
    ensures FewerTests(s, r, s, x)
    decreases Rank(s)[r]
  {
    if r != x {
      EdgeDown(s, r, true);
      EdgeShape(s, r, true);
      SeparateEdge(s, r, true);
      OnAllShape(s, s[r].t, x);
    }
  }

  lemma {:induction false} OnAllTrans(s: Store, a: Ref, b: Ref, c: Ref)
    requires Acyclic(s) && a < |s| && b < |s| && OnAll(s, a, b) && OnAll(s, b, c)
    ensures OnAll(s, a, c)
    decreases Rank(s)[a]
  {
    if a != b {
      EdgeDown(s, a, true); EdgeDown(s, a, false);
      OnAllTrans(s, s[a].t, b, c);
      OnAllTrans(s, s[a].f, b, c);
    }
  }

  /** A node met on all paths can replace its ancestor. */
  lemma OnAllReplaces(s: Store, r: Ref, x: Ref)
    requires Acyclic(s) && r < |s| && x < |s| && OnAll(s, r, x)
    ensures Equivalent(s, x, r) && FitsWhere(s, r, x)
  {
    forall env, h ensures Run(s, x, env, h) == Run(s, r, env, h) { OnAllRun(s, r, x, env, h); }
    forall seen | NoRepeat(s, r, seen) ensures NoRepeat(s, x, seen) { OnAllNoRepeat(s, r, x, seen); }
    OnAllShape(s, r, x);
  }

  /** Nodes above `low` are as they were. */
  ghost predicate SameAbove(s: Store, s': Store, rk: seq<nat>, low: nat) {
    |s| == |s'| == |rk| && forall i: Ref :: i < |s| && rk[i] > low ==> s'[i] == s[i]
  }

  lemma {:induction false} OnAllKept(s: Store, s': Store, rk: seq<nat>, r: Ref, x: Ref)
    requires Acyclic(s) && Acyclic(s') && Ranked(s, rk) && r < |s| && x < |s| && OnAll(s, r, x)
    requires SameAbove(s, s', rk, rk[x])
    ensures OnAll(s', r, x)
    decreases Rank(s)[r]
  {
    if r != x {
      OnAllRank(s, rk, r, x);
      EdgeDown(s, r, true); EdgeDown(s, r, false);
      OnAllKept(s, s', rk, s[r].t, x);
      OnAllKept(s, s', rk, s[r].f, x);
    }
  }

  /** Nothing has become common that was not. */
  ghost predicate Shrinks(s: Store, s': Store) {
    Acyclic(s) && Acyclic(s') && |s| == |s'|
    && forall r: Ref, x :: r < |s| && OnAll(s', r, x) ==> OnAll(s, r, x)
  }

  lemma ShrinksTrans(a: Store, b: Store, c: Store)
    requires Shrinks(a, b) && Shrinks(b, c)
    ensures Shrinks(a, c)
  {}

  lemma {:induction false} RedirectOnAll(s: Store, s': Store, p: Ref, br: bool, q: Ref, r: Ref, x: Ref)
    requires Acyclic(s) && Acyclic(s') && Redirected(s, s', p, br, q) && Edge(s[p], br) < |s|
    requires OnAll(s, Edge(s[p], br), q) && r < |s| && OnAll(s', r, x)
    ensures OnAll(s, r, x)
    decreases Rank(s')[r]
  {
    if r != x {
      EdgeDown(s', r, true); EdgeDown(s', r, false);
      RedirectOnAll(s, s', p, br, q, s'[r].t, x);
      RedirectOnAll(s, s', p, br, q, s'[r].f, x);
      if r == p { OnAllTrans(s, Edge(s[p], br), q, x); }
    }
  }

  lemma RedirectShrinks(s: Store, s': Store, p: Ref, br: bool, q: Ref)
    requires Acyclic(s) && Acyclic(s') && Redirected(s, s', p, br, q) && Edge(s[p], br) < |s|
    requires OnAll(s, Edge(s[p], br), q)
    ensures Shrinks(s, s')
  {
    forall r: Ref, x | r < |s| && OnAll(s', r, x) ensures OnAll(s, r, x) {
      RedirectOnAll(s, s', p, br, q, r, x);
    }
  }

  /** No live node offers a choice that is none. */
  ghost predicate Choices(s: Store, live: set<Ref>) {
    forall r | r in live :: r < |s| && !Redundant(s[r])
  }

  lemma StillNothingCommon(s: Store, s': Store, r: Ref)
    requires Shrinks(s, s') && r < |s| && s'[r] == s[r] && NothingCommon(s, r)
    ensures NothingCommon(s', r)
  {
    forall x ensures !CommonBelow(s', r, x) {
      if CommonBelow(s', r, x) {
        EdgeDown(s, r, true); EdgeDown(s, r, false);
        EdgeDown(s', r, true); EdgeDown(s', r, false);
        assert CommonBelow(s, r, x);
      }
    }
  }

  /** Moving a branch down to a node it always reaches neither uncovers something
      common nor makes the branches meet. */
  lemma RedirectNothingCommon(s: Store, s': Store, p: Ref, br: bool, q: Ref)
    requires Acyclic(s) && Acyclic(s') && Redirected(s, s', p, br, q) && Edge(s[p], br) < |s|
    requires OnAll(s, Edge(s[p], br), q) && NothingCommon(s, p)
    ensures NothingCommon(s', p) && !Redundant(s'[p])
  {
    RedirectShrinks(s, s', p, br, q);
    if Inner(s[p]) {
      EdgeDown(s, p, true); EdgeDown(s, p, false);
      EdgeDown(s', p, true); EdgeDown(s', p, false);
      if s'[p].t == s'[p].f { assert CommonBelow(s, p, q); }
      forall x ensures !CommonBelow(s', p, x) {
        if CommonBelow(s', p, x) {
          assert OnAll(s, q, x);
          OnAllTrans(s, Edge(s[p], br), q, x);
          assert CommonBelow(s, p, x);
        }
      }
    }
  }

  // ----- nothing in common further down -----

  /** From no node at or below `r` do all ways on meet again before a count. */
  ghost predicate Tight(s: Store, r: Ref)
    requires Acyclic(s) && r < |s|
    decreases Rank(s)[r]
  {
    NothingCommon(s, r) && forall br | HasEdge(s[r], br) :: (EdgeDown(s, r, br); Tight(s, Edge(s[r], br)))
  }

  ghost predicate KeepsTight(s: Store, s': Store) {
    Acyclic(s) && Acyclic(s') && |s| == |s'| && forall r: Ref | r < |s| && Tight(s, r) :: Tight(s', r)
  }

  lemma KeepsTightTrans(a: Store, b: Store, c: Store)
    requires KeepsTight(a, b) && KeepsTight(b, c)
    ensures KeepsTight(a, c)
  {}

  lemma {:induction false} OnAllTight(s: Store, r: Ref, x: Ref)
    requires Acyclic(s) && r < |s| && x < |s| && OnAll(s, r, x) && Tight(s, r)
    ensures Tight(s, x)
    decreases Rank(s)[r]
  {
    if r != x {
      EdgeDown(s, r, true);
      assert HasEdge(s[r], true);
      OnAllTight(s, s[r].t, x);
    }
  }

  lemma {:induction false} RedirectTight(s: Store, s': Store, p: Ref, br: bool, q: Ref, rk: seq<nat>, r: Ref)
    requires Acyclic(s) && Acyclic(s') && Ranked(s, rk) && Redirected(s, s', p, br, q) && Edge(s[p], br) < |s|
    requires OnAll(s, Edge(s[p], br), q) && r < |s| && Tight(s, r)
    ensures Tight(s', r)
    decreases rk[r]
  {
    RedirectShrinks(s, s', p, br, q);
    if r == p { RedirectNothingCommon(s, s', p, br, q); } else { StillNothingCommon(s, s', r); }
    forall b | HasEdge(s'[r], b) ensures Edge(s'[r], b) < |s| && Tight(s', Edge(s'[r], b)) {
      assert HasEdge(s[r], b) && Below(s, rk, r, b);
      EdgeDown(s, r, b);
      assert Tight(s, Edge(s[r], b));
      if r == p && b == br {
        OnAllRank(s, rk, Edge(s[p], br), q);
        OnAllTight(s, Edge(s[p], br), q);
        RedirectTight(s, s', p, br, q, rk, q);
      } else {
        RedirectTight(s, s', p, br, q, rk, Edge(s[r], b));
      }
    }
  }

  lemma RedirectKeepsTight(s: Store, s': Store, p: Ref, br: bool, q: Ref, rk: seq<nat>)
    requires Acyclic(s) && Acyclic(s') && Ranked(s, rk) && Redirected(s, s', p, br, q) && Edge(s[p], br) < |s|
    requires OnAll(s, Edge(s[p], br), q)
    ensures KeepsTight(s, s')
  {
    forall r: Ref | r < |s| && Tight(s, r) ensures Tight(s', r) { RedirectTight(s, s', p, br, q, rk, r); }
  }

  ghost predicate TightEdge(s: Store, r: Ref, br: bool)
    requires Acyclic(s) && r < |s|
  {
    HasEdge(s[r], br) ==> (EdgeDown(s, r, br); Tight(s, Edge(s[r], br)))
  }

  /** One branch was done before, and the other is now. */
  lemma BothTight(s: Store, s': Store, r: Ref)
    requires KeepsTight(s, s') && r < |s| && SameTest(s'[r], s[r]) && TightEdge(s, r, true) && TightEdge(s', r, false)
    requires NothingCommon(s', r) && (HasEdge(s'[r], true) ==> Edge(s'[r], true) == Edge(s[r], true))
    ensures Tight(s', r)
  {
    forall br | HasEdge(s'[r], br) ensures Edge(s'[r], br) < |s| && Tight(s', Edge(s'[r], br)) {
      EdgeDown(s', r, br);
      if br { EdgeDown(s, r, true); }
    }
  }

  // ----- lists of common nodes -----

  ghost predicate Ascending(rk: seq<nat>, list: seq<Ref>) {
    && (forall i | 0 <= i < |list| :: list[i] < |rk|)
    && (forall i, j | 0 <= i < j < |list| :: rk[list[i]] < rk[list[j]])
  }

  ghost predicate Descending(rk: seq<nat>, list: seq<Ref>) {
    && (forall i | 0 <= i < |list| :: list[i] < |rk|)
    && (forall i, j | 0 <= i < j < |list| :: rk[list[i]] > rk[list[j]])
  }

  lemma DescendingPush(rk: seq<nat>, walk: seq<Ref>, last: Ref, next: Ref)
    requires Descending(rk, walk + [last]) && next < |rk| && last < |rk| && rk[next] < rk[last]
    ensures Descending(rk, walk + [last] + [next])
  {
    var old', new' := walk + [last], walk + [last] + [next];
    forall i, j | 0 <= i < j < |new'| ensures rk[new'[i]] > rk[new'[j]] {
      assert old'[|walk|] == last;
      assert new'[i] == old'[i];
      if j < |old'| { assert new'[j] == old'[j]; }
    }
  }

  lemma LowestFirst(rk: seq<nat>, list: seq<Ref>, x: Ref)
    requires Ascending(rk, list) && x in list
    ensures x < |rk| && rk[list[0]] <= rk[x]
  {
    var i :| 0 <= i < |list| && list[i] == x;
  }

  /** The deepest node common to both branches has nothing common below it. */
  lemma DeepestIsLast(s: Store, rk: seq<nat>, r: Ref, x: Ref)
    requires Acyclic(s) && Ranked(s, rk) && r < |s| && x < |s| && CommonBelow(s, r, x)
    requires forall y: Ref :: CommonBelow(s, r, y) ==> y < |s| && rk[x] <= rk[y]
    ensures NothingCommon(s, x)
  {
    EdgeDown(s, r, true); EdgeDown(s, r, false);
    forall y ensures !CommonBelow(s, x, y) {
      if CommonBelow(s, x, y) {
        EdgeDown(s, x, true);
        OnAllRank(s, rk, s[x].t, y);
        assert Below(s, rk, x, true);
        OnAllTrans(s, s[r].t, x, y);
        OnAllTrans(s, s[r].f, x, y);
        assert false;
      }
    }
  }

  // ----- what collapsing may do -----

  /** `x` stands where `r` stood, and only nodes from `x` downwards have changed. */
  ghost predicate Collapsed(s: Store, rk: seq<nat>, live: set<Ref>, s': Store, r: Ref, x: Ref) {
    && |s| == |s'| && Preserves(s, s') && KeepsShape(s, s') && Shrinks(s, s') && KeepsTight(s, s')
    && Ranked(s', rk) && Closed(s', live)
    && (forall i | i in live :: i < |s| && SameTest(s'[i], s[i]))
    && r < |s| && x < |s| && OnAll(s, r, x) && SameAbove(s, s', rk, rk[x])
    && (Choices(s, live) ==> Choices(s', live))
    && (MetersLow(s, live) ==> MetersLow(s', live))
  }

  lemma CollapsedTrans(a: Store, b: Store, c: Store, rk: seq<nat>, live: set<Ref>, r: Ref, x: Ref, y: Ref, z: Ref)
    requires Ranked(a, rk) && Collapsed(a, rk, live, b, r, x) && Collapsed(b, rk, live, c, y, z) && rk[z] <= rk[x]
    ensures Collapsed(a, rk, live, c, r, x)
  {
    PreservesTrans(a, b, c);
    KeepsShapeTrans(a, b, c);
    ShrinksTrans(a, b, c);
    KeepsTightTrans(a, b, c);
    assert forall i | i in live :: SameTest(b[i], a[i]) && SameTest(c[i], b[i]);
  }

  lemma {:induction false} OnAllLow(s: Store, live: set<Ref>, r: Ref, x: Ref)
    requires Acyclic(s) && Closed(s, live) && MetersLow(s, live) && r in live && r < |s| && !s[r].Data?
    requires OnAll(s, r, x)
    ensures x < |s| && !s[x].Data?
    decreases Rank(s)[r]
  {
    if r != x {
      EdgeDown(s, r, true);
      assert LowAt(s, r, true) && HasEdge(s[r], true);
      OnAllLow(s, live, s[r].t, x);
    }
  }

  lemma RedirectLow(s: Store, s': Store, live: set<Ref>, p: Ref, br: bool, q: Ref)
    requires Acyclic(s) && Closed(s, live) && MetersLow(s, live) && p in live && q in live
    requires Redirected(s, s', p, br, q) && Edge(s[p], br) < |s| && OnAll(s, Edge(s[p], br), q)
    ensures MetersLow(s', live)
  {
    forall r, b | r in live ensures LowAt(s', r, b) {
      assert LowAt(s, r, b);
      if r == p && b == br && Meter(s[p]) { OnAllLow(s, live, Edge(s[p], br), q); }
    }
  }

  /** One branch of `x` has been collapsed to `q`, in store `b`; now point it there. */
  lemma PointCollapsed(a: Store, b: Store, c: Store, rk: seq<nat>, live: set<Ref>, x: Ref, br: bool, q: Ref)
    requires Ranked(a, rk) && Closed(a, live) && x in live && HasEdge(a[x], br) && Edge(a[x], br) < |a|
    requires Collapsed(a, rk, live, b, Edge(a[x], br), q) && rk[q] < rk[x] && NothingCommon(a, x)
    requires Redirected(b, c, x, br, q) && Preserves(b, c) && KeepsShape(b, c) && Ranked(c, rk)
    ensures Collapsed(a, rk, live, c, x, x) && NothingCommon(c, x) && (Tight(b, q) ==> Tight(c, q))
  {
    assert Below(a, rk, x, br);
    assert b[x] == a[x];
    OnAllKept(a, b, rk, Edge(a[x], br), q);
    RedirectShrinks(b, c, x, br, q);
    ShrinksTrans(a, b, c);
    RedirectKeepsTight(b, c, x, br, q, rk);
    KeepsTightTrans(a, b, c);
    PreservesTrans(a, b, c);
    KeepsShapeTrans(a, b, c);
    StillNothingCommon(a, b, x);
    RedirectNothingCommon(b, c, x, br, q);
    OnAllRank(a, rk, Edge(a[x], br), q);
    OnAllLive(a, live, Edge(a[x], br), q);
    if MetersLow(b, live) { RedirectLow(b, c, live, x, br, q); }
    forall i, b' | i in live && HasEdge(c[i], b') ensures Edge(c[i], b') in live {
      assert HasEdge(b[i], b') ==> Edge(b[i], b') in live;
    }
    forall i | i in live ensures i < |a| && SameTest(c[i], a[i]) {
      assert SameTest(b[i], a[i]);
    }
  }

  lemma CollapsedRefl(s: Store, rk: seq<nat>, live: set<Ref>, r: Ref, x: Ref)
    requires Acyclic(s) && Ranked(s, rk) && Closed(s, live) && r < |s| && x < |s| && OnAll(s, r, x)
    ensures Collapsed(s, rk, live, s, r, x)
  {}
}
