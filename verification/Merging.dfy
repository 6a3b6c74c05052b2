/** Sharing of equal subgraphs: what holds while `unique_state` works its way
    through a graph, and what is left when it is done. */
module Merging {
  import opened Graph
  import opened Repeats
  import opened Static
  import opened Shape

  predicate Redundant(n: Node) { Inner(n) && n.t == n.f }

  /** The height of a node above its successors' ranks. */
  ghost function Height(n: Node, rk: seq<nat>): nat
    requires EdgesWithin(n, |rk|)
  {
    var t := if HasEdge(n, true) then 1 + rk[Edge(n, true)] else 0;
    var f := if HasEdge(n, false) then 1 + rk[Edge(n, false)] else 0;
    if t < f then f else t
  }

  /** Every node of `u` differs from every other one, offers a real choice, and
      leads only to nodes of `u`. */
  ghost predicate Reduced(s: Store, u: set<Ref>) {
    && Closed(s, u)
    && (forall r | r in u :: !Redundant(s[r]))
    && (forall a, b | a in u && b in u && s[a] == s[b] :: a == b)
  }

  /** How far the merge of `origin` has come. `done` are the unique nodes found so
      far, `res` maps every node already visited to its replacement. */
  ghost predicate Merge(origin: Store, s: Store, rk: seq<nat>, live: set<Ref>, done: set<Ref>, res: map<Ref, Ref>) {
    && |s| == |origin| && Ranked(s, rk) && Preserves(origin, s) && KeepsShape(origin, s)
    && Closed(s, live) && Closed(origin, live) && done <= res.Keys <= live
    && Accepted(s, rk, done)
    && AllPartly(origin, s, live, res)
    && AllResolved(origin, s, done, res)
  }

  ghost predicate Accepted(s: Store, rk: seq<nat>, done: set<Ref>)
    requires |rk| == |s|
  {
    Reduced(s, done) && forall r {:trigger AtHeight(s, rk, r)} | r in done :: AtHeight(s, rk, r)
  }

  ghost predicate AtHeight(s: Store, rk: seq<nat>, r: Ref)
    requires |rk| == |s| && r < |s|
  {
    EdgesWithin(s[r], |s|) && rk[r] == Height(s[r], rk)
  }

  /** A branch still leads where it did, or to the replacement. */
  ghost predicate PartlyAt(origin: Store, s: Store, res: map<Ref, Ref>, r: Ref, br: bool)
    requires r < |s| == |origin| && SameTest(s[r], origin[r]) && HasEdge(s[r], br)
  {
    Edge(s[r], br) == Edge(origin[r], br)
    || (Edge(origin[r], br) in res && Edge(s[r], br) == res[Edge(origin[r], br)])
  }

  ghost predicate Partly(origin: Store, s: Store, res: map<Ref, Ref>, r: Ref)
    requires |s| == |origin|
  {
    r < |s| && SameTest(s[r], origin[r]) && forall br | HasEdge(s[r], br) :: PartlyAt(origin, s, res, r, br)
  }

  ghost predicate AllPartly(origin: Store, s: Store, live: set<Ref>, res: map<Ref, Ref>)
    requires |s| == |origin|
  {
    forall r {:trigger Partly(origin, s, res, r)} | r in live :: Partly(origin, s, res, r)
  }

  ghost predicate EdgeResolved(origin: Store, s: Store, res: map<Ref, Ref>, r: Ref, br: bool)
    requires |s| == |origin| && r < |s| && SameTest(s[r], origin[r]) && HasEdge(s[r], br)
  {
    Edge(origin[r], br) in res && Edge(s[r], br) == res[Edge(origin[r], br)]
  }

  /** Every branch of `r` leads to the replacement of what it led to. */
  ghost predicate EdgesResolved(origin: Store, s: Store, res: map<Ref, Ref>, r: Ref)
    requires |s| == |origin|
  {
    r < |s| && SameTest(s[r], origin[r]) && forall br | HasEdge(s[r], br) :: EdgeResolved(origin, s, res, r, br)
  }

  ghost predicate Resolved(origin: Store, s: Store, done: set<Ref>, res: map<Ref, Ref>, r: Ref)
    requires |s| == |origin| && r in res
  {
    && EdgesResolved(origin, s, res, r)
    && res[r] in done && res[r] < |s| && (r in done ==> res[r] == r)
    && (if Redundant(s[r]) then res[r] == s[r].t else s[res[r]] == s[r])
  }

  ghost predicate AllResolved(origin: Store, s: Store, done: set<Ref>, res: map<Ref, Ref>)
    requires |s| == |origin|
  {
    forall r {:trigger Resolved(origin, s, done, res, r)} | r in res :: Resolved(origin, s, done, res, r)
  }

  /** A replacement behaves like the node it replaces. */
  lemma ReplacementRun(s: Store, r: Ref, u: Ref)
    requires Acyclic(s) && r < |s| && u < |s|
    requires if Redundant(s[r]) then u == s[r].t else s[u] == s[r]
    ensures Equivalent(s, u, r) && FitsWhere(s, r, u)
  {
    forall env, h ensures Run(s, u, env, h) == Run(s, r, env, h) {
      if !s[r].Leaf? && !s[r].Null? {
        EdgeDown(s, r, Takes(s[r], env, h));
        if s[u] == s[r] { EdgeDown(s, u, Takes(s[r], env, h)); }
      }
    }
    ReplacementShape(s, r, u);
    forall seen | NoRepeat(s, r, seen) ensures NoRepeat(s, u, seen) {
      if Redundant(s[r]) {
        NoRepeatEdge(s, r, seen, true);
        NoRepeatFewer(s, u, seen + Tests(s[r]), seen);
      } else {
        forall br | HasEdge(s[u], br) ensures Edge(s[u], br) < |s| && NoRepeat(s, Edge(s[u], br), seen + Tests(s[u])) {
          NoRepeatEdge(s, r, seen, br);
        }
      }
    }
  }

  lemma ReplacementShape(s: Store, r: Ref, u: Ref)
    requires Acyclic(s) && r < |s| && u < |s|
    requires if Redundant(s[r]) then u == s[r].t else s[u] == s[r]
    ensures NoData(s, r) ==> NoData(s, u)
    ensures IsStatic(s, r) ==> IsStatic(s, u)
    ensures forall g :: Plain(s, r, g) ==> Plain(s, u, g)
  {
    if Redundant(s[r]) { EdgeShape(s, r, true); }
    else {
      if HasEdge(s[r], true) { EdgeShape(s, r, true); EdgeDown(s, u, true); }
      if HasEdge(s[r], false) { EdgeShape(s, r, false); EdgeDown(s, u, false); }
      forall g | Plain(s, r, g) ensures Plain(s, u, g) {
        forall br | HasEdge(s[u], br) ensures Edge(s[u], br) < |s| && Plain(s, Edge(s[u], br), g) { PlainEdge(s, r, g, br); }
      }
    }
  }

  /** ... and sits no higher. */
  lemma ReplacementRank(origin: Store, s: Store, rk: seq<nat>, live: set<Ref>, done: set<Ref>, res: map<Ref, Ref>, r: Ref)
    requires Merge(origin, s, rk, live, done, res) && r in res
    ensures res[r] < |s| && rk[res[r]] <= rk[r]
  {
    assert Resolved(origin, s, done, res, r);
    if Redundant(s[r]) {
      assert Below(s, rk, r, true);
    } else {
      assert AtHeight(s, rk, res[r]);
      assert Below(s, rk, r, true) && Below(s, rk, r, false);
    }
  }

  /** Pointing a branch of `r` at the replacement of what it led to. */
  lemma MergePoint(origin: Store, s: Store, rk: seq<nat>, live: set<Ref>, done: set<Ref>, res: map<Ref, Ref>,
                   r: Ref, br: bool, s': Store)
    requires Merge(origin, s, rk, live, done, res) && r in live && r < |s| && HasEdge(s[r], br)
    requires Edge(s[r], br) in res
    requires s' == s[r := SetEdge(s[r], br, res[Edge(s[r], br)])]
    requires Preserves(s, s') && KeepsShape(s, s') && Ranked(s', rk)
    ensures Merge(origin, s', rk, live, done, res)
    ensures SameTest(s'[r], origin[r]) && HasEdge(s'[r], br) && EdgeResolved(origin, s', res, r, br)
  {
    var c := Edge(s[r], br);
    assert Partly(origin, s, res, r) && PartlyAt(origin, s, res, r, br);
    assert Resolved(origin, s, done, res, c);
    if Edge(origin[r], br) in res { assert Resolved(origin, s, done, res, Edge(origin[r], br)); }
    if r in res {
      assert Resolved(origin, s, done, res, r) && EdgeResolved(origin, s, res, r, br);
      assert s' == s;
    } else {
      PointAccepted(s, rk, done, r, s');
      PointPartly(origin, s, live, res, r, br, s');
      PointResolved(origin, s, done, res, r, s');
      PreservesTrans(origin, s, s');
      KeepsShapeTrans(origin, s, s');
      forall x, b | x in live && HasEdge(s'[x], b) ensures Edge(s'[x], b) in live {
        assert HasEdge(s[x], b) ==> Edge(s[x], b) in live;
      }
    }
  }

  lemma PointAccepted(s: Store, rk: seq<nat>, done: set<Ref>, r: Ref, s': Store)
    requires |rk| == |s| == |s'| && Accepted(s, rk, done) && r !in done
    requires forall i: Ref :: i < |s| && i != r ==> s'[i] == s[i]
    ensures Accepted(s', rk, done)
  {
    forall x | x in done ensures AtHeight(s', rk, x) { assert AtHeight(s, rk, x); }
  }

  lemma PointPartly(origin: Store, s: Store, live: set<Ref>, res: map<Ref, Ref>, r: Ref, br: bool, s': Store)
    requires |s| == |origin| && AllPartly(origin, s, live, res) && r < |s| && HasEdge(s[r], br)
    requires Edge(s[r], br) in res && s' == s[r := SetEdge(s[r], br, res[Edge(s[r], br)])]
    requires SameTest(s[r], origin[r])
    requires Edge(origin[r], br) in res && res[Edge(origin[r], br)] == res[Edge(s[r], br)]
    ensures AllPartly(origin, s', live, res)
  {
    forall x | x in live ensures Partly(origin, s', res, x) {
      assert Partly(origin, s, res, x);
      forall b | HasEdge(s'[x], b) ensures PartlyAt(origin, s', res, x, b) { assert PartlyAt(origin, s, res, x, b); }
    }
  }

  lemma PointResolved(origin: Store, s: Store, done: set<Ref>, res: map<Ref, Ref>, r: Ref, s': Store)
    requires |s| == |origin| == |s'| && AllResolved(origin, s, done, res) && done <= res.Keys && r !in res
    requires forall i: Ref :: i < |s| && i != r ==> s'[i] == s[i]
    ensures AllResolved(origin, s', done, res)
  {
    forall x | x in res ensures Resolved(origin, s', done, res, x) {
      assert Resolved(origin, s, done, res, x);
      forall b | HasEdge(s'[x], b) ensures EdgeResolved(origin, s', res, x, b) { assert EdgeResolved(origin, s, res, x, b); }
    }
  }

  lemma MorePartly(origin: Store, s: Store, live: set<Ref>, res: map<Ref, Ref>, r: Ref, u: Ref)
    requires |s| == |origin| && AllPartly(origin, s, live, res) && (r in res ==> res[r] == u)
    ensures AllPartly(origin, s, live, res[r := u])
  {
    forall x | x in live ensures Partly(origin, s, res[r := u], x) {
      assert Partly(origin, s, res, x);
      forall b | HasEdge(s[x], b) ensures PartlyAt(origin, s, res[r := u], x, b) { assert PartlyAt(origin, s, res, x, b); }
    }
  }

  lemma MoreResolved(origin: Store, s: Store, done: set<Ref>, res: map<Ref, Ref>, r: Ref, u: Ref, done': set<Ref>)
    requires |s| == |origin| && AllResolved(origin, s, done, res) && (r in res ==> res[r] == u)
    requires done' == done || done' == done + {r}
    requires EdgesResolved(origin, s, res, r) && u in done' && u < |s| && (r in done' ==> u == r)
    requires if Redundant(s[r]) then u == s[r].t else s[u] == s[r]
    ensures AllResolved(origin, s, done', res[r := u])
  {
    var res' := res[r := u];
    forall x | x in res' ensures Resolved(origin, s, done', res', x) {
      if x != r { assert Resolved(origin, s, done, res, x); }
      assert EdgesResolved(origin, s, res, x);
      forall b | HasEdge(s[x], b) ensures EdgeResolved(origin, s, res', x, b) { assert EdgeResolved(origin, s, res, x, b); }
    }
  }

  /** Recording an existing node as the replacement of `r`. */
  lemma MergeReplace(origin: Store, s: Store, rk: seq<nat>, live: set<Ref>, done: set<Ref>, res: map<Ref, Ref>,
                     r: Ref, u: Ref)
    requires Merge(origin, s, rk, live, done, res) && r in live && u in done
    requires EdgesResolved(origin, s, res, r)
    requires if Redundant(s[r]) then u == s[r].t else s[u] == s[r]
    ensures Merge(origin, s, rk, live, done, res[r := u]) && (r in res ==> res[r] == u)
  {
    if r in res { assert Resolved(origin, s, done, res, r); }
    MoreResolved(origin, s, done, res, r, u, done);
    MorePartly(origin, s, live, res, r, u);
  }

  /** Accepting `r` itself as a new unique node, at its proper height. */
  lemma MergeRegister(origin: Store, s: Store, rk: seq<nat>, live: set<Ref>, done: set<Ref>, res: map<Ref, Ref>, r: Ref)
    requires Merge(origin, s, rk, live, done, res) && r in live
    requires EdgesResolved(origin, s, res, r) && !Redundant(s[r])
    requires forall a | a in done :: s[a] != s[r]
    ensures r < |rk| && EdgesWithin(s[r], |rk|) && Height(s[r], rk) <= rk[r] && r !in res
    ensures Merge(origin, s, rk[r := Height(s[r], rk)], live, done + {r}, res[r := r])
  {
    assert Below(s, rk, r, true) && Below(s, rk, r, false);
    if r in res { assert Resolved(origin, s, done, res, r); }
    forall b | HasEdge(s[r], b) ensures Edge(s[r], b) in done {
      assert EdgeResolved(origin, s, res, r, b);
      assert Resolved(origin, s, done, res, Edge(origin[r], b));
    }
    RegisterAccepted(s, rk, done, r);
    MoreResolved(origin, s, done, res, r, r, done + {r});
    MorePartly(origin, s, live, res, r, r);
  }

  lemma RegisterAccepted(s: Store, rk: seq<nat>, done: set<Ref>, r: Ref)
    requires Ranked(s, rk) && Accepted(s, rk, done) && r < |s| && r !in done && !Redundant(s[r]) && !s[r].Null?
    requires forall b | HasEdge(s[r], b) :: Edge(s[r], b) in done
    requires forall a | a in done :: s[a] != s[r]
    requires EdgesWithin(s[r], |s|)
    ensures Ranked(s, rk[r := Height(s[r], rk)]) && Accepted(s, rk[r := Height(s[r], rk)], done + {r})
  {
    var rk' := rk[r := Height(s[r], rk)];
    assert Below(s, rk, r, true) && Below(s, rk, r, false);
    assert rk'[r] <= rk[r];
    forall i: Ref, b | i < |s| ensures Below(s, rk', i, b) { assert Below(s, rk, i, b); }
    forall x | x in done + {r} ensures AtHeight(s, rk', x) {
      if x != r { assert AtHeight(s, rk, x); }
      assert HasEdge(s[x], true) ==> Edge(s[x], true) in done;
      assert HasEdge(s[x], false) ==> Edge(s[x], false) in done;
    }
  }

  // ----- what one visit may touch -----

  /** Nodes ranked above `top` are as before, and no rank has risen. */
  ghost predicate Lowered(s: Store, rk: seq<nat>, s': Store, rk': seq<nat>, top: nat) {
    && |s'| == |s| == |rk| == |rk'|
    && forall i: Ref :: i < |s| ==> LoweredAt(s, rk, s', rk', top, i)
  }

  ghost predicate LoweredAt(s: Store, rk: seq<nat>, s': Store, rk': seq<nat>, top: nat, i: Ref)
    requires |s'| == |s| == |rk| == |rk'| && i < |s|
  {
    rk'[i] <= rk[i] && (rk[i] > top ==> s'[i] == s[i] && rk'[i] == rk[i])
  }

  lemma LoweredTrans(a: Store, ra: seq<nat>, b: Store, rb: seq<nat>, c: Store, rc: seq<nat>, low: nat, high: nat, top: nat)
    requires Lowered(a, ra, b, rb, low) && Lowered(b, rb, c, rc, high) && low <= top && high <= top
    ensures Lowered(a, ra, c, rc, top)
  {
    forall i: Ref | i < |a| ensures LoweredAt(a, ra, c, rc, top, i) {
      assert LoweredAt(a, ra, b, rb, low, i) && LoweredAt(b, rb, c, rc, high, i);
    }
  }

  ghost predicate Grown(res: map<Ref, Ref>, res': map<Ref, Ref>) {
    forall k | k in res :: k in res' && res'[k] == res[k]
  }

  /** Once both branches have been visited each still leads to its replacement. */
  lemma BothResolved(origin: Store, s1: Store, res1: map<Ref, Ref>, s2: Store, res2: map<Ref, Ref>, r: Ref)
    requires |s1| == |origin| == |s2| && r < |s1| && SameTest(s1[r], origin[r]) && SameTest(s2[r], s1[r])
    requires Grown(res1, res2)
    requires HasEdge(s1[r], true) ==> EdgeResolved(origin, s1, res1, r, true)
    requires HasEdge(s2[r], true) ==> Edge(s2[r], true) == Edge(s1[r], true)
    requires HasEdge(s2[r], false) ==> SameTest(s2[r], origin[r]) && EdgeResolved(origin, s2, res2, r, false)
    ensures EdgesResolved(origin, s2, res2, r)
  {
    forall br | HasEdge(s2[r], br) ensures EdgeResolved(origin, s2, res2, r, br) {}
  }

  /** No node that offered no choice in the original graph survives the merge. */
  lemma RedundantGone(origin: Store, s: Store, rk: seq<nat>, live: set<Ref>, done: set<Ref>, res: map<Ref, Ref>, r: Ref)
    requires Merge(origin, s, rk, live, done, res) && r in live && Redundant(origin[r])
    ensures r !in done
  {
    if r in res {
      assert Resolved(origin, s, done, res, r);
      assert EdgeResolved(origin, s, res, r, true) && EdgeResolved(origin, s, res, r, false);
      assert Redundant(s[r]);
    }
  }

  lemma LoweredAtOne(a: Store, ra: seq<nat>, b: Store, rb: seq<nat>, top: nat, r: Ref, to: nat)
    requires Lowered(a, ra, b, rb, top) && r < |a| && ra[r] <= top && to <= rb[r]
    ensures Lowered(a, ra, b, rb[r := to], top)
  {
    var rc := rb[r := to];
    forall i: Ref | i < |a| ensures LoweredAt(a, ra, b, rc, top, i) {
      assert LoweredAt(a, ra, b, rb, top, i);
    }
  }

  lemma MergeStart(s: Store, rk: seq<nat>, live: set<Ref>)
    requires Ranked(s, rk) && Closed(s, live)
    ensures Merge(s, s, rk, live, {}, map[])
  {
    forall r | r in live ensures Partly(s, s, map[], r) {
      forall b | HasEdge(s[r], b) ensures PartlyAt(s, s, map[], r, b) {}
    }
  }

  /** A merge replaces nothing but packet tests by packet tests. */
  lemma {:induction false} ReplacementLow(origin: Store, s: Store, rk: seq<nat>, live: set<Ref>, done: set<Ref>, res: map<Ref, Ref>, r: Ref)
    requires Merge(origin, s, rk, live, done, res) && Acyclic(origin) && MetersLow(origin, live)
    requires r in res && r < |origin| && !origin[r].Data?
    ensures res[r] < |s| && !s[res[r]].Data?
    decreases Rank(origin)[r]
  {
    assert Resolved(origin, s, done, res, r);
    if Redundant(s[r]) {
      EdgeDown(origin, r, true);
      assert LowAt(origin, r, true) && EdgeResolved(origin, s, res, r, true);
      ReplacementLow(origin, s, rk, live, done, res, Edge(origin[r], true));
    }
  }

  lemma MergedLow(origin: Store, s: Store, rk: seq<nat>, live: set<Ref>, done: set<Ref>, res: map<Ref, Ref>)
    requires Merge(origin, s, rk, live, done, res) && Acyclic(origin) && MetersLow(origin, live)
    ensures MetersLow(s, done)
  {
    forall r, br | r in done ensures LowAt(s, r, br) {
      assert Resolved(origin, s, done, res, r) && LowAt(origin, r, br);
      if Meter(s[r]) && HasEdge(s[r], br) {
        assert EdgeResolved(origin, s, res, r, br);
        ReplacementLow(origin, s, rk, live, done, res, Edge(origin[r], br));
      }
    }
  }
}
