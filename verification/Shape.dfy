/** The live part of a graph: one offset group, meters at the bottom. */
module Shape {
  import opened Graph
  import opened Static

  /** A set of live nodes: no edge leaves it and nothing in it is missing. */
  ghost predicate Closed(s: Store, live: set<Ref>) {
    && (forall r | r in live :: r < |s| && !s[r].Null?)
    && (forall r, br {:trigger HasEdge(s[r], br)} | r in live && HasEdge(s[r], br) :: Edge(s[r], br) in live)
  }

  ghost predicate LowAt(s: Store, r: Ref, br: bool) {
    r < |s| && (Meter(s[r]) && HasEdge(s[r], br) ==> Edge(s[r], br) < |s| && !s[Edge(s[r], br)].Data?)
  }

  /** No live meter leads to a packet test. */
  ghost predicate MetersLow(s: Store, live: set<Ref>) {
    forall r, br {:trigger LowAt(s, r, br)} | r in live :: LowAt(s, r, br)
  }

  /** All live packet tests are in one offset group. */
  ghost predicate InGroup(s: Store, live: set<Ref>, group: int) {
    forall r | r in live :: r < |s| && (s[r].Data? ==> s[r].group == group)
  }

  /** Everything that can be reached from `r`. */
  ghost function Reach(s: Store, r: Ref): set<Ref>
    requires Acyclic(s) && r < |s|
    decreases Rank(s)[r]
  {
    {r} + (if HasEdge(s[r], true) then (EdgeDown(s, r, true); Reach(s, Edge(s[r], true))) else {})
        + (if HasEdge(s[r], false) then (EdgeDown(s, r, false); Reach(s, Edge(s[r], false))) else {})
  }

  lemma {:induction false} ReachNode(s: Store, r: Ref, x: Ref)
    requires Acyclic(s) && r < |s| && x in Reach(s, r)
    ensures x < |s| && (IsStatic(s, r) ==> IsStatic(s, x))
    ensures forall g :: Plain(s, r, g) ==> Plain(s, x, g)
    ensures forall br :: HasEdge(s[x], br) ==> Edge(s[x], br) in Reach(s, r)
    decreases Rank(s)[r]
  {
    if HasEdge(s[r], true) {
      EdgeDown(s, r, true);
      if IsStatic(s, r) { StaticEdge(s, r, true); }
      forall g | Plain(s, r, g) ensures Plain(s, s[r].t, g) { PlainEdge(s, r, g, true); }
      if x in Reach(s, s[r].t) { ReachNode(s, s[r].t, x); }
      ReachSelf(s, s[r].t);
    }
    if HasEdge(s[r], false) {
      EdgeDown(s, r, false);
      if IsStatic(s, r) { StaticEdge(s, r, false); }
      forall g | Plain(s, r, g) ensures Plain(s, s[r].f, g) { PlainEdge(s, r, g, false); }
      if x in Reach(s, s[r].f) { ReachNode(s, s[r].f, x); }
      ReachSelf(s, s[r].f);
    }
  }

  lemma ReachSelf(s: Store, r: Ref)
    requires Acyclic(s) && r < |s|
    ensures r in Reach(s, r)
  {}

  /** What is reachable in a plain, static graph is a live set as the later passes
      want it. */
  lemma ReachLive(s: Store, r: Ref, group: int)
    requires Acyclic(s) && r < |s| && Plain(s, r, group) && IsStatic(s, r)
    ensures Closed(s, Reach(s, r)) && MetersLow(s, Reach(s, r)) && InGroup(s, Reach(s, r), group) && r in Reach(s, r)
  {
    ReachSelf(s, r);
    forall x | x in Reach(s, r) ensures x < |s| && Plain(s, x, group) && IsStatic(s, x) {
      ReachNode(s, r, x);
    }
    forall x, br | x in Reach(s, r) && HasEdge(s[x], br) ensures Edge(s[x], br) in Reach(s, r) {
      ReachNode(s, r, x);
    }
    forall x, br | x in Reach(s, r) ensures LowAt(s, x, br) {
      if Meter(s[x]) && HasEdge(s[x], br) { NoDataEdge(s, x, br); }
    }
  }
}
