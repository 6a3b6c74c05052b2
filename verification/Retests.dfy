/** Graphs that ask no meter twice for the same answer. */
module Retests {
  import opened Graph

  /** The buckets whose conformance is known after a node: a count makes it unknown. */
  function Known(n: Node, asked: set<nat>): set<nat> {
    if n.Conform? then asked + {n.bucket} else if n.Count? then asked - {n.bucket} else asked
  }

  /** No path from `r` asks for the conformance to a bucket that is known already, be it
      because it is among `asked` or from an earlier test with no count in between. */
  ghost predicate NoRetest(s: Store, r: Ref, asked: set<nat>)
    requires Acyclic(s) && r < |s|
    decreases Rank(s)[r]
  {
    && (s[r].Conform? ==> s[r].bucket !in asked)
    && forall br | HasEdge(s[r], br) :: (EdgeDown(s, r, br); NoRetest(s, Edge(s[r], br), Known(s[r], asked)))
  }

  lemma NoRetestEdge(s: Store, r: Ref, asked: set<nat>, br: bool)
    requires Acyclic(s) && r < |s| && HasEdge(s[r], br) && NoRetest(s, r, asked)
    ensures Edge(s[r], br) < |s| && NoRetest(s, Edge(s[r], br), Known(s[r], asked))
  {
    EdgeDown(s, r, br);
  }

  lemma {:induction false} NoRetestFewer(s: Store, r: Ref, asked: set<nat>, fewer: set<nat>)
    requires Acyclic(s) && r < |s| && NoRetest(s, r, asked) && fewer <= asked
    ensures NoRetest(s, r, fewer)
    decreases Rank(s)[r]
  {
    forall br | HasEdge(s[r], br) ensures Edge(s[r], br) < |s| && NoRetest(s, Edge(s[r], br), Known(s[r], fewer)) {
      EdgeDown(s, r, br);
      NoRetestFewer(s, Edge(s[r], br), Known(s[r], asked), Known(s[r], fewer));
    }
  }

  lemma {:induction false} AppendNoRetest(s: Store, n: Node, r: Ref, asked: set<nat>)
    requires Acyclic(s) && Acyclic(s + [n]) && r < |s|
    ensures NoRetest(s, r, asked) <==> NoRetest(s + [n], r, asked)
    decreases Rank(s)[r]
  {
    forall br | HasEdge(s[r], br)
      ensures Edge(s[r], br) < |s|
      ensures NoRetest(s, Edge(s[r], br), Known(s[r], asked)) <==> NoRetest(s + [n], Edge(s[r], br), Known(s[r], asked))
    {
      EdgeDown(s, r, br);
      AppendNoRetest(s, n, Edge(s[r], br), Known(s[r], asked));
    }
  }

  /** Wherever `a` may be placed without asking twice, so may `b`. */
  ghost predicate AskedWhere(s: Store, a: Ref, b: Ref)
    requires Acyclic(s) && a < |s| && b < |s|
  {
    forall asked :: NoRetest(s, a, asked) ==> NoRetest(s, b, asked)
  }

  ghost predicate KeepsAsked(s: Store, s': Store) {
    Acyclic(s) && Acyclic(s') && |s| <= |s'|
    && forall r: Ref, asked :: r < |s| && NoRetest(s, r, asked) ==> NoRetest(s', r, asked)
  }

  lemma AppendKeepsAsked(s: Store, n: Node)
    requires Acyclic(s) && Acyclic(s + [n])
    ensures KeepsAsked(s, s + [n])
  {
    forall r: Ref, asked | r < |s| && NoRetest(s, r, asked) ensures NoRetest(s + [n], r, asked) { AppendNoRetest(s, n, r, asked); }
  }

  lemma {:induction false} RedirectNoRetest(s: Store, s': Store, p: Ref, br: bool, q: Ref, r: Ref, asked: set<nat>)
    requires Acyclic(s) && Acyclic(s') && Redirected(s, s', p, br, q)
    requires Edge(s[p], br) < |s| && AskedWhere(s, Edge(s[p], br), q)
    requires r < |s| && NoRetest(s, r, asked)
    ensures NoRetest(s', r, asked)
    decreases Rank(s')[r]
  {
    forall go | HasEdge(s'[r], go) ensures Edge(s'[r], go) < |s| && NoRetest(s', Edge(s'[r], go), Known(s'[r], asked)) {
      EdgeDown(s', r, go);
      NoRetestEdge(s, r, asked, go);
      RedirectNoRetest(s, s', p, br, q, Edge(s'[r], go), Known(s[r], asked));
    }
  }

  lemma RedirectKeepsAsked(s: Store, s': Store, p: Ref, br: bool, q: Ref)
    requires Acyclic(s) && Acyclic(s') && Redirected(s, s', p, br, q)
    requires Edge(s[p], br) < |s| && AskedWhere(s, Edge(s[p], br), q)
    ensures KeepsAsked(s, s')
  {
    forall r: Ref, asked | r < |s| && NoRetest(s, r, asked) ensures NoRetest(s', r, asked) {
      RedirectNoRetest(s, s', p, br, q, r, asked);
    }
  }

  /** A copy whose branch leads to a node that fits fits. */
  lemma CloneAsked(s: Store, w: Ref, wbr: bool, next: Ref)
    requires Acyclic(s) && w < |s| && HasEdge(s[w], wbr) && next < |s|
    requires Edge(s[w], wbr) < |s| && AskedWhere(s, Edge(s[w], wbr), next)
    requires EdgesWithin(SetEdge(s[w], wbr, next), |s|) && Acyclic(s + [SetEdge(s[w], wbr, next)])
    ensures AskedWhere(s + [SetEdge(s[w], wbr, next)], w, |s|)
  {
    var n := SetEdge(s[w], wbr, next);
    var s' := s + [n];
    forall asked | NoRetest(s', w, asked) ensures NoRetest(s', |s|, asked) {
      AppendNoRetest(s, n, w, asked);
      forall go | HasEdge(n, go) ensures Edge(n, go) < |s'| && NoRetest(s', Edge(n, go), Known(n, asked)) {
        NoRetestEdge(s, w, asked, go);
        AppendNoRetest(s, n, Edge(n, go), Known(n, asked));
      }
    }
  }

  /** A test gives way to what follows it. */
  lemma ChildAsked(s: Store, r: Ref, br: bool)
    requires Acyclic(s) && r < |s| && Inner(s[r])
    ensures Edge(s[r], br) < |s| && AskedWhere(s, r, Edge(s[r], br))
  {
    EdgeDown(s, r, br);
    forall asked | NoRetest(s, r, asked) ensures NoRetest(s, Edge(s[r], br), asked) {
      NoRetestEdge(s, r, asked, br);
      NoRetestFewer(s, Edge(s[r], br), Known(s[r], asked), asked);
    }
  }
}
