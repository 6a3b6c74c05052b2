/** The heap of single-bit decision nodes shared by the graph passes. A pointer
    is an index into the store, so sharing, aliasing and pointer comparison are
    those of the original. */
module Graph {
  import opened Semantics

  type Ref = nat

  datatype Node =
    | Data(group: int, bit: nat, t: Ref, f: Ref)
    | Conform(bucket: nat, t: Ref, f: Ref)
    | Count(bucket: nat, t: Ref)
    | Leaf(decision: Decision)
    | Null

  type Store = seq<Node>

  /** Nodes with a choice of successor. */
  predicate Inner(n: Node) { n.Data? || n.Conform? }

  predicate HasEdge(n: Node, br: bool) { Inner(n) || (br && n.Count?) }

  function Edge(n: Node, br: bool): Ref
    requires HasEdge(n, br)
  {
    if br then n.t else n.f
  }

  function SetEdge(n: Node, br: bool, r: Ref): (m: Node)
    requires HasEdge(n, br)
    ensures HasEdge(m, br) && Edge(m, br) == r
    ensures SameTest(m, n)
    ensures HasEdge(n, !br) ==> Edge(m, !br) == Edge(n, !br)
  {
    if br then n.(t := r) else n.(f := r)
  }

  /** Same kind of node asking the same question, whatever its successors
      (`bit_equal`). */
  predicate SameTest(a: Node, b: Node) {
    match a
    case Data(g, n, _, _) => b.Data? && b.group == g && b.bit == n
    case Conform(k, _, _) => b.Conform? && b.bucket == k
    case Count(k, _) => b.Count? && b.bucket == k
    case Leaf(_) => a == b
    case Null => a == b
  }

  /** Which branch an inner node takes; a count has one way out. */
  predicate Takes(n: Node, env: Env, h: Hist)
    requires !n.Leaf? && !n.Null?
  {
    match n
    case Data(g, b, _, _) => env.bit(g, b)
    case Conform(k, _, _) => Conforms(env, h, k)
    case Count(_, _) => true
  }

  function After(n: Node, h: Hist): Hist {
    if n.Count? then h + [n.bucket] else h
  }

  // ----- acyclic stores -----

  ghost predicate Below(s: Store, rk: seq<nat>, i: Ref, br: bool)
    requires |rk| == |s| && i < |s|
  {
    HasEdge(s[i], br) ==> Edge(s[i], br) < |s| && rk[Edge(s[i], br)] < rk[i]
  }

  ghost predicate Ranked(s: Store, rk: seq<nat>) {
    |rk| == |s| && forall i: Ref, br :: i < |s| ==> Below(s, rk, i, br)
  }

  ghost predicate Acyclic(s: Store) { exists rk :: Ranked(s, rk) }

  ghost function Rank(s: Store): (rk: seq<nat>)
    requires Acyclic(s)
    ensures Ranked(s, rk)
  {
    var rk :| Ranked(s, rk); rk
  }

  /** Following an edge stays in the store and goes strictly down. */
  lemma EdgeDown(s: Store, r: Ref, br: bool)
    requires Acyclic(s) && r < |s| && HasEdge(s[r], br)
    ensures Edge(s[r], br) < |s| && Rank(s)[Edge(s[r], br)] < Rank(s)[r]
  {
    assert Below(s, Rank(s), r, br);
  }

  // ----- running a packet through the graph -----

  /** The decision reached from node `r` and the counts performed. */
  ghost function Run(s: Store, r: Ref, env: Env, h: Hist): Result
    requires Acyclic(s) && r < |s|
    decreases Rank(s)[r]
  {
    match s[r]
    case Leaf(d) => Result(Some(d), h)
    case Null => Result(None, h)
    case _ =>
      var br := Takes(s[r], env, h);
      EdgeDown(s, r, br);
      Run(s, Edge(s[r], br), env, After(s[r], h))
  }

  /** Two nodes nobody can tell apart. */
  ghost predicate Equivalent(s: Store, a: Ref, b: Ref)
    requires Acyclic(s) && a < |s| && b < |s|
  {
    forall env, h :: Run(s, a, env, h) == Run(s, b, env, h)
  }

  /** `s'` extends `s` and every node of `s` behaves as before. */
  ghost predicate Preserves(s: Store, s': Store) {
    Acyclic(s) && Acyclic(s') && |s| <= |s'|
    && forall r: Ref, env, h :: r < |s| ==> Run(s', r, env, h) == Run(s, r, env, h)
  }

  lemma PreservesTrans(a: Store, b: Store, c: Store)
    requires Preserves(a, b) && Preserves(b, c)
    ensures Preserves(a, c)
  {
    forall r: Ref, env, h | r < |a| ensures Run(c, r, env, h) == Run(a, r, env, h) {
      assert Run(b, r, env, h) == Run(a, r, env, h);
    }
  }

  // ----- allocating a node -----

  predicate EdgesWithin(n: Node, size: nat) {
    forall br :: HasEdge(n, br) ==> Edge(n, br) < size
  }

  ghost function RankAbove(s: Store, rk: seq<nat>, n: Node): nat
    requires |rk| == |s| && EdgesWithin(n, |s|)
  {
    1 + (if HasEdge(n, true) then rk[Edge(n, true)] else 0)
    + (if HasEdge(n, false) then rk[Edge(n, false)] else 0)
  }

  lemma RankedAppend(s: Store, rk: seq<nat>, n: Node, top: nat)
    requires Ranked(s, rk) && EdgesWithin(n, |s|)
    requires forall br :: HasEdge(n, br) ==> rk[Edge(n, br)] < top
    ensures Ranked(s + [n], rk + [top])
  {
    var s', rk' := s + [n], rk + [top];
    forall i: Ref, br | i < |s'| ensures Below(s', rk', i, br) {
      if i < |s| { assert Below(s, rk, i, br); }
    }
  }

  lemma {:induction false} AppendRun(s: Store, n: Node, r: Ref, env: Env, h: Hist)
    requires Acyclic(s) && Acyclic(s + [n]) && r < |s|
    ensures Run(s + [n], r, env, h) == Run(s, r, env, h)
    decreases Rank(s)[r]
  {
    if !s[r].Leaf? && !s[r].Null? {
      var br := Takes(s[r], env, h);
      EdgeDown(s, r, br);
      AppendRun(s, n, Edge(s[r], br), env, After(s[r], h));
    }
  }

  lemma Append(s: Store, n: Node)
    requires Acyclic(s) && EdgesWithin(n, |s|)
    ensures Preserves(s, s + [n])
  {
    RankedAppend(s, Rank(s), n, RankAbove(s, Rank(s), n));
    forall r: Ref, env, h | r < |s| ensures Run(s + [n], r, env, h) == Run(s, r, env, h) {
      AppendRun(s, n, r, env, h);
    }
  }

  // ----- redirecting an edge in place -----

  ghost predicate Redirected(s: Store, s': Store, p: Ref, br: bool, q: Ref) {
    p < |s| && q < |s| && HasEdge(s[p], br) && s' == s[p := SetEdge(s[p], br, q)]
  }

  lemma RankedRedirect(s: Store, s': Store, p: Ref, br: bool, q: Ref, rk: seq<nat>)
    requires Ranked(s, rk) && Redirected(s, s', p, br, q) && rk[q] < rk[p]
    ensures Ranked(s', rk)
  {
    forall i: Ref, b | i < |s'| ensures Below(s', rk, i, b) {
      assert Below(s, rk, i, b);
    }
  }

  /** `q` may stand in for the `br` successor of `p`: whenever `p` goes that way
      the outcome is the same. */
  ghost predicate StandsIn(s: Store, p: Ref, br: bool, q: Ref)
    requires Acyclic(s) && p < |s| && q < |s| && HasEdge(s[p], br)
    requires Edge(s[p], br) < |s|
  {
    forall env, h :: Takes(s[p], env, h) == br ==>
      Run(s, q, env, After(s[p], h)) == Run(s, Edge(s[p], br), env, After(s[p], h))
  }

  lemma {:induction false} RedirectRun(s: Store, s': Store, p: Ref, br: bool, q: Ref, r: Ref, env: Env, h: Hist)
    requires Acyclic(s) && Acyclic(s') && Redirected(s, s', p, br, q)
    requires Edge(s[p], br) < |s| && StandsIn(s, p, br, q) && r < |s|
    ensures Run(s', r, env, h) == Run(s, r, env, h)
    decreases Rank(s')[r]
  {
    if !s[r].Leaf? && !s[r].Null? {
      var go := Takes(s[r], env, h);
      EdgeDown(s', r, go);
      RedirectRun(s, s', p, br, q, Edge(s'[r], go), env, After(s[r], h));
      EdgeDown(s, r, go);
    }
  }

  /** Redirecting an edge to a stand-in changes no node's behaviour, however many
      parents share the changed node. */
  lemma Redirect(s: Store, s': Store, p: Ref, br: bool, q: Ref, rk: seq<nat>)
    requires Ranked(s, rk) && Acyclic(s) && Redirected(s, s', p, br, q) && rk[q] < rk[p]
    requires Edge(s[p], br) < |s| && StandsIn(s, p, br, q)
    ensures Ranked(s', rk) && Preserves(s, s')
  {
    RankedRedirect(s, s', p, br, q, rk);
    forall r: Ref, env, h | r < |s| ensures Run(s', r, env, h) == Run(s, r, env, h) {
      RedirectRun(s, s', p, br, q, r, env, h);
    }
  }
}
