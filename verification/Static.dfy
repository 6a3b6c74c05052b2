/** Packet tests above meters: the shape `bubble_static` establishes, and the
    measure by which it terminates. */
module Static {
  import opened Semantics
  import opened Graph
  import opened Bits

  /** No packet bit is tested at or below `r`. */
  ghost predicate NoData(s: Store, r: Ref)
    requires Acyclic(s) && r < |s|
    decreases Rank(s)[r]
  {
    !s[r].Data? && forall br | HasEdge(s[r], br) :: (EdgeDown(s, r, br); NoData(s, Edge(s[r], br)))
  }

  /** No packet bit is tested below a meter. */
  ghost predicate IsStatic(s: Store, r: Ref)
    requires Acyclic(s) && r < |s|
    decreases Rank(s)[r]
  {
    if s[r].Data? then forall br :: (EdgeDown(s, r, br); IsStatic(s, Edge(s[r], br)))
    else NoData(s, r)
  }

  /** Nothing at or below `r` is missing, and every packet test there is in one
      offset group. */
  ghost predicate Plain(s: Store, r: Ref, group: int)
    requires Acyclic(s) && r < |s|
    decreases Rank(s)[r]
  {
    !s[r].Null? && (s[r].Data? ==> s[r].group == group)
    && forall br | HasEdge(s[r], br) :: (EdgeDown(s, r, br); Plain(s, Edge(s[r], br), group))
  }

  lemma PlainEdge(s: Store, r: Ref, group: int, br: bool)
    requires Acyclic(s) && r < |s| && HasEdge(s[r], br) && Plain(s, r, group)
    ensures Edge(s[r], br) < |s| && Plain(s, Edge(s[r], br), group)
  {
    EdgeDown(s, r, br);
  }

  lemma NoDataEdge(s: Store, r: Ref, br: bool)
    requires Acyclic(s) && r < |s| && HasEdge(s[r], br) && NoData(s, r)
    ensures Edge(s[r], br) < |s| && NoData(s, Edge(s[r], br))
  {
    EdgeDown(s, r, br);
  }

  lemma StaticEdge(s: Store, r: Ref, br: bool)
    requires Acyclic(s) && r < |s| && HasEdge(s[r], br) && IsStatic(s, r)
    ensures Edge(s[r], br) < |s| && IsStatic(s, Edge(s[r], br))
  {
    EdgeDown(s, r, br);
    if !s[r].Data? { NoDataEdge(s, r, br); NoDataStatic(s, Edge(s[r], br)); }
  }

  lemma NoDataStatic(s: Store, r: Ref)
    requires Acyclic(s) && r < |s| && NoData(s, r)
    ensures IsStatic(s, r)
  {}

  /** `s'` extends `s` and moves no packet test below a meter. */
  ghost predicate KeepsStatic(s: Store, s': Store) {
    Acyclic(s) && Acyclic(s') && |s| <= |s'|
    && (forall r: Ref :: r < |s| ==> (NoData(s, r) <==> NoData(s', r)))
    && (forall r: Ref :: r < |s| && IsStatic(s, r) ==> IsStatic(s', r))
    && (forall r: Ref, g :: r < |s| ==> (Plain(s, r, g) <==> Plain(s', r, g)))
  }

  lemma KeepsStaticTrans(a: Store, b: Store, c: Store)
    requires KeepsStatic(a, b) && KeepsStatic(b, c)
    ensures KeepsStatic(a, c)
  {}

  lemma {:induction false} AppendNoData(s: Store, n: Node, r: Ref)
    requires Acyclic(s) && Acyclic(s + [n]) && r < |s|
    ensures NoData(s, r) <==> NoData(s + [n], r)
    ensures IsStatic(s, r) ==> IsStatic(s + [n], r)
    decreases Rank(s)[r]
  {
    forall br | HasEdge(s[r], br)
      ensures Edge(s[r], br) < |s|
      ensures NoData(s, Edge(s[r], br)) <==> NoData(s + [n], Edge(s[r], br))
      ensures IsStatic(s, Edge(s[r], br)) ==> IsStatic(s + [n], Edge(s[r], br))
    {
      EdgeDown(s, r, br);
      AppendNoData(s, n, Edge(s[r], br));
    }
  }

  lemma {:induction false} AppendPlain(s: Store, n: Node, r: Ref, g: int)
    requires Acyclic(s) && Acyclic(s + [n]) && r < |s| && Plain(s, r, g)
    ensures Plain(s + [n], r, g)
    decreases Rank(s)[r]
  {
    forall br | HasEdge(s[r], br) ensures Edge(s[r], br) < |s| && Plain(s + [n], Edge(s[r], br), g) {
      PlainEdge(s, r, g, br);
      EdgeDown(s, r, br);
      AppendPlain(s, n, Edge(s[r], br), g);
    }
  }

  lemma {:induction false} AppendPlainBack(s: Store, n: Node, r: Ref, g: int)
    requires Acyclic(s) && Acyclic(s + [n]) && r < |s| && Plain(s + [n], r, g)
    ensures Plain(s, r, g)
    decreases Rank(s)[r]
  {
    forall br | HasEdge(s[r], br) ensures Edge(s[r], br) < |s| && Plain(s, Edge(s[r], br), g) {
      EdgeDown(s, r, br);
      PlainEdge(s + [n], r, g, br);
      AppendPlainBack(s, n, Edge(s[r], br), g);
    }
  }

  lemma {:induction false} AppendStaticBack(s: Store, n: Node, r: Ref)
    requires Acyclic(s) && Acyclic(s + [n]) && r < |s|
    ensures IsStatic(s + [n], r) ==> IsStatic(s, r)
    decreases Rank(s)[r]
  {
    AppendNoData(s, n, r);
    if s[r].Data? && IsStatic(s + [n], r) {
      forall br ensures Edge(s[r], br) < |s| && IsStatic(s, Edge(s[r], br)) {
        EdgeDown(s, r, br);
        StaticEdge(s + [n], r, br);
        AppendStaticBack(s, n, Edge(s[r], br));
      }
    }
  }

  lemma AppendKeepsStatic(s: Store, n: Node)
    requires Acyclic(s) && Acyclic(s + [n])
    ensures KeepsStatic(s, s + [n])
  {
    forall r: Ref, g | r < |s| ensures Plain(s, r, g) <==> Plain(s + [n], r, g) {
      if Plain(s, r, g) { AppendPlain(s, n, r, g); }
      if Plain(s + [n], r, g) { AppendPlainBack(s, n, r, g); }
    }
    forall r: Ref | r < |s|
      ensures NoData(s, r) <==> NoData(s + [n], r)
      ensures IsStatic(s, r) ==> IsStatic(s + [n], r)
    {
      AppendNoData(s, n, r);
    }
  }

  lemma {:induction false} RedirectStaticAt(s: Store, s': Store, p: Ref, br: bool, q: Ref, r: Ref)
    requires Acyclic(s) && Acyclic(s') && Redirected(s, s', p, br, q) && Edge(s[p], br) < |s|
    requires NoData(s, Edge(s[p], br)) <==> NoData(s, q)
    requires IsStatic(s, Edge(s[p], br)) ==> IsStatic(s, q)
    requires r < |s|
    ensures NoData(s, r) <==> NoData(s', r)
    ensures IsStatic(s, r) ==> IsStatic(s', r)
    decreases Rank(s')[r]
  {
    forall go | HasEdge(s'[r], go)
      ensures Edge(s'[r], go) < |s|
      ensures NoData(s, Edge(s[r], go)) <==> NoData(s', Edge(s'[r], go))
      ensures IsStatic(s, r) ==> IsStatic(s', Edge(s'[r], go))
    {
      EdgeDown(s', r, go);
      EdgeDown(s, r, go);
      RedirectStaticAt(s, s', p, br, q, Edge(s'[r], go));
      if IsStatic(s, r) { StaticEdge(s, r, go); }
    }
  }

  lemma {:induction false} RedirectPlain(s: Store, s': Store, p: Ref, br: bool, q: Ref, r: Ref, g: int)
    requires Acyclic(s) && Acyclic(s') && Redirected(s, s', p, br, q) && Edge(s[p], br) < |s|
    requires Plain(s, Edge(s[p], br), g) ==> Plain(s, q, g)
    requires r < |s| && Plain(s, r, g)
    ensures Plain(s', r, g)
    decreases Rank(s')[r]
  {
    forall go | HasEdge(s'[r], go) ensures Edge(s'[r], go) < |s| && Plain(s', Edge(s'[r], go), g) {
      EdgeDown(s', r, go);
      PlainEdge(s, r, g, go);
      RedirectPlain(s, s', p, br, q, Edge(s'[r], go), g);
    }
  }

  lemma {:induction false} RedirectPlainBack(s: Store, s': Store, p: Ref, br: bool, q: Ref, r: Ref, g: int)
    requires Acyclic(s) && Acyclic(s') && Redirected(s, s', p, br, q) && Edge(s[p], br) < |s|
    requires Plain(s, q, g) ==> Plain(s, Edge(s[p], br), g)
    requires r < |s| && Plain(s', r, g)
    ensures Plain(s, r, g)
    decreases Rank(s')[r]
  {
    forall go | HasEdge(s[r], go) ensures Edge(s[r], go) < |s| && Plain(s, Edge(s[r], go), g) {
      EdgeDown(s', r, go);
      EdgeDown(s, r, go);
      PlainEdge(s', r, g, go);
      RedirectPlainBack(s, s', p, br, q, Edge(s'[r], go), g);
    }
  }

  /** Redirecting to a node that brings nothing new below a meter. */
  lemma {:induction false} RedirectStays(s: Store, s': Store, p: Ref, br: bool, q: Ref, r: Ref)
    requires Acyclic(s) && Acyclic(s') && Redirected(s, s', p, br, q) && Edge(s[p], br) < |s|
    requires NoData(s, Edge(s[p], br)) ==> NoData(s, q)
    requires IsStatic(s, Edge(s[p], br)) ==> IsStatic(s, q)
    requires r < |s|
    ensures NoData(s, r) ==> NoData(s', r)
    ensures IsStatic(s, r) ==> IsStatic(s', r)
    decreases Rank(s')[r]
  {
    forall go | HasEdge(s'[r], go)
      ensures Edge(s'[r], go) < |s|
      ensures NoData(s, r) ==> NoData(s', Edge(s'[r], go))
      ensures IsStatic(s, r) ==> IsStatic(s', Edge(s'[r], go))
    {
      EdgeDown(s', r, go);
      EdgeDown(s, r, go);
      RedirectStays(s, s', p, br, q, Edge(s'[r], go));
      if NoData(s, r) { NoDataEdge(s, r, go); }
      if IsStatic(s, r) { StaticEdge(s, r, go); }
    }
  }

  lemma RedirectKeepsStatic(s: Store, s': Store, p: Ref, br: bool, q: Ref)
    requires Acyclic(s) && Acyclic(s') && Redirected(s, s', p, br, q) && Edge(s[p], br) < |s|
    requires NoData(s, Edge(s[p], br)) <==> NoData(s, q)
    requires IsStatic(s, Edge(s[p], br)) ==> IsStatic(s, q)
    requires forall g :: Plain(s, Edge(s[p], br), g) <==> Plain(s, q, g)
    ensures KeepsStatic(s, s')
  {
    forall r: Ref, g | r < |s| ensures Plain(s, r, g) <==> Plain(s', r, g) {
      if Plain(s, r, g) { RedirectPlain(s, s', p, br, q, r, g); }
      if Plain(s', r, g) { RedirectPlainBack(s, s', p, br, q, r, g); }
    }
    forall r: Ref | r < |s|
      ensures NoData(s, r) <==> NoData(s', r)
      ensures IsStatic(s, r) ==> IsStatic(s', r)
    {
      RedirectStaticAt(s, s', p, br, q, r);
    }
  }

  // ----- the termination measure -----

  /** A weight for every node under which swapping a meter with a packet test
      below it pays: tests add, conformance tests multiply, counts double. */
  ghost predicate Weighs(s: Store, w: seq<nat>, i: Ref)
    requires |w| == |s| && i < |s|
  {
    && w[i] >= 2
    && (HasEdge(s[i], true) ==> Edge(s[i], true) < |s|) && (HasEdge(s[i], false) ==> Edge(s[i], false) < |s|)
    && match s[i]
       case Data(_, _, t, f) => w[i] >= w[t] + w[f] + 1
       case Conform(_, t, f) => w[i] >= w[t] * w[f]
       case Count(_, t) => w[i] >= 2 * w[t]
       case _ => true
  }

  ghost predicate Weighted(s: Store, w: seq<nat>) {
    |w| == |s| && forall i: Ref :: i < |s| ==> Weighs(s, w, i)
  }

  lemma ProductAbove(a: nat, b: nat)
    requires a >= 2 && b >= 2
    ensures a * b > a && a * b > b
  {
    assert a * b >= 2 * b && a * b >= a * 2;
  }

  lemma WeightedRanked(s: Store, w: seq<nat>)
    requires Weighted(s, w)
    ensures Ranked(s, w)
  {
    forall i: Ref, br | i < |s| ensures Below(s, w, i, br) {
      assert Weighs(s, w, i);
      if HasEdge(s[i], br) {
        assert Weighs(s, w, Edge(s[i], br));
        if s[i].Conform? {
          assert Weighs(s, w, s[i].t) && Weighs(s, w, s[i].f);
          ProductAbove(w[s[i].t], w[s[i].f]);
        }
      }
    }
  }

  ghost function Weight(s: Store, r: Ref): (w: nat)
    requires Acyclic(s) && r < |s|
    ensures w >= 2
    decreases Rank(s)[r]
  {
    match s[r]
    case Data(_, _, t, f) => EdgeDown(s, r, true); EdgeDown(s, r, false); Weight(s, t) + Weight(s, f) + 1
    case Conform(_, t, f) =>
      EdgeDown(s, r, true); EdgeDown(s, r, false);
      ProductAbove(Weight(s, t), Weight(s, f));
      Weight(s, t) * Weight(s, f)
    case Count(_, t) => EdgeDown(s, r, true); 2 * Weight(s, t)
    case _ => 2
  }

  /** Every acyclic store can be weighed. */
  lemma WeightExists(s: Store) returns (w: seq<nat>)
    requires Acyclic(s)
    ensures Weighted(s, w)
  {
    w := seq(|s|, i requires 0 <= i < |s| => Weight(s, i));
    forall i: Ref | i < |s| ensures Weighs(s, w, i) {
      if HasEdge(s[i], true) { EdgeDown(s, i, true); }
      if HasEdge(s[i], false) { EdgeDown(s, i, false); }
    }
  }

  lemma RedirectWeighted(s: Store, s': Store, p: Ref, br: bool, q: Ref, w: seq<nat>)
    requires Weighted(s, w) && Redirected(s, s', p, br, q)
    requires Edge(s[p], br) < |s| && w[q] <= w[Edge(s[p], br)]
    ensures Weighted(s', w)
  {
    forall i: Ref | i < |s| ensures Weighs(s', w, i) {
      assert Weighs(s, w, i);
      if i == p && s[p].Conform? {
        ProductMonotone(w[s[p].t], w[s[p].f], w[s'[p].t], w[s'[p].f]);
      }
    }
  }

  lemma SwapPays(x: nat, a: nat, b: nat)
    requires x >= 2
    ensures x * a + x * b + 1 < x * (a + b + 1)
  {
    assert x * (a + b + 1) == x * a + x * b + x;
  }

  // ----- swapping a meter with the packet test below it -----

  predicate Meter(n: Node) { n.Conform? || n.Count? }

  /** `s` with the three nodes of a swap appended: the meter of `r` under either
      answer of the packet test its `br` branch led to, and that test above. */
  function Swapped(s: Store, r: Ref, br: bool): Store
    requires r < |s| && Meter(s[r]) && HasEdge(s[r], br)
    requires Edge(s[r], br) < |s| && s[Edge(s[r], br)].Data?
  {
    var test := s[Edge(s[r], br)];
    s + [SetEdge(s[r], br, test.t)] + [SetEdge(s[r], br, test.f)]
      + [Data(test.group, test.bit, |s|, |s| + 1)]
  }

  function SwapWeights(s: Store, w: seq<nat>, r: Ref, br: bool): seq<nat>
    requires |w| == |s| && r < |s| && Meter(s[r]) && HasEdge(s[r], br)
    requires forall go :: HasEdge(s[r], go) ==> Edge(s[r], go) < |s|
    requires s[Edge(s[r], br)].Data? && s[Edge(s[r], br)].t < |s| && s[Edge(s[r], br)].f < |s|
  {
    var test := s[Edge(s[r], br)];
    var other := if s[r].Count? then 2 else w[Edge(s[r], !br)];
    w + [other * w[test.t]] + [other * w[test.f]] + [other * w[test.t] + other * w[test.f] + 1]
  }

  lemma SwapLighter(s: Store, w: seq<nat>, r: Ref, br: bool)
    requires Weighted(s, w) && r < |s| && Meter(s[r]) && HasEdge(s[r], br)
    requires Edge(s[r], br) < |s| && s[Edge(s[r], br)].Data?
    ensures
      (forall go :: HasEdge(s[r], go) ==> Edge(s[r], go) < |s|)
      && s[Edge(s[r], br)].t < |s| && s[Edge(s[r], br)].f < |s|
      && SwapWeights(s, w, r, br)[|s| + 2] < w[r]
  {
    assert Weighs(s, w, r);
    var e := Edge(s[r], br);
    assert Weighs(s, w, e);
    var other: nat := if s[r].Count? then 2 else w[Edge(s[r], !br)];
    if s[r].Conform? { assert Weighs(s, w, Edge(s[r], !br)); }
    SwapPays(other, w[s[e].t], w[s[e].f]);
    ProductMonotone(other, w[e], other, w[s[e].t] + w[s[e].f] + 1);
    assert w[r] >= other * w[e];
  }

  lemma SwapWeighted(s: Store, w: seq<nat>, r: Ref, br: bool)
    requires Weighted(s, w) && r < |s| && Meter(s[r]) && HasEdge(s[r], br)
    requires Edge(s[r], br) < |s| && s[Edge(s[r], br)].Data?
    requires forall go :: HasEdge(s[r], go) ==> Edge(s[r], go) < |s|
    requires s[Edge(s[r], br)].t < |s| && s[Edge(s[r], br)].f < |s|
    ensures Weighted(Swapped(s, r, br), SwapWeights(s, w, r, br))
  {
    var s', w', e := Swapped(s, r, br), SwapWeights(s, w, r, br), Edge(s[r], br);
    assert Weighs(s, w, r) && Weighs(s, w, e);
    var other: nat := if s[r].Count? then 2 else w[Edge(s[r], !br)];
    OlderWeighs(s, w, s', w');
    assert s'[|s|] == SetEdge(s[r], br, s[e].t) && w'[|s|] == other * w[s[e].t];
    assert s'[|s| + 1] == SetEdge(s[r], br, s[e].f) && w'[|s| + 1] == other * w[s[e].f];
    MeterWeighs(s, w, r, br, s[e].t, s', w', |s|);
    MeterWeighs(s, w, r, br, s[e].f, s', w', |s| + 1);
    assert Weighs(s', w', |s| + 2);
  }

  lemma OlderWeighs(s: Store, w: seq<nat>, s': Store, w': seq<nat>)
    requires Weighted(s, w) && s <= s' && w <= w' && |w'| == |s'|
    ensures forall i: Ref :: i < |s| ==> Weighs(s', w', i)
  {
    forall i: Ref | i < |s| ensures Weighs(s', w', i) {
      assert Weighs(s, w, i);
    }
  }

  /** A meter moved below the test weighs enough for its new successor. */
  lemma MeterWeighs(s: Store, w: seq<nat>, r: Ref, br: bool, next: Ref, s': Store, w': seq<nat>, i: Ref)
    requires Weighted(s, w) && r < |s| && Meter(s[r]) && HasEdge(s[r], br) && next < |s|
    requires s <= s' && w <= w' && |w'| == |s'| && i < |s'| && s'[i] == SetEdge(s[r], br, next)
    requires HasEdge(s[r], !br) ==> Edge(s[r], !br) < |s|
    requires w'[i] == (if s[r].Count? then 2 else w[Edge(s[r], !br)]) * w[next]
    ensures Weighs(s', w', i)
  {
    assert Weighs(s, w, next);
    if s[r].Conform? {
      assert Weighs(s, w, Edge(s[r], !br));
      ProductAbove(w[Edge(s[r], !br)], w[next]);
    }
  }

  /** The meter decides the same before and after the packet test: neither looks
      at what the other does. */
  lemma SwapRun(s: Store, r: Ref, br: bool, env: Env, h: Hist)
    requires Acyclic(s) && r < |s| && Meter(s[r]) && HasEdge(s[r], br)
    requires Edge(s[r], br) < |s| && s[Edge(s[r], br)].Data?
    requires Acyclic(Swapped(s, r, br)) && Preserves(s, Swapped(s, r, br))
    ensures Run(Swapped(s, r, br), |s| + 2, env, h) == Run(s, r, env, h)
  {
    var s', e := Swapped(s, r, br), Edge(s[r], br);
    var ans := Takes(s[e], env, h);
    var copy := if ans then |s| else |s| + 1;
    EdgeDown(s', |s| + 2, ans);
    assert Run(s', |s| + 2, env, h) == Run(s', copy, env, h);
    var go := Takes(s[r], env, h);
    EdgeDown(s, r, go);
    EdgeDown(s', copy, go);
    if go == br {
      EdgeDown(s, e, ans);
      assert Run(s, e, env, After(s[r], h)) == Run(s, Edge(s[e], ans), env, After(s[r], h));
    }
  }

  lemma SwapPreserves(s: Store, r: Ref, br: bool, w: seq<nat>)
    requires Weighted(s, w) && r < |s| && Meter(s[r]) && HasEdge(s[r], br)
    requires Edge(s[r], br) < |s| && s[Edge(s[r], br)].Data?
    ensures Acyclic(s) && Preserves(s, Swapped(s, r, br)) && KeepsStatic(s, Swapped(s, r, br))
  {
    WeightedRanked(s, w);
    var e := Edge(s[r], br);
    forall go | HasEdge(s[r], go) ensures Edge(s[r], go) < |s| { EdgeDown(s, r, go); }
    EdgeDown(s, e, true); EdgeDown(s, e, false);
    var n1, n2 := SetEdge(s[r], br, s[e].t), SetEdge(s[r], br, s[e].f);
    var n3 := Data(s[e].group, s[e].bit, |s|, |s| + 1);
    Append(s, n1); AppendKeepsStatic(s, n1);
    Append(s + [n1], n2); AppendKeepsStatic(s + [n1], n2);
    Append(s + [n1] + [n2], n3); AppendKeepsStatic(s + [n1] + [n2], n3);
    PreservesTrans(s, s + [n1], s + [n1] + [n2]);
    PreservesTrans(s, s + [n1] + [n2], Swapped(s, r, br));
  }

  lemma SwapPlain(s: Store, r: Ref, br: bool, g: int)
    requires Acyclic(s) && r < |s| && Meter(s[r]) && HasEdge(s[r], br)
    requires Edge(s[r], br) < |s| && s[Edge(s[r], br)].Data?
    requires Acyclic(Swapped(s, r, br)) && KeepsStatic(s, Swapped(s, r, br))
    ensures Plain(s, r, g) <==> Plain(Swapped(s, r, br), |s| + 2, g)
  {
    var s', e := Swapped(s, r, br), Edge(s[r], br);
    EdgeDown(s, e, true); EdgeDown(s, e, false);
    if HasEdge(s[r], !br) { EdgeDown(s, r, !br); }
    if Plain(s, r, g) {
      PlainEdge(s, r, g, br);
      PlainEdge(s, e, g, true);
      PlainEdge(s, e, g, false);
      if HasEdge(s[r], !br) { PlainEdge(s, r, g, !br); }
      assert Plain(s', |s|, g);
      assert Plain(s', |s| + 1, g);
    }
    if Plain(s', |s| + 2, g) {
      PlainEdge(s', |s| + 2, g, true);
      PlainEdge(s', |s| + 2, g, false);
      PlainEdge(s', |s|, g, br);
      PlainEdge(s', |s| + 1, g, br);
      if HasEdge(s[r], !br) { PlainEdge(s', |s|, g, !br); }
      assert Plain(s, e, g);
    }
  }
}
