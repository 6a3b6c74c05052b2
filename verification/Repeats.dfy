/** Graphs that test no packet bit twice on any path. */
module Repeats {
  import opened Graph
  import opened Static

  type Key = (int, nat)

  function Tests(n: Node): set<Key> {
    if n.Data? then {(n.group, n.bit)} else {}
  }

  /** No path from `r` tests a bit of `seen`, or one bit twice. */
  ghost predicate NoRepeat(s: Store, r: Ref, seen: set<Key>)
    requires Acyclic(s) && r < |s|
    decreases Rank(s)[r]
  {
    && Tests(s[r]) !! seen
    && forall br | HasEdge(s[r], br) :: (EdgeDown(s, r, br); NoRepeat(s, Edge(s[r], br), seen + Tests(s[r])))
  }

  lemma NoRepeatEdge(s: Store, r: Ref, seen: set<Key>, br: bool)
    requires Acyclic(s) && r < |s| && HasEdge(s[r], br) && NoRepeat(s, r, seen)
    ensures Edge(s[r], br) < |s| && NoRepeat(s, Edge(s[r], br), seen + Tests(s[r]))
  {
    EdgeDown(s, r, br);
  }

  lemma {:induction false} NoRepeatFewer(s: Store, r: Ref, seen: set<Key>, fewer: set<Key>)
    requires Acyclic(s) && r < |s| && NoRepeat(s, r, seen) && fewer <= seen
    ensures NoRepeat(s, r, fewer)
    decreases Rank(s)[r]
  {
    forall br | HasEdge(s[r], br)
      ensures Edge(s[r], br) < |s| && NoRepeat(s, Edge(s[r], br), fewer + Tests(s[r]))
    {
      EdgeDown(s, r, br);
      NoRepeatFewer(s, Edge(s[r], br), seen + Tests(s[r]), fewer + Tests(s[r]));
    }
  }

  // ----- tests on the two sides of a conformance test -----

  /** The packet bits tested at or below `r`. */
  ghost function Tested(s: Store, r: Ref): set<Key>
    requires Acyclic(s) && r < |s|
    decreases Rank(s)[r]
  {
    Tests(s[r])
    + (if HasEdge(s[r], true) then (EdgeDown(s, r, true); Tested(s, Edge(s[r], true))) else {})
    + (if HasEdge(s[r], false) then (EdgeDown(s, r, false); Tested(s, Edge(s[r], false))) else {})
  }

  /** No bit is tested on both sides of a conformance test at or below `r`. */
  ghost predicate Separate(s: Store, r: Ref)
    requires Acyclic(s) && r < |s|
    decreases Rank(s)[r]
  {
    && (forall br | HasEdge(s[r], br) :: (EdgeDown(s, r, br); Separate(s, Edge(s[r], br))))
    && (s[r].Conform? ==> (EdgeDown(s, r, true); EdgeDown(s, r, false); Tested(s, s[r].t) !! Tested(s, s[r].f)))
  }

  lemma SeparateEdge(s: Store, r: Ref, br: bool)
    requires Acyclic(s) && r < |s| && HasEdge(s[r], br)
    ensures Edge(s[r], br) < |s| && Tested(s, Edge(s[r], br)) <= Tested(s, r)
    ensures Separate(s, r) ==> Separate(s, Edge(s[r], br))
  {
    EdgeDown(s, r, br);
  }

  /** At most the tests of before, and none of them newly on both sides of a conformance
      test. */
  ghost predicate FewerTests(s: Store, a: Ref, s': Store, b: Ref)
    requires Acyclic(s) && a < |s| && Acyclic(s') && b < |s'|
  {
    Tested(s', b) <= Tested(s, a) && (Separate(s, a) ==> Separate(s', b))
  }

  /** A node that asks what another asked, with successors that fit, fits. */
  lemma FewerTestsUp(s: Store, a: Ref, s': Store, b: Ref)
    requires Acyclic(s) && a < |s| && Acyclic(s') && b < |s'| && SameTest(s'[b], s[a])
    requires forall br | HasEdge(s[a], br) :: Edge(s[a], br) < |s| && Edge(s'[b], br) < |s'| && FewerTests(s, Edge(s[a], br), s', Edge(s'[b], br))
    ensures FewerTests(s, a, s', b)
  {
    assert Tests(s'[b]) == Tests(s[a]);
    forall br | HasEdge(s[a], br)
      ensures Edge(s[a], br) < |s| && Edge(s'[b], br) < |s'|
      ensures Separate(s, a) ==> Separate(s', Edge(s'[b], br))
    {
      EdgeDown(s, a, br);
      EdgeDown(s', b, br);
    }
  }

  /** Wherever `a` may be placed without a repeat, a packet test below a meter, a
      missing node or a foreign group, so may `b`. */
  ghost predicate FitsWhere(s: Store, a: Ref, b: Ref)
    requires Acyclic(s) && a < |s| && b < |s|
  {
    && (forall seen :: NoRepeat(s, a, seen) ==> NoRepeat(s, b, seen))
    && (NoData(s, a) ==> NoData(s, b)) && (IsStatic(s, a) ==> IsStatic(s, b))
    && (forall g :: Plain(s, a, g) ==> Plain(s, b, g))
    && FewerTests(s, a, s, b)
  }

  /** `s'` extends `s` and brings in no repeat, no packet test below a meter, no
      missing node and no foreign group. */
  ghost predicate KeepsShape(s: Store, s': Store) {
    Acyclic(s) && Acyclic(s') && |s| <= |s'|
    && (forall r: Ref, seen :: r < |s| && NoRepeat(s, r, seen) ==> NoRepeat(s', r, seen))
    && (forall r: Ref :: r < |s| && NoData(s, r) ==> NoData(s', r))
    && (forall r: Ref :: r < |s| && IsStatic(s, r) ==> IsStatic(s', r))
    && (forall r: Ref, g :: r < |s| && Plain(s, r, g) ==> Plain(s', r, g))
    && (forall r: Ref :: r < |s| ==> FewerTests(s, r, s', r))
  }

  lemma KeepsShapeTrans(a: Store, b: Store, c: Store)
    requires KeepsShape(a, b) && KeepsShape(b, c)
    ensures KeepsShape(a, c)
  {
    forall r: Ref | r < |a| ensures FewerTests(a, r, c, r) { assert FewerTests(a, r, b, r) && FewerTests(b, r, c, r); }
  }

  lemma {:induction false} AppendNoRepeat(s: Store, n: Node, r: Ref, seen: set<Key>)
    requires Acyclic(s) && Acyclic(s + [n]) && r < |s|
    ensures NoRepeat(s, r, seen) <==> NoRepeat(s + [n], r, seen)
    decreases Rank(s)[r]
  {
    forall br | HasEdge(s[r], br)
      ensures Edge(s[r], br) < |s|
      ensures NoRepeat(s, Edge(s[r], br), seen + Tests(s[r])) <==> NoRepeat(s + [n], Edge(s[r], br), seen + Tests(s[r]))
    {
      EdgeDown(s, r, br);
      AppendNoRepeat(s, n, Edge(s[r], br), seen + Tests(s[r]));
    }
  }

  lemma {:induction false} AppendTested(s: Store, n: Node, r: Ref)
    requires Acyclic(s) && Acyclic(s + [n]) && r < |s|
    ensures Tested(s + [n], r) == Tested(s, r) && (Separate(s + [n], r) <==> Separate(s, r))
    decreases Rank(s)[r]
  {
    forall br | HasEdge(s[r], br)
      ensures Edge(s[r], br) < |s|
      ensures Tested(s + [n], Edge(s[r], br)) == Tested(s, Edge(s[r], br))
      ensures Separate(s + [n], Edge(s[r], br)) <==> Separate(s, Edge(s[r], br))
    {
      EdgeDown(s, r, br);
      AppendTested(s, n, Edge(s[r], br));
    }
    FewerTestsUp(s, r, s + [n], r);
    FewerTestsUp(s + [n], r, s, r);
  }

  lemma {:induction false} RedirectTested(s: Store, s': Store, p: Ref, br: bool, q: Ref, r: Ref)
    requires Acyclic(s) && Acyclic(s') && Redirected(s, s', p, br, q)
    requires Edge(s[p], br) < |s| && FewerTests(s, Edge(s[p], br), s, q) && r < |s|
    ensures FewerTests(s, r, s', r)
    decreases Rank(s')[r]
  {
    forall go | HasEdge(s[r], go)
      ensures Edge(s[r], go) < |s| && Edge(s'[r], go) < |s'| && FewerTests(s, Edge(s[r], go), s', Edge(s'[r], go))
    {
      EdgeDown(s', r, go);
      EdgeDown(s, r, go);
      RedirectTested(s, s', p, br, q, Edge(s'[r], go));
      if r == p && go == br { assert FewerTests(s, Edge(s[p], br), s, q) && FewerTests(s, q, s', q); }
    }
    FewerTestsUp(s, r, s', r);
  }

  lemma {:induction false} RedirectNoRepeat(s: Store, s': Store, p: Ref, br: bool, q: Ref, r: Ref, seen: set<Key>)
    requires Acyclic(s) && Acyclic(s') && Redirected(s, s', p, br, q)
    requires Edge(s[p], br) < |s| && FitsWhere(s, Edge(s[p], br), q)
    requires r < |s| && NoRepeat(s, r, seen)
    ensures NoRepeat(s', r, seen)
    decreases Rank(s')[r]
  {
    forall go | HasEdge(s'[r], go)
      ensures Edge(s'[r], go) < |s| && NoRepeat(s', Edge(s'[r], go), seen + Tests(s'[r]))
    {
      EdgeDown(s', r, go);
      NoRepeatEdge(s, r, seen, go);
      RedirectNoRepeat(s, s', p, br, q, Edge(s'[r], go), seen + Tests(s[r]));
    }
  }

  /** What a node shares with all its successors. */
  lemma EdgeShape(s: Store, r: Ref, br: bool)
    requires Acyclic(s) && r < |s| && HasEdge(s[r], br)
    ensures Edge(s[r], br) < |s|
    ensures NoData(s, r) ==> NoData(s, Edge(s[r], br))
    ensures IsStatic(s, r) ==> IsStatic(s, Edge(s[r], br))
    ensures forall g :: Plain(s, r, g) ==> Plain(s, Edge(s[r], br), g)
  {
    EdgeDown(s, r, br);
    if IsStatic(s, r) { StaticEdge(s, r, br); }
    forall g | Plain(s, r, g) ensures Plain(s, Edge(s[r], br), g) { PlainEdge(s, r, g, br); }
  }

  lemma RedirectKeepsShape(s: Store, s': Store, p: Ref, br: bool, q: Ref)
    requires Acyclic(s) && Acyclic(s') && Redirected(s, s', p, br, q)
    requires Edge(s[p], br) < |s| && FitsWhere(s, Edge(s[p], br), q)
    ensures KeepsShape(s, s')
  {
    forall r: Ref, seen | r < |s| && NoRepeat(s, r, seen) ensures NoRepeat(s', r, seen) {
      RedirectNoRepeat(s, s', p, br, q, r, seen);
    }
    forall r: Ref | r < |s|
      ensures NoData(s, r) ==> NoData(s', r)
      ensures IsStatic(s, r) ==> IsStatic(s', r)
    {
      RedirectStays(s, s', p, br, q, r);
    }
    forall r: Ref, g | r < |s| && Plain(s, r, g) ensures Plain(s', r, g) { RedirectPlain(s, s', p, br, q, r, g); }
    forall r: Ref | r < |s| ensures FewerTests(s, r, s', r) { RedirectTested(s, s', p, br, q, r); }
  }

  lemma AppendKeepsShape(s: Store, n: Node)
    requires Acyclic(s) && Acyclic(s + [n])
    ensures KeepsShape(s, s + [n])
  {
    forall r: Ref, seen | r < |s| && NoRepeat(s, r, seen) ensures NoRepeat(s + [n], r, seen) {
      AppendNoRepeat(s, n, r, seen);
    }
    AppendKeepsStatic(s, n);
    forall r: Ref | r < |s| ensures FewerTests(s, r, s + [n], r) { AppendTested(s, n, r); }
  }

  // ----- graphs that bear moving tests above meters -----

  /** No bit is tested twice on any path from `r`, or on both sides of a conformance
      test. */
  ghost predicate Single(s: Store, r: Ref)
    requires Acyclic(s) && r < |s|
    decreases Rank(s)[r]
  {
    && (forall br | HasEdge(s[r], br) :: (EdgeDown(s, r, br); Single(s, Edge(s[r], br)) && Tests(s[r]) !! Tested(s, Edge(s[r], br))))
    && (s[r].Conform? ==> (EdgeDown(s, r, true); EdgeDown(s, r, false); Tested(s, s[r].t) !! Tested(s, s[r].f)))
  }

  lemma {:induction false} NoRepeatSplit(s: Store, r: Ref, seen: set<Key>)
    requires Acyclic(s) && r < |s|
    ensures NoRepeat(s, r, seen) <==> NoRepeat(s, r, {}) && Tested(s, r) !! seen
    decreases Rank(s)[r]
  {
    forall br | HasEdge(s[r], br)
      ensures
        Edge(s[r], br) < |s|
        && (NoRepeat(s, Edge(s[r], br), seen + Tests(s[r])) <==> NoRepeat(s, Edge(s[r], br), {} + Tests(s[r])) && Tested(s, Edge(s[r], br)) !! seen)
    {
      EdgeDown(s, r, br);
      NoRepeatSplit(s, Edge(s[r], br), seen + Tests(s[r]));
      NoRepeatSplit(s, Edge(s[r], br), {} + Tests(s[r]));
    }
  }

  lemma {:induction false} SingleIs(s: Store, r: Ref)
    requires Acyclic(s) && r < |s|
    ensures Single(s, r) <==> NoRepeat(s, r, {}) && Separate(s, r)
    decreases Rank(s)[r]
  {
    forall br | HasEdge(s[r], br)
      ensures
        Edge(s[r], br) < |s|
        && (Single(s, Edge(s[r], br)) && Tests(s[r]) !! Tested(s, Edge(s[r], br))
            <==> NoRepeat(s, Edge(s[r], br), {} + Tests(s[r])) && Separate(s, Edge(s[r], br)))
    {
      EdgeDown(s, r, br);
      SingleIs(s, Edge(s[r], br));
      NoRepeatSplit(s, Edge(s[r], br), {} + Tests(s[r]));
    }
  }

  lemma {:induction false} NoDataTested(s: Store, r: Ref)
    requires Acyclic(s) && r < |s| && NoData(s, r)
    ensures Tested(s, r) == {}
    decreases Rank(s)[r]
  {
    if HasEdge(s[r], true) { NoDataEdge(s, r, true); EdgeDown(s, r, true); NoDataTested(s, s[r].t); }
    if HasEdge(s[r], false) { NoDataEdge(s, r, false); EdgeDown(s, r, false); NoDataTested(s, s[r].f); }
  }

  lemma {:induction false} StaticSeparate(s: Store, r: Ref)
    requires Acyclic(s) && r < |s| && IsStatic(s, r)
    ensures Separate(s, r)
    decreases Rank(s)[r]
  {
    forall br | HasEdge(s[r], br) ensures Edge(s[r], br) < |s| && Separate(s, Edge(s[r], br)) {
      EdgeDown(s, r, br);
      StaticEdge(s, r, br);
      StaticSeparate(s, Edge(s[r], br));
    }
    if s[r].Conform? {
      EdgeDown(s, r, true); EdgeDown(s, r, false);
      NoDataEdge(s, r, true);
      NoDataTested(s, s[r].t);
    }
  }

  /** The same bits are tested, and if one of the two graphs bears moving tests, so does
      the other. */
  ghost predicate SameTests(s: Store, a: Ref, s': Store, b: Ref)
    requires Acyclic(s) && a < |s| && Acyclic(s') && b < |s'|
  {
    Tested(s', b) == Tested(s, a) && (Single(s', b) <==> Single(s, a))
  }

  ghost predicate KeepsTests(s: Store, s': Store) {
    Acyclic(s) && Acyclic(s') && |s| <= |s'| && forall r: Ref :: r < |s| ==> SameTests(s, r, s', r)
  }

  lemma KeepsTestsTrans(a: Store, b: Store, c: Store)
    requires KeepsTests(a, b) && KeepsTests(b, c)
    ensures KeepsTests(a, c)
  {
    forall r: Ref | r < |a| ensures SameTests(a, r, c, r) { assert SameTests(a, r, b, r) && SameTests(b, r, c, r); }
  }

  lemma SameTestsUp(s: Store, a: Ref, s': Store, b: Ref)
    requires Acyclic(s) && a < |s| && Acyclic(s') && b < |s'| && SameTest(s'[b], s[a])
    requires forall br | HasEdge(s[a], br) :: Edge(s[a], br) < |s| && Edge(s'[b], br) < |s'| && SameTests(s, Edge(s[a], br), s', Edge(s'[b], br))
    ensures SameTests(s, a, s', b)
  {
    assert Tests(s'[b]) == Tests(s[a]);
    if HasEdge(s[a], true) { EdgeDown(s, a, true); EdgeDown(s', b, true); }
    if HasEdge(s[a], false) { EdgeDown(s, a, false); EdgeDown(s', b, false); }
  }

  lemma {:induction false} AppendSameTests(s: Store, n: Node, r: Ref)
    requires Acyclic(s) && Acyclic(s + [n]) && r < |s|
    ensures SameTests(s, r, s + [n], r)
    decreases Rank(s)[r]
  {
    forall br | HasEdge(s[r], br) ensures Edge(s[r], br) < |s| && SameTests(s, Edge(s[r], br), s + [n], Edge(s[r], br)) {
      EdgeDown(s, r, br);
      AppendSameTests(s, n, Edge(s[r], br));
    }
    SameTestsUp(s, r, s + [n], r);
  }

  lemma AppendKeepsTests(s: Store, n: Node)
    requires Acyclic(s) && Acyclic(s + [n])
    ensures KeepsTests(s, s + [n])
  {
    forall r: Ref | r < |s| ensures SameTests(s, r, s + [n], r) { AppendSameTests(s, n, r); }
  }

  lemma {:induction false} RedirectSameTests(s: Store, s': Store, p: Ref, br: bool, q: Ref, r: Ref)
    requires Acyclic(s) && Acyclic(s') && Redirected(s, s', p, br, q)
    requires Edge(s[p], br) < |s| && SameTests(s, Edge(s[p], br), s, q) && r < |s|
    ensures SameTests(s, r, s', r)
    decreases Rank(s')[r]
  {
    forall go | HasEdge(s[r], go)
      ensures Edge(s[r], go) < |s| && Edge(s'[r], go) < |s'| && SameTests(s, Edge(s[r], go), s', Edge(s'[r], go))
    {
      EdgeDown(s', r, go);
      EdgeDown(s, r, go);
      RedirectSameTests(s, s', p, br, q, Edge(s'[r], go));
    }
    SameTestsUp(s, r, s', r);
  }

  lemma RedirectKeepsTests(s: Store, s': Store, p: Ref, br: bool, q: Ref)
    requires Acyclic(s) && Acyclic(s') && Redirected(s, s', p, br, q)
    requires Edge(s[p], br) < |s| && SameTests(s, Edge(s[p], br), s, q)
    ensures KeepsTests(s, s')
  {
    forall r: Ref | r < |s| ensures SameTests(s, r, s', r) { RedirectSameTests(s, s', p, br, q, r); }
  }

  /** The tests on the other side of a meter, and whether they may be moved. */
  ghost function Aside(s: Store, r: Ref, br: bool): set<Key>
    requires Acyclic(s) && r < |s| && Meter(s[r]) && HasEdge(s[r], br)
  {
    if HasEdge(s[r], !br) then (EdgeDown(s, r, !br); Tested(s, Edge(s[r], !br))) else {}
  }

  ghost predicate AsideSingle(s: Store, r: Ref, br: bool)
    requires Acyclic(s) && r < |s| && Meter(s[r]) && HasEdge(s[r], br)
  {
    HasEdge(s[r], !br) ==> (EdgeDown(s, r, !br); Single(s, Edge(s[r], !br)))
  }

  lemma MeterTests(s: Store, r: Ref, br: bool)
    requires Acyclic(s) && r < |s| && Meter(s[r]) && HasEdge(s[r], br)
    ensures
      var e := Edge(s[r], br);
      e < |s| && Tested(s, r) == Tested(s, e) + Aside(s, r, br)
      && (Single(s, r) <==> Single(s, e) && AsideSingle(s, r, br) && Tested(s, e) !! Aside(s, r, br))
  {
    EdgeDown(s, r, br);
    if HasEdge(s[r], !br) { EdgeDown(s, r, !br); }
  }

  lemma DataTests(s: Store, r: Ref)
    requires Acyclic(s) && r < |s| && s[r].Data?
    ensures
      s[r].t < |s| && s[r].f < |s| && Tested(s, r) == Tests(s[r]) + Tested(s, s[r].t) + Tested(s, s[r].f)
      && (Single(s, r) <==> Single(s, s[r].t) && Single(s, s[r].f) && Tests(s[r]) !! Tested(s, s[r].t) + Tested(s, s[r].f))
  {
    EdgeDown(s, r, true); EdgeDown(s, r, false);
    assert Edge(s[r], true) == s[r].t && Edge(s[r], false) == s[r].f;
  }

  /** A meter below the test. */
  lemma SwappedMeter(s: Store, s': Store, r: Ref, br: bool, next: Ref, i: Ref)
    requires KeepsTests(s, s') && r < |s| && Meter(s[r]) && HasEdge(s[r], br) && next < |s|
    requires i < |s'| && s'[i] == SetEdge(s[r], br, next)
    ensures Tested(s', i) == Tested(s, next) + Aside(s, r, br)
    ensures Single(s', i) <==> Single(s, next) && AsideSingle(s, r, br) && Tested(s, next) !! Aside(s, r, br)
  {
    MeterTests(s', i, br);
    assert SameTests(s, next, s', next);
    if HasEdge(s[r], !br) {
      EdgeDown(s, r, !br);
      assert SameTests(s, Edge(s[r], !br), s', Edge(s[r], !br));
    }
  }

  lemma SwapKeepsTests(s: Store, r: Ref, br: bool, w: seq<nat>)
    requires Weighted(s, w) && r < |s| && Meter(s[r]) && HasEdge(s[r], br)
    requires Edge(s[r], br) < |s| && s[Edge(s[r], br)].Data?
    requires Acyclic(s) && Acyclic(Swapped(s, r, br))
    ensures KeepsTests(s, Swapped(s, r, br))
  {
    var e := Edge(s[r], br);
    forall go | HasEdge(s[r], go) ensures Edge(s[r], go) < |s| { EdgeDown(s, r, go); }
    EdgeDown(s, e, true); EdgeDown(s, e, false);
    var n1, n2 := SetEdge(s[r], br, s[e].t), SetEdge(s[r], br, s[e].f);
    var n3 := Data(s[e].group, s[e].bit, |s|, |s| + 1);
    Append(s, n1); AppendKeepsTests(s, n1);
    Append(s + [n1], n2); AppendKeepsTests(s + [n1], n2);
    Append(s + [n1] + [n2], n3); AppendKeepsTests(s + [n1] + [n2], n3);
    KeepsTestsTrans(s, s + [n1], s + [n1] + [n2]);
    KeepsTestsTrans(s, s + [n1] + [n2], Swapped(s, r, br));
  }

  /** Swapping a meter with the test below it brings nothing together that was not: the
      other side of the meter had to be without that test before, and has to be now. */
  lemma SwapSameTests(s: Store, r: Ref, br: bool)
    requires Acyclic(s) && r < |s| && Meter(s[r]) && HasEdge(s[r], br)
    requires Edge(s[r], br) < |s| && s[Edge(s[r], br)].Data?
    requires Acyclic(Swapped(s, r, br)) && KeepsTests(s, Swapped(s, r, br))
    ensures SameTests(s, r, Swapped(s, r, br), |s| + 2)
  {
    var s', e := Swapped(s, r, br), Edge(s[r], br);
    MeterTests(s, r, br);
    DataTests(s, e);
    SwappedMeter(s, s', r, br, s[e].t, |s|);
    SwappedMeter(s, s', r, br, s[e].f, |s| + 1);
    assert s'[|s| + 2] == Data(s[e].group, s[e].bit, |s|, |s| + 1);
    DataTests(s', |s| + 2);
    assert Tests(s'[|s| + 2]) == Tests(s[e]);
  }

  /** Above the meters, tests repeat if and only if they did before, or were made on both
      sides of a conformance test. */
  lemma StaticRepeats(s: Store, r: Ref, s': Store, r': Ref)
    requires Acyclic(s) && r < |s| && Acyclic(s') && r' < |s'| && SameTests(s, r, s', r') && IsStatic(s', r')
    ensures NoRepeat(s', r', {}) <==> NoRepeat(s, r, {}) && Separate(s, r)
  {
    SingleIs(s, r);
    SingleIs(s', r');
    StaticSeparate(s', r');
  }

  // ----- what moving tests keeps -----

  /** Every node behaves as before, and tests and misses as much. */
  ghost predicate Moves(s: Store, s': Store) { Preserves(s, s') && KeepsStatic(s, s') && KeepsTests(s, s') }

  lemma MovesTrans(a: Store, b: Store, c: Store)
    requires Moves(a, b) && Moves(b, c)
    ensures Moves(a, c)
  {
    PreservesTrans(a, b, c);
    KeepsStaticTrans(a, b, c);
    KeepsTestsTrans(a, b, c);
  }

  /** Node `b` of `s'` may stand for node `a` of `s`. */
  ghost predicate Becomes(s: Store, a: Ref, s': Store, b: Ref) {
    && Acyclic(s) && a < |s| && Acyclic(s') && b < |s'|
    && (forall env, h :: Run(s', b, env, h) == Run(s, a, env, h))
    && (NoData(s', b) <==> NoData(s, a)) && (forall g :: Plain(s', b, g) <==> Plain(s, a, g))
    && SameTests(s, a, s', b)
  }

  lemma MovesBecomes(s: Store, s': Store, r: Ref)
    requires Moves(s, s') && r < |s|
    ensures Becomes(s, r, s', r)
  {
    assert SameTests(s, r, s', r);
    forall g ensures Plain(s', r, g) <==> Plain(s, r, g) {}
  }

  lemma BecomesTrans(s: Store, a: Ref, s': Store, b: Ref, s'': Store, c: Ref)
    requires Becomes(s, a, s', b) && Becomes(s', b, s'', c)
    ensures Becomes(s, a, s'', c)
  {
    forall env, h ensures Run(s'', c, env, h) == Run(s, a, env, h) { assert Run(s', b, env, h) == Run(s, a, env, h); }
    forall g ensures Plain(s'', c, g) <==> Plain(s, a, g) { assert Plain(s', b, g) <==> Plain(s, a, g); }
  }

  /** What two nodes both stand for. */
  lemma BecomesBoth(s: Store, a: Ref, s': Store, b: Ref, c: Ref)
    requires Becomes(s, a, s', b) && Becomes(s, a, s', c)
    ensures Equivalent(s', b, c) && Becomes(s', b, s', c)
  {
    forall env, h ensures Run(s', c, env, h) == Run(s', b, env, h) {
      assert Run(s', b, env, h) == Run(s, a, env, h) == Run(s', c, env, h);
    }
    forall g ensures Plain(s', c, g) <==> Plain(s', b, g) { assert (Plain(s', b, g) <==> Plain(s, a, g)) && (Plain(s', c, g) <==> Plain(s, a, g)); }
  }

  lemma MovesSelf(s: Store)
    requires Acyclic(s)
    ensures Moves(s, s)
  {}

  lemma SwapMoves(s: Store, r: Ref, br: bool, w: seq<nat>)
    requires Weighted(s, w) && r < |s| && Meter(s[r]) && HasEdge(s[r], br)
    requires Edge(s[r], br) < |s| && s[Edge(s[r], br)].Data?
    ensures Moves(s, Swapped(s, r, br))
  {
    SwapPreserves(s, r, br, w);
    SwapKeepsTests(s, r, br, w);
  }

  lemma SwapBecomes(s: Store, r: Ref, br: bool)
    requires r < |s| && Meter(s[r]) && HasEdge(s[r], br) && Edge(s[r], br) < |s| && s[Edge(s[r], br)].Data?
    requires Moves(s, Swapped(s, r, br))
    ensures Becomes(s, r, Swapped(s, r, br), |s| + 2) && !NoData(Swapped(s, r, br), |s| + 2)
  {
    var s', top := Swapped(s, r, br), |s| + 2;
    SwapRuns(s, r, br, s', top);
    SwapShows(s, r, br, s', top);
    SwapSameTests(s, r, br);
  }

  lemma SwapRuns(s: Store, r: Ref, br: bool, s': Store, top: Ref)
    requires r < |s| && Meter(s[r]) && HasEdge(s[r], br) && Edge(s[r], br) < |s| && s[Edge(s[r], br)].Data?
    requires s' == Swapped(s, r, br) && top == |s| + 2 && Preserves(s, s')
    ensures forall env, h :: Run(s', top, env, h) == Run(s, r, env, h)
  {
    forall env, h ensures Run(s', top, env, h) == Run(s, r, env, h) { SwapRun(s, r, br, env, h); }
  }

  lemma SwapShows(s: Store, r: Ref, br: bool, s': Store, top: Ref)
    requires r < |s| && Meter(s[r]) && HasEdge(s[r], br) && Edge(s[r], br) < |s| && s[Edge(s[r], br)].Data?
    requires s' == Swapped(s, r, br) && top == |s| + 2 && KeepsStatic(s, s')
    ensures !NoData(s, r) && !NoData(s', top) && forall g :: Plain(s', top, g) <==> Plain(s, r, g)
  {
    if NoData(s, r) { NoDataEdge(s, r, br); }
    forall g ensures Plain(s', top, g) <==> Plain(s, r, g) { SwapPlain(s, r, br, g); }
  }

  /** Tests are above meters if they are below both branches, and the node is no meter
      that leads to a test. */
  lemma MetersBelow(s: Store, r: Ref)
    requires Acyclic(s) && r < |s|
    requires forall br | HasEdge(s[r], br) :: Edge(s[r], br) < |s| && IsStatic(s, Edge(s[r], br)) && (Meter(s[r]) ==> !s[Edge(s[r], br)].Data?)
    ensures IsStatic(s, r)
  {
    forall br | HasEdge(s[r], br) ensures Edge(s[r], br) < |s| && (Meter(s[r]) ==> NoData(s, Edge(s[r], br))) { EdgeDown(s, r, br); }
  }
}
