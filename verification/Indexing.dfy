/** Reading class selection indices: `tcindex` filters, and what they make of the
    number of a path. */
module Indexing {
  import opened Semantics
  import opened Bits
  import opened Qdiscs

  /** A `tcindex` filter: elements are looked up by a field of the index. */
  datatype Filter = Filter(shift: nat, mask: nat, elements: seq<(nat, Class)>)

  type Filters = map<Qdisc, seq<Filter>>

  function ElementFor(elements: seq<(nat, Class)>, value: nat): (c: Option<Class>)
    ensures c.Some? ==> (value, c.value) in elements
    ensures c.None? ==> forall e | e in elements :: e.0 != value
  {
    if elements == [] then None
    else if elements[0].0 == value then Some(elements[0].1)
    else ElementFor(elements[1..], value)
  }

  /** The first filter with an element for its field of the index selects the class. */
  function FilterPath(filters: seq<Filter>, index: nat): Option<Class> {
    if filters == [] then None
    else
      var c := ElementFor(filters[0].elements, Shr(And(index, filters[0].mask), filters[0].shift));
      if c.Some? then c else FilterPath(filters[1..], index)
  }

  function Lookup(filters: Filters, q: Qdisc, index: nat): Option<Class> {
    if q in filters then FilterPath(filters[q], index) else None
  }

  function FieldMask(shift: nat, bits: nat): nat { Shl(Pow2(bits) - 1, shift) }

  lemma OneElement(elements: seq<(nat, Class)>, value: nat, c: Class)
    requires (value, c) in elements && forall e | e in elements && e.0 == value :: e.1 == c
    ensures ElementFor(elements, value) == Some(c)
  {}

  // ----- the fields of a discipline do not depend on where they are recorded -----

  ghost predicate SameBase(a: seq<SelQdisc>, b: seq<SelQdisc>) {
    |a| == |b| && forall i | 0 <= i < |a| :: b[i] == a[i].(shift := b[i].shift, bits := b[i].bits)
  }

  lemma {:induction false} SameBaseFind(a: seq<SelQdisc>, b: seq<SelQdisc>, q: Qdisc)
    requires SameBase(a, b)
    ensures FindQdisc(a, q) == FindQdisc(b, q)
    decreases |a|
  {
    if a != [] { SameBaseFind(a[1..], b[1..], q); }
  }

  lemma {:induction false} SameBaseBits(a: seq<SelQdisc>, b: seq<SelQdisc>, q: Qdisc)
    requires SameBase(a, b)
    ensures SelectionBits(a, q) == SelectionBits(b, q)
    decreases q, 1
  {
    SameBaseFind(a, b, q);
    SameBaseMax(a, b, q.classes);
  }

  lemma {:induction false} SameBaseMax(a: seq<SelQdisc>, b: seq<SelQdisc>, cs: Classes)
    requires SameBase(a, b)
    ensures MaxBits(a, cs) == MaxBits(b, cs)
    decreases cs, 0
  {
    if cs.More? {
      if cs.first.inner.Has? { SameBaseBits(a, b, cs.first.inner.qdisc); }
      SameBaseMax(a, b, cs.first.child);
      SameBaseMax(a, b, cs.next);
    }
  }

  lemma SameBaseRegistered(a: seq<SelQdisc>, b: seq<SelQdisc>, e: Elem)
    requires SameBase(a, b)
    ensures Registered(a, e) <==> Registered(b, e)
  {
    SameBaseFind(a, b, e.qdisc);
  }

  lemma SameBaseOk(a: seq<SelQdisc>, b: seq<SelQdisc>)
    requires SameBase(a, b) && AllOk(a)
    ensures AllOk(b)
  {
    forall i | 0 <= i < |b| ensures SelOk(b[i]) { assert SelOk(a[i]); }
    forall i, j | 0 <= i < j < |b| ensures b[i].qdisc != b[j].qdisc { assert a[i].qdisc != a[j].qdisc; }
  }

  /** Field and shift of a discipline are the ones it should have. */
  ghost predicate Right(qs: seq<SelQdisc>, i: nat)
    requires i < |qs|
  {
    qs[i].bits == OwnBits(qs[i]) && qs[i].shift == MaxBits(qs, qs[i].qdisc.classes)
  }

  ghost predicate Later(a: seq<SelQdisc>, b: seq<SelQdisc>) {
    && SameBase(a, b)
    && (forall i | 0 <= i < |a| && a[i].bits == OwnBits(a[i]) :: b[i].bits == OwnBits(b[i]))
    && forall i: nat {:trigger Right(b, i)} | i < |a| :: Right(a, i) ==> Right(b, i)
  }

  lemma LaterTrans(a: seq<SelQdisc>, b: seq<SelQdisc>, c: seq<SelQdisc>)
    requires Later(a, b) && Later(b, c)
    ensures Later(a, c)
  {
    forall i: nat | i < |a| && Right(a, i) ensures Right(c, i) { assert Right(b, i); }
  }

  /** All registered disciplines that can be reached from `q` have been placed. */
  ghost predicate Placed(qs: seq<SelQdisc>, q: Qdisc)
    decreases q, 1
  {
    var i := FindQdisc(qs, q);
    i < |qs| ==> Right(qs, i) && PlacedAll(qs, q.classes)
  }

  ghost predicate PlacedAll(qs: seq<SelQdisc>, cs: Classes)
    decreases cs, 0
  {
    match cs
    case End => true
    case More(c, next) =>
      PlacedAll(qs, c.child) && PlacedAll(qs, next) && (match c.inner case NoQdisc => true case Has(q) => Placed(qs, q))
  }

  lemma {:induction false} PlacedLater(a: seq<SelQdisc>, b: seq<SelQdisc>, q: Qdisc)
    requires Later(a, b) && Placed(a, q)
    ensures Placed(b, q)
    decreases q, 1
  {
    SameBaseFind(a, b, q);
    var i := FindQdisc(b, q);
    if i < |b| {
      assert Right(b, i);
      PlacedAllLater(a, b, q.classes);
    }
  }

  lemma {:induction false} PlacedAllLater(a: seq<SelQdisc>, b: seq<SelQdisc>, cs: Classes)
    requires Later(a, b) && PlacedAll(a, cs)
    ensures PlacedAll(b, cs)
    decreases cs, 0
  {
    if cs.More? {
      PlacedAllLater(a, b, cs.first.child);
      PlacedAllLater(a, b, cs.next);
      if cs.first.inner.Has? { PlacedLater(a, b, cs.first.inner.qdisc); }
    }
  }

  lemma {:induction false} PlacedWithin(qs: seq<SelQdisc>, cs: Classes, c: Class)
    requires PlacedAll(qs, cs) && Within(cs, c) && c.inner.Has?
    ensures Placed(qs, c.inner.qdisc)
    decreases cs
  {
    if cs.first != c {
      if Within(cs.first.child, c) { PlacedWithin(qs, cs.first.child, c); } else { PlacedWithin(qs, cs.next, c); }
    }
  }

  lemma {:induction false} PlacedOnPath(qs: seq<SelQdisc>, q: Qdisc, path: seq<Elem>, k: nat)
    requires Placed(qs, q) && Chain(q, path) && AllRegistered(qs, path) && k < |path|
    ensures Right(qs, FindQdisc(qs, path[k].qdisc))
    decreases k
  {
    assert Registered(qs, path[0]);
    if k > 0 {
      PlacedWithin(qs, q.classes, path[0].cls);
      PlacedOnPath(qs, path[0].cls.inner.qdisc, path[1..], k - 1);
    }
  }

  /** ... and so has the one past the end, if it is in use at all. */
  lemma {:induction false} PlacedBeyond(qs: seq<SelQdisc>, q: Qdisc, path: seq<Elem>)
    requires Placed(qs, q) && Chain(q, path) && AllRegistered(qs, path) && Beyond(q, path).Has?
    ensures FindQdisc(qs, Beyond(q, path).qdisc) < |qs| ==> Right(qs, FindQdisc(qs, Beyond(q, path).qdisc))
    decreases |path|
  {
    if path != [] {
      assert Registered(qs, path[0]);
      PlacedWithin(qs, q.classes, path[0].cls);
      PlacedBeyond(qs, path[0].cls.inner.qdisc, path[1..]);
    }
  }

  // ----- numbers that say the whole path -----

  /** The number of a path: its place among equal ones above its fields. */
  ghost function PathNumber(qs: seq<SelQdisc>, q: Qdisc, path: seq<Elem>, top: nat): nat
    requires AllRegistered(qs, path)
  {
    Join(top, SelectionBits(qs, q), Fields(qs, path))
  }

  lemma {:induction false} FieldsReadAll(qs: seq<SelQdisc>, q: Qdisc, path: seq<Elem>, top: nat, k: nat)
    requires AllOk(qs) && Chain(q, path) && AllRegistered(qs, path)
    ensures k < |path| ==> FieldOf(qs, path[k].qdisc, PathNumber(qs, q, path, top)) == Number(qs, path[k])
    ensures k == |path| && Beyond(q, path).Has? ==> FieldOf(qs, Beyond(q, path).qdisc, PathNumber(qs, q, path, top)) == 0
    decreases |path|
  {
    FieldsRead(qs, q, path, top);
    if 0 < k <= |path| && path[0].cls.inner.Has? {
      var top' := FieldsRest(qs, q, path, top);
      FieldsReadAll(qs, path[0].cls.inner.qdisc, path[1..], top', k - 1);
    }
  }

  /** The filter of a discipline in use. */
  function HierFilter(s: SelQdisc): Filter {
    Filter(s.shift, FieldMask(s.shift, s.bits), seq(|s.classes|, i requires 0 <= i < |s.classes| => (s.classes[i].number, s.classes[i].cls)))
  }

  ghost predicate HierFilters(qs: seq<SelQdisc>, filters: Filters) {
    && (forall i | 0 <= i < |qs| && !qs[i].qdisc.gred :: qs[i].qdisc in filters && filters[qs[i].qdisc] == [HierFilter(qs[i])])
    && (forall q | q in filters :: exists i | 0 <= i < |qs| :: qs[i].qdisc == q)
  }

  lemma FilterReads(qs: seq<SelQdisc>, i: nat, index: nat)
    requires AllOk(qs) && i < |qs| && Right(qs, i)
    ensures FilterPath([HierFilter(qs[i])], index) == ElementFor(HierFilter(qs[i]).elements, FieldOf(qs, qs[i].qdisc, index))
  {
    var f := HierFilter(qs[i]);
    MaskedField(index, qs[i].shift, qs[i].bits);
    assert FindQdisc(qs, qs[i].qdisc) == i;
    assert Shr(And(index, f.mask), f.shift) == FieldOf(qs, qs[i].qdisc, index);
    assert [f][1..] == [] && FilterPath([], index) == None;
  }

  /** The element for the number of a class is its own. */
  lemma NumberSelects(qs: seq<SelQdisc>, e: Elem)
    requires AllOk(qs) && Registered(qs, e) && !e.qdisc.gred
    ensures ElementFor(HierFilter(qs[FindQdisc(qs, e.qdisc)]).elements, Number(qs, e)) == Some(e.cls)
  {
    var s := qs[FindQdisc(qs, e.qdisc)];
    assert SelOk(s);
    var j := FindClass(s.classes, e.cls);
    var es := HierFilter(s).elements;
    assert es[j] == (Number(qs, e), e.cls);
    forall x | x in es && x.0 == Number(qs, e) ensures x.1 == e.cls {
      var m :| 0 <= m < |es| && es[m] == x;
      assert s.num - m == s.num - j;
    }
    OneElement(es, Number(qs, e), e.cls);
  }

  lemma NoElementForZero(qs: seq<SelQdisc>, i: nat)
    requires AllOk(qs) && i < |qs| && !qs[i].qdisc.gred
    ensures ElementFor(HierFilter(qs[i]).elements, 0) == None
  {
    assert SelOk(qs[i]);
    assert forall e | e in HierFilter(qs[i]).elements :: e.0 > 0;
  }

  /** Every discipline on the path is led to the class of the path, and the one past
      its end finds nothing. */
  ghost predicate Leads(filters: Filters, q: Qdisc, path: seq<Elem>, n: nat) {
    && (forall k | 0 <= k < |path| && !path[k].qdisc.gred :: Lookup(filters, path[k].qdisc, n) == Some(path[k].cls))
    && (var b := Beyond(q, path); b.Has? && !b.qdisc.gred ==> Lookup(filters, b.qdisc, n) == None)
  }

  lemma PathLeadsAt(qs: seq<SelQdisc>, filters: Filters, q: Qdisc, path: seq<Elem>, top: nat, k: nat)
    requires AllOk(qs) && Placed(qs, q) && HierFilters(qs, filters)
    requires Chain(q, path) && AllRegistered(qs, path) && k < |path| && !path[k].qdisc.gred
    ensures Lookup(filters, path[k].qdisc, PathNumber(qs, q, path, top)) == Some(path[k].cls)
  {
    assert Registered(qs, path[k]);
    PlacedOnPath(qs, q, path, k);
    FieldsReadAll(qs, q, path, top, k);
    FilterReads(qs, FindQdisc(qs, path[k].qdisc), PathNumber(qs, q, path, top));
    NumberSelects(qs, path[k]);
  }

  lemma NothingBeyond(qs: seq<SelQdisc>, filters: Filters, q: Qdisc, path: seq<Elem>, top: nat)
    requires AllOk(qs) && Placed(qs, q) && HierFilters(qs, filters)
    requires Chain(q, path) && AllRegistered(qs, path) && Beyond(q, path).Has? && !Beyond(q, path).qdisc.gred
    ensures Lookup(filters, Beyond(q, path).qdisc, PathNumber(qs, q, path, top)) == None
  {
    var b := Beyond(q, path).qdisc;
    if b in filters {
      var i := FindQdisc(qs, b);
      PlacedBeyond(qs, q, path);
      FieldsReadAll(qs, q, path, top, |path|);
      FilterReads(qs, i, PathNumber(qs, q, path, top));
      NoElementForZero(qs, i);
    }
  }

  lemma PathLeads(qs: seq<SelQdisc>, filters: Filters, q: Qdisc, path: seq<Elem>, top: nat)
    requires AllOk(qs) && Placed(qs, q) && HierFilters(qs, filters)
    requires Chain(q, path) && AllRegistered(qs, path)
    ensures Leads(filters, q, path, PathNumber(qs, q, path, top))
  {
    forall k | 0 <= k < |path| && !path[k].qdisc.gred
      ensures Lookup(filters, path[k].qdisc, PathNumber(qs, q, path, top)) == Some(path[k].cls)
    {
      PathLeadsAt(qs, filters, q, path, top, k);
    }
    if Beyond(q, path).Has? && !Beyond(q, path).qdisc.gred { NothingBeyond(qs, filters, q, path, top); }
  }

  ghost predicate NoGred(path: seq<Elem>) { forall k | 0 <= k < |path| :: !path[k].qdisc.gred }

  /** Without GRED the number determines the path, and its place among equal ones. */
  lemma {:induction false} NumberInjective(qs: seq<SelQdisc>, q: Qdisc, a: seq<Elem>, s: nat, b: seq<Elem>, t: nat)
    requires AllOk(qs) && Chain(q, a) && AllRegistered(qs, a) && NoGred(a)
    requires Chain(q, b) && AllRegistered(qs, b) && NoGred(b)
    requires PathNumber(qs, q, a, s) == PathNumber(qs, q, b, t)
    ensures a == b && s == t
    decreases |a|
  {
    FieldsFit(qs, q, a);
    FieldsFit(qs, q, b);
    JoinParts(s, SelectionBits(qs, q), Fields(qs, a));
    JoinParts(t, SelectionBits(qs, q), Fields(qs, b));
    FieldsInjective(qs, q, a, b);
  }

  lemma {:induction false} FieldsInjective(qs: seq<SelQdisc>, q: Qdisc, a: seq<Elem>, b: seq<Elem>)
    requires AllOk(qs) && Chain(q, a) && AllRegistered(qs, a) && NoGred(a)
    requires Chain(q, b) && AllRegistered(qs, b) && NoGred(b)
    requires Fields(qs, a) == Fields(qs, b)
    ensures a == b
    decreases |a|
  {
    if a != [] && b != [] {
      RestFits(qs, q, a);
      RestFits(qs, q, b);
      assert Registered(qs, a[0]) && Registered(qs, b[0]);
      JoinParts(Number(qs, a[0]), MaxBits(qs, q.classes), Fields(qs, a[1..]));
      JoinParts(Number(qs, b[0]), MaxBits(qs, q.classes), Fields(qs, b[1..]));
      NumberSelects(qs, a[0]);
      NumberSelects(qs, b[0]);
      assert a[0] == b[0];
      if a[0].cls.inner.Has? { FieldsInjective(qs, a[0].cls.inner.qdisc, a[1..], b[1..]); }
      assert a == [a[0]] + a[1..] && b == [b[0]] + b[1..];
    } else if a != [] {
      FieldsPositive(qs, q, a);
    } else if b != [] {
      FieldsPositive(qs, q, b);
    }
  }

  lemma FieldsPositive(qs: seq<SelQdisc>, q: Qdisc, path: seq<Elem>)
    requires AllOk(qs) && Chain(q, path) && AllRegistered(qs, path) && NoGred(path) && path != []
    ensures Fields(qs, path) > 0
  {
    RestFits(qs, q, path);
    assert Registered(qs, path[0]);
    NumberFits(qs, path[0]);
    JoinParts(Number(qs, path[0]), MaxBits(qs, q.classes), Fields(qs, path[1..]));
    ZeroField(MaxBits(qs, q.classes), 0);
  }

  // ----- setting fields -----

  lemma PlaceBits(a: seq<SelQdisc>, i: nat, bits: nat)
    requires AllOk(a) && i < |a| && bits == OwnBits(a[i])
    ensures Later(a, a[i := a[i].(bits := bits)])
  {
    var b := a[i := a[i].(bits := bits)];
    forall j: nat | j < |a| && Right(a, j) ensures Right(b, j) { SameBaseMax(a, b, a[j].qdisc.classes); }
  }

  lemma PlaceShift(a: seq<SelQdisc>, i: nat, shift: nat)
    requires AllOk(a) && i < |a| && a[i].bits == OwnBits(a[i]) && shift == MaxBits(a, a[i].qdisc.classes)
    ensures var b := a[i := a[i].(shift := shift)]; Later(a, b) && Right(b, i)
  {
    var b := a[i := a[i].(shift := shift)];
    SameBaseMax(a, b, a[i].qdisc.classes);
    forall j: nat | j < |a| && Right(a, j) ensures Right(b, j) { SameBaseMax(a, b, a[j].qdisc.classes); }
  }

  lemma {:induction false} SameBaseAll(a: seq<SelQdisc>, b: seq<SelQdisc>, path: seq<Elem>)
    requires SameBase(a, b) && AllRegistered(a, path)
    ensures AllRegistered(b, path)
  {
    forall k | 0 <= k < |path| ensures Registered(b, path[k]) { SameBaseRegistered(a, b, path[k]); }
  }

  lemma {:induction false} WidthIs(n: nat, b: nat)
    requires n < Pow2(b) && (b > 0 ==> Pow2(b - 1) <= n)
    ensures b == Width(n)
  {
    if b < Width(n) { Pow2Mono(b, Width(n) - 1); }
    if b > Width(n) { Pow2Mono(Width(n), b - 1); }
  }

  /** One step of putting a number together: the field of a class is or-ed in. */
  lemma FieldStep(qs: seq<SelQdisc>, q: Qdisc, path: seq<Elem>, z: nat) returns (w: nat)
    requires AllOk(qs) && Chain(q, path) && AllRegistered(qs, path) && path != []
    ensures var s := MaxBits(qs, q.classes); var rest := path[1..];
      && AllRegistered(qs, rest)
      && Or(Shl(z, SelectionBits(qs, q)), Shl(Number(qs, path[0]), s)) == Shl(w, s)
      && PathNumber(qs, q, path, z) == Join(w, s, Fields(qs, rest))
  {
    var s, n := MaxBits(qs, q.classes), Number(qs, path[0]);
    assert Registered(qs, path[0]);
    var b := OwnBits(qs[FindQdisc(qs, q)]);
    NumberFits(qs, path[0]);
    RestFits(qs, q, path);
    w := Join(z, b, n);
    JoinBound(n, s, 0, b);
    OrFields(z, Join(n, s, 0), s + b);
    JoinJoin(z, b, n, s, 0);
    JoinJoin(z, b, n, s, Fields(qs, path[1..]));
  }

  /** Going on from a discipline to an inner one leaves unused bits between. */
  lemma FieldGap(qs: seq<SelQdisc>, q: Qdisc, c: Class, w: nat, x: nat) returns (z: nat)
    requires Within(q.classes, c) && c.inner.Has?
    requires x < Pow2(SelectionBits(qs, c.inner.qdisc))
    ensures var s := MaxBits(qs, q.classes); var k := SelectionBits(qs, c.inner.qdisc);
      Shl(w, s) == Shl(z, k) && Join(w, s, x) == Join(z, k, x)
  {
    InnerFits(qs, q.classes, c);
    var s, k := MaxBits(qs, q.classes), SelectionBits(qs, c.inner.qdisc);
    z := Join(w, s - k, 0);
    JoinZero(k, x);
    JoinZero(k, 0);
    JoinJoin(w, s - k, 0, k, x);
    JoinJoin(w, s - k, 0, k, 0);
  }

  ghost predicate PlacedOne(qs: seq<SelQdisc>, c: Class) {
    PlacedAll(qs, c.child) && (c.inner.Has? ==> Placed(qs, c.inner.qdisc))
  }

  /** Everything in the list before `walk` has been placed. */
  ghost predicate PlacedTo(qs: seq<SelQdisc>, cs: Classes, walk: Classes)
    decreases cs
  {
    cs == walk || (cs.More? && PlacedOne(qs, cs.first) && PlacedTo(qs, cs.next, walk))
  }

  lemma {:induction false} PlacedToNext(a: seq<SelQdisc>, b: seq<SelQdisc>, cs: Classes, walk: Classes)
    requires Later(a, b) && PlacedTo(a, cs, walk) && walk.More? && PlacedOne(b, walk.first)
    ensures PlacedTo(b, cs, walk.next)
    decreases cs
  {
    if cs != walk {
      PlacedAllLater(a, b, cs.first.child);
      if cs.first.inner.Has? { PlacedLater(a, b, cs.first.inner.qdisc); }
      PlacedToNext(a, b, cs.next, walk);
    }
  }

  lemma {:induction false} PlacedToEnd(qs: seq<SelQdisc>, cs: Classes)
    requires PlacedTo(qs, cs, End)
    ensures PlacedAll(qs, cs)
    decreases cs
  {
    if cs.More? { PlacedToEnd(qs, cs.next); }
  }

  /** The first `m` fields of a path are in `number`. `z` is what they come to above
      the bits of the next discipline. */
  ghost predicate Assembled(qs: seq<SelQdisc>, root: Qdisc, path: seq<Elem>, top: nat, m: nat, q: Qdisc, z: nat, number: nat)
    requires AllRegistered(qs, path) && m <= |path|
  {
    if m == |path| then number == PathNumber(qs, root, path, top)
    else
      assert forall k | 0 <= k < |path[m..]| :: path[m..][k] == path[m + k];
      && Chain(q, path[m..]) && number == Shl(z, SelectionBits(qs, q))
      && PathNumber(qs, root, path, top) == PathNumber(qs, q, path[m..], z)
  }

  lemma Assemble(qs: seq<SelQdisc>, root: Qdisc, path: seq<Elem>, top: nat, m: nat, q: Qdisc, z: nat, number: nat)
    returns (q': Qdisc, z': nat)
    requires AllOk(qs) && AllRegistered(qs, path) && m < |path| && Assembled(qs, root, path, top, m, q, z, number)
    ensures Registered(qs, path[m])
    ensures Assembled(qs, root, path, top, m + 1, q', z', Or(number, Shl(Number(qs, path[m]), MaxBits(qs, path[m].qdisc.classes))))
  {
    var p := path[m..];
    assert forall k | 0 <= k < |p| :: p[k] == path[m + k];
    assert p[0] == path[m];
    var w := FieldStep(qs, q, p, z);
    assert p[1..] == path[m + 1..];
    q', z' := q, w;
    if m + 1 < |path| {
      q' := path[m].cls.inner.qdisc;
      FieldsFit(qs, q', p[1..]);
      z' := FieldGap(qs, q, path[m].cls, w, Fields(qs, p[1..]));
    } else {
      assert p[1..] == [];
    }
  }

  // ----- GRED, which reads four bits on its own -----

  lemma {:induction false} FlatBits(qs: seq<SelQdisc>, cs: Classes)
    requires GredSmall(cs, true)
    ensures MaxBits(qs, cs) == 0
    decreases cs
  {
    if cs.More? { FlatBits(qs, cs.next); }
  }

  lemma {:induction false} ElemSmall(q: Qdisc, path: seq<Elem>, k: nat)
    requires Chain(q, path) && k < |path| && GredSmall(q.classes, q.gred)
    ensures GredSmall(path[k].qdisc.classes, path[k].qdisc.gred)
    decreases k
  {
    GredWithin(q.classes, q.gred, path[0].cls);
    if k > 0 { ElemSmall(path[0].cls.inner.qdisc, path[1..], k - 1); }
  }

  lemma GredRead(qs: seq<SelQdisc>, q: Qdisc, path: seq<Elem>, top: nat, k: nat)
    requires AllOk(qs) && Chain(q, path) && AllRegistered(qs, path) && GredSmall(q.classes, q.gred)
    requires k < |path| && path[k].qdisc.gred
    ensures Low(PathNumber(qs, q, path, top), 4) == path[k].cls.number
  {
    var e, n := path[k], PathNumber(qs, q, path, top);
    FieldsReadAll(qs, q, path, top, k);
    ElemSmall(q, path, k);
    FlatBits(qs, e.qdisc.classes);
    assert Registered(qs, e) && SelOk(qs[FindQdisc(qs, e.qdisc)]);
    assert Shr(n, 0) == n;
  }

  // ----- numbers that just count the paths -----

  /** The disciplines on a path are nested, so that none occurs twice. */
  lemma {:induction false} QdiscsShrink(q: Qdisc, path: seq<Elem>, k: nat)
    requires Chain(q, path)
    ensures k < |path| ==> Size(path[k].qdisc.classes) <= Size(q.classes) && (k > 0 ==> Size(path[k].qdisc.classes) < Size(q.classes))
    ensures path != [] && Beyond(q, path).Has? ==> Size(Beyond(q, path).qdisc.classes) < Size(q.classes)
    decreases |path|
  {
    if path != [] {
      WithinSmaller(q.classes, path[0].cls);
      if |path| > 1 { QdiscsShrink(path[0].cls.inner.qdisc, path[1..], if k > 0 then k - 1 else 0); }
    }
  }

  lemma {:induction false} WithinSmaller(cs: Classes, c: Class)
    requires Within(cs, c)
    ensures Size(Alone(c)) <= Size(cs)
    decreases cs
  {
    if cs.first != c {
      if Within(cs.first.child, c) { WithinSmaller(cs.first.child, c); } else { WithinSmaller(cs.next, c); }
    }
  }

  lemma {:induction false} QdiscOnce(q: Qdisc, path: seq<Elem>, i: nat, j: nat)
    requires Chain(q, path) && i < j <= |path|
    ensures j < |path| ==> path[i].qdisc != path[j].qdisc
    ensures j == |path| && Beyond(q, path).Has? ==> path[i].qdisc != Beyond(q, path).qdisc
    decreases |path|
  {
    if i == 0 { QdiscsShrink(q, path, j); }
    else { QdiscOnce(path[0].cls.inner.qdisc, path[1..], i - 1, j - 1); }
  }

  /** Path `i` enters class `c` of `q`; taken are the first `upto` paths, and of the
      one after these the first `m` classes. */
  ghost predicate Enters(paths: seq<seq<Elem>>, upto: nat, m: nat, i: nat, q: Qdisc, c: Class) {
    i < |paths| && exists k :: 0 <= k < |paths[i]| && paths[i][k] == Elem(q, c) && (i < upto || (i == upto && k < m))
  }

  ghost predicate SeqFilters(filters: Filters, qs: seq<SelQdisc>, paths: seq<seq<Elem>>, upto: nat, m: nat, bits: nat) {
    && (forall q {:trigger q in filters} | q in filters ::
          !q.gred && |filters[q]| == 1 && filters[q][0].shift == 0 && filters[q][0].mask == FieldMask(0, bits))
    && (forall i | 0 <= i < |qs| && !qs[i].qdisc.gred :: qs[i].qdisc in filters)
    && (forall q, n, c {:trigger (n, c) in filters[q][0].elements} | q in filters && |filters[q]| == 1 ::
          (n, c) in filters[q][0].elements <==> n > 0 && Enters(paths, upto, m, n - 1, q, c))
  }

  lemma SeqLookup(filters: Filters, qs: seq<SelQdisc>, paths: seq<seq<Elem>>, q: Qdisc, n: nat, bits: nat)
    requires SeqFilters(filters, qs, paths, |paths|, 0, bits) && n < Pow2(bits) && q in filters
    ensures |filters[q]| == 1 && Lookup(filters, q, n) == ElementFor(filters[q][0].elements, n)
  {
    var f := filters[q][0];
    MaskedField(n, 0, bits);
    LowSmall(n, bits);
    assert Shr(n, 0) == n && Shr(And(n, f.mask), f.shift) == n;
    assert filters[q][1..] == [];
    assert FilterPath(filters[q][1..], n) == None;
    assert FilterPath(filters[q], n) == ElementFor(f.elements, n);
  }

  lemma SeqOnPath(filters: Filters, qs: seq<SelQdisc>, q: Qdisc, paths: seq<seq<Elem>>, i: nat, k: nat, bits: nat)
    requires SeqFilters(filters, qs, paths, |paths|, 0, bits) && i < |paths| && k < |paths[i]| && i + 1 < Pow2(bits)
    requires Chain(q, paths[i]) && Registered(qs, paths[i][k]) && !paths[i][k].qdisc.gred
    ensures Lookup(filters, paths[i][k].qdisc, i + 1) == Some(paths[i][k].cls)
  {
    var path, n, e := paths[i], i + 1, paths[i][k];
    assert e.qdisc in filters by { assert qs[FindQdisc(qs, e.qdisc)].qdisc == e.qdisc; }
    SeqLookup(filters, qs, paths, e.qdisc, n, bits);
    var es := filters[e.qdisc][0].elements;
    assert (n, e.cls) in es by { assert Enters(paths, |paths|, 0, i, e.qdisc, e.cls); }
    forall x | x in es && x.0 == n ensures x.1 == e.cls {
      assert (n, x.1) in es;
      var m :| 0 <= m < |path| && path[m] == Elem(e.qdisc, x.1);
      if m < k { QdiscOnce(q, path, m, k); } else if k < m { QdiscOnce(q, path, k, m); }
    }
    OneElement(es, n, e.cls);
  }

  /** Counting numbers lead the same way, as long as they fit the index. */
  lemma SeqLeads(filters: Filters, qs: seq<SelQdisc>, q: Qdisc, paths: seq<seq<Elem>>, i: nat, bits: nat)
    requires SeqFilters(filters, qs, paths, |paths|, 0, bits) && i < |paths| && i + 1 < Pow2(bits)
    requires Chain(q, paths[i]) && AllRegistered(qs, paths[i])
    ensures Leads(filters, q, paths[i], i + 1)
  {
    var path, n := paths[i], i + 1;
    forall k | 0 <= k < |path| && !path[k].qdisc.gred ensures Lookup(filters, path[k].qdisc, n) == Some(path[k].cls) {
      SeqOnPath(filters, qs, q, paths, i, k, bits);
    }
    var b := Beyond(q, path);
    if b.Has? && b.qdisc in filters {
      SeqLookup(filters, qs, paths, b.qdisc, n, bits);
      var c := ElementFor(filters[b.qdisc][0].elements, n);
      if c.Some? {
        var m :| 0 <= m < |path| && path[m] == Elem(b.qdisc, c.value);
        QdiscOnce(q, path, m, |path|);
      }
    }
  }

  /** Adding the element for one more class of path `i`. */
  lemma SeqElement(filters: Filters, qs: seq<SelQdisc>, paths: seq<seq<Elem>>, i: nat, m: nat, filters': Filters, bits: nat)
    requires SeqFilters(filters, qs, paths, i, m, bits) && i < |paths| && m < |paths[i]|
    requires var e := paths[i][m];
      if e.qdisc.gred then filters' == filters
      else
        && e.qdisc in filters
        && filters' == filters[e.qdisc := [filters[e.qdisc][0].(elements := filters[e.qdisc][0].elements + [(i + 1, e.cls)])]]
    ensures SeqFilters(filters', qs, paths, i, m + 1, bits)
  {
    var e := paths[i][m];
    forall q, n, c | q in filters' && |filters'[q]| == 1
      ensures (n, c) in filters'[q][0].elements <==> n > 0 && Enters(paths, i, m + 1, n - 1, q, c)
    {
      assert (n, c) in filters[q][0].elements <==> n > 0 && Enters(paths, i, m, n - 1, q, c);
      if q == e.qdisc && n == i + 1 && c == e.cls { assert paths[i][m] == Elem(q, c); }
    }
  }

  lemma SeqNextPath(filters: Filters, qs: seq<SelQdisc>, paths: seq<seq<Elem>>, i: nat, bits: nat)
    requires i < |paths| && SeqFilters(filters, qs, paths, i, |paths[i]|, bits)
    ensures SeqFilters(filters, qs, paths, i + 1, 0, bits)
  {
    forall q, n, c | q in filters && |filters[q]| == 1
      ensures (n, c) in filters[q][0].elements <==> n > 0 && Enters(paths, i + 1, 0, n - 1, q, c)
    {
      assert (n, c) in filters[q][0].elements <==> n > 0 && Enters(paths, i, |paths[i]|, n - 1, q, c);
    }
  }
}
