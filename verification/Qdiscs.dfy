/** Trees of queuing disciplines, and what number a path through them gets. */
module Qdiscs {
  import opened Bits

  /** A queuing discipline has a list of classes. A class may have child classes in
      the same discipline, and an inner discipline of its own. */
  datatype Qdisc = Qdisc(id: nat, gred: bool, filtered: bool, classes: Classes)
  datatype Classes = End | More(first: Class, next: Classes)
  datatype Class = Class(id: nat, number: nat, child: Classes, inner: Inner)
  datatype Inner = NoQdisc | Has(qdisc: Qdisc)

  datatype Elem = Elem(qdisc: Qdisc, cls: Class)

  function Size(cs: Classes): nat {
    match cs
    case End => 0
    case More(c, next) =>
      1 + Size(c.child) + (match c.inner case NoQdisc => 0 case Has(q) => 1 + Size(q.classes)) + Size(next)
  }

  /** Is the class one of `cs`, or below one of them in the same discipline? */
  predicate Within(cs: Classes, c: Class) {
    cs.More? && (cs.first == c || Within(cs.first.child, c) || Within(cs.next, c))
  }

  /** A path leads from the discipline `q` through one class to its inner discipline
      and so on. */
  ghost predicate Chain(q: Qdisc, path: seq<Elem>)
    decreases |path|
  {
    path == [] ||
    (path[0].qdisc == q && Within(q.classes, path[0].cls)
     && (|path| > 1 ==> path[0].cls.inner.Has? && Chain(path[0].cls.inner.qdisc, path[1..])))
  }

  /** The discipline at the end of a path, where nothing is selected any more. */
  ghost function Beyond(q: Qdisc, path: seq<Elem>): Inner
    decreases |path|
  {
    if path == [] then Has(q)
    else if |path| == 1 then path[0].cls.inner
    else if path[0].cls.inner.Has? then Beyond(path[0].cls.inner.qdisc, path[1..])
    else NoQdisc
  }

  // ----- disciplines in use -----

  datatype SelClass = SelClass(cls: Class, number: nat)

  /** A discipline that paths go through, the classes they select in it, and the field
      of the index that says which. */
  datatype SelQdisc = SelQdisc(qdisc: Qdisc, classes: seq<SelClass>, num: nat, shift: nat, bits: nat)

  /** Classes are numbered from 1 in the order they come in, newest first. GRED
      classes keep their own numbers. */
  ghost predicate SelOk(s: SelQdisc) {
    && (forall i, j | 0 <= i < j < |s.classes| :: s.classes[i].cls != s.classes[j].cls)
    && (if s.qdisc.gred then forall i | 0 <= i < |s.classes| :: s.classes[i].number == s.classes[i].cls.number < 16
        else s.num == |s.classes| && forall i | 0 <= i < |s.classes| :: s.classes[i].number == s.num - i)
  }

  ghost predicate AllOk(qs: seq<SelQdisc>) {
    && (forall i, j | 0 <= i < j < |qs| :: qs[i].qdisc != qs[j].qdisc)
    && (forall i | 0 <= i < |qs| :: SelOk(qs[i]))
  }

  function FindQdisc(qs: seq<SelQdisc>, q: Qdisc): (i: nat)
    ensures i <= |qs| && (i < |qs| ==> qs[i].qdisc == q) && forall k | 0 <= k < i :: qs[k].qdisc != q
  {
    if qs == [] || qs[0].qdisc == q then 0 else 1 + FindQdisc(qs[1..], q)
  }

  function FindClass(cs: seq<SelClass>, c: Class): (i: nat)
    ensures i <= |cs| && (i < |cs| ==> cs[i].cls == c) && forall k | 0 <= k < i :: cs[k].cls != c
  {
    if cs == [] || cs[0].cls == c then 0 else 1 + FindClass(cs[1..], c)
  }

  ghost predicate Registered(qs: seq<SelQdisc>, e: Elem) {
    var i := FindQdisc(qs, e.qdisc);
    i < |qs| && FindClass(qs[i].classes, e.cls) < |qs[i].classes|
  }

  ghost predicate AllRegistered(qs: seq<SelQdisc>, path: seq<Elem>) {
    forall k | 0 <= k < |path| :: Registered(qs, path[k])
  }

  ghost function Number(qs: seq<SelQdisc>, e: Elem): nat
    requires Registered(qs, e)
  {
    var s := qs[FindQdisc(qs, e.qdisc)];
    s.classes[FindClass(s.classes, e.cls)].number
  }

  // ----- bit assignment -----

  /** The least number of bits that can tell `n + 1` values apart. */
  function Width(n: nat): (b: nat)
    ensures n < Pow2(b) && (b > 0 ==> Pow2(b - 1) <= n)
  {
    if n == 0 then 0 else 1 + Width(n / 2)
  }

  function OwnBits(s: SelQdisc): nat { if s.qdisc.gred then 4 else Width(s.num) }

  function Max(a: nat, b: nat): nat { if a < b then b else a }

  /** The bits needed from discipline `q` inwards. */
  function SelectionBits(qs: seq<SelQdisc>, q: Qdisc): nat
    decreases q, 1
  {
    var i := FindQdisc(qs, q);
    if i == |qs| then 0 else MaxBits(qs, q.classes) + OwnBits(qs[i])
  }

  function MaxBits(qs: seq<SelQdisc>, cs: Classes): nat
    decreases cs, 0
  {
    match cs
    case End => 0
    case More(c, next) =>
      Max(Max(match c.inner case NoQdisc => 0 case Has(q) => SelectionBits(qs, q), MaxBits(qs, c.child)), MaxBits(qs, next))
  }

  // ----- what a set of selections needs -----

  /** The classes selected in a discipline. */
  function ClassesOf(used: set<Elem>, q: Qdisc): set<Class> { set e | e in used && e.qdisc == q :: e.cls }

  /** GRED needs its four bits; other disciplines a number for every class selected there,
      and one for none. Disciplines inside one another come on top. */
  function NeededBits(used: set<Elem>, q: Qdisc): nat
    decreases q, 1
  {
    var n := |ClassesOf(used, q)|;
    if n == 0 then 0 else NeededMax(used, q.classes) + if q.gred then 4 else Width(n)
  }

  function NeededMax(used: set<Elem>, cs: Classes): nat
    decreases cs, 0
  {
    match cs
    case End => 0
    case More(c, next) =>
      Max(Max(match c.inner case NoQdisc => 0 case Has(q) => NeededBits(used, q), NeededMax(used, c.child)), NeededMax(used, next))
  }

  /** Exactly these selections are registered, and no discipline without any. */
  ghost predicate Holding(qs: seq<SelQdisc>, used: set<Elem>) {
    (forall e {:trigger Registered(qs, e)} :: Registered(qs, e) <==> e in used) && forall i | 0 <= i < |qs| :: qs[i].classes != []
  }

  lemma {:induction false} FoundClass(cs: seq<SelClass>, c: Class)
    ensures FindClass(cs, c) < |cs| <==> exists k :: 0 <= k < |cs| && cs[k].cls == c
    decreases |cs|
  {
    if cs != [] && cs[0].cls != c {
      FoundClass(cs[1..], c);
      if FindClass(cs, c) < |cs| { assert cs[FindClass(cs, c)].cls == c; }
      if k :| 0 <= k < |cs| && cs[k].cls == c { assert cs[1..][k - 1].cls == c; }
    }
  }

  function ClassesIn(cs: seq<SelClass>): set<Class> { set k | 0 <= k < |cs| :: cs[k].cls }

  lemma {:induction false} CountClasses(cs: seq<SelClass>)
    requires forall i, j | 0 <= i < j < |cs| :: cs[i].cls != cs[j].cls
    ensures |ClassesIn(cs)| == |cs|
    decreases |cs|
  {
    if cs != [] {
      var k := |cs| - 1;
      CountClasses(cs[..k]);
      assert ClassesIn(cs) == ClassesIn(cs[..k]) + {cs[k].cls};
    }
  }

  lemma OwnClasses(qs: seq<SelQdisc>, used: set<Elem>, q: Qdisc)
    requires AllOk(qs) && Holding(qs, used)
    ensures
      var i := FindQdisc(qs, q);
      if i == |qs| then ClassesOf(used, q) == {} else ClassesOf(used, q) == ClassesIn(qs[i].classes)
  {
    var i := FindQdisc(qs, q);
    forall c ensures c in ClassesOf(used, q) <==> i < |qs| && c in ClassesIn(qs[i].classes) {
      var e := Elem(q, c);
      assert Registered(qs, e) <==> e in used;
      if i < |qs| { FoundClass(qs[i].classes, c); }
    }
  }

  /** The bits of the registered disciplines are those needed. */
  lemma {:induction false} BitsNeeded(qs: seq<SelQdisc>, used: set<Elem>, q: Qdisc)
    requires AllOk(qs) && Holding(qs, used)
    ensures SelectionBits(qs, q) == NeededBits(used, q)
    decreases q, 1
  {
    var i := FindQdisc(qs, q);
    OwnClasses(qs, used, q);
    MaxNeeded(qs, used, q.classes);
    if i < |qs| {
      assert SelOk(qs[i]);
      CountClasses(qs[i].classes);
    }
  }

  lemma {:induction false} MaxNeeded(qs: seq<SelQdisc>, used: set<Elem>, cs: Classes)
    requires AllOk(qs) && Holding(qs, used)
    ensures MaxBits(qs, cs) == NeededMax(used, cs)
    decreases cs, 0
  {
    if cs.More? {
      if cs.first.inner.Has? { BitsNeeded(qs, used, cs.first.inner.qdisc); }
      MaxNeeded(qs, used, cs.first.child);
      MaxNeeded(qs, used, cs.next);
    }
  }

  lemma {:induction false} InnerFits(qs: seq<SelQdisc>, cs: Classes, c: Class)
    requires Within(cs, c) && c.inner.Has?
    ensures SelectionBits(qs, c.inner.qdisc) <= MaxBits(qs, cs)
    decreases cs
  {
    if cs.first != c {
      if Within(cs.first.child, c) { InnerFits(qs, cs.first.child, c); } else { InnerFits(qs, cs.next, c); }
    }
  }

  /** The fields of a path, outermost highest. */
  ghost function Fields(qs: seq<SelQdisc>, path: seq<Elem>): nat
    requires AllRegistered(qs, path)
    decreases |path|
  {
    if path == [] then 0
    else Join(Number(qs, path[0]), MaxBits(qs, path[0].qdisc.classes), Fields(qs, path[1..]))
  }

  lemma NumberFits(qs: seq<SelQdisc>, e: Elem)
    requires AllOk(qs) && Registered(qs, e)
    ensures Number(qs, e) < Pow2(OwnBits(qs[FindQdisc(qs, e.qdisc)]))
    ensures !e.qdisc.gred ==> Number(qs, e) > 0
  {
    var i := FindQdisc(qs, e.qdisc);
    var s := qs[i];
    assert SelOk(s);
    assert Pow2(4) == 16;
  }

  /** The fields of a path stay within the bits of the discipline it starts from. */
  lemma {:induction false} FieldsFit(qs: seq<SelQdisc>, q: Qdisc, path: seq<Elem>)
    requires AllOk(qs) && Chain(q, path) && AllRegistered(qs, path)
    ensures Fields(qs, path) < Pow2(SelectionBits(qs, q))
    decreases |path|
  {
    if path != [] {
      var e := path[0];
      var s, b, n := MaxBits(qs, q.classes), OwnBits(qs[FindQdisc(qs, q)]), Number(qs, e);
      assert Registered(qs, e);
      NumberFits(qs, e);
      RestFits(qs, q, path);
      JoinBound(n, s, Fields(qs, path[1..]), b);
    }
  }

  lemma {:induction false} RestFits(qs: seq<SelQdisc>, q: Qdisc, path: seq<Elem>)
    requires AllOk(qs) && Chain(q, path) && AllRegistered(qs, path) && path != []
    ensures AllRegistered(qs, path[1..]) && Fields(qs, path[1..]) < Pow2(MaxBits(qs, q.classes))
    decreases |path|, 0
  {
    if |path| > 1 {
      var inner := path[0].cls.inner.qdisc;
      FieldsFit(qs, inner, path[1..]);
      InnerFits(qs, q.classes, path[0].cls);
      Pow2Mono(SelectionBits(qs, inner), MaxBits(qs, q.classes));
    }
  }

  // ----- reading a number back -----

  /** The value of the field of discipline `q` in `x`. */
  ghost function FieldOf(qs: seq<SelQdisc>, q: Qdisc, x: nat): nat {
    var i := FindQdisc(qs, q);
    if i == |qs| then 0 else Low(Shr(x, MaxBits(qs, q.classes)), OwnBits(qs[i]))
  }

  /** The index of a path is `top` above its fields. Every discipline on the path
      finds the number of its class in its field, and the one past the end finds 0. */
  lemma {:induction false} FieldsRead(qs: seq<SelQdisc>, q: Qdisc, path: seq<Elem>, top: nat)
    requires AllOk(qs) && Chain(q, path) && AllRegistered(qs, path)
    ensures path != [] ==> FieldOf(qs, q, Join(top, SelectionBits(qs, q), Fields(qs, path))) == Number(qs, path[0])
    ensures path == [] ==> FieldOf(qs, q, Join(top, SelectionBits(qs, q), Fields(qs, path))) == 0
  {
    var x, i := Fields(qs, path), FindQdisc(qs, q);
    if i < |qs| {
      FieldBelow(top, x, SelectionBits(qs, q), MaxBits(qs, q.classes), OwnBits(qs[i]));
    }
    if path == [] {
      if i < |qs| { ZeroField(MaxBits(qs, q.classes), OwnBits(qs[i])); }
    } else {
      assert Registered(qs, path[0]);
      RestFits(qs, q, path);
      NumberFits(qs, path[0]);
      JoinParts(Number(qs, path[0]), MaxBits(qs, q.classes), Fields(qs, path[1..]));
      LowSmall(Number(qs, path[0]), OwnBits(qs[i]));
    }
  }

  /** What is below the field of `q` is the index of the rest of the path. */
  lemma FieldsRest(qs: seq<SelQdisc>, q: Qdisc, path: seq<Elem>, top: nat) returns (top': nat)
    requires AllOk(qs) && Chain(q, path) && AllRegistered(qs, path) && path != [] && path[0].cls.inner.Has?
    ensures AllRegistered(qs, path[1..])
    ensures Join(top, SelectionBits(qs, q), Fields(qs, path))
      == Join(top', SelectionBits(qs, path[0].cls.inner.qdisc), Fields(qs, path[1..]))
  {
    RestFits(qs, q, path);
    var inner, rest := path[0].cls.inner.qdisc, Fields(qs, path[1..]);
    var k, s, n := SelectionBits(qs, inner), MaxBits(qs, q.classes), Number(qs, path[0]);
    InnerFits(qs, q.classes, path[0].cls);
    assert Registered(qs, path[0]);
    var b := OwnBits(qs[FindQdisc(qs, q)]);
    JoinJoin(top, b, n, s, rest);
    var z := Join(top, b, n);
    top' := Join(z, s - k, 0);
    if |path| > 1 { FieldsFit(qs, inner, path[1..]); }
    JoinZero(k, rest);
    JoinJoin(z, s - k, 0, k, rest);
  }

  /** GRED disciplines are flat, and their classes have numbers of four bits. */
  predicate GredSmall(cs: Classes, gred: bool) {
    match cs
    case End => true
    case More(c, next) =>
      && (gred ==> c.number < 16 && c.child.End? && c.inner.NoQdisc?)
      && GredSmall(c.child, gred) && (c.inner.Has? ==> GredSmall(c.inner.qdisc.classes, c.inner.qdisc.gred))
      && GredSmall(next, gred)
  }

  lemma {:induction false} GredWithin(cs: Classes, gred: bool, c: Class)
    requires GredSmall(cs, gred) && Within(cs, c)
    ensures gred ==> c.number < 16 && c.inner.NoQdisc?
    ensures c.inner.Has? ==> GredSmall(c.inner.qdisc.classes, c.inner.qdisc.gred)
    decreases cs
  {
    if cs.first != c {
      if Within(cs.first.child, c) { GredWithin(cs.first.child, gred, c); } else { GredWithin(cs.next, gred, c); }
    }
  }

  // ----- the classes of a tree -----

  function All(cs: Classes): set<Class> {
    match cs
    case End => {}
    case More(c, next) =>
      {c} + All(c.child) + (if c.inner.Has? then All(c.inner.qdisc.classes) else {}) + All(next)
  }

  function InnerClasses(c: Class): Classes {
    if c.inner.Has? then c.inner.qdisc.classes else End
  }

  /** No class is in the tree twice. */
  predicate Distinct(cs: Classes) {
    match cs
    case End => true
    case More(c, next) =>
      var inner := InnerClasses(c);
      && c !in All(c.child) + All(inner) + All(next)
      && All(c.child) !! All(inner) && All(c.child) !! All(next) && All(inner) !! All(next)
      && Distinct(c.child) && (c.inner.Has? ==> Distinct(c.inner.qdisc.classes)) && Distinct(next)
  }

  function Alone(c: Class): Classes { More(c, End) }

  /** A list of classes splits into its first one, with all that belongs to it, and
      the rest. */
  lemma FirstOf(cs: Classes, gred: bool)
    requires cs.More? && Distinct(cs) && GredSmall(cs, gred)
    ensures Distinct(Alone(cs.first)) && GredSmall(Alone(cs.first), gred) && Distinct(cs.next) && GredSmall(cs.next, gred)
    ensures All(cs) == All(Alone(cs.first)) + All(cs.next) && All(Alone(cs.first)) !! All(cs.next)
    ensures Size(Alone(cs.first)) <= Size(cs) && Size(cs.next) < Size(cs)
    ensures forall d :: Within(Alone(cs.first), d) || Within(cs.next, d) ==> Within(cs, d)
  {
    assert All(End) == {};
  }

  lemma PartsOf(c: Class, gred: bool)
    requires Distinct(Alone(c)) && GredSmall(Alone(c), gred)
    ensures Distinct(c.child) && GredSmall(c.child, gred) && Size(c.child) < Size(Alone(c))
    ensures c !in All(c.child) && forall d :: Within(c.child, d) ==> Within(Alone(c), d)
    ensures c in All(Alone(c)) && All(c.child) <= All(Alone(c))
    ensures c.inner.Has? ==>
      var i := c.inner.qdisc;
      && Distinct(i.classes) && GredSmall(i.classes, i.gred) && Size(i.classes) < Size(Alone(c))
      && c !in All(i.classes) && All(i.classes) <= All(Alone(c)) && All(i.classes) !! All(c.child)
  {}
}
