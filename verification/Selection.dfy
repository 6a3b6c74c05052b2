/** Class selection paths: collecting them, and numbering them so that a number says
    which class to take in every discipline on its path. */
module Selection {
  import opened Semantics
  import opened Bits
  import opened Qdiscs
  import opened Indexing
  import opened Ways

  const INDEX_BITS: nat := 15

  /** A path with the number of paths equal to it and its place among these. */
  datatype SelPath = SelPath(path: seq<Elem>, equals: nat, index: nat)

  datatype Status = Fine | HasFilters | NotUnique | Unfinished | Unresolved | NoInner | TooManyPaths

  function Plain(paths: seq<SelPath>): seq<seq<Elem>> {
    seq(|paths|, i requires 0 <= i < |paths| => paths[i].path)
  }

  /** All that is selected on the paths. */
  ghost function UsedBy(paths: seq<seq<Elem>>): set<Elem> { set p, e | p in paths && e in p :: e }

  function Same(paths: seq<SelPath>, path: seq<Elem>): nat {
    if paths == [] then 0 else (if paths[0].path == path then 1 else 0) + Same(paths[1..], path)
  }

  ghost predicate Counted(paths: seq<SelPath>) {
    forall i | 0 <= i < |paths| ::
      paths[i].equals == Same(paths, paths[i].path) && paths[i].index == Same(paths[i + 1..], paths[i].path)
  }

  lemma {:induction false} SameShorter(paths: seq<SelPath>, path: seq<Elem>, i: nat, j: nat)
    requires i <= j <= |paths|
    ensures Same(paths[j..], path) <= Same(paths[i..], path)
    ensures i < j && paths[i].path == path ==> Same(paths[j..], path) < Same(paths[i..], path)
    decreases j - i
  {
    if i < j {
      assert paths[i..][1..] == paths[i + 1..];
      SameShorter(paths, path, i + 1, j);
    }
  }

  lemma PlaceDecreases(paths: seq<SelPath>, path: seq<Elem>, i: nat, j: nat)
    requires i < j < |paths| && paths[j].path == path
    ensures Same(paths[j + 1..], path) < Same(paths[i + 1..], path)
  {
    SameShorter(paths, path, i + 1, j);
    SameShorter(paths, path, j, j + 1);
  }

  /** Equal paths have different places, all below their number. */
  lemma PlacesDiffer(paths: seq<SelPath>, i: nat, j: nat)
    requires Counted(paths) && i < |paths| && j < |paths| && paths[i].path == paths[j].path && paths[i].index == paths[j].index
    ensures i == j
  {
    if i < j { PlaceDecreases(paths, paths[i].path, i, j); }
    if j < i { PlaceDecreases(paths, paths[i].path, j, i); }
  }

  lemma PlaceBelow(paths: seq<SelPath>, i: nat)
    requires Counted(paths) && i < |paths|
    ensures paths[i].index < paths[i].equals
  {
    SameShorter(paths, paths[i].path, 0, i);
    SameShorter(paths, paths[i].path, i, i + 1);
    assert paths[0..] == paths;
  }

  // ----- the registered disciplines may only grow -----

  ghost predicate Filled(qs: seq<SelQdisc>) { forall i | 0 <= i < |qs| :: qs[i].classes != [] }

  lemma AddedUsed(was: seq<SelPath>, paths: seq<SelPath>)
    requires |paths| == |was| + 1 && forall i | 0 <= i < |was| :: paths[i + 1].path == was[i].path
    ensures forall e :: e in UsedBy(Plain(paths)) <==> e in UsedBy(Plain(was)) || e in paths[0].path
  {
    assert Plain(paths) == [paths[0].path] + Plain(was);
  }

  ghost predicate Grown(qs: seq<SelQdisc>, qs': seq<SelQdisc>) {
    AllOk(qs') && forall e {:trigger Registered(qs', e)} :: Registered(qs, e) ==> Registered(qs', e)
  }

  lemma RegisteredIff(qs: seq<SelQdisc>, e: Elem)
    requires AllOk(qs)
    ensures Registered(qs, e) <==>
      exists i, j :: 0 <= i < |qs| && 0 <= j < |qs[i].classes| && qs[i].qdisc == e.qdisc && qs[i].classes[j].cls == e.cls
  {
    if i, j :| 0 <= i < |qs| && 0 <= j < |qs[i].classes| && qs[i].qdisc == e.qdisc && qs[i].classes[j].cls == e.cls {
      assert FindQdisc(qs, e.qdisc) == i;
      assert FindClass(qs[i].classes, e.cls) <= j;
    }
  }

  ghost predicate SamePaths(a: seq<SelPath>, b: seq<SelPath>) {
    |a| == |b| && forall i | 0 <= i < |a| :: a[i].path == b[i].path
  }

  /** One path was added. It continues `prev` through `left` classes of the list and
      ends at `end`, which is one of them. */
  ghost predicate NewPath(a: seq<SelPath>, b: seq<SelPath>, list: seq<Class>, prev: seq<Elem>, left: nat, end: Class) {
    && |b| == |a| + 1 && (forall i | 0 <= i < |a| :: b[i + 1].path == a[i].path)
    && |prev| < |b[0].path| && prev <= b[0].path
    && b[0].path[|b[0].path| - 1].cls == end && end in list
    && Named(list, b[0].path[|prev|..]) == left && Unfiltered(b[0].path)
  }

  lemma PathsStep(a: seq<SelPath>, b: seq<SelPath>, c: seq<SelPath>, list: seq<Class>, prev: seq<Elem>, left: nat,
                  last: Option<Class>, was: Option<Class>, now: Option<Class>)
    requires last.Some? ==> was == last
    requires was.Some? ==> now == was
    requires was == last ==> SamePaths(a, b)
    requires was != last ==> was.Some? && NewPath(a, b, list, prev, left, was.value)
    requires now == was ==> SamePaths(b, c)
    requires now != was ==> now.Some? && NewPath(b, c, list, prev, left, now.value)
    ensures now == last ==> SamePaths(a, c)
    ensures now != last ==> now.Some? && NewPath(a, c, list, prev, left, now.value)
  {}

  lemma NewPathInside(a: seq<SelPath>, b: seq<SelPath>, list: seq<Class>, prev: seq<Elem>, e: Elem, left: nat, end: Class)
    requires NewPath(a, b, list, prev + [e], left, end)
    ensures NewPath(a, b, list, prev, left + if e.cls in list then 1 else 0, end)
  {
    var path := b[0].path;
    assert path[|prev|] == (prev + [e])[|prev|] == e;
    assert path[|prev|..][1..] == path[|prev + [e]|..];
    assert prev <= prev + [e] <= path;
  }

  lemma {:induction false} InnerChains(root: Qdisc, prev: seq<Elem>, q: Qdisc, c: Class)
    requires c.inner.Has? && Chain(root, prev + [Elem(q, c)])
    ensures forall d :: Within(c.inner.qdisc.classes, d) ==> Chain(root, prev + [Elem(q, c)] + [Elem(c.inner.qdisc, d)])
  {
    forall d | Within(c.inner.qdisc.classes, d) ensures Chain(root, prev + [Elem(q, c)] + [Elem(c.inner.qdisc, d)]) {
      ChainLonger(root, prev + [Elem(q, c)], Elem(c.inner.qdisc, d));
    }
  }

  lemma {:induction false} ChainLonger(root: Qdisc, path: seq<Elem>, e: Elem)
    requires Chain(root, path) && path != []
    requires path[|path| - 1].cls.inner == Has(e.qdisc) && Within(e.qdisc.classes, e.cls)
    ensures Chain(root, path + [e])
    decreases |path|
  {
    assert (path + [e])[1..] == path[1..] + [e];
    if |path| > 1 { ChainLonger(path[0].cls.inner.qdisc, path[1..], e); }
  }

  lemma {:induction false} ChainSmall(q: Qdisc, path: seq<Elem>, k: nat)
    requires Chain(q, path) && k < |path| && GredSmall(q.classes, q.gred)
    ensures path[k].qdisc.gred ==> path[k].cls.number < 16
    decreases k
  {
    GredWithin(q.classes, q.gred, path[0].cls);
    if k > 0 { ChainSmall(path[0].cls.inner.qdisc, path[1..], k - 1); }
  }

  /** The class is registered now, and nothing else has changed. */
  ghost predicate Takes(a: seq<SelQdisc>, b: seq<SelQdisc>, e: Elem) {
    AllOk(b) && forall x {:trigger Registered(b, x)} :: Registered(b, x) <==> Registered(a, x) || x == e
  }

  lemma ShiftedRegistered(qs: seq<SelQdisc>, s: SelQdisc, e: Elem)
    requires AllOk(qs) && AllOk([s] + qs) && s.classes == []
    ensures Registered([s] + qs, e) <==> Registered(qs, e)
  {
    var all := [s] + qs;
    RegisteredIff(qs, e);
    RegisteredIff(all, e);
    if i, j :| 0 <= i < |qs| && 0 <= j < |qs[i].classes| && qs[i].qdisc == e.qdisc && qs[i].classes[j].cls == e.cls {
      assert all[i + 1].qdisc == e.qdisc && all[i + 1].classes[j].cls == e.cls;
    }
    if i, j :| 0 <= i < |all| && 0 <= j < |all[i].classes| && all[i].qdisc == e.qdisc && all[i].classes[j].cls == e.cls {
      assert qs[i - 1].qdisc == e.qdisc && qs[i - 1].classes[j].cls == e.cls;
    }
  }

  lemma AddedRegistered(qs: seq<SelQdisc>, i: nat, s: SelQdisc, e: Elem)
    requires AllOk(qs) && i < |qs| && qs[i].qdisc == s.qdisc == e.qdisc && SelOk(s)
    requires |s.classes| == |qs[i].classes| + 1 && s.classes[1..] == qs[i].classes && s.classes[0].cls == e.cls
    ensures Takes(qs, qs[i := s], e)
  {
    var all := qs[i := s];
    forall x ensures Registered(all, x) <==> Registered(qs, x) || x == e { AddedOther(qs, i, s, e, x); }
  }

  lemma AddedOther(qs: seq<SelQdisc>, i: nat, s: SelQdisc, e: Elem, x: Elem)
    requires AllOk(qs) && i < |qs| && qs[i].qdisc == s.qdisc == e.qdisc && SelOk(s)
    requires |s.classes| == |qs[i].classes| + 1 && s.classes[1..] == qs[i].classes && s.classes[0].cls == e.cls
    ensures Registered(qs[i := s], x) <==> Registered(qs, x) || x == e
  {
    var all := qs[i := s];
    RegisteredIff(qs, x);
    RegisteredIff(all, x);
    if x == e { assert all[i].qdisc == e.qdisc && all[i].classes[0].cls == e.cls; }
    if a, b :| 0 <= a < |qs| && 0 <= b < |qs[a].classes| && qs[a].qdisc == x.qdisc && qs[a].classes[b].cls == x.cls {
      if a == i { assert all[a].classes[b + 1] == qs[a].classes[b]; } else { assert all[a].classes[b].cls == x.cls; }
    }
    if a, b :| 0 <= a < |all| && 0 <= b < |all[a].classes| && all[a].qdisc == x.qdisc && all[a].classes[b].cls == x.cls {
      if a == i && b > 0 { assert qs[a].classes[b - 1] == s.classes[1..][b - 1] == all[a].classes[b]; }
      else if a != i { assert qs[a].classes[b].cls == x.cls; }
    }
  }

  lemma {:induction false} SameLast(paths: seq<SelPath>, path: seq<Elem>, i: nat)
    requires i < |paths|
    ensures Same(paths[..i + 1], path) == Same(paths[..i], path) + if paths[i].path == path then 1 else 0
    decreases i
  {
    if i > 0 {
      assert paths[..i + 1][1..] == paths[1..][..i] && paths[..i][1..] == paths[1..][..i - 1];
      SameLast(paths[1..], path, i - 1);
    } else {
      assert paths[..1][1..] == [];
    }
  }

  lemma {:induction false} SameOnPaths(a: seq<SelPath>, b: seq<SelPath>, path: seq<Elem>)
    requires SamePaths(a, b)
    ensures Same(a, path) == Same(b, path)
    decreases |a|
  {
    if a != [] { SameOnPaths(a[1..], b[1..], path); }
  }

  lemma NewCounted(was: seq<SelPath>, paths: seq<SelPath>, path: seq<Elem>)
    requires Counted(was) && |paths| == |was| + 1 && paths[0] == SelPath(path, Same(was, path) + 1, Same(was, path))
    requires forall i | 0 <= i < |was| ::
      paths[i + 1] == was[i].(equals := was[i].equals + if was[i].path == path then 1 else 0)
    ensures Counted(paths)
  {
    SameOnPaths(was, paths[1..], path);
    forall i | 0 <= i < |paths|
      ensures paths[i].equals == Same(paths, paths[i].path) && paths[i].index == Same(paths[i + 1..], paths[i].path)
    {
      SameOnPaths(was, paths[1..], paths[i].path);
      if i > 0 {
        assert was[i - 1].equals == Same(was, was[i - 1].path);
        SameOnPaths(was[i..], paths[i + 1..], paths[i].path);
        assert was[i - 1 + 1..] == was[i..];
      }
    }
  }

  /** The path whose classes were registered is in front now. */
  lemma AddedHolding(root: Qdisc, qs: seq<SelQdisc>, qs': seq<SelQdisc>, was: seq<SelPath>, paths: seq<SelPath>)
    requires AllOk(qs') && Filled(qs') && Holding(qs, UsedBy(Plain(was)))
    requires |paths| == |was| + 1 && forall i | 0 <= i < |was| :: paths[i + 1].path == was[i].path
    requires forall x :: Registered(qs', x) <==> Registered(qs, x) || x in paths[0].path
    requires Chain(root, paths[0].path) && forall p | p in was :: Chain(root, p.path) && AllRegistered(qs, p.path)
    ensures Holding(qs', UsedBy(Plain(paths)))
    ensures forall p | p in paths :: Chain(root, p.path) && AllRegistered(qs', p.path)
  {
    AddedUsed(was, paths);
    forall e ensures Registered(qs', e) <==> e in UsedBy(Plain(paths)) {
      assert Registered(qs, e) <==> e in UsedBy(Plain(was));
    }
    AddedPaths(root, qs, qs', was, paths);
  }

  lemma AddedPaths(root: Qdisc, qs: seq<SelQdisc>, qs': seq<SelQdisc>, was: seq<SelPath>, paths: seq<SelPath>)
    requires Grown(qs, qs') && |paths| == |was| + 1 && Chain(root, paths[0].path) && AllRegistered(qs', paths[0].path)
    requires forall p | p in was :: Chain(root, p.path) && AllRegistered(qs, p.path)
    requires forall i | 0 <= i < |was| :: paths[i + 1].path == was[i].path
    ensures forall p | p in paths :: Chain(root, p.path) && AllRegistered(qs', p.path)
  {
    forall p | p in paths ensures Chain(root, p.path) && AllRegistered(qs', p.path) {
      var i :| 0 <= i < |paths| && paths[i] == p;
      if i > 0 {
        assert was[i - 1] in was;
        forall j | 0 <= j < |p.path| ensures Registered(qs', p.path[j]) { assert Registered(qs, p.path[j]); }
      }
    }
  }

  /** Two paths from the same discipline are one if they go through the same classes. */
  method SamePath(ghost q: Qdisc, a: seq<Elem>, b: seq<Elem>) returns (same: bool)
    requires Chain(q, a) && Chain(q, b)
    ensures same <==> a == b
  {
    var i := 0;
    while i < |a| && i < |b| && a[i].cls == b[i].cls
      invariant 0 <= i <= |a| && i <= |b| && a[..i] == b[..i]
    {
      SameQdisc(q, a, b, i);
      i := i + 1;
    }
    same := i == |a| && i == |b|;
    if same { assert a == a[..i] && b == b[..i]; }
  }

  lemma {:induction false} SameQdisc(q: Qdisc, a: seq<Elem>, b: seq<Elem>, i: nat)
    requires Chain(q, a) && Chain(q, b) && i < |a| && i < |b| && a[..i] == b[..i]
    ensures a[i].qdisc == b[i].qdisc
    decreases i
  {
    if i > 0 {
      assert a[0] == a[..i][0] == b[..i][0] == b[0];
      assert a[1..][..i - 1] == a[..i][1..] && b[1..][..i - 1] == b[..i][1..];
      SameQdisc(a[0].cls.inner.qdisc, a[1..], b[1..], i - 1);
    }
  }

  function ClassSet(list: seq<Class>): set<Class> { set c | c in list }

  lemma DistinctSoFar(list: seq<Class>, walk: nat, scan: nat)
    requires scan <= walk < |list| && list[walk] !in list[..scan] && (scan == walk || list[scan] == list[walk])
    ensures |ClassSet(list[..walk + 1])| == |ClassSet(list[..walk])| + if scan == walk then 1 else 0
  {
    var a, b := ClassSet(list[..walk]), ClassSet(list[..walk + 1]);
    assert list[..walk + 1] == list[..walk] + [list[walk]];
    if scan == walk {
      assert list[walk] !in a && b == a + {list[walk]};
    } else {
      assert list[..walk][scan] == list[walk];
      assert b == a;
    }
  }

  method CountDistinct(list: seq<Class>) returns (classes: nat)
    ensures classes == |ClassSet(list)|
  {
    classes := 0;
    var walk := 0;
    while walk < |list|
      invariant 0 <= walk <= |list| && classes == |ClassSet(list[..walk])|
    {
      var scan := 0;
      while scan != walk && list[scan] != list[walk]
        invariant 0 <= scan <= walk && list[walk] !in list[..scan]
      {
        scan := scan + 1;
      }
      DistinctSoFar(list, walk, scan);
      if scan == walk { classes := classes + 1; }
      walk := walk + 1;
    }
    assert list[..walk] == list;
  }

  ghost function PathClasses(path: seq<Elem>): set<Class> {
    if path == [] then {} else {path[0].cls} + PathClasses(path[1..])
  }

  lemma {:induction false} InPathClasses(path: seq<Elem>, c: Class)
    ensures c in PathClasses(path) <==> exists k :: 0 <= k < |path| && path[k].cls == c
    decreases |path|
  {
    if path != [] {
      InPathClasses(path[1..], c);
      if c in PathClasses(path[1..]) {
        var k :| 0 <= k < |path[1..]| && path[1..][k].cls == c;
        assert path[k + 1].cls == c;
      }
      if k :| 0 < k < |path| && path[k].cls == c { assert path[1..][k - 1].cls == c; }
    }
  }

  lemma {:induction false} ClassesShrink(q: Qdisc, path: seq<Elem>, k: nat)
    requires Chain(q, path) && k < |path|
    ensures Size(Alone(path[k].cls)) <= Size(q.classes)
    decreases k
  {
    WithinSmaller(q.classes, path[0].cls);
    if k > 0 { ClassesShrink(path[0].cls.inner.qdisc, path[1..], k - 1); }
  }

  /** No class is on a path twice, so counting the named ones counts a set. */
  lemma {:induction false} NamedCounts(q: Qdisc, list: seq<Class>, path: seq<Elem>)
    requires Chain(q, path)
    ensures Named(list, path) == |PathClasses(path) * ClassSet(list)|
    decreases |path|
  {
    var l := ClassSet(list);
    if path != [] {
      var c, rest := path[0].cls, PathClasses(path[1..]);
      if |path| > 1 { NamedCounts(c.inner.qdisc, list, path[1..]); }
      forall k | 0 <= k < |path[1..]| ensures path[1..][k].cls != c { ClassesShrink(c.inner.qdisc, path[1..], k); }
      InPathClasses(path[1..], c);
      if c in l { assert ({c} + rest) * l == {c} + rest * l; } else { assert ({c} + rest) * l == rest * l; }
    }
  }

  lemma SubsetAll(a: set<Class>, b: set<Class>)
    requires a <= b && |a| == |b|
    ensures a == b
  {
    assert |b - a| == 0 by { assert b == a + (b - a); }
  }

  lemma NamesAll(q: Qdisc, list: seq<Class>, path: seq<Elem>)
    requires Chain(q, path) && list != [] && path != [] && path[|path| - 1].cls in list
    requires Named(list, path) == |ClassSet(list)|
    ensures Selects(list, path)
  {
    NamedCounts(q, list, path);
    SubsetAll(PathClasses(path) * ClassSet(list), ClassSet(list));
    forall c | c in list ensures exists k :: 0 <= k < |path| && path[k].cls == c {
      assert c in ClassSet(list);
      InPathClasses(path, c);
    }
  }

  // ----- whether the fields fit -----

  /** So many bits tell equal paths apart. */
  ghost predicate ToldApart(paths: seq<seq<Elem>>, top: nat) { forall p | p in paths :: multiset(paths)[p] <= Pow2(top) }

  /** The fields of all that is selected fit the index, with bits to tell equal paths apart. */
  ghost predicate FitIndex(root: Qdisc, paths: seq<seq<Elem>>) {
    exists top: nat :: ToldApart(paths, top) && top + NeededBits(UsedBy(paths), root) <= INDEX_BITS
  }

  lemma NothingFits(root: Qdisc)
    ensures FitIndex(root, Plain([]))
  {
    assert UsedBy(Plain([])) == {};
    assert ClassesOf({}, root) == {};
    assert ToldApart(Plain([]), 0) && 0 + NeededBits(UsedBy(Plain([])), root) <= INDEX_BITS;
  }

  lemma {:induction false} SameTimes(paths: seq<SelPath>, path: seq<Elem>)
    ensures Same(paths, path) == multiset(Plain(paths))[path]
    decreases |paths|
  {
    if paths != [] {
      SameTimes(paths[1..], path);
      assert Plain(paths) == [paths[0].path] + Plain(paths[1..]);
    } else {
      assert Plain(paths) == [];
    }
  }

  lemma FitsExactly(root: Qdisc, paths: seq<SelPath>, maxEquals: nat, topBits: nat)
    requires Counted(paths) && (forall k | 0 <= k < |paths| :: paths[k].equals <= maxEquals)
    requires exists k :: 0 <= k < |paths| && paths[k].equals == maxEquals
    requires maxEquals <= Pow2(topBits) && (topBits > 0 ==> Pow2(topBits - 1) < maxEquals)
    ensures FitIndex(root, Plain(paths)) <==> topBits + NeededBits(UsedBy(Plain(paths)), root) <= INDEX_BITS
  {
    var l := Plain(paths);
    EqualsTell(paths, maxEquals, topBits);
    if FitIndex(root, l) {
      var top: nat :| ToldApart(l, top) && top + NeededBits(UsedBy(l), root) <= INDEX_BITS;
      LeastTells(paths, maxEquals, topBits, top);
    }
  }

  lemma EqualsTell(paths: seq<SelPath>, maxEquals: nat, topBits: nat)
    requires Counted(paths) && (forall k | 0 <= k < |paths| :: paths[k].equals <= maxEquals) && maxEquals <= Pow2(topBits)
    ensures ToldApart(Plain(paths), topBits)
  {
    var l := Plain(paths);
    forall p | p in l ensures multiset(l)[p] <= Pow2(topBits) {
      var k :| 0 <= k < |l| && l[k] == p;
      SameTimes(paths, paths[k].path);
    }
  }

  lemma LeastTells(paths: seq<SelPath>, maxEquals: nat, topBits: nat, top: nat)
    requires Counted(paths) && exists k :: 0 <= k < |paths| && paths[k].equals == maxEquals
    requires (topBits > 0 ==> Pow2(topBits - 1) < maxEquals) && ToldApart(Plain(paths), top)
    ensures topBits <= top
  {
    var k :| 0 <= k < |paths| && paths[k].equals == maxEquals;
    SameTimes(paths, paths[k].path);
    ToldOne(paths, k, top);
    LeastBits(maxEquals, topBits, top);
  }

  lemma ToldOne(paths: seq<SelPath>, k: nat, top: nat)
    requires k < |paths| && ToldApart(Plain(paths), top)
    ensures multiset(Plain(paths))[paths[k].path] <= Pow2(top)
  {
    assert Plain(paths)[k] in Plain(paths);
  }

  lemma LeastBits(n: nat, bits: nat, top: nat)
    requires n <= Pow2(top) && (bits > 0 ==> Pow2(bits - 1) < n)
    ensures bits <= top
  {
    if top < bits { Pow2Mono(top, bits - 1); }
  }

  lemma SomeEquals(paths: seq<SelPath>, max: nat)
    requires Counted(paths) && paths != [] && (forall k | 0 <= k < |paths| :: paths[k].equals <= max)
    requires max == 0 || exists k :: 0 <= k < |paths| && paths[k].equals == max
    ensures exists k :: 0 <= k < |paths| && paths[k].equals == max
  {
    if max == 0 { PlaceBelow(paths, 0); }
  }

  lemma HoldingSame(a: seq<SelQdisc>, b: seq<SelQdisc>, used: set<Elem>)
    requires SameBase(a, b) && Holding(a, used)
    ensures Holding(b, used)
  {
    forall e ensures Registered(b, e) <==> e in used { SameBaseRegistered(a, b, e); }
  }

  // ----- the path of a list is found -----

  lemma WayNames(root: Qdisc, list: seq<Class>, path: seq<Elem>)
    requires Way(root, list, path) && list != []
    ensures Named(list, path) == |ClassSet(list)|
  {
    NamedCounts(root, list, path);
    forall c | c in ClassSet(list) ensures c in PathClasses(path) { InPathClasses(path, c); }
    assert PathClasses(path) * ClassSet(list) == ClassSet(list);
  }

  /** So many classes of the list are still to come. */
  ghost predicate ToCome(list: seq<Class>, prev: seq<Elem>, left: nat) { list != [] && Named(list, prev) + left == |ClassSet(list)| }

  lemma LeftOf(root: Qdisc, list: seq<Class>, goal: seq<Elem>, prev: seq<Elem>, left: nat)
    requires Way(root, list, goal) && prev <= goal && ToCome(list, prev, left)
    ensures Named(list, goal[|prev|..]) == left
  {
    WayNames(root, list, goal);
    assert goal == prev + goal[|prev|..];
    NamedAppend(list, prev, goal[|prev|..]);
  }

  lemma ComesNext(list: seq<Class>, prev: seq<Elem>, e: Elem)
    ensures Named(list, prev + [e]) == Named(list, prev) + if e.cls in list then 1 else 0
  {
    NamedAppend(list, prev, [e]);
    assert [e][1..] == [];
  }

  /** The path to be found goes on in this part, or nothing of the list is there. */
  ghost predicate Aimed(root: Qdisc, list: seq<Class>, goal: seq<Elem>, prev: seq<Elem>, classes: Classes, last: Option<Class>) {
    Way(root, list, goal) ==>
      || Clear(list, All(classes))
      || (Passing(goal, prev, classes) && last.None? && All(classes) <= All(goal[|prev|].qdisc.classes))
  }

  ghost predicate AimedHere(root: Qdisc, list: seq<Class>, goal: seq<Elem>, prev: seq<Elem>, c: Class, last: Option<Class>) {
    Way(root, list, goal) ==> Clear(list, Whole(c)) || (prev <= goal && |prev| < |goal| && goal[|prev|].cls == c && last.None?)
  }

  /** What it comes to if it is to be found here. */
  ghost predicate Found(goal: seq<Elem>, status: Status, last: Option<Class>) {
    if Unfiltered(goal) then status.Fine? && goal != [] && last == Some(goal[|goal| - 1].cls) else status.HasFilters?
  }

  /** Filters are complained of only on the path of the list. */
  ghost predicate Justified(root: Qdisc, list: seq<Class>, status: Status) {
    status.HasFilters? ==> exists path :: Way(root, list, path) && !Unfiltered(path)
  }

  lemma WalkAims(root: Qdisc, list: seq<Class>, goal: seq<Elem>, prev: seq<Elem>, walk: Classes, gred: bool)
    requires Distinct(root.classes) && list != [] && Way(root, list, goal) && Distinct(walk) && GredSmall(walk, gred)
    requires Passing(goal, prev, walk) && All(walk) <= All(goal[|prev|].qdisc.classes)
    ensures Passing(goal, prev, Alone(walk.first)) ==> Clear(list, All(walk.next))
    ensures !Passing(goal, prev, Alone(walk.first)) ==> Passing(goal, prev, walk.next) && Clear(list, All(Alone(walk.first)))
  {
    var g, k := goal[|prev|].cls, |prev|;
    FirstOf(walk, gred);
    if Within(Alone(walk.first), g) {
      WholeWithin(Alone(walk.first), g);
      ClearBeside(root, list, goal, k, All(walk.next));
    } else {
      WholeWithin(walk.next, g);
      ClearBeside(root, list, goal, k, All(Alone(walk.first)));
    }
  }

  lemma ClassAims(root: Qdisc, list: seq<Class>, goal: seq<Elem>, prev: seq<Elem>, c: Class, gred: bool)
    requires Distinct(root.classes) && list != [] && Way(root, list, goal) && Distinct(Alone(c)) && GredSmall(Alone(c), gred)
    requires Passing(goal, prev, Alone(c)) && All(Alone(c)) <= All(goal[|prev|].qdisc.classes)
    ensures goal[|prev|].cls == c ==> Clear(list, All(c.child))
    ensures goal[|prev|].cls != c ==> Passing(goal, prev, c.child) && Clear(list, Whole(c))
  {
    var g, k := goal[|prev|].cls, |prev|;
    PartsOf(c, gred);
    assert Whole(c) <= All(Alone(c)) && Whole(c) !! All(c.child);
    assert Within(Alone(c), g) == (c == g || Within(c.child, g) || Within(End, g));
    if g == c {
      ClearBeside(root, list, goal, k, All(c.child));
    } else {
      WholeWithin(c.child, g);
      ClearBeside(root, list, goal, k, Whole(c));
    }
  }

  lemma GoalAims(root: Qdisc, list: seq<Class>)
    requires Distinct(root.classes) && list != []
    ensures forall path :: Way(root, list, path) ==> WayOf(root, list) == path
    ensures Aimed(root, list, WayOf(root, list), [], root.classes, None)
    ensures Way(root, list, WayOf(root, list)) ==> !Clear(list, All(root.classes))
  {
    forall path | Way(root, list, path) ensures WayOf(root, list) == path { WayIs(root, list, path); }
    var goal := WayOf(root, list);
    if Way(root, list, goal) { ChainAll(root, goal, |goal| - 1); }
  }

  lemma NewWay(root: Qdisc, list: seq<Class>, p: SelPath)
    requires list != [] && Chain(root, p.path) && p.path != [] && p.path[|p.path| - 1].cls in list
    requires Named(list, p.path[0..]) == |ClassSet(list)|
    ensures Way(root, list, p.path)
  {
    assert p.path[0..] == p.path;
    NamesAll(root, list, p.path);
  }

  lemma FoundOrNot(root: Qdisc, list: seq<Class>, goal: seq<Elem>, status: Status, last: Option<Class>)
    requires forall path :: Way(root, list, path) ==> goal == path
    requires (Way(root, list, goal) ==> Found(goal, status, last)) && Justified(root, list, status)
    ensures status.HasFilters? <==> exists path :: Way(root, list, path) && !Unfiltered(path)
    ensures (exists path :: Way(root, list, path) && Unfiltered(path)) ==> status.Fine? && last.Some?
    ensures (exists path :: Way(root, list, path)) && status.Fine? ==> Unfiltered(goal)
  {}

  /** Where the path to be found goes through `c` it ends there if nothing else is to come,
      and goes on inside `c` otherwise. */
  lemma HereNext(root: Qdisc, list: seq<Class>, goal: seq<Elem>, prev: seq<Elem>, q: Qdisc, c: Class, left: nat)
    requires Distinct(root.classes) && Way(root, list, goal) && ToCome(list, prev, left) && left > 0
    requires Chain(root, prev + [Elem(q, c)]) && prev <= goal && |prev| < |goal| && goal[|prev|].cls == c
    ensures
      if c in list && left == 1 then goal == prev + [Elem(q, c)]
      else
        && c.inner.Has? && Passing(goal, prev + [Elem(q, c)], c.inner.qdisc.classes)
        && goal[|prev| + 1].qdisc == c.inner.qdisc && !Clear(list, All(c.inner.qdisc.classes))
  {
    var k, path := |prev|, prev + [Elem(q, c)];
    LeftOf(root, list, goal, prev, left);
    GoalElem(root, goal, prev, q, c);
    NamedNext(list, goal, k);
    if k + 1 < |goal| {
      NamedMore(list, goal, k + 1);
      GoesOn(root, list, goal, k);
      assert |path| == k + 1;
    } else {
      assert goal[k + 1..] == [];
    }
  }

  lemma GoesOn(root: Qdisc, list: seq<Class>, goal: seq<Elem>, k: nat)
    requires list != [] && Way(root, list, goal) && k + 1 < |goal|
    ensures goal[k].cls.inner.Has? && goal[k + 1].qdisc == goal[k].cls.inner.qdisc
    ensures Within(goal[k].cls.inner.qdisc.classes, goal[k + 1].cls) && !Clear(list, All(goal[k].cls.inner.qdisc.classes))
  {
    var end := goal[|goal| - 1].cls;
    ChainStep(root, goal, k);
    ChainStep(root, goal, k + 1);
    ChainAll(goal[k + 1].qdisc, goal[k + 1..], |goal| - k - 2);
    assert end in list && end in All(goal[k + 1].qdisc.classes);
  }

  /** A path with all classes of the list on it, the last of them at its end. */
  lemma EndsHere(root: Qdisc, list: seq<Class>, prev: seq<Elem>, e: Elem)
    requires Chain(root, prev + [e]) && ToCome(list, prev, 1) && e.cls in list
    ensures Way(root, list, prev + [e]) && (prev + [e])[|prev|..] == [e] && Named(list, [e]) == 1
  {
    ComesNext(list, prev, e);
    NamesAll(root, list, prev + [e]);
    assert [e][1..] == [];
  }

  /** The path to be found is the one that was followed so far. */
  lemma GoalElem(root: Qdisc, goal: seq<Elem>, prev: seq<Elem>, q: Qdisc, c: Class)
    requires Chain(root, goal) && Chain(root, prev + [Elem(q, c)]) && prev <= goal && |prev| < |goal| && goal[|prev|].cls == c
    ensures prev + [Elem(q, c)] <= goal
  {
    var path := prev + [Elem(q, c)];
    assert path[..|prev|] == prev == goal[..|prev|];
    SameQdisc(root, path, goal, |prev|);
  }

  class Context {
    const root: Qdisc
    var paths: seq<SelPath>
    var refs: seq<nat>
    var qdiscs: seq<SelQdisc>
    var filters: map<Qdisc, seq<Filter>>

    ghost predicate Valid()
      reads this
    {
      && AllOk(qdiscs) && Counted(paths) && Distinct(root.classes) && GredSmall(root.classes, root.gred)
      && Holding(qdiscs, UsedBy(Plain(paths)))
      && forall p | p in paths :: Chain(root, p.path) && AllRegistered(qdiscs, p.path)
    }

    constructor (root: Qdisc)
      requires Distinct(root.classes) && GredSmall(root.classes, root.gred)
      ensures Valid() && this.root == root && paths == [] && refs == [] && filters == map[]
    {
      this.root := root;
      paths, refs, qdiscs, filters := [], [], [], map[];
    }

    // ----- registration -----

    method RegisterClass(e: Elem)
      requires AllOk(qdiscs) && Filled(qdiscs) && (e.qdisc.gred ==> e.cls.number < 16)
      modifies `qdiscs
      ensures Takes(old(qdiscs), qdiscs, e) && Filled(qdiscs)
    {
      var i := 0;
      while i < |qdiscs| && qdiscs[i].qdisc != e.qdisc
        invariant 0 <= i <= |qdiscs| && qdiscs == old(qdiscs)
        invariant forall k | 0 <= k < i :: qdiscs[k].qdisc != e.qdisc
      {
        i := i + 1;
      }
      if i == |qdiscs| {
        qdiscs := [SelQdisc(e.qdisc, [], 0, 0, 0)] + qdiscs;
        i := 0;
        forall x ensures Registered(old(qdiscs), x) <==> Registered(qdiscs, x) { ShiftedRegistered(old(qdiscs), qdiscs[0], x); }
      }
      AddClass(e, i);
    }

    method AddClass(e: Elem, i: nat)
      requires AllOk(qdiscs) && (e.qdisc.gred ==> e.cls.number < 16) && i < |qdiscs| && qdiscs[i].qdisc == e.qdisc
      requires forall k | 0 <= k < |qdiscs| && k != i :: qdiscs[k].classes != []
      modifies `qdiscs
      ensures Takes(old(qdiscs), qdiscs, e) && Filled(qdiscs)
    {
      var q := qdiscs[i];
      var j := 0;
      while j < |q.classes|
        invariant 0 <= j <= |q.classes| && qdiscs == old(qdiscs)
        invariant forall k | 0 <= k < j :: q.classes[k].cls != e.cls
      {
        if q.classes[j].cls == e.cls {
          RegisteredIff(qdiscs, e);
          return;
        }
        j := j + 1;
      }
      var number;
      if e.qdisc.gred {
        number := e.cls.number;
      } else {
        q := q.(num := q.num + 1);
        number := q.num;
      }
      assert SelOk(qdiscs[i]);
      q := q.(classes := [SelClass(e.cls, number)] + q.classes);
      assert SelOk(q);
      qdiscs := qdiscs[i := q];
      AddedRegistered(old(qdiscs), i, q, e);
    }

    /** Adds a path, given outermost class first. The classes are registered from the
        innermost one on. It fails if and only if a discipline on the path has filters. */
    method RegisterPath(path: seq<Elem>) returns (status: Status)
      requires Valid() && Chain(root, path)
      modifies `qdiscs, `paths
      ensures status.Fine? || status.HasFilters?
      ensures status.HasFilters? <==> exists k :: 0 <= k < |path| && path[k].qdisc.filtered
      ensures status.Fine? ==> Valid() && |paths| == |old(paths)| + 1 && paths[0].path == path
      ensures status.Fine? ==> forall i | 0 <= i < |old(paths)| :: paths[i + 1].path == old(paths)[i].path
    {
      status := RegisterClasses(path);
      if !status.Fine? { return; }
      var n := CountEqual(path);
      paths := [SelPath(path, n + 1, n)] + paths;
      NewCounted(old(paths), paths, path);
      AddedHolding(root, old(qdiscs), qdiscs, old(paths), paths);
    }

    method RegisterClasses(path: seq<Elem>) returns (status: Status)
      requires AllOk(qdiscs) && Filled(qdiscs) && Chain(root, path) && GredSmall(root.classes, root.gred)
      modifies `qdiscs
      ensures status.Fine? || status.HasFilters?
      ensures status.HasFilters? <==> exists k :: 0 <= k < |path| && path[k].qdisc.filtered
      ensures status.Fine? ==> AllOk(qdiscs) && Filled(qdiscs)
      ensures status.Fine? ==> forall x :: Registered(qdiscs, x) <==> Registered(old(qdiscs), x) || x in path
    {
      var k := |path|;
      while k > 0
        invariant 0 <= k <= |path| && AllOk(qdiscs) && Filled(qdiscs)
        invariant forall x :: Registered(qdiscs, x) <==> Registered(old(qdiscs), x) || x in path[k..]
        invariant forall j | k <= j < |path| :: !path[j].qdisc.filtered
      {
        k := k - 1;
        if path[k].qdisc.filtered { return HasFilters; }
        ChainSmall(root, path, k);
        RegisterClass(path[k]);
        assert path[k..] == [path[k]] + path[k + 1..];
      }
      assert path[0..] == path;
      return Fine;
    }

    /** Counts the paths equal to this one, and lets them know there is one more. */
    method CountEqual(path: seq<Elem>) returns (n: nat)
      requires Chain(root, path) && forall p | p in paths :: Chain(root, p.path)
      modifies `paths
      ensures |paths| == |old(paths)| && n == Same(old(paths), path)
      ensures forall i | 0 <= i < |paths| ::
        paths[i] == old(paths)[i].(equals := old(paths)[i].equals + if old(paths)[i].path == path then 1 else 0)
    {
      n := 0;
      var i := 0;
      assert paths[..0] == [];
      while i < |paths|
        invariant 0 <= i <= |paths| == |old(paths)| && n == Same(old(paths)[..i], path)
        invariant forall k | 0 <= k < i ::
          paths[k] == old(paths)[k].(equals := old(paths)[k].equals + if old(paths)[k].path == path then 1 else 0)
        invariant forall k | i <= k < |paths| :: paths[k] == old(paths)[k]
      {
        var walk := paths[i];
        assert old(paths)[i] in old(paths);
        var same := SamePath(root, walk.path, path);
        SameLast(old(paths), path, i);
        if same {
          n := n + 1;
          paths := paths[i := walk.(equals := walk.equals + 1)];
        }
        i := i + 1;
      }
      assert old(paths)[..i] == old(paths);
    }

    /** Registers the path through all classes of `list` that ends at one of them.
        `left` says how many are still to come. If there is such a path, it is found. */
    method FindLastClass(list: seq<Class>, q: Qdisc, classes: Classes, last: Option<Class>, left: nat, prev: seq<Elem>,
                         ghost goal: seq<Elem>)
      returns (status: Status, last': Option<Class>)
      requires Valid() && Distinct(classes) && GredSmall(classes, q.gred) && left > 0 && ToCome(list, prev, left)
      requires forall c :: Within(classes, c) ==> Chain(root, prev + [Elem(q, c)])
      requires last.Some? ==> last.value !in All(classes)
      requires Aimed(root, list, goal, prev, classes, last)
      modifies `qdiscs, `paths
      ensures status.Fine? ==> Valid()
      ensures status.Fine? && last.Some? ==> last' == last
      ensures status.Fine? && last' == last ==> SamePaths(old(paths), paths)
      ensures status.Fine? && last' != last ==> last'.Some? && last'.value in All(classes) && NewPath(old(paths), paths, list, prev, left, last'.value)
      ensures Clear(list, All(classes)) ==> status.Fine? && last' == last
      ensures Way(root, list, goal) && !Clear(list, All(classes)) ==> Found(goal, status, last')
      ensures Justified(root, list, status)
      decreases Size(classes)
    {
      last' := last;
      var walk := classes;
      while walk.More?
        invariant Valid() && Distinct(walk) && GredSmall(walk, q.gred) && Size(walk) <= Size(classes)
        invariant forall c :: Within(walk, c) ==> Within(classes, c)
        invariant All(walk) <= All(classes)
        invariant last'.Some? ==> last'.value !in All(walk)
        invariant last.Some? ==> last' == last
        invariant last' == last ==> SamePaths(old(paths), paths)
        invariant last' != last ==> last'.Some? && last'.value in All(classes) && NewPath(old(paths), paths, list, prev, left, last'.value)
        invariant Aimed(root, list, goal, prev, walk, last') && (Clear(list, All(classes)) ==> last' == last)
        invariant Way(root, list, goal) && !Clear(list, All(classes)) && Clear(list, All(walk)) ==> Found(goal, Fine, last')
        decreases Size(walk)
      {
        var c := walk.first;
        FirstOf(walk, q.gred);
        if Way(root, list, goal) && !Clear(list, All(walk)) { WalkAims(root, list, goal, prev, walk, q.gred); }
        ghost var before, was := paths, last';
        status, last' := VisitClass(list, q, c, last', left, prev, goal);
        if !status.Fine? { return; }
        PathsStep(old(paths), before, paths, list, prev, left, last, was, last');
        walk := walk.next;
      }
      status := Fine;
    }

    /** One class: whatever is registered lies at it, inside it, or below it. */
    method VisitClass(list: seq<Class>, q: Qdisc, c: Class, last: Option<Class>, left: nat, prev: seq<Elem>, ghost goal: seq<Elem>)
      returns (status: Status, last': Option<Class>)
      requires Valid() && Distinct(Alone(c)) && GredSmall(Alone(c), q.gred) && left > 0 && ToCome(list, prev, left)
      requires forall d :: Within(Alone(c), d) ==> Chain(root, prev + [Elem(q, d)])
      requires last.Some? ==> last.value !in All(Alone(c))
      requires Aimed(root, list, goal, prev, Alone(c), last)
      modifies `qdiscs, `paths
      ensures status.Fine? ==> Valid()
      ensures status.Fine? && last.Some? ==> last' == last
      ensures status.Fine? && last' == last ==> SamePaths(old(paths), paths)
      ensures status.Fine? && last' != last ==>
        last'.Some? && last'.value in All(Alone(c)) && NewPath(old(paths), paths, list, prev, left, last'.value)
      ensures Clear(list, All(Alone(c))) ==> status.Fine? && last' == last
      ensures Way(root, list, goal) && !Clear(list, All(Alone(c))) ==> Found(goal, status, last')
      ensures Justified(root, list, status)
      decreases Size(Alone(c)), 2
    {
      PartsOf(c, q.gred);
      assert Within(Alone(c), c) && Whole(c) <= All(Alone(c));
      if Way(root, list, goal) && !Clear(list, All(Alone(c))) { ClassAims(root, list, goal, prev, c, q.gred); }
      var done;
      status, last', done := VisitHere(list, q, c, last, left, prev, goal);
      if !status.Fine? || done { return; }
      if c.child.More? {
        ghost var before, was := paths, last';
        status, last' := FindLastClass(list, q, c.child, last', left, prev, goal);
        if status.Fine? { PathsStep(old(paths), before, paths, list, prev, left, last, was, last'); }
      }
    }

    /** The class itself and what is inside it. `done` is set if the path ends here. */
    method VisitHere(list: seq<Class>, q: Qdisc, c: Class, last: Option<Class>, left: nat, prev: seq<Elem>, ghost goal: seq<Elem>)
      returns (status: Status, last': Option<Class>, done: bool)
      requires Valid() && Distinct(Alone(c)) && GredSmall(Alone(c), q.gred) && left > 0 && ToCome(list, prev, left)
      requires Chain(root, prev + [Elem(q, c)])
      requires last.Some? ==> last.value != c && last.value !in All(InnerClasses(c))
      requires AimedHere(root, list, goal, prev, c, last)
      modifies `qdiscs, `paths
      ensures status.Fine? ==> Valid()
      ensures status.Fine? && last.Some? ==> last' == last
      ensures status.Fine? && last' == last ==> SamePaths(old(paths), paths)
      ensures status.Fine? && last' != last ==>
        last'.Some? && last'.value in {c} + All(InnerClasses(c)) && NewPath(old(paths), paths, list, prev, left, last'.value)
      ensures Clear(list, Whole(c)) ==> status.Fine? && last' == last && !done
      ensures Way(root, list, goal) && !Clear(list, Whole(c)) ==> Found(goal, status, last')
      ensures Justified(root, list, status)
      decreases Size(Alone(c)), 1
    {
      last', done, status := last, false, Fine;
      ComesNext(list, prev, Elem(q, c));
      if Way(root, list, goal) && !Clear(list, Whole(c)) { HereNext(root, list, goal, prev, q, c, left); }
      if c !in list {
        if c.inner.Has? {
          status, last' := VisitInner(list, q, c, last, left, prev, goal);
        }
      } else {
        if left == 1 {
          if last.Some? && last.value != c { status := NotUnique; return; }
          last', done := Some(c), true;
          status := RegisterPath(prev + [Elem(q, c)]);
          EndsHere(root, list, prev, Elem(q, c));
          return;
        }
        if c.inner.NoQdisc? { status := Unfinished; return; }
        status, last' := VisitInner(list, q, c, last, left - 1, prev, goal);
      }
    }

    /** Goes on in the inner discipline of `c`, with `left` classes still to come there. */
    method VisitInner(list: seq<Class>, q: Qdisc, c: Class, last: Option<Class>, left: nat, prev: seq<Elem>, ghost goal: seq<Elem>)
      returns (status: Status, last': Option<Class>)
      requires Valid() && Distinct(Alone(c)) && GredSmall(Alone(c), q.gred) && left > 0 && ToCome(list, prev + [Elem(q, c)], left)
      requires c.inner.Has? && Chain(root, prev + [Elem(q, c)])
      requires last.Some? ==> last.value !in All(c.inner.qdisc.classes)
      requires Aimed(root, list, goal, prev + [Elem(q, c)], c.inner.qdisc.classes, last)
      modifies `qdiscs, `paths
      ensures status.Fine? ==> Valid()
      ensures status.Fine? && last.Some? ==> last' == last
      ensures status.Fine? && last' == last ==> SamePaths(old(paths), paths)
      ensures status.Fine? && last' != last ==> last'.Some? && last'.value in All(c.inner.qdisc.classes)
      ensures status.Fine? && last' != last ==>
        NewPath(old(paths), paths, list, prev, left + if c in list then 1 else 0, last'.value)
      ensures Clear(list, All(c.inner.qdisc.classes)) ==> status.Fine? && last' == last
      ensures Way(root, list, goal) && !Clear(list, All(c.inner.qdisc.classes)) ==> Found(goal, status, last')
      ensures Justified(root, list, status)
      decreases Size(Alone(c)), 0
    {
      PartsOf(c, q.gred);
      InnerChains(root, prev, q, c);
      status, last' := FindLastClass(list, c.inner.qdisc, c.inner.qdisc.classes, last, left, prev + [Elem(q, c)], goal);
      if status.Fine? && last' != last { NewPathInside(old(paths), paths, list, prev, Elem(q, c), left, last'.value); }
    }

    /** Registers the path a list of classes stands for, and keeps a place for its
        number. Without a list that is the empty path. */
    method RegisterSelectionPath(list: seq<Class>) returns (status: Status)
      requires Valid() && |refs| == |paths|
      modifies `qdiscs, `paths, `refs
      ensures status.Fine? ==> Valid() && |refs| == |paths| == |old(paths)| + 1
      ensures status.Fine? ==> forall i | 0 <= i < |old(paths)| :: paths[i + 1].path == old(paths)[i].path
      ensures status.Fine? ==> Way(root, list, paths[0].path)
      ensures status.Fine? <==> Selectable(root, list)
      ensures status.HasFilters? <==> exists path :: Way(root, list, path) && !Unfiltered(path)
    {
      var classes := CountDistinct(list);
      if list == [] {
        status := RegisterPath([]);
        assert Way(root, list, []) && Unfiltered([]);
      } else {
        status := RegisterNamed(list, classes);
      }
      if !status.Fine? { return; }
      refs := [0] + refs;
    }

    method RegisterNamed(list: seq<Class>, classes: nat) returns (status: Status)
      requires Valid() && list != [] && classes == |ClassSet(list)|
      modifies `qdiscs, `paths
      ensures status.Fine? ==> Valid() && |paths| == |old(paths)| + 1 && Selects(list, paths[0].path)
      ensures status.Fine? ==> forall i | 0 <= i < |old(paths)| :: paths[i + 1].path == old(paths)[i].path
      ensures status.Fine? <==> exists path :: Way(root, list, path) && Unfiltered(path)
      ensures status.HasFilters? <==> exists path :: Way(root, list, path) && !Unfiltered(path)
    {
      assert list[0] in ClassSet(list);
      var last;
      ghost var goal := WayOf(root, list);
      GoalAims(root, list);
      status, last := FindLastClass(list, root, root.classes, None, classes, [], goal);
      FoundOrNot(root, list, goal, status, last);
      if status.Fine? && last.None? { status := Unresolved; }
      if status.Fine? { NewWay(root, list, paths[0]); }
    }

    // ----- numbering -----

    /** Assigns the fields of `q` and of what is inside it. */
    method AssignBits(q: Qdisc) returns (bits: nat)
      requires AllOk(qdiscs)
      modifies `qdiscs
      ensures AllOk(qdiscs) && Later(old(qdiscs), qdiscs) && Placed(qdiscs, q) && bits == SelectionBits(qdiscs, q)
      decreases Size(q.classes) + 1
    {
      var i := FindQdisc(qdiscs, q);
      if i == |qdiscs| { return 0; }
      ghost var s0 := qdiscs;
      if q.gred {
        bits := 4;
      } else {
        bits := 0;
        while Pow2(bits) <= qdiscs[i].num
          invariant qdiscs == s0 && (bits > 0 ==> Pow2(bits - 1) <= qdiscs[i].num)
          decreases qdiscs[i].num - bits
        {
          Pow2Above(bits);
          bits := bits + 1;
        }
        WidthIs(qdiscs[i].num, bits);
      }
      PlaceBits(qdiscs, i, bits);
      qdiscs := qdiscs[i := qdiscs[i].(bits := bits)];
      ghost var s1 := qdiscs;
      SameBaseOk(s0, s1);
      var shift := AssignMaxBits(q.classes);
      ghost var s2 := qdiscs;
      LaterTrans(s0, s1, s2);
      assert s1[i].bits == OwnBits(s1[i]) == bits;
      PlaceShift(qdiscs, i, shift);
      qdiscs := qdiscs[i := qdiscs[i].(shift := shift)];
      SameBaseOk(s2, qdiscs);
      LaterTrans(s0, s2, qdiscs);
      PlacedAllLater(s2, qdiscs, q.classes);
      SameBaseFind(s0, qdiscs, q);
      SameBaseMax(s2, qdiscs, q.classes);
      bits := shift + bits;
    }

    method AssignMaxBits(classes: Classes) returns (max: nat)
      requires AllOk(qdiscs)
      modifies `qdiscs
      ensures AllOk(qdiscs) && Later(old(qdiscs), qdiscs) && PlacedAll(qdiscs, classes) && max == MaxBits(qdiscs, classes)
      decreases Size(classes)
    {
      max := 0;
      ghost var s0 := qdiscs;
      var walk := classes;
      while walk.More?
        invariant Size(walk) <= Size(classes) && AllOk(qdiscs) && Later(s0, qdiscs) && PlacedTo(qdiscs, classes, walk)
        invariant Max(max, MaxBits(s0, walk)) == MaxBits(s0, classes)
        decreases Size(walk)
      {
        var c := walk.first;
        var bits := 0;
        ghost var s1 := qdiscs;
        if c.inner.Has? {
          bits := AssignBits(c.inner.qdisc);
          LaterTrans(s0, s1, qdiscs);
          SameBaseBits(s0, qdiscs, c.inner.qdisc);
          if bits > max { max := bits; }
        }
        ghost var s2 := qdiscs;
        bits := AssignMaxBits(c.child);
        LaterTrans(s0, s2, qdiscs);
        LaterTrans(s1, s2, qdiscs);
        SameBaseMax(s0, qdiscs, c.child);
        if bits > max { max := bits; }
        if c.inner.Has? { PlacedLater(s2, qdiscs, c.inner.qdisc); }
        PlacedToNext(s1, qdiscs, classes, walk);
        walk := walk.next;
      }
      PlacedToEnd(qdiscs, classes);
      SameBaseMax(s0, qdiscs, classes);
    }

    /** Adds a filter to every discipline in use: GRED ones look at the index on
        their own. */
    method AddHierFilters()
      requires AllOk(qdiscs) && filters == map[]
      modifies `filters
      ensures HierFilters(qdiscs, filters)
    {
      var k := 0;
      while k < |qdiscs|
        invariant 0 <= k <= |qdiscs|
        invariant forall i | 0 <= i < k && !qdiscs[i].qdisc.gred ::
          qdiscs[i].qdisc in filters && filters[qdiscs[i].qdisc] == [HierFilter(qdiscs[i])]
        invariant forall q | q in filters :: exists i | 0 <= i < k :: qdiscs[i].qdisc == q
      {
        var q := qdiscs[k];
        if !q.qdisc.gred {
          var f := Filter(q.shift, FieldMask(q.shift, q.bits), []);
          for i := 0 to |q.classes|
            invariant f.shift == q.shift && f.mask == FieldMask(q.shift, q.bits) && |f.elements| == i
            invariant forall j | 0 <= j < i :: f.elements[j] == (q.classes[j].number, q.classes[j].cls)
          {
            f := f.(elements := f.elements + [(q.classes[i].number, q.classes[i].cls)]);
          }
          assert f == HierFilter(q);
          filters := filters[q.qdisc := [f]];
        }
        k := k + 1;
      }
    }

    /** Puts together the number of one path. */
    method ClassNumber(path: SelPath, topShift: nat) returns (number: nat)
      requires AllOk(qdiscs) && Placed(qdiscs, root) && Chain(root, path.path) && AllRegistered(qdiscs, path.path)
      requires topShift == SelectionBits(qdiscs, root)
      ensures number == PathNumber(qdiscs, root, path.path, path.index)
    {
      number := Shl(path.index, topShift);
      var m := 0;
      ghost var z, q := path.index, root;
      assert path.path[0..] == path.path;
      while m < |path.path|
        invariant 0 <= m <= |path.path| && Assembled(qdiscs, root, path.path, path.index, m, q, z, number)
      {
        var elem := path.path[m];
        q, z := Assemble(qdiscs, root, path.path, path.index, m, q, z, number);
        PlacedOnPath(qdiscs, root, path.path, m);
        var s := qdiscs[FindQdisc(qdiscs, elem.qdisc)];
        var cl := s.classes[FindClass(s.classes, elem.cls)];
        number := Or(number, Shl(cl.number, s.shift));
        m := m + 1;
      }
    }

    method SetClassNumbers(topShift: nat)
      requires Valid() && Placed(qdiscs, root) && topShift == SelectionBits(qdiscs, root) && |refs| == |paths|
      modifies `refs
      ensures |refs| == |paths|
      ensures forall i | 0 <= i < |paths| :: paths[i] in paths && refs[i] == PathNumber(qdiscs, root, paths[i].path, paths[i].index)
    {
      var k := 0;
      while k < |refs|
        invariant 0 <= k <= |refs| == |paths|
        invariant forall i | 0 <= i < k :: paths[i] in paths && refs[i] == PathNumber(qdiscs, root, paths[i].path, paths[i].index)
      {
        assert paths[k] in paths;
        var number := ClassNumber(paths[k], topShift);
        refs := refs[k := number];
        k := k + 1;
      }
    }

    /** Numbers the paths one by one. */
    method SetNumberRefs() returns (ok: bool)
      modifies `refs
      ensures |refs| == |old(refs)| && (forall i | 0 <= i < |refs| :: refs[i] == i + 1)
      ensures ok <==> |refs| < Pow2(INDEX_BITS)
    {
      var n := 0;
      while n < |refs|
        invariant 0 <= n <= |refs| == |old(refs)| && forall i | 0 <= i < n :: refs[i] == i + 1
      {
        refs := refs[n := n + 1];
        n := n + 1;
      }
      ok := n < Pow2(INDEX_BITS);
    }

    /** Gives every discipline in use a filter for the whole index, with an element
        for every path that goes through it. */
    method AddSeqFilters()
      requires Valid() && filters == map[]
      modifies `filters
      ensures SeqFilters(filters, qdiscs, Plain(paths), |paths|, 0, INDEX_BITS)
    {
      AddWholeFilters();
      var n := 0;
      while n < |paths|
        invariant 0 <= n <= |paths| && SeqFilters(filters, qdiscs, Plain(paths), n, 0, INDEX_BITS)
      {
        assert paths[n] in paths && Plain(paths)[n] == paths[n].path;
        var m := 0;
        while m < |paths[n].path|
          invariant 0 <= m <= |paths[n].path| && SeqFilters(filters, qdiscs, Plain(paths), n, m, INDEX_BITS)
        {
          AddSeqElement(n, m);
          m := m + 1;
        }
        SeqNextPath(filters, qdiscs, Plain(paths), n, INDEX_BITS);
        n := n + 1;
      }
    }

    method AddWholeFilters()
      requires filters == map[]
      modifies `filters
      ensures SeqFilters(filters, qdiscs, Plain(paths), 0, 0, INDEX_BITS)
    {
      var k := 0;
      while k < |qdiscs|
        invariant 0 <= k <= |qdiscs|
        invariant forall q {:trigger q in filters} | q in filters ::
          !q.gred && filters[q] == [Filter(0, FieldMask(0, INDEX_BITS), [])]
        invariant forall i | 0 <= i < k && !qdiscs[i].qdisc.gred :: qdiscs[i].qdisc in filters
      {
        if !qdiscs[k].qdisc.gred { filters := filters[qdiscs[k].qdisc := [Filter(0, FieldMask(0, INDEX_BITS), [])]]; }
        k := k + 1;
      }
    }

    method AddSeqElement(n: nat, m: nat)
      requires n < |paths| && m < |paths[n].path| && Registered(qdiscs, paths[n].path[m])
      requires SeqFilters(filters, qdiscs, Plain(paths), n, m, INDEX_BITS)
      modifies `filters
      ensures SeqFilters(filters, qdiscs, Plain(paths), n, m + 1, INDEX_BITS)
    {
      var e := paths[n].path[m];
      ghost var before := filters;
      if !e.qdisc.gred {
        assert qdiscs[FindQdisc(qdiscs, e.qdisc)].qdisc == e.qdisc;
        var f := filters[e.qdisc][0];
        filters := filters[e.qdisc := [f.(elements := f.elements + [(n + 1, e.cls)])]];
      }
      SeqElement(before, qdiscs, Plain(paths), n, m, filters, INDEX_BITS);
    }

    /** Numbers all paths. Every number leads through the filters along its path and
        no further; where GRED is not involved, or the numbers just count the paths,
        no two paths get the same one. They are made of fields if and only if these fit
        the index, with the bits to tell equal paths apart. */
    method EndSelectionPaths() returns (status: Status, hierarchical: bool)
      requires Valid() && |refs| == |paths| && filters == map[]
      modifies `refs, `qdiscs, `filters
      ensures |refs| == |paths| && (status.Fine? || status.TooManyPaths?)
      ensures hierarchical <==> FitIndex(root, Plain(paths))
      ensures status.TooManyPaths? <==> !hierarchical && |paths| >= Pow2(INDEX_BITS)
      ensures status.Fine? ==> forall i | 0 <= i < |paths| ::
        refs[i] < Pow2(INDEX_BITS) && Leads(filters, root, paths[i].path, refs[i])
      ensures status.Fine? && hierarchical ==> forall i, k | 0 <= i < |paths| && 0 <= k < |paths[i].path| && paths[i].path[k].qdisc.gred ::
        Low(refs[i], 4) == paths[i].path[k].cls.number
      ensures status.Fine? && (hierarchical ==> forall p | p in paths :: NoGred(p.path)) ==>
        forall i, j | 0 <= i < j < |paths| :: refs[i] != refs[j]
    {
      if paths == [] {
        NothingFits(root);
        return Fine, true;
      }
      var bits, topBits;
      ghost var maxEquals;
      bits, topBits, maxEquals := Measure();
      hierarchical := topBits + bits <= INDEX_BITS;
      status := Fine;
      if hierarchical {
        NumberFields(bits, maxEquals, topBits);
      } else {
        var ok := NumberInOrder();
        if !ok { status := TooManyPaths; }
      }
    }

    method Measure() returns (bits: nat, topBits: nat, ghost maxEquals: nat)
      requires Valid() && paths != []
      modifies `qdiscs
      ensures Valid() && Placed(qdiscs, root) && bits == SelectionBits(qdiscs, root)
      ensures maxEquals <= Pow2(topBits) && forall k | 0 <= k < |paths| :: paths[k].equals <= maxEquals
      ensures FitIndex(root, Plain(paths)) <==> topBits + bits <= INDEX_BITS
    {
      var max := MaxEquals(paths);
      topBits := BitsFor(max);
      SomeEquals(paths, max);
      FitsExactly(root, paths, max, topBits);
      bits := PlaceFields();
      maxEquals := max;
    }

    method PlaceFields() returns (bits: nat)
      requires Valid()
      modifies `qdiscs
      ensures Valid() && Placed(qdiscs, root) && bits == SelectionBits(qdiscs, root) == NeededBits(UsedBy(Plain(paths)), root)
    {
      ghost var before := qdiscs;
      bits := AssignBits(root);
      forall p | p in paths ensures Chain(root, p.path) && AllRegistered(qdiscs, p.path) { SameBaseAll(before, qdiscs, p.path); }
      HoldingSame(before, qdiscs, UsedBy(Plain(paths)));
      BitsNeeded(qdiscs, UsedBy(Plain(paths)), root);
    }

    method NumberFields(bits: nat, ghost maxEquals: nat, ghost topBits: nat)
      requires Valid() && |refs| == |paths| && filters == map[] && Placed(qdiscs, root) && bits == SelectionBits(qdiscs, root)
      requires topBits + bits <= INDEX_BITS && maxEquals <= Pow2(topBits)
      requires forall k | 0 <= k < |paths| :: paths[k].equals <= maxEquals
      modifies `refs, `filters
      ensures |refs| == |paths|
      ensures forall i | 0 <= i < |paths| :: refs[i] < Pow2(INDEX_BITS) && Leads(filters, root, paths[i].path, refs[i])
      ensures forall i, k | 0 <= i < |paths| && 0 <= k < |paths[i].path| && paths[i].path[k].qdisc.gred ::
        Low(refs[i], 4) == paths[i].path[k].cls.number
      ensures (forall p | p in paths :: NoGred(p.path)) ==> forall i, j | 0 <= i < j < |paths| :: refs[i] != refs[j]
    {
      AddHierFilters();
      SetClassNumbers(bits);
      AllHierLead(filters, qdiscs, root, paths, refs, maxEquals, topBits);
      if forall p | p in paths :: NoGred(p.path) { NumbersDiffer(); }
    }

    method NumberInOrder() returns (ok: bool)
      requires Valid() && |refs| == |paths| && filters == map[]
      modifies `refs, `filters
      ensures |refs| == |paths| && (ok <==> |paths| < Pow2(INDEX_BITS))
      ensures forall i | 0 <= i < |paths| :: refs[i] == i + 1
      ensures ok ==> forall i | 0 <= i < |paths| :: refs[i] < Pow2(INDEX_BITS) && Leads(filters, root, paths[i].path, refs[i])
    {
      ok := SetNumberRefs();
      if !ok { return; }
      AddSeqFilters();
      AllSeqLead(filters, qdiscs, root, paths, refs, INDEX_BITS);
    }

    lemma NumbersDiffer()
      requires Valid() && |refs| == |paths|
      requires forall i | 0 <= i < |paths| :: paths[i] in paths && refs[i] == PathNumber(qdiscs, root, paths[i].path, paths[i].index)
      requires forall p | p in paths :: NoGred(p.path)
      ensures forall i, j | 0 <= i < j < |paths| :: refs[i] != refs[j]
    {
      forall i, j | 0 <= i < j < |paths| && refs[i] == refs[j] ensures false {
        NumberInjective(qdiscs, root, paths[i].path, paths[i].index, paths[j].path, paths[j].index);
        PlacesDiffer(paths, i, j);
      }
    }
  }

  lemma AllHierLead(filters: Filters, qs: seq<SelQdisc>, root: Qdisc, paths: seq<SelPath>, refs: seq<nat>, maxEquals: nat, topBits: nat)
    requires Counted(paths) && AllOk(qs) && Placed(qs, root) && HierFilters(qs, filters) && GredSmall(root.classes, root.gred)
    requires forall p | p in paths :: Chain(root, p.path) && AllRegistered(qs, p.path) && p.equals <= maxEquals <= Pow2(topBits)
    requires topBits + SelectionBits(qs, root) <= INDEX_BITS && |refs| == |paths|
    requires forall i | 0 <= i < |paths| :: paths[i] in paths && refs[i] == PathNumber(qs, root, paths[i].path, paths[i].index)
    ensures forall i | 0 <= i < |paths| :: refs[i] < Pow2(INDEX_BITS) && Leads(filters, root, paths[i].path, refs[i])
    ensures forall i, k | 0 <= i < |paths| && 0 <= k < |paths[i].path| && paths[i].path[k].qdisc.gred ::
      Low(refs[i], 4) == paths[i].path[k].cls.number
  {
    forall i | 0 <= i < |paths| ensures refs[i] < Pow2(INDEX_BITS) && Leads(filters, root, paths[i].path, refs[i]) {
      PathLeads(qs, filters, root, paths[i].path, paths[i].index);
      NumberBound(paths, i, maxEquals, topBits, qs, root);
    }
    forall i, k | 0 <= i < |paths| && 0 <= k < |paths[i].path| && paths[i].path[k].qdisc.gred
      ensures Low(refs[i], 4) == paths[i].path[k].cls.number
    {
      GredRead(qs, root, paths[i].path, paths[i].index, k);
    }
  }

  lemma AllSeqLead(filters: Filters, qs: seq<SelQdisc>, root: Qdisc, paths: seq<SelPath>, refs: seq<nat>, bits: nat)
    requires SeqFilters(filters, qs, Plain(paths), |paths|, 0, bits) && |paths| == |refs| < Pow2(bits)
    requires forall p | p in paths :: Chain(root, p.path) && AllRegistered(qs, p.path)
    requires forall i | 0 <= i < |refs| :: refs[i] == i + 1
    ensures forall i | 0 <= i < |paths| :: refs[i] < Pow2(bits) && Leads(filters, root, paths[i].path, refs[i])
  {
    forall i | 0 <= i < |paths| ensures refs[i] < Pow2(bits) && Leads(filters, root, paths[i].path, refs[i]) {
      assert paths[i] in paths && Plain(paths)[i] == paths[i].path;
      SeqLeads(filters, qs, root, Plain(paths), i, bits);
    }
  }

  method MaxEquals(paths: seq<SelPath>) returns (max: nat)
    ensures forall k | 0 <= k < |paths| :: paths[k].equals <= max
    ensures max == 0 || exists k :: 0 <= k < |paths| && paths[k].equals == max
  {
    max := 0;
    for i := 0 to |paths|
      invariant forall k | 0 <= k < i :: paths[k].equals <= max
      invariant max == 0 || exists k :: 0 <= k < |paths| && paths[k].equals == max
    {
      if paths[i].equals > max { max := paths[i].equals; }
    }
  }

  method BitsFor(n: nat) returns (bits: nat)
    ensures n <= Pow2(bits) && (bits > 0 ==> Pow2(bits - 1) < n)
  {
    bits := 0;
    while Pow2(bits) < n
      invariant bits > 0 ==> Pow2(bits - 1) < n
      decreases n - bits
    {
      Pow2Above(bits);
      bits := bits + 1;
    }
  }

  lemma NumberBound(paths: seq<SelPath>, i: nat, maxEquals: nat, topBits: nat, qs: seq<SelQdisc>, root: Qdisc)
    requires Counted(paths) && i < |paths| && paths[i].equals <= maxEquals <= Pow2(topBits)
    requires AllOk(qs) && Chain(root, paths[i].path) && AllRegistered(qs, paths[i].path)
    requires topBits + SelectionBits(qs, root) <= INDEX_BITS
    ensures PathNumber(qs, root, paths[i].path, paths[i].index) < Pow2(INDEX_BITS)
  {
    PlaceBelow(paths, i);
    FieldsFit(qs, root, paths[i].path);
    JoinBound(paths[i].index, SelectionBits(qs, root), Fields(qs, paths[i].path), topBits);
    Pow2Mono(SelectionBits(qs, root) + topBits, INDEX_BITS);
  }
}
