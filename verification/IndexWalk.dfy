/** Following an index through the tree: which classes it selects, from the outermost
    discipline on. */
module IndexWalk {
  import opened Semantics
  import opened Bits
  import opened Qdiscs
  import opened Indexing
  import opened Selection
  import opened Ways

  function FindByNumber(cs: Classes, number: nat): (c: Option<Class>)
    ensures c.Some? ==> Within(cs, c.value) && c.value.number == number
    ensures c.None? ==> forall d :: Within(cs, d) ==> d.number != number
  {
    match cs
    case End => None
    case More(c, next) =>
      if c.number == number then Some(c)
      else
        var found := FindByNumber(c.child, number);
        if found.Some? then found else FindByNumber(next, number)
  }

  /** GRED looks through its own classes with four bits of the index. */
  function GredPath(cs: Classes, number: nat): Option<Class> {
    match cs
    case End => None
    case More(c, next) => if c.number == number then Some(c) else GredPath(next, number)
  }

  /** The classes selected by `index` from `q` on, for as long as there is a choice. */
  function FindPath(filters: Filters, q: Qdisc, index: nat): seq<Elem>
    decreases Size(q.classes)
  {
    if q.gred then
      var c := GredPath(q.classes, Low(index, 4));
      if c.Some? then [Elem(q, c.value)] else []
    else
      var e := Lookup(filters, q, index);
      if e.None? then []
      else
        var c := FindByNumber(q.classes, e.value.number);
        if c.None? then []
        else if c.value.inner.NoQdisc? then [Elem(q, c.value)]
        else
          WithinSmaller(q.classes, c.value);
          [Elem(q, c.value)] + FindPath(filters, c.value.inner.qdisc, index)
  }

  /** Numbers identify the classes of a discipline, here and further in. */
  ghost predicate Numbered(cs: Classes)
    decreases Size(cs)
  {
    && (forall c, d :: Within(cs, c) && Within(cs, d) && c.number == d.number ==> c == d)
    && (forall c :: Within(cs, c) && c.inner.Has? ==> (WithinSmaller(cs, c); Numbered(c.inner.qdisc.classes)))
  }

  lemma {:induction false} GredFinds(cs: Classes, c: Class)
    requires GredSmall(cs, true) && Within(cs, c) && forall d :: Within(cs, d) && d.number == c.number ==> d == c
    ensures GredPath(cs, c.number) == Some(c)
    decreases cs
  {
    assert Within(cs, cs.first);
    if cs.first != c { GredFinds(cs.next, c); }
  }

  lemma {:induction false} GredNumber(cs: Classes, number: nat)
    ensures GredPath(cs, number).Some? ==> GredPath(cs, number).value.number == number
    decreases cs
  {
    if cs.More? { GredNumber(cs.next, number); }
  }

  /** At GRED disciplines the index has the number of the class in its lowest bits. */
  ghost predicate GredFits(path: seq<Elem>, n: nat) {
    forall k | 0 <= k < |path| && path[k].qdisc.gred :: Low(n, 4) == path[k].cls.number
  }

  /** An index that leads along the path it was made for finds its way if and only if it
      fits the GRED disciplines there. It stops where the path does, unless a GRED
      discipline follows. */
  lemma {:induction false} NumberFindsPath(filters: Filters, q: Qdisc, path: seq<Elem>, n: nat)
    requires Chain(q, path) && Leads(filters, q, path, n) && Numbered(q.classes) && GredSmall(q.classes, q.gred)
    ensures path <= FindPath(filters, q, n) <==> GredFits(path, n)
    ensures GredFits(path, n) && !(Beyond(q, path).Has? && Beyond(q, path).qdisc.gred) ==> FindPath(filters, q, n) == path
    decreases |path|
  {
    if path != [] {
      var c, rest := path[0].cls, path[1..];
      assert path == [path[0]] + rest;
      GredWithin(q.classes, q.gred, c);
      if q.gred {
        assert path[0].qdisc == q && rest == [];
        GredFinds(q.classes, c);
        GredNumber(q.classes, Low(n, 4));
      } else {
        assert Lookup(filters, path[0].qdisc, n) == Some(c);
        assert FindByNumber(q.classes, c.number) == Some(c);
        if c.inner.Has? {
          WithinSmaller(q.classes, c);
          LeadsOn(filters, q, path, n);
          NumberFindsPath(filters, c.inner.qdisc, rest, n);
          FitsFirst(path, n);
          var more := FindPath(filters, c.inner.qdisc, n);
          assert FindPath(filters, q, n) == [path[0]] + more;
          PrefixAfter(path[0], rest, more);
        }
      }
    }
  }

  lemma FitsFirst(path: seq<Elem>, n: nat)
    requires path != [] && !path[0].qdisc.gred
    ensures GredFits(path, n) <==> GredFits(path[1..], n)
  {
    if GredFits(path[1..], n) {
      forall k | 0 <= k < |path| && path[k].qdisc.gred ensures Low(n, 4) == path[k].cls.number {
        assert path[1..][k - 1] == path[k];
      }
    }
  }

  lemma PrefixAfter(e: Elem, a: seq<Elem>, b: seq<Elem>)
    ensures [e] + a <= [e] + b <==> a <= b
  {
    assert ([e] + a)[1..] == a && ([e] + b)[1..] == b;
    if [e] + a <= [e] + b { assert forall i | 0 <= i < |a| :: a[i] == ([e] + a)[i + 1] && b[i] == ([e] + b)[i + 1]; }
  }

  /** The index selects the path, and ends with it, unless a GRED discipline follows. */
  ghost predicate Followed(filters: Filters, q: Qdisc, path: seq<Elem>, n: nat)
    requires Chain(q, path)
  {
    && path <= FindPath(filters, q, n)
    && (!(Beyond(q, path).Has? && Beyond(q, path).qdisc.gred) ==> FindPath(filters, q, n) == path)
  }

  lemma LeadsOn(filters: Filters, q: Qdisc, path: seq<Elem>, n: nat)
    requires Chain(q, path) && Leads(filters, q, path, n) && path != [] && path[0].cls.inner.Has?
    ensures Chain(path[0].cls.inner.qdisc, path[1..]) && Leads(filters, path[0].cls.inner.qdisc, path[1..], n)
    ensures Beyond(path[0].cls.inner.qdisc, path[1..]) == Beyond(q, path)
  {
    var rest := path[1..];
    assert forall k | 0 <= k < |rest| :: rest[k] == path[k + 1];
  }

  ghost predicate AllSelectable(root: Qdisc, lists: seq<seq<Class>>) { forall list | list in lists :: Selectable(root, list) }

  /** The paths of the lists, the latest first. */
  ghost function WaysOf(root: Qdisc, lists: seq<seq<Class>>): (ways: seq<seq<Elem>>)
    ensures |ways| == |lists|
  {
    seq(|lists|, i requires 0 <= i < |lists| => WayOf(root, lists[|lists| - 1 - i]))
  }

  lemma NextWay(root: Qdisc, lists: seq<seq<Class>>, k: nat, before: seq<SelPath>, paths: seq<SelPath>)
    requires Distinct(root.classes) && k < |lists| && |before| == k && |paths| == k + 1
    requires Plain(before) == WaysOf(root, lists[..k]) && forall i | 0 <= i < k :: paths[i + 1].path == before[i].path
    requires Way(root, lists[k], paths[0].path)
    ensures Plain(paths) == WaysOf(root, lists[..k + 1])
  {
    WayIs(root, lists[k], paths[0].path);
    var now := WaysOf(root, lists[..k + 1]);
    forall i | 0 <= i < k + 1 ensures Plain(paths)[i] == now[i] {
      if i > 0 { assert Plain(before)[i - 1] == WaysOf(root, lists[..k])[i - 1]; }
    }
  }

  lemma NextSelectable(root: Qdisc, lists: seq<seq<Class>>, k: nat)
    requires k < |lists| && AllSelectable(root, lists[..k])
    ensures AllSelectable(root, lists[..k + 1]) <==> Selectable(root, lists[k])
    ensures !Selectable(root, lists[k]) ==> !AllSelectable(root, lists)
  {
    assert lists[..k + 1] == lists[..k] + [lists[k]];
  }

  /** Registers a path for every list. It ends well if and only if all have one, and no
      discipline there has filters. */
  method RegisterLists(root: Qdisc, lists: seq<seq<Class>>) returns (ctx: Context, status: Status)
    requires Distinct(root.classes) && GredSmall(root.classes, root.gred)
    ensures fresh(ctx) && ctx.root == root && ctx.filters == map[]
    ensures status.Fine? ==> ctx.Valid() && |ctx.refs| == |ctx.paths| && Plain(ctx.paths) == WaysOf(root, lists)
    ensures status.Fine? <==> AllSelectable(root, lists)
  {
    ctx := new Context(root);
    status := Fine;
    var k := 0;
    while k < |lists|
      invariant 0 <= k <= |lists| && ctx.Valid() && fresh(ctx) && ctx.root == root && ctx.filters == map[]
      invariant |ctx.refs| == |ctx.paths| == k && status.Fine? && Plain(ctx.paths) == WaysOf(root, lists[..k])
      invariant AllSelectable(root, lists[..k])
    {
      ghost var before := ctx.paths;
      status := ctx.RegisterSelectionPath(lists[k]);
      NextSelectable(root, lists, k);
      if !status.Fine? { return; }
      NextWay(root, lists, k, before, ctx.paths);
      k := k + 1;
    }
    assert lists[..k] == lists;
  }

  /** The number selects the way of the list in every filter, and nothing beyond it.
      Following it comes to that way, if fields are used or no GRED discipline is on it. */
  ghost predicate Indexed(root: Qdisc, list: seq<Class>, way: seq<Elem>, filters: Filters, n: nat, fields: bool) {
    && Way(root, list, way) && n < Pow2(INDEX_BITS) && Leads(filters, root, way, n)
    && (fields || NoGred(way) ==> Followed(filters, root, way, n))
  }

  lemma IndexedOne(root: Qdisc, list: seq<Class>, way: seq<Elem>, filters: Filters, n: nat, fields: bool)
    requires Distinct(root.classes) && GredSmall(root.classes, root.gred) && Numbered(root.classes)
    requires Selectable(root, list) && way == WayOf(root, list) && n < Pow2(INDEX_BITS) && Leads(filters, root, way, n)
    requires fields ==> GredFits(way, n)
    ensures Indexed(root, list, way, filters, n, fields)
  {
    var path :| Way(root, list, path);
    WayIs(root, list, path);
    if fields || NoGred(way) { NumberFindsPath(filters, root, way, n); }
  }

  /** Registering lists of classes and numbering them gives every one an index by which
      each filter selects the class on the path the list stands for, and none beyond it.
      Following the index comes to that path, if no GRED discipline is on it or the fields
      of all the paths fit the index; it ends there, unless a GRED discipline follows. It
      fails if and only if a list has no path, or one through a discipline with filters, or
      if the fields do not fit and there are too many lists to count. */
  method SelectPaths(root: Qdisc, lists: seq<seq<Class>>) returns (ctx: Context, status: Status)
    requires Distinct(root.classes) && GredSmall(root.classes, root.gred) && Numbered(root.classes)
    ensures status.Fine? <==>
      AllSelectable(root, lists) && (FitIndex(root, WaysOf(root, lists)) || |lists| < Pow2(INDEX_BITS))
    ensures status.Fine? ==> |ctx.refs| == |lists|
    ensures status.Fine? ==> forall i | 0 <= i < |lists| ::
      Indexed(root, lists[|lists| - 1 - i], WaysOf(root, lists)[i], ctx.filters, ctx.refs[i], FitIndex(root, WaysOf(root, lists)))
    ensures status.Fine? && (FitIndex(root, WaysOf(root, lists)) ==> forall way | way in WaysOf(root, lists) :: NoGred(way)) ==>
      forall i, j | 0 <= i < j < |lists| :: ctx.refs[i] != ctx.refs[j]
  {
    ctx, status := RegisterLists(root, lists);
    if !status.Fine? { return; }
    var hierarchical;
    status, hierarchical := ctx.EndSelectionPaths();
    if status.Fine? { AllIndexed(root, lists, ctx.paths, ctx.refs, ctx.filters, hierarchical); }
  }

  lemma AllIndexed(root: Qdisc, lists: seq<seq<Class>>, paths: seq<SelPath>, refs: seq<nat>, filters: Filters, fields: bool)
    requires Distinct(root.classes) && GredSmall(root.classes, root.gred) && Numbered(root.classes)
    requires Plain(paths) == WaysOf(root, lists) && |refs| == |paths| && AllSelectable(root, lists)
    requires forall i | 0 <= i < |paths| :: refs[i] < Pow2(INDEX_BITS) && Leads(filters, root, paths[i].path, refs[i])
    requires fields ==> forall i, k | 0 <= i < |paths| && 0 <= k < |paths[i].path| && paths[i].path[k].qdisc.gred ::
      Low(refs[i], 4) == paths[i].path[k].cls.number
    ensures |lists| == |paths|
    ensures forall i | 0 <= i < |lists| :: Indexed(root, lists[|lists| - 1 - i], WaysOf(root, lists)[i], filters, refs[i], fields)
    ensures (forall way | way in WaysOf(root, lists) :: NoGred(way)) ==> forall p | p in paths :: NoGred(p.path)
  {
    var ways := WaysOf(root, lists);
    assert |Plain(paths)| == |lists|;
    forall i | 0 <= i < |lists| ensures Indexed(root, lists[|lists| - 1 - i], ways[i], filters, refs[i], fields) {
      assert ways[i] == Plain(paths)[i] == paths[i].path;
      IndexedOne(root, lists[|lists| - 1 - i], ways[i], filters, refs[i], fields);
    }
    forall p | p in paths ensures p.path in ways {
      var i :| 0 <= i < |paths| && paths[i] == p;
      assert Plain(paths)[i] in Plain(paths);
    }
  }
}
