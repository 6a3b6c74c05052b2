/** Paths that select lists of classes: a list has at most one. */
module Ways {
  import opened Qdiscs

  /** The path goes through all classes of the list and ends at one of them. */
  ghost predicate Selects(list: seq<Class>, path: seq<Elem>) {
    if list == [] then path == []
    else
      && path != [] && path[|path| - 1].cls in list
      && forall c | c in list :: exists k :: 0 <= k < |path| && path[k].cls == c
  }

  /** How many classes of the list the path goes through. */
  function Named(list: seq<Class>, path: seq<Elem>): nat {
    if path == [] then 0 else (if path[0].cls in list then 1 else 0) + Named(list, path[1..])
  }

  /** A path from the root that selects the list. */
  ghost predicate Way(root: Qdisc, list: seq<Class>, path: seq<Elem>) { Chain(root, path) && Selects(list, path) }

  predicate Unfiltered(path: seq<Elem>) { forall k | 0 <= k < |path| :: !path[k].qdisc.filtered }

  /** The list has a path, and no discipline on it has filters. */
  ghost predicate Selectable(root: Qdisc, list: seq<Class>) { exists path :: Way(root, list, path) && Unfiltered(path) }

  // ----- a class has one place in the tree -----

  /** The class and all that is inside it. */
  function Whole(c: Class): set<Class> { {c} + All(InnerClasses(c)) }

  lemma {:induction false} WholeWithin(cs: Classes, c: Class)
    requires Within(cs, c)
    ensures Whole(c) <= All(cs)
    decreases cs
  {
    if cs.first != c {
      if Within(cs.first.child, c) { WholeWithin(cs.first.child, c); } else { WholeWithin(cs.next, c); }
    }
  }

  lemma {:induction false} DistinctWithin(cs: Classes, c: Class)
    requires Within(cs, c) && Distinct(cs)
    ensures c !in All(InnerClasses(c)) && Distinct(InnerClasses(c))
    decreases cs
  {
    if cs.first != c {
      if Within(cs.first.child, c) { DistinctWithin(cs.first.child, c); } else { DistinctWithin(cs.next, c); }
    }
  }

  /** Two classes of a discipline have nothing in common. */
  lemma {:induction false} WholeApart(cs: Classes, c: Class, d: Class)
    requires Distinct(cs) && Within(cs, c) && Within(cs, d) && c != d
    ensures Whole(c) !! Whole(d)
    decreases cs
  {
    var first, child, next := cs.first, cs.first.child, cs.next;
    if Within(child, c) { WholeWithin(child, c); }
    if Within(next, c) { WholeWithin(next, c); }
    if Within(child, d) { WholeWithin(child, d); }
    if Within(next, d) { WholeWithin(next, d); }
    if c != first && d != first {
      if Within(child, c) && Within(child, d) { WholeApart(child, c, d); }
      else if Within(next, c) && Within(next, d) { WholeApart(next, c, d); }
    }
  }

  lemma {:induction false} ChainAll(q: Qdisc, path: seq<Elem>, k: nat)
    requires Chain(q, path) && k < |path|
    ensures path[k].cls in Whole(path[0].cls) && path[k].cls in All(q.classes)
    ensures k > 0 ==> path[k].cls in All(InnerClasses(path[0].cls))
    decreases k
  {
    WholeWithin(q.classes, path[0].cls);
    if k > 0 { ChainAll(path[0].cls.inner.qdisc, path[1..], k - 1); }
  }

  /** Only one path comes to a class. */
  lemma {:induction false} OnePlace(q: Qdisc, a: seq<Elem>, i: nat, b: seq<Elem>, j: nat)
    requires Distinct(q.classes) && Chain(q, a) && Chain(q, b) && i < |a| && j < |b| && a[i].cls == b[j].cls
    ensures a[..i + 1] == b[..j + 1]
    decreases i
  {
    var c := a[0].cls;
    ChainAll(q, a, i);
    ChainAll(q, b, j);
    if c != b[0].cls { WholeApart(q.classes, c, b[0].cls); }
    DistinctWithin(q.classes, c);
    if i > 0 && j > 0 {
      OnePlace(c.inner.qdisc, a[1..], i - 1, b[1..], j - 1);
      assert a[..i + 1] == [a[0]] + a[1..][..i] && b[..j + 1] == [b[0]] + b[1..][..j];
    }
  }

  /** A list is selected by at most one path. */
  lemma WayOnce(root: Qdisc, list: seq<Class>, a: seq<Elem>, b: seq<Elem>)
    requires Distinct(root.classes) && Way(root, list, a) && Way(root, list, b)
    ensures a == b
  {
    if list != [] {
      var i :| 0 <= i < |a| && a[i].cls == b[|b| - 1].cls;
      var j :| 0 <= j < |b| && b[j].cls == a[|a| - 1].cls;
      OnePlace(root, a, i, b, |b| - 1);
      OnePlace(root, a, |a| - 1, b, j);
      assert |a[..i + 1]| == |b| && |b[..j + 1]| == |a|;
    }
  }

  /** The path of a list, if it has one. */
  ghost function WayOf(root: Qdisc, list: seq<Class>): seq<Elem> {
    if exists path :: Way(root, list, path) then var path :| Way(root, list, path); path else []
  }

  lemma WayIs(root: Qdisc, list: seq<Class>, path: seq<Elem>)
    requires Distinct(root.classes) && Way(root, list, path)
    ensures WayOf(root, list) == path
  {
    WayOnce(root, list, path, WayOf(root, list));
  }

  // ----- looking for the path of a list -----

  ghost predicate Clear(list: seq<Class>, part: set<Class>) { forall c | c in list :: c !in part }

  /** The path goes on from `prev` to one of these classes. */
  ghost predicate Passing(path: seq<Elem>, prev: seq<Elem>, classes: Classes) {
    prev <= path && |prev| < |path| && Within(classes, path[|prev|].cls)
  }

  lemma {:induction false} ChainStep(q: Qdisc, path: seq<Elem>, k: nat)
    requires Chain(q, path) && k < |path|
    ensures Chain(path[k].qdisc, path[k..]) && Within(path[k].qdisc.classes, path[k].cls)
    ensures k + 1 < |path| ==> path[k].cls.inner == Has(path[k + 1].qdisc)
    decreases k
  {
    if k > 0 {
      ChainStep(path[0].cls.inner.qdisc, path[1..], k - 1);
      assert path[1..][k - 1..] == path[k..];
    }
  }

  /** What is further in is inside all that comes before. */
  lemma {:induction false} InsideAll(q: Qdisc, path: seq<Elem>, k: nat)
    requires Chain(q, path) && Distinct(q.classes) && 0 < k < |path|
    ensures All(path[k].qdisc.classes) <= All(InnerClasses(path[0].cls))
    decreases k
  {
    var inner := path[0].cls.inner.qdisc;
    DistinctWithin(q.classes, path[0].cls);
    if k > 1 {
      InsideAll(inner, path[1..], k - 1);
      WholeWithin(inner.classes, path[1].cls);
    }
  }

  lemma {:induction false} NotInside(q: Qdisc, path: seq<Elem>, i: nat, k: nat)
    requires Chain(q, path) && Distinct(q.classes) && i < k < |path|
    ensures path[i].cls !in All(path[k].qdisc.classes)
    decreases i
  {
    DistinctWithin(q.classes, path[0].cls);
    if i == 0 { InsideAll(q, path, k); } else { NotInside(path[0].cls.inner.qdisc, path[1..], i - 1, k - 1); }
  }

  /** Beside the class the path goes through nothing of the list is to be found. */
  lemma ClearBeside(root: Qdisc, list: seq<Class>, path: seq<Elem>, k: nat, part: set<Class>)
    requires Distinct(root.classes) && list != [] && Way(root, list, path) && k < |path|
    requires part <= All(path[k].qdisc.classes) && part !! Whole(path[k].cls)
    ensures Clear(list, part)
  {
    forall c | c in list ensures c !in part {
      var i :| 0 <= i < |path| && path[i].cls == c;
      if i < k {
        NotInside(root, path, i, k);
      } else {
        ChainStep(root, path, k);
        ChainAll(path[k].qdisc, path[k..], i - k);
      }
    }
  }

  lemma {:induction false} NamedAppend(list: seq<Class>, a: seq<Elem>, b: seq<Elem>)
    ensures Named(list, a + b) == Named(list, a) + Named(list, b)
    decreases |a|
  {
    if a == [] {
      assert a + b == b;
    } else {
      assert (a + b)[1..] == a[1..] + b;
      NamedAppend(list, a[1..], b);
    }
  }

  lemma NamedNext(list: seq<Class>, path: seq<Elem>, k: nat)
    requires k < |path|
    ensures Named(list, path[k..]) == Named(list, path[k + 1..]) + if path[k].cls in list then 1 else 0
  {
    assert path[k..][1..] == path[k + 1..];
  }

  /** There is one more to come, as the path ends in the list. */
  lemma {:induction false} NamedMore(list: seq<Class>, path: seq<Elem>, k: nat)
    requires k < |path| && path[|path| - 1].cls in list
    ensures Named(list, path[k..]) > 0
    decreases |path| - k
  {
    NamedNext(list, path, k);
    if k < |path| - 1 { NamedMore(list, path, k + 1); }
  }
}
