/** Counting the paths through a sorted graph, to choose the one to take out next. */
module Frequencies {
  import opened Graph
  import opened Repeats
  import opened NewBit

  // ----- paths -----

  /** The branches `p` lead from `r` through packet tests to `n`. */
  ghost predicate Leads(s: Store, r: Ref, p: seq<bool>, n: Ref)
    decreases |p|
  {
    r < |s| && if p == [] then r == n else s[r].Data? && Leads(s, Edge(s[r], p[0]), p[1..], n)
  }

  function Prefixed(b: bool, ps: set<seq<bool>>): set<seq<bool>> { set p | p in ps :: [b] + p }

  lemma InPrefixed(b: bool, ps: set<seq<bool>>, p: seq<bool>)
    ensures p in Prefixed(b, ps) <==> p != [] && p[0] == b && p[1..] in ps
  {
    if p != [] && p[0] == b && p[1..] in ps { assert p == [b] + p[1..]; }
    if p in Prefixed(b, ps) {
      var q :| q in ps && p == [b] + q;
      assert p[1..] == q;
    }
  }

  lemma {:induction false} PrefixedSize(b: bool, ps: set<seq<bool>>)
    ensures |Prefixed(b, ps)| == |ps|
    decreases ps
  {
    if ps != {} {
      var q :| q in ps;
      var rest := ps - {q};
      PrefixedSize(b, rest);
      InPrefixed(b, rest, [b] + q);
      assert Prefixed(b, ps) == Prefixed(b, rest) + {[b] + q};
    } else {
      assert Prefixed(b, ps) == {};
    }
  }

  /** These are all paths from `r` to `n`. */
  ghost predicate AllRoutes(s: Store, r: Ref, n: Ref, ps: set<seq<bool>>) { forall p :: p in ps <==> Leads(s, r, p, n) }

  lemma {:induction false} FindRoutes(s: Store, r: Ref, n: Ref) returns (ps: set<seq<bool>>)
    requires Acyclic(s) && r < |s|
    ensures AllRoutes(s, r, n, ps)
    decreases Rank(s)[r]
  {
    ps := if r == n then {[]} else {};
    if s[r].Data? {
      EdgeDown(s, r, true); EdgeDown(s, r, false);
      var t := FindRoutes(s, s[r].t, n);
      var f := FindRoutes(s, s[r].f, n);
      ps := ps + Prefixed(true, t) + Prefixed(false, f);
      forall p ensures p in ps <==> Leads(s, r, p, n) { InPrefixed(true, t, p); InPrefixed(false, f, p); }
    }
  }

  lemma RoutesExist(s: Store, r: Ref, n: Ref)
    requires Acyclic(s) && r < |s|
    ensures exists ps :: AllRoutes(s, r, n, ps)
  {
    var ps := FindRoutes(s, r, n);
  }

  ghost function Routes(s: Store, r: Ref, n: Ref): (ps: set<seq<bool>>)
    requires Acyclic(s) && r < |s|
    ensures AllRoutes(s, r, n, ps)
  {
    RoutesExist(s, r, n);
    var ps :| AllRoutes(s, r, n, ps); ps
  }

  /** The number of paths from `r` to `n`. */
  ghost function Ways(s: Store, r: Ref, n: Ref): nat
    requires Acyclic(s) && r < |s|
  {
    |Routes(s, r, n)|
  }

  lemma UnionSize<T>(a: set<T>, b: set<T>)
    requires a !! b
    ensures |a + b| == |a| + |b|
  {}

  /** No path leads up. */
  lemma {:induction false} LeadsDown(s: Store, r: Ref, p: seq<bool>, n: Ref)
    requires Acyclic(s) && r < |s| && Leads(s, r, p, n)
    ensures n < |s| && (p != [] ==> Rank(s)[n] < Rank(s)[r])
    decreases |p|
  {
    if p != [] {
      EdgeDown(s, r, p[0]);
      LeadsDown(s, Edge(s[r], p[0]), p[1..], n);
    }
  }

  lemma WaysHere(s: Store, n: Ref)
    requires Acyclic(s) && n < |s|
    ensures Ways(s, n, n) == 1
  {
    forall p ensures p in Routes(s, n, n) <==> p == [] {
      if Leads(s, n, p, n) { LeadsDown(s, n, p, n); }
    }
    assert Routes(s, n, n) == {[]};
  }

  lemma WaysOn(s: Store, r: Ref, n: Ref)
    requires Acyclic(s) && r < |s| && r != n
    ensures s[r].Data? ==> s[r].t < |s| && s[r].f < |s| && Ways(s, r, n) == Ways(s, s[r].t, n) + Ways(s, s[r].f, n)
    ensures !s[r].Data? ==> Ways(s, r, n) == 0
  {
    if s[r].Data? {
      EdgeDown(s, r, true); EdgeDown(s, r, false);
      var t, f := Routes(s, s[r].t, n), Routes(s, s[r].f, n);
      forall p
        ensures !(p in Prefixed(true, t) && p in Prefixed(false, f))
        ensures p in Routes(s, r, n) <==> p in Prefixed(true, t) || p in Prefixed(false, f)
      {
        InPrefixed(true, t, p); InPrefixed(false, f, p);
      }
      UnionSize(Prefixed(true, t), Prefixed(false, f));
      PrefixedSize(true, t); PrefixedSize(false, f);
      assert Routes(s, r, n) == Prefixed(true, t) + Prefixed(false, f);
    }
  }

  lemma SomeRoute(s: Store, r: Ref, n: Ref) returns (p: seq<bool>)
    requires Acyclic(s) && r < |s| && Ways(s, r, n) > 0
    ensures Leads(s, r, p, n)
  {
    p :| p in Routes(s, r, n);
  }

  lemma RouteCounts(s: Store, r: Ref, p: seq<bool>, n: Ref)
    requires Acyclic(s) && r < |s| && Leads(s, r, p, n)
    ensures Ways(s, r, n) > 0
  {
    assert p in Routes(s, r, n);
  }

  /** There is a path to the successors of what there is a path to. */
  lemma WaysExtend(s: Store, r: Ref, n: Ref, br: bool)
    requires Acyclic(s) && r < |s| && n < |s| && s[n].Data? && Ways(s, r, n) > 0
    ensures Edge(s[n], br) < |s| && Ways(s, r, Edge(s[n], br)) > 0
  {
    EdgeDown(s, n, br);
    var p := SomeRoute(s, r, n);
    LeadsOn(s, r, p, n, br);
    RouteCounts(s, r, p + [br], Edge(s[n], br));
  }

  lemma {:induction false} LeadsOn(s: Store, r: Ref, p: seq<bool>, n: Ref, br: bool)
    requires Leads(s, r, p, n) && n < |s| && s[n].Data? && Edge(s[n], br) < |s|
    ensures Leads(s, r, p + [br], Edge(s[n], br))
    decreases |p|
  {
    if p == [] {
      assert [br][1..] == [];
    } else {
      LeadsOn(s, Edge(s[r], p[0]), p[1..], n, br);
      assert (p + [br])[1..] == p[1..] + [br];
    }
  }

  /** Along a path of a sorted graph bits increase. */
  lemma {:induction false} LeadsHigher(s: Store, r: Ref, p: seq<bool>, n: Ref)
    requires Acyclic(s) && r < |s| && Ordered(s, r) && Leads(s, r, p, n)
    ensures n < |s| && Ordered(s, n)
    ensures p != [] && s[n].Data? ==> s[r].Data? && Less(KeyAt(s[r]), KeyAt(s[n]))
    decreases |p|
  {
    if p != [] {
      EdgeDown(s, r, p[0]);
      LeadsHigher(s, Edge(s[r], p[0]), p[1..], n);
    }
  }

  function KeyAt(n: Node): Key
    requires n.Data?
  {
    (n.group, n.bit)
  }

  lemma WaysHigher(s: Store, r: Ref, n: Ref)
    requires Acyclic(s) && r < |s| && Ordered(s, r) && Ways(s, r, n) > 0
    ensures n < |s| && Ordered(s, n)
    ensures r != n && s[n].Data? ==> s[r].Data? && Less(KeyAt(s[r]), KeyAt(s[n]))
  {
    var p := SomeRoute(s, r, n);
    LeadsHigher(s, r, p, n);
  }

  // ----- paths through a node -----

  /** The path passes `m`. */
  ghost predicate Passes(s: Store, r: Ref, p: seq<bool>, m: Ref) {
    exists k | 0 <= k <= |p| :: Leads(s, r, p[..k], m)
  }

  ghost function Through(s: Store, r: Ref, m: Ref, n: Ref): (ps: set<seq<bool>>)
    requires Acyclic(s) && r < |s|
    ensures forall p :: p in ps <==> Leads(s, r, p, n) && Passes(s, r, p, m)
  {
    set p | p in Routes(s, r, n) && Passes(s, r, p, m)
  }

  lemma PassesOn(s: Store, r: Ref, p: seq<bool>, m: Ref)
    requires r < |s| && s[r].Data? && r != m && p != []
    ensures Passes(s, r, p, m) <==> Passes(s, Edge(s[r], p[0]), p[1..], m)
  {
    if Passes(s, r, p, m) {
      var k :| 0 <= k <= |p| && Leads(s, r, p[..k], m);
      assert k > 0 && p[..k][1..] == p[1..][..k - 1];
      assert Leads(s, Edge(s[r], p[0]), p[1..][..k - 1], m);
    }
    if Passes(s, Edge(s[r], p[0]), p[1..], m) {
      var k :| 0 <= k <= |p[1..]| && Leads(s, Edge(s[r], p[0]), p[1..][..k], m);
      assert p[..k + 1][1..] == p[1..][..k] && p[..k + 1][0] == p[0];
      assert Leads(s, r, p[..k + 1], m);
    }
  }

  lemma OneOrNone(x: nat, y: nat)
    requires x <= 1
    ensures x * y == if x == 1 then y else 0
  {}

  lemma SameProduct(a: nat, b: nat, x: nat, y: nat)
    requires a == x && b == y
    ensures a * b == x * y
  {}

  lemma Distribute(a: nat, b: nat, c: nat, ab: nat, ac: nat, bc: nat)
    requires ab == a + b && ac == a * c && bc == b * c
    ensures ac + bc == ab * c
  {}

  lemma ThroughAll(s: Store, m: Ref, n: Ref)
    requires Acyclic(s) && m < |s|
    ensures Ways(s, m, m) == 1 && |Through(s, m, m, n)| == Ways(s, m, n)
  {
    forall p | Leads(s, m, p, n) ensures Passes(s, m, p, m) { assert Leads(s, m, p[..0], m); }
    assert Through(s, m, m, n) == Routes(s, m, n);
    WaysHere(s, m);
  }

  /** As many paths from `r` to `n` pass `m` as there are ways to `m` and ways on. */
  lemma {:induction false} ThroughProduct(s: Store, r: Ref, m: Ref, n: Ref)
    requires Acyclic(s) && r < |s| && m < |s|
    ensures |Through(s, r, m, n)| == Ways(s, r, m) * Ways(s, m, n)
    decreases Rank(s)[r]
  {
    var x, y, z := Ways(s, r, m), Ways(s, m, n), |Through(s, r, m, n)|;
    if r == m {
      ThroughAll(s, m, n);
      OneOrNone(x, y);
    } else if s[r].Data? {
      EdgeDown(s, r, true); EdgeDown(s, r, false);
      var t, f := Ways(s, s[r].t, m), Ways(s, s[r].f, m);
      var p, q := |Through(s, s[r].t, m, n)|, |Through(s, s[r].f, m, n)|;
      assert p == t * y by { ThroughProduct(s, s[r].t, m, n); }
      assert q == f * y by { ThroughProduct(s, s[r].f, m, n); }
      assert x == t + f by { WaysOn(s, r, m); }
      assert z == p + q by { ThroughParts(s, r, m, n, Through(s, s[r].t, m, n), Through(s, s[r].f, m, n)); }
      Distribute(t, f, y, x, p, q);
    } else {
      ThroughNone(s, r, m, n);
      OneOrNone(x, y);
    }
  }

  lemma ThroughNone(s: Store, r: Ref, m: Ref, n: Ref)
    requires Acyclic(s) && r < |s| && m < |s| && !s[r].Data? && r != m
    ensures Ways(s, r, m) == 0 && |Through(s, r, m, n)| == 0
  {
    WaysOn(s, r, m);
    forall p: seq<bool>, k | 0 <= k <= |p| ensures !Leads(s, r, p[..k], m) {}
    assert Through(s, r, m, n) == {};
  }

  lemma ThroughParts(s: Store, r: Ref, m: Ref, n: Ref, t: set<seq<bool>>, f: set<seq<bool>>)
    requires Acyclic(s) && r < |s| && s[r].Data? && r != m && s[r].t < |s| && s[r].f < |s|
    requires t == Through(s, s[r].t, m, n) && f == Through(s, s[r].f, m, n)
    ensures |Through(s, r, m, n)| == |t| + |f|
  {
    forall p ensures p in Through(s, r, m, n) <==> p in Prefixed(true, t) || p in Prefixed(false, f) {
      InPrefixed(true, t, p); InPrefixed(false, f, p);
      if p != [] {
        PassesOn(s, r, p, m);
      } else {
        assert forall k | 0 <= k <= |p| :: p[..k] == [];
      }
    }
    forall p ensures !(p in Prefixed(true, t) && p in Prefixed(false, f)) { InPrefixed(true, t, p); InPrefixed(false, f, p); }
    assert Through(s, r, m, n) == Prefixed(true, t) + Prefixed(false, f);
    UnionSize(Prefixed(true, t), Prefixed(false, f));
    PrefixedSize(true, t); PrefixedSize(false, f);
  }

  // ----- the worklist -----

  predicate Within(todo: seq<Ref>, size: nat) { forall i | 0 <= i < |todo| :: todo[i] < size }

  predicate Distinct(todo: seq<Ref>) { forall i, j | 0 <= i < j < |todo| :: todo[i] != todo[j] }

  predicate AllData(s: Store, todo: seq<Ref>) { forall i | 0 <= i < |todo| :: todo[i] < |s| && s[todo[i]].Data? }

  /** The lowest bits come first. */
  predicate Rising(s: Store, todo: seq<Ref>)
    requires AllData(s, todo)
  {
    forall i, j | 0 <= i < j < |todo| :: !Less(KeyAt(s[todo[j]]), KeyAt(s[todo[i]]))
  }

  /** Different packet tests, the lowest bits first. */
  ghost predicate Worklist(s: Store, todo: seq<Ref>)
    requires Acyclic(s)
  {
    && AllData(s, todo) && Distinct(todo) && Rising(s, todo)
    && forall i | 0 <= i < |todo| :: Ordered(s, todo[i])
  }

  ghost predicate Inserted(todo: seq<Ref>, node: Ref, i: nat, todo': seq<Ref>) {
    i <= |todo| && todo' == todo[..i] + [node] + todo[i..]
  }

  /** `x` times `w`. */
  function Times(x: nat, w: nat): nat { if x == 0 then 0 else Times(x - 1, w) + w }

  lemma {:induction false} TimesSum(x: nat, y: nat, w: nat)
    ensures Times(x + y, w) == Times(x, w) + Times(y, w)
    decreases y
  {
    if y > 0 { TimesSum(x, y - 1, w); }
  }

  lemma TimesOne(w: nat)
    ensures Times(1, w) == w
  {
    assert Times(0, w) == 0;
  }

  lemma {:induction false} TimesOf(x: nat, v: nat, w: nat)
    ensures Times(x, v + w) == Times(x, v) + Times(x, w)
    ensures Times(x, 0) == 0 && Times(x, 1) == x
    decreases x
  {
    if x > 0 { TimesOf(x - 1, v, w); }
  }

  /** The counts of the nodes waiting, times their weights. */
  function Sum(todo: seq<Ref>, freq: seq<nat>, w: seq<nat>): nat
    requires Within(todo, |freq|) && |w| == |freq|
  {
    if todo == [] then 0 else Times(freq[todo[0]], w[todo[0]]) + Sum(todo[1..], freq, w)
  }

  lemma {:induction false} SumAppend(a: seq<Ref>, b: seq<Ref>, freq: seq<nat>, w: seq<nat>)
    requires Within(a, |freq|) && Within(b, |freq|) && |w| == |freq|
    ensures Within(a + b, |freq|) && Sum(a + b, freq, w) == Sum(a, freq, w) + Sum(b, freq, w)
    decreases |a|
  {
    if a == [] {
      assert a + b == b;
    } else {
      SumAppend(a[1..], b, freq, w);
      assert (a + b)[1..] == a[1..] + b;
    }
  }

  lemma {:induction false} SumElse(todo: seq<Ref>, freq: seq<nat>, w: seq<nat>, c: Ref, x: nat)
    requires Within(todo, |freq|) && |w| == |freq| && c < |freq| && c !in todo
    ensures Sum(todo, freq[c := x], w) == Sum(todo, freq, w)
    decreases |todo|
  {
    if todo != [] { SumElse(todo[1..], freq, w, c, x); }
  }

  lemma SumAround(todo: seq<Ref>, freq: seq<nat>, w: seq<nat>, i: nat)
    requires Within(todo, |freq|) && |w| == |freq| && i < |todo|
    ensures Sum(todo, freq, w) == Sum(todo[..i], freq, w) + Times(freq[todo[i]], w[todo[i]]) + Sum(todo[i + 1..], freq, w)
  {
    assert todo == todo[..i] + todo[i..];
    SumAppend(todo[..i], todo[i..], freq, w);
    assert todo[i..][1..] == todo[i + 1..];
  }

  /** A node waiting gets `x` more. */
  lemma SumMore(todo: seq<Ref>, freq: seq<nat>, w: seq<nat>, c: Ref, x: nat, i: nat)
    requires Within(todo, |freq|) && |w| == |freq| && i < |todo| && todo[i] == c
    requires forall j | 0 <= j < |todo| && j != i :: todo[j] != c
    ensures Sum(todo, freq[c := freq[c] + x], w) == Sum(todo, freq, w) + Times(x, w[c])
  {
    SumAround(todo, freq, w, i);
    SumAround(todo, freq[c := freq[c] + x], w, i);
    SumElse(todo[..i], freq, w, c, freq[c] + x);
    SumElse(todo[i + 1..], freq, w, c, freq[c] + x);
    TimesSum(freq[c], x, w[c]);
  }

  /** A node is added with `x`. */
  lemma SumNew(todo: seq<Ref>, freq: seq<nat>, w: seq<nat>, c: Ref, x: nat, i: nat, todo': seq<Ref>)
    requires Within(todo, |freq|) && |w| == |freq| && c !in todo && c < |freq| && Inserted(todo, c, i, todo')
    ensures Within(todo', |freq|) && Sum(todo', freq[c := x], w) == Sum(todo, freq, w) + Times(x, w[c])
  {
    var freq' := freq[c := x];
    SumAround(todo', freq', w, i);
    assert todo'[..i] == todo[..i] && todo'[i + 1..] == todo[i..] && todo == todo[..i] + todo[i..];
    SumAppend(todo[..i], todo[i..], freq', w);
    SumElse(todo, freq, w, c, x);
  }

  lemma {:induction false} SumZero(todo: seq<Ref>, freq: seq<nat>, w: seq<nat>)
    requires Within(todo, |freq|) && |w| == |freq| && forall i | 0 <= i < |todo| :: w[todo[i]] == 0
    ensures Sum(todo, freq, w) == 0
    decreases |todo|
  {
    if todo != [] {
      TimesOf(freq[todo[0]], 0, 0);
      SumZero(todo[1..], freq, w);
    }
  }

  /** Who is waiting for what is pending? */
  lemma SumWho(todo: seq<Ref>, freq: seq<nat>, w: seq<nat>) returns (i: nat)
    requires Within(todo, |freq|) && |w| == |freq| && Sum(todo, freq, w) > 0
    ensures i < |todo| && w[todo[i]] > 0
  {
    if forall i | 0 <= i < |todo| :: w[todo[i]] == 0 { SumZero(todo, freq, w); }
    i :| 0 <= i < |todo| && w[todo[i]] != 0;
  }

  /** From each node, the ways to `n`. */
  ghost function WaysTo(s: Store, n: Ref): (w: seq<nat>)
    requires Acyclic(s)
    ensures |w| == |s| && forall m: Ref | m < |s| :: w[m] == Ways(s, m, n)
  {
    seq(|s|, m requires 0 <= m < |s| => Ways(s, m, n))
  }

  /** The paths to `n` that go on from the nodes waiting. */
  ghost function Pending(s: Store, todo: seq<Ref>, freq: seq<nat>, n: Ref): nat
    requires Acyclic(s) && Within(todo, |s|) && |freq| == |s|
  {
    Sum(todo, freq, WaysTo(s, n))
  }

  lemma PendingWho(s: Store, todo: seq<Ref>, freq: seq<nat>, n: Ref) returns (m: Ref)
    requires Acyclic(s) && Within(todo, |s|) && |freq| == |s| && Pending(s, todo, freq, n) > 0
    ensures m in todo && m < |s| && Ways(s, m, n) > 0
  {
    var i := SumWho(todo, freq, WaysTo(s, n));
    m := todo[i];
  }

  /** Nothing leads from the other nodes waiting to the first one. */
  lemma {:induction false} FirstAlone(s: Store, todo: seq<Ref>, freq: seq<nat>)
    requires Acyclic(s) && Worklist(s, todo) && |freq| == |s| && todo != []
    ensures forall m | m in todo[1..] :: Ways(s, m, todo[0]) == 0
    ensures Pending(s, todo, freq, todo[0]) == freq[todo[0]]
  {
    var n, rest := todo[0], todo[1..];
    forall m | m in rest ensures Ways(s, m, n) == 0 {
      var j :| 0 <= j < |rest| && rest[j] == m;
      assert todo[j + 1] == m;
      if Ways(s, m, n) > 0 { WaysHigher(s, m, n); }
    }
    WaysHere(s, n);
    TimesOf(freq[n], 0, 0);
    SumZero(rest, freq, WaysTo(s, n));
  }

  // ----- what has been counted -----

  /** Nodes visited have their number of paths, and bits no higher than those waiting. */
  ghost predicate Finished(s: Store, root: Ref, todo: seq<Ref>, freq: seq<nat>, popped: seq<Ref>)
    requires Acyclic(s) && root < |s| && |freq| == |s| && Worklist(s, todo)
  {
    forall d | d in popped :: d < |s| && s[d].Data? && freq[d] == Ways(s, root, d) && d !in todo
      && forall m | m in todo :: !Less(KeyAt(s[m]), KeyAt(s[d]))
  }

  /** The paths to the other nodes go on from those waiting, and nowhere else anything was
      counted. */
  ghost predicate Ahead(s: Store, root: Ref, todo: seq<Ref>, freq: seq<nat>, popped: seq<Ref>)
    requires Acyclic(s) && root < |s| && |freq| == |s| && Worklist(s, todo)
  {
    forall n: Ref | n < |s| && n !in popped ::
      (n !in todo ==> freq[n] == 0) && (s[n].Data? ==> Ways(s, root, n) == Pending(s, todo, freq, n))
  }

  ghost predicate Counted(s: Store, root: Ref, todo: seq<Ref>, freq: seq<nat>, popped: seq<Ref>) {
    && Acyclic(s) && root < |s| && Ordered(s, root) && |freq| == |s| && Worklist(s, todo)
    && Finished(s, root, todo, freq, popped) && Ahead(s, root, todo, freq, popped)
  }

  ghost predicate Parent(s: Store, p: Ref, br: bool, n: Ref) { p < |s| && s[p].Data? && Edge(s[p], br) == n }

  /** Every node there is a path to is visited after all its parents there are paths to. */
  ghost predicate ParentsFirst(s: Store, root: Ref, popped: seq<Ref>)
    requires Acyclic(s) && root < |s|
  {
    forall i, p, br | 0 <= i < |popped| && Parent(s, p, br, popped[i]) && Ways(s, root, p) > 0 :: p in popped[..i]
  }

  /** When a node is first in the list, none of its parents is pending. */
  lemma NoParentPending(s: Store, root: Ref, todo: seq<Ref>, freq: seq<nat>, popped: seq<Ref>, p: Ref, br: bool)
    requires Counted(s, root, todo, freq, popped) && todo != [] && Parent(s, p, br, todo[0]) && Ways(s, root, p) > 0
    ensures p in popped
  {
    var n := todo[0];
    WaysHigher(s, root, p);
    EdgeDown(s, p, br);
    if p !in popped {
      var m := PendingWho(s, todo, freq, p);
      WaysExtend(s, m, p, br);
      FirstAlone(s, todo, freq);
      assert m == n;
      WaysHigher(s, n, p);
    }
  }

  lemma PoppedInOrder(s: Store, root: Ref, todo: seq<Ref>, freq: seq<nat>, popped: seq<Ref>)
    requires Counted(s, root, todo, freq, popped) && todo != [] && ParentsFirst(s, root, popped)
    ensures ParentsFirst(s, root, popped + [todo[0]])
  {
    var later := popped + [todo[0]];
    forall i, p, br | 0 <= i < |later| && Parent(s, p, br, later[i]) && Ways(s, root, p) > 0 ensures p in later[..i] {
      if i == |popped| {
        NoParentPending(s, root, todo, freq, popped, p, br);
        assert later[..i] == popped;
      } else {
        assert later[..i] == popped[..i] && later[i] == popped[i];
      }
    }
  }

  /** The count of the first node is complete. */
  lemma FirstComplete(s: Store, root: Ref, todo: seq<Ref>, freq: seq<nat>, popped: seq<Ref>)
    requires Counted(s, root, todo, freq, popped) && todo != []
    ensures freq[todo[0]] == Ways(s, root, todo[0])
  {
    FirstAlone(s, todo, freq);
    assert todo[0] !in popped;
  }

  /** What was passed on to a successor. */
  ghost predicate Passed(s: Store, todo: seq<Ref>, freq: seq<nat>, x: nat, c: Ref, todo': seq<Ref>, freq': seq<nat>) {
    && Acyclic(s) && |freq| == |s| == |freq'| && Within(todo, |s|) && Within(todo', |s|) && c < |s|
    && (forall m :: m in todo' <==> m in todo || (m == c && s[c].Data?))
    && (forall m: Ref | m < |s| && (m != c || !s[c].Data?) :: freq'[m] == freq[m])
    && forall n: Ref | n < |s| && s[n].Data? :: Pending(s, todo', freq', n) == Pending(s, todo, freq, n) + Times(x, Ways(s, c, n))
  }

  lemma SumPassed(todo: seq<Ref>, freq: seq<nat>, w: seq<nat>, x: nat, c: Ref, at: nat, todo': seq<Ref>, freq': seq<nat>)
    requires Within(todo, |freq|) && |w| == |freq| && Distinct(todo) && c < |freq| && (c !in todo ==> freq[c] == 0)
    requires freq' == freq[c := freq[c] + x] && if c in todo then todo' == todo else Inserted(todo, c, at, todo')
    ensures Within(todo', |freq|) && Sum(todo', freq', w) == Sum(todo, freq, w) + Times(x, w[c])
  {
    if c in todo {
      var i :| 0 <= i < |todo| && todo[i] == c;
      SumMore(todo, freq, w, c, x, i);
    } else {
      SumNew(todo, freq, w, c, x, at, todo');
    }
  }

  /** The nodes the first node passed its count to carry what it carried. */
  lemma AheadAt(s: Store, todo: seq<Ref>, freq: seq<nat>, n0: Ref, x: nat, rest: nat, all: nat, n: Ref)
    requires Acyclic(s) && |freq| == |s| && Within(todo, |s|) && todo != [] && n0 == todo[0] && s[n0].Data? && x == freq[n0]
    requires s[n0].f < |s| && s[n0].t < |s| && n < |s| && n != n0 && rest == Pending(s, todo[1..], freq, n)
    requires all == rest + Times(x, Ways(s, s[n0].f, n)) + Times(x, Ways(s, s[n0].t, n))
    ensures Pending(s, todo, freq, n) == all
  {
    assert Ways(s, n0, n) == Ways(s, s[n0].t, n) + Ways(s, s[n0].f, n) by { WaysOn(s, n0, n); }
    PartsTogether(x, Ways(s, s[n0].t, n), Ways(s, s[n0].f, n), Ways(s, n0, n), rest, all);
    FirstPending(s, todo, freq, n0, x, rest, n);
  }

  lemma PartsTogether(x: nat, t: nat, f: nat, w: nat, rest: nat, all: nat)
    requires w == t + f && all == rest + Times(x, f) + Times(x, t)
    ensures all == Times(x, w) + rest
  {
    TimesOf(x, t, f);
  }

  lemma FirstPending(s: Store, todo: seq<Ref>, freq: seq<nat>, n0: Ref, x: nat, rest: nat, n: Ref)
    requires Acyclic(s) && |freq| == |s| && Within(todo, |s|) && todo != [] && n0 == todo[0] && x == freq[n0]
    requires rest == Pending(s, todo[1..], freq, n)
    ensures Pending(s, todo, freq, n) == Times(x, Ways(s, n0, n)) + rest
  {}

  lemma PassedBoth(s: Store, root: Ref, todo: seq<Ref>, freq: seq<nat>, popped: seq<Ref>, n0: Ref, x: nat, rest: seq<Ref>,
                   todo1: seq<Ref>, freq1: seq<nat>, todo2: seq<Ref>, freq2: seq<nat>)
    requires Counted(s, root, todo, freq, popped) && todo != [] && n0 == todo[0] && x == freq[n0] && rest == todo[1..]
    requires s[n0].f < |s| && s[n0].t < |s| && Worklist(s, todo2)
    requires Passed(s, rest, freq, x, s[n0].f, todo1, freq1) && Passed(s, todo1, freq1, x, s[n0].t, todo2, freq2)
    ensures Counted(s, root, todo2, freq2, popped + [n0])
  {
    FirstComplete(s, root, todo, freq, popped);
    SuccessorsHigher(s, todo, n0);
    PassedFinished(s, root, todo, freq, popped, todo2, freq2, n0);
    AheadBoth(s, root, todo, freq, popped, n0, x, rest, todo1, freq1, todo2, freq2);
  }

  lemma AheadBoth(s: Store, root: Ref, todo: seq<Ref>, freq: seq<nat>, popped: seq<Ref>, n0: Ref, x: nat, rest: seq<Ref>,
                  todo1: seq<Ref>, freq1: seq<nat>, todo2: seq<Ref>, freq2: seq<nat>)
    requires Acyclic(s) && root < |s| && |freq| == |s| && Worklist(s, todo) && Ahead(s, root, todo, freq, popped)
    requires todo != [] && n0 == todo[0] && x == freq[n0] && rest == todo[1..]
    requires s[n0].f < |s| && s[n0].t < |s| && Worklist(s, todo2)
    requires Passed(s, rest, freq, x, s[n0].f, todo1, freq1) && Passed(s, todo1, freq1, x, s[n0].t, todo2, freq2)
    ensures Ahead(s, root, todo2, freq2, popped + [n0])
  {
    forall n: Ref | n < |s| && n !in popped + [n0]
      ensures (n !in todo2 ==> freq2[n] == 0) && (s[n].Data? ==> Ways(s, root, n) == Pending(s, todo2, freq2, n))
    {
      assert n !in popped;
      if s[n].Data? { AheadAt(s, todo, freq, n0, x, Pending(s, rest, freq, n), Pending(s, todo2, freq2, n), n); }
      assert n in todo ==> n in todo[1..];
    }
  }

  lemma SuccessorsHigher(s: Store, todo: seq<Ref>, n0: Ref)
    requires Acyclic(s) && Worklist(s, todo) && todo != [] && n0 == todo[0]
    ensures s[n0].t < |s| && s[n0].f < |s|
    ensures forall m | m in todo[1..] :: m in todo && m != n0
    ensures s[s[n0].t].Data? ==> Less(KeyAt(s[n0]), KeyAt(s[s[n0].t]))
    ensures s[s[n0].f].Data? ==> Less(KeyAt(s[n0]), KeyAt(s[s[n0].f]))
  {
    EdgeDown(s, n0, true); EdgeDown(s, n0, false);
    forall br ensures s[Edge(s[n0], br)].Data? ==> Less(KeyAt(s[n0]), KeyAt(s[Edge(s[n0], br)])) { EdgeDown(s, n0, br); }
  }

  lemma PassedFinished(s: Store, root: Ref, todo: seq<Ref>, freq: seq<nat>, popped: seq<Ref>, todo2: seq<Ref>, freq2: seq<nat>, n0: Ref)
    requires Counted(s, root, todo, freq, popped) && todo != [] && n0 == todo[0] && Worklist(s, todo2) && |freq2| == |s|
    requires freq[n0] == Ways(s, root, n0)
    requires forall m | m in todo2 :: (m in todo && m != n0) || (m < |s| && s[m].Data? && Less(KeyAt(s[n0]), KeyAt(s[m])))
    requires forall m: Ref | m < |s| && !(s[m].Data? && Less(KeyAt(s[n0]), KeyAt(s[m]))) :: freq2[m] == freq[m]
    ensures Finished(s, root, todo2, freq2, popped + [n0])
  {
    forall d | d in popped + [n0]
      ensures d < |s| && s[d].Data? && freq2[d] == Ways(s, root, d) && d !in todo2
      ensures forall m | m in todo2 :: !Less(KeyAt(s[m]), KeyAt(s[d]))
    {
      assert d == n0 || !Less(KeyAt(s[n0]), KeyAt(s[d]));
      forall m | m in todo2 ensures !Less(KeyAt(s[m]), KeyAt(s[d])) {
        if m in todo && m != n0 { var j :| 0 <= j < |todo| && todo[j] == m; }
      }
    }
  }

  // ----- leaf edges -----

  type Out = (Ref, bool)

  /** The node's successors are marked too. */
  predicate Closed(s: Store, marked: set<Ref>, m: Ref) {
    m < |s| && (s[m].Data? ==> s[m].t in marked && s[m].f in marked)
  }

  /** Marked nodes that are not done yet are above. */
  ghost predicate DoneBelow(s: Store, marked: set<Ref>, top: nat)
    requires Acyclic(s)
  {
    forall m {:trigger m in marked} | m in marked :: m < |s| && (Rank(s)[m] > top || Closed(s, marked, m))
  }

  /** Nodes marked in addition are done. */
  ghost predicate Grown(s: Store, before: set<Ref>, after: set<Ref>) {
    before <= after && forall m | m in after && m !in before :: Closed(s, after, m)
  }

  lemma GrownDone(s: Store, before: set<Ref>, after: set<Ref>, top: nat)
    requires Acyclic(s) && DoneBelow(s, before, top) && Grown(s, before, after)
    ensures DoneBelow(s, after, top)
  {
    forall m | m in after ensures m < |s| && (Rank(s)[m] > top || Closed(s, after, m)) {
      assert m in before ==> Rank(s)[m] > top || Closed(s, before, m);
    }
  }

  lemma EnterDone(s: Store, marked: set<Ref>, m: Ref, top: nat)
    requires Acyclic(s) && m < |s| && DoneBelow(s, marked, top) && top >= Rank(s)[m] > 0
    ensures DoneBelow(s, marked + {m}, Rank(s)[m] - 1)
  {
    forall k | k in marked + {m} ensures k < |s| && (Rank(s)[k] > Rank(s)[m] - 1 || Closed(s, marked + {m}, k)) {
      assert k in marked ==> Rank(s)[k] > top || Closed(s, marked, k);
    }
  }

  lemma GrownNode(s: Store, before: set<Ref>, m: Ref, first: set<Ref>, second: set<Ref>)
    requires m < |s| && s[m].Data? && Grown(s, before + {m}, first) && Grown(s, first, second) && s[m].f in first && s[m].t in second
    ensures Grown(s, before, second)
  {
    forall k | k in second && k !in before ensures Closed(s, second, k) {
      assert k in first && k != m ==> Closed(s, first, k);
    }
  }

  /** The same for packet tests only. */
  predicate TestsClosed(s: Store, marked: set<Ref>, m: Ref) {
    m < |s| && s[m].Data? && s[m].t < |s| && s[m].f < |s|
    && (s[s[m].t].Data? ==> s[m].t in marked) && (s[s[m].f].Data? ==> s[m].f in marked)
  }

  ghost predicate TestsBelow(s: Store, marked: set<Ref>, top: nat)
    requires Acyclic(s)
  {
    forall m {:trigger m in marked} | m in marked :: m < |s| && s[m].Data? && (Rank(s)[m] > top || TestsClosed(s, marked, m))
  }

  lemma {:induction false} TestsReach(s: Store, marked: set<Ref>, r: Ref, p: seq<bool>, n: Ref)
    requires r in marked && Leads(s, r, p, n) && n < |s| && s[n].Data? && forall m | m in marked :: TestsClosed(s, marked, m)
    ensures n in marked
    decreases |p|
  {
    if p != [] {
      assert TestsClosed(s, marked, r);
      assert Leads(s, Edge(s[r], p[0]), p[1..], n);
      TestsReach(s, marked, Edge(s[r], p[0]), p[1..], n);
    }
  }

  lemma TestsAll(s: Store, marked: set<Ref>, root: Ref)
    requires Acyclic(s) && root < |s| && root in marked && AllReached(s, root, marked)
    requires forall m | m in marked :: TestsClosed(s, marked, m)
    ensures forall n: Ref | n < |s| && s[n].Data? :: n in marked <==> Ways(s, root, n) > 0
  {
    forall n: Ref | n < |s| && s[n].Data? && Ways(s, root, n) > 0 ensures n in marked {
      var p := SomeRoute(s, root, n);
      TestsReach(s, marked, root, p, n);
    }
  }

  function MarkedTests(s: Store, marked: set<Ref>): set<Ref> { set m | m in marked && m < |s| && s[m].Data? }

  function MarkedOthers(s: Store, marked: set<Ref>): set<Ref> { set m | m in marked && m < |s| && !s[m].Data? }

  predicate Tallied(s: Store, marked: set<Ref>, tests: nat, others: nat) {
    tests == |MarkedTests(s, marked)| && others == |MarkedOthers(s, marked)|
  }

  lemma TalliedMore(s: Store, marked: set<Ref>, tests: nat, others: nat, m: Ref)
    requires Tallied(s, marked, tests, others) && m !in marked && m < |s|
    ensures if s[m].Data? then Tallied(s, marked + {m}, tests + 1, others) else Tallied(s, marked + {m}, tests, others + 1)
  {
    if s[m].Data? {
      assert MarkedTests(s, marked + {m}) == MarkedTests(s, marked) + {m};
      assert MarkedOthers(s, marked + {m}) == MarkedOthers(s, marked);
    } else {
      assert MarkedTests(s, marked + {m}) == MarkedTests(s, marked);
      assert MarkedOthers(s, marked + {m}) == MarkedOthers(s, marked) + {m};
    }
  }

  ghost predicate AllReached(s: Store, root: Ref, marked: set<Ref>)
    requires Acyclic(s) && root < |s|
  {
    forall m {:trigger m in marked} | m in marked :: m < |s| && Ways(s, root, m) > 0
  }

  /** Whatever there is a path to is marked. */
  lemma {:induction false} ClosedReach(s: Store, marked: set<Ref>, r: Ref, p: seq<bool>, n: Ref)
    requires r in marked && Leads(s, r, p, n) && forall m | m in marked :: Closed(s, marked, m)
    ensures n in marked
    decreases |p|
  {
    if p != [] {
      assert Closed(s, marked, r);
      ClosedReach(s, marked, Edge(s[r], p[0]), p[1..], n);
    }
  }

  lemma MarkedAll(s: Store, marked: set<Ref>, root: Ref)
    requires Acyclic(s) && root < |s| && root in marked && AllReached(s, root, marked)
    requires forall m | m in marked :: Closed(s, marked, m)
    ensures forall n: Ref | n < |s| :: n in marked <==> Ways(s, root, n) > 0
  {
    forall n: Ref | n < |s| && Ways(s, root, n) > 0 ensures n in marked {
      var p := SomeRoute(s, root, n);
      ClosedReach(s, marked, root, p, n);
    }
  }

  /** The edge leads from a packet test to something else. */
  predicate LeafEdge(s: Store, e: Out) {
    e.0 < |s| && s[e.0].Data? && Edge(s[e.0], e.1) < |s| && !s[Edge(s[e.0], e.1)].Data?
  }

  /** Edges of marked tests have a number: 0, or their own number if they are leaf edges. */
  predicate NumberRight(s: Store, leaf: map<Out, nat>, numbered: seq<Out>, e: Out)
    requires e in leaf
  {
    if LeafEdge(s, e) then 1 <= leaf[e] <= |numbered| && numbered[leaf[e] - 1] == e else leaf[e] == 0
  }

  ghost predicate Numbering(s: Store, marked: set<Ref>, leaf: map<Out, nat>, numbered: seq<Out>) {
    && (forall m, br :: (m, br) in leaf <==> m in marked && m < |s| && s[m].Data?)
    && (forall e | e in leaf :: NumberRight(s, leaf, numbered, e))
    && (forall i | 0 <= i < |numbered| :: numbered[i] in leaf && leaf[numbered[i]] == i + 1)
  }

  /** A leaf edge of a newly marked test gets the next number. */
  function LeafNumber(s: Store, e: Out, n: nat): nat { if LeafEdge(s, e) then n + 1 else 0 }

  function NumberedMore(s: Store, e: Out, numbered: seq<Out>): seq<Out> { if LeafEdge(s, e) then numbered + [e] else numbered }

  lemma NumberingMore(s: Store, marked: set<Ref>, leaf: map<Out, nat>, numbered: seq<Out>, m: Ref, numbered1: seq<Out>, numbered2: seq<Out>, leaf': map<Out, nat>)
    requires Numbering(s, marked, leaf, numbered) && m !in marked && m < |s| && s[m].Data?
    requires numbered1 == NumberedMore(s, (m, false), numbered) && numbered2 == NumberedMore(s, (m, true), numbered1)
    requires leaf' == leaf[(m, false) := LeafNumber(s, (m, false), |numbered|)][(m, true) := LeafNumber(s, (m, true), |numbered1|)]
    ensures Numbering(s, marked + {m}, leaf', numbered2)
  {
    forall k, br ensures (k, br) in leaf' <==> k in marked + {m} && k < |s| && s[k].Data? {}
    forall e | e in leaf' ensures NumberRight(s, leaf', numbered2, e) {
      assert e == (m, false) || e == (m, true) || (e in leaf && NumberRight(s, leaf, numbered, e));
    }
    forall i | 0 <= i < |numbered2| ensures numbered2[i] in leaf' && leaf'[numbered2[i]] == i + 1 {
      if i < |numbered| { assert numbered2[i] == numbered[i] && numbered[i].0 in marked; }
    }
  }

  lemma NumberingOther(s: Store, marked: set<Ref>, leaf: map<Out, nat>, numbered: seq<Out>, m: Ref)
    requires Numbering(s, marked, leaf, numbered) && m < |s| && !s[m].Data?
    ensures Numbering(s, marked + {m}, leaf, numbered)
  {
    forall k, br ensures (k, br) in leaf <==> k in marked + {m} && k < |s| && s[k].Data? {
      assert (k, br) in leaf <==> k in marked && k < |s| && s[k].Data?;
    }
  }

  /** The table lists every leaf edge at its number. */
  predicate Listed(leaf: map<Out, nat>, marked: set<Ref>, edges: seq<Out>) {
    forall e | e in leaf && e.0 in marked && leaf[e] > 0 :: leaf[e] < |edges| && edges[leaf[e]] == e
  }

  /** Leaf edges below `root`, and no others, are numbered from 1 on, each once; the table
      has them by number. */
  ghost predicate EdgesNumbered(s: Store, root: Ref, leaf: map<Out, nat>, edges: seq<Out>, n: nat)
    requires Acyclic(s) && root < |s|
  {
    && |edges| == n + 1
    && (forall m: Ref, br | m < |s| && s[m].Data? && Ways(s, root, m) > 0 ::
      (m, br) in leaf && if LeafEdge(s, (m, br)) then 1 <= leaf[(m, br)] <= n && edges[leaf[(m, br)]] == (m, br) else leaf[(m, br)] == 0)
    && (forall i | 1 <= i <= n :: LeafEdge(s, edges[i]) && Ways(s, root, edges[i].0) > 0 && edges[i] in leaf && leaf[edges[i]] == i)
  }

  // ----- paths to leaf edges -----

  /** Paths that go on by one branch of `m` to the edge `e`. */
  ghost function Share(s: Store, m: Ref, br: bool, e: Out): nat
    requires Acyclic(s) && m < |s| && s[m].Data?
  {
    EdgeDown(s, m, br);
    if s[Edge(s[m], br)].Data? then Ways(s, Edge(s[m], br), e.0) else if e == (m, br) then 1 else 0
  }

  lemma SharesAdd(s: Store, m: Ref, e: Out)
    requires Acyclic(s) && m < |s| && s[m].Data? && LeafEdge(s, e)
    ensures Share(s, m, true, e) + Share(s, m, false, e) == Ways(s, m, e.0)
  {
    EdgeDown(s, m, true); EdgeDown(s, m, false);
    if m == e.0 {
      WaysHere(s, m);
      NoWayUp(s, m, true); NoWayUp(s, m, false);
      assert s[Edge(s[m], !e.1)].Data? || e != (m, !e.1);
    } else {
      WaysOn(s, m, e.0);
      ShareIs(s, m, true, e);
      ShareIs(s, m, false, e);
    }
  }

  lemma ShareIs(s: Store, m: Ref, br: bool, e: Out)
    requires Acyclic(s) && m < |s| && s[m].Data? && LeafEdge(s, e) && m != e.0
    ensures Edge(s[m], br) < |s| && Share(s, m, br, e) == Ways(s, Edge(s[m], br), e.0)
  {
    EdgeDown(s, m, br);
    if !s[Edge(s[m], br)].Data? { WaysOn(s, Edge(s[m], br), e.0); }
  }

  lemma NoWayUp(s: Store, m: Ref, br: bool)
    requires Acyclic(s) && m < |s| && s[m].Data?
    ensures Edge(s[m], br) < |s| && Ways(s, Edge(s[m], br), m) == 0
  {
    EdgeDown(s, m, br);
    var c := Edge(s[m], br);
    if Ways(s, c, m) > 0 {
      var p := SomeRoute(s, c, m);
      LeadsDown(s, c, p, m);
    }
  }

  /** For every leaf edge, the number of paths from `m` to it. */
  ghost predicate OutRight(s: Store, edges: seq<Out>, out: map<Ref, seq<nat>>, m: Ref)
    requires Acyclic(s)
  {
    && m in out && m < |s| && |out[m]| == |edges|
    && forall i | 1 <= i < |edges| :: out[m][i] == Ways(s, m, edges[i].0)
  }

  /** Every test got the number of paths to it. */
  ghost predicate CountsIn(s: Store, root: Ref, freq: seq<nat>)
    requires Acyclic(s) && root < |s|
  {
    |freq| == |s| && forall n: Ref | n < |s| && s[n].Data? :: freq[n] == Ways(s, root, n)
  }

  predicate KeptThese(ms: set<Ref>, out: map<Ref, seq<nat>>, out': map<Ref, seq<nat>>) {
    forall m | m in ms && m in out :: m in out' && out'[m] == out[m]
  }

  predicate KeptBut(out: map<Ref, seq<nat>>, out': map<Ref, seq<nat>>, to: Ref) {
    out.Keys == out'.Keys && to in out && forall m | m in out && m != to :: out'[m] == out[m]
  }

  lemma LeafShares(s: Store, root: Ref, leaf: map<Out, nat>, edges: seq<Out>, n: nat, m: Ref, br: bool, k: nat)
    requires Acyclic(s) && root < |s| && EdgesNumbered(s, root, leaf, edges, n)
    requires m < |s| && s[m].Data? && (m, br) in leaf && LeafEdge(s, (m, br)) && k == leaf[(m, br)] && 1 <= k <= n && edges[k] == (m, br)
    ensures forall i | 1 <= i < |edges| :: Share(s, m, br, edges[i]) == if i == k then 1 else 0
  {}

  /** Nodes marked in addition have their counts. */
  ghost predicate Made(s: Store, edges: seq<Out>, before: set<Ref>, after: set<Ref>, out: map<Ref, seq<nat>>)
    requires Acyclic(s)
  {
    before <= after && forall m | m in after && m !in before :: TestsClosed(s, after, m) && OutRight(s, edges, out, m)
  }

  lemma MadeNode(s: Store, edges: seq<Out>, before: set<Ref>, m: Ref, first: set<Ref>, out1: map<Ref, seq<nat>>, second: set<Ref>, out2: map<Ref, seq<nat>>)
    requires Acyclic(s) && Made(s, edges, before + {m}, first, out1) && Made(s, edges, first, second, out2)
    requires KeptThese(first - {m}, out1, out2) && TestsClosed(s, second, m) && OutRight(s, edges, out2, m)
    ensures Made(s, edges, before, second, out2)
  {
    forall k | k in second && k !in before ensures TestsClosed(s, second, k) && OutRight(s, edges, out2, k) {
      if k in first && k != m { assert TestsClosed(s, first, k) && OutRight(s, edges, out1, k); }
    }
  }

  lemma SharesComplete(s: Store, root: Ref, leaf: map<Out, nat>, edges: seq<Out>, n: nat, m: Ref, half: seq<nat>, out: seq<nat>)
    requires Acyclic(s) && root < |s| && m < |s| && s[m].Data? && EdgesNumbered(s, root, leaf, edges, n) && |half| == |out| == |edges|
    requires forall i | 1 <= i < |edges| :: half[i] == Share(s, m, false, edges[i])
    requires forall i | 1 <= i < |edges| :: out[i] == half[i] + Share(s, m, true, edges[i])
    ensures forall i | 1 <= i < |edges| :: out[i] == Ways(s, m, edges[i].0)
  {
    forall i | 1 <= i < |edges| ensures out[i] == Ways(s, m, edges[i].0) { SharesAdd(s, m, edges[i]); }
  }

  /** Only the root waits, and there is one path to it. */
  lemma StartCounted(s: Store, root: Ref, freq: seq<nat>, todo: seq<Ref>)
    requires Acyclic(s) && root < |s| && s[root].Data? && Ordered(s, root) && todo == [root]
    requires |freq| == |s| && forall m: Ref | m < |s| :: freq[m] == if m == root then 1 else 0
    ensures Counted(s, root, todo, freq, [])
  {
    forall n: Ref | n < |s| ensures Pending(s, todo, freq, n) == Ways(s, root, n) {
      assert todo[1..] == [];
      FirstPending(s, todo, freq, root, 1, 0, n);
      TimesOne(Ways(s, root, n));
    }
  }

  lemma ListedMore(s: Store, all: set<Ref>, leaf: map<Out, nat>, numbered: seq<Out>, marked: set<Ref>, edges: seq<Out>, m: Ref, edges': seq<Out>)
    requires Numbering(s, all, leaf, numbered) && Listed(leaf, marked, edges) && |edges| == |numbered| + 1
    requires (m, false) in leaf && (m, true) in leaf && leaf[(m, false)] <= |numbered| && leaf[(m, true)] <= |numbered|
    requires edges' == edges[leaf[(m, false)] := (m, false)][leaf[(m, true)] := (m, true)]
    ensures Listed(leaf, marked + {m}, edges')
  {
    forall e | e in leaf && e.0 in marked + {m} && leaf[e] > 0 ensures leaf[e] < |edges'| && edges'[leaf[e]] == e {
      assert NumberRight(s, leaf, numbered, e) && NumberRight(s, leaf, numbered, (m, false)) && NumberRight(s, leaf, numbered, (m, true));
      assert e.0 == m ==> e == (m, false) || e == (m, true);
    }
  }

  lemma AllListed(s: Store, root: Ref, all: set<Ref>, marked: set<Ref>, leaf: map<Out, nat>, numbered: seq<Out>, edges: seq<Out>)
    requires Acyclic(s) && root < |s| && Numbering(s, all, leaf, numbered) && Listed(leaf, marked, edges) && |edges| == |numbered| + 1
    requires forall n: Ref | n < |s| && s[n].Data? && (n in all || n in marked) :: n in all && n in marked && Ways(s, root, n) > 0
    requires forall n: Ref | n < |s| && s[n].Data? && Ways(s, root, n) > 0 :: n in all
    ensures EdgesNumbered(s, root, leaf, edges, |numbered|)
  {
    forall m: Ref, br | m < |s| && s[m].Data? && Ways(s, root, m) > 0
      ensures (m, br) in leaf
      ensures if LeafEdge(s, (m, br)) then 1 <= leaf[(m, br)] <= |numbered| && edges[leaf[(m, br)]] == (m, br) else leaf[(m, br)] == 0
    {
      assert m in all && NumberRight(s, leaf, numbered, (m, br));
    }
    forall i | 1 <= i <= |numbered|
      ensures LeafEdge(s, edges[i]) && Ways(s, root, edges[i].0) > 0 && edges[i] in leaf && leaf[edges[i]] == i
    {
      var e := numbered[i - 1];
      assert (e.0, e.1) == e && NumberRight(s, leaf, numbered, e);
    }
  }

  /** Every test got, for every leaf edge, the number of paths to it. */
  ghost predicate CountsOut(s: Store, root: Ref, edges: seq<Out>, out: map<Ref, seq<nat>>)
    requires Acyclic(s) && root < |s|
  {
    forall m: Ref | m < |s| && s[m].Data? && Ways(s, root, m) > 0 :: OutRight(s, edges, out, m)
  }

  /** Marked nodes are done, or above. */
  ghost predicate OutsBelow(s: Store, edges: seq<Out>, marked: set<Ref>, out: map<Ref, seq<nat>>, top: nat)
    requires Acyclic(s)
  {
    forall m {:trigger m in marked} | m in marked :: m < |s| && m in out && (Rank(s)[m] > top || OutRight(s, edges, out, m))
  }

  class Counter {
    const dag: Store

    var inFrequency: seq<nat>
    var outFrequency: map<Ref, seq<nat>>
    var todo: seq<Ref>
    ghost var popped: seq<Ref>

    var marked: set<Ref>
    var leaf: map<(Ref, bool), nat>
    var edges: seq<(Ref, bool)>
    ghost var numbered: seq<(Ref, bool)>
    var dataNodes: nat
    var actionPeers: nat
    var leafEdges: nat

    /** Nothing counted yet. */
    constructor (s: Store)
      requires Acyclic(s)
      ensures dag == s && inFrequency == seq(|s|, _ => 0) && todo == [] && popped == []
    {
      dag := s;
      inFrequency, outFrequency, todo, popped := seq(|s|, _ => 0), map[], [], [];
      marked, leaf, edges, numbered := {}, map[], [], [];
      dataNodes, actionPeers, leafEdges := 0, 0, 0;
    }

    /** Adds a node at its place, unless it is there. */
    method AddNodeTodo(node: Ref) returns (ghost at: nat)
      requires Acyclic(dag) && Worklist(dag, todo) && node < |dag| && dag[node].Data? && Ordered(dag, node)
      modifies `todo
      ensures Worklist(dag, todo)
      ensures if node in old(todo) then todo == old(todo) else Inserted(old(todo), node, at, todo)
    {
      var i := 0;
      while i < |todo|
        invariant 0 <= i <= |todo| && todo == old(todo) && node !in todo[..i]
        invariant forall k | 0 <= k < i :: !Less(KeyAt(dag[node]), KeyAt(dag[todo[k]]))
      {
        if todo[i] == node { return 0; }
        if Less(KeyAt(dag[node]), KeyAt(dag[todo[i]])) { break; }
        i := i + 1;
      }
      at := i;
      NotBehind(dag, todo, node, i);
      todo := todo[..i] + [node] + todo[i..];
      InsertedSorted(dag, old(todo), node, at, todo);
    }

    /** Passes `x` paths on to a successor, if it is a packet test. */
    method Pass(x: nat, c: Ref)
      requires Acyclic(dag) && Worklist(dag, todo) && c < |dag| && Ordered(dag, c) && |inFrequency| == |dag|
      requires c !in todo && dag[c].Data? ==> inFrequency[c] == 0
      modifies `todo, `inFrequency
      ensures Worklist(dag, todo) && Passed(dag, old(todo), old(inFrequency), x, c, todo, inFrequency)
    {
      if dag[c].Data? {
        inFrequency := inFrequency[c := inFrequency[c] + x];
        ghost var at := AddNodeTodo(c);
        if c !in old(todo) { InsertedMembers(old(todo), c, at, todo); }
        forall n: Ref | n < |dag| && dag[n].Data?
          ensures Pending(dag, todo, inFrequency, n) == Pending(dag, old(todo), old(inFrequency), n) + Times(x, Ways(dag, c, n))
        {
          SumPassed(old(todo), old(inFrequency), WaysTo(dag, n), x, c, at, todo, inFrequency);
        }
      } else {
        forall n: Ref | n < |dag| && dag[n].Data? ensures Ways(dag, c, n) == 0 && Times(x, Ways(dag, c, n)) == 0 {
          WaysOn(dag, c, n);
          TimesOf(x, 0, 0);
        }
      }
    }

    /** Visits all packet tests, lowest bits first. Each gets the number of paths that lead
        to it, once all its parents were visited. */
    method CountInFrequency(ghost root: Ref)
      requires Counted(dag, root, todo, inFrequency, popped) && ParentsFirst(dag, root, popped)
      modifies `todo, `inFrequency, `popped
      ensures |inFrequency| == |dag| && forall n: Ref | n < |dag| && dag[n].Data? :: inFrequency[n] == Ways(dag, root, n)
      ensures ParentsFirst(dag, root, popped)
      ensures forall n: Ref | n < |dag| && dag[n].Data? && Ways(dag, root, n) > 0 :: n in popped
    {
      ghost var left := set n: Ref | n < |dag| && n !in popped;
      while todo != []
        invariant Counted(dag, root, todo, inFrequency, popped) && ParentsFirst(dag, root, popped)
        invariant left == set n: Ref | n < |dag| && n !in popped
        decreases left
      {
        var node := todo[0];
        PoppedInOrder(dag, root, todo, inFrequency, popped);
        assert node in left && node !in popped;
        left := left - {node};
        Visit(root, node);
      }
    }

    method PassBoth(x: nat, f: Ref, t: Ref) returns (ghost todo1: seq<Ref>, ghost freq1: seq<nat>)
      requires Acyclic(dag) && Worklist(dag, todo) && |inFrequency| == |dag|
      requires f < |dag| && Ordered(dag, f) && (f !in todo && dag[f].Data? ==> inFrequency[f] == 0)
      requires t < |dag| && Ordered(dag, t) && (t !in todo && dag[t].Data? ==> inFrequency[t] == 0)
      modifies `todo, `inFrequency
      ensures Worklist(dag, todo) && Passed(dag, old(todo), old(inFrequency), x, f, todo1, freq1)
      ensures Passed(dag, todo1, freq1, x, t, todo, inFrequency)
    {
      Pass(x, f);
      todo1, freq1 := todo, inFrequency;
      Pass(x, t);
    }

    /** Takes the first node from the list and passes its paths on. */
    method Visit(ghost root: Ref, node: Ref)
      requires Counted(dag, root, todo, inFrequency, popped) && todo != [] && node == todo[0]
      modifies `todo, `inFrequency, `popped
      ensures Counted(dag, root, todo, inFrequency, popped) && popped == old(popped) + [node]
    {
      ghost var todo0, freq0, x := todo, inFrequency, inFrequency[node];
      PassReady(dag, root, todo, inFrequency, popped, dag[node].f, false);
      PassReady(dag, root, todo, inFrequency, popped, dag[node].t, true);
      RestWaiting(dag, todo);
      todo := todo[1..];
      ghost var rest := todo;
      ghost var todo1, freq1 := PassBoth(inFrequency[node], dag[node].f, dag[node].t);
      PassedBoth(dag, root, todo0, freq0, popped, node, x, rest, todo1, freq1, todo, inFrequency);
      popped := popped + [node];
    }

    // ----- numbering leaf edges -----

    /** Numbers the leaf edges at and below `node`, and counts tests and what follows
        them, each once. */
    method NumberLeafEdgesInDag(ghost root: Ref, node: Ref, ghost top: nat)
      requires Acyclic(dag) && root < |dag| && node < |dag| && Ways(dag, root, node) > 0
      requires DoneBelow(dag, marked, top) && Rank(dag)[node] <= top && Numbers(root)
      modifies `marked, `leaf, `numbered, `leafEdges, `dataNodes, `actionPeers
      ensures Grown(dag, old(marked), marked) && node in marked && Numbers(root)
      decreases Rank(dag)[node]
    {
      if node in marked { return; }
      ghost var marked0 := marked;
      Mark(root, node);
      if !dag[node].Data? { return; }
      EdgeDown(dag, node, false); EdgeDown(dag, node, true);
      EnterDone(dag, marked0, node, top);
      WaysExtend(dag, root, node, false);
      NumberLeafEdgesInDag(root, dag[node].f, Rank(dag)[node] - 1);
      ghost var first := marked;
      GrownDone(dag, marked0 + {node}, first, Rank(dag)[node] - 1);
      WaysExtend(dag, root, node, true);
      NumberLeafEdgesInDag(root, dag[node].t, Rank(dag)[node] - 1);
      GrownNode(dag, marked0, node, first, marked);
    }

    /** Marks and counts a node, and numbers its edges. */
    method Mark(ghost root: Ref, node: Ref)
      requires Acyclic(dag) && root < |dag| && node < |dag| && Ways(dag, root, node) > 0 && node !in marked && Numbers(root)
      modifies `marked, `leaf, `numbered, `leafEdges, `dataNodes, `actionPeers
      ensures marked == old(marked) + {node} && Numbers(root)
    {
      ghost var marked0 := marked;
      TalliedMore(dag, marked, dataNodes, actionPeers, node);
      marked := marked + {node};
      if dag[node].Data? {
        dataNodes := dataNodes + 1;
        EdgeDown(dag, node, false); EdgeDown(dag, node, true);
        NumberEdges(marked0, node);
      } else {
        actionPeers := actionPeers + 1;
        NumberingOther(dag, marked0, leaf, numbered, node);
      }
    }

    /** Edges of what is marked are numbered, and it is counted. */
    ghost predicate Numbers(root: Ref)
      requires Acyclic(dag) && root < |dag|
      reads this
    {
      && AllReached(dag, root, marked) && Numbering(dag, marked, leaf, numbered) && leafEdges == |numbered|
      && Tallied(dag, marked, dataNodes, actionPeers)
    }

    method NumberEdges(ghost before: set<Ref>, node: Ref)
      requires node < |dag| && dag[node].Data? && dag[node].f < |dag| && dag[node].t < |dag| && node !in before
      requires Numbering(dag, before, leaf, numbered) && leafEdges == |numbered|
      modifies `leaf, `numbered, `leafEdges
      ensures Numbering(dag, before + {node}, leaf, numbered) && leafEdges == |numbered|
    {
      ghost var leaf0, numbered0 := leaf, numbered;
      if dag[dag[node].f].Data? {
        leaf := leaf[(node, false) := 0];
      } else {
        leafEdges := leafEdges + 1;
        leaf := leaf[(node, false) := leafEdges];
        numbered := numbered + [(node, false)];
      }
      ghost var numbered1 := numbered;
      if dag[dag[node].t].Data? {
        leaf := leaf[(node, true) := 0];
      } else {
        leafEdges := leafEdges + 1;
        leaf := leaf[(node, true) := leafEdges];
        numbered := numbered + [(node, true)];
      }
      NumberingMore(dag, before, leaf0, numbered0, node, numbered1, numbered, leaf);
    }

    /** Enters the leaf edges at and below `node` in the table. */
    method RegisterLeafEdgesInDag(ghost all: set<Ref>, node: Ref)
      requires Acyclic(dag) && node < |dag| && (forall m | m in all :: Closed(dag, all, m))
      requires TestsBelow(dag, marked, Rank(dag)[node]) && Numbering(dag, all, leaf, numbered)
      requires node in all && marked <= all && Listed(leaf, marked, edges) && |edges| == |numbered| + 1
      modifies `marked, `edges
      ensures old(marked) <= marked <= all && (dag[node].Data? ==> node in marked)
      ensures forall m | m in marked && m !in old(marked) :: TestsClosed(dag, marked, m)
      ensures Listed(leaf, marked, edges) && |edges| == |numbered| + 1
      decreases Rank(dag)[node]
    {
      if node in marked || !dag[node].Data? { return; }
      assert Closed(dag, all, node);
      EdgeDown(dag, node, false); EdgeDown(dag, node, true);
      ghost var marked0, edges0 := marked, edges;
      marked := marked + {node};
      assert (node, false) in leaf && (node, true) in leaf;
      assert NumberRight(dag, leaf, numbered, (node, false)) && NumberRight(dag, leaf, numbered, (node, true));
      edges := edges[leaf[(node, false)] := (node, false)];
      edges := edges[leaf[(node, true)] := (node, true)];
      ListedMore(dag, all, leaf, numbered, marked0, edges0, node, edges);
      RegisterLeafEdgesInDag(all, dag[node].f);
      RegisterLeafEdgesInDag(all, dag[node].t);
    }

    /** Numbers all leaf edges and lists them. */
    method NumberLeafEdges(root: Ref)
      requires Acyclic(dag) && root < |dag| && dag[root].Data?
      modifies `marked, `leaf, `numbered, `edges, `dataNodes, `actionPeers, `leafEdges
      ensures EdgesNumbered(dag, root, leaf, edges, leafEdges)
      ensures dataNodes == |set m: Ref | m < |dag| && dag[m].Data? && Ways(dag, root, m) > 0|
      ensures actionPeers == |set m: Ref | m < |dag| && !dag[m].Data? && Ways(dag, root, m) > 0|
    {
      ghost var all := NumberAll(root);
      Register(root, all);
    }

    method NumberAll(root: Ref) returns (ghost all: set<Ref>)
      requires Acyclic(dag) && root < |dag| && dag[root].Data?
      modifies `marked, `leaf, `numbered, `leafEdges, `dataNodes, `actionPeers
      ensures Numbering(dag, all, leaf, numbered) && leafEdges == |numbered|
      ensures (forall m | m in all :: Closed(dag, all, m)) && root in all && forall n: Ref | n < |dag| :: n in all <==> Ways(dag, root, n) > 0
      ensures dataNodes == |set m: Ref | m < |dag| && dag[m].Data? && Ways(dag, root, m) > 0|
      ensures actionPeers == |set m: Ref | m < |dag| && !dag[m].Data? && Ways(dag, root, m) > 0|
    {
      dataNodes, actionPeers, leafEdges := 0, 0, 0;
      leaf, numbered := map[], [];
      marked := {};
      WaysHere(dag, root);
      assert MarkedTests(dag, {}) == {} && MarkedOthers(dag, {}) == {};
      NumberLeafEdgesInDag(root, root, Rank(dag)[root]);
      all := marked;
      MarkedAll(dag, all, root);
      assert MarkedTests(dag, all) == set m: Ref | m < |dag| && dag[m].Data? && Ways(dag, root, m) > 0;
      assert MarkedOthers(dag, all) == set m: Ref | m < |dag| && !dag[m].Data? && Ways(dag, root, m) > 0;
    }

    method Register(root: Ref, ghost all: set<Ref>)
      requires Acyclic(dag) && root < |dag| && dag[root].Data? && Numbering(dag, all, leaf, numbered) && leafEdges == |numbered|
      requires (forall m | m in all :: Closed(dag, all, m)) && root in all && forall n: Ref | n < |dag| :: n in all <==> Ways(dag, root, n) > 0
      modifies `marked, `edges
      ensures EdgesNumbered(dag, root, leaf, edges, leafEdges)
    {
      edges := seq(leafEdges + 1, _ => (root, false));
      marked := {};
      RegisterLeafEdgesInDag(all, root);
      assert AllReached(dag, root, marked);
      TestsAll(dag, marked, root);
      AllListed(dag, root, all, marked, leaf, numbered, edges);
    }

    // ----- counting paths to leaf edges -----

    method AddFrequencies(to: Ref, from: Ref)
      requires to in outFrequency && from in outFrequency && to != from
      requires |outFrequency[to]| == |outFrequency[from]| == leafEdges + 1
      modifies `outFrequency
      ensures KeptBut(old(outFrequency), outFrequency, to) && |outFrequency[to]| == leafEdges + 1
      ensures forall i | 0 <= i <= leafEdges :: outFrequency[to][i] == old(outFrequency)[to][i] + outFrequency[from][i]
    {
      for i := 0 to leafEdges + 1
        invariant KeptBut(old(outFrequency), outFrequency, to) && |outFrequency[to]| == leafEdges + 1
        invariant forall k | 0 <= k < i :: outFrequency[to][k] == old(outFrequency)[to][k] + outFrequency[from][k]
        invariant forall k | i <= k <= leafEdges :: outFrequency[to][k] == old(outFrequency)[to][k]
      {
        outFrequency := outFrequency[to := outFrequency[to][i := outFrequency[to][i] + outFrequency[from][i]]];
      }
    }

    /** Adds the paths that go by one branch. */
    method AddShare(ghost root: Ref, node: Ref, br: bool)
      requires Acyclic(dag) && root < |dag| && node < |dag| && dag[node].Data? && Ways(dag, root, node) > 0
      requires EdgesNumbered(dag, root, leaf, edges, leafEdges) && CountsIn(dag, root, inFrequency)
      requires Open(node) && |outFrequency[node]| == |edges| && AllReached(dag, root, marked)
      modifies `marked, `outFrequency
      ensures AllReached(dag, root, marked) && KeptThese(old(marked) - {node}, old(outFrequency), outFrequency)
      ensures Made(dag, edges, old(marked), marked, outFrequency) && Open(node)
      ensures Edge(dag[node], br) < |dag| && (dag[Edge(dag[node], br)].Data? ==> Edge(dag[node], br) in marked)
      ensures node in outFrequency && |outFrequency[node]| == |edges|
      ensures forall i | 1 <= i < |edges| :: outFrequency[node][i] == old(outFrequency)[node][i] + Share(dag, node, br, edges[i])
      decreases Rank(dag)[node], 0
    {
      EdgeDown(dag, node, br);
      WaysExtend(dag, root, node, br);
      var child := Edge(dag[node], br);
      assert (node, br) in leaf && (LeafEdge(dag, (node, br)) <==> leaf[(node, br)] != 0);
      if leaf[(node, br)] != 0 {
        var k := leaf[(node, br)];
        outFrequency := outFrequency[node := outFrequency[node][k := outFrequency[node][k] + 1]];
        LeafShares(dag, root, leaf, edges, leafEdges, node, br, k);
      } else {
        CountOutFrequency(root, child);
        AddFrequencies(node, child);
      }
    }

    /** A node marked, whose counts are being made. */
    ghost predicate Open(node: Ref)
      requires Acyclic(dag) && node < |dag|
      reads this
    {
      && node in marked && node in outFrequency
      && forall m {:trigger m in marked} | m in marked && m != node ::
        m < |dag| && dag[m].Data? && m in outFrequency && (Rank(dag)[m] >= Rank(dag)[node] || (TestsClosed(dag, marked, m) && OutRight(dag, edges, outFrequency, m)))
    }

    /** For each leaf edge, counts the paths from `node` to it, once for each node. */
    method CountOutFrequency(ghost root: Ref, node: Ref)
      requires Acyclic(dag) && root < |dag| && node < |dag| && dag[node].Data? && Ways(dag, root, node) > 0
      requires EdgesNumbered(dag, root, leaf, edges, leafEdges) && CountsIn(dag, root, inFrequency)
      requires TestsBelow(dag, marked, Rank(dag)[node]) && OutsBelow(dag, edges, marked, outFrequency, Rank(dag)[node])
      requires AllReached(dag, root, marked)
      modifies `marked, `outFrequency
      ensures node in marked && AllReached(dag, root, marked) && KeptThese(old(marked), old(outFrequency), outFrequency)
      ensures Made(dag, edges, old(marked), marked, outFrequency)
      ensures OutRight(dag, edges, outFrequency, node)
      decreases Rank(dag)[node], 1
    {
      if node in marked { return; }
      assert inFrequency[node] != 0;
      marked := marked + {node};
      outFrequency := outFrequency[node := seq(leafEdges + 1, _ => 0)];
      AddShare(root, node, false);
      ghost var first, out1 := marked, outFrequency;
      AddShare(root, node, true);
      SharesComplete(dag, root, leaf, edges, leafEdges, node, out1[node], outFrequency[node]);
      MadeNode(dag, edges, old(marked), node, first, out1, marked, outFrequency);
    }

    /** Counts paths to every test, then from every test to the leaf edges. */
    method CountFrequencies(root: Ref)
      requires Acyclic(dag) && root < |dag| && dag[root].Data? && Ordered(dag, root)
      requires EdgesNumbered(dag, root, leaf, edges, leafEdges)
      requires inFrequency == seq(|dag|, _ => 0) && todo == [] && popped == [] && outFrequency == map[]
      modifies `inFrequency, `outFrequency, `todo, `popped, `marked
      ensures CountsIn(dag, root, inFrequency) && CountsOut(dag, root, edges, outFrequency)
      ensures ParentsFirst(dag, root, popped)
      ensures forall m: Ref | m < |dag| && dag[m].Data? && Ways(dag, root, m) > 0 :: m in popped
    {
      inFrequency := inFrequency[root := 1];
      ghost var at := AddNodeTodo(root);
      StartCounted(dag, root, inFrequency, todo);
      CountInFrequency(root);
      marked := {};
      WaysHere(dag, root);
      CountOutFrequency(root, root);
      TestsAll(dag, marked, root);
    }

    /** What is counted in each round: leaf edges, the paths to each test, and the paths from
        it to each leaf edge. Multiplied, they are the paths to the edge by way of the test. */
    method CountPaths(root: Ref)
      requires Acyclic(dag) && root < |dag| && dag[root].Data? && Ordered(dag, root)
      requires inFrequency == seq(|dag|, _ => 0) && todo == [] && popped == [] && outFrequency == map[]
      modifies this
      ensures EdgesNumbered(dag, root, leaf, edges, leafEdges)
      ensures CountsIn(dag, root, inFrequency) && CountsOut(dag, root, edges, outFrequency)
      ensures forall m: Ref, i | m < |dag| && dag[m].Data? && Ways(dag, root, m) > 0 && 1 <= i <= leafEdges ::
        inFrequency[m] * outFrequency[m][i] == |Through(dag, root, m, edges[i].0)|
    {
      NumberLeafEdges(root);
      CountFrequencies(root);
      forall m: Ref, i | m < |dag| && dag[m].Data? && Ways(dag, root, m) > 0 && 1 <= i <= leafEdges
        ensures inFrequency[m] * outFrequency[m][i] == |Through(dag, root, m, edges[i].0)|
      {
        ThroughProduct(dag, root, m, edges[i].0);
        assert OutRight(dag, edges, outFrequency, m);
        SameProduct(inFrequency[m], outFrequency[m][i], Ways(dag, root, m), Ways(dag, m, edges[i].0));
      }
    }
  }

  /** A node lower than one in the list is not behind it. */
  lemma NotBehind(s: Store, todo: seq<Ref>, node: Ref, i: nat)
    requires Acyclic(s) && Worklist(s, todo) && node < |s| && s[node].Data? && i <= |todo| && node !in todo[..i]
    requires i < |todo| ==> Less(KeyAt(s[node]), KeyAt(s[todo[i]]))
    ensures node !in todo
  {
    forall k | 0 <= k < |todo| ensures todo[k] != node {
      if k < i { assert todo[..i][k] == todo[k]; }
      else if k > i { assert !Less(KeyAt(s[todo[k]]), KeyAt(s[todo[i]])); }
    }
  }

  lemma InsertedSorted(s: Store, todo: seq<Ref>, node: Ref, i: nat, todo': seq<Ref>)
    requires Acyclic(s) && Worklist(s, todo) && node < |s| && s[node].Data? && Ordered(s, node) && node !in todo
    requires Inserted(todo, node, i, todo')
    requires forall k | 0 <= k < i :: !Less(KeyAt(s[node]), KeyAt(s[todo[k]]))
    requires i < |todo| ==> Less(KeyAt(s[node]), KeyAt(s[todo[i]]))
    ensures Worklist(s, todo')
  {
    forall k | 0 <= k < |todo'| ensures todo'[k] < |s| && s[todo'[k]].Data? && Ordered(s, todo'[k]) {
      assert todo'[k] == if k < i then todo[k] else if k == i then node else todo[k - 1];
    }
    InsertedDistinct(todo, node, i, todo');
    InsertedRising(s, todo, node, i, todo');
  }

  lemma InsertedMembers(todo: seq<Ref>, node: Ref, i: nat, todo': seq<Ref>)
    requires Inserted(todo, node, i, todo')
    ensures forall m :: m in todo' <==> m in todo || m == node
  {
    assert todo == todo[..i] + todo[i..];
  }

  lemma InsertedDistinct(todo: seq<Ref>, node: Ref, i: nat, todo': seq<Ref>)
    requires Distinct(todo) && node !in todo && Inserted(todo, node, i, todo')
    ensures Distinct(todo')
  {
    assert forall k | 0 <= k < |todo'| :: todo'[k] == if k < i then todo[k] else if k == i then node else todo[k - 1];
  }

  lemma InsertedRising(s: Store, todo: seq<Ref>, node: Ref, i: nat, todo': seq<Ref>)
    requires AllData(s, todo) && Rising(s, todo) && node < |s| && s[node].Data? && Inserted(todo, node, i, todo') && AllData(s, todo')
    requires forall k | 0 <= k < i :: !Less(KeyAt(s[node]), KeyAt(s[todo[k]]))
    requires i < |todo| ==> Less(KeyAt(s[node]), KeyAt(s[todo[i]]))
    ensures Rising(s, todo')
  {
    forall a, b | 0 <= a < b < |todo'| ensures !Less(KeyAt(s[todo'[b]]), KeyAt(s[todo'[a]])) {
      if b < i {
        assert todo'[a] == todo[a] && todo'[b] == todo[b];
      } else if a > i {
        assert todo'[a] == todo[a - 1] && todo'[b] == todo[b - 1];
      } else if b == i {
        assert todo'[a] == todo[a] && todo'[b] == node;
      } else {
        assert todo'[b] == todo[b - 1];
        assert b - 1 > i ==> !Less(KeyAt(s[todo[b - 1]]), KeyAt(s[todo[i]]));
        assert a < i ==> todo'[a] == todo[a] && !Less(KeyAt(s[todo[b - 1]]), KeyAt(s[todo[a]]));
      }
    }
  }

  lemma RestWaiting(s: Store, todo: seq<Ref>)
    requires Acyclic(s) && Worklist(s, todo) && todo != []
    ensures Worklist(s, todo[1..]) && todo[0] !in todo[1..]
  {
    assert forall i | 0 <= i < |todo[1..]| :: todo[1..][i] == todo[i + 1];
  }

  /** The successors of the first node may be passed its paths. */
  lemma PassReady(s: Store, root: Ref, todo: seq<Ref>, freq: seq<nat>, popped: seq<Ref>, c: Ref, br: bool)
    requires Counted(s, root, todo, freq, popped) && todo != [] && c == Edge(s[todo[0]], br)
    ensures c < |s| && Ordered(s, c) && c != todo[0] && (s[c].Data? && c !in todo ==> freq[c] == 0)
  {
    var n0 := todo[0];
    assert n0 in todo;
    EdgeDown(s, n0, br);
    if s[c].Data? && c in popped { assert false; }
  }
}