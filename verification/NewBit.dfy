/** Sorting a decision graph by splitting it on one packet bit after the other. */
module NewBit {
  import opened Semantics
  import opened Graph
  import opened Static
  import opened Repeats
  import opened BitFsm

  // ----- the sorted list of bits -----

  /** `compare_bit` on packet bits: by offset group, then by number. */
  predicate Less(a: Key, b: Key) { a.0 < b.0 || (a.0 == b.0 && a.1 < b.1) }

  predicate SortedBits(bits: seq<Key>) { forall i, j | 0 <= i < j < |bits| :: Less(bits[i], bits[j]) }

  /** Adds a bit at its place unless it is there. */
  method StoreBit(bits: seq<Key>, bit: Key) returns (bits': seq<Key>)
    requires SortedBits(bits)
    ensures SortedBits(bits') && forall k :: k in bits' <==> k in bits || k == bit
  {
    var i := 0;
    while i < |bits| && Less(bits[i], bit)
      invariant 0 <= i <= |bits|
      invariant forall k | 0 <= k < i :: Less(bits[k], bit)
    {
      i := i + 1;
    }
    if i < |bits| && bits[i] == bit { return bits; }
    bits' := bits[..i] + [bit] + bits[i..];
    forall k ensures k in bits' <==> k in bits || k == bit {
      assert bits == bits[..i] + bits[i..];
    }
    forall a, b | 0 <= a < b < |bits'| ensures Less(bits'[a], bits'[b]) {
      if b > i { assert bits'[b] == bits[b - 1]; }
    }
  }

  // ----- packets with one bit given -----

  function Given(env: Env, key: Key, v: bool): Env {
    Env((g, n) => if (g, n) == key then v else env.bit(g, n), env.conf)
  }

  /** Is the bit tested anywhere at or below `r`? */
  ghost predicate Mentions(s: Store, r: Ref, key: Key)
    requires Acyclic(s) && r < |s|
    decreases Rank(s)[r]
  {
    key in Tests(s[r]) || exists br | HasEdge(s[r], br) :: (EdgeDown(s, r, br); Mentions(s, Edge(s[r], br), key))
  }

  lemma MentionsEdge(s: Store, r: Ref, key: Key, br: bool)
    requires Acyclic(s) && r < |s| && !Mentions(s, r, key) && HasEdge(s[r], br)
    ensures Edge(s[r], br) < |s| && !Mentions(s, Edge(s[r], br), key)
  {
    EdgeDown(s, r, br);
  }

  /** A bit never asked for may be given any value. */
  lemma {:induction false} UnmentionedRun(s: Store, r: Ref, key: Key, v: bool, env: Env, h: Hist)
    requires Acyclic(s) && r < |s| && !Mentions(s, r, key)
    ensures Run(s, r, Given(env, key, v), h) == Run(s, r, env, h)
    decreases Rank(s)[r]
  {
    if !s[r].Leaf? && !s[r].Null? {
      var br := Takes(s[r], env, h);
      assert Takes(s[r], Given(env, key, v), h) == br;
      MentionsEdge(s, r, key, br);
      EdgeDown(s, r, br);
      UnmentionedRun(s, Edge(s[r], br), key, v, env, After(s[r], h));
    }
  }

  lemma {:induction false} AppendMentions(s: Store, n: Node, r: Ref, key: Key)
    requires Acyclic(s) && Acyclic(s + [n]) && r < |s|
    ensures Mentions(s + [n], r, key) <==> Mentions(s, r, key)
    decreases Rank(s)[r]
  {
    if HasEdge(s[r], true) { EdgeDown(s, r, true); EdgeDown(s + [n], r, true); AppendMentions(s, n, s[r].t, key); }
    if HasEdge(s[r], false) { EdgeDown(s, r, false); EdgeDown(s + [n], r, false); AppendMentions(s, n, s[r].f, key); }
  }

  /** New nodes leave the old ones' tests alone. */
  ghost predicate SameMentions(s: Store, s': Store) {
    Acyclic(s) && Acyclic(s') && s <= s' && Preserves(s, s')
    && forall r: Ref, key :: r < |s| ==> (Mentions(s', r, key) <==> Mentions(s, r, key))
  }

  lemma SameMentionsTrans(a: Store, b: Store, c: Store)
    requires SameMentions(a, b) && SameMentions(b, c)
    ensures SameMentions(a, c)
  {
    PreservesTrans(a, b, c);
    forall r: Ref, key | r < |a| ensures Mentions(c, r, key) <==> Mentions(a, r, key) {
      assert Mentions(b, r, key) <==> Mentions(a, r, key);
    }
  }

  method NewNode(dag: Fsm, n: Node, ghost top: nat) returns (r: Ref)
    requires dag.Valid() && EdgesWithin(n, |dag.store|)
    requires forall br :: HasEdge(n, br) ==> dag.rank[Edge(n, br)] < top
    modifies dag`store, dag`rank
    ensures dag.Valid() && r == |old(dag.store)| && dag.store == old(dag.store) + [n] && dag.rank == old(dag.rank) + [top]
    ensures SameMentions(old(dag.store), dag.store)
  {
    r := dag.Alloc(n, top);
    forall x: Ref, key | x < |old(dag.store)| ensures Mentions(dag.store, x, key) <==> Mentions(old(dag.store), x, key) {
      AppendMentions(old(dag.store), n, x, key);
    }
  }

  // ----- searching -----

  /** A marked node has been searched, or is above the one being searched. */
  ghost predicate Searched(s: Store, rk: seq<nat>, marked: set<Ref>, key: Key, top: nat)
    requires Acyclic(s) && |rk| == |s|
  {
    forall m {:trigger m in marked} | m in marked :: m < |s| && (rk[m] > top || !Mentions(s, m, key))
  }

  /** Looks for a test of the bit below `root`, never twice below the same node. */
  method FindBit(dag: Fsm, key: Key, root: Ref, marked: set<Ref>) returns (found: bool, marked': set<Ref>)
    requires dag.Valid() && root < |dag.store|
    requires Searched(dag.store, dag.rank, marked, key, dag.rank[root])
    ensures found ==> Mentions(dag.store, root, key)
    ensures !found ==> !Mentions(dag.store, root, key) && marked <= marked'
    ensures !found ==> forall m :: m in marked' ==> m in marked || (m < |dag.store| && !Mentions(dag.store, m, key))
    decreases dag.rank[root]
  {
    var s := dag.store;
    if key in Tests(s[root]) { return true, marked; }
    if root in marked { return false, marked; }
    marked' := marked;
    found := false;
    if HasEdge(s[root], false) {
      EdgeDown(s, root, false);
      assert Below(s, dag.rank, root, false);
      found, marked' := FindBit(dag, key, s[root].f, marked' + {root});
      if found { return; }
    }
    if HasEdge(s[root], true) {
      EdgeDown(s, root, true);
      assert Below(s, dag.rank, root, true);
      found, marked' := FindBit(dag, key, s[root].t, marked' + {root});
      if found { return; }
    }
    marked' := marked' + {root};
    assert !Mentions(s, root, key);
  }

  // ----- cofactors -----

  /** `x` is what is left of `r` for packets with the bit so given. */
  ghost predicate Cofactor(s: Store, r: Ref, x: Ref, key: Key, v: bool) {
    && Acyclic(s) && r < |s| && x < |s|
    && !Mentions(s, x, key)
    && (forall k :: Mentions(s, x, k) ==> Mentions(s, r, k))
    && (forall env, h :: Run(s, x, env, h) == Run(s, r, Given(env, key, v), h))
  }

  lemma CofactorLater(s: Store, s': Store, r: Ref, x: Ref, key: Key, v: bool)
    requires Cofactor(s, r, x, key, v) && SameMentions(s, s')
    ensures Cofactor(s', r, x, key, v)
  {
    forall env, h ensures Run(s', x, env, h) == Run(s', r, Given(env, key, v), h) {
      assert Run(s', x, env, h) == Run(s, x, env, h);
      assert Run(s', r, Given(env, key, v), h) == Run(s, r, Given(env, key, v), h);
    }
  }

  ghost predicate Memo(s: Store, rk: seq<nat>, self: map<Ref, Ref>, key: Key, v: bool) {
    |rk| == |s| && forall m {:trigger m in self} | m in self ::
      Cofactor(s, m, self[m], key, v) && rk[self[m]] <= rk[m]
  }

  lemma MemoLater(s: Store, rk: seq<nat>, s': Store, rk': seq<nat>, self: map<Ref, Ref>, key: Key, v: bool)
    requires Memo(s, rk, self, key, v) && SameMentions(s, s') && rk <= rk' && |rk'| == |s'|
    ensures Memo(s', rk', self, key, v)
  {
    forall m | m in self ensures Cofactor(s', m, self[m], key, v) && rk'[self[m]] <= rk'[m] {
      CofactorLater(s, s', m, self[m], key, v);
    }
  }

  /** The node that tests the bit gives way to the branch taken. */
  lemma CofactorTest(s: Store, r: Ref, x: Ref, key: Key, v: bool)
    requires Acyclic(s) && r < |s| && s[r].Data? && (s[r].group, s[r].bit) == key
    requires Edge(s[r], v) < |s| && Cofactor(s, Edge(s[r], v), x, key, v)
    ensures Cofactor(s, r, x, key, v)
  {
    EdgeDown(s, r, v);
    forall env, h ensures Run(s, x, env, h) == Run(s, r, Given(env, key, v), h) {
      assert Run(s, r, Given(env, key, v), h) == Run(s, Edge(s[r], v), Given(env, key, v), h);
    }
  }

  /** Any other node asks the same and goes on to the cofactors. */
  lemma CofactorNode(s: Store, r: Ref, x: Ref, key: Key, v: bool)
    requires Acyclic(s) && r < |s| && x < |s| && SameTest(s[x], s[r]) && key !in Tests(s[r])
    requires forall br :: HasEdge(s[r], br) ==>
      Edge(s[r], br) < |s| && Cofactor(s, Edge(s[r], br), Edge(s[x], br), key, v)
    ensures Cofactor(s, r, x, key, v)
  {
    forall k | Mentions(s, x, k) ensures Mentions(s, r, k) && k != key {
      if k !in Tests(s[x]) {
        var br :| HasEdge(s[x], br) && (EdgeDown(s, x, br); Mentions(s, Edge(s[x], br), k));
        assert Cofactor(s, Edge(s[r], br), Edge(s[x], br), key, v);
        EdgeDown(s, r, br);
      }
    }
    forall env, h ensures Run(s, x, env, h) == Run(s, r, Given(env, key, v), h) {
      if !s[r].Leaf? && !s[r].Null? {
        var br := Takes(s[r], env, h);
        assert Takes(s[r], Given(env, key, v), h) == br;
        EdgeDown(s, r, br); EdgeDown(s, x, br);
        assert Cofactor(s, Edge(s[r], br), Edge(s[x], br), key, v);
      }
    }
  }

  /** The cofactor of `node`, sharing whatever does not mention the bit and building
      each changed node once. */
  method ReduceDag(dag: Fsm, key: Key, v: bool, node: Ref, self: map<Ref, Ref>) returns (x: Ref, self': map<Ref, Ref>)
    requires dag.Valid() && node < |dag.store| && Memo(dag.store, dag.rank, self, key, v)
    modifies dag`store, dag`rank
    ensures dag.Valid() && old(dag.rank) <= dag.rank && SameMentions(old(dag.store), dag.store)
    ensures Cofactor(dag.store, node, x, key, v) && dag.rank[x] <= dag.rank[node]
    ensures Memo(dag.store, dag.rank, self', key, v)
    decreases dag.rank[node]
  {
    if node in self { return self[node], self; }
    ghost var s0 := dag.store;
    if key in Tests(dag.store[node]) {
      EdgeDown(dag.store, node, v);
      assert Below(dag.store, dag.rank, node, v);
      x, self' := ReduceDag(dag, key, v, Edge(dag.store[node], v), self);
      CofactorTest(dag.store, node, x, key, v);
      return;
    }
    var n := dag.store[node];
    self' := self;
    assert Below(s0, dag.rank, node, true) && Below(s0, dag.rank, node, false);
    var t, f := node, node;
    if HasEdge(n, true) { t, self' := ReduceDag(dag, key, v, Edge(n, true), self'); }
    ghost var s1 := dag.store;
    if HasEdge(n, false) { f, self' := ReduceDag(dag, key, v, Edge(n, false), self'); }
    ghost var s2 := dag.store;
    SameMentionsTrans(s0, s1, s2);
    if HasEdge(n, true) { CofactorLater(s1, s2, Edge(n, true), t, key, v); }
    x := CofactorOf(dag, key, v, node, t, f, self');
    self' := self'[node := x];
    SameMentionsTrans(s0, s2, dag.store);
  }

  /** The node itself if its successors are what they were, or else a new one. */
  method CofactorOf(dag: Fsm, key: Key, v: bool, node: Ref, t: Ref, f: Ref, ghost self: map<Ref, Ref>) returns (x: Ref)
    requires dag.Valid() && node < |dag.store| && Memo(dag.store, dag.rank, self, key, v)
    requires key !in Tests(dag.store[node])
    requires HasEdge(dag.store[node], true) ==>
      Cofactor(dag.store, Edge(dag.store[node], true), t, key, v) && dag.rank[t] < dag.rank[node]
    requires HasEdge(dag.store[node], false) ==>
      Cofactor(dag.store, Edge(dag.store[node], false), f, key, v) && dag.rank[f] < dag.rank[node]
    modifies dag`store, dag`rank
    ensures dag.Valid() && old(dag.rank) <= dag.rank && SameMentions(old(dag.store), dag.store)
    ensures Cofactor(dag.store, node, x, key, v) && dag.rank[x] <= dag.rank[node]
    ensures Memo(dag.store, dag.rank, self[node := x], key, v)
  {
    var n := dag.store[node];
    if (HasEdge(n, true) ==> t == Edge(n, true)) && (HasEdge(n, false) ==> f == Edge(n, false)) {
      x := node;
      CofactorNode(dag.store, node, x, key, v);
    } else {
      var m := if HasEdge(n, false) then SetEdge(SetEdge(n, true, t), false, f) else SetEdge(n, true, t);
      x := NewNode(dag, m, dag.rank[node]);
      if HasEdge(n, true) { CofactorLater(old(dag.store), dag.store, Edge(n, true), t, key, v); }
      if HasEdge(n, false) { CofactorLater(old(dag.store), dag.store, Edge(n, false), f, key, v); }
      CofactorNode(dag.store, node, x, key, v);
      MemoLater(old(dag.store), old(dag.rank), dag.store, dag.rank, self, key, v);
    }
  }

  // ----- sorting -----

  /** Tests come in strictly increasing order on every path, lead to different nodes
      and are above all meters. */
  ghost predicate Ordered(s: Store, r: Ref)
    requires Acyclic(s) && r < |s|
    decreases Rank(s)[r]
  {
    if s[r].Data? then
      s[r].t != s[r].f
      && forall br :: (EdgeDown(s, r, br);
           var c := Edge(s[r], br);
           Ordered(s, c) && (s[c].Data? ==> Less((s[r].group, s[r].bit), (s[c].group, s[c].bit))))
    else NoData(s, r)
  }

  lemma {:induction false} ExtendOrdered(s: Store, s': Store, r: Ref)
    requires Acyclic(s) && Acyclic(s') && s <= s' && r < |s|
    ensures NoData(s, r) ==> NoData(s', r)
    ensures Ordered(s, r) ==> Ordered(s', r)
    decreases Rank(s)[r]
  {
    forall br | HasEdge(s[r], br)
      ensures Edge(s[r], br) < |s| && (NoData(s, r) ==> NoData(s', Edge(s[r], br))) && (Ordered(s, Edge(s[r], br)) ==> Ordered(s', Edge(s[r], br)))
    {
      EdgeDown(s, r, br); EdgeDown(s', r, br);
      ExtendOrdered(s, s', Edge(s[r], br));
    }
  }

  /** Only these bits are tested. */
  ghost predicate Only(s: Store, r: Ref, bits: seq<Key>)
    requires Acyclic(s) && r < |s|
  {
    forall k :: Mentions(s, r, k) ==> k in bits
  }

  lemma OnlyRest(s: Store, r: Ref, bits: seq<Key>)
    requires Acyclic(s) && r < |s| && bits != [] && Only(s, r, bits) && !Mentions(s, r, bits[0])
    ensures Only(s, r, bits[1..])
  {
    assert bits == [bits[0]] + bits[1..];
  }

  lemma {:induction false} NothingMentioned(s: Store, r: Ref)
    requires Acyclic(s) && r < |s| && forall k :: !Mentions(s, r, k)
    ensures NoData(s, r)
    decreases Rank(s)[r]
  {
    if s[r].Data? { assert (s[r].group, s[r].bit) in Tests(s[r]); assert Mentions(s, r, (s[r].group, s[r].bit)); }
    forall br | HasEdge(s[r], br) ensures Edge(s[r], br) < |s| && NoData(s, Edge(s[r], br)) {
      EdgeDown(s, r, br);
      forall k ensures !Mentions(s, Edge(s[r], br), k) { MentionsEdge(s, r, k, br); }
      NothingMentioned(s, Edge(s[r], br));
    }
  }

  /** Deciding on one bit first, then on what is left: Shannon's expansion. */
  lemma Expansion(s: Store, r: Ref, t: Ref, f: Ref, key: Key, env: Env, h: Hist)
    requires Cofactor(s, r, t, key, true) && Cofactor(s, r, f, key, false)
    ensures Run(s, r, env, h) == Run(s, if env.bit(key.0, key.1) then t else f, env, h)
  {
    var v := env.bit(key.0, key.1);
    GivenOwn(s, r, key, env, h);
    assert Run(s, if v then t else f, env, h) == Run(s, r, Given(env, key, v), h);
  }

  lemma {:induction false} GivenOwn(s: Store, r: Ref, key: Key, env: Env, h: Hist)
    requires Acyclic(s) && r < |s|
    ensures Run(s, r, Given(env, key, env.bit(key.0, key.1)), h) == Run(s, r, env, h)
    decreases Rank(s)[r]
  {
    if !s[r].Leaf? && !s[r].Null? {
      var br := Takes(s[r], env, h);
      assert Takes(s[r], Given(env, key, env.bit(key.0, key.1)), h) == br;
      EdgeDown(s, r, br);
      GivenOwn(s, Edge(s[r], br), key, env, After(s[r], h));
    }
  }

  /** The result behaves like the graph it was sorted from. */
  ghost predicate SortedAs(s: Store, r: Ref, x: Ref, bits: seq<Key>) {
    && Acyclic(s) && r < |s| && x < |s| && Ordered(s, x) && Only(s, x, bits)
    && (forall env, h :: Run(s, x, env, h) == Run(s, r, env, h))
  }

  lemma SortedLater(s: Store, s': Store, r: Ref, x: Ref, bits: seq<Key>)
    requires SortedAs(s, r, x, bits) && SameMentions(s, s')
    ensures SortedAs(s', r, x, bits)
  {
    ExtendOrdered(s, s', x);
    forall env, h ensures Run(s', x, env, h) == Run(s', r, env, h) {
      assert Run(s', x, env, h) == Run(s, x, env, h) && Run(s', r, env, h) == Run(s, r, env, h);
    }
  }

  /** A test on top of two sorted cofactors. */
  lemma SortedTest(s: Store, r: Ref, x: Ref, t0: Ref, f0: Ref, bits: seq<Key>)
    requires SortedBits(bits) && bits != [] && Acyclic(s) && x < |s| && r < |s|
    requires s[x].Data? && (s[x].group, s[x].bit) == bits[0] && s[x].t != s[x].f
    requires Cofactor(s, r, t0, bits[0], true) && Cofactor(s, r, f0, bits[0], false)
    requires SortedAs(s, t0, s[x].t, bits[1..]) && SortedAs(s, f0, s[x].f, bits[1..])
    ensures SortedAs(s, r, x, bits)
  {
    EdgeDown(s, x, true); EdgeDown(s, x, false);
    forall br ensures
      var c := Edge(s[x], br);
      c < |s| && Ordered(s, c) && (s[c].Data? ==> Less(bits[0], (s[c].group, s[c].bit)))
    {
      var c := Edge(s[x], br);
      if s[c].Data? {
        assert (s[c].group, s[c].bit) in Tests(s[c]);
        assert Mentions(s, c, (s[c].group, s[c].bit));
        assert (s[c].group, s[c].bit) in bits[1..];
      }
    }
    forall k | Mentions(s, x, k) ensures k in bits {
      if k !in Tests(s[x]) {
        var br :| HasEdge(s[x], br) && (EdgeDown(s, x, br); Mentions(s, Edge(s[x], br), k));
        assert k in bits[1..];
      }
    }
    forall env, h ensures Run(s, x, env, h) == Run(s, r, env, h) {
      Expansion(s, r, t0, f0, bits[0], env, h);
    }
  }

  /** Where both cofactors come to one node the bit does not matter. */
  lemma SortedSame(s: Store, r: Ref, x: Ref, t0: Ref, f0: Ref, bits: seq<Key>)
    requires bits != [] && Cofactor(s, r, t0, bits[0], true) && Cofactor(s, r, f0, bits[0], false)
    requires SortedAs(s, t0, x, bits[1..]) && SortedAs(s, f0, x, bits[1..])
    ensures SortedAs(s, r, x, bits)
  {
    forall env, h ensures Run(s, x, env, h) == Run(s, r, env, h) {
      Expansion(s, r, t0, f0, bits[0], env, h);
    }
  }

  /** Sorts the graph at `node` by the listed bits. */
  method SortSubdag(dag: Fsm, bits: seq<Key>, node: Ref) returns (x: Ref)
    requires dag.Valid() && node < |dag.store| && SortedBits(bits) && Only(dag.store, node, bits)
    modifies dag`store, dag`rank
    ensures dag.Valid() && SameMentions(old(dag.store), dag.store)
    ensures SortedAs(dag.store, node, x, bits)
    decreases |bits|, 2
  {
    var i := 0;
    ghost var s0 := dag.store;
    while i < |bits|
      invariant 0 <= i <= |bits|
      invariant dag.Valid() && dag.store == s0 && Only(s0, node, bits[i..])
    {
      var found, marked := FindBit(dag, bits[i], node, {});
      if found {
        x := SortOn(dag, bits[i..], node);
        assert Only(dag.store, x, bits[i..]);
        return;
      }
      OnlyRest(s0, node, bits[i..]);
      assert bits[i..][1..] == bits[i + 1..];
      i := i + 1;
    }
    x := node;
    NothingMentioned(dag.store, node);
  }

  /** Splits on the first bit and sorts the parts. */
  method SortOn(dag: Fsm, bits: seq<Key>, node: Ref) returns (x: Ref)
    requires dag.Valid() && node < |dag.store| && SortedBits(bits) && Only(dag.store, node, bits) && bits != []
    modifies dag`store, dag`rank
    ensures dag.Valid() && SameMentions(old(dag.store), dag.store)
    ensures SortedAs(dag.store, node, x, bits)
    decreases |bits|, 1
  {
    ghost var s0 := dag.store;
    var t, selfT := ReduceDag(dag, bits[0], true, node, map[]);
    ghost var s1 := dag.store;
    var f, selfF := ReduceDag(dag, bits[0], false, node, map[]);
    ghost var s2 := dag.store;
    CofactorLater(s1, s2, node, t, bits[0], true);
    SameMentionsTrans(s0, s1, s2);
    x := SortParts(dag, bits, node, t, f);
    SameMentionsTrans(s0, s2, dag.store);
  }

  method SortParts(dag: Fsm, bits: seq<Key>, node: Ref, t0: Ref, f0: Ref) returns (x: Ref)
    requires dag.Valid() && SortedBits(bits) && bits != [] && node < |dag.store| && Only(dag.store, node, bits)
    requires Cofactor(dag.store, node, t0, bits[0], true) && Cofactor(dag.store, node, f0, bits[0], false)
    modifies dag`store, dag`rank
    ensures dag.Valid() && SameMentions(old(dag.store), dag.store)
    ensures SortedAs(dag.store, node, x, bits)
    decreases |bits|, 0
  {
    ghost var s0 := dag.store;
    OnlyRest(s0, t0, bits);
    OnlyRest(s0, f0, bits);
    var t := SortSubdag(dag, bits[1..], t0);
    ghost var s1 := dag.store;
    CofactorLater(s0, s1, node, t0, bits[0], true);
    CofactorLater(s0, s1, node, f0, bits[0], false);
    if t0 == f0 {
      SortedSame(s1, node, t, t0, f0, bits);
      return t;
    }
    forall k ensures Mentions(s1, f0, k) ==> k in bits[1..] { assert Mentions(s1, f0, k) <==> Mentions(s0, f0, k); }
    var f := SortSubdag(dag, bits[1..], f0);
    ghost var s2 := dag.store;
    SameMentionsTrans(s0, s1, s2);
    CofactorLater(s1, s2, node, t0, bits[0], true);
    CofactorLater(s1, s2, node, f0, bits[0], false);
    SortedLater(s1, s2, t0, t, bits[1..]);
    if t == f {
      SortedSame(s2, node, t, t0, f0, bits);
      return t;
    }
    x := NewNode(dag, Data(bits[0].0, bits[0].1, t, f), 1 + dag.rank[t] + dag.rank[f]);
    ghost var s3 := dag.store;
    SameMentionsTrans(s0, s2, s3);
    CofactorLater(s2, s3, node, t0, bits[0], true);
    CofactorLater(s2, s3, node, f0, bits[0], false);
    SortedLater(s2, s3, t0, t, bits[1..]);
    SortedLater(s2, s3, f0, f, bits[1..]);
    SortedTest(s3, node, x, t0, f0, bits);
  }

  /** The bits of all tests, listed as the nodes were made. */
  method StoreBits(s: Store) returns (bits: seq<Key>)
    ensures SortedBits(bits) && forall k :: k in bits <==> exists i | 0 <= i < |s| :: k in Tests(s[i])
  {
    bits := [];
    for i := 0 to |s|
      invariant SortedBits(bits) && forall k :: k in bits <==> exists j | 0 <= j < i :: k in Tests(s[j])
    {
      if s[i].Data? { bits := StoreBit(bits, (s[i].group, s[i].bit)); }
    }
  }

  /** A bit that is mentioned is tested by some node. */
  lemma {:induction false} MentionedTest(s: Store, r: Ref, key: Key) returns (i: Ref)
    requires Acyclic(s) && r < |s| && Mentions(s, r, key)
    ensures i < |s| && key in Tests(s[i])
    decreases Rank(s)[r]
  {
    i := r;
    if key !in Tests(s[r]) {
      var br :| HasEdge(s[r], br) && (EdgeDown(s, r, br); Mentions(s, Edge(s[r], br), key));
      EdgeDown(s, r, br);
      i := MentionedTest(s, Edge(s[r], br), key);
    }
  }

  /** Sorts any graph by the bits it tests. */
  method SortDag(dag: Fsm, root: Ref) returns (x: Ref, ghost bits: seq<Key>)
    requires dag.Valid() && root < |dag.store|
    modifies dag`store, dag`rank
    ensures dag.Valid() && SameMentions(old(dag.store), dag.store) && SortedBits(bits)
    ensures SortedAs(dag.store, root, x, bits)
  {
    var list := StoreBits(dag.store);
    bits := list;
    forall k | Mentions(dag.store, root, k) ensures k in list { var i := MentionedTest(dag.store, root, k); }
    x := SortSubdag(dag, list, root);
  }
}
