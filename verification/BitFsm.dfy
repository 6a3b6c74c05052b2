/** The single-bit decision graph and the passes that rewrite it in place. */
module BitFsm {
  import opened Semantics
  import opened Graph
  import opened Repeats
  import opened Retests
  import opened Duplicates
  import opened Static
  import opened Shape
  import opened Merging
  import opened Collapsing
  import opened Rules
  import opened Emission

  class Fsm {
    var store: Store
    ghost var rank: seq<nat>

    // the registries of `unique_state`: inner nodes known to their successors, and decisions
    var registered: seq<Ref>
    var leaves: seq<Ref>
    ghost var origin: Store
    ghost var live: set<Ref>
    ghost var resolved: map<Ref, Ref>

    // what is printed: numbered actions, then rules
    var number: map<Ref, nat>
    var table: seq<Action>
    var file: seq<Rule>

    ghost predicate Valid()
      reads this
    {
      Ranked(store, rank)
    }

    /** An empty heap, nothing printed yet. */
    constructor ()
      ensures Valid() && store == [] && number == map[] && table == [] && file == []
    {
      store, rank, registered, leaves := [], [], [], [];
      origin, live, resolved := [], {}, map[];
      number, table, file := map[], [], [];
    }

    // ----- heap primitives -----

    /** Allocates a node no parent points to yet. */
    method Alloc(n: Node, ghost top: nat) returns (r: Ref)
      requires Valid() && EdgesWithin(n, |store|)
      requires forall br :: HasEdge(n, br) ==> rank[Edge(n, br)] < top
      modifies `store, `rank
      ensures Valid() && r == |old(store)| && store == old(store) + [n] && rank == old(rank) + [top]
      ensures Preserves(old(store), store) && KeepsShape(old(store), store) && KeepsStatic(old(store), store)
      ensures KeepsTests(old(store), store)
    {
      Append(store, n);
      AppendKeepsStatic(store, n);
      AppendKeepsTests(store, n);
      RankedAppend(store, rank, n, top);
      AppendKeepsShape(store, n);
      r := |store|;
      store := store + [n];
      rank := rank + [top];
    }

    /** Points a branch of an existing node elsewhere. */
    method Point(p: Ref, br: bool, q: Ref)
      requires Valid() && p < |store| && q < |store| && HasEdge(store[p], br)
      requires rank[q] < rank[p] && Edge(store[p], br) < |store|
      requires StandsIn(store, p, br, q)
      modifies `store
      ensures Valid() && rank == old(rank) && store == old(store)[p := SetEdge(old(store)[p], br, q)]
      ensures Preserves(old(store), store)
      ensures FitsWhere(old(store), Edge(old(store)[p], br), q) ==> KeepsShape(old(store), store)
    {
      ghost var before := store;
      store := store[p := SetEdge(store[p], br, q)];
      Redirect(before, store, p, br, q, rank);
      if FitsWhere(before, Edge(before[p], br), q) {
        RedirectKeepsShape(before, store, p, br, q);
      }
    }

    // ----- removal of duplicate decisions -----

    /** Cuts node `bit`, whose answer frame `k` settles, out of the walk. Nodes
        between the two may be shared with other walks, so they are copied. */
    method Eliminate(bit: Ref, frames: seq<Frame>, k: nat) returns (res: Ref, frames': seq<Frame>)
      requires Valid() && Leads(store, frames, bit) && SettledBy(store, frames, k, bit)
      modifies `store, `rank
      ensures Valid() && |old(store)| <= |store| && old(rank) <= rank
      ensures KeepsAll(old(store), store)
      ensures SameWalk(old(store), frames, store, frames') && Leads(store, frames', res)
      ensures rank[res] < old(rank[bit])
    {
      var next;
      res, next, frames' := CopyTail(bit, frames, k);
      ghost var copied := store;
      CopiedWalk(old(store), frames, store, frames', k, res, next, old(rank));
      CopyEnd(old(store), frames, k, bit, store, frames', res, next);
      assert Below(store, rank, frames[k].node, frames[k].branch);
      Point(frames[k].node, frames[k].branch, next);
      RedirectKeepsAsked(copied, store, frames[k].node, frames[k].branch, next);
      KeepsAllTrans(old(store), copied, store);
    }

    /** Clones the nodes after frame `k`, the last one leading to what follows `bit`. */
    method CopyTail(bit: Ref, frames: seq<Frame>, k: nat) returns (res: Ref, next: Ref, frames': seq<Frame>)
      requires Valid() && Leads(store, frames, bit) && SettledBy(store, frames, k, bit)
      modifies `store, `rank
      ensures Valid() && old(store) <= store && old(rank) <= rank
      ensures res < |old(store)| && rank[res] < old(rank[bit])
      ensures Midway(old(store), frames, bit, frames[k].branch, store, rank, frames', k, res, next)
    {
      var br := frames[k].branch;
      CopyStart(store, frames, k, bit);
      assert Below(store, rank, bit, br);
      res := Edge(store[bit], br);
      frames', next := frames, res;
      var j: nat := |frames| - 1;
      while j > k
        invariant k <= j < |frames|
        invariant Valid() && old(rank) <= rank && old(store) <= store
        invariant Midway(old(store), frames, bit, br, store, rank, frames', j, res, next)
      {
        next, frames' := CopyFrame(frames, j, next, frames', old(store), k, bit, br, res);
        j := j - 1;
      }
    }

    /** Clones the node of frame `j`, its walked branch leading to `next`. */
    method CopyFrame(frames: seq<Frame>, j: nat, next: Ref, frames': seq<Frame>,
                     ghost s0: Store, ghost k: nat, ghost bit: Ref, ghost br: bool, ghost res: Ref)
      returns (clone: Ref, frames'': seq<Frame>)
      requires Valid() && Acyclic(s0) && Leads(s0, frames, bit) && SettledBy(s0, frames, k, bit) && k < j < |frames| && br == frames[k].branch
      requires Midway(s0, frames, bit, br, store, rank, frames', j, res, next)
      modifies `store, `rank
      ensures Valid() && old(rank) <= rank && old(store) <= store && s0 <= store
      ensures clone < |store| && Midway(s0, frames, bit, br, store, rank, frames'', j - 1, res, clone)
    {
      var w := frames[j];
      CopyStep(s0, frames, k, bit, br, store, frames', j, res, next);
      NextIs(s0, frames, bit, j);
      assert Below(store, rank, w.node, true) && Below(store, rank, w.node, false);
      clone := Alloc(SetEdge(store[w.node], w.branch, next), rank[w.node]);
      frames'' := frames'[j := Frame(clone, w.branch)];
    }

    /** The nearest frame that settles the answer of `bit`, if any. A conformance
        test is not carried past a count of its bucket. */
    method FindSettled(bit: Ref, frames: seq<Frame>) returns (k: int)
      requires bit < |store| && Chain(store, frames)
      ensures -1 <= k < |frames|
      ensures k >= 0 ==> SettledBy(store, frames, k, bit)
      ensures k < 0 ==> Tests(store[bit]) !! Seen(store, frames)
      ensures k < 0 && store[bit].Conform? ==> store[bit].bucket !in Asked(store, frames)
    {
      k := |frames| - 1;
      assert frames[..k + 1] == frames;
      if !Inner(store[bit]) { return -1; }
      while k >= 0
        invariant -1 <= k < |frames|
        invariant store[bit].Conform? ==> forall i | k < i < |frames| :: !Counts(store[frames[i].node], store[bit].bucket)
        invariant forall i | k < i < |frames| :: !SameTest(store[frames[i].node], store[bit])
        invariant store[bit].Conform? && store[bit].bucket in Asked(store, frames) ==> store[bit].bucket in Asked(store, frames[..k + 1])
      {
        if store[bit].Conform? { AskedBefore(store, frames, k, store[bit].bucket); }
        if store[bit].Conform? && Counts(store[frames[k].node], store[bit].bucket) { return -1; }
        if SameTest(store[frames[k].node], store[bit]) { return; }
        k := k - 1;
      }
    }

    /** Removes, below the end of the walk, every test the walk or an earlier test
        has already answered: of packet bits, and of meters not counted since. The walk itself may be copied in the process. */
    method RemoveDuplicates(bit: Ref, frames: seq<Frame>) returns (frames': seq<Frame>)
      requires Valid() && Leads(store, frames, bit)
      modifies `store, `rank
      ensures Valid() && |old(store)| <= |store| && old(rank) <= rank
      ensures KeepsAll(old(store), store)
      ensures Cleaned(old(store), frames, bit, store, frames')
      decreases rank[bit], 2
    {
      var k := FindSettled(bit, frames);
      if k >= 0 {
        var res;
        res, frames' := Eliminate(bit, frames, k);
        label Cut:
        ghost var fs := frames';
        frames' := RemoveDuplicates(res, frames');
        KeepsAllTrans(old(store), old@Cut(store), store);
        SameWalkTrans(old(store), frames, old@Cut(store), fs, store, frames');
        return;
      }
      frames' := VisitBoth(bit, frames);
    }

    method VisitBoth(bit: Ref, frames: seq<Frame>) returns (frames': seq<Frame>)
      requires Valid() && Leads(store, frames, bit) && Tests(store[bit]) !! Seen(store, frames)
      requires store[bit].Conform? ==> store[bit].bucket !in Asked(store, frames)
      modifies `store, `rank
      ensures Valid() && |old(store)| <= |store| && old(rank) <= rank
      ensures KeepsAll(old(store), store)
      ensures Cleaned(old(store), frames, bit, store, frames')
      decreases rank[bit], 1
    {
      var last := |frames|;
      var walk := frames + [Frame(bit, false)];
      assert walk[..last] == frames;
      assert Below(store, rank, bit, false) && Below(store, rank, bit, true);
      walk := Descend(walk, rank[bit]);
      label True:
      ghost var falseWalk := walk;
      var cur := walk[last].node;
      WalkTurned(old(store), frames, bit, store, walk);
      walk := walk[last := Frame(cur, true)];
      walk := Descend(walk, old(rank[bit]));
      frames' := walk[..last];
      KeepsAllTrans(old(store), old@True(store), store);
      WalkCleaned(old(store), frames, bit, old@True(store), falseWalk, store, walk);
    }

    /** Visits the branch named by the last frame, if its node has one. */
    method Descend(walk: seq<Frame>, ghost top: nat) returns (walk': seq<Frame>)
      requires Valid() && Visits(store, walk)
      requires
        var last := walk[|walk| - 1];
        HasEdge(store[last.node], last.branch) ==>
          Edge(store[last.node], last.branch) < |store| && rank[Edge(store[last.node], last.branch)] < top
      modifies `store, `rank
      ensures Valid() && |old(store)| <= |store| && old(rank) <= rank
      ensures KeepsAll(old(store), store)
      ensures SameWalk(old(store), walk, store, walk') && Visits(store, walk')
      ensures BranchDone(store, walk') && BranchAsked(store, walk')
      decreases top, 0
    {
      walk' := walk;
      var last := walk[|walk| - 1];
      SameWalkVisits(store, walk);
      if HasEdge(store[last.node], last.branch) {
        VisitsOn(store, walk, last.branch);
        assert walk[|walk| - 1 := last] == walk;
        walk' := RemoveDuplicates(Edge(store[last.node], last.branch), walk);
        ChainVisits(store, walk');
        assert SameAside(old(store)[last.node], store[walk'[|walk| - 1].node], last.branch);
      }
    }
  
    // ----- static classification above meters -----

    /** Points a branch of `p` at an equivalent, no heavier node. */
    method Settle(p: Ref, br: bool, q: Ref)
      requires Weighted(store, rank) && Acyclic(store) && p < |store| && q < |store| && HasEdge(store[p], br)
      requires Edge(store[p], br) < |store| && rank[q] <= rank[Edge(store[p], br)]
      requires IsStatic(store, q) && Becomes(store, Edge(store[p], br), store, q)
      modifies `store, `rank
      ensures Weighted(store, rank) && rank == old(rank)
      ensures store == old(store)[p := SetEdge(old(store)[p], br, q)]
      ensures Moves(old(store), store)
    {
      ghost var before := store;
      WeightedRanked(store, rank);
      assert Below(store, rank, p, br);
      Point(p, br, q);
      RedirectWeighted(before, store, p, br, q, rank);
      RedirectKeepsStatic(before, store, p, br, q);
      RedirectKeepsTests(before, store, p, br, q);
    }

    method SwapBits(r: Ref, br: bool) returns (r': Ref)
      requires Weighted(store, rank) && r < |store| && Meter(store[r]) && HasEdge(store[r], br)
      requires Edge(store[r], br) < |store| && store[Edge(store[r], br)].Data?
      modifies `store, `rank
      ensures Weighted(store, rank) && old(rank) <= rank && old(store) <= store
      ensures r' < |store| && rank[r'] < old(rank[r])
      ensures Moves(old(store), store) && Becomes(old(store), r, store, r') && !NoData(store, r')
    {
      SwapMoves(store, r, br, rank);
      SwapLighter(store, rank, r, br);
      SwapWeighted(store, rank, r, br);
      SwapBecomes(store, r, br);
      r' := |store| + 2;
      store, rank := Swapped(store, r, br), SwapWeights(store, rank, r, br);
    }

    /** Moves every packet test at or below `r` above every meter there. Afterwards a
        path tests a bit twice if and only if one did before, or the bit was tested on
        both sides of a conformance test. */
    method BubbleStatic(r: Ref) returns (r': Ref)
      requires Weighted(store, rank) && r < |store|
      modifies `store, `rank
      ensures Weighted(store, rank) && old(rank) <= rank && |old(store)| <= |store|
      ensures r' < |store| && rank[r'] <= old(rank[r])
      ensures Moves(old(store), store) && Becomes(old(store), r, store, r') && IsStatic(store, r')
      ensures NoRepeat(store, r', {}) <==> NoRepeat(old(store), r, {}) && Separate(old(store), r)
      ensures forall i: Ref :: i < |old(store)| && old(rank[i]) > old(rank[r]) ==> store[i] == old(store)[i]
      decreases rank[r], 1
    {
      WeightedRanked(store, rank);
      BubbleBranch(r, true);
      label One:
      BubbleBranch(r, false);
      label Two:
      MovesTrans(old(store), old@One(store), store);
      MovesBecomes(old(store), store, r);
      if store[r].Conform? && store[store[r].f].Data? {
        r' := SwapAndBubble(r, false);
      } else if Meter(store[r]) && store[store[r].t].Data? {
        r' := SwapAndBubble(r, true);
      } else {
        r' := r;
        MetersBelow(store, r);
        MovesBecomes(store, store, r);
      }
      MovesTrans(old(store), old@Two(store), store);
      BecomesTrans(old(store), r, old@Two(store), r, store, r');
      StaticRepeats(old(store), r, store, r');
    }

    method SwapAndBubble(r: Ref, br: bool) returns (r': Ref)
      requires Weighted(store, rank) && r < |store| && Meter(store[r]) && HasEdge(store[r], br)
      requires Edge(store[r], br) < |store| && store[Edge(store[r], br)].Data?
      modifies `store, `rank
      ensures Weighted(store, rank) && old(rank) <= rank && |old(store)| <= |store|
      ensures r' < |store| && rank[r'] <= old(rank[r])
      ensures Moves(old(store), store) && Becomes(old(store), r, store, r') && IsStatic(store, r')
      ensures forall i: Ref :: i < |old(store)| && old(rank[i]) > old(rank[r]) ==> store[i] == old(store)[i]
      decreases rank[r], 0
    {
      var top := SwapBits(r, br);
      label Swap:
      r' := BubbleStatic(top);
      MovesTrans(old(store), old@Swap(store), store);
      BecomesTrans(old(store), r, old@Swap(store), top, store, r');
    }

    method BubbleBranch(r: Ref, br: bool)
      requires Weighted(store, rank) && r < |store|
      modifies `store, `rank
      ensures Weighted(store, rank) && old(rank) <= rank && |old(store)| <= |store|
      ensures Moves(old(store), store)
      ensures SameTest(store[r], old(store)[r])
      ensures HasEdge(store[r], br) ==> Edge(store[r], br) < |store| && IsStatic(store, Edge(store[r], br))
      ensures HasEdge(store[r], !br) ==> Edge(store[r], !br) == Edge(old(store)[r], !br)
      ensures forall i: Ref :: i < |old(store)| && old(rank[i]) > old(rank[r]) ==> store[i] == old(store)[i]
      decreases rank[r], 0
    {
      WeightedRanked(store, rank);
      if HasEdge(store[r], br) {
        EdgeDown(store, r, br);
        assert Below(store, rank, r, br);
        var next := Edge(store[r], br);
        var child := BubbleStatic(next);
        label Below:
        assert store[r] == old(store)[r];
        MovesBecomes(old(store), store, next);
        BecomesBoth(old(store), next, store, next, child);
        Settle(r, br, child);
        MovesTrans(old(store), old@Below(store), store);
      } else {
        MovesSelf(store);
      }
    }
  
    // ----- combining common states -----

    ghost function Unique(): set<Ref>
      reads this
    {
      set r | r in registered + leaves
    }

    ghost predicate Merging()
      reads this
    {
      Merge(origin, store, rank, live, Unique(), resolved) && Listed()
    }

    ghost predicate Listed()
      reads this
    {
      && (forall r | r in registered :: r < |store| && !store[r].Leaf?)
      && (forall r | r in leaves :: r < |store| && store[r].Leaf?)
    }

    method Enlist(r: Ref)
      requires Listed() && r < |store|
      modifies `registered, `leaves
      ensures Listed() && Unique() == old(Unique()) + {r}
    {
      if store[r].Leaf? { leaves := [r] + leaves; } else { registered := [r] + registered; }
    }

    /** The first listed node that equals `n`, test and successors. */
    method FindAlike(n: Node, list: seq<Ref>) returns (a: Option<Ref>)
      requires forall r | r in list :: r < |store|
      ensures a.Some? ==> a.value in list && a.value < |store| && store[a.value] == n
      ensures a.None? ==> forall r | r in list :: store[r] != n
    {
      var i := 0;
      while i < |list|
        invariant 0 <= i <= |list|
        invariant forall r | r in list :: r < |store|
        invariant forall r | r in list[..i] :: r < |store| && store[r] != n
      {
        assert list[i] in list;
        if store[list[i]] == n { return Some(list[i]); }
        assert list[..i + 1] == list[..i] + [list[i]];
        i := i + 1;
      }
      assert list[..i] == list;
      return None;
    }

    /** Points branch `br` of `r` at `u`, which stands for the node it leads to. */
    method PointUnique(r: Ref, br: bool, u: Ref)
      requires Merging() && r in live && r < |store| && HasEdge(store[r], br) && Edge(store[r], br) in resolved
      requires u == resolved[Edge(store[r], br)]
      modifies `store
      ensures Merging() && store == old(store)[r := SetEdge(old(store)[r], br, u)]
      ensures SameTest(store[r], origin[r]) && EdgeResolved(origin, store, resolved, r, br)
    {
      var c := Edge(store[r], br);
      assert Resolved(origin, store, Unique(), resolved, c);
      ReplacementRun(store, c, u);
      ReplacementRank(origin, store, rank, live, Unique(), resolved, c);
      assert Below(store, rank, r, br);
      ghost var before := store;
      Point(r, br, u);
      MergePoint(origin, before, rank, live, Unique(), resolved, r, br, store);
    }

    /** Replaces what branch `br` of `r` leads to by its unique equal. */
    method UniqueBranch(r: Ref, br: bool)
      requires Merging() && r in live && r < |store| && HasEdge(store[r], br)
      modifies `store, `rank, `registered, `leaves, `origin, `live, `resolved
      ensures Merging() && origin == old(origin) && live == old(live) && Grown(old(resolved), resolved)
      ensures SameTest(store[r], old(store)[r]) && HasEdge(store[r], br)
      ensures SameTest(store[r], origin[r]) && EdgeResolved(origin, store, resolved, r, br)
      ensures HasEdge(store[r], !br) ==> Edge(store[r], !br) == Edge(old(store)[r], !br)
      ensures Lowered(old(store), old(rank), store, rank, old(rank[r])) && rank[r] == old(rank[r])
      decreases rank[r], 0
    {
      assert Below(store, rank, r, br);
      var c := Edge(store[r], br);
      var u := UniqueState(c);
      assert LoweredAt(old(store), old(rank), store, rank, old(rank[c]), r);
      ghost var before := store;
      PointUnique(r, br, u);
      forall i: Ref | i < |store| ensures LoweredAt(old(store), old(rank), store, rank, old(rank[r]), i) {
        assert LoweredAt(old(store), old(rank), before, rank, old(rank[c]), i);
      }
    }

    /** The one node that stands for `r` from now on. */
    method UniqueState(r: Ref) returns (u: Ref)
      requires Merging() && r in live
      modifies `store, `rank, `registered, `leaves, `origin, `live, `resolved
      ensures Merging() && origin == old(origin) && live == old(live) && Grown(old(resolved), resolved)
      ensures r in resolved && u == resolved[r]
      ensures Lowered(old(store), old(rank), store, rank, old(rank[r]))
      decreases rank[r], 2
    {
      UniqueBranches(r);
      label Two:
      u := Represent(r);
      LoweredAtOne(old(store), old(rank), store, old@Two(rank), old(rank[r]), r, rank[r]);
    }

    method UniqueBranches(r: Ref)
      requires Merging() && r in live
      modifies `store, `rank, `registered, `leaves, `origin, `live, `resolved
      ensures Merging() && origin == old(origin) && live == old(live) && Grown(old(resolved), resolved)
      ensures EdgesResolved(origin, store, resolved, r) && r < |rank| && rank[r] == old(rank[r])
      ensures Lowered(old(store), old(rank), store, rank, old(rank[r]))
      decreases rank[r], 1
    {
      assert forall i: Ref :: i < |store| ==> LoweredAt(store, rank, store, rank, rank[r], i);
      if HasEdge(store[r], true) { UniqueBranch(r, true); }
      label One:
      assert forall i: Ref :: i < |store| ==> LoweredAt(store, rank, store, rank, rank[r], i);
      if HasEdge(store[r], false) { UniqueBranch(r, false); }
      LoweredTrans(old(store), old(rank), old@One(store), old@One(rank), store, rank, old(rank[r]), old(rank[r]), old(rank[r]));
      assert Partly(origin, store, resolved, r) && Partly(origin, old@One(store), old@One(resolved), r);
      BothResolved(origin, old@One(store), old@One(resolved), store, resolved, r);
    }

    method Represent(r: Ref) returns (u: Ref)
      requires Merging() && r in live && EdgesResolved(origin, store, resolved, r)
      modifies `rank, `registered, `leaves, `resolved
      ensures Merging() && Grown(old(resolved), resolved)
      ensures r in resolved && u == resolved[r]
      ensures |rank| == |old(rank)| && rank[r] <= old(rank[r]) && rank == old(rank)[r := rank[r]]
    {
      if Redundant(store[r]) {
        u := store[r].t;
        assert EdgeResolved(origin, store, resolved, r, true);
        assert Resolved(origin, store, Unique(), resolved, Edge(origin[r], true));
        Reuse(r, u);
        return;
      }
      var alike := FindAlike(store[r], if store[r].Leaf? then leaves else registered);
      if alike.Some? {
        u := alike.value;
        Reuse(r, u);
      } else {
        u := r;
        Register(r);
      }
    }

    ghost method Reuse(r: Ref, u: Ref)
      requires Merging() && r in live && EdgesResolved(origin, store, resolved, r) && u in Unique()
      requires if Redundant(store[r]) then u == store[r].t else store[u] == store[r]
      modifies `resolved
      ensures Merging() && Grown(old(resolved), resolved) && resolved == old(resolved)[r := u]
    {
      MergeReplace(origin, store, rank, live, Unique(), resolved, r, u);
      resolved := resolved[r := u];
    }

    method Register(r: Ref)
      requires Merging() && r in live && EdgesResolved(origin, store, resolved, r) && !Redundant(store[r])
      requires forall a | a in (if store[r].Leaf? then leaves else registered) :: store[a] != store[r]
      modifies `rank, `registered, `leaves, `resolved
      ensures Merging() && Grown(old(resolved), resolved) && resolved == old(resolved)[r := r]
      ensures |rank| == |old(rank)| && rank[r] <= old(rank[r]) && rank == old(rank)[r := rank[r]]
    {
      forall a | a in Unique() ensures store[a] != store[r] {
        if a in registered {} else { assert a in leaves; }
      }
      MergeRegister(origin, store, rank, live, Unique(), resolved, r);
      Enlist(r);
      rank := rank[r := Height(store[r], rank)];
      resolved := resolved[r := r];
    }

    /** Leaves one node per distinct subgraph below the root, and none that offers
        no choice. The new root is returned, with the nodes still in use. */
    method MergeCommon(root: Ref, ghost used: set<Ref>) returns (root': Ref, ghost used': set<Ref>)
      requires Valid() && Closed(store, used) && root in used
      modifies `store, `rank, `registered, `leaves, `origin, `live, `resolved
      ensures Valid() && |store| == |old(store)|
      ensures Preserves(old(store), store) && KeepsShape(old(store), store)
      ensures root' in used' && used' <= used && Reduced(store, used')
      ensures forall r | r in used :: r < |store| && SameTest(store[r], old(store)[r])
      ensures forall r | r in used && Redundant(old(store)[r]) :: r !in used'
      ensures MetersLow(old(store), used) ==> MetersLow(store, used')
      ensures forall env, h :: Run(store, root', env, h) == Run(old(store), root, env, h)
      ensures forall seen :: NoRepeat(old(store), root, seen) ==> NoRepeat(store, root', seen)
    {
      origin, live, resolved := store, used, map[];
      registered, leaves := [], [];
      MergeStart(store, rank, live);
      assert Unique() == {};
      root' := UniqueState(root);
      used' := Unique();
      assert Resolved(origin, store, Unique(), resolved, root);
      ReplacementRun(store, root, root');
      forall r | r in used ensures SameTest(store[r], old(store)[r]) {
        assert Partly(origin, store, resolved, r);
      }
      forall r | r in used && Redundant(old(store)[r]) ensures r !in used' {
        RedundantGone(origin, store, rank, live, Unique(), resolved, r);
      }
      if MetersLow(origin, used) { MergedLow(origin, store, rank, live, Unique(), resolved); }
      registered, leaves := [], [];
    }
  
    // ----- collapsing subtrees with a common state -----

    /** The walked nodes, last first (`copy_list`). */
    method CopyList(path: seq<Ref>) returns (list: seq<Ref>)
      requires |rank| == |store| && Descending(rank, path)
      ensures Ascending(rank, list) && forall x :: x in list <==> x in path
    {
      list := [];
      var i := |path|;
      while i > 0
        invariant 0 <= i <= |path| && |list| == |path| - i
        invariant forall k | 0 <= k < |list| :: list[k] == path[|path| - 1 - k]
      {
        i := i - 1;
        list := list + [path[i]];
      }
      forall x ensures x in list <==> x in path {
        if x in path {
          var k :| 0 <= k < |path| && path[k] == x;
          assert list[|path| - 1 - k] == x;
        }
      }
    }

    /** The listed nodes that are also on the walk, in their old order. */
    method IntersectList(list: seq<Ref>, path: seq<Ref>) returns (kept: seq<Ref>)
      requires |rank| == |store| && Ascending(rank, list)
      ensures Ascending(rank, kept) && forall x :: x in kept <==> x in list && x in path
    {
      kept := [];
      var i := 0;
      while i < |list|
        invariant 0 <= i <= |list| && Ascending(rank, kept)
        invariant forall x :: x in kept <==> x in list[..i] && x in path
      {
        assert list[..i + 1] == list[..i] + [list[i]];
        if list[i] in path {
          forall k | 0 <= k < |kept| ensures rank[kept[k]] < rank[list[i]] {
            assert kept[k] in list[..i];
          }
          kept := kept + [list[i]];
        }
        i := i + 1;
      }
      assert list[..i] == list;
    }

    /** Keeps the listed nodes which the walk, or every way on from `r`, meets
        before a count. The first call lists them all. */
    method GatherCommon(r: Ref, list: Option<seq<Ref>>, path: seq<Ref>) returns (list': seq<Ref>)
      requires Valid() && r < |store| && Descending(rank, path + [r])
      requires list.Some? ==> Ascending(rank, list.value)
      ensures Ascending(rank, list')
      ensures forall x: Ref :: x in list' <==>
        (list.Some? ==> x in list.value) && (x in path || OnAll(store, r, x))
      decreases rank[r]
    {
      var here := path + [r];
      if Inner(store[r]) {
        EdgeDown(store, r, true); EdgeDown(store, r, false);
        assert Below(store, rank, r, true) && Below(store, rank, r, false);
        DescendingPush(rank, path, r, store[r].t);
        DescendingPush(rank, path, r, store[r].f);
        list' := GatherCommon(store[r].t, list, here);
        list' := GatherCommon(store[r].f, Some(list'), here);
      } else if list.Some? {
        list' := IntersectList(list.value, here);
      } else {
        list' := CopyList(here);
      }
    }

    /** The deepest node that replaces `r`, if it is not `r` itself. */
    method FindCommon(r: Ref) returns (x: Ref)
      requires Valid() && r < |store|
      ensures x < |store| && OnAll(store, r, x) && NothingCommon(store, x)
    {
      x := r;
      if Inner(store[r]) {
        EdgeDown(store, r, true); EdgeDown(store, r, false);
        var list := GatherCommon(store[r].t, None, []);
        list := GatherCommon(store[r].f, Some(list), []);
        assert forall y: Ref :: y in list <==> CommonBelow(store, r, y);
        if list != [] {
          x := list[0];
          forall y: Ref | CommonBelow(store, r, y) ensures y < |store| && rank[x] <= rank[y] {
            LowestFirst(rank, list, y);
          }
          DeepestIsLast(store, rank, r, x);
        }
      }
    }

    /** Replaces `r`, and everything below it, by the deepest state always reached
        from there. Returns what the parent should point at: from there on no node is left
        from which all ways meet again before a count. */
    method CollapseCommon(r: Ref, ghost used: set<Ref>) returns (x: Ref)
      requires Valid() && Closed(store, used) && r in used
      modifies `store
      ensures Collapsed(old(store), rank, used, store, r, x) && x in used && Tight(store, x)
      decreases rank[r], 1
    {
      x := FindCommon(r);
      OnAllRank(store, rank, r, x);
      OnAllLive(store, used, r, x);
      CollapsedRefl(store, rank, used, r, x);
      CollapseBranch(x, true, used);
      label One:
      CollapsedTrans(old(store), old@One(store), store, rank, used, r, x, x, x);
      CollapseBranch(x, false, used);
      CollapsedTrans(old(store), old@One(store), store, rank, used, r, x, x, x);
      BothTight(old@One(store), store, x);
    }

    method CollapseBranch(x: Ref, br: bool, ghost used: set<Ref>)
      requires Valid() && Closed(store, used) && x in used && NothingCommon(store, x)
      modifies `store
      ensures Collapsed(old(store), rank, used, store, x, x) && NothingCommon(store, x) && TightEdge(store, x, br)
      ensures HasEdge(store[x], !br) ==> Edge(store[x], !br) == Edge(old(store)[x], !br)
      decreases rank[x], 0
    {
      if HasEdge(store[x], br) {
        assert Below(store, rank, x, br);
        var c := Edge(store[x], br);
        var q := CollapseCommon(c, used);
        OnAllRank(old(store), rank, c, q);
        OnAllKept(old(store), store, rank, c, q);
        OnAllReplaces(store, c, q);
        ghost var before := store;
        Point(x, br, q);
        PointCollapsed(old(store), before, store, rank, used, x, br, q);
      } else {
        CollapsedRefl(store, rank, used, x, x);
      }
    }
  
    // ----- actions -----

    /** Numbers the actions at and below `r`, successors first, and prints them. */
    method NumberActions(r: Ref, ghost used: set<Ref>)
      requires Valid() && Closed(store, used) && MetersLow(store, used) && r in used
      requires Numbering(store, number, table)
      modifies `number, `table
      ensures Numbering(store, number, table) && old(number.Keys) <= number.Keys
      ensures Covered(store, number, r)
      decreases rank[r]
    {
      if r in number { assert HasLine(store, number, table, r); return; }
      assert Below(store, rank, r, true) && Below(store, rank, r, false);
      assert LowAt(store, r, true) && LowAt(store, r, false);
      if HasEdge(store[r], true) { NumberActions(store[r].t, used); }
      ghost var number1 := number;
      if HasEdge(store[r], false) { NumberActions(store[r].f, used); }
      if HasEdge(store[r], true) { CoveredMore(store, number1, number, store[r].t); }
      if !store[r].Data? {
        if r in number { assert HasLine(store, number, table, r); return; }
        NumberingPush(store, number, table, r);
        var line := match store[r]
          case Leaf(d) => DecideAction(d)
          case Count(k, t) => CountAction(k, number[t])
          case Conform(k, t, f) => ConformAction(k, number[t], number[f]);
        number, table := number[r := |table|], table + [line];
      } else {
        forall br ensures Edge(store[r], br) < |store| && Covered(store, number, Edge(store[r], br)) {
          EdgeDown(store, r, br);
        }
      }
    }

    // ----- smart dumping -----

    /** Some branch from a packet test to an action; any will do. */
    method FindBranch(r: Ref, ghost used: set<Ref>) returns (end: Ref, br: bool)
      requires Valid() && Closed(store, used) && r in used && store[r].Data?
      ensures end in used && end < |store| && store[end].Data?
      ensures Edge(store[end], br) < |store| && !store[Edge(store[end], br)].Data?
      decreases rank[r]
    {
      EdgeDown(store, r, true); EdgeDown(store, r, false);
      assert Below(store, rank, r, true) && Below(store, rank, r, false);
      assert HasEdge(store[r], true) && HasEdge(store[r], false);
      if {
        case !store[store[r].f].Data? => end, br := r, false;
        case !store[store[r].t].Data? => end, br := r, true;
        case store[store[r].f].Data? => end, br := FindBranch(store[r].f, used);
        case store[store[r].t].Data? => end, br := FindBranch(store[r].t, used);
      }
    }

    /** Prints one rule for every way from `r` to branch `br` of `stop`, each with
        the tests already walked through. */
    method DumpAllPathsTo(r: Ref, hist: seq<Step>, stop: Ref, br: bool, ghost used: set<Ref>, ghost group: int)
      requires Valid() && Closed(store, used) && InGroup(store, used, group) && r in used
      requires stop in used && stop < |store| && store[stop].Data? && Edge(store[stop], br) in number
      requires NoRepeat(store, r, StepKeys(hist)) && OneGroup(hist, group) && DistinctBits(hist)
      modifies `file
      ensures |old(file)| <= |file| && file[..|old(file)|] == old(file)
      ensures RulesFor(store, r, hist, stop, br, file[|old(file)|..], number[Edge(store[stop], br)])
      ensures RulesOf(old(file), group) ==> RulesOf(file, group)
      decreases rank[r]
    {
      var here := store[r];
      if r == stop {
        HistoryPush(hist, Step(here.group, here.bit, br), group);
        var steps := hist + [Step(here.group, here.bit, br)];
        var sorted := SortSteps(steps);
        SortedHolds(steps, sorted);
        var fields := MergeSteps(sorted, group);
        RulesForHere(store, hist, stop, br, fields, number[Edge(store[stop], br)]);
        file := file + [Rule(fields, number[Edge(store[stop], br)])];
        assert file[|old(file)|..] == [Rule(fields, number[Edge(store[stop], br)])];
      } else if here.Data? {
        assert HasEdge(here, true) && HasEdge(here, false);
        assert Below(store, rank, r, true) && Below(store, rank, r, false);
        WalkOn(r, hist, true, group);
        DumpAllPathsTo(here.t, hist + [Step(here.group, here.bit, true)], stop, br, used, group);
        ghost var mid := file;
        WalkOn(r, hist, false, group);
        DumpAllPathsTo(here.f, hist + [Step(here.group, here.bit, false)], stop, br, used, group);
        RulesForBranches(store, r, hist, stop, br, mid[|old(file)|..], file[|mid|..], number[Edge(store[stop], br)]);
        Longer(old(file), mid, file);
      } else {
        RulesForNone(store, r, hist, stop, br, number[Edge(store[stop], br)]);
        assert file[|old(file)|..] == [];
      }
    }

    static lemma Longer<T>(a: seq<T>, b: seq<T>, c: seq<T>)
      requires |a| <= |b| <= |c| && b[..|a|] == a && c[..|b|] == b
      ensures c[..|a|] == a && c[|a|..] == b[|a|..] + c[|b|..]
    {}

    lemma WalkOn(r: Ref, hist: seq<Step>, v: bool, group: int)
      requires Valid() && r < |store| && store[r].Data? && store[r].group == group
      requires NoRepeat(store, r, StepKeys(hist)) && OneGroup(hist, group) && DistinctBits(hist)
      ensures
        var hist' := hist + [Step(store[r].group, store[r].bit, v)];
        && Edge(store[r], v) < |store| && NoRepeat(store, Edge(store[r], v), StepKeys(hist'))
        && OneGroup(hist', group) && DistinctBits(hist') && Narrows(hist, Step(store[r].group, store[r].bit, v))
    {
      HistoryPush(hist, Step(store[r].group, store[r].bit, v), group);
      StepKeysPush(hist, Step(store[r].group, store[r].bit, v));
      NoRepeatEdge(store, r, StepKeys(hist), v);
    }
  
    /** What every round of the dump finds and leaves: a reduced live graph in one
        offset group, its actions numbered, no bit tested twice on a path. */
    ghost predicate Dumpable(root: Ref, used: set<Ref>, group: int)
      reads this
    {
      && Valid() && Closed(store, used) && root in used
      && MetersLow(store, used) && InGroup(store, used, group)
      && NoRepeat(store, root, {}) && ActionsAgree(store, used, number, table)
    }

    /** Makes the branches of `end` alike, so that nothing goes through `br` any
        more. */
    method EliminateBundle(end: Ref, br: bool, ghost root: Ref, ghost used: set<Ref>, ghost group: int)
      requires Dumpable(root, used, group) && end in used && end < |store| && store[end].Data?
      requires store[end].t != store[end].f
      modifies `store
      ensures Dumpable(root, used, group) && Cut(old(store), store, end, br) && Redundant(store[end])
    {
      ghost var before := store;
      assert Below(store, rank, end, !br);
      store := store[end := SetEdge(store[end], br, Edge(store[end], !br))];
      CutRanked(before, store, end, br, rank);
      CutShape(before, store, end, br, used, group);
      CutNoRepeat(before, store, end, br, root, {});
      ActionsAfterCut(before, store, end, br, used, number, table);
    }

    /** Merging and collapsing after a cut keep the graph dumpable and take the cut
        test out of use. */
    method Reduce(root: Ref, ghost gone: Ref, ghost used: set<Ref>, ghost group: int)
      returns (root': Ref, ghost used': set<Ref>)
      requires Dumpable(root, used, group) && gone in used && gone < |store| && store[gone].Data? && Redundant(store[gone])
      modifies `store, `rank, `registered, `leaves, `origin, `live, `resolved
      ensures Dumpable(root', used', group) && Choices(store, used')
      ensures |LiveTests(store, used')| < |LiveTests(old(store), used)|
      ensures |store| == |old(store)|
      ensures forall env, h :: Run(store, root', env, h) == Run(old(store), root, env, h)
    {
      root', used' := MergeCommon(root, used);
      ghost var merged, mergedRoot := store, root';
      ActionsStillAgree(old(store), used, merged, used', number, table);
      root' := CollapseCommon(root', used');
      ActionsStillAgree(merged, used', store, used', number, table);
      OnAllReplaces(merged, mergedRoot, root');
      assert forall r | r in used' :: SameTest(store[r], merged[r]) && SameTest(merged[r], old(store)[r]);
      LiveTestsFall(old(store), used, store, used', gone);
      forall env, h ensures Run(store, root', env, h) == Run(old(store), root, env, h) {
        assert Run(store, root', env, h) == Run(merged, root', env, h);
        assert Run(merged, mergedRoot, env, h) == Run(old(store), root, env, h);
      }
    }

    /** Writes the rules for one branch and abandons it. */
    method DumpBranch(root: Ref, ghost used: set<Ref>, ghost group: int, ghost s0: Store, ghost root0: Ref)
      returns (ghost end: Ref)
      requires Dumpable(root, used, group) && Choices(store, used) && store[root].Data?
      requires Acyclic(s0) && root0 < |s0| && Settled(s0, root0, store, root, table, file)
      modifies `store, `file
      ensures Dumpable(root, used, group) && Settled(s0, root0, store, root, table, file)
      ensures end in used && end < |store| && store[end].Data? && Redundant(store[end])
      ensures LiveTests(store, used) == LiveTests(old(store), used)
      ensures RulesOf(old(file), group) ==> RulesOf(file, group)
    {
      var e, br := FindBranch(root, used);
      end := e;
      assert HasEdge(store[e], br);
      assert StepKeys([]) == {};
      DumpAllPathsTo(root, [], e, br, used, group);
      assert !Redundant(store[e]);
      EliminateBundle(e, br, root, used, group);
      SettleRound(s0, root0, old(store), root, table, old(file), used, number, e, br, file[|old(file)|..], store);
      assert file == old(file) + file[|old(file)|..];
    }

    /** Writes rules for one branch after the other until only an action is left.
        First-match, they decide as the graph did. */
    method SmartDump(root: Ref, ghost used: set<Ref>, ghost group: int)
      requires Dumpable(root, used, group) && Choices(store, used) && file == []
      modifies `store, `rank, `registered, `leaves, `origin, `live, `resolved, `file
      ensures forall env, h :: Classify(table, file, env, h) == Run(old(store), root, env, h)
      ensures RulesOf(file, group)
    {
      var fsm := root;
      ghost var live' := used;
      while store[fsm].Data?
        invariant Dumpable(fsm, live', group) && Choices(store, live')
        invariant Settled(old(store), root, store, fsm, table, file) && RulesOf(file, group)
        decreases |LiveTests(store, live')|
      {
        ghost var end := DumpBranch(fsm, live', group, old(store), root);
        ghost var cut, cutRoot := store, fsm;
        fsm, live' := Reduce(fsm, end, live', group);
        forall env, h ensures SettledFor(old(store), root, store, fsm, table, file, env, h) {
          assert SettledFor(old(store), root, cut, cutRoot, table, file, env, h);
        }
      }
      DumpLast(old(store), root, fsm, live', file);
      file := file + [Rule([], number[fsm])];
    }

    lemma DumpLast(s0: Store, root0: Ref, root: Ref, used: set<Ref>, rules: seq<Rule>)
      requires Acyclic(s0) && root0 < |s0| && Valid() && root in used && root < |store| && !store[root].Data?
      requires ActionsAgree(store, used, number, table) && Settled(s0, root0, store, root, table, rules)
      ensures root in number
      ensures forall env, h :: Classify(table, rules + [Rule([], number[root])], env, h) == Run(s0, root0, env, h)
    {
      forall env, h ensures Classify(table, rules + [Rule([], number[root])], env, h) == Run(s0, root0, env, h) {
        assert SettledFor(s0, root0, store, root, table, rules, env, h);
        FirstMatchAppend(rules, [Rule([], number[root])], env);
      }
    }
  }
}
