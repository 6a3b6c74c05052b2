/** Removal of tests whose outcome is already known from an earlier test on the
    way down. */
module Duplicates {
  import opened Semantics
  import opened Graph
  import opened Static
  import opened Repeats
  import opened Retests

  /** `s'` extends `s`: every node behaves as before, and brings in nothing that would have
      to be removed. */
  ghost predicate KeepsAll(s: Store, s': Store) { Preserves(s, s') && KeepsShape(s, s') && KeepsAsked(s, s') }

  lemma KeepsAllTrans(a: Store, b: Store, c: Store)
    requires KeepsAll(a, b) && KeepsAll(b, c)
    ensures KeepsAll(a, c)
  {
    PreservesTrans(a, b, c);
    KeepsShapeTrans(a, b, c);
  }

  /** A step of the way from the root to the node being visited. */
  datatype Frame = Frame(node: Ref, branch: bool)

  /** The frames form a walk: each one leads to the next. */
  ghost predicate Chain(s: Store, frames: seq<Frame>) {
    && (forall i | 0 <= i < |frames| :: frames[i].node < |s| && HasEdge(s[frames[i].node], frames[i].branch))
    && (forall i | 0 <= i < |frames| - 1 :: Linked(s, frames, i))
  }

  ghost predicate Linked(s: Store, frames: seq<Frame>, i: nat)
    requires i + 1 < |frames| && frames[i].node < |s| && HasEdge(s[frames[i].node], frames[i].branch)
  {
    Edge(s[frames[i].node], frames[i].branch) == frames[i + 1].node
  }

  /** Where the walk goes after its last frame. */
  ghost function End(s: Store, frames: seq<Frame>, start: Ref): Ref
    requires Chain(s, frames)
  {
    if frames == [] then start else Edge(s[frames[|frames| - 1].node], frames[|frames| - 1].branch)
  }

  ghost predicate Leads(s: Store, frames: seq<Frame>, to: Ref) {
    Chain(s, frames) && to < |s| && End(s, frames, to) == to
  }

  /** The packet bits tested on the walk. */
  ghost function Seen(s: Store, frames: seq<Frame>): set<Key>
    requires forall i | 0 <= i < |frames| :: frames[i].node < |s|
  {
    set i, k | 0 <= i < |frames| && k in Tests(s[frames[i].node]) :: k
  }

  /** The node after frame `j`: where the walk stands when it leaves that frame. */
  function Next(frames: seq<Frame>, j: nat, to: Ref): Ref {
    if j + 1 < |frames| then frames[j + 1].node else to
  }

  /** `frames'` walks through nodes asking what `frames` asked, with the same
      branches taken and the branches not taken left alone. */
  ghost predicate SameWalk(s: Store, frames: seq<Frame>, s': Store, frames': seq<Frame>) {
    && |frames'| == |frames|
    && (forall i | 0 <= i < |frames| :: frames[i].node < |s| && frames'[i].node < |s'|)
    && (forall i | 0 <= i < |frames| :: frames'[i].branch == frames[i].branch)
    && (forall i | 0 <= i < |frames| :: SameAside(s[frames[i].node], s'[frames'[i].node], frames[i].branch))
    && (|frames| > 0 ==> frames'[0].node == frames[0].node)
  }

  ghost predicate SameAside(n: Node, n': Node, br: bool) {
    SameTest(n', n) && (HasEdge(n, !br) ==> Edge(n', !br) == Edge(n, !br))
  }

  lemma SameSeen(s: Store, frames: seq<Frame>, s': Store, frames': seq<Frame>)
    requires SameWalk(s, frames, s', frames')
    ensures Seen(s', frames') == Seen(s, frames)
  {
    assert forall i | 0 <= i < |frames| :: Tests(s'[frames'[i].node]) == Tests(s[frames[i].node]) by {
      forall i | 0 <= i < |frames| ensures Tests(s'[frames'[i].node]) == Tests(s[frames[i].node]) {
        assert SameAside(s[frames[i].node], s'[frames'[i].node], frames[i].branch);
      }
    }
    forall k ensures k in Seen(s', frames') <==> k in Seen(s, frames) {
      if k in Seen(s, frames) {
        var i :| 0 <= i < |frames| && k in Tests(s[frames[i].node]);
        assert k in Tests(s'[frames'[i].node]);
      }
      if k in Seen(s', frames') {
        var i :| 0 <= i < |frames'| && k in Tests(s'[frames'[i].node]);
        assert k in Tests(s[frames[i].node]);
      }
    }
  }

  lemma SeenPush(s: Store, frames: seq<Frame>, last: Frame)
    requires forall i | 0 <= i < |frames| :: frames[i].node < |s|
    requires last.node < |s|
    ensures Seen(s, frames + [last]) == Seen(s, frames) + Tests(s[last.node])
  {
    var all := frames + [last];
    forall k ensures k in Seen(s, all) <==> k in Seen(s, frames) + Tests(s[last.node]) {
      if k in Seen(s, frames) {
        var i :| 0 <= i < |frames| && k in Tests(s[frames[i].node]);
        assert all[i] == frames[i];
      }
      if k in Tests(s[last.node]) { assert all[|frames|] == last; }
      if k in Seen(s, all) {
        var i :| 0 <= i < |all| && k in Tests(s[all[i].node]);
        if i < |frames| { assert frames[i] == all[i]; }
      }
    }
  }

  /** The buckets whose conformance is known at the end of the walk. */
  function Asked(s: Store, frames: seq<Frame>): set<nat>
    requires forall i | 0 <= i < |frames| :: frames[i].node < |s|
  {
    if frames == [] then {} else Known(s[frames[|frames| - 1].node], Asked(s, frames[..|frames| - 1]))
  }

  lemma {:induction false} SameAsked(s: Store, frames: seq<Frame>, s': Store, frames': seq<Frame>)
    requires SameWalk(s, frames, s', frames')
    ensures Asked(s', frames') == Asked(s, frames)
    decreases |frames|
  {
    if frames != [] {
      var k := |frames| - 1;
      assert SameAside(s[frames[k].node], s'[frames'[k].node], frames[k].branch);
      SameWalkInit(s, frames, s', frames');
      SameAsked(s, frames[..k], s', frames'[..k]);
    }
  }

  lemma AskedPush(s: Store, frames: seq<Frame>, last: Frame)
    requires (forall i | 0 <= i < |frames| :: frames[i].node < |s|) && last.node < |s|
    ensures Asked(s, frames + [last]) == Known(s[last.node], Asked(s, frames))
  {
    assert (frames + [last])[..|frames|] == frames;
  }

  /** A frame that neither asks for a bucket nor counts it changes nothing for it. */
  lemma AskedBefore(s: Store, frames: seq<Frame>, k: nat, bucket: nat)
    requires (forall i | 0 <= i < |frames| :: frames[i].node < |s|) && k < |frames|
    ensures !Counts(s[frames[k].node], bucket) && !(s[frames[k].node].Conform? && s[frames[k].node].bucket == bucket) ==>
      (bucket in Asked(s, frames[..k + 1]) <==> bucket in Asked(s, frames[..k]))
    ensures Counts(s[frames[k].node], bucket) ==> bucket !in Asked(s, frames[..k + 1])
  {
    assert frames[..k + 1] == frames[..k] + [frames[k]];
    AskedPush(s, frames[..k], frames[k]);
  }

  lemma ChainRank(s: Store, rk: seq<nat>, frames: seq<Frame>, i: nat, j: nat)
    requires Ranked(s, rk) && Chain(s, frames) && i < j < |frames|
    ensures rk[frames[j].node] < rk[frames[i].node]
    decreases j - i
  {
    assert Below(s, rk, frames[i].node, frames[i].branch) && Linked(s, frames, i);
    if i + 1 < j { ChainRank(s, rk, frames, i + 1, j); }
  }

  /** A later test repeats the one at frame `k` when it asks the same and nothing
      in between can change the answer. */
  ghost predicate SettledBy(s: Store, frames: seq<Frame>, k: nat, bit: Ref)
    requires Chain(s, frames) && bit < |s|
  {
    && k < |frames|
    && Inner(s[bit]) && SameTest(s[frames[k].node], s[bit])
    && (s[bit].Conform? ==> forall i | k < i < |frames| :: !Counts(s[frames[i].node], s[bit].bucket))
  }

  predicate Counts(n: Node, bucket: nat) { n.Count? && n.bucket == bucket }

  /** Entered at a moment when the repeated test would answer `br`, node `a`
      behaves like node `b`. */
  ghost predicate AgreeGiven(s: Store, test: Node, br: bool, a: Ref, b: Ref)
    requires Acyclic(s) && a < |s| && b < |s| && Inner(test)
  {
    forall env, h :: Takes(test, env, h) == br ==> Run(s, a, env, h) == Run(s, b, env, h)
  }

  /** Passing through a node that is no count of the tested bucket keeps the
      answer. */
  lemma AnswerKept(test: Node, w: Node, env: Env, h: Hist)
    requires Inner(test) && (test.Conform? ==> !Counts(w, test.bucket))
    ensures Takes(test, env, After(w, h)) == Takes(test, env, h)
  {}

  /** One step of the path copy: a clone of `w` whose walked branch leads to a
      node agreeing with the original successor agrees with `w`. */
  lemma CloneAgrees(s: Store, w: Ref, wbr: bool, next: Ref, test: Node, br: bool)
    requires Acyclic(s) && w < |s| && HasEdge(s[w], wbr) && next < |s| && Inner(test)
    requires test.Conform? ==> !Counts(s[w], test.bucket)
    requires Edge(s[w], wbr) < |s| && AgreeGiven(s, test, br, next, Edge(s[w], wbr))
    ensures
      var s' := s + [SetEdge(s[w], wbr, next)];
      Acyclic(s) && EdgesWithin(SetEdge(s[w], wbr, next), |s|) && Preserves(s, s')
      && AgreeGiven(s', test, br, |s|, w)
  {
    var n := SetEdge(s[w], wbr, next);
    var s' := s + [n];
    forall go | HasEdge(n, go) ensures Edge(n, go) < |s| { EdgeDown(s, w, go); }
    Append(s, n);
    forall env, h | Takes(test, env, h) == br ensures Run(s', |s|, env, h) == Run(s', w, env, h) {
      var go := Takes(s[w], env, h);
      EdgeDown(s', |s|, go);
      EdgeDown(s', w, go);
      EdgeDown(s, w, go);
      AnswerKept(test, s[w], env, h);
      assert Run(s', Edge(n, go), env, After(n, h)) == Run(s, Edge(n, go), env, After(n, h));
    }
  }

  lemma CloneFits(s: Store, w: Ref, wbr: bool, next: Ref)
    requires Acyclic(s) && w < |s| && HasEdge(s[w], wbr) && next < |s|
    requires Edge(s[w], wbr) < |s| && FitsWhere(s, Edge(s[w], wbr), next)
    requires EdgesWithin(SetEdge(s[w], wbr, next), |s|)
    requires Acyclic(s + [SetEdge(s[w], wbr, next)])
    ensures FitsWhere(s + [SetEdge(s[w], wbr, next)], w, |s|)
  {
    var n := SetEdge(s[w], wbr, next);
    var s' := s + [n];
    forall seen | NoRepeat(s', w, seen) ensures NoRepeat(s', |s|, seen) {
      AppendNoRepeat(s, n, w, seen);
      forall go | HasEdge(n, go)
        ensures Edge(n, go) < |s'| && NoRepeat(s', Edge(n, go), seen + Tests(n))
      {
        NoRepeatEdge(s, w, seen, go);
        assert Tests(n) == Tests(s[w]);
        AppendNoRepeat(s, n, Edge(n, go), seen + Tests(n));
      }
    }
    CloneStatic(s, w, wbr, next);
    forall g | Plain(s', w, g) ensures Plain(s', |s|, g) { ClonePlain(s, w, wbr, next, g); }
    CloneTested(s, w, wbr, next);
  }

  lemma CloneTested(s: Store, w: Ref, wbr: bool, next: Ref)
    requires Acyclic(s) && w < |s| && HasEdge(s[w], wbr) && next < |s|
    requires Edge(s[w], wbr) < |s| && FewerTests(s, Edge(s[w], wbr), s, next)
    requires EdgesWithin(SetEdge(s[w], wbr, next), |s|)
    requires Acyclic(s + [SetEdge(s[w], wbr, next)])
    ensures FewerTests(s + [SetEdge(s[w], wbr, next)], w, s + [SetEdge(s[w], wbr, next)], |s|)
  {
    var n := SetEdge(s[w], wbr, next);
    var s' := s + [n];
    forall go | HasEdge(s'[w], go)
      ensures Edge(s'[w], go) < |s'| && Edge(s'[|s|], go) < |s'| && FewerTests(s', Edge(s'[w], go), s', Edge(s'[|s|], go))
    {
      EdgeDown(s, w, go);
      AppendTested(s, n, Edge(s[w], go));
      AppendTested(s, n, Edge(n, go));
    }
    FewerTestsUp(s', w, s', |s|);
  }

  lemma CloneStatic(s: Store, w: Ref, wbr: bool, next: Ref)
    requires Acyclic(s) && w < |s| && HasEdge(s[w], wbr) && next < |s|
    requires Edge(s[w], wbr) < |s| && FitsWhere(s, Edge(s[w], wbr), next)
    requires EdgesWithin(SetEdge(s[w], wbr, next), |s|)
    requires Acyclic(s + [SetEdge(s[w], wbr, next)])
    ensures
      var s' := s + [SetEdge(s[w], wbr, next)];
      (NoData(s', w) ==> NoData(s', |s|)) && (IsStatic(s', w) ==> IsStatic(s', |s|))
  {
    var n := SetEdge(s[w], wbr, next);
    var s' := s + [n];
    forall go | HasEdge(n, go)
      ensures Edge(n, go) < |s|
      ensures NoData(s', w) ==> NoData(s', Edge(n, go))
      ensures IsStatic(s', w) ==> IsStatic(s', Edge(n, go))
    {
      EdgeDown(s', w, go); EdgeDown(s, w, go);
      AppendNoData(s, n, Edge(n, go));
      AppendNoData(s, n, Edge(s[w], go));
      AppendStaticBack(s, n, Edge(s[w], go));
      if NoData(s', w) { NoDataEdge(s', w, go); }
      if IsStatic(s', w) { StaticEdge(s', w, go); }
    }
  }

  lemma ClonePlain(s: Store, w: Ref, wbr: bool, next: Ref, g: int)
    requires Acyclic(s) && w < |s| && HasEdge(s[w], wbr) && next < |s|
    requires Edge(s[w], wbr) < |s| && FitsWhere(s, Edge(s[w], wbr), next)
    requires EdgesWithin(SetEdge(s[w], wbr, next), |s|)
    requires Acyclic(s + [SetEdge(s[w], wbr, next)])
    requires Plain(s + [SetEdge(s[w], wbr, next)], w, g)
    ensures Plain(s + [SetEdge(s[w], wbr, next)], |s|, g)
  {
    var n := SetEdge(s[w], wbr, next);
    var s' := s + [n];
    forall go | HasEdge(n, go) ensures Edge(n, go) < |s'| && Plain(s', Edge(n, go), g) {
      PlainEdge(s', w, g, go);
      EdgeDown(s, w, go);
      if go == wbr {
        AppendPlainBack(s, n, Edge(s[w], go), g);
        AppendPlain(s, n, next, g);
      }
    }
  }

  lemma ChildFits(s: Store, r: Ref, br: bool)
    requires Acyclic(s) && r < |s| && HasEdge(s[r], br)
    ensures Edge(s[r], br) < |s| && FitsWhere(s, r, Edge(s[r], br))
  {
    EdgeDown(s, r, br);
    forall seen | NoRepeat(s, r, seen) ensures NoRepeat(s, Edge(s[r], br), seen) {
      NoRepeatEdge(s, r, seen, br);
      NoRepeatFewer(s, Edge(s[r], br), seen + Tests(s[r]), seen);
    }
    EdgeShape(s, r, br);
    SeparateEdge(s, r, br);
  }

  /** The frames after `j` have been replaced by fresh copies ending at `res`. */
  ghost predicate Copied(s0: Store, frames: seq<Frame>, s: Store, frames': seq<Frame>, j: nat, res: Ref) {
    && |frames'| == |frames| && s0 <= s
    && (forall i | 0 <= i < |frames| && i <= j :: frames'[i] == frames[i])
    && (forall i | j < i < |frames| :: Copy(s0, frames[i], s, frames'[i]))
    && (forall i | j < i < |frames| :: CopyLinked(s, frames', i, res))
  }

  ghost predicate CopyLinked(s: Store, frames': seq<Frame>, i: nat, res: Ref)
    requires i < |frames'| && frames'[i].node < |s| && HasEdge(s[frames'[i].node], frames'[i].branch)
  {
    Edge(s[frames'[i].node], frames'[i].branch) == Next(frames', i, res)
  }

  ghost predicate Copy(s0: Store, w: Frame, s: Store, w': Frame) {
    && w.node < |s0| && |s0| <= w'.node < |s| && w'.branch == w.branch
    && HasEdge(s0[w.node], w.branch) && HasEdge(s[w'.node], w'.branch)
    && SameAside(s0[w.node], s[w'.node], w.branch)
  }

  lemma CopiedStep(s0: Store, frames: seq<Frame>, s: Store, frames': seq<Frame>, j: nat, res: Ref, next: Ref)
    requires Copied(s0, frames, s, frames', j, res) && 0 < j < |frames|
    requires frames[j].node < |s0| && HasEdge(s0[frames[j].node], frames[j].branch)
    requires Next(frames', j, res) == next
    ensures
      var w := frames[j];
      Copied(s0, frames, s + [SetEdge(s[w.node], w.branch, next)], frames'[j := Frame(|s|, w.branch)], j - 1, res)
  {
    var w := frames[j];
    var s', fs := s + [SetEdge(s[w.node], w.branch, next)], frames'[j := Frame(|s|, w.branch)];
    forall i | j - 1 < i < |frames|
      ensures Copy(s0, frames[i], s', fs[i])
      ensures CopyLinked(s', fs, i, res)
    {
      if i != j { assert Copy(s0, frames[i], s, frames'[i]) && CopyLinked(s, frames', i, res); }
    }
  }

  lemma CopiedLink(s0: Store, frames: seq<Frame>, s: Store, frames': seq<Frame>, k: nat, res: Ref, next: Ref, rk: seq<nat>, i: nat)
    requires Ranked(s0, rk) && Chain(s0, frames) && k < |frames| && Copied(s0, frames, s, frames', k, res)
    requires Next(frames', k, res) == next && next < |s| && i < |frames|
    ensures
      var w, w', n := frames[i], frames'[i], frames[k].node;
      var m := (if w'.node == n then SetEdge(s[n], frames[k].branch, next) else s[w'.node]);
      && w'.node < |s| && w'.branch == w.branch && HasEdge(m, w.branch)
      && SameAside(s0[w.node], m, w.branch) && Edge(m, w.branch) == Next(frames', i, res)
  {
    if i < k {
      ChainRank(s0, rk, frames, i, k);
      assert Linked(s0, frames, i);
    } else if i > k {
      assert Copy(s0, frames[i], s, frames'[i]) && CopyLinked(s, frames', i, res);
    }
  }

  /** Linking the copied tail in at frame `k` makes a walk again. */
  lemma CopiedWalk(s0: Store, frames: seq<Frame>, s: Store, frames': seq<Frame>, k: nat, res: Ref, next: Ref, rk: seq<nat>)
    requires Ranked(s0, rk) && Chain(s0, frames) && k < |frames| && Copied(s0, frames, s, frames', k, res)
    requires Next(frames', k, res) == next && next < |s| && res < |s0|
    ensures
      var s' := s[frames[k].node := SetEdge(s[frames[k].node], frames[k].branch, next)];
      SameWalk(s0, frames, s', frames') && Leads(s', frames', res)
  {
    forall i | 0 <= i < |frames|
      ensures
        var w, w', n := frames[i], frames'[i], frames[k].node;
        var m := (if w'.node == n then SetEdge(s[n], frames[k].branch, next) else s[w'.node]);
        && w'.node < |s| && w'.branch == w.branch && HasEdge(m, w.branch)
        && SameAside(s0[w.node], m, w.branch) && Edge(m, w.branch) == Next(frames', i, res)
    {
      CopiedLink(s0, frames, s, frames', k, res, next, rk, i);
    }
    var s' := s[frames[k].node := SetEdge(s[frames[k].node], frames[k].branch, next)];
    forall i | 0 <= i < |frames'| - 1 ensures Linked(s', frames', i) {}
  }

  lemma SameWalkTrans(a: Store, fa: seq<Frame>, b: Store, fb: seq<Frame>, c: Store, fc: seq<Frame>)
    requires SameWalk(a, fa, b, fb) && SameWalk(b, fb, c, fc)
    ensures SameWalk(a, fa, c, fc)
  {
    forall i | 0 <= i < |fa| ensures SameAside(a[fa[i].node], c[fc[i].node], fa[i].branch) {
      assert SameAside(a[fa[i].node], b[fb[i].node], fa[i].branch);
      assert SameAside(b[fb[i].node], c[fc[i].node], fb[i].branch);
    }
  }

  lemma SameWalkInit(a: Store, fa: seq<Frame>, b: Store, fb: seq<Frame>)
    requires SameWalk(a, fa, b, fb) && fa != []
    ensures SameWalk(a, fa[..|fa| - 1], b, fb[..|fb| - 1])
  {
    var n := |fa| - 1;
    forall i | 0 <= i < n ensures SameAside(a[fa[..n][i].node], b[fb[..n][i].node], fa[..n][i].branch) {
      assert SameAside(a[fa[i].node], b[fb[i].node], fa[i].branch);
    }
  }

  lemma SameWalkRefl(s: Store, frames: seq<Frame>)
    requires forall i | 0 <= i < |frames| :: frames[i].node < |s|
    ensures SameWalk(s, frames, s, frames)
  {
    forall i | 0 <= i < |frames| ensures SameAside(s[frames[i].node], s[frames[i].node], frames[i].branch) {}
  }

  /** Both subgraphs below a new last frame are repeat-free, so the frame's node
      may take its place at the end of the walk. */
  lemma JoinBranches(s: Store, walk: seq<Frame>)
    requires Acyclic(s) && walk != [] && (forall i | 0 <= i < |walk| :: walk[i].node < |s|)
    requires
      var n := walk[|walk| - 1].node;
      && Tests(s[n]) !! Seen(s, walk[..|walk| - 1])
      && forall br | HasEdge(s[n], br) :: Edge(s[n], br) < |s| && NoRepeat(s, Edge(s[n], br), Seen(s, walk))
    ensures NoRepeat(s, walk[|walk| - 1].node, Seen(s, walk[..|walk| - 1]))
  {
    var k := |walk| - 1;
    assert walk == walk[..k] + [walk[k]];
    SeenPush(s, walk[..k], walk[k]);
  }

  /** A walk up to, but not beyond, the node of its last frame. */
  ghost predicate Visits(s: Store, walk: seq<Frame>) {
    walk != [] && Leads(s, walk[..|walk| - 1], walk[|walk| - 1].node)
  }

  lemma ChainVisits(s: Store, walk: seq<Frame>)
    requires Chain(s, walk) && walk != []
    ensures Visits(s, walk)
  {
    var init := walk[..|walk| - 1];
    if init != [] {
      assert Linked(s, walk, |init| - 1);
      forall i | 0 <= i < |init| - 1 ensures Linked(s, init, i) { assert Linked(s, walk, i); }
    }
  }

  /** Visiting both branches of `bit`, the false one taking store `s0` to `s1` and
      the true one `s1` to `s2`, leaves the walk up to `bit` as it was. */
  lemma WalkAfterBoth(s0: Store, frames: seq<Frame>, bit: Ref, s1: Store, w1: seq<Frame>, s2: Store, w2: seq<Frame>)
    requires bit < |s0| && SameWalk(s0, frames + [Frame(bit, false)], s1, w1)
    requires SameWalk(s1, w1[|frames| := Frame(w1[|frames|].node, true)], s2, w2)
    ensures SameWalk(s0, frames, s2, w2[..|frames|])
  {
    var last := |frames|;
    var w0, w1t := frames + [Frame(bit, false)], w1[last := Frame(w1[last].node, true)];
    SameWalkInit(s0, w0, s1, w1);
    SameWalkInit(s1, w1t, s2, w2);
    assert w0[..last] == frames && w1t[..last] == w1[..last];
    SameWalkTrans(s0, frames, s1, w1[..last], s2, w2[..last]);
  }

  lemma SeenTurned(s: Store, w: seq<Frame>, br: bool)
    requires w != [] && forall i | 0 <= i < |w| :: w[i].node < |s|
    ensures Seen(s, w[|w| - 1 := Frame(w[|w| - 1].node, br)]) == Seen(s, w)
  {
    var k := |w| - 1;
    var t := w[k := Frame(w[k].node, br)];
    assert w == w[..k] + [w[k]] && t == w[..k] + [t[k]];
    SeenPush(s, w[..k], w[k]);
    SeenPush(s, w[..k], t[k]);
  }

  /** The walk goes where `frames` went, and what it leads to repeats nothing. */
  ghost predicate Cleaned(s0: Store, frames: seq<Frame>, bit: Ref, s: Store, frames': seq<Frame>) {
    && Acyclic(s) && SameWalk(s0, frames, s, frames') && Chain(s, frames') && End(s, frames', bit) < |s|
    && NoRepeat(s, End(s, frames', bit), Seen(s, frames')) && NoRetest(s, End(s, frames', bit), Asked(s, frames'))
  }

  /** The branch named by the last frame repeats nothing of the walk. */
  ghost predicate BranchDone(s: Store, walk: seq<Frame>)
    requires Acyclic(s) && walk != [] && (forall i | 0 <= i < |walk| :: walk[i].node < |s|)
  {
    var last := walk[|walk| - 1];
    HasEdge(s[last.node], last.branch) ==>
      Edge(s[last.node], last.branch) < |s| && NoRepeat(s, Edge(s[last.node], last.branch), Seen(s, walk))
  }

  /** ... and asks for nothing that is known there. */
  ghost predicate BranchAsked(s: Store, walk: seq<Frame>)
    requires Acyclic(s) && walk != [] && (forall i | 0 <= i < |walk| :: walk[i].node < |s|)
  {
    var last := walk[|walk| - 1];
    HasEdge(s[last.node], last.branch) ==>
      Edge(s[last.node], last.branch) < |s| && NoRetest(s, Edge(s[last.node], last.branch), Asked(s, walk))
  }

  lemma BothAsked(s0: Store, frames: seq<Frame>, bit: Ref, s1: Store, w1: seq<Frame>, s2: Store, w2: seq<Frame>)
    requires bit < |s0| && (forall i | 0 <= i < |frames| :: frames[i].node < |s0|)
    requires s0[bit].Conform? ==> s0[bit].bucket !in Asked(s0, frames)
    requires SameWalk(s0, frames + [Frame(bit, false)], s1, w1)
    requires SameWalk(s1, w1[|frames| := Frame(w1[|frames|].node, true)], s2, w2)
    requires KeepsAsked(s1, s2) && BranchAsked(s1, w1) && BranchAsked(s2, w2)
    ensures NoRetest(s2, w2[|frames|].node, Asked(s2, w2[..|frames|]))
  {
    var last := |frames|;
    var w0, w1t := frames + [Frame(bit, false)], w1[last := Frame(w1[last].node, true)];
    WalkAfterBoth(s0, frames, bit, s1, w1, s2, w2);
    SameAsked(s0, frames, s2, w2[..last]);
    SameAsked(s1, w1t, s2, w2);
    assert w1[..last] == w1t[..last] && w1 == w1[..last] + [w1[last]] && w1t == w1[..last] + [w1t[last]] && w2 == w2[..last] + [w2[last]];
    AskedPush(s1, w1[..last], w1[last]);
    AskedPush(s1, w1[..last], w1t[last]);
    AskedPush(s2, w2[..last], w2[last]);
    assert SameAside(s0[w0[last].node], s1[w1[last].node], w0[last].branch);
    assert SameAside(s1[w1t[last].node], s2[w2[last].node], w1t[last].branch);
  }

  /** Done, the branch leaves no repeat below it. */
  lemma BothVisited(s0: Store, frames: seq<Frame>, bit: Ref, s1: Store, w1: seq<Frame>, s2: Store, w2: seq<Frame>)
    requires bit < |s0| && (forall i | 0 <= i < |frames| :: frames[i].node < |s0|)
    requires Tests(s0[bit]) !! Seen(s0, frames)
    requires SameWalk(s0, frames + [Frame(bit, false)], s1, w1)
    requires SameWalk(s1, w1[|frames| := Frame(w1[|frames|].node, true)], s2, w2)
    requires KeepsShape(s1, s2)
    requires BranchDone(s1, w1) && BranchDone(s2, w2)
    ensures NoRepeat(s2, w2[|frames|].node, Seen(s2, w2[..|frames|]))
  {
    var last := |frames|;
    var w0, w1t := frames + [Frame(bit, false)], w1[last := Frame(w1[last].node, true)];
    WalkAfterBoth(s0, frames, bit, s1, w1, s2, w2);
    SameSeen(s0, frames, s2, w2[..last]);
    SameSeen(s1, w1t, s2, w2);
    SeenTurned(s1, w1, true);
    assert SameAside(s0[w0[last].node], s1[w1[last].node], w0[last].branch);
    assert SameAside(s1[w1t[last].node], s2[w2[last].node], w1t[last].branch);
    JoinBranches(s2, w2);
  }

  lemma WalkCleaned(s0: Store, frames: seq<Frame>, bit: Ref, s1: Store, w1: seq<Frame>, s2: Store, w2: seq<Frame>)
    requires bit < |s0| <= |s2| && (forall i | 0 <= i < |frames| :: frames[i].node < |s0|)
    requires Tests(s0[bit]) !! Seen(s0, frames) && (s0[bit].Conform? ==> s0[bit].bucket !in Asked(s0, frames))
    requires SameWalk(s0, frames + [Frame(bit, false)], s1, w1)
    requires SameWalk(s1, w1[|frames| := Frame(w1[|frames|].node, true)], s2, w2) && Visits(s2, w2)
    requires KeepsAll(s1, s2)
    requires BranchDone(s1, w1) && BranchDone(s2, w2) && BranchAsked(s1, w1) && BranchAsked(s2, w2)
    ensures Cleaned(s0, frames, bit, s2, w2[..|frames|])
  {
    WalkAfterBoth(s0, frames, bit, s1, w1, s2, w2);
    BothVisited(s0, frames, bit, s1, w1, s2, w2);
    BothAsked(s0, frames, bit, s1, w1, s2, w2);
    WalkEnd(s0, frames, bit, s1, w1, s2, w2);
  }

  lemma WalkEnd(s0: Store, frames: seq<Frame>, bit: Ref, s1: Store, w1: seq<Frame>, s2: Store, w2: seq<Frame>)
    requires SameWalk(s0, frames + [Frame(bit, false)], s1, w1)
    requires SameWalk(s1, w1[|frames| := Frame(w1[|frames|].node, true)], s2, w2) && Visits(s2, w2)
    ensures Chain(s2, w2[..|frames|]) && End(s2, w2[..|frames|], bit) == w2[|frames|].node
  {}

  lemma VisitsOn(s: Store, walk: seq<Frame>, br: bool)
    requires Visits(s, walk) && HasEdge(s[walk[|walk| - 1].node], br)
    requires Edge(s[walk[|walk| - 1].node], br) < |s|
    ensures
      var on := walk[|walk| - 1 := Frame(walk[|walk| - 1].node, br)];
      Leads(s, on, Edge(s[walk[|walk| - 1].node], br))
  {
    var k := |walk| - 1;
    var on := walk[k := Frame(walk[k].node, br)];
    forall i | 0 <= i < |on| ensures on[i].node < |s| && HasEdge(s[on[i].node], on[i].branch) {
      if i < k { assert on[i] == walk[..k][i]; }
    }
    forall i | 0 <= i < |on| - 1 ensures Linked(s, on, i) {
      assert on[i] == walk[..k][i];
      if i < k - 1 { assert Linked(s, walk[..k], i) && on[i + 1] == walk[..k][i + 1]; }
    }
  }

  lemma SameWalkVisits(s: Store, walk: seq<Frame>)
    requires Visits(s, walk)
    ensures SameWalk(s, walk, s, walk)
  {
    forall i | 0 <= i < |walk| ensures walk[i].node < |s| {
      if i < |walk| - 1 { assert walk[i] == walk[..|walk| - 1][i]; }
    }
    SameWalkRefl(s, walk);
  }

  lemma NextIs(s: Store, frames: seq<Frame>, bit: Ref, j: nat)
    requires Leads(s, frames, bit) && j < |frames|
    ensures Next(frames, j, bit) < |s|
    ensures Edge(s[frames[j].node], frames[j].branch) == Next(frames, j, bit)
  {
    if j + 1 < |frames| { assert Linked(s, frames, j); }
  }

  /** The path copy has reached frame `j`: from there on, `next` stands for what
      the walk went through, as long as the settled answer is `br`. */
  ghost predicate Copying(s0: Store, frames: seq<Frame>, bit: Ref, br: bool, s: Store, frames': seq<Frame>,
                          j: nat, res: Ref, next: Ref)
    requires Acyclic(s0) && bit < |s0| && Inner(s0[bit])
  {
    && KeepsAll(s0, s)
    && Copied(s0, frames, s, frames', j, res)
    && next < |s| && Next(frames', j, res) == next && Next(frames, j, bit) < |s|
    && MayFollow(s, s0[bit], br, next, Next(frames, j, bit))
  }

  /** Given the answer, `a` behaves like `b`, and may be placed where `b` may. */
  ghost predicate MayFollow(s: Store, test: Node, br: bool, a: Ref, b: Ref)
    requires Acyclic(s) && a < |s| && b < |s| && Inner(test)
  {
    AgreeGiven(s, test, br, a, b) && FitsWhere(s, b, a) && AskedWhere(s, b, a)
  }

  ghost predicate Midway(s0: Store, frames: seq<Frame>, bit: Ref, br: bool, s: Store, rk: seq<nat>, frames': seq<Frame>,
                         j: nat, res: Ref, next: Ref)
    requires Acyclic(s0) && bit < |s0| && Inner(s0[bit]) && |rk| == |s|
  {
    Copying(s0, frames, bit, br, s, frames', j, res, next) && rk[next] <= rk[Next(frames, j, bit)]
  }

  lemma CopyStep(s0: Store, frames: seq<Frame>, k: nat, bit: Ref, br: bool, s: Store, frames': seq<Frame>,
                 j: nat, res: Ref, next: Ref)
    requires Acyclic(s0) && Leads(s0, frames, bit) && SettledBy(s0, frames, k, bit) && k < j < |frames|
    requires Copying(s0, frames, bit, br, s, frames', j, res, next)
    ensures
      var w := frames[j];
      var s' := s + [SetEdge(s[w.node], w.branch, next)];
      EdgesWithin(SetEdge(s[w.node], w.branch, next), |s|)
      && Copying(s0, frames, bit, br, s', frames'[j := Frame(|s|, w.branch)], j - 1, res, |s|)
  {
    var w := frames[j];
    var n := SetEdge(s[w.node], w.branch, next);
    NextIs(s0, frames, bit, j);
    CloneAgrees(s, w.node, w.branch, next, s0[bit], br);
    CloneFits(s, w.node, w.branch, next);
    CloneAsked(s, w.node, w.branch, next);
    AppendKeepsAsked(s, n);
    CopiedStep(s0, frames, s, frames', j, res, next);
    AppendKeepsShape(s, n);
    KeepsShapeTrans(s0, s, s + [n]);
    PreservesTrans(s0, s, s + [n]);
    NextIs(s0, frames, bit, j - 1);
  }

  lemma CopyStart(s: Store, frames: seq<Frame>, k: nat, bit: Ref)
    requires Acyclic(s) && Leads(s, frames, bit) && SettledBy(s, frames, k, bit)
    ensures
      var br := frames[k].branch;
      Edge(s[bit], br) < |s| && Copying(s, frames, bit, br, s, frames, |frames| - 1, Edge(s[bit], br), Edge(s[bit], br))
  {
    ChildFits(s, bit, frames[k].branch);
    ChildAsked(s, bit, frames[k].branch);
  }

  lemma CopyEnd(s0: Store, frames: seq<Frame>, k: nat, bit: Ref, s: Store, frames': seq<Frame>, res: Ref, next: Ref)
    requires Acyclic(s0) && Leads(s0, frames, bit) && SettledBy(s0, frames, k, bit)
    requires Copying(s0, frames, bit, frames[k].branch, s, frames', k, res, next)
    ensures
      var p, br := frames[k].node, frames[k].branch;
      && p < |s| && s[p] == s0[p] && Edge(s[p], br) == Next(frames, k, bit)
      && StandsIn(s, p, br, next) && FitsWhere(s, Edge(s[p], br), next) && AskedWhere(s, Edge(s[p], br), next)
  {
    NextIs(s0, frames, bit, k);
    var p, br := frames[k].node, frames[k].branch;
    forall env, h | Takes(s[p], env, h) == br
      ensures Run(s, next, env, After(s[p], h)) == Run(s, Edge(s[p], br), env, After(s[p], h))
    {
      assert Takes(s0[bit], env, h) == br;
    }
  }

  /** Having visited the false branch of `bit`, the walk is ready for the true one,
      which still leads where it did. */
  lemma WalkTurned(s0: Store, frames: seq<Frame>, bit: Ref, s1: Store, w1: seq<Frame>)
    requires bit < |s0| && SameWalk(s0, frames + [Frame(bit, false)], s1, w1) && Visits(s1, w1)
    ensures
      var n := w1[|frames|].node;
      && Visits(s1, w1[|frames| := Frame(n, true)])
      && HasEdge(s1[n], true) == HasEdge(s0[bit], true)
      && (HasEdge(s0[bit], true) ==> Edge(s1[n], true) == Edge(s0[bit], true))
  {
    var last := |frames|;
    var w0 := frames + [Frame(bit, false)];
    assert SameAside(s0[w0[last].node], s1[w1[last].node], w0[last].branch);
    assert w1[last := Frame(w1[last].node, true)][..last] == w1[..last];
  }
}
