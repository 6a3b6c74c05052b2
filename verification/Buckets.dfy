/** The token buckets of a compiled classifier: refilling on demand through a table
    from scaled time to tokens, overflowing from one bucket into the next. */
module Buckets {
  import opened Semantics
  import opened Bits

  const U32: nat := 0x1_0000_0000
  const TIME_STEPS: nat := 256
  const MAX_BUCKETS: nat := 1024

  datatype Time = Time(sec: nat, usec: nat)

  predicate TimeOk(t: Time) { t.sec < U32 && t.usec < 1_000_000 }

  function Micros(t: Time): nat { t.sec * 1_000_000 + t.usec }

  datatype Bucket = Bucket(
    tokens: nat, mpu: nat, depth: nat, last: Time, carry: nat,
    maxTime: nat, scale: nat, t2b: seq<nat>, overflow: Option<nat>)

  function Min(a: nat, b: nat): nat { if a <= b then a else b }

  /** The time of table entry `k`, in microseconds. */
  function StepTime(k: nat, scale: nat): nat { k * Pow2(scale) }

  function TableEntry(k: nat, rate: nat, scale: nat, depth: nat): nat {
    Min(StepTime(k, scale) * rate / 1_000_000, depth)
  }

  /** The table holds the tokens earned in scaled time at `rate`, never more than
      the bucket and those it overflows into can take. */
  predicate TableFor(b: Bucket, rate: nat, total: nat) {
    |b.t2b| == TIME_STEPS && forall k | 0 <= k < TIME_STEPS :: b.t2b[k] == TableEntry(k, rate, b.scale, total)
  }

  predicate Sound(b: Bucket) {
    && b.tokens <= b.depth < U32 && TimeOk(b.last)
    && b.scale <= 24 && b.carry < Pow2(b.scale)
    && b.maxTime < U32 && Shr(b.maxTime, b.scale) < TIME_STEPS && |b.t2b| == TIME_STEPS
  }

  /** Buckets overflow only into ones that were made before them. */
  predicate WellFormed(s: seq<Bucket>) {
    forall i | 0 <= i < |s| :: Sound(s[i]) && (s[i].overflow.Some? ==> s[i].overflow.value < i)
  }

  // ----- time -----

  /** The time to be credited to a bucket. Beyond four seconds the clock is not read
      any closer. */
  function Credit(b: Bucket, now: Time): nat
    requires TimeOk(b.last) && TimeOk(now) && Micros(b.last) <= Micros(now)
  {
    var gap := Micros(now) - Micros(b.last) + b.carry;
    if Seconds(b, now) > 4 then b.maxTime else Min(gap, b.maxTime)
  }

  /** Seconds gone by, less one where the microseconds need to borrow it. */
  function Seconds(b: Bucket, now: Time): int {
    now.sec - b.last.sec - if now.usec + b.carry < b.last.usec then 1 else 0
  }

  predicate Elapsing(b: Bucket, last: Time, now: Time, carry: nat) {
    TimeOk(last) && TimeOk(now) && Micros(last) <= Micros(now) && carry < Pow2(b.scale)
  }

  predicate Faithful(b: Bucket, last: Time, now: Time, carry: nat)
    requires Elapsing(b, last, now, carry)
  {
    Credit(b.(last := last, carry := carry), now) == Min(Micros(now) - Micros(last) + carry, b.maxTime)
  }

  /** The credit is the time gone by since the last refill plus what was carried over,
      cut off at `maxTime`. This is so at all times exactly if the bucket fills up
      within five seconds. */
  lemma CreditExact(b: Bucket)
    requires Sound(b)
    ensures (forall last, now, carry | Elapsing(b, last, now, carry) :: Faithful(b, last, now, carry)) <==> b.maxTime <= 5_000_000
  {
    if b.maxTime > 5_000_000 {
      LongGap(b, 0);
    } else {
      forall last, now, carry | Elapsing(b, last, now, carry) ensures Faithful(b, last, now, carry) {
        CreditWithin(b.(last := last, carry := carry), now);
      }
    }
  }

  lemma LongGap(b: Bucket, t: nat)
    requires b.maxTime > 5_000_000 && t + 5 < U32
    ensures exists last, now :: Elapsing(b, last, now, 0) && !Faithful(b, last, now, 0)
  {
    var last, now := Time(t, 0), Time(t + 5, 0);
    assert Micros(now) - Micros(last) == 5_000_000;
    assert Elapsing(b, last, now, 0);
    assert Seconds(b.(last := last, carry := 0), now) == 5;
    assert !Faithful(b, last, now, 0);
  }

  lemma CreditWithin(b: Bucket, now: Time)
    requires TimeOk(b.last) && TimeOk(now) && Micros(b.last) <= Micros(now) && b.maxTime <= 5_000_000
    ensures Credit(b, now) == Min(Micros(now) - Micros(b.last) + b.carry, b.maxTime)
  {
    if Seconds(b, now) > 4 {
      assert Micros(now) - Micros(b.last) + b.carry >= 5_000_000;
    }
  }

  // ----- pouring tokens into a chain -----

  function Pour(s: seq<Bucket>, i: nat, tokens: nat): (s': seq<Bucket>)
    requires WellFormed(s) && i < |s|
    ensures WellFormed(s') && |s'| == |s|
    ensures forall j | 0 <= j < |s| :: s'[j] == s[j].(tokens := s'[j].tokens) && s'[j].tokens >= s[j].tokens
    decreases i
  {
    var free := s[i].depth - s[i].tokens;
    if tokens <= free then s[i := s[i].(tokens := s[i].tokens + tokens)]
    else
      var full := s[i := s[i].(tokens := s[i].depth)];
      match s[i].overflow
      case None => full
      case Some(o) => Pour(full, o, tokens - free)
  }

  predicate InChain(s: seq<Bucket>, i: nat, j: nat)
    requires WellFormed(s) && i < |s|
    decreases i
  {
    i == j || (s[i].overflow.Some? && InChain(s, s[i].overflow.value, j))
  }

  function ChainTokens(s: seq<Bucket>, i: nat): nat
    requires WellFormed(s) && i < |s|
    decreases i
  {
    s[i].tokens + if s[i].overflow.Some? then ChainTokens(s, s[i].overflow.value) else 0
  }

  function ChainFree(s: seq<Bucket>, i: nat): nat
    requires WellFormed(s) && i < |s|
    decreases i
  {
    s[i].depth - s[i].tokens + if s[i].overflow.Some? then ChainFree(s, s[i].overflow.value) else 0
  }

  function ChainDepth(s: seq<Bucket>, i: nat): nat
    requires WellFormed(s) && i < |s|
    decreases i
  {
    s[i].depth + if s[i].overflow.Some? then ChainDepth(s, s[i].overflow.value) else 0
  }

  lemma {:induction false} ChainBelow(s: seq<Bucket>, s': seq<Bucket>, i: nat)
    requires WellFormed(s) && WellFormed(s') && i < |s| && i < |s'| && forall j | 0 <= j <= i :: s[j] == s'[j]
    ensures ChainTokens(s, i) == ChainTokens(s', i) && ChainFree(s, i) == ChainFree(s', i)
    decreases i
  {
    if s[i].overflow.Some? { ChainBelow(s, s', s[i].overflow.value); }
  }

  /** Buckets that are not in the chain are left alone. */
  lemma {:induction false} PourAside(s: seq<Bucket>, i: nat, tokens: nat, j: nat)
    requires WellFormed(s) && i < |s| && j < |s| && !InChain(s, i, j)
    ensures Pour(s, i, tokens)[j] == s[j]
    decreases i
  {
    var free := s[i].depth - s[i].tokens;
    if tokens > free && s[i].overflow.Some? {
      var full := s[i := s[i].(tokens := s[i].depth)];
      ChainSame(s, full, s[i].overflow.value, j);
      PourAside(full, s[i].overflow.value, tokens - free, j);
    }
  }

  lemma {:induction false} ChainSame(s: seq<Bucket>, s': seq<Bucket>, i: nat, j: nat)
    requires WellFormed(s) && WellFormed(s') && |s| == |s'| && i < |s|
    requires forall k | 0 <= k < |s| :: s[k].overflow == s'[k].overflow
    ensures InChain(s, i, j) == InChain(s', i, j)
    decreases i
  {
    if s[i].overflow.Some? { ChainSame(s, s', s[i].overflow.value, j); }
  }

  lemma {:induction false} AboveNotInChain(s: seq<Bucket>, i: nat, j: nat)
    requires WellFormed(s) && i < j && i < |s|
    ensures !InChain(s, i, j)
    decreases i
  {
    if s[i].overflow.Some? { AboveNotInChain(s, s[i].overflow.value, j); }
  }

  /** A refill adds exactly what was earned or what there is room for, and it fills
      the buckets in the order of the chain. */
  lemma {:induction false} PourConserves(s: seq<Bucket>, i: nat, tokens: nat)
    requires WellFormed(s) && i < |s|
    ensures ChainTokens(Pour(s, i, tokens), i) == ChainTokens(s, i) + Min(tokens, ChainFree(s, i))
    ensures Pour(s, i, tokens)[i].tokens == Min(s[i].depth, s[i].tokens + tokens)
    decreases i
  {
    var free, s' := s[i].depth - s[i].tokens, Pour(s, i, tokens);
    if s[i].overflow.Some? {
      var o := s[i].overflow.value;
      if tokens <= free {
        ChainBelow(s, s', o);
      } else {
        var full := s[i := s[i].(tokens := s[i].depth)];
        ChainBelow(s, full, o);
        PourConserves(full, o, tokens - free);
        AboveNotInChain(full, o, i);
        PourAside(full, o, tokens - free, i);
        assert s' == Pour(full, o, tokens - free);
        assert s'[i] == full[i];
        assert ChainTokens(s', i) == s[i].depth + ChainTokens(s', o);
      }
    }
  }

  // ----- refilling, testing and counting -----

  /** The bucket once its clock is set. */
  function Restarted(s: seq<Bucket>, i: nat, now: Time): (s': seq<Bucket>)
    requires WellFormed(s) && i < |s| && TimeOk(now) && Micros(s[i].last) <= Micros(now)
    ensures WellFormed(s') && |s'| == |s|
  {
    s[i := s[i].(carry := Low(Credit(s[i], now), s[i].scale), last := now)]
  }

  function Tokens(b: Bucket, now: Time): nat
    requires Sound(b) && TimeOk(now) && Micros(b.last) <= Micros(now)
  {
    CreditInTable(b, now);
    b.t2b[Shr(Credit(b, now), b.scale)]
  }

  function Refilled(s: seq<Bucket>, i: nat, now: Time): (s': seq<Bucket>)
    requires WellFormed(s) && i < |s| && TimeOk(now) && Micros(s[i].last) <= Micros(now)
    ensures WellFormed(s') && |s'| == |s|
  {
    Pour(Restarted(s, i, now), i, Tokens(s[i], now))
  }

  /** The table index stays within the table. */
  lemma CreditInTable(b: Bucket, now: Time)
    requires Sound(b) && TimeOk(now) && Micros(b.last) <= Micros(now)
    ensures Credit(b, now) <= b.maxTime && Shr(Credit(b, now), b.scale) < TIME_STEPS
  {
    ShrMono(Credit(b, now), b.maxTime, b.scale);
  }

  /** What a packet costs: small ones are charged the minimum unit. */
  function Policed(b: Bucket, len: nat): (charge: nat)
    ensures charge >= len && charge >= b.mpu && (charge == len || charge == b.mpu)
  {
    if len < b.mpu then b.mpu else len
  }

  function Charged(s: seq<Bucket>, i: nat, len: nat): (s': seq<Bucket>)
    requires WellFormed(s) && i < |s|
    ensures WellFormed(s') && |s'| == |s|
  {
    s[i := s[i].(tokens := s[i].tokens - Min(s[i].tokens, Policed(s[i], len)))]
  }

  lemma CarrySmall(b: Bucket)
    requires Sound(b)
    ensures b.carry < 0x100_0000
  {
    Pow2Mono(b.scale, 24);
    Pow2Of24();
  }

  lemma Pow2Of24()
    ensures Pow2(24) == 0x100_0000
  {
    Pow2Add(12, 12);
    assert Pow2(12) == 4096;
  }

  class Classifier {
    const buckets: array<Bucket>

    constructor (initial: seq<Bucket>)
      requires WellFormed(initial)
      ensures fresh(buckets) && buckets[..] == initial
    {
      buckets := new Bucket[|initial|](i requires 0 <= i < |initial| => initial[i]);
    }

    /** The clock arithmetic of a refill, in 32-bit words. */
    method ElapsedTime(b: Bucket, now: Time) returns (delta: nat)
      requires Sound(b) && TimeOk(now) && Micros(b.last) <= Micros(now)
      ensures delta == Credit(b, now)
    {
      CarrySmall(b);
      var deltaS := (now.sec - b.last.sec) % U32;
      var deltaUs := (now.usec - b.last.usec + b.carry) % U32;
      if deltaUs >= 0x8000_0000 {
        deltaUs := (deltaUs + 1_000_000) % U32;
        deltaS := (deltaS - 1) % U32;
      }
      assert deltaS == Seconds(b, now);
      assert deltaUs == Micros(now) - Micros(b.last) + b.carry - 1_000_000 * deltaS;
      ghost var gap := Micros(now) - Micros(b.last) + b.carry;
      if deltaS < 4 { deltaUs := deltaUs + 1_000_000 * deltaS; }
      else if deltaS > 4 || b.maxTime < 4 * 1_000_000 { deltaUs := b.maxTime; }
      else if deltaUs > b.maxTime - 4 * 1_000_000 { deltaUs := b.maxTime; }
      else { deltaUs := deltaUs + 1_000_000 * deltaS; }
      if deltaUs > b.maxTime { deltaUs := b.maxTime; }
      delta := deltaUs;
      assert delta == if deltaS > 4 then b.maxTime else Min(gap, b.maxTime);
    }

    method RefillBucket(b: nat, now: Time)
      requires WellFormed(buckets[..]) && b < buckets.Length && TimeOk(now) && Micros(buckets[b].last) <= Micros(now)
      modifies buckets
      ensures buckets[..] == Refilled(old(buckets[..]), b, now)
    {
      var delta := ElapsedTime(buckets[b], now);
      CreditInTable(buckets[b], now);
      var tokens: nat := buckets[b].t2b[Shr(delta, buckets[b].scale)];
      buckets[b] := buckets[b].(carry := Low(delta, buckets[b].scale), last := now);
      ghost var start := Restarted(old(buckets[..]), b, now);
      assert buckets[..] == start;
      ghost var total := tokens;
      var add: nat := b;
      while true
        invariant add < buckets.Length && WellFormed(buckets[..])
        invariant Pour(buckets[..], add, tokens) == Pour(start, b, total)
        decreases add
      {
        var free := buckets[add].depth - buckets[add].tokens;
        ghost var before := buckets[..];
        if tokens <= free {
          buckets[add] := buckets[add].(tokens := buckets[add].tokens + tokens);
          assert buckets[..] == before[add := buckets[add]];
          return;
        }
        tokens := tokens - free;
        buckets[add] := buckets[add].(tokens := buckets[add].depth);
        assert buckets[..] == before[add := buckets[add]];
        if buckets[add].overflow.None? { return; }
        add := buckets[add].overflow.value;
      }
    }

    method PoliceConform(bucket: nat, now: Time, len: nat) returns (ok: bool)
      requires WellFormed(buckets[..]) && bucket < buckets.Length && TimeOk(now) && Micros(buckets[bucket].last) <= Micros(now)
      modifies buckets
      ensures buckets[..] == Refilled(old(buckets[..]), bucket, now)
      ensures ok <==> buckets[bucket].tokens >= Policed(buckets[bucket], len)
    {
      var policedLen := if len < buckets[bucket].mpu then buckets[bucket].mpu else len;
      RefillBucket(bucket, now);
      assert buckets[bucket] == Refilled(old(buckets[..]), bucket, now)[bucket];
      ok := buckets[bucket].tokens >= policedLen;
    }

    method PoliceCount(bucket: nat, now: Time, len: nat)
      requires WellFormed(buckets[..]) && bucket < buckets.Length && TimeOk(now) && Micros(buckets[bucket].last) <= Micros(now)
      modifies buckets
      ensures buckets[..] == Charged(Refilled(old(buckets[..]), bucket, now), bucket, len)
    {
      var policedLen := if len < buckets[bucket].mpu then buckets[bucket].mpu else len;
      RefillBucket(bucket, now);
      ghost var refilled := buckets[..];
      assert buckets[bucket] == refilled[bucket];
      if buckets[bucket].tokens < policedLen {
        buckets[bucket] := buckets[bucket].(tokens := 0);
      } else {
        buckets[bucket] := buckets[bucket].(tokens := buckets[bucket].tokens - policedLen);
      }
      assert buckets[..] == refilled[bucket := buckets[bucket]];
    }
  }

  // ----- runs -----

  datatype Event = Conform(bucket: nat, now: Time, len: nat) | Count(bucket: nat, now: Time, len: nat)

  /** The clock never runs backwards for a bucket. */
  predicate Possible(s: seq<Bucket>, e: Event) {
    WellFormed(s) && e.bucket < |s| && TimeOk(e.now) && Micros(s[e.bucket].last) <= Micros(e.now)
  }

  function Next(s: seq<Bucket>, e: Event): (s': seq<Bucket>)
    requires Possible(s, e)
    ensures WellFormed(s') && |s'| == |s|
  {
    var r := Refilled(s, e.bucket, e.now);
    if e.Conform? then r else Charged(r, e.bucket, e.len)
  }

  ghost predicate Stepped(states: seq<seq<Bucket>>, run: seq<Event>, k: nat)
    requires |states| == |run| + 1 && k < |run|
  {
    Possible(states[k], run[k]) && states[k + 1] == Next(states[k], run[k])
  }

  /** A run: events and the states before, between and after them. */
  ghost predicate Run(states: seq<seq<Bucket>>, run: seq<Event>) {
    && |states| == |run| + 1 && WellFormed(states[0])
    && forall k: nat {:trigger Stepped(states, run, k)} | k < |run| :: Stepped(states, run, k)
  }

  /** The bytes an event counts against bucket `b`, if its packet conforms. */
  function ServedBy(s: seq<Bucket>, e: Event, b: nat): nat
    requires Possible(s, e)
  {
    var r := Refilled(s, e.bucket, e.now)[e.bucket];
    if e.Count? && e.bucket == b && r.tokens >= Policed(r, e.len) then Policed(r, e.len) else 0
  }

  /** The bytes counted against `b` for conforming packets by events `i` to `k - 1`. */
  ghost function Served(states: seq<seq<Bucket>>, run: seq<Event>, b: nat, i: nat, k: nat): nat
    requires Run(states, run) && k <= |run|
    decreases k
  {
    if k <= i then 0
    else
      assert Stepped(states, run, k - 1);
      Served(states, run, b, i, k - 1) + ServedBy(states[k - 1], run[k - 1], b)
  }

  /** No bucket overflows into `b`. */
  predicate Unfed(s: seq<Bucket>, b: nat) {
    forall i | 0 <= i < |s| :: s[i].overflow != Some(b)
  }

  lemma {:induction false} UnfedNotInChain(s: seq<Bucket>, i: nat, b: nat)
    requires WellFormed(s) && Unfed(s, b) && i < |s| && i != b
    ensures !InChain(s, i, b)
    decreases i
  {
    if s[i].overflow.Some? { UnfedNotInChain(s, s[i].overflow.value, b); }
  }

  /** `rate * micros`, defined by addition. */
  function Scaled(rate: nat, micros: int): int {
    if rate == 0 then 0 else micros + Scaled(rate - 1, micros)
  }

  lemma {:induction false} ScaledIs(rate: nat, micros: int)
    ensures Scaled(rate, micros) == rate * micros
    decreases rate
  {
    if rate > 0 {
      ScaledIs(rate - 1, micros);
      assert rate * micros == micros + (rate - 1) * micros;
    }
  }

  lemma {:induction false} ScaledMono(rate: nat, a: int, b: int)
    requires a <= b
    ensures Scaled(rate, a) <= Scaled(rate, b)
    decreases rate
  {
    if rate > 0 { ScaledMono(rate - 1, a, b); }
  }

  lemma {:induction false} Distribute(rate: nat, a: int, b: int)
    ensures Scaled(rate, a + b) == Scaled(rate, a) + Scaled(rate, b)
    decreases rate
  {
    if rate > 0 { Distribute(rate - 1, a, b); }
  }

  /** Tokens, and what the rate allows for the time carried over, less what it allows
      until the last refill: nothing ever makes it grow. */
  function Potential(b: Bucket, rate: nat): int {
    1_000_000 * b.tokens + Scaled(rate, b.carry - Micros(b.last))
  }

  lemma EntryEarned(d: nat, rate: nat, scale: nat, total: nat, now: int)
    ensures 1_000_000 * TableEntry(Shr(d, scale), rate, scale, total) + Scaled(rate, Low(d, scale) - now) <= Scaled(rate, d - now)
  {
    Split(d, scale);
    var t, c := StepTime(Shr(d, scale), scale), Low(d, scale);
    ScaledIs(rate, t);
    assert 1_000_000 * TableEntry(Shr(d, scale), rate, scale, total) <= t * rate;
    Distribute(rate, t, c - now);
    assert t + (c - now) == d - now;
  }

  lemma RefillPotential(s: seq<Bucket>, b: nat, now: Time, rate: nat, total: nat)
    requires WellFormed(s) && b < |s| && TimeOk(now) && Micros(s[b].last) <= Micros(now)
    requires TableFor(s[b], rate, total) && s[b].maxTime <= 5_000_000
    ensures Potential(Refilled(s, b, now)[b], rate) <= Potential(s[b], rate)
    ensures TableFor(Refilled(s, b, now)[b], rate, total)
  {
    var d, x := Credit(s[b], now), s[b];
    CreditInTable(x, now);
    CreditWithin(x, now);
    EntryEarned(d, rate, x.scale, total, Micros(now));
    PourConserves(Restarted(s, b, now), b, Tokens(x, now));
    assert Refilled(s, b, now)[b].tokens <= x.tokens + TableEntry(Shr(d, x.scale), rate, x.scale, total);
    ScaledMono(rate, d - Micros(now), x.carry - Micros(x.last));
  }

  lemma EventPotential(s: seq<Bucket>, e: Event, b: nat, rate: nat, total: nat)
    requires Possible(s, e) && b < |s| && Unfed(s, b)
    requires TableFor(s[b], rate, total) && s[b].maxTime <= 5_000_000
    ensures
      var s' := Next(s, e);
      && 1_000_000 * ServedBy(s, e, b) + Potential(s'[b], rate) <= Potential(s[b], rate)
      && Unfed(s', b) && TableFor(s'[b], rate, total) && s'[b].maxTime == s[b].maxTime
  {
    if e.bucket == b {
      RefillPotential(s, b, e.now, rate, total);
    } else {
      var start := Restarted(s, e.bucket, e.now);
      UnfedNotInChain(start, e.bucket, b);
      PourAside(start, e.bucket, Tokens(s[e.bucket], e.now), b);
    }
  }

  lemma {:induction false} PotentialBound(states: seq<seq<Bucket>>, run: seq<Event>, b: nat, rate: nat, total: nat, i: nat, k: nat)
    requires Run(states, run) && i <= k <= |run|
    requires b < |states[i]| && WellFormed(states[i]) && Unfed(states[i], b)
    requires TableFor(states[i][b], rate, total) && states[i][b].maxTime <= 5_000_000
    ensures |states[k]| == |states[i]| && WellFormed(states[k]) && Unfed(states[k], b)
    ensures TableFor(states[k][b], rate, total) && states[k][b].maxTime <= 5_000_000
    ensures Micros(states[k][b].last) >= Micros(states[i][b].last)
    ensures 1_000_000 * Served(states, run, b, i, k) + Potential(states[k][b], rate) <= Potential(states[i][b], rate)
    decreases k
  {
    if i < k {
      PotentialBound(states, run, b, rate, total, i, k - 1);
      assert Stepped(states, run, k - 1);
      EventPotential(states[k - 1], run[k - 1], b, rate, total);
      LastRefill(states[k - 1], run[k - 1], b);
    }
  }

  lemma LastRefill(s: seq<Bucket>, e: Event, b: nat)
    requires Possible(s, e) && b < |s|
    ensures Next(s, e)[b].last == if e.bucket == b then e.now else s[b].last
  {}

  lemma PotentialSpent(x: Bucket, e: Bucket, served: nat, rate: nat)
    requires 1_000_000 * served + Potential(e, rate) <= Potential(x, rate)
    ensures 1_000_000 * served + 1_000_000 * e.tokens
      <= 1_000_000 * x.tokens + Scaled(rate, Micros(e.last) - Micros(x.last) + x.carry)
  {
    var l := Micros(e.last);
    Distribute(rate, l, x.carry - Micros(x.last));
    Distribute(rate, l, e.carry - l);
    ScaledMono(rate, 0, e.carry);
    ScaledIs(rate, 0);
    assert l + (e.carry - l) == e.carry;
    assert l + (x.carry - Micros(x.last)) == l - Micros(x.last) + x.carry;
  }

  /** Over any run the bytes counted for conforming packets stay within what was in
      the bucket at the start and what its rate allows for the time from its last
      refill before the run to its last refill in the run. */
  lemma RateBound(states: seq<seq<Bucket>>, run: seq<Event>, b: nat, rate: nat, total: nat)
    requires Run(states, run) && b < |states[0]| && Unfed(states[0], b)
    requires TableFor(states[0][b], rate, total) && states[0][b].maxTime <= 5_000_000
    ensures b < |states[|run|]|
    ensures
      var first, last := states[0][b], states[|run|][b];
      && Micros(first.last) <= Micros(last.last)
      && 1_000_000 * (Served(states, run, b, 0, |run|) + last.tokens)
           <= 1_000_000 * first.tokens + rate * (Micros(last.last) - Micros(first.last) + first.carry)
  {
    PotentialBound(states, run, b, rate, total, 0, |run|);
    var first, last := states[0][b], states[|run|][b];
    PotentialSpent(first, last, Served(states, run, b, 0, |run|), rate);
    ScaledIs(rate, Micros(last.last) - Micros(first.last) + first.carry);
  }

  /** What is counted was in the bucket. */
  lemma ChargeWithin(s: seq<Bucket>, e: Event)
    requires Possible(s, e)
    ensures ServedBy(s, e, e.bucket) + Next(s, e)[e.bucket].tokens <= s[e.bucket].depth
    ensures Next(s, e)[e.bucket].scale == s[e.bucket].scale
  {}

  lemma {:induction false} ServedFirst(states: seq<seq<Bucket>>, run: seq<Event>, b: nat, k: nat)
    requires Run(states, run) && 0 < k <= |run|
    ensures Possible(states[0], run[0])
    ensures Served(states, run, b, 0, k) == ServedBy(states[0], run[0], b) + Served(states, run, b, 1, k)
    decreases k
  {
    assert Stepped(states, run, 0);
    if k > 1 { ServedFirst(states, run, b, k - 1); }
  }

  /** However long a bucket has been waiting, from its first use on the bound is its
      depth and the time gone by since, up to one step of the table. */
  lemma FreshBound(states: seq<seq<Bucket>>, run: seq<Event>, b: nat, rate: nat, total: nat)
    requires Run(states, run) && b < |states[0]| && Unfed(states[0], b) && run != [] && run[0].bucket == b
    requires TableFor(states[0][b], rate, total) && states[0][b].maxTime <= 5_000_000
    ensures b < |states[|run|]|
    ensures
      var first, last := states[0][b], states[|run|][b];
      && Micros(run[0].now) <= Micros(last.last)
      && 1_000_000 * Served(states, run, b, 0, |run|)
           <= 1_000_000 * first.depth + rate * (Micros(last.last) - Micros(run[0].now) + Pow2(first.scale))
  {
    assert Stepped(states, run, 0);
    PotentialBound(states, run, b, rate, total, 0, 1);
    PotentialBound(states, run, b, rate, total, 1, |run|);
    LastRefill(states[0], run[0], b);
    ChargeWithin(states[0], run[0]);
    ServedFirst(states, run, b, |run|);
    var first, next, last := states[0][b], states[1][b], states[|run|][b];
    PotentialSpent(next, last, Served(states, run, b, 1, |run|), rate);
    var gone := Micros(last.last) - Micros(next.last);
    ScaledMono(rate, gone + next.carry, gone + Pow2(first.scale));
    ScaledIs(rate, gone + Pow2(first.scale));
  }

  // ----- what a bucket earns at least -----

  /** The table is that of the rate, up to what the whole chain holds, and the fill time
      is the time to earn that. */
  predicate Fitted(s: seq<Bucket>, b: nat, rate: nat)
    requires WellFormed(s) && b < |s|
  {
    rate > 0 && TableFor(s[b], rate, ChainDepth(s, b)) && s[b].maxTime == ChainDepth(s, b) * 1_000_000 / rate
  }

  lemma {:induction false} ChainParts(s: seq<Bucket>, b: nat)
    requires WellFormed(s) && b < |s|
    ensures ChainDepth(s, b) == ChainTokens(s, b) + ChainFree(s, b)
    decreases b
  {
    if s[b].overflow.Some? { ChainParts(s, s[b].overflow.value); }
  }

  /** Nothing but tokens and clocks has changed, and no bucket of the chain has less. */
  predicate NoLess(s: seq<Bucket>, s': seq<Bucket>) {
    |s'| == |s| && forall i | 0 <= i < |s| ::
      s'[i].tokens >= s[i].tokens && s'[i].depth == s[i].depth && s'[i].overflow == s[i].overflow
  }

  lemma {:induction false} ChainNoLess(s: seq<Bucket>, s': seq<Bucket>, b: nat)
    requires WellFormed(s) && WellFormed(s') && NoLess(s, s') && b < |s|
    ensures ChainTokens(s', b) >= ChainTokens(s, b) && ChainDepth(s', b) == ChainDepth(s, b)
    decreases b
  {
    if s[b].overflow.Some? { ChainNoLess(s, s', s[b].overflow.value); }
  }

  /** Tokens in the chain, and what the rate allows for the time carried over. */
  function Level(s: seq<Bucket>, b: nat, rate: nat): int
    requires WellFormed(s) && b < |s|
  {
    1_000_000 * ChainTokens(s, b) + Scaled(rate, s[b].carry)
  }

  function Less(a: int, b: int): int { if a <= b then a else b }

  /** An entry is the whole chain, or misses less than a byte. */
  lemma EntryLeast(d: nat, rate: nat, scale: nat, total: nat)
    ensures
      var entry := TableEntry(Shr(d, scale), rate, scale, total);
      entry == total || 1_000_000 * entry + 999_999 + Scaled(rate, Low(d, scale)) >= Scaled(rate, d)
  {
    Split(d, scale);
    var t := StepTime(Shr(d, scale), scale);
    ScaledIs(rate, t);
    Distribute(rate, t, Low(d, scale));
  }

  /** The fill time is rounded down to microseconds. */
  lemma FillEarns(total: nat, rate: nat, time: nat)
    requires rate > 0 && time == total * 1_000_000 / rate
    ensures Scaled(rate, time) + rate > total * 1_000_000
  {
    ScaledIs(rate, time);
  }

  lemma CreditLeast(b: Bucket, now: Time)
    requires Sound(b) && TimeOk(now) && Micros(b.last) <= Micros(now)
    ensures Credit(b, now) == b.maxTime || Credit(b, now) == Micros(now) - Micros(b.last) + b.carry
    ensures Credit(b, now) >= Min(Micros(now) - Micros(b.last) + b.carry, b.maxTime)
  {}

  /** Pouring leaves clocks and tables alone. */
  lemma RefilledParts(s: seq<Bucket>, b: nat, now: Time)
    requires WellFormed(s) && b < |s| && TimeOk(now) && Micros(s[b].last) <= Micros(now)
    ensures NoLess(s, Refilled(s, b, now)) && Refilled(s, b, now)[b].carry == Low(Credit(s[b], now), s[b].scale)
    ensures ChainTokens(Restarted(s, b, now), b) == ChainTokens(s, b) && ChainFree(Restarted(s, b, now), b) == ChainFree(s, b)
  {
    var start := Restarted(s, b, now);
    if s[b].overflow.Some? { ChainBelow(s, start, s[b].overflow.value); }
  }

  /** A refill earns all that the rate allows for the time gone by, but for less than a
      byte, or fills the chain, but for less than a byte and what the rate allows in a
      microsecond. What is not in tokens is in the time carried over. */
  lemma RefillEarns(s: seq<Bucket>, b: nat, now: Time, rate: nat)
    requires WellFormed(s) && b < |s| && TimeOk(now) && Micros(s[b].last) <= Micros(now) && Fitted(s, b, rate)
    ensures Level(Refilled(s, b, now), b, rate) + 999_999 >=
      Less(Level(s, b, rate) + Scaled(rate, Micros(now) - Micros(s[b].last)), 1_000_000 * ChainDepth(s, b) - rate)
    ensures Micros(now) - Micros(s[b].last) + s[b].carry >= s[b].maxTime ==>
      Level(Refilled(s, b, now), b, rate) + 999_999 >= 1_000_000 * ChainDepth(s, b) - rate
  {
    var x, d, total := s[b], Credit(s[b], now), ChainDepth(s, b);
    RefilledParts(s, b, now);
    CreditInTable(x, now);
    CreditLeast(x, now);
    EntryLeast(d, rate, x.scale, total);
    PourConserves(Restarted(s, b, now), b, Tokens(x, now));
    ChainParts(s, b);
    FillEarns(total, rate, x.maxTime);
    var gone := Micros(now) - Micros(x.last);
    Distribute(rate, gone, x.carry);
    ScaledMono(rate, 0, Low(d, x.scale));
    ScaledIs(rate, 0);
    if d >= gone + x.carry { ScaledMono(rate, gone + x.carry, d); }
    assert Tokens(x, now) == TableEntry(Shr(d, x.scale), rate, x.scale, total);
  }

  /** After a gap of the fill time the chain is full, up to one step of the table. */
  lemma GapFills(s: seq<Bucket>, b: nat, now: Time, rate: nat)
    requires WellFormed(s) && b < |s| && TimeOk(now) && Micros(s[b].last) <= Micros(now) && Fitted(s, b, rate)
    requires Micros(now) - Micros(s[b].last) >= s[b].maxTime
    ensures 1_000_000 * ChainTokens(Refilled(s, b, now), b) + rate * Pow2(s[b].scale) + 999_999 >= 1_000_000 * ChainDepth(s, b)
  {
    RefillEarns(s, b, now, rate);
    RefilledParts(s, b, now);
    StepEarns(rate, Refilled(s, b, now)[b].carry, Pow2(s[b].scale));
  }

  /** ... and it is quite full exactly if no more was missing than the rate allows in the
      whole steps of the fill time. */
  lemma GapExact(s: seq<Bucket>, b: nat, now: Time, rate: nat)
    requires WellFormed(s) && b < |s| && TimeOk(now) && Micros(s[b].last) <= Micros(now) && Fitted(s, b, rate)
    requires Micros(now) - Micros(s[b].last) >= s[b].maxTime
    ensures ChainTokens(Refilled(s, b, now), b) == ChainDepth(s, b) <==>
      ChainFree(s, b) <= StepTime(Shr(s[b].maxTime, s[b].scale), s[b].scale) * rate / 1_000_000
  {
    RefilledParts(s, b, now);
    CreditInTable(s[b], now);
    CreditLeast(s[b], now);
    PourConserves(Restarted(s, b, now), b, Tokens(s[b], now));
    ChainParts(s, b);
    assert Tokens(s[b], now) == TableEntry(Shr(s[b].maxTime, s[b].scale), rate, s[b].scale, ChainDepth(s, b));
  }

  /** A bucket of a hundred tokens that no gap fills up when it is empty: the three and a
      third microseconds this takes are taken for three. */
  lemma GapShort(now: Time) returns (s: seq<Bucket>)
    requires TimeOk(now) && now.sec > 0
    ensures |s| == 1 && WellFormed(s) && s[0].tokens == 0 && Fitted(s, 0, 30_000_000)
    ensures Micros(now) - Micros(s[0].last) >= s[0].maxTime && ChainTokens(Refilled(s, 0, now), 0) < ChainDepth(s, 0)
  {
    s := [Bucket(0, 0, 100, Time(0, 0), 0, 3, 0, seq(TIME_STEPS, k requires k >= 0 => TableEntry(k, 30_000_000, 0, 100)), None)];
    GapExact(s, 0, now, 30_000_000);
  }

  lemma StepEarns(rate: nat, carry: nat, step: nat)
    requires carry < step
    ensures Scaled(rate, carry) + rate <= rate * step
  {
    ScaledMono(rate, carry + 1, step);
    Distribute(rate, carry, 1);
    ScaledIs(rate, step);
    ScaledIs(rate, 1);
  }

  /** The tokens an event takes out of the chain of bucket `b`, its packet conforming or
      not. */
  function TakenBy(s: seq<Bucket>, e: Event, b: nat): nat
    requires Possible(s, e) && b < |s|
  {
    var r := Refilled(s, e.bucket, e.now)[e.bucket];
    if e.Count? && InChain(s, b, e.bucket) then Min(r.tokens, Policed(r, e.len)) else 0
  }

  /** The tokens taken out of the chain of `b` by the first `k` events. */
  ghost function Taken(states: seq<seq<Bucket>>, run: seq<Event>, b: nat, k: nat): nat
    requires Run(states, run) && k <= |run| && b < |states[0]|
    decreases k
  {
    if k == 0 then 0
    else
      assert Stepped(states, run, k - 1);
      SameCount(states, run, k - 1);
      Taken(states, run, b, k - 1) + TakenBy(states[k - 1], run[k - 1], b)
  }

  /** The refills of `b` in the first `k` events. */
  function Refills(run: seq<Event>, b: nat, k: nat): nat
    requires k <= |run|
  {
    if k == 0 then 0 else Refills(run, b, k - 1) + if run[k - 1].bucket == b then 1 else 0
  }

  lemma {:induction false} SameCount(states: seq<seq<Bucket>>, run: seq<Event>, k: nat)
    requires Run(states, run) && k <= |run|
    ensures |states[k]| == |states[0]| && WellFormed(states[k])
    decreases k
  {
    if k > 0 {
      SameCount(states, run, k - 1);
      assert Stepped(states, run, k - 1);
    }
  }

  /** A bucket charged misses the charge in every chain it is in. */
  lemma {:induction false} ChainCharged(s: seq<Bucket>, i: nat, len: nat, b: nat)
    requires WellFormed(s) && i < |s| && b < |s|
    ensures ChainTokens(Charged(s, i, len), b) == ChainTokens(s, b) - if InChain(s, b, i) then Min(s[i].tokens, Policed(s[i], len)) else 0
    ensures ChainDepth(Charged(s, i, len), b) == ChainDepth(s, b)
    decreases b
  {
    var s' := Charged(s, i, len);
    if s[b].overflow.Some? {
      var o := s[b].overflow.value;
      ChainCharged(s, i, len, o);
      if b == i { AboveNotInChain(s, o, b); }
    }
  }

  lemma FittedStays(s: seq<Bucket>, s': seq<Bucket>, b: nat, rate: nat)
    requires WellFormed(s) && WellFormed(s') && b < |s| && b < |s'| && Fitted(s, b, rate)
    requires ChainDepth(s', b) == ChainDepth(s, b)
    requires s'[b].t2b == s[b].t2b && s'[b].scale == s[b].scale && s'[b].maxTime == s[b].maxTime
    ensures Fitted(s', b, rate)
  {}

  /** What a refill leaves of the level of any chain. */
  lemma RefillLevel(s: seq<Bucket>, i: nat, now: Time, b: nat, rate: nat)
    requires WellFormed(s) && i < |s| && b < |s| && TimeOk(now) && Micros(s[i].last) <= Micros(now) && Fitted(s, b, rate)
    ensures
      var s' := Refilled(s, i, now);
      && Fitted(s', b, rate) && ChainDepth(s', b) == ChainDepth(s, b)
      && s'[b].scale == s[b].scale && Micros(s'[b].last) >= Micros(s[b].last)
      && Level(s', b, rate) + 1_000_000 * (if i == b then 1 else 0) >=
         Less(Level(s, b, rate) + Scaled(rate, Micros(s'[b].last) - Micros(s[b].last)), 1_000_000 * ChainDepth(s, b) - rate)
  {
    var s' := Refilled(s, i, now);
    RefilledParts(s, i, now);
    ChainNoLess(s, s', b);
    FittedStays(s, s', b, rate);
    if i == b {
      RefillEarns(s, b, now, rate);
    } else {
      assert s'[b].carry == s[b].carry && s'[b].last == s[b].last;
      ScaledIs(rate, 0);
    }
  }

  lemma EventLevel(s: seq<Bucket>, e: Event, b: nat, rate: nat)
    requires Possible(s, e) && b < |s| && Fitted(s, b, rate)
    ensures
      var s' := Next(s, e);
      && Fitted(s', b, rate) && ChainDepth(s', b) == ChainDepth(s, b)
      && s'[b].scale == s[b].scale && Micros(s'[b].last) >= Micros(s[b].last)
      && Level(s', b, rate) + 1_000_000 * (TakenBy(s, e, b) + if e.bucket == b then 1 else 0) >=
         Less(Level(s, b, rate) + Scaled(rate, Micros(s'[b].last) - Micros(s[b].last)), 1_000_000 * ChainDepth(s, b) - rate)
  {
    var r := Refilled(s, e.bucket, e.now);
    RefillLevel(s, e.bucket, e.now, b, rate);
    if e.Count? {
      ChainSame(s, r, b, e.bucket);
      ChainCharged(r, e.bucket, e.len, b);
      FittedStays(r, Next(s, e), b, rate);
    }
  }

  /** What is due at a level of `x` after time went by, up to the depth. */
  function Due(x: int, rate: nat, gone: int, depth: nat): int { Less(x + Scaled(rate, gone), 1_000_000 * depth - rate) }

  lemma DueLater(x: int, x': int, x'': int, rate: nat, gone: int, more: int, depth: nat, owed: nat, also: nat)
    requires gone >= 0 && more >= 0
    requires x' + 1_000_000 * owed >= Due(x, rate, gone, depth)
    requires x'' + 1_000_000 * also >= Due(x', rate, more, depth)
    ensures x'' + 1_000_000 * (owed + also) >= Due(x, rate, gone + more, depth)
  {
    Distribute(rate, gone, more);
    ScaledMono(rate, 0, more);
    ScaledIs(rate, 0);
  }

  lemma {:induction false} LevelKept(states: seq<seq<Bucket>>, run: seq<Event>, b: nat, rate: nat, k: nat)
    requires Run(states, run) && k <= |run| && b < |states[0]| && Fitted(states[0], b, rate)
    ensures |states[k]| == |states[0]| && WellFormed(states[k]) && Fitted(states[k], b, rate)
    ensures ChainDepth(states[k], b) == ChainDepth(states[0], b) && states[k][b].scale == states[0][b].scale
    ensures Micros(states[k][b].last) >= Micros(states[0][b].last)
    ensures Level(states[k], b, rate) + 1_000_000 * (Taken(states, run, b, k) + Refills(run, b, k)) >=
      Due(Level(states[0], b, rate), rate, Micros(states[k][b].last) - Micros(states[0][b].last), ChainDepth(states[0], b))
    decreases k
  {
    if k == 0 {
      ScaledIs(rate, 0);
    } else {
      LevelKept(states, run, b, rate, k - 1);
      var s, e, first, depth := states[k - 1], run[k - 1], states[0], ChainDepth(states[0], b);
      assert Stepped(states, run, k - 1);
      EventLevel(s, e, b, rate);
      DueLater(Level(first, b, rate), Level(s, b, rate), Level(states[k], b, rate), rate,
        Micros(s[b].last) - Micros(first[b].last), Micros(states[k][b].last) - Micros(s[b].last), depth,
        Taken(states, run, b, k - 1) + Refills(run, b, k - 1), TakenBy(s, e, b) + if e.bucket == b then 1 else 0);
    }
  }

  /** Over any run the chain holds at least what it held and what the rate allows for the
      time to its last refill, up to its depth, less what was taken, a byte for every
      refill, and a step of the table. */
  lemma LeastLeft(states: seq<seq<Bucket>>, run: seq<Event>, b: nat, rate: nat)
    requires Run(states, run) && b < |states[0]| && Fitted(states[0], b, rate)
    ensures |states[|run|]| == |states[0]| && WellFormed(states[|run|])
    ensures
      var first, last, n := states[0], states[|run|], |run|;
      1_000_000 * (ChainTokens(last, b) + Taken(states, run, b, n) + Refills(run, b, n)) + rate * Pow2(first[b].scale) >=
        Less(1_000_000 * ChainTokens(first, b) + rate * (Micros(last[b].last) - Micros(first[b].last)), 1_000_000 * ChainDepth(first, b))
  {
    var first, last, n := states[0], states[|run|], |run|;
    LevelKept(states, run, b, rate, n);
    StepEarns(rate, last[b].carry, Pow2(first[b].scale));
    ScaledIs(rate, Micros(last[b].last) - Micros(first[b].last));
    ScaledMono(rate, 0, first[b].carry);
    ScaledIs(rate, 0);
  }
}
