/** The parameters of the buckets of a compiled classifier, worked out from the
    policers of its expression. */
module BucketSetup {
  import opened Semantics
  import opened Bits
  import opened Buckets

  /** A single-rate policer; `peak` is set if it has a peak rate. */
  datatype Police = Police(number: nat, rate: Option<nat>, peak: bool, burst: nat, mpu: Option<nat>, overflow: Option<Police>)

  /** Tokens that `p` and what it overflows into can hold. */
  function DepthSum(p: Police): nat {
    p.burst + if p.overflow.Some? then DepthSum(p.overflow.value) else 0
  }

  ghost function ChainLength(p: Police): nat {
    if p.overflow.Some? then 1 + ChainLength(p.overflow.value) else 0
  }

  /** The time it takes to fill all of these buckets. */
  function FillTime(p: Police): nat
    requires p.rate.Some? && p.rate.value > 0
  {
    DepthSum(p) * 1_000_000 / p.rate.value
  }

  datatype Added = Done | NotSingleRate | TooManyBuckets | UnknownOverflow

  /** Is `b` the bucket of policer `p`? */
  predicate BucketOf(b: Bucket, p: Police) {
    && p.rate.Some? && p.rate.value > 0
    && b.depth == b.tokens == p.burst && b.carry == 0 && b.last == Time(0, 0)
    && b.mpu == (if p.mpu.Some? then p.mpu.value else 0)
    && b.maxTime == FillTime(p) && TableFor(b, p.rate.value, DepthSum(p))
    && (b.overflow.Some? <==> p.overflow.Some?)
  }

  class Generator {
    var numbers: seq<nat>
    var lines: seq<Bucket>
    ghost var made: seq<Police>

    ghost predicate Valid()
      reads this
    {
      && |numbers| == |lines| == |made| && WellFormed(lines)
      && forall i: nat {:trigger Settled(i)} | i < |made| :: Settled(i)
    }

    /** The bucket of a policer overflows into that of the policer it names. */
    ghost predicate Settled(i: nat)
      reads this
      requires i < |made| && |numbers| == |lines| == |made|
    {
      && numbers[i] == made[i].number && BucketOf(lines[i], made[i])
      && (lines[i].overflow.Some? ==> lines[i].overflow.value < i && made[lines[i].overflow.value] == made[i].overflow.value)
    }

    constructor ()
      ensures Valid() && lines == [] && made == []
    {
      numbers, lines, made := [], [], [];
    }

    method LookupBucket(number: nat) returns (n: Option<nat>)
      ensures n.None? ==> number !in numbers
      ensures n.Some? ==> n.value < |numbers| && numbers[n.value] == number
    {
      for i := 0 to |numbers|
        invariant number !in numbers[..i]
      {
        if numbers[i] == number { return Some(i); }
      }
      assert numbers[..|numbers|] == numbers;
      return None;
    }

    /** Appends the bucket of `p`. The scale is the least that lets the fill time
        into the table. */
    method AddBucket(p: Police) returns (r: Added)
      requires Valid() && (p.rate.Some? ==> p.rate.value > 0)
      requires p.rate.Some? ==> DepthSum(p) < U32 && FillTime(p) < U32
      requires forall q | q in made + [p] && p.overflow.Some? && q.number == p.overflow.value.number :: q == p.overflow.value
      requires p.rate.None? ==> p.peak
      modifies this
      ensures r.Done? ==> Valid() && made == old(made) + [p] && |lines| == |old(lines)| + 1 && lines[..|old(lines)|] == old(lines)
      ensures r.Done? ==> p.rate.Some? && Shr(FillTime(p), lines[|old(lines)|].scale) <= 255
      ensures r.Done? && p.rate.Some? ==> forall k: nat | k < lines[|old(lines)|].scale :: Shr(FillTime(p), k) > 255
      ensures r.NotSingleRate? <==> p.rate.None?
      ensures r.TooManyBuckets? <==> p.rate.Some? && |old(numbers)| >= MAX_BUCKETS
      ensures r.UnknownOverflow? <==>
        p.rate.Some? && |old(numbers)| < MAX_BUCKETS && p.overflow.Some? && p.overflow.value.number !in old(numbers)
    {
      if p.rate.None? && p.peak { return NotSingleRate; }
      if |numbers| >= MAX_BUCKETS { return TooManyBuckets; }
      numbers := numbers + [p.number];
      var overflow: Option<nat> := None;
      if p.overflow.Some? {
        assert p in made + [p];
        overflow := LookupBucket(p.overflow.value.number);
        if overflow.None? { return UnknownOverflow; }
        ghost var all := made + [p];
        assert overflow.value < |made| ==> old(Settled(overflow.value));
        assert all[overflow.value] in all && all[overflow.value].number == p.overflow.value.number;
        assert ChainLength(p) != ChainLength(p.overflow.value);
        assert overflow.value < |made| && made[overflow.value] == p.overflow.value;
      }
      var totalDepth := DepthSum(p);
      var maxTime := totalDepth * 1_000_000 / p.rate.value;
      var scale := Scale(maxTime);
      var mpu := if p.mpu.Some? then p.mpu.value else 0;
      var rate := p.rate.value;
      var t2b := seq(TIME_STEPS, k requires 0 <= k < TIME_STEPS => TableEntry(k, rate, scale, totalDepth));
      var b := Bucket(p.burst, mpu, p.burst, Time(0, 0), 0, maxTime, scale, t2b, overflow);
      assert BucketOf(b, p);
      lines, made := lines + [b], made + [p];
      forall i: nat | i < |made| ensures Settled(i) { assert i < |old(made)| ==> old(Settled(i)); }
      return Done;
    }
  }

  method Scale(maxTime: nat) returns (scale: nat)
    requires maxTime < U32
    ensures Shr(maxTime, scale) <= 255 && scale <= 24
    ensures forall k: nat | k < scale :: Shr(maxTime, k) > 255
  {
    scale := 0;
    while Shr(maxTime, scale) > 255
      invariant scale <= 24 && forall k: nat | k < scale :: Shr(maxTime, k) > 255
      decreases Shr(maxTime, scale)
    {
      ShrNext(maxTime, scale);
      ScaleBound(maxTime, scale);
      scale := scale + 1;
    }
  }

  lemma ScaleBound(x: nat, k: nat)
    requires x < U32 && Shr(x, k) > 255
    ensures k < 24
  {
    Split(x, k);
    if k >= 24 {
      Pow2Mono(24, k);
      Pow2Of24();
      Larger(256, Shr(x, k), 0x100_0000, Pow2(k));
    }
  }

  lemma Larger(a: nat, b: nat, c: nat, d: nat)
    requires a <= b && c <= d
    ensures a * c <= b * d
  {
    assert a * c <= b * c <= b * d;
  }

  /** The table of a bucket ends where its chain is full. */
  lemma {:induction false} ChainDepthIs(g: Generator, i: nat)
    requires g.Valid() && i < |g.made|
    ensures ChainDepth(g.lines, i) == DepthSum(g.made[i])
    decreases i
  {
    assert g.Settled(i);
    if g.lines[i].overflow.Some? { ChainDepthIs(g, g.lines[i].overflow.value); }
  }

  /** The buckets printed earn what their rate allows until their chain is full. */
  lemma LinesFit(g: Generator, i: nat)
    requires g.Valid() && i < |g.made|
    ensures g.made[i].rate.Some? && Fitted(g.lines, i, g.made[i].rate.value)
  {
    ChainDepthIs(g, i);
    assert g.Settled(i);
  }
}
