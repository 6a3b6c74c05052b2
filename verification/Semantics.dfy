/** What a classifier does, independently of how it is written down: the
    packet and the meters it looks at, the decisions it takes, and the counts
    it leaves behind. */
module Semantics {

  /** A classification decision. Rejected packets are dropped, `Continue` leaves
      the packet to the next filter. */
  datatype Decision = Continue | Class(number: nat) | Drop

  /** One run's surroundings. `bit` is the packet: bit `n` of an offset group.
      `conf` says whether the packet conforms to a bucket once that bucket has
      been counted `k` times in this run; a count of a bucket affects only later
      conformance tests of the same bucket. */
  datatype Env = Env(bit: (int, int) -> bool, conf: (nat, nat) -> bool)

  /** The counts performed so far, oldest first. */
  type Hist = seq<nat>

  predicate Conforms(env: Env, h: Hist, bucket: nat) {
    env.conf(bucket, multiset(h)[bucket])
  }

  datatype Option<+T> = None | Some(value: T)

  /** How a run ends: with a decision or by falling off the end, and with these
      counts performed. */
  datatype Result = Result(verdict: Option<Decision>, hist: Hist)
}
