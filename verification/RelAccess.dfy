/** Comparing an access: masks and shifts by constants around it are
    gathered into one mask and one constant. */
module RelAccess {
  import opened Semantics
  import opened Bits
  import opened Expr
  import opened Comparisons
  import U128

  /** A C `int`, wrapped around. */
  function Int32(x: int): int { (x + 0x8000_0000) % 0x1_0000_0000 - 0x8000_0000 }

  /** Shift counts are 32-bit words, masks are 128-bit ones. */
  predicate Constants(x: Term) {
    match x
    case Access(_, _, _) => true
    case MaskLeft(m, y) => m < Pow2(WIDTH) && Constants(y)
    case MaskRight(y, m) => m < Pow2(WIDTH) && Constants(y)
    case ShiftLeft(y, n) => n < 0x1_0000_0000 && Constants(y)
    case ShiftRight(y, n) => n < 0x1_0000_0000 && Constants(y)
  }

  predicate HasBit(x: nat, i: int) { i >= 0 && Bit(x, i) }

  lemma {:induction false} EqualBits(a: nat, b: nat)
    requires forall i: nat :: Bit(a, i) == Bit(b, i)
    ensures a == b
    decreases a + b
  {
    if a > 0 || b > 0 {
      assert Bit(a, 0) == Bit(b, 0);
      forall i: nat ensures Bit(a / 2, i) == Bit(b / 2, i) { assert Bit(a, i + 1) == Bit(b, i + 1); }
      EqualBits(a / 2, b / 2);
    }
  }

  // ----- what is left of a value -----

  /** `v0` is made of those bits of `v` that are in the mask, moved down by `s`. */
  ghost predicate Tracks(v0: nat, v: nat, mask: nat, s: int) {
    forall i: nat {:trigger Bit(v0, i)} :: Bit(v0, i) <==> HasBit(mask, i + s) && HasBit(v, i + s)
  }

  /** Only bits that come out within the word are in the mask. */
  ghost predicate Window(mask: nat, s: int, w: nat) {
    forall j: nat {:trigger Bit(mask, j)} :: Bit(mask, j) ==> j < w && 0 <= j - s < w
  }

  lemma WindowSpan(mask: nat, s: int, w: nat)
    requires Window(mask, s, w) && 0 < mask
    ensures -(w as int) < s < w
  {
    Pow2Above(mask);
    var j := SomeBit(mask, mask);
  }

  lemma TracksMask(v0: nat, v: nat, mask: nat, s: int, m: nat, y: nat, w: nat)
    requires Tracks(v0, v, mask, s) && Window(mask, s, w) && (v == And(m, y) || v == And(y, m))
    ensures Tracks(v0, y, And(mask, m), s) && Window(And(mask, m), s, w)
  {
    forall i: nat ensures Bit(And(mask, m), i) <==> Bit(mask, i) && Bit(m, i) { BitAnd(mask, m, i); }
    forall i: nat ensures Bit(v, i) <==> Bit(m, i) && Bit(y, i) { BitAnd(m, y, i); BitAnd(y, m, i); }
    forall i: nat ensures Bit(v0, i) <==> HasBit(And(mask, m), i + s) && HasBit(y, i + s) {}
  }

  lemma TracksLeft(v0: nat, v: nat, mask: nat, s: int, n: nat, y: nat, w: nat)
    requires Tracks(v0, v, mask, s) && Window(mask, s, w) && v == Low(Shl(y, n), w)
    ensures Tracks(v0, y, Shr(mask, n), s - n) && Window(Shr(mask, n), s - n, w)
  {
    forall i: nat ensures Bit(Shr(mask, n), i) <==> Bit(mask, i + n) { BitShiftRight(mask, n, i); }
    forall i: nat ensures Bit(v, i) <==> n <= i < w && Bit(y, i - n) {
      BitLow(Shl(y, n), w, i); BitJoin(y, n, 0, i); BitZero(i);
    }
    forall i: nat ensures Bit(v0, i) <==> HasBit(Shr(mask, n), i + (s - n)) && HasBit(y, i + (s - n)) {
      if i + s >= n { assert Bit(Shr(mask, n), i + s - n) <==> Bit(mask, i + s - n + n); }
    }
    forall j: nat | Bit(Shr(mask, n), j) ensures j < w && 0 <= j - (s - n) < w { assert Bit(mask, j + n); }
  }

  lemma TracksRight(v0: nat, v: nat, mask: nat, s: int, n: nat, y: nat, w: nat)
    requires Tracks(v0, v, mask, s) && Window(mask, s, w) && v == Shr(y, n) && y < Pow2(w)
    ensures Tracks(v0, y, Low(Shl(mask, n), w), s + n) && Window(Low(Shl(mask, n), w), s + n, w)
  {
    var m := Low(Shl(mask, n), w);
    forall i: nat ensures Bit(m, i) <==> n <= i < w && Bit(mask, i - n) {
      BitLow(Shl(mask, n), w, i); BitJoin(mask, n, 0, i); BitZero(i);
    }
    forall i: nat ensures Bit(v, i) <==> Bit(y, i + n) { BitShiftRight(y, n, i); }
    forall i: nat ensures Bit(v0, i) <==> HasBit(m, i + (s + n)) && HasBit(y, i + (s + n)) {
      if i + s + n >= w { if i + s + n >= 0 { BitAbove(y, w, i + s + n); } }
    }
  }

  // ----- moving the constant -----

  // ----- moving both sides of a comparison -----

  lemma {:induction false} ShlOrder(rel: Rel, a: nat, b: nat, n: nat)
    ensures Holds(rel, Shl(a, n), Shl(b, n)) == Holds(rel, a, b)
    decreases n
  {
    if n > 0 { ShlOrder(rel, a, b, n - 1); }
  }

  /** The comparison of a value with zeros at the end. */
  predicate Floored(rel: Rel, u: nat, c: nat, lost: bool) {
    if !lost then Holds(rel, u, c)
    else match rel
      case EQ => false
      case NE => true
      case LT => u <= c
      case LE => u <= c
      case GT => u > c
      case GE => u > c
  }

  lemma {:induction false} ShlFloor(rel: Rel, u: nat, c: nat, n: nat)
    ensures Holds(rel, Shl(u, n), c) == Floored(rel, u, Shr(c, n), Low(c, n) != 0)
    decreases n
  {
    if n > 0 {
      ShlFloor(rel, u, c / 2, n - 1);
      var v := Shl(u, n - 1);
      assert Shl(u, n) == 2 * v;
      ShlFloor(LT, u, c / 2, n - 1); ShlFloor(LE, u, c / 2, n - 1);
      ShlFloor(GT, u, c / 2, n - 1); ShlFloor(GE, u, c / 2, n - 1);
      ShlFloor(EQ, u, c / 2, n - 1);
      assert c == 2 * (c / 2) + c % 2;
    }
  }

  /** Moved up, the value is what the mask leaves. */
  lemma TracksUp(v0: nat, v: nat, mask: nat, s: nat, w: nat)
    requires Tracks(v0, v, mask, s) && Window(mask, s, w)
    ensures And(v, mask) == Shl(v0, s)
  {
    forall j: nat ensures Bit(And(v, mask), j) == Bit(Shl(v0, s), j) {
      BitAnd(v, mask, j);
      BitJoin(v0, s, 0, j);
      BitZero(j);
      if j >= s { assert Bit(v0, j - s) <==> HasBit(mask, j - s + s) && HasBit(v, j - s + s); }
    }
    EqualBits(And(v, mask), Shl(v0, s));
  }

  /** Moved down, it is the value. */
  lemma TracksDown(v0: nat, v: nat, mask: nat, n: nat)
    requires Tracks(v0, v, mask, -(n as int))
    ensures v0 == Shl(And(v, mask), n)
  {
    forall i: nat ensures Bit(v0, i) == Bit(Shl(And(v, mask), n), i) {
      BitJoin(And(v, mask), n, 0, i);
      BitZero(i);
      if i >= n { BitAnd(v, mask, i - n); }
    }
    EqualBits(v0, Shl(And(v, mask), n));
  }

  /** What is below a shifted constant that fits the word. */
  lemma ShiftFits(c: nat, s: nat, w: nat)
    requires s <= w && Shr(c, w - s) == 0
    ensures Low(Shl(c, s), w) == Shl(c, s)
  {
    Split(c, w - s);
    JoinBound(c, s, 0, w - s);
    LowSmall(Shl(c, s), w);
  }

  /** A constant too large for the word is never reached. */
  lemma OverflowNever(v0: nat, v: nat, mask: nat, s: nat, c: nat, w: nat)
    requires Tracks(v0, v, mask, s) && Window(mask, s, w) && s <= w && Shr(c, w - s) != 0
    ensures v0 < c
  {
    forall j: nat ensures Bit(Shr(v0, w - s), j) == Bit(0, j) {
      BitZero(j);
      BitShiftRight(v0, w - s, j);
      assert Bit(v0, j + (w - s)) ==> HasBit(mask, j + (w - s) + s);
    }
    EqualBits(Shr(v0, w - s), 0);
    if c <= v0 { ShrMono(c, v0, w - s); }
  }

  lemma NothingLeft(v0: nat, v: nat, s: int)
    requires Tracks(v0, v, 0, s)
    ensures v0 == 0
  {
    forall i: nat ensures Bit(v0, i) == Bit(0, i) {
      BitZero(i);
      if i + s >= 0 { BitZero(i + s); }
    }
    EqualBits(v0, 0);
  }

  /** The modulus of 128-bit arithmetic. */
  lemma Modulus()
    ensures Pow2(WIDTH) == 0x1_0000_0000_0000_0000_0000_0000_0000_0000
  {
    U128.WeightIs(4);
    U128.WeightFour();
  }

  lemma {:induction false} ShlOne(n: nat)
    ensures Shl(1, n) == Pow2(n)
    decreases n
  {
    if n > 0 { ShlOne(n - 1); }
  }

  /** The mask of the lowest `n` bits, as it is computed in 128 bits. */
  lemma OnesMask(n: nat, w: nat)
    requires Pow2(w) == 0x1_0000_0000_0000_0000_0000_0000_0000_0000
    ensures U128.Mod128(Low(Shl(1, n), w) as int - 1) == if n < w then Pow2(n) - 1 else Pow2(w) - 1
  {
    ShlOne(n);
    if n < w {
      Pow2Strict(n, w);
      LowSmall(Pow2(n), w);
    } else {
      LowOfPow2(n, w);
    }
  }

  lemma LowOnes(c: nat, n: nat, w: nat)
    requires c < Pow2(w)
    ensures And(c, if n < w then Pow2(n) - 1 else Pow2(w) - 1) == Low(c, n)
  {
    if n < w {
      LowMask(c, n);
    } else {
      LowMask(c, w);
      LowSmall(c, w);
      Pow2Mono(w, n);
      LowSmall(c, n);
    }
  }

  lemma Pow2Strict(m: nat, n: nat)
    requires m < n
    ensures Pow2(m) < Pow2(n)
  {
    Pow2Mono(m, n - 1);
  }

  lemma {:induction false} LowOfPow2(n: nat, w: nat)
    requires n >= w
    ensures Low(Pow2(n), w) == 0
    decreases w
  {
    if w > 0 { LowOfPow2(n - 1, w - 1); }
  }

  /** A constant shifted out of the word, shifted with bits lost, or shifted. */
  datatype Shifted = Overflow | Lost(c: nat) | Exact(c: nat)

  /** Shifts the constant the other way. */
  method ShiftConstant(c: nat, k: int) returns (r: Shifted)
    requires c < Pow2(WIDTH)
    ensures r == ShiftSpec(c, k, WIDTH)
  {
    if k > 0 {
      NoOverflow(c, k, WIDTH);
      if (k >= WIDTH && c != 0) || Shr(c, (WIDTH - k) % 0x1_0000_0000) != 0 { return Overflow; }
      r := Exact(Low(Shl(c, k), WIDTH));
    } else if k < 0 {
      var lost := LosesBits(c, -k);
      r := if lost then Lost(Shr(c, -k)) else Exact(Shr(c, -k));
    } else {
      r := Exact(c);
    }
  }

  method LosesBits(c: nat, n: nat) returns (lost: bool)
    requires c < Pow2(WIDTH)
    ensures lost <==> Low(c, n) != 0
  {
    var low := U128.Mod128(Low(Shl(1, n), WIDTH) as int - 1);
    Modulus();
    OnesMask(n, WIDTH);
    LowOnes(c, n, WIDTH);
    lost := And(c, low) != 0;
  }

  lemma NoOverflow(c: nat, k: nat, w: nat)
    requires w < 0x1_0000_0000
    ensures (if k >= w then c != 0 else Shr(c, w - k) != 0) <==> (k >= w && c != 0) || Shr(c, (w - k) % 0x1_0000_0000) != 0
  {
    if k >= w && c == 0 { ZeroField((w - k) % 0x1_0000_0000, 0); }
  }

  function ShiftSpec(c: nat, k: int, w: nat): Shifted {
    if k > 0 then
      if (if k >= w then c != 0 else Shr(c, w - k) != 0) then Overflow else Exact(Low(Shl(c, k), w))
    else
      if Low(c, -k) != 0 then Lost(Shr(c, -k)) else Exact(Shr(c, -k))
  }

  /** What the comparison says of the masked value. */
  predicate Says(rel: Rel, u: nat, r: Shifted) {
    match r
    case Overflow => Holds(rel, 0, 1)
    case Lost(c) => Floored(rel, u, c, true)
    case Exact(c) => Floored(rel, u, c, false)
  }

  lemma ShiftTracked(rel: Rel, v0: nat, v: nat, mask: nat, s: int, c: nat, w: nat)
    requires Tracks(v0, v, mask, s) && Window(mask, s, w) && mask != 0 && c < Pow2(w)
    ensures Holds(rel, v0, c) == Says(rel, And(v, mask), ShiftSpec(c, s, w))
  {
    WindowSpan(mask, s, w);
    if s > 0 {
      TracksUp(v0, v, mask, s, w);
      if Shr(c, w - s) != 0 { OverflowNever(v0, v, mask, s, c, w); }
      else {
        ShiftFits(c, s, w);
        ShlOrder(rel, v0, c, s);
      }
    } else {
      TracksDown(v0, v, mask, -s);
      ShlFloor(rel, And(v, mask), c, -s);
    }
  }

  /** Once the mask is empty the shift count, which may have wrapped around, no longer
      matters. */
  lemma ShiftNothing(rel: Rel, c: nat, k: int, w: nat)
    requires c < Pow2(w)
    ensures Holds(rel, 0, c) == Says(rel, 0, ShiftSpec(c, k, w))
  {
    if k > 0 {
      ZeroField(if k >= w then 0 else w - k, 0);
      if c == 0 { ZeroShl(k, w); }
      else if k < w && Shr(c, w - k) == 0 { KeepsValue(c, k, w); }
    } else {
      JoinZero(-k, 0);
      ShlFloor(rel, 0, c, -k);
    }
  }

  lemma ZeroShl(k: nat, w: nat)
    ensures Low(Shl(0, k), w) == 0
  {
    JoinZero(k, 0);
    ZeroField(0, w);
  }

  lemma KeepsValue(c: nat, k: nat, w: nat)
    requires 0 < c && k < w && Shr(c, w - k) == 0
    ensures Low(Shl(c, k), w) != 0
  {
    Pow2Above(c);
    var j := SomeBit(c, c);
    BitShiftRight(c, w - k, if j >= w - k then j - (w - k) else 0);
    if j >= w - k { BitZero(j - (w - k)); }
    BitLow(Shl(c, k), w, j + k);
    BitJoin(c, k, 0, j + k);
    BitZero(j + k);
  }

  // ----- comparing mask and constant -----

  /** The words of 128 bits. */
  const WORDS: nat := var n: nat :| 3 < n < 5; n

  /** The words of a number, for the word-wise comparison. */
  function ToWords(x: nat, n: nat): (a: U128.Words)
    ensures |a| == n
    decreases n
  {
    if n == 0 then [] else [Low(x, WORD)] + ToWords(Shr(x, WORD), n - 1)
  }

  lemma {:induction false} WordsValue(x: nat, n: nat)
    requires x < Pow2(n * 32)
    ensures U128.Value(ToWords(x, n)) == x && forall i | 0 <= i < n :: ToWords(x, n)[i] < 0x1_0000_0000
    decreases n
  {
    if n > 0 {
      U128.Pow2Of32();
      Split(x, WORD);
      assert x == Shr(x, WORD) * 0x1_0000_0000 + Low(x, WORD);
      Pow2Add(32, (n - 1) * 32);
      assert Shr(x, WORD) < Pow2((n - 1) * 32);
      WordsValue(Shr(x, WORD), n - 1);
      assert ToWords(x, n)[1..] == ToWords(Shr(x, WORD), n - 1);
    }
  }

  lemma {:induction false} WordsWithin(c: nat, mask: nat, n: nat)
    requires forall i: nat :: Bit(c, i) ==> Bit(mask, i)
    ensures U128.Order(ToWords(mask, n), ToWords(c, n)) >= 0
    decreases n
  {
    if n > 0 {
      PartsWithin(c, mask, WORD);
      WordsWithin(Shr(c, WORD), Shr(mask, WORD), n - 1);
      var a, b := ToWords(mask, n), ToWords(c, n);
      assert a[1..] == ToWords(Shr(mask, WORD), n - 1) && b[1..] == ToWords(Shr(c, WORD), n - 1);
    }
  }

  lemma PartsWithin(c: nat, mask: nat, k: nat)
    requires forall i: nat :: Bit(c, i) ==> Bit(mask, i)
    ensures Low(c, k) <= Low(mask, k)
    ensures forall i: nat :: Bit(Shr(c, k), i) ==> Bit(Shr(mask, k), i)
  {
    forall i: nat | Bit(Low(c, k), i) ensures Bit(Low(mask, k), i) { BitLow(c, k, i); BitLow(mask, k, i); }
    SubsetBelow(Low(c, k), Low(mask, k));
    forall i: nat | Bit(Shr(c, k), i) ensures Bit(Shr(mask, k), i) { BitShiftRight(c, k, i); BitShiftRight(mask, k, i); }
  }

  /** A constant of which all bits are in the mask is never found greater, although the
      comparison starts from the wrong end. */
  lemma NeverGreater(mask: nat, c: nat, v: nat)
    requires U128.Order(ToWords(mask, WORDS), ToWords(c, WORDS)) < 0
    ensures And(v, mask) != c
  {
    if And(v, mask) == c {
      forall i: nat | Bit(c, i) ensures Bit(mask, i) { BitAnd(v, mask, i); }
      WordsWithin(c, mask, WORDS);
    }
  }

  lemma OutsideMask(mask: nat, c: nat, w: nat)
    requires mask < Pow2(w) && c < Pow2(w)
    ensures And(c, Not(mask, w)) == 0 <==> And(c, mask) == c
  {
    forall i: nat ensures Bit(And(c, mask), i) <==> Bit(c, i) && Bit(mask, i) { BitAnd(c, mask, i); }
    forall i: nat ensures Bit(And(c, Not(mask, w)), i) <==> Bit(c, i) && i < w && !Bit(mask, i) {
      BitAnd(c, Not(mask, w), i); BitNot(mask, w, i);
    }
    if And(c, Not(mask, w)) == 0 {
      forall i: nat ensures Bit(And(c, mask), i) == Bit(c, i) {
        NoBit(And(c, Not(mask, w)), i);
        if i >= w { BitAbove(c, w, i); }
      }
      EqualBits(And(c, mask), c);
    }
    if And(c, mask) == c {
      forall i: nat ensures Bit(And(c, Not(mask, w)), i) == Bit(0, i) { BitZero(i); }
      EqualBits(And(c, Not(mask, w)), 0);
    }
  }

  lemma AndAnd(v: nat, m: nat, n: nat)
    ensures And(v, And(m, n)) == And(And(v, n), m)
  {
    forall i: nat ensures Bit(And(v, And(m, n)), i) == Bit(And(And(v, n), m), i) {
      BitAnd(v, And(m, n), i); BitAnd(m, n, i); BitAnd(And(v, n), m, i); BitAnd(v, n, i);
    }
    EqualBits(And(v, And(m, n)), And(And(v, n), m));
  }

  // ----- the pass -----

  /** A comparison of a constant with another, already worked out. */
  function Answer(rel: Rel, a: nat, b: nat): Expr { Const(if Holds(rel, a, b) then 1 else 0) }

  /** What is left when masks and shifts are taken off `x`, from the outside in, with the
      mask gathered, and by how many bits it was moved. */
  function Stripped(x: Term, mask: nat, s: int): (Term, nat, int)
    decreases x
  {
    match x
    case Access(_, _, _) => (x, mask, s)
    case MaskLeft(m, y) => Stripped(y, And(mask, m), s)
    case MaskRight(y, m) => Stripped(y, And(mask, m), s)
    case ShiftLeft(y, n) => if Shr(mask, n) == 0 then (x, 0, s - n) else Stripped(y, Shr(mask, n), s - n)
    case ShiftRight(y, n) =>
      if Low(Shl(mask, n), WIDTH) == 0 then (x, 0, s + n) else Stripped(y, Low(Shl(mask, n), WIDTH), s + n)
  }

  ghost predicate Gathered(x0: Term, x: Term, mask: nat, s: int) {
    Narrow(x) && Constants(x) && mask < Pow2(WIDTH) && Window(mask, s, WIDTH) && Followed(x0, x, mask, s)
  }

  ghost predicate Followed(x0: Term, x: Term, mask: nat, s: int) {
    forall env :: Tracks(TermValue(x0, env), TermValue(x, env), mask, s)
  }

  lemma StartGathering(x: Term, w: nat)
    requires Narrow(x) && Constants(x) && w == WIDTH
    ensures Pow2(w) > 0 && Gathered(x, x, Not(0, w), 0)
  {
    forall i: nat ensures Bit(Not(0, w), i) <==> i < w { BitNot(0, w, i); BitZero(i); }
    forall env ensures Tracks(TermValue(x, env), TermValue(x, env), Not(0, w), 0) {
      NarrowValue(x, env);
      forall i: nat | i >= w ensures !Bit(TermValue(x, env), i) { BitAbove(TermValue(x, env), w, i); }
    }
  }

  lemma GatherMask(x0: Term, x: Term, mask: nat, s: int, m: nat, y: Term)
    requires Gathered(x0, x, mask, s) && (x == MaskLeft(m, y) || x == MaskRight(y, m))
    ensures Gathered(x0, y, And(mask, m), s)
  {
    AndBelow(mask, m);
    forall env ensures Tracks(TermValue(x0, env), TermValue(y, env), And(mask, m), s) {
      TracksMask(TermValue(x0, env), TermValue(x, env), mask, s, m, TermValue(y, env), WIDTH);
    }
    TracksMask(0, 0, mask, s, m, 0, WIDTH) by { AllZero(mask, s, m); }
  }

  lemma AllZero(mask: nat, s: int, m: nat)
    ensures Tracks(0, 0, mask, s) && And(m, 0) == 0
  {
    AndBelow(m, 0);
    forall i: nat ensures !Bit(0, i) { BitZero(i); }
  }

  lemma GatherLeft(x0: Term, x: Term, mask: nat, s: int, n: nat, y: Term, mask': nat, s': int, w: nat)
    requires Gathered(x0, x, mask, s) && x == ShiftLeft(y, n) && mask' == Shr(mask, n) && s' == s - n && w == WIDTH
    ensures Gathered(x0, y, mask', s')
  {
    ShrLower(mask, n);
    forall env ensures Tracks(TermValue(x0, env), TermValue(y, env), Shr(mask, n), s - n) {
      TracksLeft(TermValue(x0, env), TermValue(x, env), mask, s, n, TermValue(y, env), w);
    }
    WindowLeft(mask, s, n, w);
  }

  lemma WindowLeft(mask: nat, s: int, n: nat, w: nat)
    requires Window(mask, s, w)
    ensures Window(Shr(mask, n), s - n, w)
  {
    forall j: nat | Bit(Shr(mask, n), j) ensures j < w && 0 <= j - (s - n) < w {
      BitShiftRight(mask, n, j);
      assert Bit(mask, j + n);
    }
  }

  lemma GatherRight(x0: Term, x: Term, mask: nat, s: int, n: nat, y: Term, mask': nat, s': int, w: nat)
    requires Gathered(x0, x, mask, s) && x == ShiftRight(y, n) && mask' == Low(Shl(mask, n), w) && s' == s + n && w == WIDTH
    ensures Gathered(x0, y, mask', s')
  {
    forall env ensures Tracks(TermValue(x0, env), TermValue(y, env), Low(Shl(mask, n), w), s + n) {
      NarrowValue(y, env);
      TracksRight(TermValue(x0, env), TermValue(x, env), mask, s, n, TermValue(y, env), w);
    }
    WindowRight(mask, s, n, w);
  }

  lemma WindowRight(mask: nat, s: int, n: nat, w: nat)
    requires Window(mask, s, w)
    ensures Window(Low(Shl(mask, n), w), s + n, w)
  {
    forall j: nat | Bit(Low(Shl(mask, n), w), j) ensures j < w && 0 <= j - (s + n) < w {
      BitLow(Shl(mask, n), w, j); BitJoin(mask, n, 0, j); BitZero(j);
      assert Bit(mask, j - n);
    }
  }

  /** An empty mask tells nothing about the term it is put on. */
  lemma GatheredNothing(x0: Term, x: Term, s: int, z: Term, t: int)
    requires Gathered(x0, x, 0, s) && Narrow(z) && Constants(z)
    ensures Gathered(x0, z, 0, t)
  {
    forall j: nat ensures !Bit(0, j) { BitZero(j); }
    forall env ensures Tracks(TermValue(x0, env), TermValue(z, env), 0, t) {
      NothingLeft(TermValue(x0, env), TermValue(x, env), s);
    }
  }

  /** As long as there is a mask the shift count is small. */
  lemma CountFits(mask: nat, s: int, w: nat)
    requires Window(mask, s, w) && w < 129
    ensures mask != 0 ==> Int32(s) == s
  {
    if mask != 0 { WindowSpan(mask, s, w); }
  }

  /** Takes masks and shifts off the term, from the outside in. The shift count is a C
      `int`; it is right as long as there is anything left of the mask. */
  method Gather(x0: Term) returns (x: Term, mask: nat, cShift: int, ghost s: int)
    requires Narrow(x0) && Constants(x0)
    ensures Gathered(x0, x, mask, s) && (mask != 0 ==> cShift == s)
    ensures (x, mask, s) == Stripped(x0, Not(0, WIDTH), 0) && (x.Access? || mask == 0)
  {
    x, mask, cShift, s := x0, Not(0, WIDTH), 0, 0;
    StartGathering(x0, WIDTH);
    while !x.Access?
      invariant Gathered(x0, x, mask, s) && (mask != 0 ==> cShift == s)
      invariant Stripped(x, mask, s) == Stripped(x0, Not(0, WIDTH), 0)
      decreases x
    {
      if x.MaskLeft? {
        PeelMask(x0, x, mask, s);
        x, mask := x.x, And(mask, x.mask);
      } else if x.MaskRight? {
        PeelMask(x0, x, mask, s);
        x, mask := x.x, And(mask, x.mask);
      } else {
        mask, cShift, s := GatherShift(x0, x, mask, cShift, s);
        if mask == 0 {
          GatheredNothing(x0, x.x, s, x, s);
          return;
        }
        x := x.x;
      }
    }
  }

  method GatherShift(x0: Term, x: Term, mask: nat, cShift: int, ghost s: int) returns (mask': nat, cShift': int, ghost s': int)
    requires Gathered(x0, x, mask, s) && (mask != 0 ==> cShift == s) && (x.ShiftLeft? || x.ShiftRight?)
    ensures Gathered(x0, x.x, mask', s') && (mask' != 0 ==> cShift' == s')
    ensures x.ShiftLeft? ==> mask' == Shr(mask, x.n) && s' == s - x.n
    ensures x.ShiftRight? ==> mask' == Low(Shl(mask, x.n), WIDTH) && s' == s + x.n
  {
    if mask == 0 { ShiftedEmpty(mask, x.n, WIDTH); }
    ghost var y, n := x.x, x.n;
    if x.ShiftLeft? {
      mask', cShift', s' := Shr(mask, x.n), Int32(cShift - x.n), s - x.n;
      GatherLeft(x0, x, mask, s, n, y, mask', s', WIDTH);
      CountKept(mask, cShift, s, mask', cShift - x.n, s', WIDTH);
    } else {
      mask', cShift', s' := Low(Shl(mask, x.n), WIDTH), Int32(cShift + x.n), s + x.n;
      GatherRight(x0, x, mask, s, n, y, mask', s', WIDTH);
      CountKept(mask, cShift, s, mask', cShift + x.n, s', WIDTH);
    }
  }

  lemma CountKept(mask: nat, cShift: int, s: int, mask': nat, k: int, s': int, w: nat)
    requires (mask != 0 ==> cShift == s) && k - cShift == s' - s && Window(mask', s', w) && w < 129
    ensures mask != 0 && mask' != 0 ==> Int32(k) == s'
  {
    CountFits(mask', s', w);
  }

  lemma ShiftedEmpty(mask: nat, n: nat, w: nat)
    ensures mask == 0 ==> Shr(mask, n) == 0 && Low(Shl(mask, n), w) == 0
  {
    if mask == 0 {
      ZeroField(n, w);
      ZeroShl(n, w);
    }
  }

  lemma PeelMask(x0: Term, x: Term, mask: nat, s: int)
    requires Gathered(x0, x, mask, s) && (x.MaskLeft? || x.MaskRight?)
    ensures Gathered(x0, x.x, And(mask, x.mask), s) && (mask == 0 ==> And(mask, x.mask) == 0)
  {
    AndBelow(mask, x.mask);
    GatherMask(x0, x, mask, s, x.mask, x.x);
  }

  /** Bits beyond the field are zero anyway. */
  lemma FieldMask(v: nat, size: nat, mask: nat, w: nat)
    requires v < Pow2(size) && size <= w && Pow2(w) == 0x1_0000_0000_0000_0000_0000_0000_0000_0000
    ensures And(v, And(mask, U128.Mod128(Low(Shl(1, size), w) as int - 1))) == And(v, mask)
  {
    var ones := U128.Mod128(Low(Shl(1, size), w) as int - 1);
    OnesMask(size, w);
    Pow2Mono(size, w);
    LowOnes(v, size, w);
    LowSmall(v, size);
    AndAnd(v, mask, ones);
  }

  lemma GatherField(x: Term, mask: nat)
    requires Narrow(x) && x.Access?
    ensures forall env :: And(TermValue(x, env), And(mask, U128.Mod128(Low(Shl(1, x.size), WIDTH) as int - 1))) == And(TermValue(x, env), mask)
  {
    Modulus();
    forall env ensures And(TermValue(x, env), And(mask, U128.Mod128(Low(Shl(1, x.size), WIDTH) as int - 1))) == And(TermValue(x, env), mask) {
      FieldMask(TermValue(x, env), x.size, mask, WIDTH);
    }
  }

  /** Is the constant found to be greater than the mask? The comparison of words starts
      from the wrong end. */
  predicate Beyond(mask: nat, c: nat) { U128.Order(ToWords(mask, WORDS), ToWords(c, WORDS)) < 0 }

  /** How the comparison of a masked value comes out. */
  predicate Decides(rel: Rel, u: nat, mask: nat, c: nat) {
    if Beyond(mask, c) then Holds(rel, 0, 1) else Holds(rel, u, c)
  }

  /** Compares a masked term with a constant, or leaves the answer. */
  method CompareMasked(rel: Rel, x: Term, mask: nat, c: nat) returns (d: Expr)
    requires Narrow(x) && Constants(x) && mask < Pow2(WIDTH) && c < Pow2(WIDTH)
    ensures forall env, h :: Eval(d, env, h) == Value(TruthOf(Decides(rel, And(TermValue(x, env), mask), mask, c)), h)
    ensures d.Const? || d == Compare(rel, MaskRight(x, mask), c)
    ensures d.Compare? <==> mask != 0 && !Beyond(mask, c) && (rel == EQ || rel == NE ==> And(c, mask) == c)
  {
    if mask == 0 { ZeroBeyond(c); }
    if U128.Order(ToWords(mask, WORDS), ToWords(c, WORDS)) < 0 { return Answer(rel, 0, 1); }
    if Or(mask, c) == 0 {
      OrNothing(mask, c);
      forall env ensures And(TermValue(x, env), mask) == c { AndBelow(TermValue(x, env), mask); }
      return Answer(rel, 0, 0);
    }
    OutsideMask(mask, c, WIDTH);
    if And(c, Not(mask, WIDTH)) != 0 && (rel == EQ || rel == NE) {
      forall env ensures And(TermValue(x, env), mask) != c { WithinMask(TermValue(x, env), mask, c); }
      return Const(if rel == NE then 1 else 0);
    }
    d := Compare(rel, MaskRight(x, mask), c);
    AndBelow(c, mask);
    OrZero(mask);
    OrNothing(mask, c);
  }

  /** Anything is beyond an empty mask. */
  lemma ZeroBeyond(c: nat)
    requires c < Pow2(WIDTH)
    ensures c != 0 ==> Beyond(0, c)
  {
    WordsValue(c, WORDS);
    if c != 0 { ZeroOrder(ToWords(c, WORDS), WORDS); }
  }

  lemma {:induction false} ZeroOrder(b: U128.Words, n: nat)
    requires |b| == n && U128.Value(b) != 0
    ensures U128.Order(ToWords(0, n), b) < 0
    decreases n
  {
    if n > 0 {
      ZeroField(WORD, WORD);
      assert ToWords(0, n)[0] == 0 && ToWords(0, n)[1..] == ToWords(0, n - 1);
      if b[0] == 0 { ZeroOrder(b[1..], n - 1); }
    }
  }

  lemma OrNothing(a: nat, b: nat)
    ensures Or(a, b) == 0 <==> a == 0 && b == 0
  {
    if a == 0 {}
    else if Or(a, b) == 0 {
      Pow2Above(a);
      var j := SomeBit(a, a);
      BitOr(a, b, j);
      NoBit(Or(a, b), j);
    }
  }

  lemma WithinMask(v: nat, mask: nat, c: nat)
    ensures And(v, mask) == c ==> And(c, mask) == c
  {
    if And(v, mask) == c {
      forall i: nat ensures Bit(And(c, mask), i) == Bit(c, i) { BitAnd(c, mask, i); BitAnd(v, mask, i); }
      EqualBits(And(c, mask), c);
    }
  }

  /** The mask of an access, limited to its size. */
  function Limited(x: Term, mask: nat): nat {
    if x.Access? && x.size != 0 then And(mask, U128.Mod128(Low(Shl(1, x.size), WIDTH) as int - 1)) else mask
  }

  /** Limits the mask of an access to its size. */
  lemma FieldMasked(x: Term, mask: nat)
    requires Narrow(x) && mask < Pow2(WIDTH)
    ensures Limited(x, mask) <= mask && forall env :: And(TermValue(x, env), Limited(x, mask)) == And(TermValue(x, env), mask)
    ensures x.Access? && x.size != 0 ==> Limited(x, mask) < Pow2(x.size)
  {
    if x.Access? && x.size != 0 {
      GatherField(x, mask);
      Modulus();
      OnesMask(x.size, WIDTH);
      AndBelow(mask, U128.Mod128(Low(Shl(1, x.size), WIDTH) as int - 1));
    }
  }

  /** The comparison that is left where bits of the constant were lost. */
  function Roughly(rel: Rel, c: nat): (Rel, nat) {
    match rel
    case LT => (LE, c)
    case GT => (GT, c + 1)
    case GE => (GT, c)
    case _ => (rel, c)
  }

  /** How it comes out. */
  predicate Result(rel: Rel, u: nat, mask: nat, r: Shifted) {
    match r
    case Overflow => Holds(rel, 0, 1)
    case Exact(c) => Decides(rel, u, mask, c)
    case Lost(c) =>
      if rel == EQ || rel == NE then rel == NE
      else var (rel', c') := Roughly(rel, c); Decides(rel', u, mask, c')
  }

  /** An ordering is right unless a constant that is not beyond the mask is taken to be. */
  predicate Sure(rel: Rel, mask: nat, c: nat) { rel == EQ || rel == NE || (Beyond(mask, c) ==> mask < c) }

  /** ... and unless bits are lost in `>`, where the constant becomes one too large: that
      shows if a masked value can equal it. */
  predicate Right(rel: Rel, mask: nat, r: Shifted) {
    match r
    case Overflow => true
    case Exact(c) => Sure(rel, mask, c)
    case Lost(c) =>
      match rel
      case EQ => true
      case NE => true
      case LT => Sure(LE, mask, c)
      case LE => Sure(LE, mask, c)
      case GE => Sure(GT, mask, c)
      case GT => if Beyond(mask, c + 1) then mask <= c else And(c + 1, mask) != c + 1
  }

  predicate AccessRight(rel: Rel, x0: Term, c0: nat)
    requires Pow2(WIDTH) > 0
  {
    var (x, mask, s) := Stripped(x0, Not(0, WIDTH), 0);
    Right(rel, Limited(x, mask), ShiftSpec(c0, s, WIDTH))
  }

  /** Words that are not beyond are not equal. */
  lemma BeyondDiffers(mask: nat, c: nat)
    requires Beyond(mask, c) && mask < Pow2(WIDTH) && c < Pow2(WIDTH)
    ensures mask != c
  {
    if mask == c { U128.OrderSame(ToWords(c, WORDS)); }
  }

  lemma DecidesRight(rel: Rel, u: nat, v: nat, mask: nat, c: nat)
    requires u == And(v, mask) && mask < Pow2(WIDTH) && c < Pow2(WIDTH)
    ensures Sure(rel, mask, c) ==> Decides(rel, u, mask, c) == Holds(rel, u, c)
    ensures !Sure(rel, mask, c) && u == mask ==> Decides(rel, u, mask, c) != Holds(rel, u, c)
  {
    AndBelow(v, mask);
    if Beyond(mask, c) {
      NeverGreater(mask, c, v);
      BeyondDiffers(mask, c);
    }
  }

  /** For the masked values that show it, the outcome is wrong if the condition fails. */
  lemma ResultRight(rel: Rel, u: nat, v: nat, mask: nat, r: Shifted)
    requires u == And(v, mask) && mask < Pow2(WIDTH) && (!r.Overflow? ==> r.c < Pow2(WIDTH)) && (r.Lost? ==> r.c + 1 < Pow2(WIDTH))
    ensures Right(rel, mask, r) ==> Result(rel, u, mask, r) == Says(rel, u, r)
    ensures !Right(rel, mask, r) && u == Telling(rel, mask, r) ==> Result(rel, u, mask, r) != Says(rel, u, r)
  {
    match r
    case Overflow =>
    case Exact(c) => DecidesRight(rel, u, v, mask, c);
    case Lost(c) =>
      DecidesRight(LE, u, v, mask, c);
      DecidesRight(GT, u, v, mask, c);
      LostRight(u, v, mask, c);
  }

  /** A masked value that tells whether the condition fails. */
  function Telling(rel: Rel, mask: nat, r: Shifted): nat {
    if r.Lost? && rel == GT && !Beyond(mask, r.c + 1) then r.c + 1 else mask
  }

  lemma LostRight(u: nat, v: nat, mask: nat, c: nat)
    requires u == And(v, mask) && mask < Pow2(WIDTH) && c + 1 < Pow2(WIDTH)
    ensures Right(GT, mask, Lost(c)) ==> Decides(GT, u, mask, c + 1) == (u > c)
    ensures !Right(GT, mask, Lost(c)) && u == Telling(GT, mask, Lost(c)) ==> Decides(GT, u, mask, c + 1) != (u > c)
  {
    AndBelow(v, mask);
    if u == c + 1 { WithinMask(v, mask, c + 1); }
  }

  /** Some packet has the masked value. */
  lemma Attained(x: Term, mask: nat, u: nat) returns (env: Env)
    requires Narrow(x) && (mask == 0 || (x.Access? && mask < Pow2(x.size))) && And(u, mask) == u
    ensures And(TermValue(x, env), mask) == u
  {
    AndBelow(u, mask);
    if x.Access? && mask < Pow2(x.size) {
      env := FieldOf(8 * x.offset, x.size, u);
      FieldOfValue(x.group, 8 * x.offset, x.size, u);
    } else {
      env := FieldOf(0, 0, 0);
      AndBelow(TermValue(x, env), mask);
    }
  }

  /** Compares the gathered term with the constant: the result is a constant, or a
      comparison of a masked term. It means the same exactly if the condition holds, as it
      always does for equality and difference. */
  method RelAccess(rel: Rel, x0: Term, c0: nat) returns (d: Expr)
    requires Narrow(x0) && Constants(x0) && NonEmpty(x0) && c0 < Pow2(WIDTH)
    ensures SameMeaning(d, Compare(rel, x0, c0)) <==> AccessRight(rel, x0, c0)
    ensures rel == EQ || rel == NE ==> AccessRight(rel, x0, c0)
    ensures d.Const? || Settled(rel, x0, c0, d)
    ensures if d.Const? then Remains(rel, x0, c0).None? else Remains(rel, x0, c0) == Some(d)
  {
    ghost var s;
    var x, mask, cShift;
    x, mask, cShift, s := Gather(x0);
    var c := ShiftConstant(c0, cShift);
    FieldMasked(x, mask);
    ShiftBound(c0, cShift, WIDTH);
    GatherKeeps(x0);
    d := CompareShifted(rel, x, Limited(x, mask), c);
    Means(rel, x0, c0, x, mask, cShift, s, c, d);
    Finished(rel, x0, c0, x, mask, Limited(x, mask), s, if mask == 0 then ShiftSpec(c0, s, WIDTH) else c, d);
  }

  lemma Finished(rel: Rel, x0: Term, c0: nat, x: Term, mask: nat, m: nat, s: int, c: Shifted, d: Expr)
    requires (x, mask, s) == Stripped(x0, Not(0, WIDTH), 0) && m == Limited(x, mask) <= mask && Not(0, WIDTH) == Pow2(WIDTH) - 1
    requires Narrow(x) && NonEmpty(x) && (x.Access? || mask == 0) && (x.Access? && x.size != 0 ==> m < Pow2(x.size))
    requires c == ShiftSpec(c0, s, WIDTH)
    requires if m == 0 then d.Const? else d.Const? || d == Compare(LeftRel(rel, c), MaskRight(x, m), Left(rel, c))
    requires m != 0 ==> (d.Compare? <==> Compared(rel, m, c))
    requires d.Compare? ==> d.c < Pow2(WIDTH)
    ensures if d.Const? then Remains(rel, x0, c0).None? else Remains(rel, x0, c0) == Some(d)
    ensures d.Const? || Settled(rel, x0, c0, d)
  {}

  method CompareShifted(rel: Rel, x: Term, mask: nat, c: Shifted) returns (d: Expr)
    requires Narrow(x) && Constants(x) && mask < Pow2(WIDTH)
    requires (!c.Overflow? ==> c.c < Pow2(WIDTH)) && (c.Lost? ==> c.c + 1 < Pow2(WIDTH))
    ensures forall env, h :: Eval(d, env, h) == Value(TruthOf(Result(rel, And(TermValue(x, env), mask), mask, c)), h)
    ensures d.Const? || d == Compare(LeftRel(rel, c), MaskRight(x, mask), Left(rel, c))
    ensures d.Compare? <==> Compared(rel, mask, c)
    ensures d.Compare? ==> d.c < Pow2(WIDTH)
  {
    if c.Overflow? {
      d := Answer(rel, 0, 1);
    } else if c.Lost? && (rel == EQ || rel == NE) {
      d := Const(if rel == NE then 1 else 0);
    } else {
      var (rel', c') := if c.Lost? then Roughly(rel, c.c) else (rel, c.c);
      d := CompareMasked(rel', x, mask, c');
    }
  }

  /** Is a comparison left, rather than an answer? */
  predicate Compared(rel: Rel, mask: nat, r: Shifted) {
    && !r.Overflow? && !(r.Lost? && (rel == EQ || rel == NE)) && mask != 0 && !Beyond(mask, Left(rel, r))
    && (rel == EQ || rel == NE ==> And(Left(rel, r), mask) == Left(rel, r))
  }

  /** What is left of a comparison, if anything: the access, masked, and a constant. */
  function Remains(rel: Rel, x0: Term, c0: nat): Option<Expr>
    requires Pow2(WIDTH) > 0
  {
    var (x, mask, s) := Stripped(x0, Not(0, WIDTH), 0);
    var m, r := Limited(x, mask), ShiftSpec(c0, s, WIDTH);
    if Compared(rel, m, r) then Some(Compare(LeftRel(rel, r), MaskRight(x, m), Left(rel, r))) else None
  }

  predicate ComparesAs(rel: Rel, mask: nat, d: Expr)
    requires d.Compare?
  {
    if rel == EQ || rel == NE then d.rel == rel && mask != 0 && And(d.c, mask) == d.c else d.rel != EQ && d.rel != NE
  }

  /** What is left of a comparison: a mask within the access that lets something through,
      and for equality and difference a constant within the mask. */
  predicate Settled(rel: Rel, x0: Term, c0: nat, d: Expr) {
    var (x, _, s) := Stripped(x0, Pow2(WIDTH) - 1, 0);
    && d.Compare? && d.x.MaskRight? && d.x.x == x && Narrow(x) && x.Access? && 0 < d.x.mask < Pow2(x.size)
    && d.c == Left(rel, ShiftSpec(c0, s, WIDTH)) < Pow2(WIDTH) && ComparesAs(rel, d.x.mask, d)
    && d.rel == LeftRel(rel, ShiftSpec(c0, s, WIDTH))
  }

  /** The relation that is left. */
  function LeftRel(rel: Rel, r: Shifted): Rel { if r.Lost? then Roughly(rel, r.c).0 else rel }

  /** The constant that is compared in the end. */
  function Left(rel: Rel, r: Shifted): nat {
    match r
    case Overflow => 0
    case Lost(c) => Roughly(rel, c).1
    case Exact(c) => c
  }

  /** Is the outcome that of the whole comparison? */
  lemma Means(rel: Rel, x0: Term, c0: nat, x: Term, mask: nat, cShift: int, s: int, c: Shifted, d: Expr)
    requires Narrow(x0) && NonEmpty(x0) && Gathered(x0, x, mask, s) && (mask != 0 ==> cShift == s) && c0 < Pow2(WIDTH)
    requires (x, mask, s) == Stripped(x0, Not(0, WIDTH), 0) && (x.Access? || mask == 0) && c == ShiftSpec(c0, cShift, WIDTH)
    requires NonEmpty(x) && (!c.Overflow? ==> c.c < Pow2(WIDTH)) && (c.Lost? ==> c.c + 1 < Pow2(WIDTH))
    requires forall env, h ::
      Eval(d, env, h) == Value(TruthOf(Result(rel, And(TermValue(x, env), Limited(x, mask)), Limited(x, mask), c)), h)
    ensures SameMeaning(d, Compare(rel, x0, c0)) <==> AccessRight(rel, x0, c0)
  {
    var m := Limited(x, mask);
    FieldMasked(x, mask);
    forall env ensures Holds(rel, TermValue(x0, env), c0) == Says(rel, And(TermValue(x, env), m), c) {
      Equivalent(rel, x0, x, mask, cShift, s, c0, env);
    }
    if mask == 0 { RightNothing(rel, c); RightNothing(rel, ShiftSpec(c0, s, WIDTH)); }
    assert AccessRight(rel, x0, c0) <==> Right(rel, m, c);
    if Right(rel, m, c) {
      forall env, h ensures Eval(d, env, h) == Eval(Compare(rel, x0, c0), env, h) {
        ResultRight(rel, And(TermValue(x, env), m), TermValue(x, env), m, c);
      }
    } else {
      var env := Tells(rel, x0, c0, x, m, c, d);
      assert Eval(d, env, []) != Eval(Compare(rel, x0, c0), env, []);
    }
  }

  lemma Tells(rel: Rel, x0: Term, c0: nat, x: Term, m: nat, c: Shifted, d: Expr) returns (env: Env)
    requires !Right(rel, m, c) && Narrow(x) && NonEmpty(x) && m < Pow2(WIDTH) && (m == 0 || (x.Access? && m < Pow2(x.size)))
    requires (!c.Overflow? ==> c.c < Pow2(WIDTH)) && (c.Lost? ==> c.c + 1 < Pow2(WIDTH))
    requires forall env, h :: Eval(d, env, h) == Value(TruthOf(Result(rel, And(TermValue(x, env), m), m, c)), h)
    requires forall env :: Holds(rel, TermValue(x0, env), c0) == Says(rel, And(TermValue(x, env), m), c)
    ensures Eval(d, env, []) != Eval(Compare(rel, x0, c0), env, [])
  {
    TellingWithin(rel, m, c);
    env := Attained(x, m, Telling(rel, m, c));
    ResultRight(rel, And(TermValue(x, env), m), TermValue(x, env), m, c);
  }

  lemma TellingWithin(rel: Rel, mask: nat, r: Shifted)
    requires !Right(rel, mask, r)
    ensures And(Telling(rel, mask, r), mask) == Telling(rel, mask, r)
  {
    forall i: nat ensures Bit(And(mask, mask), i) == Bit(mask, i) { BitAnd(mask, mask, i); }
    EqualBits(And(mask, mask), mask);
  }

  lemma RightNothing(rel: Rel, r: Shifted)
    ensures Right(rel, 0, r)
  {
    if r.Exact? && r.c == 0 { U128.OrderSame(ToWords(0, WORDS)); }
    if r.Lost? {
      AndBelow(r.c + 1, 0);
      if r.c == 0 { U128.OrderSame(ToWords(0, WORDS)); }
    }
  }

  lemma ShiftBound(c: nat, k: int, w: nat)
    requires c < Pow2(w)
    ensures !ShiftSpec(c, k, w).Overflow? ==> ShiftSpec(c, k, w).c < Pow2(w)
    ensures ShiftSpec(c, k, w).Lost? ==> ShiftSpec(c, k, w).c + 1 < Pow2(w)
  {
    if k <= 0 {
      ShrLower(c, -k);
      if Low(c, -k) != 0 { LostSmaller(c, -k); }
    }
  }

  /** Shifting out bits makes the constant smaller. */
  lemma LostSmaller(c: nat, n: nat)
    requires Low(c, n) != 0
    ensures Shr(c, n) < c
  {
    ShlFloor(LT, Shr(c, n), c, n);
    if n > 0 { JoinAbove(Shr(c, n), n); }
  }

  lemma {:induction false} JoinAbove(x: nat, n: nat)
    ensures Shl(x, n) >= x
    decreases n
  {
    if n > 0 { JoinAbove(x, n - 1); }
  }

  lemma Equivalent(rel: Rel, x0: Term, x: Term, mask: nat, cShift: int, s: int, c0: nat, env: Env)
    requires Gathered(x0, x, mask, s) && (mask != 0 ==> cShift == s) && c0 < Pow2(WIDTH)
    ensures Holds(rel, TermValue(x0, env), c0) == Says(rel, And(TermValue(x, env), mask), ShiftSpec(c0, cShift, WIDTH))
  {
    if mask != 0 {
      ShiftTracked(rel, TermValue(x0, env), TermValue(x, env), mask, s, c0, WIDTH);
    } else {
      NothingLeft(TermValue(x0, env), TermValue(x, env), s);
      ShiftNothing(rel, c0, cShift, WIDTH);
      AndBelow(TermValue(x, env), mask);
    }
  }

  /** Every access has bits. */
  predicate NonEmpty(x: Term) { if x.Access? then x.size > 0 else NonEmpty(x.x) }

  lemma {:induction false} StripKeeps(x: Term, mask: nat, s: int)
    ensures NonEmpty(x) ==> NonEmpty(Stripped(x, mask, s).0)
    decreases x
  {
    match x
    case Access(_, _, _) =>
    case MaskLeft(m, y) => StripKeeps(y, And(mask, m), s);
    case MaskRight(y, m) => StripKeeps(y, And(mask, m), s);
    case ShiftLeft(y, n) => StripKeeps(y, Shr(mask, n), s - n);
    case ShiftRight(y, n) => StripKeeps(y, Low(Shl(mask, n), WIDTH), s + n);
  }

  lemma GatherKeeps(x0: Term)
    ensures NonEmpty(x0) ==> NonEmpty(Stripped(x0, Pow2(WIDTH) - 1, 0).0)
    ensures Not(0, WIDTH) == Pow2(WIDTH) - 1
  {
    StripKeeps(x0, Pow2(WIDTH) - 1, 0);
  }

  // ----- where it goes wrong -----

  /** Words are compared as numbers if there is only one. */
  lemma WordBeyond(mask: nat, c: nat)
    requires mask < Pow2(WORD) && c < Pow2(WORD)
    ensures Beyond(mask, c) <==> mask < c
  {
    LowSmall(mask, WORD);
    LowSmall(c, WORD);
    var a, b := ToWords(mask, WORDS), ToWords(c, WORDS);
    assert a[0] == mask && b[0] == c && a[1..] == ToWords(0, WORDS - 1) && b[1..] == ToWords(0, WORDS - 1);
    U128.OrderSame(a[1..]);
  }

  /** Within 32 bits only `>` goes wrong, where bits of the constant are lost and the masked
      field can be one more than what is left of it. */
  lemma RightWord(rel: Rel, mask: nat, r: Shifted)
    requires mask < Pow2(WORD) && (r.Overflow? || r.c + 1 < Pow2(WORD))
    ensures Right(rel, mask, r) <==> !(rel == GT && r.Lost? && And(r.c + 1, mask) == r.c + 1)
  {
    if r.Lost? && rel == GT {
      WordBeyond(mask, r.c + 1);
      AndBelow(r.c + 1, mask);
    } else if !r.Overflow? {
      WordBeyond(mask, r.c);
    }
  }

  /** `(field << 1) > 3` becomes `field > 2`, which a field of 2 does not satisfy. */
  lemma ShiftedGreater(group: int, offset: nat)
    ensures !AccessRight(GT, ShiftLeft(Access(group, offset, BYTE), 1), 3)
  {
    var x, up := Access(group, offset, BYTE), Shr(Not(0, WIDTH), 1);
    GatherKeeps(x);
    HalfMask(up, WIDTH);
    var m := Limited(x, up);
    SecondBit(up, BYTE, m);
    RightWord(GT, m, Lost(1));
    assert Shr(3, 1) == 1 && Low(3, 1) == 1;
    assert Stripped(ShiftLeft(x, 1), Not(0, WIDTH), 0) == (x, up, -1);
  }

  lemma HalfMask(up: nat, w: nat)
    requires Pow2(w) > 0 && w == WIDTH && up == Shr(Not(0, w), 1)
    ensures Bit(up, 1) && up != 0 && up < Pow2(w)
  {
    GatherKeeps(Access(0, 0, 0));
    BitShiftRight(Pow2(w) - 1, 1, 1);
    OnesBit(w, 2);
    BitZero(1);
    ShrLower(Pow2(w) - 1, 1);
  }

  lemma SecondBit(up: nat, size: nat, m: nat)
    requires 1 < size <= WORD && Bit(up, 1) && m == And(up, U128.Mod128(Low(Shl(1, size), WIDTH) as int - 1))
    ensures And(2, m) == 2 && m < Pow2(WORD)
  {
    Modulus();
    OnesMask(size, WIDTH);
    OnesBit(size, 1);
    AndBelow(up, Pow2(size) - 1);
    Pow2Mono(size, WORD);
    TwoWithin(up, Pow2(size) - 1, m);
  }

  lemma TwoWithin(a: nat, b: nat, m: nat)
    requires Bit(a, 1) && Bit(b, 1) && m == And(a, b)
    ensures And(2, m) == 2
  {
    BitAnd(a, b, 1);
    AndPow2(m, 1);
    AndCommutes(m, 2);
    assert Pow2(1) == 2;
  }

  /** The mask of that bit is taken to be below 1. */
  lemma WordsBeyond()
    ensures !Right(LT, Pow2(WORD), Exact(1))
  {
    U128.Pow2Of32();
    var a, b := ToWords(Pow2(WORD), WORDS), ToWords(1, WORDS);
    forall i: nat ensures !Bit(Low(Pow2(WORD), WORD), i) { BitLow(Pow2(WORD), WORD, i); BitPow2(WORD, i); }
    forall i: nat ensures Bit(Low(Pow2(WORD), WORD), i) == Bit(0, i) { BitZero(i); }
    EqualBits(Low(Pow2(WORD), WORD), 0);
    Pow2Mono(1, WORD);
    LowSmall(1, WORD);
    assert a[0] == 0 && b[0] == 1;
  }

  /** `(field & 0x1_0000_0000) < 1` becomes true, of a field of 128 bits. */
  lemma WrongEnd(group: int, offset: nat)
    ensures !AccessRight(LT, MaskRight(Access(group, offset, WIDTH), Pow2(WORD)), 1)
  {
    var x, m := Access(group, offset, WIDTH), And(Pow2(WIDTH) - 1, Pow2(WORD));
    Pow2Strict(WORD, WIDTH);
    OnesAnd(WIDTH, WORD);
    GatherKeeps(x);
    FullMask(x, m);
    assert Stripped(MaskRight(x, Pow2(WORD)), Not(0, WIDTH), 0) == (x, m, 0);
    assert ShiftSpec(1, 0, WIDTH) == Exact(1);
    WordsBeyond();
  }

  lemma OnesAnd(w: nat, n: nat)
    requires n < w
    ensures And(Pow2(w) - 1, Pow2(n)) == Pow2(n)
  {
    AndPow2(Pow2(w) - 1, n);
    OnesBit(w, n);
  }

  lemma FullMask(x: Term, m: nat)
    requires x.Access? && x.size == WIDTH && m < Pow2(WIDTH)
    ensures Limited(x, m) == m
  {
    Modulus();
    OnesMask(WIDTH, WIDTH);
    LowOnes(m, WIDTH, WIDTH);
    LowSmall(m, WIDTH);
  }
}
