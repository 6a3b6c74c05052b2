/** 128-bit integers as four 32-bit words, the least significant one first. */
module U128 {
  import opened Bits

  const BASE: nat := 0x1_0000_0000

  type Words = seq<nat>

  predicate Sound(a: Words) { |a| == 4 && forall i | 0 <= i < 4 :: a[i] < 0x1_0000_0000 }

  function Value(a: Words): nat {
    if a == [] then 0 else a[0] + 0x1_0000_0000 * Value(a[1..])
  }

  /** The weight of word `i`. */
  function Weight(i: nat): (w: nat)
    ensures w > 0
  {
    if i == 0 then 1 else 0x1_0000_0000 * Weight(i - 1)
  }

  lemma {:induction false} ValueSnoc(a: Words, x: nat)
    ensures Value(a + [x]) == Value(a) + x * Weight(|a|)
    decreases |a|
  {
    if a == [] {
      assert [] + [x] == [x] && [x][1..] == [];
    } else {
      assert (a + [x])[1..] == a[1..] + [x];
      ValueSnoc(a[1..], x);
      Scale(x, Weight(|a| - 1));
    }
  }

  lemma Scale(x: nat, w: nat)
    ensures 0x1_0000_0000 * (x * w) == x * (0x1_0000_0000 * w)
  {}

  lemma ValueStep(a: Words, i: nat)
    requires i < |a|
    ensures Value(a[..i + 1]) == Value(a[..i]) + a[i] * Weight(i)
  {
    assert a[..i + 1] == a[..i] + [a[i]];
    ValueSnoc(a[..i], a[i]);
  }

  lemma {:induction false} ValueBound(a: Words)
    requires forall i | 0 <= i < |a| :: a[i] < 0x1_0000_0000
    ensures Value(a) < Weight(|a|)
    decreases |a|
  {
    if a != [] { ValueBound(a[1..]); }
  }

  function Mod128(x: int): nat { x % 0x1_0000_0000_0000_0000_0000_0000_0000_0000 }

  /** A 32-bit word, wrapped around. */
  function Word(x: int): nat { x % 0x1_0000_0000 }

  lemma WeightFour()
    ensures Weight(4) == 0x1_0000_0000_0000_0000_0000_0000_0000_0000
  {
    assert Weight(2) == 0x1_0000_0000_0000_0000;
    assert Weight(3) == 0x1_0000_0000_0000_0000_0000_0000;
  }

  lemma {:induction false} WeightIs(n: nat)
    ensures Weight(n) == Pow2(32 * n)
    decreases n
  {
    if n > 0 {
      WeightIs(n - 1);
      Pow2Of32();
      Pow2Add(32, 32 * (n - 1));
    }
  }

  lemma Pow2Of32()
    ensures Pow2(32) == 0x1_0000_0000
  {
    Pow2Add(16, 16);
    Pow2Add(8, 8);
    assert Pow2(8) == 256;
  }

  // ----- addition and subtraction -----

  /** What one word of a sum or difference contributes. */
  lemma WordStep(x: int, y: int, c: int, r: int, c': int, w: nat)
    requires r + 0x1_0000_0000 * c' == x + y + c
    ensures r * w + c' * (0x1_0000_0000 * w) == x * w + y * w + c * w
  {
    assert (r + 0x1_0000_0000 * c') * w == (x + y + c) * w;
    assert (r + 0x1_0000_0000 * c') * w == r * w + c' * (0x1_0000_0000 * w);
    assert (x + y + c) * w == x * w + y * w + c * w;
  }

  /** A number with its carry is the wrapped result. */
  lemma Wraps(r: nat, carry: int, x: int)
    requires r < 0x1_0000_0000_0000_0000_0000_0000_0000_0000 && -1 <= carry <= 1
    requires r + carry * 0x1_0000_0000_0000_0000_0000_0000_0000_0000 == x
    ensures r == Mod128(x)
  {}

  /** One word of a sum so far. */
  ghost predicate Summed(r: Words, i: nat, carry: int, x: int) {
    Sound(r) && i <= 4 && Value(r[..i]) + carry * Weight(i) == x
  }

  lemma SumStep(r: Words, i: nat, carry: int, x: int, r': Words, carry': int, a: int, b: int)
    requires Summed(r, i, carry, x) && i < 4 && Sound(r') && r'[..i] == r[..i]
    requires r'[i] + 0x1_0000_0000 * carry' == a + b + carry
    ensures Summed(r', i + 1, carry', x + a * Weight(i) + b * Weight(i))
  {
    WordStep(a, b, carry, r'[i], carry', Weight(i));
    ValueStep(r', i);
  }

  lemma SumEnd(r: Words, carry: int, x: int)
    requires Summed(r, 4, carry, x) && -1 <= carry <= 1
    ensures Value(r) == Mod128(x)
  {
    assert r[..4] == r;
    WeightFour();
    ValueBound(r);
    Wraps(Value(r), carry, x);
  }

  method AddWord(x: nat, y: nat, carry: nat) returns (w: nat, carry': nat)
    requires x < BASE && y < BASE && carry <= 1
    ensures w < 0x1_0000_0000 && carry' <= 1 && w + 0x1_0000_0000 * carry' == x + y + carry
  {
    w, carry' := x, carry;
    if carry == 1 {
      w := Word(w + 1);
      carry' := if w == 0 then 1 else 0;
    }
    w := Word(w + y);
    if w < y { carry' := 1; }
  }

  method SubWord(x: nat, y: nat, borrow: nat) returns (w: nat, borrow': nat)
    requires x < BASE && y < BASE && borrow <= 1
    ensures w < 0x1_0000_0000 && borrow' <= 1 && w as int - 0x1_0000_0000 * borrow' == x as int - y - borrow
  {
    w, borrow' := x, borrow;
    if borrow == 1 {
      borrow' := if w == 0 then 1 else 0;
      w := Word(w as int - 1);
    }
    if w < y { borrow' := 1; }
    w := Word(w as int - y);
  }

  method Add(a: Words, b: Words) returns (r: Words)
    requires Sound(a) && Sound(b)
    ensures Sound(r) && Value(r) == Mod128(Value(a) + Value(b))
  {
    r := a;
    var carry := 0;
    for i := 0 to 4
      invariant Sound(r) && (carry == 0 || carry == 1) && forall j | i <= j < 4 :: r[j] == a[j]
      invariant Summed(r, i, carry, Value(a[..i]) + Value(b[..i]))
    {
      ghost var before, c := r, carry;
      var w;
      w, carry := AddWord(r[i], b[i], carry);
      r := r[i := w];
      SumStep(before, i, c, Value(a[..i]) + Value(b[..i]), r, carry, a[i], b[i]);
      ValueStep(a, i); ValueStep(b, i);
    }
    assert a[..4] == a && b[..4] == b;
    SumEnd(r, carry, Value(a) + Value(b));
  }

  method Sub(a: Words, b: Words) returns (r: Words)
    requires Sound(a) && Sound(b)
    ensures Sound(r) && Value(r) == Mod128(Value(a) as int - Value(b))
  {
    r := a;
    var borrow := 0;
    for i := 0 to 4
      invariant Sound(r) && (borrow == 0 || borrow == 1) && forall j | i <= j < 4 :: r[j] == a[j]
      invariant Summed(r, i, -(borrow as int), Value(a[..i]) as int - Value(b[..i]))
    {
      ghost var before, c := r, borrow;
      var w;
      w, borrow := SubWord(r[i], b[i], borrow);
      r := r[i := w];
      SumStep(before, i, -(c as int), Value(a[..i]) as int - Value(b[..i]), r, -(borrow as int), a[i], -(b[i] as int));
      Negated(b[i], Weight(i));
      ValueStep(a, i); ValueStep(b, i);
    }
    assert a[..4] == a && b[..4] == b;
    SumEnd(r, -(borrow as int), Value(a) as int - Value(b));
  }

  lemma Negated(x: int, w: int)
    ensures (-x) * w == -(x * w)
  {}

  /** The complement, plus one. */
  method Minus(a: Words) returns (r: Words)
    requires Sound(a)
    ensures Sound(r) && Value(r) == Mod128(0 - Value(a) as int)
  {
    r := a;
    var carry := 1;
    for i := 0 to 4
      invariant Sound(r) && (carry == 0 || carry == 1) && forall j | i <= j < 4 :: r[j] == a[j]
      invariant Summed(r, i, carry as int - 1, 0 - Value(a[..i]) as int)
    {
      ghost var before, c := r, carry;
      var w := 0xFFFF_FFFF - r[i];
      if carry == 1 {
        w := Word(w + 1);
        carry := if w == 0 then 1 else 0;
      }
      assert w + 0x1_0000_0000 * (carry as int - 1) == -(a[i] as int) + (c as int - 1);
      r := r[i := w];
      SumStep(before, i, c as int - 1, 0 - Value(a[..i]) as int, r, carry as int - 1, -(a[i] as int), 0);
      Negated(a[i], Weight(i));
      ValueStep(a, i);
    }
    assert a[..4] == a;
    SumEnd(r, carry as int - 1, 0 - Value(a) as int);
  }

  lemma Four(a: Words)
    requires |a| == 4
    ensures Value(a) == a[0] + 0x1_0000_0000 * a[1] + 0x1_0000_0000_0000_0000 * a[2] + 0x1_0000_0000_0000_0000_0000_0000 * a[3]
  {
    assert a[1..][1..] == a[2..] && a[2..][1..] == a[3..] && a[3..][1..] == [];
    assert Value(a[3..]) == a[3];
    assert Value(a[2..]) == a[2] + 0x1_0000_0000 * a[3];
    assert Value(a[1..]) == a[1] + 0x1_0000_0000 * Value(a[2..]);
  }

  /** Sums agree word by word. */
  lemma FourWraps(a: Words, r: Words, x: int, carry: int)
    requires Sound(a) && Sound(r) && -1 <= carry <= 1
    requires r[0] + 0x1_0000_0000 * r[1] + 0x1_0000_0000_0000_0000 * r[2] + 0x1_0000_0000_0000_0000_0000_0000 * r[3]
      + 0x1_0000_0000_0000_0000_0000_0000_0000_0000 * carry
      == a[0] + 0x1_0000_0000 * a[1] + 0x1_0000_0000_0000_0000 * a[2] + 0x1_0000_0000_0000_0000_0000_0000 * a[3] + x
    ensures Value(r) == Mod128(Value(a) + x)
  {
    Four(a); Four(r);
    Wraps(Value(r), carry, Value(a) + x);
  }

  /** Adds a word, carrying only as far as needed. */
  method Add32(a: Words, b: nat) returns (r: Words)
    requires Sound(a) && b < BASE
    ensures Sound(r) && Value(r) == Mod128(Value(a) + b)
  {
    r := a[0 := Word(a[0] + b)];
    ghost var carry := 0;
    if r[0] < b {
      r := r[1 := Word(r[1] + 1)];
      if r[1] == 0 {
        r := r[2 := Word(r[2] + 1)];
        if r[2] == 0 {
          r := r[3 := Word(r[3] + 1)];
          if r[3] == 0 { carry := 1; }
        }
      }
    }
    FourWraps(a, r, b, carry);
  }

  /** Subtracts a word, borrowing up to the first word that has something to give. */
  method Sub32(a: Words, b: nat) returns (r: Words)
    requires Sound(a) && b < BASE
    ensures Sound(r) && Value(r) == Mod128(Value(a) as int - b)
  {
    r := a;
    ghost var borrow := 0;
    if a[0] < b {
      r, borrow := Borrow(a);
    }
    r := r[0 := Word(r[0] as int - b)];
    FourWraps(a, r, -(b as int), -(borrow as int));
  }

  /** Takes one from the upper words. */
  method Borrow(a: Words) returns (r: Words, ghost borrow: nat)
    requires Sound(a)
    ensures Sound(r) && r[0] == a[0] && borrow <= 1
    ensures r[1] + 0x1_0000_0000 * r[2] + 0x1_0000_0000_0000_0000 * r[3]
      == a[1] + 0x1_0000_0000 * a[2] + 0x1_0000_0000_0000_0000 * a[3] - 1 + 0x1_0000_0000_0000_0000_0000_0000 * borrow
  {
    r, borrow := a, 0;
    var i := 1;
    while i < 4
      invariant 1 <= i <= 4 && Sound(r) && r[0] == a[0]
      invariant forall j | 1 <= j < i :: a[j] == 0 && r[j] == 0xFFFF_FFFF
      invariant forall j | i <= j < 4 :: r[j] == a[j]
    {
      var had := r[i];
      r := r[i := Word(r[i] as int - 1)];
      if had != 0 { return; }
      i := i + 1;
    }
    borrow := 1;
  }

  method SubFrom32(a: nat, b: Words) returns (r: Words)
    requires a < BASE && Sound(b)
    ensures Sound(r) && Value(r) == Mod128(a as int - Value(b))
  {
    var m := Minus(b);
    r := Add32(m, a);
    ModMod(0 - Value(b) as int, a);
  }

  lemma ModMod(x: int, y: int)
    ensures Mod128(Mod128(x) + y) == Mod128(x + y)
  {}

  // ----- bit by bit -----

  lemma {:induction false} WordBits(a: Words, n: nat)
    requires forall i | 0 <= i < |a| :: a[i] < 0x1_0000_0000
    ensures Bit(Value(a), n) <==> n / 32 < |a| && Bit(a[n / 32], n % 32)
    decreases |a|
  {
    if a == [] {
      BitZero(n);
    } else {
      LowestWord(a[0], Value(a[1..]), n);
      if n >= 32 { WordBits(a[1..], n - 32); }
    }
  }

  lemma LowestWord(x: nat, up: nat, n: nat)
    requires x < 0x1_0000_0000
    ensures Bit(x + 0x1_0000_0000 * up, n) <==> if n < 32 then Bit(x, n) else Bit(up, n - 32)
  {
    Pow2Of32();
    JoinIs(up, 32, x);
    BitJoin(up, 32, x, n);
  }

  lemma ValueFits(a: Words)
    requires Sound(a)
    ensures Value(a) < Pow2(128)
  {
    ValueBound(a);
    WeightIs(4);
  }

  /** Bit `j` of word `i`. */
  predicate InWord(a: Words, i: int, j: int) { 0 <= i < |a| && j >= 0 && Bit(a[i], j) }

  /** The bits of `x` are those in the words. */
  ghost predicate Spells(a: Words, x: nat) {
    Sound(a) && x < Pow2(128) && forall i: nat, j: nat {:trigger InWord(a, i, j)} | j < 32 :: InWord(a, i, j) <==> Bit(x, 32 * i + j)
  }

  lemma SpellsValue(a: Words)
    requires Sound(a)
    ensures Spells(a, Value(a))
  {
    ValueFits(a);
    forall i: nat, j: nat | j < 32 ensures InWord(a, i, j) <==> Bit(Value(a), 32 * i + j) { WordAt(a, i, j); }
  }

  lemma WordAt(a: Words, i: nat, j: nat)
    requires Sound(a) && j < 32
    ensures InWord(a, i, j) <==> Bit(Value(a), 32 * i + j)
  {
    var n := 32 * i + j;
    assert n / 32 == i && n % 32 == j;
    WordBits(a, n);
  }

  lemma SpelledAt(a: Words, x: nat, i: nat, j: nat, n: nat)
    requires Spells(a, x) && j < 32 && n == 32 * i + j
    ensures InWord(a, i, j) <==> Bit(x, n)
  {}

  /** A number is its words if it has the same bits. */
  lemma SameWords(a: Words, x: nat)
    requires Sound(a) && x < Pow2(128)
    requires forall i: nat, j: nat {:trigger InWord(a, i, j)} | i < 4 && j < 32 :: InWord(a, i, j) <==> Bit(x, 32 * i + j)
    ensures Value(a) == x
  {
    forall n: nat | n < 128 ensures Bit(Value(a), n) == Bit(x, n) {
      WordAt(a, n / 32, n % 32);
      assert n == 32 * (n / 32) + n % 32;
    }
    ValueFits(a);
    SameBits(Value(a), x, 128);
  }

  method AndWords(a: Words, b: Words) returns (r: Words)
    requires Sound(a) && Sound(b)
    ensures Sound(r) && Value(r) == And(Value(a), Value(b))
  {
    r := a;
    for i := 0 to 4
      invariant Sound(r) && forall j | 0 <= j < 4 :: r[j] == if j < i then And(a[j], b[j]) else a[j]
    {
      AndBelow(a[i], b[i]);
      r := r[i := And(r[i], b[i])];
    }
    ValueFits(a);
    AndBelow(Value(a), Value(b));
    forall i: nat, j: nat | i < 4 && j < 32 ensures InWord(r, i, j) <==> Bit(And(Value(a), Value(b)), 32 * i + j) {
      BitAnd(a[i], b[i], j); BitAnd(Value(a), Value(b), 32 * i + j); WordAt(a, i, j); WordAt(b, i, j);
    }
    SameWords(r, And(Value(a), Value(b)));
  }

  method OrWords(a: Words, b: Words) returns (r: Words)
    requires Sound(a) && Sound(b)
    ensures Sound(r) && Value(r) == Or(Value(a), Value(b))
  {
    r := a;
    Pow2Of32();
    for i := 0 to 4
      invariant Sound(r) && forall j | 0 <= j < 4 :: r[j] == if j < i then Or(a[j], b[j]) else a[j]
    {
      OrBelow(a[i], b[i], 32);
      r := r[i := Or(r[i], b[i])];
    }
    ValueFits(a); ValueFits(b);
    OrBelow(Value(a), Value(b), 128);
    forall i: nat, j: nat | i < 4 && j < 32 ensures InWord(r, i, j) <==> Bit(Or(Value(a), Value(b)), 32 * i + j) {
      BitOr(a[i], b[i], j); BitOr(Value(a), Value(b), 32 * i + j); WordAt(a, i, j); WordAt(b, i, j);
    }
    SameWords(r, Or(Value(a), Value(b)));
  }

  method XorWords(a: Words, b: Words) returns (r: Words)
    requires Sound(a) && Sound(b)
    ensures Sound(r) && Value(r) == Xor(Value(a), Value(b))
  {
    r := a;
    Pow2Of32();
    for i := 0 to 4
      invariant Sound(r) && forall j | 0 <= j < 4 :: r[j] == if j < i then Xor(a[j], b[j]) else a[j]
    {
      XorBelow(a[i], b[i], 32);
      r := r[i := Xor(r[i], b[i])];
    }
    ValueFits(a); ValueFits(b);
    XorBelow(Value(a), Value(b), 128);
    forall i: nat, j: nat | i < 4 && j < 32 ensures InWord(r, i, j) <==> Bit(Xor(Value(a), Value(b)), 32 * i + j) {
      BitXor(a[i], b[i], j); BitXor(Value(a), Value(b), 32 * i + j); WordAt(a, i, j); WordAt(b, i, j);
    }
    SameWords(r, Xor(Value(a), Value(b)));
  }

  method NotWords(a: Words) returns (r: Words)
    requires Sound(a)
    ensures Sound(r) && Value(a) < Pow2(128) && Value(r) == Not(Value(a), 128)
  {
    r := a;
    Pow2Of32();
    for i := 0 to 4
      invariant Sound(r) && forall j | 0 <= j < 4 :: r[j] == if j < i then Not(a[j], 32) else a[j]
    {
      r := r[i := 0xFFFF_FFFF - r[i]];
    }
    ValueFits(a);
    SpellsValue(a);
    forall i: nat, j: nat | i < 4 && j < 32 ensures InWord(r, i, j) <==> Bit(Not(Value(a), 128), 32 * i + j) {
      NotAt(a, Value(a), i, j);
    }
    SameWords(r, Not(Value(a), 128));
  }

  lemma NotAt(a: Words, x: nat, i: nat, j: nat)
    requires Spells(a, x) && i < 4 && j < 32
    ensures a[i] < Pow2(32) && (Bit(Not(a[i], 32), j) <==> Bit(Not(x, 128), 32 * i + j))
  {
    Pow2Of32();
    BitNot(a[i], 32, j);
    BitNot(x, 128, 32 * i + j);
    SpelledAt(a, x, i, j, 32 * i + j);
  }

  /** The word `x << k`, what leaves the word being lost. */
  function ShlWord(x: nat, k: nat): nat { Low(Shl(x, k), 32) }

  lemma ShlWordSmall(x: nat, k: nat)
    ensures ShlWord(x, k) < 0x1_0000_0000
  {
    Pow2Of32();
  }

  lemma ShlWordBit(x: nat, k: nat, j: nat)
    ensures Bit(ShlWord(x, k), j) <==> k <= j < 32 && Bit(x, j - k)
  {
    BitLow(Shl(x, k), 32, j);
    BitJoin(x, k, 0, j);
    BitZero(j);
  }

  /** Word `i` of `a << b`. */
  function LeftWord(a: Words, i: nat, words: nat, bits: nat): nat
    requires |a| == 4 && words <= i < 4 && bits < 32
  {
    var w := ShlWord(a[i - words], bits);
    if bits > 0 && i > words then Or(w, Shr(a[i - words - 1], 32 - bits)) else w
  }

  lemma LeftWordSmall(a: Words, i: nat, words: nat, bits: nat)
    requires Sound(a) && words <= i < 4 && bits < 32
    ensures LeftWord(a, i, words, bits) < 0x1_0000_0000
  {
    ShlWordSmall(a[i - words], bits);
    if bits > 0 && i > words {
      ShrLower(a[i - words - 1], 32 - bits);
      OrSmall(ShlWord(a[i - words], bits), Shr(a[i - words - 1], 32 - bits));
    }
  }

  lemma OrSmall(x: nat, y: nat)
    requires x < 0x1_0000_0000 && y < 0x1_0000_0000
    ensures Or(x, y) < 0x1_0000_0000
  {
    Pow2Of32();
    OrBelow(x, y, 32);
  }

  lemma WordAbove(x: nat, j: nat)
    requires x < 0x1_0000_0000 && j >= 32
    ensures !Bit(x, j)
  {
    Pow2Of32();
    BitAbove(x, 32, j);
  }

  lemma LeftWordBit(a: Words, i: nat, words: nat, bits: nat, j: nat)
    requires Sound(a) && words <= i < 4 && bits < 32 && j < 32
    ensures Bit(LeftWord(a, i, words, bits), j) <==>
      if j >= bits then InWord(a, i - words, j - bits) else InWord(a, i - words - 1, j + 32 - bits)
  {
    ShlWordBit(a[i - words], bits, j);
    if bits > 0 && i > words { JoinedLeft(a[i - words], a[i - words - 1], bits, j); }
  }

  lemma JoinedLeft(x: nat, low: nat, bits: nat, j: nat)
    requires low < 0x1_0000_0000 && 0 < bits < 32 && j < 32
    ensures Bit(Or(ShlWord(x, bits), Shr(low, 32 - bits)), j) <==> if j >= bits then Bit(x, j - bits) else Bit(low, j + 32 - bits)
  {
    BitOr(ShlWord(x, bits), Shr(low, 32 - bits), j);
    ShlWordBit(x, bits, j);
    ShrWordBit(low, 32 - bits, j);
  }

  lemma ShrWordBit(x: nat, k: nat, j: nat)
    requires x < 0x1_0000_0000
    ensures Bit(Shr(x, k), j) <==> j + k < 32 && Bit(x, j + k)
  {
    BitShiftRight(x, k, j);
    if j + k >= 32 { WordAbove(x, j + k); }
  }

  method ShiftLeft(a: Words, b: nat) returns (r: Words)
    requires Sound(a)
    ensures Sound(r) && Value(r) == Low(Shl(Value(a), b), 128)
  {
    r := MoveLeft(a, b / 32, b % 32);
    SpellsValue(a);
    LeftValue(a, Value(a), b / 32, b % 32, b, r);
  }

  /** From the highest word down, so that the words still needed are as they were. */
  method MoveLeft(a: Words, words: nat, bits: nat) returns (r: Words)
    requires Sound(a) && bits < 32
    ensures |r| == 4 && forall k | 0 <= k < 4 :: r[k] == if k >= words then LeftWord(a, k, words, bits) else 0
  {
    r := a;
    var i := 3;
    while i >= words
      invariant -1 <= i <= 3 && |r| == 4
      invariant forall k | 0 <= k <= i :: r[k] == a[k]
      invariant forall k | i < k < 4 :: k >= words && r[k] == LeftWord(a, k, words, bits)
    {
      var w := LeftStep(r, i, words, bits);
      SameLeft(r, a, i, words, bits);
      r := r[i := w];
      i := i - 1;
    }
    while i >= 0
      invariant -1 <= i <= 3 && i < words && |r| == 4
      invariant forall k | i < k < 4 :: r[k] == if k >= words then LeftWord(a, k, words, bits) else 0
    {
      r := r[i := 0];
      i := i - 1;
    }
  }

  method LeftStep(r: Words, i: nat, words: nat, bits: nat) returns (w: nat)
    requires |r| == 4 && words <= i < 4 && bits < 32
    ensures w == LeftWord(r, i, words, bits)
  {
    w := ShlWord(r[i - words], bits);
    if bits > 0 && i > words { w := Or(w, Shr(r[i - words - 1], 32 - bits)); }
  }

  lemma SameLeft(r: Words, a: Words, i: nat, words: nat, bits: nat)
    requires |r| == |a| == 4 && words <= i < 4 && bits < 32 && forall k | 0 <= k <= i :: r[k] == a[k]
    ensures LeftWord(r, i, words, bits) == LeftWord(a, i, words, bits)
  {}

  lemma ShiftedBit(x: nat, b: nat, n: nat)
    ensures Bit(Low(Shl(x, b), 128), n) <==> n < 128 && n >= b && Bit(x, n - b)
  {
    BitLow(Shl(x, b), 128, n);
    BitJoin(x, b, 0, n);
    BitZero(n);
  }

  lemma LeftValue(a: Words, x: nat, words: nat, bits: nat, b: nat, r: Words)
    requires Spells(a, x) && |r| == 4 && bits < 32 && b == 32 * words + bits
    requires forall k | 0 <= k < 4 :: r[k] == if k >= words then LeftWord(a, k, words, bits) else 0
    ensures Sound(r) && Value(r) == Low(Shl(x, b), 128)
  {
    forall i: nat | i < 4 ensures r[i] < 0x1_0000_0000 {
      if i >= words { LeftWordSmall(a, i, words, bits); }
    }
    forall i: nat, j: nat | i < 4 && j < 32 ensures InWord(r, i, j) <==> Bit(Low(Shl(x, b), 128), 32 * i + j) {
      ShiftedBit(x, b, 32 * i + j);
      LeftAt(a, x, words, bits, b, r, i, j);
    }
    SameWords(r, Low(Shl(x, b), 128));
  }

  lemma LeftAt(a: Words, x: nat, words: nat, bits: nat, b: nat, r: Words, i: nat, j: nat)
    requires Spells(a, x) && |r| == 4 && bits < 32 && i < 4 && j < 32 && b == 32 * words + bits
    requires r[i] == if i >= words then LeftWord(a, i, words, bits) else 0
    ensures InWord(r, i, j) <==> 32 * i + j >= b && Bit(x, 32 * i + j - b)
  {
    if i < words { BitZero(j); }
    else { LeftAtWord(a, x, words, bits, i, j, 32 * i + j - b); }
  }

  lemma LeftAtWord(a: Words, x: nat, words: nat, bits: nat, i: nat, j: nat, m: int)
    requires Spells(a, x) && bits < 32 && words <= i < 4 && j < 32 && m == 32 * (i - words) + j - bits
    ensures Bit(LeftWord(a, i, words, bits), j) <==> m >= 0 && Bit(x, m)
  {
    LeftWordBit(a, i, words, bits, j);
    LeftSource(a, x, i - words, bits, j, m);
  }

  lemma LeftSource(a: Words, x: nat, i: nat, bits: nat, j: nat, m: int)
    requires Spells(a, x) && bits < 32 && j < 32 && m == 32 * i + j - bits
    ensures (if j >= bits then InWord(a, i, j - bits) else InWord(a, i - 1, j + 32 - bits)) <==> m >= 0 && Bit(x, m)
  {
    if j >= bits { SpelledAt(a, x, i, j - bits, m); }
    else if i > 0 { SpelledAt(a, x, i - 1, j + 32 - bits, m); }
  }

  /** Word `i` of `a >> b`. */
  function RightWord(a: Words, i: nat, words: nat, bits: nat): nat
    requires |a| == 4 && i + words < 4 && bits < 32
  {
    var w := Shr(a[i + words], bits);
    if bits > 0 && i + words + 1 < 4 then Or(w, ShlWord(a[i + words + 1], 32 - bits)) else w
  }

  lemma RightWordSmall(a: Words, i: nat, words: nat, bits: nat)
    requires Sound(a) && i + words < 4 && bits < 32
    ensures RightWord(a, i, words, bits) < 0x1_0000_0000
  {
    ShrLower(a[i + words], bits);
    if bits > 0 && i + words + 1 < 4 {
      ShlWordSmall(a[i + words + 1], 32 - bits);
      OrSmall(Shr(a[i + words], bits), ShlWord(a[i + words + 1], 32 - bits));
    }
  }

  lemma RightWordBit(a: Words, i: nat, words: nat, bits: nat, j: nat)
    requires Sound(a) && i + words < 4 && bits < 32 && j < 32
    ensures Bit(RightWord(a, i, words, bits), j) <==>
      if j + bits < 32 then InWord(a, i + words, j + bits) else InWord(a, i + words + 1, j + bits - 32)
  {
    ShrWordBit(a[i + words], bits, j);
    if bits > 0 && i + words + 1 < 4 { JoinedWords(a[i + words], a[i + words + 1], bits, j); }
  }

  lemma JoinedWords(x: nat, up: nat, bits: nat, j: nat)
    requires x < 0x1_0000_0000 && 0 < bits < 32 && j < 32
    ensures Bit(Or(Shr(x, bits), ShlWord(up, 32 - bits)), j) <==> if j + bits < 32 then Bit(x, j + bits) else Bit(up, j + bits - 32)
  {
    BitOr(Shr(x, bits), ShlWord(up, 32 - bits), j);
    ShrWordBit(x, bits, j);
    ShlWordBit(up, 32 - bits, j);
  }

  method ShiftRight(a: Words, b: nat) returns (r: Words)
    requires Sound(a)
    ensures Sound(r) && Value(r) == Shr(Value(a), b)
  {
    r := MoveRight(a, b / 32, b % 32);
    SpellsValue(a);
    RightValue(a, Value(a), b / 32, b % 32, b, r);
  }

  method MoveRight(a: Words, words: nat, bits: nat) returns (r: Words)
    requires Sound(a) && bits < 32
    ensures |r| == 4 && forall k | 0 <= k < 4 :: r[k] == if k + words < 4 then RightWord(a, k, words, bits) else 0
  {
    r := a;
    var i := 0;
    while i < 4 - words
      invariant 0 <= i <= 4 && |r| == 4
      invariant forall k | i <= k < 4 :: r[k] == a[k]
      invariant forall k | 0 <= k < i :: k + words < 4 && r[k] == RightWord(a, k, words, bits)
    {
      var w := RightStep(r, i, words, bits);
      SameRight(r, a, i, words, bits);
      r := r[i := w];
      i := i + 1;
    }
    while i < 4
      invariant 0 <= i <= 4 && i >= 4 - words && |r| == 4
      invariant forall k | 0 <= k < i :: r[k] == if k + words < 4 then RightWord(a, k, words, bits) else 0
    {
      r := r[i := 0];
      i := i + 1;
    }
  }

  method RightStep(r: Words, i: nat, words: nat, bits: nat) returns (w: nat)
    requires |r| == 4 && i + words < 4 && bits < 32
    ensures w == RightWord(r, i, words, bits)
  {
    w := Shr(r[i + words], bits);
    if bits > 0 && i < 4 - words - 1 { w := Or(w, ShlWord(r[i + words + 1], 32 - bits)); }
  }

  lemma SameRight(r: Words, a: Words, i: nat, words: nat, bits: nat)
    requires |r| == |a| == 4 && i + words < 4 && bits < 32 && forall k | i <= k < 4 :: r[k] == a[k]
    ensures RightWord(r, i, words, bits) == RightWord(a, i, words, bits)
  {}

  lemma RightValue(a: Words, x: nat, words: nat, bits: nat, b: nat, r: Words)
    requires Spells(a, x) && |r| == 4 && bits < 32 && b == 32 * words + bits
    requires forall k | 0 <= k < 4 :: r[k] == if k + words < 4 then RightWord(a, k, words, bits) else 0
    ensures Sound(r) && Value(r) == Shr(x, b)
  {
    forall i: nat | i < 4 ensures r[i] < 0x1_0000_0000 {
      if i + words < 4 { RightWordSmall(a, i, words, bits); }
    }
    ShrLower(x, b);
    forall i: nat, j: nat | i < 4 && j < 32 ensures InWord(r, i, j) <==> Bit(Shr(x, b), 32 * i + j) {
      BitShiftRight(x, b, 32 * i + j);
      RightAt(a, x, words, bits, b, r, i, j);
    }
    SameWords(r, Shr(x, b));
  }

  lemma RightAt(a: Words, x: nat, words: nat, bits: nat, b: nat, r: Words, i: nat, j: nat)
    requires Spells(a, x) && |r| == 4 && bits < 32 && i < 4 && j < 32 && b == 32 * words + bits
    requires r[i] == if i + words < 4 then RightWord(a, i, words, bits) else 0
    ensures InWord(r, i, j) <==> Bit(x, 32 * i + j + b)
  {
    RightSource(a, x, i + words, bits, j, 32 * i + j + b);
    if i + words < 4 { RightWordBit(a, i, words, bits, j); } else { BitZero(j); }
  }

  lemma RightSource(a: Words, x: nat, i: nat, bits: nat, j: nat, m: nat)
    requires Spells(a, x) && bits < 32 && j < 32 && m == 32 * i + j + bits
    ensures (if j + bits < 32 then InWord(a, i, j + bits) else InWord(a, i + 1, j + bits - 32)) <==> Bit(x, m)
  {
    if j + bits < 32 { SpelledAt(a, x, i, j + bits, m); } else { SpelledAt(a, x, i + 1, j + bits - 32, m); }
  }

  // ----- comparison -----

  /** The first word that differs decides, and that is the least significant one. */
  function Order(a: Words, b: Words): int
    requires |a| == |b|
  {
    if a == [] then 0
    else if a[0] != b[0] then (if a[0] < b[0] then -1 else 1)
    else Order(a[1..], b[1..])
  }

  method Cmp(a: Words, b: Words) returns (r: int)
    requires Sound(a) && Sound(b)
    ensures r == Order(a, b)
  {
    for i := 0 to 4
      invariant a[..i] == b[..i] && Order(a, b) == Order(a[i..], b[i..])
    {
      if a[i] != b[i] { return if a[i] < b[i] then -1 else 1; }
      assert a[..i + 1] == a[..i] + [a[i]] && b[..i + 1] == b[..i] + [b[i]];
      assert a[i..][1..] == a[i + 1..] && b[i..][1..] == b[i + 1..];
    }
    assert a[4..] == [] && b[4..] == [];
    return 0;
  }

  /** The comparison is right about equality. */
  lemma {:induction false} OrderEqual(a: Words, b: Words)
    requires |a| == |b| && (forall i | 0 <= i < |a| :: a[i] < 0x1_0000_0000 && b[i] < 0x1_0000_0000)
    ensures Order(a, b) == 0 <==> Value(a) == Value(b)
    ensures Value(a) == Value(b) ==> a == b
    decreases |a|
  {
    if a != [] {
      OrderEqual(a[1..], b[1..]);
      if a[0] == b[0] && a[1..] == b[1..] { assert a == [a[0]] + a[1..] && b == [b[0]] + b[1..]; }
    }
  }

  /** Is the comparison right about which is less? */
  predicate Ordered(x: nat, a: Words, y: nat, b: Words)
    requires |a| == |b|
  {
    Order([x] + a, [y] + b) < 0 <==> Value([x] + a) < Value([y] + b)
  }

  /** It is, for all lowest words, exactly if there is nothing to compare above these. */
  lemma OrderExact(a: Words, b: Words)
    requires |a| == |b| && (forall i | 0 <= i < |a| :: a[i] < 0x1_0000_0000 && b[i] < 0x1_0000_0000)
    ensures (forall x: nat, y: nat | x < 0x1_0000_0000 && y < 0x1_0000_0000 :: Ordered(x, a, y, b)) <==> a == b
  {
    if a == b {
      forall x: nat, y: nat | x < 0x1_0000_0000 && y < 0x1_0000_0000 ensures Ordered(x, a, y, b) { OrderedLow(x, y, a); }
    } else {
      OrderEqual(a, b);
      if Value(a) < Value(b) { Contradicts(1, a, 0, b); } else { Contradicts(0, a, 1, b); }
    }
  }

  lemma OrderedLow(x: nat, y: nat, a: Words)
    ensures Ordered(x, a, y, a)
  {
    Above(x, a); Above(y, a);
    assert ([x] + a)[1..] == a && ([y] + a)[1..] == a;
    OrderSame(a);
  }

  lemma {:induction false} OrderSame(a: Words)
    ensures Order(a, a) == 0
    decreases |a|
  {
    if a != [] { OrderSame(a[1..]); }
  }

  /** The lowest words say one thing, the others another. */
  lemma Contradicts(x: nat, a: Words, y: nat, b: Words)
    requires |a| == |b| && x != y && x <= 1 && y <= 1 && (x < y <==> Value(a) > Value(b)) && Value(a) != Value(b)
    ensures !Ordered(x, a, y, b)
  {
    Above(x, a); Above(y, b);
    assert ([x] + a)[0] == x && ([y] + b)[0] == y;
  }

  lemma Above(x: nat, a: Words)
    ensures Value([x] + a) == x + 0x1_0000_0000 * Value(a)
  {
    assert ([x] + a)[1..] == a;
  }

  method IsZero(a: Words) returns (zero: bool)
    requires Sound(a)
    ensures zero <==> Value(a) == 0
  {
    for i := 0 to 4
      invariant forall k | 0 <= k < i :: a[k] == 0
    {
      if a[i] != 0 {
        Four(a);
        return false;
      }
    }
    Four(a);
    return true;
  }

  function From32(a: nat): (r: Words)
    requires a < BASE
    ensures Sound(r) && Value(r) == a
  {
    Four([a, 0, 0, 0]);
    [a, 0, 0, 0]
  }

  predicate Is32(a: Words)
    requires Sound(a)
    ensures Is32(a) <==> Value(a) < BASE
  {
    Four(a);
    a[1] == 0 && a[2] == 0 && a[3] == 0
  }
}
