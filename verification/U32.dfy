/** Keys of the `u32` classifier for conjunctions of masked equalities. */
module U32 {
  import opened Semantics
  import opened Bits
  import opened Expr
  import opened MaskedTests
  import RelAccess

  // ----- keys -----

  /** A key: the `bits` bits at byte `orig`, as part of the 32-bit word at byte `offset`. */
  datatype Key = Key(bits: nat, orig: nat, offset: nat, value: nat, mask: nat)

  const MAX_KEYS := 1024

  predicate Within(value: nat, mask: nat) { And(value, mask) == value }

  /** Two bytes. */
  const HALF: nat := BYTE + BYTE

  predicate IsSize(bits: nat) { bits == BYTE || bits == HALF || bits == WORD }

  function Bytes(bits: nat): (n: nat)
    ensures IsSize(bits) ==> bits == 8 * n
  {
    if bits == WORD then 4 else if bits == HALF then 2 else 1
  }

  /** The offset is a multiple of the size. */
  predicate OnBoundary(bits: nat, offset: nat) {
    if bits == WORD then offset % 4 == 0 else if bits == HALF then offset % 2 == 0 else true
  }

  /** The part of the word before the key. */
  function Before(k: Key): int { 8 * (k.orig - k.offset) }

  ghost predicate Sound(k: Key) {
    && IsSize(k.bits) && k.offset <= k.orig && Before(k) + k.bits <= 32
    && k.mask < Pow2(WORD - Before(k)) && Within(k.value, k.mask)
  }

  ghost predicate AllSound(keys: seq<Key>) { forall i | 0 <= i < |keys| :: Sound(keys[i]) }

  /** Bit `j` of the word. */
  predicate KeyAsks(env: Env, group: int, k: Key, j: nat) { BitAsked(env, group, 8 * k.offset, k.mask, k.value, j) }

  /** The word has what the key says of it. */
  ghost predicate KeyHolds(env: Env, group: int, k: Key) { forall j: nat | j < WORD :: KeyAsks(env, group, k, j) }

  /** Bit `j` of the word, if it is in the key proper. */
  predicate KeyBit(env: Env, group: int, k: Key, j: nat) {
    Before(k) <= j < Before(k) + k.bits ==> KeyAsks(env, group, k, j)
  }

  /** The same for the bits of the key alone. */
  ghost predicate KeyProper(env: Env, group: int, k: Key) { forall j: nat | j < WORD :: KeyBit(env, group, k, j) }

  ghost predicate KeysHold(env: Env, group: int, keys: seq<Key>) { forall i | 0 <= i < |keys| :: KeyHolds(env, group, keys[i]) }

  ghost predicate KeysProper(env: Env, group: int, keys: seq<Key>) { forall i | 0 <= i < |keys| :: KeyProper(env, group, keys[i]) }

  // ----- moving a value into its word -----

  lemma MovedBit(env: Env, group: int, off: nat, mask: nat, value: nat, s: nat, j: nat)
    requires mask < Pow2(WORD) && s <= 32 && s <= off
    ensures BitAsked(env, group, off - s, Shr(mask, s), Shr(value, s), j) <==> (s <= j < WORD ==> BitAsked(env, group, off, mask, value, j - s))
  {
    if j < WORD {
      BitShiftRight(mask, s, WORD - 1 - j);
      BitShiftRight(value, s, WORD - 1 - j);
      if j < s { BitAbove(mask, WORD, WORD - 1 - j + s); }
    }
  }

  lemma MovedWithin(value: nat, mask: nat, s: nat)
    requires Within(value, mask)
    ensures Within(Shr(value, s), Shr(mask, s))
  {
    forall i: nat ensures Bit(And(Shr(value, s), Shr(mask, s)), i) == Bit(Shr(value, s), i) {
      BitAnd(Shr(value, s), Shr(mask, s), i);
      BitShiftRight(value, s, i);
      BitShiftRight(mask, s, i);
      BitAnd(value, mask, i + s);
    }
    RelAccess.EqualBits(And(Shr(value, s), Shr(mask, s)), Shr(value, s));
  }

  lemma {:induction false} MovedBound(x: nat, s: nat, n: nat)
    requires x < Pow2(n) && s <= n
    ensures Shr(x, s) < Pow2(n - s)
    decreases s
  {
    if s > 0 { MovedBound(x / 2, s - 1, n - 1); }
  }

  /** The key made of a value aligned to the left and a mask, at byte `orig`. */
  ghost predicate Places(k: Key, value: nat, mask: nat) {
    && IsSize(k.bits) && k.offset <= k.orig && Before(k) + k.bits <= 32
    && k.value == Shr(value, Before(k)) && k.mask == Shr(mask, Before(k))
  }

  lemma PlacedSound(k: Key, value: nat, mask: nat)
    requires Places(k, value, mask) && mask < Pow2(WORD) && Within(value, mask)
    ensures Sound(k)
  {
    MovedWithin(value, mask, Before(k));
    MovedBound(mask, Before(k), WORD);
  }

  lemma PlacedHolds(env: Env, group: int, k: Key, value: nat, mask: nat, off: nat, s: nat)
    requires Places(k, value, mask) && mask < Pow2(WORD) && off == 8 * k.orig && s == Before(k)
    ensures KeyHolds(env, group, k) <==> BitsAsked(env, group, off, mask, value, WORD - s)
    ensures KeyProper(env, group, k) <==> BitsAsked(env, group, off, mask, value, k.bits)
  {
    forall j: nat ensures KeyAsks(env, group, k, j) <==> (s <= j < WORD ==> BitAsked(env, group, off, mask, value, j - s)) {
      MovedBit(env, group, off, mask, value, s, j);
    }
    if KeyHolds(env, group, k) {
      forall j: nat | j < WORD - s ensures BitAsked(env, group, off, mask, value, j) {
        assert KeyAsks(env, group, k, j + s);
      }
    }
    if KeyProper(env, group, k) {
      forall j: nat | j < k.bits ensures BitAsked(env, group, off, mask, value, j) {
        assert KeyBit(env, group, k, j + s);
        assert KeyAsks(env, group, k, j + s);
      }
    }
  }

  // ----- two keys of one word -----

  /** Bits in both masks are the same in both values. */
  predicate Compatible(a: Key, b: Key) { And(And(Xor(a.value, b.value), a.mask), b.mask) == 0 }

  lemma CompatibleBit(a: Key, b: Key, i: nat)
    ensures Bit(And(And(Xor(a.value, b.value), a.mask), b.mask), i) <==> Bit(a.value, i) != Bit(b.value, i) && Bit(a.mask, i) && Bit(b.mask, i)
  {
    BitAnd(And(Xor(a.value, b.value), a.mask), b.mask, i);
    BitAnd(Xor(a.value, b.value), a.mask, i);
    BitXor(a.value, b.value, i);
  }

  /** Keys that are not compatible cannot hold together. */
  lemma Contradicts(env: Env, group: int, a: Key, b: Key)
    requires !Compatible(a, b) && a.offset == b.offset && a.mask < Pow2(WORD)
    ensures !(KeyHolds(env, group, a) && KeyHolds(env, group, b))
  {
    var x := And(And(Xor(a.value, b.value), a.mask), b.mask);
    if forall i: nat :: i < WORD ==> !Bit(x, i) {
      forall i: nat ensures Bit(x, i) == Bit(0, i) {
        CompatibleBit(a, b, i);
        BitZero(i);
        if i >= WORD { BitAbove(a.mask, WORD, i); }
      }
      RelAccess.EqualBits(x, 0);
    } else {
      var i: nat :| i < WORD && Bit(x, i);
      CompatibleBit(a, b, i);
      var j := WORD - 1 - i;
      if KeyHolds(env, group, a) && KeyHolds(env, group, b) {
        assert KeyAsks(env, group, a, j);
        assert KeyAsks(env, group, b, j);
      }
    }
  }

  function Merged(a: Key, b: Key): Key { a.(value := Or(a.value, b.value), mask := Or(a.mask, b.mask)) }

  lemma MergedBit(env: Env, group: int, a: Key, b: Key, j: nat)
    requires Compatible(a, b) && a.offset == b.offset && Within(a.value, a.mask) && Within(b.value, b.mask)
    ensures
      KeyAsks(env, group, Merged(a, b), j) <==> KeyAsks(env, group, a, j) && KeyAsks(env, group, b, j)
  {
    if j < WORD {
      var i := WORD - 1 - j;
      CompatibleBit(a, b, i);
      BitZero(i);
      BitOr(a.value, b.value, i);
      BitOr(a.mask, b.mask, i);
      BitAnd(a.value, a.mask, i);
      BitAnd(b.value, b.mask, i);
    }
  }

  lemma MergedSound(a: Key, b: Key)
    requires Sound(a) && Sound(b) && a.offset == b.offset && a.orig == b.orig
    ensures Sound(Merged(a, b))
  {
    var v, m := Or(a.value, b.value), Or(a.mask, b.mask);
    OrBelow(a.mask, b.mask, WORD - Before(a));
    forall i: nat ensures Bit(And(v, m), i) == Bit(v, i) {
      BitAnd(v, m, i); BitOr(a.value, b.value, i); BitOr(a.mask, b.mask, i);
      BitAnd(a.value, a.mask, i); BitAnd(b.value, b.mask, i);
    }
    RelAccess.EqualBits(And(v, m), v);
  }

  lemma MergedHolds(env: Env, group: int, a: Key, b: Key)
    requires Compatible(a, b) && a.offset == b.offset && a.orig == b.orig && a.bits == b.bits
    requires Within(a.value, a.mask) && Within(b.value, b.mask)
    ensures KeyHolds(env, group, Merged(a, b)) <==> KeyHolds(env, group, a) && KeyHolds(env, group, b)
    ensures KeyProper(env, group, Merged(a, b)) <==> KeyProper(env, group, a) && KeyProper(env, group, b)
  {
    var m := Merged(a, b);
    forall j: nat ensures KeyAsks(env, group, m, j) <==> KeyAsks(env, group, a, j) && KeyAsks(env, group, b, j) {
      MergedBit(env, group, a, b, j);
    }
    forall j: nat ensures KeyBit(env, group, m, j) <==> KeyBit(env, group, a, j) && KeyBit(env, group, b, j) {}
  }

  // ----- the table of keys -----

  /** The key is taken into the table. If that fails it cannot hold with the others. */
  ghost predicate TakenIn(before: seq<Key>, k: Key, ok: bool, after: seq<Key>) {
    && (forall env, group :: KeysHold(env, group, before) && KeyHolds(env, group, k) <==> ok && KeysHold(env, group, after))
    && (ok ==> forall env, group :: KeysProper(env, group, before) && KeyProper(env, group, k) <==> KeysProper(env, group, after))
  }

  lemma Refused(keys: seq<Key>, i: nat, k: Key)
    requires i < |keys| && !Compatible(keys[i], k) && keys[i].offset == k.offset && keys[i].mask < Pow2(WORD)
    ensures TakenIn(keys, k, false, keys)
  {
    forall env, group ensures !(KeysHold(env, group, keys) && KeyHolds(env, group, k)) {
      Contradicts(env, group, keys[i], k);
    }
  }

  lemma Joined(keys: seq<Key>, i: nat, k: Key)
    requires i < |keys| && AllSound(keys) && Sound(k) && Compatible(keys[i], k)
    requires keys[i].offset == k.offset && keys[i].orig == k.orig && keys[i].bits == k.bits
    ensures TakenIn(keys, k, true, keys[i := Merged(keys[i], k)]) && AllSound(keys[i := Merged(keys[i], k)])
  {
    var after := keys[i := Merged(keys[i], k)];
    assert Sound(keys[i]);
    MergedSound(keys[i], k);
    forall env, group
      ensures KeysHold(env, group, keys) && KeyHolds(env, group, k) <==> KeysHold(env, group, after)
      ensures KeysProper(env, group, keys) && KeyProper(env, group, k) <==> KeysProper(env, group, after)
    {
      MergedHolds(env, group, keys[i], k);
      assert forall j | 0 <= j < |keys| && j != i :: after[j] == keys[j];
      assert after[i] == Merged(keys[i], k);
    }
  }

  lemma Appended(keys: seq<Key>, k: Key)
    requires AllSound(keys) && Sound(k)
    ensures TakenIn(keys, k, true, keys + [k]) && AllSound(keys + [k])
  {
    var after := keys + [k];
    assert after[|keys|] == k && forall j | 0 <= j < |keys| :: after[j] == keys[j];
    forall env, group
      ensures KeysHold(env, group, keys) && KeyHolds(env, group, k) <==> KeysHold(env, group, after)
      ensures KeysProper(env, group, keys) && KeyProper(env, group, k) <==> KeysProper(env, group, after)
    {
      if KeysHold(env, group, after) { assert KeyHolds(env, group, after[|keys|]); }
      if KeysProper(env, group, after) { assert KeyProper(env, group, after[|keys|]); }
    }
  }

  /** Moves a value into the word that holds it: by a byte at odd positions, then by two
      bytes in the upper half of the word. */
  method PlaceKey(bits: nat, value: nat, mask: nat, offset: nat) returns (k: Key)
    requires IsSize(bits) && OnBoundary(bits, offset)
    ensures k.bits == bits && k.orig == offset && Places(k, value, mask) && k.offset % 4 == 0
  {
    var o, v, m := offset, value, mask;
    ghost var s: nat := 0;
    if bits == BYTE && o % 2 == 1 {
      o, v, m, s := o - 1, Shr(v, BYTE), Shr(m, BYTE), BYTE;
    }
    assert v == Shr(value, s) && m == Shr(mask, s);
    if bits <= HALF && o % 4 >= 2 {
      ShrShr(value, s, HALF);
      ShrShr(mask, s, HALF);
      o, v, m, s := o - 2, Shr(v, HALF), Shr(m, HALF), s + HALF;
    }
    assert v == Shr(value, s) && m == Shr(mask, s) && s == 8 * (offset - o);
    InItsWord(bits, offset, o);
    k := Key(bits, offset, o, v, m);
    assert Before(k) == s;
  }

  lemma InItsWord(bits: nat, offset: nat, o: nat)
    requires IsSize(bits) && OnBoundary(bits, offset)
    requires var o' := if bits == BYTE && offset % 2 == 1 then offset - 1 else offset;
      o == if bits <= HALF && o' % 4 >= 2 then o' - 2 else o'
    ensures o % 4 == 0 && o <= offset && 8 * (offset - o) + bits <= 32
  {
    var q, r := offset / 4, offset % 4;
    assert offset == 4 * q + r && 0 <= r < 4;
    InWordAt(bits, offset, o, q, r);
  }

  lemma InWordAt(bits: nat, offset: nat, o: nat, q: nat, r: nat)
    requires IsSize(bits) && OnBoundary(bits, offset) && offset == 4 * q + r && r < 4
    requires var o' := if bits == BYTE && offset % 2 == 1 then offset - 1 else offset;
      o == if bits <= HALF && o' % 4 >= 2 then o' - 2 else o'
    ensures o == 4 * q && (bits == WORD ==> r == 0) && (bits == HALF ==> r == 0 || r == 2)
  {
    Residue(q, r, offset);
    if r == 3 { Residue(q, 2, offset - 1); }
    if r == 1 { Residue(q, 0, offset - 1); }
  }

  lemma Residue(q: nat, r: nat, n: nat)
    requires r < 4 && n == 4 * q + r
    ensures n % 4 == r && n % 2 == if r == 0 || r == 2 then 0 else 1
  {
    Residue4(q, r, n);
    Residue2(2 * q + (if r < 2 then 0 else 1), if r == 0 || r == 2 then 0 else 1, n);
  }

  lemma Residue4(q: nat, r: nat, n: nat)
    requires r < 4 && n == 4 * q + r
    ensures n % 4 == r
  {}

  lemma Residue2(q: nat, r: nat, n: nat)
    requires r < 2 && n == 2 * q + r
    ensures n % 2 == r
  {}

  // ----- what is still to be taken -----

  /** What is left of an equality: value and mask, aligned to the left, of some bytes from
      byte `offset` on, and whether it can still hold. */
  datatype Rest = Rest(value: nat, mask: nat, offset: nat, bytes: nat, useful: bool)

  /** The highest of four words. */
  const TOP: nat := var t: nat :| 2 < t < 4; t

  /** Bit `t` from the left. */
  predicate TopAsked(env: Env, group: int, off: nat, mask: nat, value: nat, t: nat) {
    t < WIDTH && Bit(mask, WIDTH - 1 - t) ==> env.bit(group, off + t) == Bit(value, WIDTH - 1 - t)
  }

  ghost predicate RestAsked(env: Env, group: int, r: Rest) {
    forall t: nat | t < WIDTH :: TopAsked(env, group, 8 * r.offset, r.mask, r.value, t)
  }

  predicate TopClear(mask: nat, t: nat) { t < WIDTH ==> !Bit(mask, WIDTH - 1 - t) }

  /** Only the first `n` bits from the left are set. */
  ghost predicate OnlyTop(mask: nat, n: nat) { forall t: nat | n <= t :: TopClear(mask, t) }

  ghost predicate RestSound(r: Rest) { r.mask < Pow2(WIDTH) && Within(r.value, r.mask) && OnlyTop(r.mask, 8 * r.bytes) }

  function Step(bits: nat, r: Rest, ok: bool): Rest
    requires Bytes(bits) <= r.bytes
  {
    Rest(Low(Shl(r.value, bits), WIDTH), Low(Shl(r.mask, bits), WIDTH), r.offset + Bytes(bits), r.bytes - Bytes(bits), r.useful && ok)
  }

  lemma ShiftedTop(x: nat, n: nat, t: nat)
    requires t < WIDTH
    ensures Bit(Low(Shl(x, n), WIDTH), WIDTH - 1 - t) <==> t + n < WIDTH && Bit(x, WIDTH - 1 - t - n)
  {
    BitLow(Shl(x, n), WIDTH, WIDTH - 1 - t);
    BitJoin(x, n, 0, WIDTH - 1 - t);
    BitZero(WIDTH - 1 - t);
  }

  lemma WithinBit(value: nat, mask: nat, i: nat)
    requires Within(value, mask)
    ensures Bit(value, i) ==> Bit(mask, i)
  {
    BitAnd(value, mask, i);
  }

  lemma BitsWithin(value: nat, mask: nat)
    requires forall i: nat :: Bit(value, i) ==> Bit(mask, i)
    ensures Within(value, mask)
  {
    forall i: nat ensures Bit(And(value, mask), i) == Bit(value, i) { BitAnd(value, mask, i); }
    RelAccess.EqualBits(And(value, mask), value);
  }

  lemma ShiftedOnlyTop(mask: nat, bits: nat, n: nat, m: nat)
    requires OnlyTop(mask, n) && n == m + bits
    ensures OnlyTop(Low(Shl(mask, bits), WIDTH), m)
  {
    forall t: nat | m <= t ensures TopClear(Low(Shl(mask, bits), WIDTH), t) {
      if t < WIDTH {
        ShiftedTop(mask, bits, t);
        assert TopClear(mask, t + bits);
      }
    }
  }

  lemma ShiftedWithin(value: nat, mask: nat, n: nat)
    requires Within(value, mask)
    ensures Within(Low(Shl(value, n), WIDTH), Low(Shl(mask, n), WIDTH))
  {
    var v, m := Low(Shl(value, n), WIDTH), Low(Shl(mask, n), WIDTH);
    forall i: nat ensures Bit(v, i) ==> Bit(m, i) {
      if i < WIDTH {
        ShiftedTop(value, n, WIDTH - 1 - i);
        ShiftedTop(mask, n, WIDTH - 1 - i);
        if i >= n { WithinBit(value, mask, i - n); }
      } else {
        BitAbove(v, WIDTH, i);
      }
    }
    BitsWithin(v, m);
  }

  lemma StepSound(bits: nat, r: Rest, ok: bool)
    requires RestSound(r) && IsSize(bits) && Bytes(bits) <= r.bytes
    ensures RestSound(Step(bits, r, ok))
  {
    ShiftedOnlyTop(r.mask, bits, 8 * r.bytes, 8 * (r.bytes - Bytes(bits)));
    ShiftedWithin(r.value, r.mask, bits);
  }

  lemma TopWordBit(x: nat, j: nat)
    requires j < WORD
    ensures Bit(WordOf(x, TOP), WORD - 1 - j) == Bit(x, WIDTH - 1 - j)
  {
    WordBit(x, 3, WORD - 1 - j, 96);
  }

  lemma WordWithin(value: nat, mask: nat)
    requires Within(value, mask)
    ensures Within(WordOf(value, TOP), WordOf(mask, TOP)) && WordOf(mask, TOP) < Pow2(WORD)
  {
    forall i: nat ensures Bit(WordOf(value, TOP), i) ==> Bit(WordOf(mask, TOP), i) {
      if i < WORD {
        WordBit(value, TOP, i, 32 * TOP);
        WordBit(mask, TOP, i, 32 * TOP);
        WithinBit(value, mask, 32 * TOP + i);
      }
      else { BitAbove(WordOf(value, TOP), WORD, i); }
    }
    BitsWithin(WordOf(value, TOP), WordOf(mask, TOP));
  }

  /** The first bits are those of the highest word. */
  ghost predicate WordAsks(env: Env, group: int, r: Rest, n: nat) {
    BitsAsked(env, group, 8 * r.offset, WordOf(r.mask, TOP), WordOf(r.value, TOP), n)
  }

  lemma TopIsWord(env: Env, group: int, r: Rest, j: nat)
    requires j < WORD
    ensures BitAsked(env, group, 8 * r.offset, WordOf(r.mask, TOP), WordOf(r.value, TOP), j) <==> TopAsked(env, group, 8 * r.offset, r.mask, r.value, j)
  {
    TopWordBit(r.value, j);
    TopWordBit(r.mask, j);
  }

  lemma WordOfRest(env: Env, group: int, r: Rest, n: nat)
    requires RestAsked(env, group, r) && n <= 32
    ensures WordAsks(env, group, r, n)
  {
    forall j: nat | j < n ensures BitAsked(env, group, 8 * r.offset, WordOf(r.mask, TOP), WordOf(r.value, TOP), j) {
      TopIsWord(env, group, r, j);
      assert TopAsked(env, group, 8 * r.offset, r.mask, r.value, j);
    }
  }

  lemma StepBit(env: Env, group: int, r: Rest, bits: nat, s: Rest, t: nat)
    requires IsSize(bits) && Bytes(bits) <= r.bytes && s == Step(bits, r, s.useful) && t < WIDTH
    ensures TopAsked(env, group, 8 * s.offset, s.mask, s.value, t) <==> TopAsked(env, group, 8 * r.offset, r.mask, r.value, t + bits)
  {
    var n: nat := t + bits;
    assert 8 * s.offset + t == 8 * r.offset + n;
    assert Bit(s.mask, WIDTH - 1 - t) <==> n < WIDTH && Bit(r.mask, WIDTH - 1 - n) by { ShiftedTop(r.mask, bits, t); }
    assert Bit(s.value, WIDTH - 1 - t) <==> n < WIDTH && Bit(r.value, WIDTH - 1 - n) by { ShiftedTop(r.value, bits, t); }
  }

  /** A step takes the first bits, and leaves the others. */
  lemma StepLeaves(env: Env, group: int, r: Rest, bits: nat, s: Rest)
    requires IsSize(bits) && Bytes(bits) <= r.bytes && s == Step(bits, r, s.useful) && RestAsked(env, group, r)
    ensures RestAsked(env, group, s)
  {
    forall t: nat | t < WIDTH ensures TopAsked(env, group, 8 * s.offset, s.mask, s.value, t) {
      StepBit(env, group, r, bits, s, t);
      assert t + bits < WIDTH ==> TopAsked(env, group, 8 * r.offset, r.mask, r.value, t + bits);
    }
  }

  lemma StepTakes(env: Env, group: int, r: Rest, bits: nat, s: Rest)
    requires IsSize(bits) && Bytes(bits) <= r.bytes && s == Step(bits, r, s.useful)
    requires WordAsks(env, group, r, bits) && RestAsked(env, group, s)
    ensures RestAsked(env, group, r)
  {
    forall t: nat | t < WIDTH ensures TopAsked(env, group, 8 * r.offset, r.mask, r.value, t) {
      if t < bits {
        TopIsWord(env, group, r, t);
      } else {
        StepBit(env, group, r, bits, s, t - bits);
        assert TopAsked(env, group, 8 * s.offset, s.mask, s.value, t - bits);
      }
    }
  }

  lemma StepAsks(env: Env, group: int, r: Rest, bits: nat, s: Rest)
    requires IsSize(bits) && Bytes(bits) <= r.bytes && s == Step(bits, r, s.useful)
    ensures RestAsked(env, group, r) <==> WordAsks(env, group, r, bits) && RestAsked(env, group, s)
  {
    if RestAsked(env, group, r) {
      WordOfRest(env, group, r, bits);
      StepLeaves(env, group, r, bits, s);
    }
    if WordAsks(env, group, r, bits) && RestAsked(env, group, s) { StepTakes(env, group, r, bits, s); }
  }

  // ----- progress -----

  /** Keys and rest together. */
  ghost predicate Together(env: Env, group: int, keys: seq<Key>, r: Rest) { r.useful && KeysHold(env, group, keys) && RestAsked(env, group, r) }

  ghost predicate TogetherProper(env: Env, group: int, keys: seq<Key>, r: Rest) { KeysProper(env, group, keys) && RestAsked(env, group, r) }

  /** Keys and rest ask for the same as before. */
  ghost predicate Progress(keys0: seq<Key>, r0: Rest, keys: seq<Key>, r: Rest) {
    && (forall env, group :: Together(env, group, keys0, r0) <==> Together(env, group, keys, r))
    && (r.useful ==> r0.useful && forall env, group :: TogetherProper(env, group, keys0, r0) <==> TogetherProper(env, group, keys, r))
  }

  lemma ProgressOn(keys0: seq<Key>, r0: Rest, keys1: seq<Key>, r1: Rest, keys2: seq<Key>, r2: Rest)
    requires Progress(keys0, r0, keys1, r1) && Progress(keys1, r1, keys2, r2)
    ensures Progress(keys0, r0, keys2, r2)
  {
    forall env, group ensures Together(env, group, keys0, r0) <==> Together(env, group, keys2, r2) {
      assert Together(env, group, keys0, r0) <==> Together(env, group, keys1, r1);
    }
    if r2.useful {
      forall env, group ensures TogetherProper(env, group, keys0, r0) <==> TogetherProper(env, group, keys2, r2) {
        assert TogetherProper(env, group, keys0, r0) <==> TogetherProper(env, group, keys1, r1);
      }
    }
  }

  lemma KeyProgress(keys: seq<Key>, r: Rest, bits: nat, k: Key, ok: bool, keys': seq<Key>)
    requires RestSound(r) && IsSize(bits) && Bytes(bits) <= r.bytes && k.bits == bits && k.orig == r.offset
    requires Places(k, WordOf(r.value, TOP), WordOf(r.mask, TOP)) && TakenIn(keys, k, ok, keys')
    ensures Progress(keys, r, keys', Step(bits, r, ok))
  {
    var s := Step(bits, r, ok);
    WordWithin(r.value, r.mask);
    forall env, group
      ensures Together(env, group, keys, r) <==> Together(env, group, keys', s)
      ensures s.useful ==> (TogetherProper(env, group, keys, r) <==> TogetherProper(env, group, keys', s))
    {
      KeyMoves(env, group, r, bits, k, s);
      assert KeysHold(env, group, keys) && KeyHolds(env, group, k) <==> ok && KeysHold(env, group, keys');
    }
  }

  lemma KeyMoves(env: Env, group: int, r: Rest, bits: nat, k: Key, s: Rest)
    requires IsSize(bits) && Bytes(bits) <= r.bytes && k.bits == bits && k.orig == r.offset && s == Step(bits, r, s.useful)
    requires Places(k, WordOf(r.value, TOP), WordOf(r.mask, TOP)) && WordOf(r.mask, TOP) < Pow2(WORD)
    ensures RestAsked(env, group, r) <==> KeyHolds(env, group, k) && RestAsked(env, group, s)
    ensures RestAsked(env, group, r) <==> KeyProper(env, group, k) && RestAsked(env, group, s)
  {
    var n: nat := WORD - Before(k);
    PlacedHolds(env, group, k, WordOf(r.value, TOP), WordOf(r.mask, TOP), 8 * r.offset, Before(k));
    StepAsks(env, group, r, bits, s);
    if RestAsked(env, group, r) { WordOfRest(env, group, r, n); }
    if WordAsks(env, group, r, n) {
      forall j: nat | j < bits ensures BitAsked(env, group, 8 * r.offset, WordOf(r.mask, TOP), WordOf(r.value, TOP), j) {}
    }
  }

  // ----- offsets and bytes left -----

  datatype Span = Span(offset: nat, bytes: nat)

  /** Where the rest starts, and how many bytes it has. */
  function At(r: Rest): Span { Span(r.offset, r.bytes) }

  function AfterPart(bits: nat, at: Span): Span {
    if at.bytes < Bytes(bits) || !OnBoundary(bits, at.offset) then at else Span(at.offset + Bytes(bits), at.bytes - Bytes(bits))
  }

  function AfterWords(at: Span): Span {
    if at.offset % 4 == 0 then Span(at.offset + (at.bytes - at.bytes % 4), at.bytes % 4) else at
  }

  /** The whole sequence of attempts. */
  function AllParts(at: Span): Span {
    var a := AfterPart(HALF, AfterWords(at));
    var b := AfterPart(BYTE, AfterPart(HALF, AfterWords(a)));
    AfterPart(BYTE, AfterWords(AfterPart(HALF, AfterWords(b))))
  }

  /** Sizes that the sequence does not get through: from the second byte of a word on, it
      ends with at most one byte after the whole words. */
  predicate Stuck(offset: nat, bytes: nat) {
    offset % 4 == 1 && bytes >= 3 && (bytes % 4 == 1 || bytes % 4 == 2)
  }

  lemma Odd(o: nat, q: nat, r: nat)
    requires r == o % 4 && q == o / 4
    ensures o % 2 == (if r == 0 || r == 2 then 0 else 1) && (r > 0 ==> (o + (4 - r)) % 4 == 0) && (r == 1 ==> (o + 1) % 4 == 2)
  {
    assert o == 4 * q + r;
    Residue(q, r, o);
    if r > 0 { Residue4(q + 1, 0, o + (4 - r)); }
    if r == 1 { Residue4(q, 2, o + 1); }
  }

  /** At a word boundary less than two bytes remain after words and a half-word. */
  lemma AlignedTail(o: nat, b: nat)
    requires o % 4 == 0
    ensures AfterWords(Span(o, b)).bytes == b % 4 && AfterWords(Span(o, b)).offset % 4 == 0 && AfterPart(HALF, AfterWords(Span(o, b))).bytes <= 1
  {
    var w := AfterWords(Span(o, b));
    Residue4(o / 4 + b / 4, 0, w.offset);
    Odd(w.offset, w.offset / 4, 0);
  }

  /** A last byte is taken. */
  lemma SmallRest(at: Span)
    requires at.bytes <= 1
    ensures AfterWords(at) == at && AfterPart(HALF, at) == at && AfterPart(BYTE, at).bytes == 0
  {
    NothingSmall(AfterPart(BYTE, at));
  }

  lemma NothingSmall(at: Span)
    requires at.bytes == 0
    ensures AfterWords(at) == at && AfterPart(HALF, at) == at && AfterPart(BYTE, at) == at
  {}

  lemma LeftFrom0(o: nat, b: nat)
    requires o % 4 == 0
    ensures AllParts(Span(o, b)).bytes == 0
  {
    AlignedTail(o, b);
    var a := AfterPart(HALF, AfterWords(Span(o, b)));
    SmallRest(a);
    NothingSmall(AfterPart(BYTE, a));
  }

  lemma LeftFrom2(o: nat, b: nat)
    requires o % 4 == 2
    ensures AllParts(Span(o, b)).bytes == 0
  {
    Odd(o, o / 4, 2);
    if b >= 2 {
      assert AfterPart(HALF, AfterWords(Span(o, b))) == Span(o + 2, b - 2);
      AlignedTail(o + 2, b - 2);
      var c := AfterPart(HALF, AfterWords(Span(o + 2, b - 2)));
      SmallRest(c);
      NothingSmall(AfterPart(BYTE, c));
    } else {
      SmallRest(Span(o, b));
      NothingSmall(AfterPart(BYTE, Span(o, b)));
    }
  }

  lemma LeftFrom3(o: nat, b: nat)
    requires o % 4 == 3
    ensures AllParts(Span(o, b)).bytes == 0
  {
    Odd(o, o / 4, 3);
    assert AfterPart(HALF, AfterWords(Span(o, b))) == Span(o, b);
    if b >= 1 {
      assert AfterPart(BYTE, Span(o, b)) == Span(o + 1, b - 1);
      AlignedTail(o + 1, b - 1);
      var c := AfterPart(HALF, AfterWords(Span(o + 1, b - 1)));
      SmallRest(c);
    } else {
      NothingSmall(Span(o, b));
    }
  }

  lemma LeftFrom1(o: nat, b: nat)
    requires o % 4 == 1
    ensures AllParts(Span(o, b)).bytes == 0 <==> !Stuck(o, b)
  {
    Odd(o, o / 4, 1);
    assert AfterPart(HALF, AfterWords(Span(o, b))) == Span(o, b);
    if b >= 3 {
      assert AfterPart(BYTE, Span(o, b)) == Span(o + 1, b - 1);
      Odd(o + 1, (o + 1) / 4, 2);
      assert AfterPart(HALF, AfterWords(Span(o + 1, b - 1))) == Span(o + 3, b - 3);
      AlignedTail(o + 3, b - 3);
      LastByte(b, b / 4, b % 4);
    } else if b >= 1 {
      SmallRest(Span(o + 1, b - 1));
    } else {
      NothingSmall(Span(o, b));
    }
  }

  lemma LastByte(b: nat, q: nat, r: nat)
    requires b >= 3 && q == b / 4 && r == b % 4
    ensures (b - 3) % 4 <= 1 <==> r != 1 && r != 2
  {
    assert b == 4 * q + r;
    if r == 3 { Residue4(q, 0, b - 3); } else { Residue4(q - 1, r + 1, b - 3); }
  }

  /** Nothing is left over, unless the sequence gets stuck: in particular not of 1, 2, 4
      or 16 bytes. */
  lemma AllPartsLeft(o: nat, b: nat)
    ensures AllParts(Span(o, b)).bytes == 0 <==> !Stuck(o, b)
    ensures b == 1 || b == 2 || b == 4 || b == 16 ==> !Stuck(o, b)
  {
    if o % 4 == 0 { LeftFrom0(o, b); }
    else if o % 4 == 1 { LeftFrom1(o, b); }
    else if o % 4 == 2 { LeftFrom2(o, b); }
    else { LeftFrom3(o, b); }
  }

  lemma OneWord(offset: nat, bytes: nat)
    requires bytes > 3 && offset % 4 == 0
    ensures AfterWords(AfterPart(WORD, Span(offset, bytes))) == AfterWords(Span(offset, bytes))
  {
    assert (offset + 4) % 4 == 0 && (bytes - 4) % 4 == bytes % 4;
  }

  lemma WordsDone(at: Span)
    requires !(at.bytes > 3 && at.offset % 4 == 0)
    ensures AfterWords(at) == at
  {}

  /** The table has taken over a part of the rest. */
  ghost predicate Handled(keys: seq<Key>, r: Rest, keys': seq<Key>, r': Rest, at: Span) {
    RestSound(r') && Progress(keys, r, keys', r') && At(r') == at
  }

  lemma PartTaken(keys: seq<Key>, r: Rest, bits: nat, k: Key, ok: bool, keys': seq<Key>, s: Rest)
    requires RestSound(r) && IsSize(bits) && Bytes(bits) <= r.bytes && k.bits == bits && k.orig == r.offset
    requires Places(k, WordOf(r.value, TOP), WordOf(r.mask, TOP)) && TakenIn(keys, k, ok, keys') && s == Step(bits, r, ok)
    ensures Handled(keys, r, keys', s, Span(r.offset + Bytes(bits), r.bytes - Bytes(bits)))
  {
    assert RestSound(s) by { StepSound(bits, r, ok); }
    assert Progress(keys, r, keys', s) by { KeyProgress(keys, r, bits, k, ok, keys'); }
  }

  lemma PartHandled(keys: seq<Key>, r: Rest, keys': seq<Key>, r': Rest, bits: nat)
    requires Bytes(bits) <= r.bytes && OnBoundary(bits, r.offset)
    requires Handled(keys, r, keys', r', Span(r.offset + Bytes(bits), r.bytes - Bytes(bits)))
    ensures Handled(keys, r, keys', r', AfterPart(bits, At(r)))
  {
    PartAt(bits, r.offset, r.bytes);
  }

  lemma PartAt(bits: nat, offset: nat, bytes: nat)
    requires Bytes(bits) <= bytes && OnBoundary(bits, offset)
    ensures AfterPart(bits, Span(offset, bytes)) == Span(offset + Bytes(bits), bytes - Bytes(bits))
  {}

  // ----- equalities -----

  /** The mask of a test: without one, all bits of the field. */
  function KeyMask(x: Term): nat
    requires MaskChain(x) && Sized(x)
  {
    if x.Access? then Pow2(x.size) - 1 else ChainMask(x, WIDTH)
  }

  /** Accesses are of whole bytes. */
  predicate WholeBytes(x: Term) { if x.Access? then x.size % 8 == 0 else WholeBytes(x.x) }

  lemma {:induction false} BaseWhole(x: Term)
    requires MaskChain(x) && WholeBytes(x)
    ensures WholeBytes(ChainBase(x))
    decreases x
  {
    if !x.Access? { BaseWhole(x.x); }
  }

  /** A test that keys can express: without bits beyond the field. */
  predicate KeyTest(x: Term, c: nat) {
    && MaskChain(x) && Sized(x)
    && (c < Pow2(ChainBase(x).size) || And(c, KeyMask(x)) != c)
  }

  lemma {:induction false} DefaultMask(n: nat, k: nat)
    ensures Shr(Pow2(n + k) - 1, k) == Pow2(n) - 1
    decreases k
  {
    if k > 0 { DefaultMask(n, k - 1); }
  }

  lemma KeyValue(x: Term, env: Env)
    requires MaskChain(x) && Sized(x)
    ensures var a := ChainBase(x); TermValue(x, env) == And(FieldValue(env, a.group, 8 * a.offset, a.size), KeyMask(x))
  {
    if x.Access? {
      assert ChainBase(x) == x && TermValue(x, env) == FieldValue(env, x.group, 8 * x.offset, x.size);
      AllOfIt(TermValue(x, env), x.size);
    } else {
      ChainValue(x, env, WIDTH);
    }
  }

  lemma AllOfIt(f: nat, n: nat)
    requires f < Pow2(n)
    ensures And(f, Pow2(n) - 1) == f
  {
    LowMask(f, n);
    LowSmall(f, n);
  }

  /** The keys are those from before and of the equality. */
  ghost predicate EqualityAdded(keys: seq<Key>, x: Term, c: nat, ok: bool, keys': seq<Key>)
    requires MaskChain(x)
  {
    var g := ChainBase(x).group;
    && (forall env :: KeysHold(env, g, keys) && TermValue(x, env) == c <==> ok && KeysHold(env, g, keys'))
    && (ok ==> forall env :: KeysProper(env, g, keys) && TermValue(x, env) == c <==> KeysProper(env, g, keys'))
  }

  lemma NeverFound(keys: seq<Key>, x: Term, c: nat)
    requires KeyTest(x, c) && And(c, KeyMask(x)) != c
    ensures EqualityAdded(keys, x, c, false, keys)
  {
    var a := ChainBase(x);
    forall env ensures TermValue(x, env) != c {
      KeyValue(x, env);
      RelAccess.WithinMask(FieldValue(env, a.group, 8 * a.offset, a.size), KeyMask(x), c);
    }
  }

  /** The value and mask of an equality, aligned to the left. */
  ghost predicate Starts(c: nat, mask: nat, size: nat, r: Rest) {
    && size <= WIDTH && r.value == Aligned(c, size) && r.mask == Aligned(mask, size) && 8 * r.bytes == size && r.useful
  }

  lemma RestStart(c: nat, mask: nat, size: nat, r: Rest)
    requires Starts(c, mask, size, r) && Within(c, mask)
    ensures RestSound(r)
  {
    ShiftedWithin(c, mask, WIDTH - size);
    forall t: nat | size <= t ensures TopClear(r.mask, t) {
      if t < WIDTH { ShiftedTop(mask, WIDTH - size, t); }
    }
  }

  /** What is asked for at first is what the field is asked for. */
  lemma StartAsks(env: Env, group: int, c: nat, mask: nat, size: nat, r: Rest)
    requires Starts(c, mask, size, r)
    ensures RestAsked(env, group, r) <==> FieldAsked(env, group, 8 * r.offset, size, mask, c)
  {
    forall t: nat | t < WIDTH
      ensures TopAsked(env, group, 8 * r.offset, r.mask, r.value, t) <==> (t < size ==> FieldBitAsked(env, group, 8 * r.offset, size, mask, c, size - 1 - t))
    {
      ShiftedTop(mask, WIDTH - size, t);
      ShiftedTop(c, WIDTH - size, t);
    }
    if RestAsked(env, group, r) {
      forall i: nat | i < size ensures FieldBitAsked(env, group, 8 * r.offset, size, mask, c, i) {
        var t: nat := size - 1 - i;
        assert TopAsked(env, group, 8 * r.offset, r.mask, r.value, t);
      }
    }
  }

  lemma NothingAsked(env: Env, group: int, r: Rest)
    requires RestSound(r) && r.bytes == 0
    ensures RestAsked(env, group, r)
  {
    forall t: nat | t < WIDTH ensures TopAsked(env, group, 8 * r.offset, r.mask, r.value, t) {
      assert TopClear(r.mask, t);
    }
  }

  /** What is asked for at first is the equality. */
  lemma StartIsEquality(env: Env, x: Term, c: nat, mask: nat, r: Rest)
    requires KeyTest(x, c) && mask == KeyMask(x) && mask < Pow2(WIDTH) && c < Pow2(WIDTH) && Within(c, mask)
    requires Starts(c, mask, ChainBase(x).size, r) && r.offset == ChainBase(x).offset
    ensures RestAsked(env, ChainBase(x).group, r) <==> TermValue(x, env) == c
  {
    var a := ChainBase(x);
    StartAsks(env, a.group, c, mask, a.size, r);
    AskedIsMasked(env, a.group, 8 * a.offset, a.size, mask, c);
    LowSmall(c, a.size);
    KeyValue(x, env);
  }

  lemma EqualityTaken(keys: seq<Key>, x: Term, c: nat, mask: nat, r0: Rest, keys': seq<Key>, r: Rest)
    requires KeyTest(x, c) && mask == KeyMask(x) && mask < Pow2(WIDTH) && c < Pow2(WIDTH) && Within(c, mask)
    requires Starts(c, mask, ChainBase(x).size, r0) && r0.offset == ChainBase(x).offset
    requires Progress(keys, r0, keys', r) && RestSound(r) && r.bytes == 0
    ensures EqualityAdded(keys, x, c, r.useful, keys')
  {
    var g := ChainBase(x).group;
    forall env
      ensures KeysHold(env, g, keys) && TermValue(x, env) == c <==> r.useful && KeysHold(env, g, keys')
      ensures r.useful ==> (KeysProper(env, g, keys) && TermValue(x, env) == c <==> KeysProper(env, g, keys'))
    {
      StartIsEquality(env, x, c, mask, r0);
      NothingAsked(env, g, r);
      assert Together(env, g, keys, r0) <==> Together(env, g, keys', r);
      assert r.useful ==> (TogetherProper(env, g, keys, r0) <==> TogetherProper(env, g, keys', r));
    }
  }

  // ----- rows -----

  /** A match as the kernel takes it: `bits` bits at byte `offset`. */
  datatype KeyMatch = KeyMatch(bits: nat, value: nat, mask: nat, offset: nat)

  predicate MatchHolds(env: Env, group: int, m: KeyMatch) { And(FieldValue(env, group, 8 * m.offset, m.bits), m.mask) == m.value }

  predicate MatchesHold(env: Env, group: int, ms: seq<KeyMatch>) { forall i | 0 <= i < |ms| :: MatchHolds(env, group, ms[i]) }

  /** The match asks for what the key does. */
  ghost predicate SameAsked(k: Key, m: KeyMatch) { forall env, group :: MatchHolds(env, group, m) <==> KeyProper(env, group, k) }

  lemma MatchBit(env: Env, group: int, k: Key, shift: nat, s: nat, i: nat, j: nat, mask: nat, value: nat)
    requires Sound(k) && s == Before(k) && shift + k.bits + s == 32 && i < k.bits && j == s + k.bits - 1 - i
    requires mask == Shr(k.mask, shift) && value == Shr(k.value, shift)
    ensures FieldBitAsked(env, group, 8 * k.orig, k.bits, mask, value, i) <==> KeyAsks(env, group, k, j)
  {
    assert WORD - 1 - j == i + shift && 8 * k.orig + k.bits - 1 - i == 8 * k.offset + j;
    assert Bit(mask, i) == Bit(k.mask, i + shift) by { BitShiftRight(k.mask, shift, i); }
    assert Bit(value, i) == Bit(k.value, i + shift) by { BitShiftRight(k.value, shift, i); }
  }

  lemma FieldIsKey(env: Env, group: int, k: Key, shift: nat, s: nat, mask: nat, value: nat)
    requires Sound(k) && s == Before(k) && shift + k.bits + s == 32
    requires mask == Shr(k.mask, shift) && value == Shr(k.value, shift)
    ensures FieldAsked(env, group, 8 * k.orig, k.bits, mask, value) <==> KeyProper(env, group, k)
  {
    if KeyProper(env, group, k) {
      forall i: nat | i < k.bits ensures FieldBitAsked(env, group, 8 * k.orig, k.bits, mask, value, i) {
        var j: nat := s + k.bits - 1 - i;
        assert KeyBit(env, group, k, j);
        MatchBit(env, group, k, shift, s, i, j, mask, value);
      }
    }
    if FieldAsked(env, group, 8 * k.orig, k.bits, mask, value) {
      forall j: nat | j < WORD ensures KeyBit(env, group, k, j) {
        if s <= j < s + k.bits {
          var i: nat := s + k.bits - 1 - j;
          assert FieldBitAsked(env, group, 8 * k.orig, k.bits, mask, value, i);
          MatchBit(env, group, k, shift, s, i, j, mask, value);
        }
      }
    }
  }

  lemma MatchIsKey(env: Env, group: int, k: Key, shift: nat, s: nat, mask: nat, value: nat)
    requires Sound(k) && s == Before(k) && shift + k.bits + s == 32
    requires mask == Shr(k.mask, shift) && value == Shr(k.value, shift)
    ensures And(FieldValue(env, group, 8 * k.orig, k.bits), mask) == value <==> KeyProper(env, group, k)
  {
    MovedWithin(k.value, k.mask, shift);
    MatchSmall(k, shift, s);
    AskedIsMasked(env, group, 8 * k.orig, k.bits, mask, value);
    FieldIsKey(env, group, k, shift, s, mask, value);
  }

  lemma MatchSmall(k: Key, shift: nat, s: nat)
    requires Sound(k) && s == Before(k) && shift + k.bits + s == 32
    ensures Low(Shr(k.value, shift), k.bits) == Shr(k.value, shift)
  {
    AndBelow(k.value, k.mask);
    MovedBound(k.value, shift, WORD - s);
    LowSmall(Shr(k.value, shift), k.bits);
  }

  lemma MatchFor(k: Key, shift: nat, m: KeyMatch)
    requires Sound(k) && shift + k.bits + Before(k) == 32
    requires m == KeyMatch(k.bits, Shr(k.value, shift), Shr(k.mask, shift), k.orig)
    ensures SameAsked(k, m)
  {
    forall env, group ensures MatchHolds(env, group, m) <==> KeyProper(env, group, k) {
      MatchIsKey(env, group, k, shift, Before(k), m.mask, m.value);
    }
  }

  lemma MatchesAreKeys(keys: seq<Key>, ms: seq<KeyMatch>)
    requires |ms| == |keys| && forall j | 0 <= j < |keys| :: SameAsked(keys[j], ms[j])
    ensures forall env, group :: MatchesHold(env, group, ms) <==> KeysProper(env, group, keys)
  {
    forall env, group ensures MatchesHold(env, group, ms) <==> KeysProper(env, group, keys) {
      forall j | 0 <= j < |keys| ensures MatchHolds(env, group, ms[j]) <==> KeyProper(env, group, keys[j]) {
        assert SameAsked(keys[j], ms[j]);
      }
    }
  }

  lemma EverythingMatches()
    ensures forall env, group :: MatchesHold(env, group, [KeyMatch(32, 0, 0, 0)])
  {
    forall env, group ensures MatchHolds(env, group, KeyMatch(32, 0, 0, 0)) {
      AndBelow(FieldValue(env, group, 0, WORD), 0);
      assert WORD == 32;
    }
  }

  /** An equality of a term with a constant. */
  datatype Test = Test(x: Term, c: nat)

  predicate TypedTest(t: Test) { Sized(t.x) && WholeBytes(t.x) && t.c < Pow2(WIDTH) }

  predicate IsKeyTest(t: Test, group: int) { KeyTest(t.x, t.c) && ChainBase(t.x).group == group }

  predicate AllKeyTests(tests: seq<Test>, group: int) { forall i | 0 <= i < |tests| :: IsKeyTest(tests[i], group) }

  predicate StuckTest(t: Test) { MaskChain(t.x) && Sized(t.x) && Stuck(ChainBase(t.x).offset, ChainBase(t.x).size / 8) }

  predicate TestHolds(env: Env, t: Test) { TermValue(t.x, env) == t.c }

  predicate TestsHold(env: Env, tests: seq<Test>) { forall i | 0 <= i < |tests| :: TestHolds(env, tests[i]) }

  /** The keys are those of the tests, in both readings. */
  ghost predicate TestsSoFar(tests: seq<Test>, group: int, keys: seq<Key>) {
    && (forall env :: TestsHold(env, tests) <==> KeysHold(env, group, keys))
    && (forall env :: TestsHold(env, tests) <==> KeysProper(env, group, keys))
  }

  /** A packet satisfies the row if and only if it satisfies all matches; a row given up is
      satisfied by none. */
  ghost predicate RowMatches(tests: seq<Test>, group: int, row: Option<seq<KeyMatch>>) {
    forall env :: TestsHold(env, tests) <==> row.Some? && MatchesHold(env, group, row.value)
  }

  lemma NoTests(group: int)
    ensures TestsSoFar([], group, [])
  {}

  lemma TestAdded(tests: seq<Test>, i: nat, group: int, keys: seq<Key>, ok: bool, keys': seq<Key>)
    requires i < |tests| && AllKeyTests(tests, group) && TestsSoFar(tests[..i], group, keys)
    requires IsKeyTest(tests[i], group) && EqualityAdded(keys, tests[i].x, tests[i].c, ok, keys')
    ensures if ok then TestsSoFar(tests[..i + 1], group, keys') else RowMatches(tests, group, None)
  {
    forall env
      ensures TestsHold(env, tests[..i + 1]) <==> ok && KeysHold(env, group, keys')
      ensures ok ==> (TestsHold(env, tests[..i + 1]) <==> KeysProper(env, group, keys'))
      ensures TestsHold(env, tests) ==> TestsHold(env, tests[..i + 1])
    {
      TestsHoldNext(env, tests, i);
      assert TestsHold(env, tests[..i]) <==> KeysHold(env, group, keys);
      assert TestsHold(env, tests[..i]) <==> KeysProper(env, group, keys);
      assert KeysHold(env, group, keys) && TestHolds(env, tests[i]) <==> ok && KeysHold(env, group, keys');
    }
  }

  lemma TestsHoldNext(env: Env, tests: seq<Test>, i: nat)
    requires i < |tests|
    ensures TestsHold(env, tests[..i + 1]) <==> TestsHold(env, tests[..i]) && TestHolds(env, tests[i])
    ensures TestsHold(env, tests) ==> TestsHold(env, tests[..i + 1])
  {
    var a, b := tests[..i], tests[..i + 1];
    assert b[i] == tests[i] && forall k | 0 <= k < i :: a[k] == b[k] == tests[k];
    if TestsHold(env, b) {
      forall k | 0 <= k < i ensures TestHolds(env, a[k]) { assert TestHolds(env, b[k]); }
      assert TestHolds(env, b[i]);
    }
    if TestsHold(env, a) && TestHolds(env, tests[i]) {
      forall k | 0 <= k <= i ensures TestHolds(env, b[k]) { if k < i { assert TestHolds(env, a[k]); } }
    }
    if TestsHold(env, tests) {
      forall k | 0 <= k <= i ensures TestHolds(env, b[k]) { assert TestHolds(env, tests[k]); }
    }
  }

  lemma RowDone(tests: seq<Test>, group: int, keys: seq<Key>, ms: seq<KeyMatch>)
    requires TestsSoFar(tests, group, keys) && forall env, group :: MatchesHold(env, group, ms) <==> KeysProper(env, group, keys)
    ensures RowMatches(tests, group, Some(ms))
  {}

  function TestBytes(x: Term): nat { if MaskChain(x) && Sized(x) then ChainBase(x).size / 8 else 0 }

  /** The bytes of all fields that are compared. */
  function RowBytes(tests: seq<Test>): nat {
    if tests == [] then 0 else TestBytes(tests[0].x) + RowBytes(tests[1..])
  }

  lemma {:induction false} NextBytes(tests: seq<Test>, i: nat)
    requires i < |tests|
    ensures RowBytes(tests[..i + 1]) == RowBytes(tests[..i]) + TestBytes(tests[i].x)
    ensures RowBytes(tests[..i + 1]) <= RowBytes(tests)
    decreases i
  {
    assert tests[..i + 1][1..] == tests[1..][..i];
    if i > 0 {
      assert tests[..i][1..] == tests[1..][..i - 1];
      NextBytes(tests[1..], i - 1);
    }
  }

  function Left(r: Option<Rest>): nat { if r.Some? then r.value.bytes else 0 }

  class KeyTable {
    var key: seq<Key>

    ghost predicate Valid()
      reads this
    {
      AllSound(key) && |key| <= MAX_KEYS
    }

    constructor ()
      ensures Valid() && key == []
    {
      key := [];
    }

    /** The first key of the same word that contradicts `k` or is about the same bits. */
    method Rival(k: Key) returns (i: Option<nat>)
      ensures i.Some? ==> i.value < |key| && key[i.value].offset == k.offset
      ensures i.Some? && Compatible(key[i.value], k) ==> key[i.value].bits == k.bits && key[i.value].orig == k.orig
      ensures i.None? ==> forall j | 0 <= j < |key| && key[j].offset == k.offset :: Compatible(key[j], k)
    {
      for j := 0 to |key|
        invariant forall n | 0 <= n < j && key[n].offset == k.offset :: Compatible(key[n], k)
      {
        if key[j].offset == k.offset {
          if !Compatible(key[j], k) { return Some(j); }
          if key[j].bits == k.bits && key[j].orig == k.orig { return Some(j); }
        }
      }
      i := None;
    }

    /** Adds a key for the first `bits` bits of a value aligned to the left. The answer is
        no if it contradicts those there are. Fails if the table is full. */
    method AddKey(bits: nat, value: nat, mask: nat, offset: nat) returns (ok: Option<bool>, ghost k: Key)
      requires Valid() && IsSize(bits) && OnBoundary(bits, offset) && mask < Pow2(WORD) && Within(value, mask)
      modifies `key
      ensures Valid() && (ok.None? <==> |old(key)| == MAX_KEYS) && (ok.None? ==> key == old(key))
      ensures ok.Some? ==> k.bits == bits && k.orig == offset && Places(k, value, mask) && TakenIn(old(key), k, ok.value, key)
      ensures |key| <= |old(key)| + 1
    {
      k := Key(bits, offset, offset, value, mask);
      if |key| == MAX_KEYS { return None, k; }
      var added := PlaceKey(bits, value, mask, offset);
      k := added;
      PlacedSound(k, value, mask);
      var taken := Enter(added);
      ok := Some(taken);
    }

    /** Checks a key against the others, and enters it: into one for the same bits, or as
        a new one. */
    method Enter(k: Key) returns (ok: bool)
      requires Valid() && |key| < MAX_KEYS && Sound(k)
      modifies `key
      ensures Valid() && TakenIn(old(key), k, ok, key) && |key| <= |old(key)| + 1
    {
      var i := Rival(k);
      if i.None? {
        Appended(key, k);
        key := key + [k];
        return true;
      }
      var there := key[i.value];
      assert Sound(there);
      if !Compatible(there, k) {
        Pow2Mono(WORD - Before(there), WORD);
        Refused(key, i.value, k);
        return false;
      }
      Joined(key, i.value, k);
      key := key[i.value := Merged(there, k)];
      ok := true;
    }

    /** Takes the first `bits` bits into a key, if so much is left and the offset is a
        multiple of that size. */
    method TcMatch(bits: nat, r: Rest) returns (r': Option<Rest>)
      requires Valid() && RestSound(r) && IsSize(bits)
      modifies `key
      ensures Valid() && (r'.None? ==> |old(key)| + r.bytes > MAX_KEYS)
      ensures |key| + Left(r') <= |old(key)| + r.bytes
      ensures r'.Some? ==> Handled(old(key), r, key, r'.value, AfterPart(bits, At(r)))
    {
      if r.bytes < Bytes(bits) || !OnBoundary(bits, r.offset) { return Some(r); }
      WordWithin(r.value, r.mask);
      var ok, k := AddKey(bits, WordOf(r.value, TOP), WordOf(r.mask, TOP), r.offset);
      if ok.None? { return None; }
      r' := Some(Step(bits, r, ok.value));
      PartTaken(old(key), r, bits, k, ok.value, key, r'.value);
      PartHandled(old(key), r, key, r'.value, bits);
    }

    /** All whole words, at a word boundary. */
    method TcMatchWords(r: Rest) returns (r': Option<Rest>)
      requires Valid() && RestSound(r)
      modifies `key
      ensures Valid() && (r'.None? ==> |old(key)| + r.bytes > MAX_KEYS)
      ensures |key| + Left(r') <= |old(key)| + r.bytes
      ensures r'.Some? ==> Handled(old(key), r, key, r'.value, AfterWords(At(r)))
    {
      var s := r;
      while s.bytes > 3 && s.offset % 4 == 0
        invariant Valid() && RestSound(s) && Progress(old(key), r, key, s) && AfterWords(At(s)) == AfterWords(At(r))
        invariant |key| + s.bytes <= |old(key)| + r.bytes
        decreases s.bytes
      {
        ghost var before := key;
        var t := TcMatch(WORD, s);
        if t.None? { return None; }
        ProgressOn(old(key), r, before, s, key, t.value);
        OneWord(s.offset, s.bytes);
        s := t.value;
      }
      WordsDone(At(s));
      r' := Some(s);
    }

    method ThenWords(r: Rest, ghost keys: seq<Key>, ghost r0: Rest) returns (r': Option<Rest>)
      requires Valid() && Handled(keys, r0, key, r, At(r)) && |key| + r.bytes <= |keys| + r0.bytes
      modifies `key
      ensures Valid() && (r'.None? ==> |keys| + r0.bytes > MAX_KEYS) && |key| + Left(r') <= |keys| + r0.bytes
      ensures r'.Some? ==> Handled(keys, r0, key, r'.value, AfterWords(At(r)))
    {
      r' := TcMatchWords(r);
      if r'.Some? { ProgressOn(keys, r0, old(key), r, key, r'.value); }
    }

    method ThenPart(bits: nat, r: Rest, ghost keys: seq<Key>, ghost r0: Rest) returns (r': Option<Rest>)
      requires Valid() && Handled(keys, r0, key, r, At(r)) && IsSize(bits) && |key| + r.bytes <= |keys| + r0.bytes
      modifies `key
      ensures Valid() && (r'.None? ==> |keys| + r0.bytes > MAX_KEYS) && |key| + Left(r') <= |keys| + r0.bytes
      ensures r'.Some? ==> Handled(keys, r0, key, r'.value, AfterPart(bits, At(r)))
    {
      r' := TcMatch(bits, r);
      if r'.Some? { ProgressOn(keys, r0, old(key), r, key, r'.value); }
    }

    /** Words, half-words and bytes in a fixed order. */
    method TakeAll(r0: Rest) returns (r: Option<Rest>)
      requires Valid() && RestSound(r0)
      modifies `key
      ensures Valid() && (r.None? ==> |old(key)| + r0.bytes > MAX_KEYS) && |key| + Left(r) <= |old(key)| + r0.bytes
      ensures r.Some? ==> Handled(old(key), r0, key, r.value, AllParts(At(r0)))
    {
      r := ThenWords(r0, key, r0);
      if r.Some? { r := ThenPart(HALF, r.value, old(key), r0); }
      if r.Some? { r := ThenWords(r.value, old(key), r0); }
      if r.Some? { r := ThenPart(HALF, r.value, old(key), r0); }
      if r.Some? { r := ThenPart(BYTE, r.value, old(key), r0); }
      if r.Some? { r := ThenWords(r.value, old(key), r0); }
      if r.Some? { r := ThenPart(HALF, r.value, old(key), r0); }
      if r.Some? { r := ThenWords(r.value, old(key), r0); }
      if r.Some? { r := ThenPart(BYTE, r.value, old(key), r0); }
    }

    /** Makes keys of an equality, at most one for a byte. The answer is no if the packet
        cannot satisfy it together with the keys that were there. Fails for other terms, if
        the table is full, or if the sequence of attempts leaves bytes over. */
    method DumpEq(x: Term, c: nat) returns (ok: Option<bool>)
      requires Valid() && Sized(x) && WholeBytes(x) && c < Pow2(WIDTH)
      modifies `key
      ensures Valid()
      ensures KeyTest(x, c) && ok.Some? ==> EqualityAdded(old(key), x, c, ok.value, key)
      ensures KeyTest(x, c) && ok.None? ==> |old(key)| + TestBytes(x) > MAX_KEYS || Stuck(ChainBase(x).offset, ChainBase(x).size / 8)
      ensures |key| <= |old(key)| + TestBytes(x)
    {
      var m := GatherKeyMask(x);
      if m.None? { return None; }
      var a, mask := m.value.0, m.value.1;
      RelAccess.OutsideMask(mask, c, WIDTH);
      if And(c, Not(mask, WIDTH)) != 0 {
        if KeyTest(x, c) { NeverFound(key, x, c); }
        return Some(false);
      }
      var r0 := Rest(Low(Shl(c, WIDTH - a.size), WIDTH), Low(Shl(mask, WIDTH - a.size), WIDTH), a.offset, a.size / 8, true);
      BaseWhole(x);
      RestStart(c, mask, a.size, r0);
      var r := TakeAll(r0);
      if r.None? { return None; }
      AllPartsLeft(a.offset, a.size / 8);
      if r.value.bytes != 0 { return None; }
      ok := Some(r.value.useful);
      if KeyTest(x, c) { EqualityTaken(old(key), x, c, mask, r0, key, r.value); }
    }

    /** The keys as they are handed to the kernel: each with the bits it is about only. */
    method DumpMatch() returns (ms: seq<KeyMatch>)
      requires Valid()
      ensures ms != [] && forall env, group :: MatchesHold(env, group, ms) <==> KeysProper(env, group, key)
    {
      if key == [] {
        ms := [KeyMatch(32, 0, 0, 0)];
        EverythingMatches();
        return;
      }
      ms := [];
      for i := 0 to |key|
        invariant |ms| == i && forall j | 0 <= j < i :: SameAsked(key[j], ms[j])
      {
        assert Sound(key[i]);
        var shift: nat := 32 - key[i].bits - (key[i].orig - key[i].offset) * 8;
        var m := KeyMatch(key[i].bits, Shr(key[i].value, shift), Shr(key[i].mask, shift), key[i].orig);
        MatchFor(key[i], shift, m);
        ms := ms + [m];
      }
      MatchesAreKeys(key, ms);
    }

    /** A row of equalities. It is given up if no packet satisfies all of them. Matches can
        only be missing if the fields have more bytes than the table has room for keys, or
        offset and size of one of them are stuck. */
    method DumpRow(tests: seq<Test>, ghost group: int) returns (row: Option<Option<seq<KeyMatch>>>)
      requires forall i | 0 <= i < |tests| :: TypedTest(tests[i])
      modifies `key
      ensures Valid()
      ensures AllKeyTests(tests, group) && row.Some? ==> RowMatches(tests, group, row.value)
      ensures AllKeyTests(tests, group) && row.None? ==> RowBytes(tests) > MAX_KEYS || exists i :: 0 <= i < |tests| && StuckTest(tests[i])
    {
      key := [];
      ghost var good := AllKeyTests(tests, group);
      NoTests(group);
      for i := 0 to |tests|
        invariant Valid() && (good ==> TestsSoFar(tests[..i], group, key)) && |key| <= RowBytes(tests[..i])
      {
        ghost var before := key;
        assert TypedTest(tests[i]);
        NextBytes(tests, i);
        var ok := DumpEq(tests[i].x, tests[i].c);
        if good {
          assert IsKeyTest(tests[i], group);
          if ok.None? { assert RowBytes(tests) > MAX_KEYS || StuckTest(tests[i]); }
        }
        if ok.None? { return None; }
        if good { TestAdded(tests, i, group, before, ok.value, key); }
        if !ok.value { return Some(None); }
      }
      assert tests[..|tests|] == tests;
      var ms := DumpMatch();
      row := Some(Some(ms));
      if good { RowDone(tests, group, key, ms); }
    }
  }

  /** The access and the mask of a test. */
  method GatherKeyMask(x: Term) returns (r: Option<(Term, nat)>)
    requires Sized(x)
    ensures r.Some? <==> MaskChain(x)
    ensures r.Some? ==> r.value.0 == ChainBase(x) && r.value.1 == KeyMask(x) && r.value.1 < Pow2(WIDTH)
  {
    var a, mask: nat := x, Pow2(WIDTH) - 1;
    if MaskChain(x) { NoneStripped(x, WIDTH); }
    while a.MaskLeft? || a.MaskRight?
      invariant Sized(a) && mask < Pow2(WIDTH) && (MaskChain(x) <==> MaskChain(a)) && (x.Access? ==> a == x)
      invariant MaskChain(x) ==> ChainBase(x) == ChainBase(a) && Peeled(x, a, mask, WIDTH)
      decreases a
    {
      if MaskChain(x) { PeelOne(x, a, mask, WIDTH); }
      AndBelow(mask, a.mask);
      mask, a := And(mask, a.mask), a.x;
    }
    if !a.Access? { return None; }
    AllPeeled(x, a, mask, WIDTH);
    if x.Access? {
      DefaultMask(a.size, WIDTH - a.size);
      Pow2Mono(a.size, WIDTH);
      mask := Shr(Pow2(WIDTH) - 1, WIDTH - a.size);
    }
    r := Some((a, mask));
  }
}
