/** Classifying packets by the rules that were read. */
module ExtMatch {
  import opened Semantics
  import opened Bits
  import Expr
  import opened Rules
  import opened ExtText
  import opened ExtParse

  // ----- bits of byte strings -----

  /** Bit `n` of the data, the most significant bit of the first byte being bit 0. */
  predicate DataBit(data: seq<nat>, n: nat) {
    data != [] && if n < 8 then Bit(data[0], 7 - n) else DataBit(data[1..], n - 8)
  }

  /** `bits` bits from bit `start`, the first one most significant. */
  function DataValue(data: seq<nat>, start: nat, bits: nat): (v: nat)
    ensures v < Pow2(bits)
  {
    if bits == 0 then 0 else 2 * DataValue(data, start, bits - 1) + Digit(DataBit(data, start + bits - 1))
  }

  lemma {:induction false} DataJoin(data: seq<nat>, start: nat, n: nat, m: nat)
    ensures DataValue(data, start, n + m) == Join(DataValue(data, start, n), m, DataValue(data, start + n, m))
    decreases m
  {
    if m > 0 { DataJoin(data, start, n, m - 1); }
  }

  lemma ByteSize()
    ensures Pow2(BYTE) == 0x100
  {
    assert BYTE == 8;
    assert Pow2(8) == 0x100;
  }

  lemma {:induction false} LastBit(data: seq<nat>, i: nat, r: nat)
    requires i < |data| && r < 8
    ensures DataBit(data, 8 * i + r) == Bit(data[i], 7 - r)
    decreases i
  {
    if i > 0 { LastBit(data[1..], i - 1, r); }
  }

  /** Some bits of one byte. */
  lemma {:induction false} InByte(data: seq<nat>, i: nat, from: nat, n: nat, k: nat)
    requires i < |data| && from + n + k == 8
    ensures DataValue(data, 8 * i + from, n) == Low(Shr(data[i], k), n)
    decreases n
  {
    if n > 0 {
      InByte(data, i, from, n - 1, k + 1);
      ShrNext(data[i], k);
      LastBit(data, i, from + n - 1);
      BitShiftRight(data[i], k, 0);
    }
  }

  lemma WholeByte(data: seq<nat>, i: nat)
    requires i < |data| && data[i] < 0x100
    ensures DataValue(data, 8 * i, BYTE) == data[i]
  {
    InByte(data, i, 0, BYTE, 0);
    ByteSize();
    LowSmall(data[i], BYTE);
  }

  /** The bits up to the end of a byte, then whole bytes, and what is too much shifted
      out again. Fails when the bytes touched do not fit a word. */
  method ExtractBits(data: seq<nat>, start: nat, bits: nat) returns (res: Option<nat>)
    requires Bytes(data) && start / 8 < |data| && start + bits <= 8 * |data|
    ensures res == if bits + start % 8 > 32 then None else Some(DataValue(data, start, bits))
  {
    if bits + start % 8 > 32 { return None; }
    var x := Gather(data, start / 8, start % 8, bits, start);
    res := Some(x);
  }

  method Gather(data: seq<nat>, first: nat, s: nat, bits: nat, ghost start: nat) returns (x: nat)
    requires Bytes(data) && first < |data| && start + bits <= 8 * |data|
    requires start == 8 * first + s && s < 8 && bits + s <= 32
    ensures x == DataValue(data, start, bits)
  {
    var i: nat := first;
    var inFirst: nat := 8 - s;
    FirstByte(data, start, i, s, inFirst);
    x := And(data[i], Pow2(inFirst) - 1);
    var left: int := bits - inFirst;
    ghost var done: nat, k: nat := inFirst, 1;
    i := i + 1;
    while left > 0
      invariant left == bits - done && s + done == 8 * k && 8 * i == start + done && i <= |data| && k <= 4
      invariant x == DataValue(data, start, done)
    {
      ghost var more: nat := done + 8;
      x := AddByte(data, i, x, start, done, more);
      left, done, i, k := left - 8, more, i + 1, k + 1;
    }
    if left != 0 {
      Overshoot(data, start, bits, -left, done);
      x := Shr(x, -left);
    }
  }

  method AddByte(data: seq<nat>, i: nat, x: nat, ghost start: nat, ghost done: nat, ghost more: nat) returns (r: nat)
    requires Bytes(data) && i < |data| && start + done == 8 * i && x == DataValue(data, start, done)
    requires more == done + 8 && more <= 32
    ensures r == DataValue(data, start, more)
  {
    NextByte(data, start, done, i, x, more);
    r := Or(Low(Shl(x, BYTE), WORD), data[i]);
  }

  lemma FirstByte(data: seq<nat>, start: nat, i: nat, s: nat, n: nat)
    requires start == 8 * i + s && i < |data| && s + n == 8
    ensures And(data[i], Pow2(n) - 1) == DataValue(data, start, n)
  {
    LowMask(data[i], n);
    InByte(data, i, s, n, 0);
  }

  lemma Overshoot(data: seq<nat>, start: nat, bits: nat, more: nat, done: nat)
    requires done == bits + more
    ensures Shr(DataValue(data, start, done), more) == DataValue(data, start, bits)
  {
    DataJoin(data, start, bits, more);
    JoinParts(DataValue(data, start, bits), more, DataValue(data, start + bits, more));
  }

  lemma NextByte(data: seq<nat>, start: nat, done: nat, i: nat, x: nat, more: nat)
    requires Bytes(data) && i < |data| && start + done == 8 * i && x == DataValue(data, start, done)
    requires more == done + 8 && more <= WORD
    ensures Or(Low(Shl(x, BYTE), WORD), data[i]) == DataValue(data, start, more)
  {
    ByteMore(data, start, i, done, more);
    ByteSize();
    assert data[i] < Pow2(BYTE);
    ShiftFits(x, done);
    OrFields(x, data[i], BYTE);
  }

  /** 24 bits may be shifted by 8. */
  lemma ShiftFits(x: nat, n: nat)
    requires x < Pow2(n) && n + 8 <= WORD
    ensures Low(Shl(x, BYTE), WORD) == Shl(x, BYTE)
  {
    JoinBound(x, BYTE, 0, n);
    Pow2Mono(BYTE + n, WORD);
    LowSmall(Shl(x, BYTE), WORD);
  }

  // ----- the value of a match -----

  lemma ByteAppended(x: nat, y: nat)
    ensures Join(x, BYTE, y) == 0x100 * x + y
  {
    JoinIs(x, BYTE, y);
    ByteSize();
  }

  /** A byte more. */
  lemma ByteMore(data: seq<nat>, start: nat, k: nat, n: nat, m: nat)
    requires Bytes(data) && k < |data| && start + n == 8 * k && m == n + 8
    ensures DataValue(data, start, m) == Join(DataValue(data, start, n), BYTE, data[k])
  {
    assert data[k] < 0x100;
    WholeByte(data, k);
    DataJoin(data, start, n, BYTE);
    assert n + BYTE == m;
  }

  lemma NumberMore(data: seq<nat>, start: nat, k: nat, n: nat, m: nat, j: nat)
    requires Bytes(data) && k < |data| && start + n == 8 * k && m == n + 8 && j == k + 1
    requires DataValue(data, start, n) == NumBytes(data[..k])
    ensures DataValue(data, start, m) == NumBytes(data[..j])
  {
    ByteMore(data, start, k, n, m);
    ByteAppended(DataValue(data, start, n), data[k]);
    assert data[..j][..k] == data[..k];
    assert NumBytes(data[..j]) == 0x100 * NumBytes(data[..k]) + data[k];
  }

  lemma {:induction false} DataIsNumber(data: seq<nat>, start: nat, k: nat, n: nat)
    requires Bytes(data) && k <= |data| && n == 8 * k && start == 0
    ensures DataValue(data, start, n) == NumBytes(data[..k])
    decreases k
  {
    if k > 0 {
      DataIsNumber(data, start, k - 1, n - 8);
      NumberMore(data, start, k - 1, n - 8, n, k);
    } else {
      assert data[..k] == [];
    }
  }

  /** A number aligned to the right is found at the end. */
  lemma AlignedRight(data: seq<nat>, pad: nat, length: nat)
    requires Bytes(data) && pad + length == 8 * |data| && NumBytes(data) < Pow2(length)
    ensures DataValue(data, pad, length) == NumBytes(data)
  {
    DataIsNumber(data, 0, |data|, pad + length);
    assert data[..|data|] == data;
    DataJoin(data, 0, pad, length);
    JoinParts(DataValue(data, 0, pad), length, DataValue(data, pad, length));
    LowSmall(NumBytes(data), length);
  }

  function BitsFrom(data: seq<nat>, start: nat, n: nat): (b: seq<bool>)
    ensures |b| == n
  {
    seq(n, i requires 0 <= i < n => DataBit(data, start + i))
  }

  lemma {:induction false} ValueIsNumber(data: seq<nat>, start: nat, n: nat)
    ensures DataValue(data, start, n) == NumOf(BitsFrom(data, start, n))
    decreases n
  {
    if n > 0 {
      ValueIsNumber(data, start, n - 1);
      assert BitsFrom(data, start, n)[..n - 1] == BitsFrom(data, start, n - 1);
    }
  }

  /** Comparing numbers compares bits. */
  lemma ValueCompares(data: seq<nat>, start: nat, vals: seq<bool>)
    ensures DataValue(data, start, |vals|) == NumOf(vals) <==> forall i | 0 <= i < |vals| :: DataBit(data, start + i) == vals[i]
  {
    var b := BitsFrom(data, start, |vals|);
    ValueIsNumber(data, start, |vals|);
    if NumOf(b) == NumOf(vals) {
      NumOfInjective(b, vals);
      forall i | 0 <= i < |vals| ensures DataBit(data, start + i) == vals[i] { assert b[i] == vals[i]; }
    }
    if forall i | 0 <= i < |vals| :: DataBit(data, start + i) == vals[i] { assert b == vals; }
  }

  // ----- offset groups -----

  /** Where the bits of a group begin: at the base group, plus the value of a field,
      shifted. Groups are listed with the newest one first, and a group refers to groups
      there when it was read. */
  datatype OffsetGroup = OffsetGroup(number: int, base: int, fieldGroup: int, offset: nat, length: nat, shift: nat)

  /** The group of data that is not in the packet. */
  const META_FIELD_ROOT := 1

  /** The bit position of a group in a packet. There is none for data that is not in the
      packet and for groups that are not listed, or if the fields it depends on cannot be extracted. */
  function Position(groups: seq<OffsetGroup>, number: int, raw: seq<nat>): Option<nat> {
    if number == 0 then Some(0)
    else if number == META_FIELD_ROOT || groups == [] then None
    else if groups[0].number != number then Position(groups[1..], number, raw)
    else
      var g := groups[0];
      var base := Position(groups[1..], g.base, raw);
      var field := Position(groups[1..], g.fieldGroup, raw);
      Moved(base, field, g, raw)
  }

  /** The base position moved by the value of the field. */
  function Moved(base: Option<nat>, field: Option<nat>, g: OffsetGroup, raw: seq<nat>): Option<nat> {
    if base.None? || field.None? || TooWide(field.value + g.offset, g.length) then None
    else Some(Low(base.value + Low(Shl(DataValue(raw, field.value + g.offset, g.length), g.shift), WORD), WORD))
  }

  predicate TooWide(start: nat, bits: nat) { bits + start % 8 > 32 }

  /** The packet has the bits. */
  predicate HasBits(raw: seq<nat>, start: nat, bits: nat) { start / 8 < |raw| && start + bits <= 8 * |raw| }

  /** The packet has the fields the position of the group depends on. */
  predicate HasFields(groups: seq<OffsetGroup>, number: int, raw: seq<nat>) {
    if number == META_FIELD_ROOT || number == 0 || groups == [] then true
    else if groups[0].number != number then HasFields(groups[1..], number, raw)
    else
      var g := groups[0];
      var field := Position(groups[1..], g.fieldGroup, raw);
      && HasFields(groups[1..], g.base, raw) && HasFields(groups[1..], g.fieldGroup, raw)
      && (field.Some? ==> HasBits(raw, field.value + g.offset, g.length))
  }

  /** The position of a group, unless that cannot be computed. */
  method Offset(groups: seq<OffsetGroup>, number: int, raw: seq<nat>) returns (p: Option<nat>)
    requires Bytes(raw) && HasFields(groups, number, raw)
    ensures p == Position(groups, number, raw)
    decreases |groups|
  {
    if number == 0 { return Some(0); }
    if number == META_FIELD_ROOT || groups == [] { return None; }
    var g := groups[0];
    if g.number != number {
      p := Offset(groups[1..], number, raw);
      return;
    }
    var rest := groups[1..];
    assert HasFields(rest, g.base, raw) && HasFields(rest, g.fieldGroup, raw);
    var base := Offset(rest, g.base, raw);
    var field := Offset(rest, g.fieldGroup, raw);
    p := Move(base, field, g, raw);
  }

  method Move(base: Option<nat>, field: Option<nat>, g: OffsetGroup, raw: seq<nat>) returns (p: Option<nat>)
    requires Bytes(raw) && (field.Some? ==> HasBits(raw, field.value + g.offset, g.length))
    ensures p == Moved(base, field, g, raw)
  {
    if base.None? || field.None? { return None; }
    var x := ExtractBits(raw, field.value + g.offset, g.length);
    if x.None? { return None; }
    p := Some(Low(base.value + Low(Shl(x.value, g.shift), WORD), WORD));
  }

  // ----- one match -----

  /** The packet, its protocol number, and the meters, as rules see them. */
  function EnvOf(groups: seq<OffsetGroup>, raw: seq<nat>, protocol: nat, conf: (nat, nat) -> bool): Env {
    Env((g, n) => n >= 0 && PacketBit(groups, raw, protocol, g, n), conf)
  }

  predicate PacketBit(groups: seq<OffsetGroup>, raw: seq<nat>, protocol: nat, group: int, n: nat) {
    if group == META_FIELD_ROOT then n < 16 && Bit(protocol, 15 - n)
    else
      var p := Position(groups, group, raw);
      p.Some? && DataBit(raw, p.value + n)
  }

  // ----- where groups begin in packets -----

  predicate Listed(groups: seq<OffsetGroup>, number: int) {
    number == 0 || number == META_FIELD_ROOT || exists i :: 0 <= i < |groups| && groups[i].number == number
  }

  /** Every group has a number of its own and refers to groups listed after it. */
  predicate WellListed(groups: seq<OffsetGroup>) {
    groups == [] ||
    (var g, rest := groups[0], groups[1..];
     !Listed(rest, g.number) && Listed(rest, g.base) && Listed(rest, g.fieldGroup) && WellListed(rest))
  }

  lemma {:induction false} NewerAside(groups: seq<OffsetGroup>, i: nat, number: int, raw: seq<nat>)
    requires WellListed(groups) && i <= |groups| && Listed(groups[i..], number)
    ensures Position(groups, number, raw) == Position(groups[i..], number, raw)
    decreases i
  {
    if i == 0 {
      assert groups[i..] == groups;
    } else {
      assert groups[1..][i - 1..] == groups[i..];
      NewerAside(groups[1..], i - 1, number, raw);
      StillListed(groups, i, number);
    }
  }

  lemma StillListed(groups: seq<OffsetGroup>, i: nat, number: int)
    requires 0 < i <= |groups| && Listed(groups[i..], number)
    ensures Listed(groups[1..], number)
  {
    if number != 0 && number != META_FIELD_ROOT {
      var k :| 0 <= k < |groups[i..]| && groups[i..][k].number == number;
      assert groups[1..][i - 1 + k].number == number;
    }
  }

  lemma {:induction false} ListedAt(groups: seq<OffsetGroup>, i: nat)
    requires WellListed(groups) && i < |groups|
    ensures
      var g, rest := groups[i], groups[i + 1..];
      !Listed(rest, g.number) && Listed(rest, g.base) && Listed(rest, g.fieldGroup)
    decreases i
  {
    if i > 0 {
      ListedAt(groups[1..], i - 1);
      assert groups[1..][i..] == groups[i + 1..];
    }
  }

  lemma {:induction false} FieldIsData(env: Env, group: int, raw: seq<nat>, p: nat, offset: nat, length: nat)
    requires forall n: nat :: env.bit(group, n) == DataBit(raw, p + n)
    ensures Expr.FieldValue(env, group, offset, length) == DataValue(raw, p + offset, length)
    decreases length
  {
    if length > 0 { FieldIsData(env, group, raw, p, offset, length - 1); }
  }

  lemma EnvReads(groups: seq<OffsetGroup>, raw: seq<nat>, protocol: nat, conf: (nat, nat) -> bool, group: int)
    requires Position(groups, group, raw).Some?
    ensures group != META_FIELD_ROOT
    ensures forall n: nat :: EnvOf(groups, raw, protocol, conf).bit(group, n) == DataBit(raw, Position(groups, group, raw).value + n)
  {}

  /** Group 0 is the packet from its first bit on. */
  lemma PacketBits(groups: seq<OffsetGroup>, raw: seq<nat>, protocol: nat, conf: (nat, nat) -> bool, n: nat)
    ensures EnvOf(groups, raw, protocol, conf).bit(0, n) == DataBit(raw, n)
  {
    EnvReads(groups, raw, protocol, conf, 0);
  }

  /** The number the packet has in the field a group depends on. */
  function FieldNumber(groups: seq<OffsetGroup>, raw: seq<nat>, protocol: nat, conf: (nat, nat) -> bool, g: OffsetGroup): nat {
    Expr.FieldValue(EnvOf(groups, raw, protocol, conf), g.fieldGroup, g.offset, g.length)
  }

  /** A group is found exactly if its base is found, and its field is and lies within 32
      bits from a byte boundary. */
  lemma GroupFound(groups: seq<OffsetGroup>, i: nat, raw: seq<nat>)
    requires WellListed(groups) && i < |groups|
    ensures
      var g := groups[i];
      var base, field := Position(groups, g.base, raw), Position(groups, g.fieldGroup, raw);
      Position(groups, g.number, raw).Some? <==> base.Some? && field.Some? && (field.value + g.offset) % 8 + g.length <= 32
  {
    var g := groups[i];
    PositionAt(groups, i, raw);
    FieldStart(if Position(groups, g.fieldGroup, raw).Some? then Position(groups, g.fieldGroup, raw).value + g.offset else 0, g.length);
  }

  lemma FieldStart(start: nat, length: nat)
    ensures TooWide(start, length) <==> start % 8 + length > 32
  {}

  lemma PositionAt(groups: seq<OffsetGroup>, i: nat, raw: seq<nat>)
    requires WellListed(groups) && i < |groups|
    ensures
      var g := groups[i];
      Position(groups, g.number, raw) == Moved(Position(groups, g.base, raw), Position(groups, g.fieldGroup, raw), g, raw)
  {
    var g, from := groups[i], groups[i..];
    assert from[0] == g && from[1..] == groups[i + 1..];
    ListedAt(groups, i);
    NewerAside(groups, i, g.number, raw);
    NewerAside(groups, i + 1, g.base, raw);
    NewerAside(groups, i + 1, g.fieldGroup, raw);
  }

  /** The field counts from the beginning of its base, shifted. */
  lemma GroupStart(groups: seq<OffsetGroup>, i: nat, raw: seq<nat>, ahead: nat)
    requires WellListed(groups) && i < |groups| && Position(groups, groups[i].number, raw).Some?
    requires
      var g := groups[i];
      && Position(groups, g.base, raw).Some? && Position(groups, g.fieldGroup, raw).Some?
      && ahead == DataValue(raw, Position(groups, g.fieldGroup, raw).value + g.offset, g.length) * Pow2(g.shift)
      && Position(groups, g.base, raw).value + ahead < Pow2(WORD)
    ensures Position(groups, groups[i].number, raw).value == Position(groups, groups[i].base, raw).value + ahead
  {
    var g := groups[i];
    var base, field := Position(groups, g.base, raw).value, Position(groups, g.fieldGroup, raw).value;
    PositionAt(groups, i, raw);
    ShiftedFits(DataValue(raw, field + g.offset, g.length), g.shift, base);
  }

  /** The bits of a group are those of its base, as many bits further on as the field says,
      shifted: unless positions exceed 32 bits. */
  lemma GroupBits(groups: seq<OffsetGroup>, i: nat, raw: seq<nat>, protocol: nat, conf: (nat, nat) -> bool, ahead: nat, n: nat)
    requires WellListed(groups) && i < |groups| && Position(groups, groups[i].number, raw).Some?
    requires ahead == FieldNumber(groups, raw, protocol, conf, groups[i]) * Pow2(groups[i].shift)
    requires Position(groups, groups[i].base, raw).Some? && Position(groups, groups[i].base, raw).value + ahead < Pow2(WORD)
    ensures
      var g, env := groups[i], EnvOf(groups, raw, protocol, conf);
      env.bit(g.number, n) == env.bit(g.base, n + ahead)
  {
    var g := groups[i];
    GroupFound(groups, i, raw);
    NumberIsData(groups, raw, protocol, conf, g);
    GroupStart(groups, i, raw, ahead);
    SameBit(groups, raw, protocol, conf, g.number, g.base, ahead, n);
  }

  lemma NumberIsData(groups: seq<OffsetGroup>, raw: seq<nat>, protocol: nat, conf: (nat, nat) -> bool, g: OffsetGroup)
    requires Position(groups, g.fieldGroup, raw).Some?
    ensures FieldNumber(groups, raw, protocol, conf, g) == DataValue(raw, Position(groups, g.fieldGroup, raw).value + g.offset, g.length)
  {
    EnvReads(groups, raw, protocol, conf, g.fieldGroup);
    FieldIsData(EnvOf(groups, raw, protocol, conf), g.fieldGroup, raw, Position(groups, g.fieldGroup, raw).value, g.offset, g.length);
  }

  lemma SameBit(groups: seq<OffsetGroup>, raw: seq<nat>, protocol: nat, conf: (nat, nat) -> bool, a: int, b: int, ahead: nat, n: nat)
    requires Position(groups, a, raw).Some? && Position(groups, b, raw).Some?
    requires Position(groups, a, raw).value == Position(groups, b, raw).value + ahead
    ensures EnvOf(groups, raw, protocol, conf).bit(a, n) == EnvOf(groups, raw, protocol, conf).bit(b, n + ahead)
  {
    EnvReads(groups, raw, protocol, conf, a);
    EnvReads(groups, raw, protocol, conf, b);
  }

  lemma ShiftedFits(v: nat, shift: nat, base: nat)
    requires base + v * Pow2(shift) < Pow2(WORD)
    ensures Low(base + Low(Shl(v, shift), WORD), WORD) == base + v * Pow2(shift)
  {
    JoinIs(v, shift, 0);
    LowSmall(v * Pow2(shift), WORD);
    LowSmall(base + v * Pow2(shift), WORD);
  }

  /** Can the matcher look at the field? Of what is not in the packet there is only the
      protocol number; of the packet it looks at fields within 32 bits from a byte
      boundary. */
  predicate Matchable(groups: seq<OffsetGroup>, f: Field, raw: seq<nat>) {
    if f.group == META_FIELD_ROOT then f.bit == 0 && |f.vals| == 16
    else
      var p := Position(groups, f.group, raw);
      p.Some? && !TooWide(p.value + f.bit, |f.vals|)
  }

  /** The packet is long enough for the field. */
  predicate Readable(groups: seq<OffsetGroup>, f: Field, raw: seq<nat>) {
    var p := Position(groups, f.group, raw);
    f.group != META_FIELD_ROOT ==>
      HasFields(groups, f.group, raw) && (p.Some? ==> HasBits(raw, p.value + f.bit, |f.vals|))
  }

  /** The expected value of a match. */
  method Expected(m: Match, ghost f: Field) returns (v: Option<nat>)
    requires MatchOf(m, f) && f.vals != []
    ensures v == if |f.vals| > 32 then None else Some(NumOf(f.vals))
  {
    var pad: nat := (8 - m.length % 8) % 8;
    NumOfBound(f.vals);
    Padding(m.length, pad, |m.data|);
    v := ExtractBits(m.data, pad, m.length);
    if v.Some? { AlignedRight(m.data, pad, m.length); }
  }

  lemma Padding(length: nat, pad: nat, bytes: nat)
    requires length > 0 && pad == (8 - length % 8) % 8 && bytes == (length + 7) / 8
    ensures pad + length == 8 * bytes && pad < 8 && bytes > 0 && (length + pad % 8 > 32 <==> length > 32)
  {}

  /** Does the packet match? Fails if the matcher cannot tell. */
  method MatchOne(groups: seq<OffsetGroup>, m: Match, raw: seq<nat>, protocol: nat, ghost f: Field, ghost env: Env)
    returns (r: Option<bool>)
    requires Bytes(raw) && protocol < 0x1_0000 && MatchOf(m, f) && f.vals != [] && Readable(groups, f, raw)
    requires env == EnvOf(groups, raw, protocol, env.conf)
    ensures r == if Matchable(groups, f, raw) then Some(FieldHolds(f, env)) else None
  {
    if m.group == META_FIELD_ROOT {
      if m.bit != 0 || m.length != 16 { return None; }
      var v := Expected(m, f);
      ProtocolCompares(protocol, f, env);
      r := Some(protocol == v.value);
    } else {
      var p := Offset(groups, m.group, raw);
      if p.None? { return None; }
      var x := ExtractBits(raw, p.value + m.bit, m.length);
      if x.None? { return None; }
      var v := Expected(m, f);
      ValueCompares(raw, p.value + m.bit, f.vals);
      FieldInPacket(groups, f, raw, protocol, env, p.value);
      r := Some(x.value == v.value);
    }
  }

  lemma FieldInPacket(groups: seq<OffsetGroup>, f: Field, raw: seq<nat>, protocol: nat, env: Env, p: nat)
    requires f.group != META_FIELD_ROOT && Position(groups, f.group, raw) == Some(p)
    requires env == EnvOf(groups, raw, protocol, env.conf)
    ensures FieldHolds(f, env) <==> forall i | 0 <= i < |f.vals| :: DataBit(raw, p + f.bit + i) == f.vals[i]
  {
    if FieldHolds(f, env) {
      forall i | 0 <= i < |f.vals| ensures DataBit(raw, p + f.bit + i) == f.vals[i] {
        assert env.bit(f.group, f.bit + i) == f.vals[i];
      }
    } else {
      var i :| 0 <= i < |f.vals| && env.bit(f.group, f.bit + i) != f.vals[i];
      assert DataBit(raw, p + f.bit + i) != f.vals[i];
    }
  }

  lemma {:induction false} NumOfBit(vals: seq<bool>, i: nat)
    requires i < |vals|
    ensures Bit(NumOf(vals), |vals| - 1 - i) == vals[i]
    decreases |vals|
  {
    if i < |vals| - 1 { NumOfBit(vals[..|vals| - 1], i); }
  }

  lemma ProtocolCompares(protocol: nat, f: Field, env: Env)
    requires protocol < 0x1_0000 && f.group == META_FIELD_ROOT && f.bit == 0 && |f.vals| == 16
    requires forall k: nat | k < 16 :: env.bit(META_FIELD_ROOT, 15 - k) == Bit(protocol, k)
    ensures FieldHolds(f, env) <==> protocol == NumOf(f.vals)
  {
    forall k: nat | k < 16 ensures Bit(NumOf(f.vals), k) == f.vals[15 - k] { NumOfBit(f.vals, 15 - k); }
    if protocol == NumOf(f.vals) {
      forall i | 0 <= i < 16 ensures env.bit(f.group, f.bit + i) == f.vals[i] {
        var k: nat := 15 - i;
        assert env.bit(META_FIELD_ROOT, 15 - k) == Bit(protocol, k);
      }
    }
    if FieldHolds(f, env) {
      NumOfBound(f.vals);
      ProtocolSize();
      forall k: nat | k < 16 ensures Bit(protocol, k) == Bit(NumOf(f.vals), k) {
        var i: nat := 15 - k;
        assert env.bit(f.group, f.bit + i) == f.vals[i];
        assert 15 - i == k && env.bit(META_FIELD_ROOT, 15 - k) == Bit(protocol, k);
      }
      SameBits(protocol, NumOf(f.vals), |f.vals|);
    }
  }

  lemma ProtocolSize()
    ensures Pow2(16) == 0x1_0000
  {
    Pow2Add(8, 8);
    assert Pow2(8) == 0x100;
  }

  // ----- rules and barriers -----

  /** What a decision of an action is to the caller: going on with other filters if
      there is none. */
  function Returned(r: Result): Result {
    if r.verdict.None? then Result(Some(Continue), r.hist) else r
  }

  predicate Final(r: Result) { r.verdict.Some? && r.verdict.value != Continue }

  /** The lines after the next barrier. */
  function AfterBarrier(lines: seq<Option<Rule>>): seq<Option<Rule>> {
    if lines == [] then [] else if lines[0].None? then lines[1..] else AfterBarrier(lines[1..])
  }

  lemma {:induction false} AfterBarrierShorter(lines: seq<Option<Rule>>)
    ensures |AfterBarrier(lines)| <= |lines| && (lines != [] ==> |AfterBarrier(lines)| < |lines|)
  {
    if lines != [] && lines[0].Some? { AfterBarrierShorter(lines[1..]); }
  }

  /** Rules are tried in order. One that matches decides, unless it leaves the packet to
      the rules after the next barrier. */
  function Interpret(table: seq<Action>, lines: seq<Option<Rule>>, env: Env, h: Hist): Result
    decreases |lines|
  {
    if lines == [] then Result(Some(Continue), h)
    else if lines[0].Some? && FieldsHold(lines[0].value.fields, env) then
      var r := Perform(table, lines[0].value.action, env, h);
      AfterBarrierShorter(lines);
      if Final(r) then r else Interpret(table, AfterBarrier(lines), env, r.hist)
    else Interpret(table, lines[1..], env, h)
  }

  /** The lines of several blocks of rules, with barriers between them. */
  function Lines(blocks: seq<seq<Rule>>): seq<Option<Rule>> {
    if blocks == [] then []
    else if |blocks| == 1 then Block(blocks[0])
    else Block(blocks[0]) + [None] + Lines(blocks[1..])
  }

  function Block(rules: seq<Rule>): (b: seq<Option<Rule>>)
    ensures |b| == |rules|
  {
    seq(|rules|, i requires 0 <= i < |rules| => Some(rules[i]))
  }

  /** Trying one classifier after the other until one takes a decision. */
  function TryAll(table: seq<Action>, blocks: seq<seq<Rule>>, env: Env, h: Hist): Result {
    if blocks == [] then Result(Some(Continue), h)
    else
      var r := Classify(table, blocks[0], env, h);
      if Final(r) then r else TryAll(table, blocks[1..], env, r.hist)
  }

  lemma {:induction false} PastBlock(rules: seq<Rule>, more: seq<Option<Rule>>)
    requires more == [] || more[0].None?
    ensures AfterBarrier(Block(rules) + more) == AfterBarrier(more)
    decreases |rules|
  {
    if rules == [] {
      assert Block(rules) + more == more;
    } else {
      PastBlock(rules[1..], more);
      assert (Block(rules) + more)[1..] == Block(rules[1..]) + more;
    }
  }

  lemma {:induction false} OneBlock(table: seq<Action>, rules: seq<Rule>, more: seq<Option<Rule>>, env: Env, h: Hist)
    requires more == [] || more[0].None?
    ensures
      var r := Classify(table, rules, env, h);
      Interpret(table, Block(rules) + more, env, h) == if Final(r) then r else Interpret(table, AfterBarrier(more), env, r.hist)
    decreases |rules|
  {
    var lines := Block(rules) + more;
    if rules == [] {
      assert lines == more;
    } else if FieldsHold(rules[0].fields, env) {
      PastBlock(rules, more);
    } else {
      OneBlock(table, rules[1..], more, env, h);
      assert lines[1..] == Block(rules[1..]) + more;
    }
  }

  /** Blocks separated by barriers are tried like classifiers one after the other. */
  lemma {:induction false} BarriersTry(table: seq<Action>, blocks: seq<seq<Rule>>, env: Env, h: Hist)
    ensures Interpret(table, Lines(blocks), env, h) == TryAll(table, blocks, env, h)
    decreases |blocks|
  {
    if |blocks| == 1 {
      OneBlock(table, blocks[0], [], env, h);
      assert Block(blocks[0]) + [] == Block(blocks[0]);
      assert TryAll(table, blocks[1..], env, Classify(table, blocks[0], env, h).hist) == Result(Some(Continue), Classify(table, blocks[0], env, h).hist);
    } else if |blocks| > 1 {
      var more := [None] + Lines(blocks[1..]);
      OneBlock(table, blocks[0], more, env, h);
      assert Lines(blocks) == Block(blocks[0]) + more && more[1..] == Lines(blocks[1..]);
      BarriersTry(table, blocks[1..], env, Classify(table, blocks[0], env, h).hist);
    }
  }

  // ----- the matcher -----

  /** The lines read are those printed. */
  ghost predicate ReadLine(p: Option<Parsed>, l: Option<Rule>) {
    if p.None? then l.None? else l.Some? && ParsedOf(p.value, l.value)
  }

  ghost predicate ReadLines(read: seq<Option<Parsed>>, lines: seq<Option<Rule>>) {
    |read| == |lines| && forall i | 0 <= i < |lines| :: ReadLine(read[i], lines[i])
  }

  predicate RuleMatchable(groups: seq<OffsetGroup>, r: Rule, raw: seq<nat>) {
    forall f | f in r.fields :: Matchable(groups, f, raw)
  }

  predicate RuleReadable(groups: seq<OffsetGroup>, r: Rule, raw: seq<nat>) {
    forall f | f in r.fields :: f.vals != [] && Readable(groups, f, raw)
  }

  /** The matches of a rule, up to the first that fails. */
  method MatchAll(groups: seq<OffsetGroup>, p: Parsed, raw: seq<nat>, protocol: nat, ghost rule: Rule, ghost env: Env)
    returns (r: Option<bool>)
    requires Bytes(raw) && protocol < 0x1_0000 && env == EnvOf(groups, raw, protocol, env.conf)
    requires ParsedOf(p, rule) && RuleReadable(groups, rule, raw)
    ensures r.Some? ==> r.value == FieldsHold(rule.fields, env)
    ensures RuleMatchable(groups, rule, raw) ==> r.Some?
  {
    for i := 0 to |p.matches|
      invariant forall k | 0 <= k < i :: FieldHolds(rule.fields[k], env)
    {
      ghost var f := rule.fields[i];
      assert f in rule.fields && MatchOf(p.matches[i], f);
      var one := MatchOne(groups, p.matches[i], raw, protocol, f, env);
      if one.None? { return None; }
      if !one.value { return Some(false); }
    }
    r := Some(true);
  }

  lemma Ahead<T>(lines: seq<T>, i: nat)
    requires i < |lines|
    ensures lines[i..] != [] && lines[i..][0] == lines[i] && lines[i..][1..] == lines[i + 1..]
  {}

  /** Goes to the next barrier, or to the end. */
  method SkipRules(read: seq<Option<Parsed>>, from: nat, ghost lines: seq<Option<Rule>>) returns (i: nat)
    requires ReadLines(read, lines) && from <= |read|
    ensures from <= i <= |read| && AfterBarrier(lines[i..]) == AfterBarrier(lines[from..])
    ensures i < |read| ==> lines[i].None?
  {
    i := from;
    while i < |read| && read[i].Some?
      invariant from <= i <= |read| && AfterBarrier(lines[i..]) == AfterBarrier(lines[from..])
    {
      assert ReadLine(read[i], lines[i]);
      Ahead(lines, i);
      i := i + 1;
    }
    if i < |read| { assert ReadLine(read[i], lines[i]); }
  }

  /** Classifies a packet. If the matcher can look at all fields, the outcome is what the
      printed lines say. */
  method MatchPacket(groups: seq<OffsetGroup>, table: seq<Action>, read: seq<Option<Parsed>>, raw: seq<nat>, protocol: nat,
                     conf: (nat, nat) -> bool, h: Hist, ghost lines: seq<Option<Rule>>)
    returns (r: Option<Result>)
    requires Bytes(raw) && protocol < 0x1_0000 && ReadLines(read, lines)
    requires forall i | 0 <= i < |lines| && lines[i].Some? :: RuleReadable(groups, lines[i].value, raw)
    ensures r.Some? ==> r.value == Interpret(table, lines, EnvOf(groups, raw, protocol, conf), h)
    ensures (forall i | 0 <= i < |lines| && lines[i].Some? :: RuleMatchable(groups, lines[i].value, raw)) ==> r.Some?
  {
    var env := EnvOf(groups, raw, protocol, conf);
    var i, counts := 0, h;
    while i < |read|
      invariant 0 <= i <= |read|
      invariant Interpret(table, lines, env, h) == Interpret(table, lines[i..], env, counts)
    {
      assert ReadLine(read[i], lines[i]);
      Ahead(lines, i);
      if read[i].Some? {
        var all := MatchAll(groups, read[i].value, raw, protocol, lines[i].value, env);
        if all.None? { return None; }
        if all.value {
          var done := Perform(table, read[i].value.action, env, counts);
          if done.verdict.Some? && done.verdict.value != Continue { return Some(done); }
          counts := done.hist;
          i := SkipRules(read, i, lines);
          if i == |read| { break; }
          Ahead(lines, i);
        }
      }
      i := i + 1;
    }
    r := Some(Result(Some(Continue), counts));
  }
}
