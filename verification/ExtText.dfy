/** Rules as text: the two ways they are printed, and how they are read back. */
module ExtText {
  import opened Bits

  // ----- numbers in text -----

  function Decimal(d: nat): char
    requires d < 10
  {
    '0' + d as char
  }

  /** `%d` of a number that is not negative. */
  function Dec(n: nat): string {
    if n < 10 then [Decimal(n)] else Dec(n / 10) + [Decimal(n % 10)]
  }

  function HexDigit(d: nat, upper: bool): char
    requires d < 16
  {
    if d < 10 then '0' + d as char else (if upper then 'A' else 'a') + (d - 10) as char
  }

  /** All `k` hexadecimal digits. */
  function FixedHex(x: nat, k: nat): string
    decreases k
  {
    if k == 0 then "" else FixedHex(x / 16, k - 1) + [HexDigit(x % 16, true)]
  }

  /** `%x`: digits from the first that is not zero on. */
  function PlainHex(x: nat): string {
    if x < 16 then [HexDigit(x, false)] else PlainHex(x / 16) + [HexDigit(x % 16, false)]
  }

  predicate IsDigit(c: char) { '0' <= c <= '9' }

  predicate IsHex(c: char) { IsDigit(c) || 'a' <= c <= 'f' || 'A' <= c <= 'F' }

  /** The value of a hexadecimal digit. */
  function Nibble(c: char): (v: int)
    ensures IsHex(c) ==> 0 <= v < 16
  {
    if c >= 'a' then c as int - 'a' as int + 10
    else if c >= 'A' then c as int - 'A' as int + 10
    else c as int - '0' as int
  }

  lemma NibbleDigit(d: nat, upper: bool)
    requires d < 16
    ensures IsHex(HexDigit(d, upper)) && Nibble(HexDigit(d, upper)) == d && (HexDigit(d, upper) == '0' <==> d == 0)
  {}

  // ----- values of a match field -----

  /** The bits as a number, the first one most significant. */
  function NumOf(vals: seq<bool>): nat {
    if vals == [] then 0 else 2 * NumOf(vals[..|vals| - 1]) + Digit(vals[|vals| - 1])
  }

  lemma NumOfLast(vals: seq<bool>, v: bool)
    ensures NumOf(vals + [v]) == 2 * NumOf(vals) + Digit(v)
  {
    assert (vals + [v])[..|vals|] == vals;
  }

  lemma {:induction false} NumOfBound(vals: seq<bool>)
    ensures NumOf(vals) < Pow2(|vals|)
    decreases |vals|
  {
    if vals != [] { NumOfBound(vals[..|vals| - 1]); }
  }

  lemma {:induction false} NumOfInjective(a: seq<bool>, b: seq<bool>)
    requires |a| == |b| && NumOf(a) == NumOf(b)
    ensures a == b
    decreases |a|
  {
    if a != [] {
      var k := |a| - 1;
      assert 2 * NumOf(a[..k]) + Digit(a[k]) == 2 * NumOf(b[..k]) + Digit(b[k]);
      assert Digit(a[k]) == Digit(b[k]) && NumOf(a[..k]) == NumOf(b[..k]);
      NumOfInjective(a[..k], b[..k]);
      assert a == a[..k] + [a[k]] && b == b[..k] + [b[k]];
    }
  }

  function Nibbles(n: nat): nat { (n + 3) / 4 }

  /** The weight of bit `r` of a nibble. */
  function Place(r: nat): nat { if r == 0 then 1 else if r == 1 then 2 else if r == 2 then 4 else 8 }

  /** The bits so far, `num`, are those of the complete nibbles, `whole`, and `m` of the
      one begun, which takes `r` more. */
  ghost predicate Split4(num: nat, r: nat, whole: nat, m: nat, nibble: nat) {
    if r == 0 then num == whole && nibble == m == 0
    else if r == 1 then num == 8 * whole + m && m < 8 && nibble == 2 * m
    else if r == 2 then num == 4 * whole + m && m < 4 && nibble == 4 * m
    else r == 3 && num == 2 * whole + m && m < 2 && nibble == 8 * m
  }

  /** A bit more. It completes a nibble, adds to the one begun, or begins one. */
  lemma BitMore(num: nat, r: nat, whole: nat, m: nat, nibble: nat, v: bool)
    requires r < 4 && Split4(num, r, whole, m, nibble)
    ensures
      var r' := if r == 0 then 3 else r - 1;
      var b := nibble + if v then Place(r') else 0;
      && b < 16
      && if r == 1 then 2 * num + Digit(v) == 16 * whole + b else Split4(2 * num + Digit(v), r', whole, 2 * m + Digit(v), b)
  {}

  lemma Remaining(n: nat, q: int, r: int)
    requires n == 4 * q + r && 0 <= r < 4
    ensures n % 4 == r && q >= 0
  {}

  /** Sets bit `place` of the nibble, which is still clear, as are those below it. */
  method SetBit(nibble: nat, v: bool, place: nat, ghost m: nat) returns (b: nat)
    requires place < 4
    requires if place == 0 then nibble == 2 * m else if place == 1 then nibble == 4 * m
      else if place == 2 then nibble == 8 * m else nibble == 0
    ensures b == nibble + if v then Place(place) else 0
  {
    b := nibble;
    if v {
      b := Or(nibble, Place(place));
      if place == 0 { OrOne(nibble); } else if place == 1 { OrTwo(nibble); } else if place == 2 { OrFour(nibble); }
    }
  }

  lemma OrOne(x: nat)
    requires x % 2 == 0
    ensures Or(x, 1) == x + 1
  {
    OrTwice(x / 2, 0, 0, 1);
    OrZero(x / 2);
  }

  lemma OrTwo(x: nat)
    requires x % 4 == 0
    ensures Or(x, 2) == x + 2
  {
    OrOne(x / 2);
    OrTwice(x / 2, 1, 0, 0);
  }

  lemma OrFour(x: nat)
    requires x % 8 == 0
    ensures Or(x, 4) == x + 4
  {
    OrTwo(x / 2);
    OrTwice(x / 2, 2, 0, 0);
  }

  lemma OrTwice(a: nat, b: nat, d: nat, e: nat)
    requires d == 0 && e <= 1
    ensures Or(2 * a + d, 2 * b + e) == 2 * Or(a, b) + e
  {
    assert (2 * b + e) / 2 == b && (2 * b + e) % 2 == e;
  }

  /** The digits of a field as `if_ext` prints them: upper case, all of them. */
  method PrintUpper(vals: seq<bool>) returns (s: string)
    ensures s == FixedHex(NumOf(vals), Nibbles(|vals|))
  {
    s := "";
    var length: nat, nibble: nat := |vals|, 0;
    var scan: nat := 0;
    ghost var num: nat, whole: nat, m: nat, k: nat, r: nat, q: nat := 0, 0, 0, 0, |vals| % 4, |vals| / 4;
    while length > 0
      invariant length == 4 * q + r && r < 4 && scan + length == |vals|
      invariant k + q + (if r == 0 then 0 else 1) == Nibbles(|vals|)
      invariant num == NumOf(vals[..scan]) && Split4(num, r, whole, m, nibble) && s == FixedHex(whole, k)
    {
      length := length - 1;
      var place := length % 4;
      ghost var r', q' := if r == 0 then 3 else r - 1, if r == 0 then q - 1 else q;
      Remaining(length, q', r');
      BitMore(num, r, whole, m, nibble, vals[scan]);
      nibble := SetBit(nibble, vals[scan], place, m);
      NextBit(vals, scan);
      num, m, r, q := 2 * num + Digit(vals[scan]), 2 * m + Digit(vals[scan]), r', q';
      if place == 0 {
        UpperMore(whole, k, nibble);
        s := s + [HexDigit(nibble, true)];
        whole, k, nibble, m := 16 * whole + nibble, k + 1, 0, 0;
      }
      scan := scan + 1;
    }
    assert vals[..scan] == vals;
  }

  lemma NextBit(vals: seq<bool>, i: nat)
    requires i < |vals|
    ensures NumOf(vals[..i + 1]) == 2 * NumOf(vals[..i]) + Digit(vals[i])
  {
    assert vals[..i + 1] == vals[..i] + [vals[i]];
    NumOfLast(vals[..i], vals[i]);
  }

  lemma UpperMore(x: nat, k: nat, d: nat)
    requires d < 16
    ensures FixedHex(16 * x + d, k + 1) == FixedHex(x, k) + [HexDigit(d, true)]
  {
    assert (16 * x + d) / 16 == x && (16 * x + d) % 16 == d;
  }

  /** What `%x` has been asked for so far: nothing for zero. */
  function Significant(x: nat): string { if x == 0 then "" else PlainHex(x) }

  lemma LowerMore(x: nat, d: nat)
    requires d < 16
    ensures Significant(16 * x + d) == if x == 0 && d == 0 then "" else Significant(x) + [HexDigit(d, false)]
  {
    assert (16 * x + d) / 16 == x && (16 * x + d) % 16 == d;
  }

  /** The digits as `iflib_bit` prints them: lower case, without leading zeros. */
  method PrintLower(vals: seq<bool>) returns (s: string)
    ensures s == PlainHex(NumOf(vals))
  {
    s := "";
    var curr: nat, first := 0, true;
    var i: nat := 0;
    ghost var num: nat, whole: nat, m: nat, r: nat, q: nat := 0, 0, 0, |vals| % 4, |vals| / 4;
    while i < |vals|
      invariant i <= |vals| && |vals| - i == 4 * q + r && r < 4
      invariant num == NumOf(vals[..i]) && Split4(num, r, whole, m, curr)
      invariant (first <==> whole == 0) && s == Significant(whole)
    {
      var inNibble := (|vals| - (i + 1)) % 4;
      ghost var r', q' := if r == 0 then 3 else r - 1, if r == 0 then q - 1 else q;
      Remaining(|vals| - (i + 1), q', r');
      BitMore(num, r, whole, m, curr, vals[i]);
      curr := SetBit(curr, vals[i], inNibble, m);
      NextBit(vals, i);
      num, m, r, q := 2 * num + Digit(vals[i]), 2 * m + Digit(vals[i]), r', q';
      if inNibble == 0 {
        LowerMore(whole, curr);
        whole, m := 16 * whole + curr, 0;
        if curr != 0 || !first {
          s := s + [HexDigit(curr, false)];
          first, curr := false, 0;
        }
      }
      i := i + 1;
    }
    assert vals[..i] == vals;
    if first { s := s + "0"; }
  }
}
