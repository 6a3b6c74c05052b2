/** Reading the text of rules back. */
module ExtParse {
  import opened Semantics
  import opened Bits
  import opened Rules
  import opened ExtText

  // ----- numbers, as `%i` of `sscanf` reads them -----

  predicate InBase(c: char, base: nat) { IsHex(c) && Nibble(c) < base }

  function ScanBase(s: string, base: nat, acc: nat): (nat, string) {
    if s != "" && InBase(s[0], base) then ScanBase(s[1..], base, base * acc + Nibble(s[0])) else (acc, s)
  }

  function SkipBlanks(s: string): string {
    if s != "" && (s[0] == ' ' || s[0] == '\t' || s[0] == '\n') then SkipBlanks(s[1..]) else s
  }

  /** A number with its base shown by its first digits. */
  function ScanUnsigned(s: string): Option<(nat, string)> {
    if s == "" || !IsDigit(s[0]) then None
    else if s[0] == '0' then
      if |s| >= 3 && (s[1] == 'x' || s[1] == 'X') && IsHex(s[2]) then Some(ScanBase(s[2..], 16, 0))
      else Some(ScanBase(s[1..], 8, 0))
    else Some(ScanBase(s, 10, 0))
  }

  function ScanInt(s: string): Option<(int, string)> {
    var t := SkipBlanks(s);
    var sign := t != "" && (t[0] == '-' || t[0] == '+');
    var u := ScanUnsigned(if sign then t[1..] else t);
    if u.None? then None else Some((if sign && t[0] == '-' then -(u.value.0 as int) else u.value.0, u.value.1))
  }

  /** No number goes on with this. */
  predicate Stops(s: string) { s == "" || !(IsHex(s[0]) || s[0] == 'x' || s[0] == 'X') }

  lemma {:induction false} ScanDec(n: nat, rest: string)
    ensures ScanBase(Dec(n) + rest, 10, 0) == ScanBase(rest, 10, n)
    decreases n
  {
    if n < 10 {
      assert (Dec(n) + rest)[1..] == rest;
    } else {
      var last := [Decimal(n % 10)] + rest;
      assert Dec(n) + rest == Dec(n / 10) + last;
      ScanDec(n / 10, last);
      assert last[1..] == rest;
    }
  }

  lemma {:induction false} DecFirst(n: nat)
    ensures Dec(n) != "" && IsDigit(Dec(n)[0]) && (n > 0 ==> Dec(n)[0] != '0')
    decreases n
  {
    if n >= 10 { DecFirst(n / 10); }
  }

  /** A number printed is the number read. */
  lemma ScanPrinted(n: nat, rest: string)
    requires Stops(rest)
    ensures ScanInt(Dec(n) + rest) == Some((n as int, rest))
  {
    DecFirst(n);
    ScanDec(n, rest);
    if n == 0 { assert (Dec(0) + rest)[1..] == rest; }
  }

  // ----- match fields -----

  /** A match as it is read: the bits to look at, and the expected value in bytes,
      aligned to the right. */
  datatype Match = Match(group: int, bit: int, length: int, data: seq<nat>)

  function NumBytes(data: seq<nat>): nat {
    if data == [] then 0 else 0x100 * NumBytes(data[..|data| - 1]) + data[|data| - 1]
  }

  predicate Bytes(data: seq<nat>) { forall i | 0 <= i < |data| :: data[i] < 0x100 }

  function HexValue(s: string): nat
    requires forall i | 0 <= i < |s| :: IsHex(s[i])
  {
    if s == "" then 0 else 16 * HexValue(s[..|s| - 1]) + Nibble(s[|s| - 1])
  }

  predicate AllHex(s: string) { forall i | 0 <= i < |s| :: IsHex(s[i]) }

  lemma {:induction false} HexValueFixed(x: nat, k: nat)
    requires x < Pow2(4 * k)
    ensures AllHex(FixedHex(x, k)) && HexValue(FixedHex(x, k)) == x && |FixedHex(x, k)| == k
    decreases k
  {
    if k > 0 {
      assert Pow2(4 * k) == 16 * Pow2(4 * (k - 1)) by { Pow2Add(4, 4 * (k - 1)); assert Pow2(4) == 16; }
      HexValueFixed(x / 16, k - 1);
      NibbleDigit(x % 16, true);
      assert FixedHex(x, k)[..k - 1] == FixedHex(x / 16, k - 1);
    }
  }

  lemma {:induction false} HexValuePlain(x: nat)
    ensures AllHex(PlainHex(x)) && HexValue(PlainHex(x)) == x && PlainHex(x) != ""
    ensures forall k: nat | x < Pow2(4 * k) && k > 0 :: |PlainHex(x)| <= k
    decreases x
  {
    NibbleDigit(x % 16, false);
    assert Pow2(4) == 16;
    if x < 16 {
      assert PlainHex(x)[..0] == "";
    } else {
      HexValuePlain(x / 16);
      var s := PlainHex(x);
      assert s[..|s| - 1] == PlainHex(x / 16);
      forall k: nat | x < Pow2(4 * k) && k > 0 ensures |s| <= k {
        Pow2Add(4, 4 * (k - 1));
        assert x / 16 < Pow2(4 * (k - 1));
      }
    }
  }

  function ScanField(line: string): Option<(int, int, int, string)> {
    var a := ScanInt(line);
    if a.None? || a.value.1 == "" || a.value.1[0] != ':' then None else
    var b := ScanInt(a.value.1[1..]);
    if b.None? || b.value.1 == "" || b.value.1[0] != ':' then None else
    var c := ScanInt(b.value.1[1..]);
    if c.None? then None else Some((a.value.0, b.value.0, c.value.0, c.value.1))
  }

  /** Packs the digits into the last bytes of the data. An odd first digit has a byte of
      its own. */
  method PackDigits(digits: string, bytes: nat) returns (data: seq<nat>)
    requires AllHex(digits) && |digits| <= 2 * bytes
    ensures |data| == bytes && Bytes(data) && NumBytes(data) == HexValue(digits)
  {
    data := seq(bytes, _ => 0);
    var nibbles := |digits|;
    var p := bytes - (nibbles + 1) / 2;
    var walk := 0;
    ZeroBytes(data[..p]);
    assert digits[..0] == "";
    if nibbles % 2 == 1 {
      data := data[p := Nibble(digits[0])];
      PutByte(data, p, digits, 0);
      p, walk, nibbles := p + 1, 1, nibbles - 1;
    }
    while nibbles > 0
      invariant nibbles % 2 == 0 && nibbles == |digits| - walk && walk <= |digits| && p + nibbles / 2 == bytes
      invariant |data| == bytes && Bytes(data) && NumBytes(data[..p]) == HexValue(digits[..walk])
    {
      ghost var before := data;
      data := data[p := 16 * Nibble(digits[walk]) + Nibble(digits[walk + 1])];
      assert data[..p] == before[..p];
      PutPair(data, p, digits, walk);
      p, walk, nibbles := p + 1, walk + 2, nibbles - 2;
    }
    assert data[..p] == data && digits[..walk] == digits;
  }

  lemma {:induction false} ZeroBytes(data: seq<nat>)
    requires forall i | 0 <= i < |data| :: data[i] == 0
    ensures NumBytes(data) == 0
    decreases |data|
  {
    if data != [] { ZeroBytes(data[..|data| - 1]); }
  }

  lemma PutByte(data: seq<nat>, p: nat, digits: string, walk: nat)
    requires p < |data| && AllHex(digits) && walk < |digits|
    requires NumBytes(data[..p]) == 0 && walk == 0 && data[p] == Nibble(digits[0])
    ensures NumBytes(data[..p + 1]) == HexValue(digits[..1])
  {
    assert data[..p + 1][..p] == data[..p];
    assert digits[..1][..0] == "";
  }

  lemma PutPair(data: seq<nat>, p: nat, digits: string, walk: nat)
    requires p < |data| && AllHex(digits) && walk + 1 < |digits|
    requires NumBytes(data[..p]) == HexValue(digits[..walk])
    requires data[p] == 16 * Nibble(digits[walk]) + Nibble(digits[walk + 1])
    ensures NumBytes(data[..p + 1]) == HexValue(digits[..walk + 2])
  {
    assert data[..p + 1][..p] == data[..p];
    assert digits[..walk + 2][..walk + 1] == digits[..walk + 1] && digits[..walk + 1][..walk] == digits[..walk];
  }

  /** The match a field stands for. */
  ghost predicate MatchOf(m: Match, f: Field) {
    && m.group == f.group && m.bit == f.bit && m.length == |f.vals|
    && |m.data| == (m.length + 7) / 8 && Bytes(m.data) && NumBytes(m.data) == NumOf(f.vals)
  }

  // ----- the text of fields and rules -----

  function Digits(vals: seq<bool>, lower: bool): string {
    if lower then PlainHex(NumOf(vals)) else FixedHex(NumOf(vals), Nibbles(|vals|))
  }

  predicate Printable(f: Field) { f.group >= 0 && f.vals != [] }

  function FieldHead(f: Field): string
    requires Printable(f)
  {
    Dec(f.group) + ":" + Dec(f.bit) + ":" + Dec(|f.vals|)
  }

  function FieldText(f: Field, lower: bool): string
    requires Printable(f)
  {
    FieldHead(f) + "=0x" + Digits(f.vals, lower)
  }

  /** What follows `match` and a blank. */
  function RuleText(r: Rule, lower: bool): string
    requires forall f | f in r.fields :: Printable(f)
    decreases |r.fields|
  {
    if r.fields == [] then "action " + Dec(r.action)
    else FieldText(r.fields[0], lower) + " " + RuleText(Rule(r.fields[1..], r.action), lower)
  }

  lemma DigitsRead(vals: seq<bool>, lower: bool)
    requires vals != []
    ensures var d := Digits(vals, lower);
      AllHex(d) && d != "" && HexValue(d) == NumOf(vals) && |d| <= 2 * ((|vals| + 7) / 8)
  {
    NumOfBound(vals);
    Pow2Mono(|vals|, 4 * Nibbles(|vals|));
    if lower { HexValuePlain(NumOf(vals)); } else { HexValueFixed(NumOf(vals), Nibbles(|vals|)); }
  }

  lemma HeadRead(f: Field, rest: string)
    requires Printable(f) && Stops(rest)
    ensures ScanField(FieldHead(f) + rest) == Some((f.group, f.bit, |f.vals|, rest))
  {
    var c := Dec(|f.vals|) + rest;
    var b := Dec(f.bit) + (":" + c);
    assert FieldHead(f) + rest == Dec(f.group) + (":" + b);
    ScanPrinted(f.group, ":" + b);
    assert (":" + b)[1..] == b;
    ScanPrinted(f.bit, ":" + c);
    assert (":" + c)[1..] == c;
    ScanPrinted(|f.vals|, rest);
  }

  /** Leading zeros do not change a value. */
  lemma {:induction false} ZerosAside(s: string, n: nat)
    requires AllHex(s) && n <= |s| && forall i | 0 <= i < n :: s[i] == '0'
    ensures AllHex(s[n..]) && HexValue(s[n..]) == HexValue(s)
    decreases |s|
  {
    if |s| > n {
      ZerosAside(s[..|s| - 1], n);
      assert s[n..][..|s| - n - 1] == s[..|s| - 1][n..];
    } else if s != "" {
      assert s[n..] == "";
      ZerosAside(s[..|s| - 1], n - 1);
      assert s[..|s| - 1][n - 1..] == "";
    } else {
      assert s[n..] == s;
    }
  }

  /** Reads one match: the field, and the value, of which leading zeros are skipped. A
      printed field is read as the match it stands for. */
  method ParseMatch(line: string, ghost f: Field, ghost lower: bool, ghost after: string) returns (m: Option<Match>, rest: string)
    ensures m.Some? ==> |rest| < |line|
    ensures Printable(f) && line == FieldText(f, lower) + after && Stops(after) ==> m.Some? && MatchOf(m.value, f) && rest == after
  {
    var field := ScanField(line);
    if Printable(f) && line == FieldText(f, lower) + after && Stops(after) {
      assert line == FieldHead(f) + ("=0x" + (Digits(f.vals, lower) + after));
      HeadRead(f, "=0x" + (Digits(f.vals, lower) + after));
      DigitsRead(f.vals, lower);
    }
    if field.None? || |field.value.3| < 3 || field.value.3[..3] != "=0x" { return None, line; }
    ShorterField(line);
    m, rest := ParseValue(field.value.0, field.value.1, field.value.2, field.value.3[3..], f, Digits(f.vals, lower), after);
  }

  lemma {:induction false} ShorterScan(s: string, base: nat, acc: nat)
    ensures |ScanBase(s, base, acc).1| <= |s|
    decreases |s|
  {
    if s != "" && InBase(s[0], base) { ShorterScan(s[1..], base, base * acc + Nibble(s[0])); }
  }

  lemma {:induction false} ShorterBlanks(s: string)
    ensures |SkipBlanks(s)| <= |s|
    decreases |s|
  {
    if s != "" && (s[0] == ' ' || s[0] == '\t' || s[0] == '\n') { ShorterBlanks(s[1..]); }
  }

  lemma ShorterInt(s: string)
    ensures ScanInt(s).Some? ==> |ScanInt(s).value.1| <= |s|
  {
    ShorterBlanks(s);
    var t := SkipBlanks(s);
    var u := if t != "" && (t[0] == '-' || t[0] == '+') then t[1..] else t;
    if |u| >= 2 { ShorterScan(u[2..], 16, 0); }
    if u != "" { ShorterScan(u[1..], 8, 0); }
    ShorterScan(u, 10, 0);
  }

  lemma ShorterField(line: string)
    ensures ScanField(line).Some? ==> |ScanField(line).value.3| <= |line|
  {
    var a := ScanInt(line);
    ShorterInt(line);
    if a.Some? && a.value.1 != "" {
      ShorterInt(a.value.1[1..]);
      var b := ScanInt(a.value.1[1..]);
      if b.Some? && b.value.1 != "" { ShorterInt(b.value.1[1..]); }
    }
  }

  /** The text of the value of `f`, with something after it that does not belong to it. */
  ghost predicate ValueText(text: string, f: Field, digits: string, after: string) {
    && Printable(f) && text == digits + after && Stops(after)
    && AllHex(digits) && HexValue(digits) == NumOf(f.vals) && |digits| <= 2 * ((|f.vals| + 7) / 8)
  }

  method ParseValue(group: int, bit: int, length: int, text: string, ghost f: Field, ghost digits: string, ghost after: string)
    returns (m: Option<Match>, rest: string)
    ensures m.Some? ==> |rest| <= |text|
    ensures group == f.group && bit == f.bit && length == |f.vals| && ValueText(text, f, digits, after) ==>
      m.Some? && MatchOf(m.value, f) && rest == after
  {
    var pos := 0;
    while pos < |text| && text[pos] == '0'
      invariant 0 <= pos <= |text| && forall i | 0 <= i < pos :: text[i] == '0'
    {
      pos := pos + 1;
    }
    var walk := pos;
    while walk < |text| && IsHex(text[walk])
      invariant pos <= walk <= |text| && forall i | 0 <= i < walk :: IsHex(text[i])
    {
      walk := walk + 1;
    }
    if ValueText(text, f, digits, after) { ValueEnds(text, f, digits, after, pos, walk); }
    if length < 0 || walk - pos > 2 * ((length + 7) / 8) { return None, text; }
    assert AllHex(text[pos..walk]);
    var data := PackDigits(text[pos..walk], (length + 7) / 8);
    m, rest := Some(Match(group, bit, length, data)), text[walk..];
  }

  lemma ValueEnds(text: string, f: Field, digits: string, after: string, pos: nat, walk: nat)
    requires ValueText(text, f, digits, after) && pos <= walk <= |text|
    requires (forall i | 0 <= i < pos :: text[i] == '0') && (forall i | 0 <= i < walk :: IsHex(text[i]))
    requires walk < |text| ==> !IsHex(text[walk])
    ensures walk == |digits| && text[walk..] == after
    ensures AllHex(text[pos..walk]) && HexValue(text[pos..walk]) == NumOf(f.vals) && walk - pos <= 2 * ((|f.vals| + 7) / 8)
  {
    assert text[..|digits|] == digits && text[|digits|..] == after;
    assert forall i | 0 <= i < |digits| :: text[i] == digits[i];
    assert after != "" ==> text[|digits|] == after[0];
    assert text[pos..walk] == digits[pos..];
    ZerosAside(digits, pos);
  }

  // ----- rules -----

  datatype Parsed = Parsed(matches: seq<Match>, action: int)

  /** The rule read has the matches of the fields of the rule printed. */
  ghost predicate ParsedOf(p: Parsed, r: Rule) {
    && |p.matches| == |r.fields| && p.action == r.action
    && forall i | 0 <= i < |r.fields| :: MatchOf(p.matches[i], r.fields[i])
  }

  function ScanAction(line: string): Option<int> {
    var t := SkipBlanks(line);
    if |t| < 6 || t[..6] != "action" then None
    else
      var n := ScanInt(t[6..]);
      if n.Some? then Some(n.value.0) else None
  }

  lemma ActionRead(n: nat)
    ensures ScanAction("action " + Dec(n)) == Some(n as int) && !IsDigit(("action " + Dec(n))[0])
  {
    var line := "action " + Dec(n);
    assert line[..6] == "action" && line[6..] == " " + Dec(n);
    var t := " " + Dec(n);
    assert t[1..] == Dec(n) + "";
    DecFirst(n);
    assert SkipBlanks(t) == Dec(n);
    assert SkipBlanks(Dec(n)) == Dec(n);
    ScanPrinted(n, "");
  }

  lemma FieldStarts(r: Rule, lower: bool)
    requires r.fields != [] && forall f | f in r.fields :: Printable(f)
    ensures var t := RuleText(r, lower); t != "" && IsDigit(t[0])
  {
    var f := r.fields[0];
    assert f in r.fields && Printable(f);
    DecFirst(f.group);
  }

  predicate AllPrintable(r: Rule) { forall f | f in r.fields :: Printable(f) }

  /** Reads the rest of a line that began with `match`. A printed rule is read as the
      rule it was printed from. */
  method ParseRule(text: string, ghost r: Rule, ghost lower: bool) returns (p: Option<Parsed>)
    ensures AllPrintable(r) && text == RuleText(r, lower) ==> p.Some? && ParsedOf(p.value, r)
  {
    var matches, line := [], text;
    ghost var printed := AllPrintable(r) && text == RuleText(r, lower);
    ghost var left := r.fields;
    while line != "" && IsDigit(line[0])
      invariant printed ==> ReadSoFar(matches, left, r, line, lower)
      decreases |line|
    {
      if printed && left == [] { ActionRead(r.action); }
      ghost var f := if left == [] then Field(0, 0, []) else left[0];
      ghost var after := if left == [] || !printed then "" else " " + RuleText(Rule(left[1..], r.action), lower);
      var m, rest := ParseMatch(line, f, lower, after);
      if printed && left != [] { OneField(left, r, line, lower, after); }
      if m.None? || rest == "" { return None; }
      ghost var before := matches;
      matches, line := matches + [m.value], rest[1..];
      if printed && left != [] { assert after[1..] == RuleText(Rule(left[1..], r.action), lower); }
      left := if left == [] then [] else left[1..];
    }
    if printed && left != [] { FieldStarts(Rule(left, r.action), lower); }
    ActionRead(r.action);
    var action := ScanAction(line);
    if action.None? { return None; }
    p := Some(Parsed(matches, action.value));
  }

  /** The matches read belong to the first fields, and the line holds the others. */
  ghost predicate ReadSoFar(matches: seq<Match>, left: seq<Field>, r: Rule, line: string, lower: bool) {
    && |matches| + |left| == |r.fields| && left == r.fields[|matches|..]
    && (forall f | f in left :: Printable(f)) && line == RuleText(Rule(left, r.action), lower)
    && forall i | 0 <= i < |matches| :: MatchOf(matches[i], r.fields[i])
  }

  lemma OneField(left: seq<Field>, r: Rule, line: string, lower: bool, after: string)
    requires left != [] && (forall f | f in left :: Printable(f)) && line == RuleText(Rule(left, r.action), lower)
    requires after == " " + RuleText(Rule(left[1..], r.action), lower)
    ensures line == FieldText(left[0], lower) + after && Stops(after) && after != ""
  {
    assert FieldText(left[0], lower) + " " + RuleText(Rule(left[1..], r.action), lower) == FieldText(left[0], lower) + after;
  }
}
