/** The way of a classifier from the compiler through a file to the matcher. */
module ExtTransfer {
  import opened Semantics
  import opened Rules
  import opened ExtText
  import opened ExtParse
  import opened ExtMatch
  import opened IflibBit
  import opened Combine
  import opened Expr
  import ExtDump
  import MaskedTests

  function LineText(l: Option<Rule>, lower: bool): string
    requires l.Some? ==> AllPrintable(l.value)
  {
    if l.None? then "barrier" else "match " + RuleText(l.value, lower)
  }

  /** The fields of a rule as text, each after a blank. */
  function FieldsText(fields: seq<Field>, lower: bool): string
    requires forall f | f in fields :: Printable(f)
  {
    if fields == [] then "" else " " + FieldText(fields[0], lower) + FieldsText(fields[1..], lower)
  }

  lemma Regroup(a: string, b: string, c: string)
    ensures (a + b) + c == a + (b + c)
  {}

  lemma {:induction false} FieldsTextPush(fields: seq<Field>, f: Field, lower: bool)
    requires Printable(f) && forall g | g in fields :: Printable(g)
    ensures FieldsText(fields + [f], lower) == FieldsText(fields, lower) + (" " + FieldText(f, lower))
    decreases |fields|
  {
    if fields == [] {
      assert fields + [f] == [f] && [f][1..] == [];
    } else {
      FieldsTextPush(fields[1..], f, lower);
      assert (fields + [f])[1..] == fields[1..] + [f] && (fields + [f])[0] == fields[0];
      Regroup(" " + FieldText(fields[0], lower), FieldsText(fields[1..], lower), " " + FieldText(f, lower));
    }
  }

  lemma Shift(blank: string, a: string, b: string, c: string, d: string)
    requires b + c == blank + d
    ensures (blank + a + b) + c == blank + (a + blank + d)
  {
    Regroup(blank + a, b, c);
    Regroup(blank, a, b + c);
    Regroup(a, blank, d);
  }

  lemma {:induction false} FieldsThenAction(r: Rule, lower: bool, end: string)
    requires AllPrintable(r) && end == " action " + Dec(r.action)
    ensures FieldsText(r.fields, lower) + end == " " + RuleText(r, lower)
    decreases |r.fields|
  {
    if r.fields != [] {
      var rest := Rule(r.fields[1..], r.action);
      FieldsThenAction(rest, lower, end);
      Shift(" ", FieldText(r.fields[0], lower), FieldsText(rest.fields, lower), end, RuleText(rest, lower));
    }
  }

  method PrintField(f: Field, lower: bool) returns (s: string)
    requires Printable(f)
    ensures s == FieldText(f, lower)
  {
    var digits;
    if lower { digits := PrintLower(f.vals); } else { digits := PrintUpper(f.vals); }
    s := Dec(f.group) + ":" + Dec(f.bit) + ":" + Dec(|f.vals|) + "=0x" + digits;
  }

  /** Writes a rule, in the one or the other style. */
  method PrintRule(r: Rule, lower: bool) returns (line: string)
    requires AllPrintable(r)
    ensures line == LineText(Some(r), lower)
  {
    var first := "match";
    line := first;
    for i := 0 to |r.fields|
      invariant line == first + FieldsText(r.fields[..i], lower)
    {
      var f := r.fields[i];
      assert f in r.fields;
      var text := PrintField(f, lower);
      FieldsTextPush(r.fields[..i], f, lower);
      assert r.fields[..i + 1] == r.fields[..i] + [f];
      Regroup(first, FieldsText(r.fields[..i], lower), " " + text);
      line := line + (" " + text);
    }
    var end := " action " + Dec(r.action);
    assert r.fields[..|r.fields|] == r.fields;
    WholeLine(r, lower, first, end);
    line := line + end;
  }

  lemma WholeLine(r: Rule, lower: bool, first: string, end: string)
    requires AllPrintable(r) && first == "match" && end == " action " + Dec(r.action)
    ensures (first + FieldsText(r.fields, lower)) + end == LineText(Some(r), lower)
  {
    FieldsThenAction(r, lower, end);
    Regroup(first, FieldsText(r.fields, lower), end);
    Regroup(first, " ", RuleText(r, lower));
    assert first + " " == "match ";
  }

  predicate Blank(c: char) { c == ' ' || c == '\t' || c == '\n' }

  predicate Word(w: string) { w != "" && forall i | 0 <= i < |w| :: !Blank(w[i]) }

  /** The line is a word, and more after a blank. */
  predicate Words(line: string, word: string, more: string) {
    Word(word) && (line == word + " " + more || (line == word && more == ""))
  }

  /** The first word of a line, and what follows the blank after it. */
  method FirstWord(line: string, ghost word: string, ghost more: string) returns (w: string, rest: string)
    ensures Words(line, word, more) ==> w == word && rest == more
  {
    var from := 0;
    while from < |line| && Blank(line[from])
      invariant 0 <= from <= |line| && forall i | 0 <= i < from :: Blank(line[i])
    {
      from := from + 1;
    }
    var to := from;
    while to < |line| && !Blank(line[to])
      invariant from <= to <= |line| && forall i | from <= i < to :: !Blank(line[i])
    {
      to := to + 1;
    }
    if Words(line, word, more) { WordFound(line, word, line[|word|..], from, to); }
    w, rest := line[from..to], if to < |line| then line[to + 1..] else "";
  }

  lemma WordFound(line: string, word: string, more: string, from: nat, to: nat)
    requires line == word + more && Word(word)
    requires more == "" || more[0] == ' '
    requires from <= to <= |line| && (forall i | 0 <= i < from :: Blank(line[i])) && (forall i | from <= i < to :: !Blank(line[i]))
    requires (from < |line| ==> !Blank(line[from])) && (to < |line| ==> Blank(line[to]))
    ensures from == 0 && to == |word| && line[from..to] == word && (more != "" ==> to < |line| && line[to + 1..] == more[1..])
  {
    assert line[0] == word[0];
    assert forall i | 0 <= i < |word| :: line[i] == word[i];
    assert more != "" ==> line[|word|] == more[0];
  }

  predicate PrintedAs(line: string, l: Option<Rule>, lower: bool) {
    (l.Some? ==> AllPrintable(l.value)) && line == LineText(l, lower)
  }

  lemma PrintedWords(line: string, r: Rule, lower: bool)
    requires PrintedAs(line, Some(r), lower)
    ensures Words(line, "match", RuleText(r, lower))
  {
    assert "match" + " " == "match ";
  }

  /** Reads a line of the file: a rule, or a barrier. */
  method ParseLine(line: string, ghost l: Option<Rule>, ghost lower: bool) returns (p: Option<Option<Parsed>>)
    ensures PrintedAs(line, l, lower) ==> p.Some? && ReadLine(p.value, l)
  {
    ghost var r := if l.Some? then l.value else Rule([], 0);
    ghost var rule := l.Some? && PrintedAs(line, l, lower);
    ghost var text := if rule then RuleText(r, lower) else "";
    if rule { PrintedWords(line, r, lower); }
    var w, rest := FirstWord(line, if rule then "match" else "barrier", text);
    if w == "match" {
      var q := ParseRule(rest, r, lower);
      if q.None? { return None; }
      p := Some(q);
    } else if w == "barrier" {
      p := Some(None);
    } else {
      p := None;
    }
  }

  /** Prints all lines and reads them back. */
  method Transfer(lines: seq<Option<Rule>>, lower: bool) returns (read: seq<Option<Parsed>>)
    requires forall i | 0 <= i < |lines| && lines[i].Some? :: AllPrintable(lines[i].value)
    ensures ReadLines(read, lines)
  {
    read := [];
    for i := 0 to |lines|
      invariant |read| == i && forall k | 0 <= k < i :: ReadLine(read[k], lines[k])
    {
      var text := "barrier";
      if lines[i].Some? { text := PrintRule(lines[i].value, lower); }
      var p := ParseLine(text, lines[i], lower);
      read := read + [p.value];
    }
  }

  /** The lines read were printed from these, and by them the matcher does what the
      filters say. */
  ghost predicate Deployed(table: seq<Action>, read: seq<Option<Parsed>>, lines: seq<Option<Rule>>, ifs: seq<If>, default: Decision) {
    ReadLines(read, lines) && forall env, h :: Interpret(table, lines, env, h) == Outcome(Verdict(ifs, default, env, h))
  }

  /** Filters, all about one offset group, as the matcher has them. By the lines read it
      takes the decision of the first filter that takes one. */
  method Deploy(ifs: seq<If>, default: Decision, group: int)
    returns (table: seq<Action>, read: seq<Option<Parsed>>, ghost lines: seq<Option<Rule>>)
    requires ifs != [] && group >= 0 && FiltersApart(ifs) && forall i | 0 <= i < |ifs| :: Negation.Fits(ifs[i].expr, group)
    ensures forall i | 0 <= i < |lines| && lines[i].Some? :: FieldsOf(lines[i].value.fields, group)
    ensures Deployed(table, read, lines, ifs, default)
  {
    var rules;
    table, rules := CompileFilters(ifs, default, group);
    var all := Lines([rules]);
    forall i | 0 <= i < |all| && all[i].Some? ensures FieldsOf(all[i].value.fields, group) && AllPrintable(all[i].value) {
      assert all[i].value == rules[i];
    }
    read := Transfer(all, true);
    lines := all;
    forall env, h ensures Interpret(table, lines, env, h) == Outcome(Verdict(ifs, default, env, h)) {
      BarriersTry(table, [rules], env, h);
      assert Classify(table, rules, env, h) == Outcome(Verdict(ifs, default, env, h));
    }
  }

  /** The bytes of a packet, classified by the lines read, come to what the filters say of
      them, if the matcher can look at all fields. */
  method ServePacket(groups: seq<OffsetGroup>, table: seq<Action>, read: seq<Option<Parsed>>, raw: seq<nat>, protocol: nat,
                     conf: (nat, nat) -> bool, h: Hist, ghost lines: seq<Option<Rule>>, ghost ifs: seq<If>, ghost default: Decision)
    returns (r: Option<Result>)
    requires Bytes(raw) && protocol < 0x1_0000 && Deployed(table, read, lines, ifs, default)
    requires forall i | 0 <= i < |lines| && lines[i].Some? :: RuleReadable(groups, lines[i].value, raw)
    ensures r.Some? ==> r.value == Outcome(Verdict(ifs, default, EnvOf(groups, raw, protocol, conf), h))
    ensures (forall i | 0 <= i < |lines| && lines[i].Some? :: RuleMatchable(groups, lines[i].value, raw)) ==> r.Some?
  {
    r := MatchPacket(groups, table, read, raw, protocol, conf, h, lines);
    assert Interpret(table, lines, EnvOf(groups, raw, protocol, conf), h) == Outcome(Verdict(ifs, default, EnvOf(groups, raw, protocol, conf), h));
  }

  /** Rows of tests and actions as the matcher has them. By the lines read it takes the
      decision of the first row whose tests hold, and leaves the packet to other filters
      if there is none. */
  method DeployRows(d: Expr, number: Expr -> nat, table: seq<Action>)
    returns (read: seq<Option<Parsed>>, ghost lines: seq<Option<Rule>>)
    requires MaskedTests.Typed(d) && ExtDump.Rows(d) && ExtDump.Numbered(table, number, d)
    ensures ReadLines(read, lines)
    ensures forall env, h :: Interpret(table, lines, env, h) == Returned(Outcome(Eval(d, env, h)))
  {
    var dumper := new ExtDump.Dumper();
    var ok := dumper.DumpOr(number, d, table);
    var rules := dumper.file;
    assert rules[0..] == rules;
    var all := Lines([rules]);
    forall i | 0 <= i < |all| && all[i].Some? ensures AllPrintable(all[i].value) {
      assert all[i].value == rules[i];
    }
    read := Transfer(all, false);
    lines := all;
    forall env, h ensures Interpret(table, lines, env, h) == Returned(Outcome(Eval(d, env, h))) {
      BarriersTry(table, [rules], env, h);
      assert Classify(table, rules, env, h) == Outcome(Eval(d, env, h));
    }
  }
}
