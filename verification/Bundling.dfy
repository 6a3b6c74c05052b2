/** Sharing of what consecutive rows of an `||` begin with. */
module Bundling {
  import opened Semantics
  import opened Expr
  import opened Actions
  import opened Normalize

  // ----- rows of a matrix -----

  type Row = seq<Expr>

  /** The `&&` chain of the cells, with `last` behind them. */
  function AndsThen(cells: Row, last: Expr): Expr
    decreases |cells|
  {
    if cells == [] then last else LAnd(cells[0], AndsThen(cells[1..], last))
  }

  function Ands(cells: Row): Expr
    requires cells != []
    decreases |cells|
  {
    if |cells| == 1 then cells[0] else LAnd(cells[0], Ands(cells[1..]))
  }

  predicate Rows(rows: seq<Row>) { forall i | 0 <= i < |rows| :: rows[i] != [] }

  /** The `||` chain of the rows, with `last` behind them. */
  function OrsThen(rows: seq<Row>, last: Expr): Expr
    requires Rows(rows)
    decreases |rows|
  {
    if rows == [] then last else LOr(Ands(rows[0]), OrsThen(rows[1..], last))
  }

  function Ors(rows: seq<Row>): Expr
    requires Rows(rows) && rows != []
    decreases |rows|
  {
    if |rows| == 1 then Ands(rows[0]) else LOr(Ands(rows[0]), Ors(rows[1..]))
  }

  lemma {:induction false} AndsAppend(p: Row, q: Row)
    requires q != []
    ensures Ands(p + q) == AndsThen(p, Ands(q))
    decreases |p|
  {
    if p == [] {
      assert p + q == q;
    } else {
      assert (p + q)[1..] == p[1..] + q;
      AndsAppend(p[1..], q);
    }
  }

  lemma {:induction false} OrsAppend(p: seq<Row>, q: seq<Row>)
    requires Rows(p) && Rows(q) && q != []
    ensures Rows(p + q) && Ors(p + q) == OrsThen(p, Ors(q))
    decreases |p|
  {
    if p == [] {
      assert p + q == q;
    } else {
      assert (p + q)[1..] == p[1..] + q && (p + q)[0] == p[0];
      OrsAppend(p[1..], q);
    }
  }

  lemma {:induction false} OrsThenAppend(p: seq<Row>, q: seq<Row>, last: Expr)
    requires Rows(p) && Rows(q)
    ensures Rows(p + q) && OrsThen(p + q, last) == OrsThen(p, OrsThen(q, last))
    decreases |p|
  {
    if p == [] {
      assert p + q == q;
    } else {
      assert (p + q)[1..] == p[1..] + q && (p + q)[0] == p[0];
      OrsThenAppend(p[1..], q, last);
    }
  }

  function RowOf(d: Expr): (cells: Row)
    ensures cells != []
    decreases d
  {
    if d.LAnd? then [d.a] + RowOf(d.b) else [d]
  }

  /** The cells of an `||` chain of `&&` chains. */
  function MatrixOf(d: Expr): (rows: seq<Row>)
    ensures Rows(rows) && rows != []
    decreases d
  {
    if d.LOr? then [RowOf(d.a)] + MatrixOf(d.b) else [RowOf(d)]
  }

  lemma {:induction false} AndsOfRow(d: Expr)
    ensures Ands(RowOf(d)) == d
    decreases d
  {
    if d.LAnd? {
      assert RowOf(d)[1..] == RowOf(d.b);
      AndsOfRow(d.b);
    }
  }

  /** Nothing is lost in the matrix. */
  lemma {:induction false} OrsOfMatrix(d: Expr)
    ensures Ors(MatrixOf(d)) == d
    decreases d
  {
    if d.LOr? {
      assert MatrixOf(d)[1..] == MatrixOf(d.b);
      AndsOfRow(d.a);
      OrsOfMatrix(d.b);
    } else {
      AndsOfRow(d);
    }
  }

  method MakeRow(d: Expr) returns (cells: Row)
    ensures cells == RowOf(d)
  {
    var and := d;
    cells := [];
    while and.LAnd?
      invariant cells + RowOf(and) == RowOf(d)
      decreases and
    {
      assert cells + RowOf(and) == cells + [and.a] + RowOf(and.b);
      cells, and := cells + [and.a], and.b;
    }
    cells := cells + [and];
  }

  method MakeMatrix(d: Expr) returns (rows: seq<Row>)
    ensures rows == MatrixOf(d)
  {
    var or := d;
    rows := [];
    while or.LOr?
      invariant rows + MatrixOf(or) == MatrixOf(d)
      decreases or
    {
      var row := MakeRow(or.a);
      assert rows + MatrixOf(or) == rows + [row] + MatrixOf(or.b);
      rows, or := rows + [row], or.b;
    }
    var row := MakeRow(or);
    rows := rows + [row];
  }

  // ----- meaning and size of chains -----

  lemma {:induction false} AndsThenMeans(p: Row, x: Expr)
    requires p != []
    ensures SameMeaning(AndsThen(p, x), LAnd(Ands(p), x))
    decreases |p|
  {
    if |p| > 1 {
      AndsThenMeans(p[1..], x);
      CongruentAnd(p[0], p[0], AndsThen(p[1..], x), LAnd(Ands(p[1..]), x));
      Associates(p[0], Ands(p[1..]), x);
      SameMeaningTrans(AndsThen(p, x), LAnd(p[0], LAnd(Ands(p[1..]), x)), LAnd(Ands(p), x));
    } else {
      assert AndsThen(p, x) == LAnd(p[0], AndsThen(p[1..], x));
    }
  }

  lemma {:induction false} OrsThenMeans(rows: seq<Row>, x: Expr)
    requires Rows(rows) && rows != []
    ensures SameMeaning(OrsThen(rows, x), LOr(Ors(rows), x))
    decreases |rows|
  {
    if |rows| > 1 {
      var first, rest := Ands(rows[0]), Ors(rows[1..]);
      OrsThenMeans(rows[1..], x);
      CongruentOr(first, first, OrsThen(rows[1..], x), LOr(rest, x));
      Associates(first, rest, x);
      SameMeaningTrans(OrsThen(rows, x), LOr(first, LOr(rest, x)), LOr(Ors(rows), x));
    } else {
      assert OrsThen(rows, x) == LOr(Ands(rows[0]), OrsThen(rows[1..], x));
    }
  }

  lemma {:induction false} OrsThenCongruent(rows: seq<Row>, x: Expr, y: Expr)
    requires Rows(rows) && SameMeaning(x, y)
    ensures SameMeaning(OrsThen(rows, x), OrsThen(rows, y))
    decreases |rows|
  {
    if rows != [] {
      OrsThenCongruent(rows[1..], x, y);
      CongruentOr(Ands(rows[0]), Ands(rows[0]), OrsThen(rows[1..], x), OrsThen(rows[1..], y));
    }
  }

  lemma {:induction false} AndsThenNodes(p: Row, x: Expr, y: Expr)
    ensures Nodes(AndsThen(p, x)) + Nodes(y) == Nodes(AndsThen(p, y)) + Nodes(x)
    ensures Nodes(AndsThen(p, x)) >= Nodes(x) && (p != [] ==> Nodes(AndsThen(p, x)) > Nodes(x))
    decreases |p|
  {
    if p != [] { AndsThenNodes(p[1..], x, y); }
  }

  lemma {:induction false} OrsThenNodes(rows: seq<Row>, x: Expr, y: Expr)
    requires Rows(rows)
    ensures Nodes(OrsThen(rows, x)) + Nodes(y) == Nodes(OrsThen(rows, y)) + Nodes(x)
    ensures Nodes(OrsThen(rows, x)) >= Nodes(x) && (rows != [] ==> Nodes(OrsThen(rows, x)) > Nodes(x))
    decreases |rows|
  {
    if rows != [] { OrsThenNodes(rows[1..], x, y); }
  }

  lemma {:induction false} AndsFree(cells: Row)
    requires cells != [] && CountFree(Ands(cells))
    ensures forall i | 0 <= i < |cells| :: CountFree(cells[i])
    decreases |cells|
  {
    if |cells| > 1 {
      AndsFree(cells[1..]);
      assert forall i | 1 <= i < |cells| :: cells[i] == cells[1..][i - 1];
    }
  }

  lemma {:induction false} CellsFree(cells: Row)
    requires cells != [] && forall i | 0 <= i < |cells| :: CountFree(cells[i])
    ensures CountFree(Ands(cells))
    decreases |cells|
  {
    if |cells| > 1 { CellsFree(cells[1..]); }
  }

  lemma {:induction false} OrsFree(rows: seq<Row>)
    requires Rows(rows) && rows != [] && CountFree(Ors(rows))
    ensures forall i | 0 <= i < |rows| :: CountFree(Ands(rows[i]))
    decreases |rows|
  {
    if |rows| > 1 {
      OrsFree(rows[1..]);
      assert forall i | 1 <= i < |rows| :: rows[i] == rows[1..][i - 1];
    }
  }

  // ----- blocks -----

  /** Consecutive rows that begin with the same cells. */
  predicate Block(rows: seq<Row>, from: nat, ors: nat, ands: nat) {
    && from + ors <= |rows| && ors >= 2 && ands >= 1
    && (forall i | from <= i < from + ors :: |rows[i]| >= ands)
    && (forall i | from <= i < from + ors :: rows[i][..ands] == rows[from][..ands])
  }

  predicate Longer(rows: seq<Row>, ands: nat) { forall i | 0 <= i < |rows| :: |rows[i]| > ands }

  function Tails(rows: seq<Row>, ands: nat): (tails: seq<Row>)
    requires Longer(rows, ands)
    ensures Rows(tails) && |tails| == |rows|
  {
    seq(|rows|, i requires 0 <= i < |rows| => rows[i][ands..])
  }

  /** What `bundle_ors` makes of rows, without their first cells: the chain from the
      end on, nothing if the last one has no more cells, and an operator with an
      operand missing if only another one has none. */
  datatype Piece = Missing | Piece(d: Expr) | Mistyped

  function OrsFrom(rows: seq<Row>, ands: nat, add: Option<Expr>): Piece
    requires forall i | 0 <= i < |rows| :: ands <= |rows[i]|
  {
    if add.None? && (rows == [] || |rows[|rows| - 1]| == ands) then Missing
    else if !Longer(rows, ands) then Mistyped
    else if add.Some? then Piece(OrsThen(Tails(rows, ands), add.value))
    else Piece(Ors(Tails(rows, ands)))
  }

  /** The row that stands for a block. */
  function Bundled(rows: seq<Row>, from: nat, ors: nat, ands: nat): Option<Expr>
    requires Block(rows, from, ors, ands)
  {
    match OrsFrom(rows[from..from + ors], ands, None)
    case Missing => Some(Ands(rows[from][..ands]))
    case Piece(d) => Some(AndsThen(rows[from][..ands], d))
    case Mistyped => None
  }

  function Behind(rows: seq<Row>, end: nat, d: Expr): Expr
    requires Rows(rows) && end <= |rows|
  {
    if end == |rows| then d else LOr(d, Ors(rows[end..]))
  }

  /** All rows, with one in place of the block; none if operands are missing. */
  function Rebuilt(rows: seq<Row>, from: nat, ors: nat, ands: nat): Option<Expr>
    requires Rows(rows) && Block(rows, from, ors, ands)
  {
    match Bundled(rows, from, ors, ands)
    case None => None
    case Some(d) => Some(OrsThen(rows[..from], Behind(rows, from + ors, d)))
  }

  function EndOf<T>(s: seq<T>, from: nat, count: Option<nat>): nat {
    if count.None? then |s| else from + count.value
  }

  predicate Within<T>(s: seq<T>, from: nat, count: Option<nat>) { from <= EndOf(s, from, count) <= |s| }

  function Span<T>(s: seq<T>, from: nat, count: Option<nat>): seq<T>
    requires Within(s, from, count)
  {
    if count.None? then s[from..] else s[from..EndOf(s, from, count)]
  }

  lemma SpanEnds<T>(s: seq<T>, from: nat, count: Option<nat>)
    requires Within(s, from, count)
    ensures Span(s, from, count) == s[from..EndOf(s, from, count)]
  {}

  lemma OneCell(cells: Row, j: nat)
    requires j < |cells|
    ensures cells[j..j + 1] == [cells[j]]
  {}

  /** The cells from `from` on, `ands` of them or all, in front of `add`. */
  method BundleAnds(cells: Row, from: nat, ands: Option<nat>, add: Option<Expr>) returns (d: Option<Expr>)
    requires Within(cells, from, ands)
    ensures add.Some? ==> d == Some(AndsThen(Span(cells, from, ands), add.value))
    ensures add.None? ==> d == if Span(cells, from, ands) == [] then None else Some(Ands(Span(cells, from, ands)))
  {
    var end := EndOf(cells, from, ands);
    SpanEnds(cells, from, ands);
    if add.None? && end == from { return None; }
    var j := end;
    var tmp;
    if add.None? {
      j := end - 1;
      tmp := cells[j];
      OneCell(cells, j);
    } else {
      tmp := add.value;
    }
    while j > from
      invariant from <= j <= end && (add.None? ==> j < end)
      invariant tmp == if add.Some? then AndsThen(cells[j..end], add.value) else Ands(cells[j..end])
    {
      j := j - 1;
      assert cells[j..end][0] == cells[j] && cells[j..end][1..] == cells[j + 1..end];
      tmp := LAnd(cells[j], tmp);
    }
    return Some(tmp);
  }

  lemma OrsFromFront(row: Row, rows: seq<Row>, ands: nat, add: Option<Expr>)
    requires ands <= |row| && (forall i | 0 <= i < |rows| :: ands <= |rows[i]|) && OrsFrom(rows, ands, add).Piece?
    ensures forall i | 0 <= i < |[row] + rows| :: ands <= |([row] + rows)[i]|
    ensures OrsFrom([row] + rows, ands, add) ==
      if |row| == ands then Mistyped else Piece(LOr(Ands(row[ands..]), OrsFrom(rows, ands, add).d))
  {
    var all := [row] + rows;
    assert all[0] == row && all[1..] == rows;
    if |row| > ands {
      assert Tails(all, ands)[1..] == Tails(rows, ands);
    }
  }

  lemma OrsFromStep(rows: seq<Row>, i: nat, end: nat, ands: nat, add: Option<Expr>)
    requires i < end <= |rows| && forall k | i <= k < end :: ands <= |rows[k]|
    requires OrsFrom(rows[i + 1..end], ands, add).Piece?
    ensures OrsFrom(rows[i..end], ands, add) ==
      if |rows[i]| == ands then Mistyped else Piece(LOr(Ands(rows[i][ands..]), OrsFrom(rows[i + 1..end], ands, add).d))
  {
    OrsFromFront(rows[i], rows[i + 1..end], ands, add);
    assert rows[i..end] == [rows[i]] + rows[i + 1..end];
  }

  lemma OrsFromLast(row: Row, ands: nat)
    requires ands <= |row|
    ensures OrsFrom([row], ands, None) == if |row| == ands then Missing else Piece(Ands(row[ands..]))
  {}

  lemma EndsMissing(rows: seq<Row>, from: nat, end: nat, ands: nat)
    requires from < end <= |rows| && |rows[end - 1]| == ands && (forall k | from <= k < end :: ands <= |rows[k]|)
    ensures OrsFrom(rows[from..end], ands, None).Missing?
  {
    assert rows[from..end][end - from - 1] == rows[end - 1];
  }

  /** An operand missing stays missing, whatever comes before. */
  lemma StaysMistyped(rows: seq<Row>, from: nat, i: nat, end: nat, ands: nat, add: Option<Expr>)
    requires from <= i <= end <= |rows| && (forall k | from <= k < end :: ands <= |rows[k]|)
    requires OrsFrom(rows[i..end], ands, add).Mistyped?
    ensures OrsFrom(rows[from..end], ands, add).Mistyped?
  {
    var part, all := rows[i..end], rows[from..end];
    var k :| 0 <= k < |part| && |part[k]| <= ands;
    assert all[i - from + k] == part[k] && all[|all| - 1] == part[|part| - 1];
  }

  /** The rows from `from` on, `ors` of them or all, without their first cells. */
  method BundleOrs(rows: seq<Row>, from: nat, ors: Option<nat>, fromAnds: nat, add: Option<Expr>) returns (d: Piece)
    requires Within(rows, from, ors)
    requires forall i | from <= i < EndOf(rows, from, ors) :: fromAnds <= |rows[i]|
    ensures d == OrsFrom(Span(rows, from, ors), fromAnds, add)
  {
    var end := EndOf(rows, from, ors);
    SpanEnds(rows, from, ors);
    assert add.Some? ==> Tails(rows[end..end], fromAnds) == [];
    var tmp, i := add, end;
    if add.None? {
      if end == from { return Missing; }
      tmp := BundleAnds(rows[end - 1], fromAnds, None, None);
      i := end - 1;
      OrsFromLast(rows[i], fromAnds);
      assert rows[i..end] == [rows[i]];
      if tmp.None? { EndsMissing(rows, from, end, fromAnds); }
    }
    while i > from
      invariant from <= i <= end && (i == end ==> add.Some?)
      invariant tmp.None? ==> i < end && OrsFrom(rows[from..end], fromAnds, add).Missing?
      invariant tmp.Some? ==> OrsFrom(rows[i..end], fromAnds, add) == Piece(tmp.value)
    {
      if tmp.None? { return Missing; }
      i := i - 1;
      var row := BundleAnds(rows[i], fromAnds, None, None);
      OrsFromStep(rows, i, end, fromAnds, add);
      if row.None? {
        StaysMistyped(rows, from, i, end, fromAnds, add);
        return Mistyped;
      }
      tmp := Some(LOr(row.value, tmp.value));
    }
    d := if tmp.None? then Missing else Piece(tmp.value);
  }

  lemma WholeRows(rows: seq<Row>, add: Option<Expr>)
    requires Rows(rows) && (add.None? ==> rows != [])
    ensures OrsFrom(rows, 0, add) == Piece(if add.Some? then OrsThen(rows, add.value) else Ors(rows))
  {
    assert Tails(rows, 0) == rows;
  }

  method AroundBlock(rows: seq<Row>, from: nat, end: nat, block: Expr) returns (d: Option<Expr>)
    requires Rows(rows) && from <= end <= |rows|
    ensures d == Some(OrsThen(rows[..from], Behind(rows, end, block)))
  {
    d := Some(block);
    if end < |rows| {
      WholeRows(rows[end..], None);
      var after := BundleOrs(rows, end, None, 0, None);
      d := Some(LOr(block, after.d));
    }
    if from > 0 {
      WholeRows(rows[0..from], d);
      assert rows[..from] == rows[0..from];
      var all := BundleOrs(rows, 0, Some(from), 0, d);
      d := Some(all.d);
    }
  }

  method BundleRebuild(rows: seq<Row>, from: nat, ors: nat, ands: nat) returns (d: Option<Expr>)
    requires Rows(rows) && Block(rows, from, ors, ands)
    ensures d == Rebuilt(rows, from, ors, ands)
  {
    var inner := BundleOrs(rows, from, Some(ors), ands, None);
    if inner.Mistyped? { return None; }
    d := BundleAnds(rows[from], 0, Some(ands), if inner.Piece? then Some(inner.d) else None);
    d := AroundBlock(rows, from, from + ors, d.value);
  }

  // ----- choosing the block -----

  method MinAnds(rows: seq<Row>, from: nat, ors: nat) returns (min: nat)
    requires from + ors <= |rows| && ors > 0
    ensures forall i | from <= i < from + ors :: min <= |rows[i]|
    ensures exists i | from <= i < from + ors :: min == |rows[i]|
  {
    min := |rows[from]|;
    for i := from to from + ors
      invariant forall k | from <= k < i :: min <= |rows[k]|
      invariant exists k | from <= k < from + ors :: min == |rows[k]|
    {
      if |rows[i]| < min { min := |rows[i]|; }
    }
  }

  predicate Earlier(f: nat, o: nat, a: nat, from: nat, ors: nat, ands: nat) {
    f < from || (f == from && (o < ors || (o == ors && a < ands)))
  }

  predicate NoBetter(f: nat, o: nat, a: nat, from: nat, ors: nat, ands: nat) {
    o * a < ors * ands || (o * a == ors * ands && !Earlier(f, o, a, from, ors, ands))
  }

  /** The block with the most cells, and of these the first, by first row, number of
      rows and common cells. */
  ghost predicate Chosen(rows: seq<Row>, from: nat, ors: nat, ands: nat) {
    && Block(rows, from, ors, ands)
    && forall f: nat, o: nat, a: nat :: Block(rows, f, o, a) ==> NoBetter(f, o, a, from, ors, ands)
  }

  lemma ChosenOnce(rows: seq<Row>, from: nat, ors: nat, ands: nat, f: nat, o: nat, a: nat)
    requires Chosen(rows, from, ors, ands) && Chosen(rows, f, o, a)
    ensures (from, ors, ands) == (f, o, a)
  {
    assert NoBetter(f, o, a, from, ors, ands) && NoBetter(from, ors, ands, f, o, a);
  }

  ghost function Choice(rows: seq<Row>): (c: Option<(nat, nat, nat)>)
    ensures c.Some? ==> Chosen(rows, c.value.0, c.value.1, c.value.2)
  {
    if exists f: nat, o: nat, a: nat :: Chosen(rows, f, o, a) then
      var f: nat, o: nat, a: nat :| Chosen(rows, f, o, a);
      Some((f, o, a))
    else None
  }

  /** The best of the blocks that come before this one. */
  ghost predicate BestBefore(rows: seq<Row>, from: nat, ors: nat, ands: nat, first: nat, o: nat, a: nat) {
    && (ors * ands > 0 ==> Block(rows, from, ors, ands) && Earlier(from, ors, ands, first, o, a))
    && forall f: nat, k: nat, b: nat :: Block(rows, f, k, b) && Earlier(f, k, b, first, o, a) ==> NoBetter(f, k, b, from, ors, ands)
  }

  lemma Area(o: nat, a: nat)
    requires o >= 2 && a >= 1
    ensures o * a > 0
  {}

  lemma Scale(o: nat, a: nat, b: nat)
    requires a <= b
    ensures o * a <= o * b
  {}

  lemma BestStays(rows: seq<Row>, from: nat, ors: nat, ands: nat, first: nat, o: nat, a: nat)
    requires BestBefore(rows, from, ors, ands, first, o, a) && (Block(rows, first, o, a) ==> o * a <= ors * ands)
    ensures BestBefore(rows, from, ors, ands, first, o, a + 1)
  {
    if Block(rows, first, o, a) { Area(o, a); }
  }

  lemma BestReplaced(rows: seq<Row>, from: nat, ors: nat, ands: nat, first: nat, o: nat, a: nat)
    requires BestBefore(rows, from, ors, ands, first, o, a) && Block(rows, first, o, a) && o * a > ors * ands
    ensures BestBefore(rows, first, o, a, first, o, a + 1)
  {
    forall f: nat, k: nat, b: nat | Block(rows, f, k, b) && Earlier(f, k, b, first, o, a + 1)
      ensures NoBetter(f, k, b, first, o, a)
    {
      if Earlier(f, k, b, first, o, a) { assert NoBetter(f, k, b, from, ors, ands); }
    }
  }

  /** No wider block of these rows is better. */
  lemma BestSkips(rows: seq<Row>, from: nat, ors: nat, ands: nat, first: nat, o: nat, a: nat)
    requires BestBefore(rows, from, ors, ands, first, o, a)
    requires forall b: nat :: Block(rows, first, o, b) && b >= a ==> o * b < ors * ands
    ensures BestBefore(rows, from, ors, ands, first, o + 1, 0)
  {
    forall f: nat, k: nat, b: nat | Block(rows, f, k, b) && Earlier(f, k, b, first, o + 1, 0)
      ensures NoBetter(f, k, b, from, ors, ands)
    {
      if !Earlier(f, k, b, first, o, a) { assert f == first && k == o && b >= a; }
    }
  }

  lemma BestDone(rows: seq<Row>, from: nat, ors: nat, ands: nat)
    requires BestBefore(rows, from, ors, ands, |rows|, 0, 0)
    ensures ors * ands > 0 ==> Chosen(rows, from, ors, ands) && Choice(rows) == Some((from, ors, ands))
    ensures ors * ands == 0 ==> Choice(rows).None?
  {
    if ors * ands > 0 {
      assert Chosen(rows, from, ors, ands);
      var c := Choice(rows).value;
      ChosenOnce(rows, from, ors, ands, c.0, c.1, c.2);
    } else {
      forall f: nat, o: nat, a: nat ensures !Block(rows, f, o, a) {
        if o >= 2 && a >= 1 {
          Area(o, a);
          assert !NoBetter(f, o, a, from, ors, ands);
        }
      }
    }
  }

  /** Goes through all blocks, and keeps the best. */
  method BundleFindBest(rows: seq<Row>) returns (from: nat, ors: nat, ands: nat)
    ensures ors * ands > 0 ==> Chosen(rows, from, ors, ands) && Choice(rows) == Some((from, ors, ands))
    ensures ors * ands == 0 ==> Choice(rows).None?
  {
    from, ors, ands := 0, 0, 0;
    for first := 0 to |rows|
      invariant BestBefore(rows, from, ors, ands, first, 0, 0)
    {
      var o := 2;
      while first + o <= |rows|
        invariant o >= 2 && BestBefore(rows, from, ors, ands, first, o, 0)
      {
        from, ors, ands := BestWidth(rows, first, o, from, ors, ands);
        o := o + 1;
      }
    }
    BestDone(rows, from, ors, ands);
  }

  /** Tries all prefix lengths for one run of rows, longer ones only while the
      shorter ones agree. */
  method BestWidth(rows: seq<Row>, first: nat, o: nat, from0: nat, ors0: nat, ands0: nat)
    returns (from: nat, ors: nat, ands: nat)
    requires o >= 2 && first + o <= |rows| && BestBefore(rows, from0, ors0, ands0, first, o, 0)
    ensures BestBefore(rows, from, ors, ands, first, o + 1, 0)
  {
    from, ors, ands := from0, ors0, ands0;
    var min := MinAnds(rows, first, o);
    if o * min < ors * ands {
      forall a: nat | Block(rows, first, o, a) ensures o * a < ors * ands { Scale(o, a, min); }
      BestSkips(rows, from, ors, ands, first, o, 0);
      return;
    }
    BestStays(rows, from, ors, ands, first, o, 0);
    var a := 1;
    while a <= min
      invariant 1 <= a <= min + 1 && BestBefore(rows, from, ors, ands, first, o, a)
    {
      var same := SamePrefix(rows, first, o, a);
      if !same {
        NoWiderBlock(rows, first, o, a);
        break;
      }
      if o * a > ors * ands {
        BestReplaced(rows, from, ors, ands, first, o, a);
        from, ors, ands := first, o, a;
      } else {
        BestStays(rows, from, ors, ands, first, o, a);
      }
      a := a + 1;
    }
    BestSkips(rows, from, ors, ands, first, o, a);
  }

  lemma NoWiderBlock(rows: seq<Row>, from: nat, ors: nat, a: nat)
    requires a >= 1 && !Block(rows, from, ors, a)
    ensures forall k: nat :: Block(rows, from, ors, k) ==> k < a
  {
    forall k: nat | Block(rows, from, ors, k) ensures k < a {
      if k >= a { ShorterBlock(rows, from, ors, k, a); }
    }
  }

  lemma ShorterBlock(rows: seq<Row>, from: nat, ors: nat, long: nat, short: nat)
    requires Block(rows, from, ors, long) && 1 <= short <= long
    ensures Block(rows, from, ors, short)
  {
    forall i | from <= i < from + ors ensures rows[i][..short] == rows[from][..short] {
      assert rows[i][..short] == rows[i][..long][..short];
      assert rows[from][..short] == rows[from][..long][..short];
    }
  }

  method SamePrefix(rows: seq<Row>, first: nat, o: nat, a: nat) returns (same: bool)
    requires o >= 2 && a >= 1 && first + o <= |rows|
    requires forall i | first <= i < first + o :: a <= |rows[i]|
    ensures same <==> Block(rows, first, o, a)
  {
    for i := first + 1 to first + o
      invariant forall k | first <= k < i :: rows[k][..a] == rows[first][..a]
    {
      for j := 0 to a
        invariant rows[i][..j] == rows[first][..j]
      {
        if rows[first][j] != rows[i][j] {
          assert rows[first][..a][j] != rows[i][..a][j];
          return false;
        }
        assert rows[i][..j + 1] == rows[i][..j] + [rows[i][j]];
        assert rows[first][..j + 1] == rows[first][..j] + [rows[first][j]];
      }
    }
    return true;
  }

  // ----- blocks of longer rows -----

  /** The rows with the common cells put back in front. */
  function Prefixed(p: Row, tails: seq<Row>): (rows: seq<Row>)
    requires Rows(tails)
    ensures |rows| == |tails| && Rows(rows)
  {
    seq(|tails|, i requires 0 <= i < |tails| => p + tails[i])
  }

  /** The common cells are a condition that may as well be asked once. */
  predicate CarefulRows(p: Row, tails: seq<Row>)
    requires p != [] && Rows(tails)
  {
    forall i | 0 <= i < |tails| - 1 :: CarefulRight(Ands(p), Ands(tails[i]))
  }

  lemma FactorPair(p: Row, x: Expr, y: Expr)
    requires p != [] && CarefulRight(Ands(p), x)
    ensures SameMeaning(LOr(AndsThen(p, x), AndsThen(p, y)), AndsThen(p, LOr(x, y)))
  {
    var c := Ands(p);
    AndsThenMeans(p, x);
    AndsThenMeans(p, y);
    AndsThenMeans(p, LOr(x, y));
    CarefulRightSound(c, x, y);
    forall env, h ensures Eval(LOr(AndsThen(p, x), AndsThen(p, y)), env, h) == Eval(AndsThen(p, LOr(x, y)), env, h) {
      assert Eval(AndsThen(p, LOr(x, y)), env, h) == Eval(LAnd(c, LOr(x, y)), env, h);
      assert Eval(LAnd(c, LOr(x, y)), env, h) == Eval(LOr(LAnd(c, x), LAnd(c, y)), env, h);
      var h' := Eval(AndsThen(p, x), env, h).hist;
      assert Eval(AndsThen(p, x), env, h) == Eval(LAnd(c, x), env, h);
      assert Eval(AndsThen(p, y), env, h') == Eval(LAnd(c, y), env, h');
    }
  }

  lemma FactorRest(p: Row, tails: seq<Row>)
    requires p != [] && Rows(tails) && |tails| > 1
    ensures Rows(tails[1..]) && Ors(tails) == LOr(Ands(tails[0]), Ors(tails[1..]))
    ensures Ors(Prefixed(p, tails)) == LOr(AndsThen(p, Ands(tails[0])), Ors(Prefixed(p, tails[1..])))
    ensures CarefulRows(p, tails) ==> CarefulRows(p, tails[1..]) && CarefulRight(Ands(p), Ands(tails[0]))
  {
    AndsAppend(p, tails[0]);
    assert Prefixed(p, tails)[1..] == Prefixed(p, tails[1..]);
  }

  /** All rows of a block may share the common cells. */
  lemma {:induction false} FactorRows(p: Row, tails: seq<Row>)
    requires p != [] && Rows(tails) && tails != [] && CarefulRows(p, tails)
    ensures SameMeaning(Ors(Prefixed(p, tails)), AndsThen(p, Ors(tails)))
    decreases |tails|
  {
    if |tails| == 1 {
      AndsAppend(p, tails[0]);
    } else {
      FactorRest(p, tails);
      FactorRows(p, tails[1..]);
      var x, y := Ands(tails[0]), Ors(tails[1..]);
      FactorPair(p, x, y);
      CongruentOr(AndsThen(p, x), AndsThen(p, x), Ors(Prefixed(p, tails[1..])), AndsThen(p, y));
      SameMeaningTrans(Ors(Prefixed(p, tails)), LOr(AndsThen(p, x), AndsThen(p, y)), AndsThen(p, LOr(x, y)));
    }
  }

  lemma {:induction false} FactorNodes(p: Row, tails: seq<Row>)
    requires p != [] && Rows(tails) && tails != []
    ensures Nodes(AndsThen(p, Ors(tails))) <= Nodes(Ors(Prefixed(p, tails)))
    ensures |tails| > 1 ==> Nodes(AndsThen(p, Ors(tails))) < Nodes(Ors(Prefixed(p, tails)))
    decreases |tails|
  {
    if |tails| == 1 {
      AndsAppend(p, tails[0]);
    } else {
      FactorRest(p, tails);
      FactorNodes(p, tails[1..]);
      var x, y := Ands(tails[0]), Ors(tails[1..]);
      AndsThenNodes(p, x, LOr(x, y));
      AndsThenNodes(p, y, y);
    }
  }

  lemma BlockPrefixed(rows: seq<Row>, from: nat, ors: nat, ands: nat)
    requires Block(rows, from, ors, ands) && Longer(rows[from..from + ors], ands)
    ensures Prefixed(rows[from][..ands], Tails(rows[from..from + ors], ands)) == rows[from..from + ors]
  {
    var block, p := rows[from..from + ors], rows[from][..ands];
    forall i | 0 <= i < ors ensures p + Tails(block, ands)[i] == block[i] {
      assert block[i] == rows[from + i] && rows[from + i][..ands] == p;
    }
  }

  // ----- blocks that end with the common cells alone -----

  predicate Begin(p: Row, rows: seq<Row>) { forall i | 0 <= i < |rows| :: |rows[i]| >= |p| && rows[i][..|p|] == p }

  lemma RowAt(p: Row, row: Row, env: Env, h: Hist)
    requires p != [] && |row| >= |p| && row[..|p|] == p && CountFree(Ands(p))
    ensures Eval(Ands(row), env, h) ==
      if |row| > |p| && Eval(Ands(p), env, h).truth.True? then Eval(Ands(row[|p|..]), env, h) else Eval(Ands(p), env, h)
  {
    CountFreeEval(Ands(p), env, h);
    if |row| == |p| {
      assert row == p;
    } else {
      assert row == p + row[|p|..];
      AndsAppend(p, row[|p|..]);
      AndsThenMeans(p, Ands(row[|p|..]));
      assert Eval(Ands(row), env, h) == Eval(LAnd(Ands(p), Ands(row[|p|..])), env, h);
    }
  }

  lemma CellsOf(p: Row, row: Row)
    requires p != [] && |row| >= |p| && row[..|p|] == p && CountFree(Ands(row))
    ensures CountFree(Ands(p)) && (|row| > |p| ==> CountFree(Ands(row[|p|..])))
  {
    AndsFree(row);
    assert forall i | 0 <= i < |p| :: p[i] == row[i];
    CellsFree(p);
    if |row| > |p| { CellsFree(row[|p|..]); }
  }

  /** The rows come to what `c` does unless that is true. */
  predicate Under(c: Expr, rows: seq<Row>, env: Env, h: Hist)
    requires Rows(rows)
  {
    forall i | 0 <= i < |rows| ::
      CountFree(Ands(rows[i])) && (!Eval(c, env, h).truth.True? ==> Eval(Ands(rows[i]), env, h) == Eval(c, env, h))
  }

  lemma BeginUnder(p: Row, rows: seq<Row>, env: Env, h: Hist)
    requires p != [] && Rows(rows) && Begin(p, rows) && CountFree(Ands(p))
    requires forall i | 0 <= i < |rows| :: CountFree(Ands(rows[i]))
    ensures Under(Ands(p), rows, env, h)
  {
    forall i | 0 <= i < |rows| && !Eval(Ands(p), env, h).truth.True?
      ensures Eval(Ands(rows[i]), env, h) == Eval(Ands(p), env, h)
    {
      RowAt(p, rows[i], env, h);
    }
  }

  /** Of such rows, before `z`, which does what `c` does unless that is false, only
      decisions are missed. */
  lemma {:induction false} EarlierAt(c: Expr, rows: seq<Row>, z: Expr, env: Env, h: Hist)
    requires Rows(rows) && Under(c, rows, env, h) && CountFree(c)
    requires !Eval(c, env, h).truth.False? ==> Eval(z, env, h) == Eval(c, env, h)
    ensures Eval(OrsThen(rows, z), env, h) == Eval(z, env, h) <==>
      !(Eval(c, env, h).truth.True? && Eval(OrsThen(rows, Const(0)), env, h).truth.Taken?)
    decreases |rows|
  {
    CountFreeEval(c, env, h);
    if rows != [] {
      var x := Ands(rows[0]);
      CountFreeEval(x, env, h);
      assert !Eval(c, env, h).truth.True? ==> Eval(x, env, h) == Eval(c, env, h);
      EarlierAt(c, rows[1..], z, env, h);
    }
  }

  /** ... and what side effects the earlier rows have come with their ends. */
  lemma {:induction false} EarlierPlain(p: Row, rows: seq<Row>, env: Env, h: Hist)
    requires p != [] && Rows(rows) && Begin(p, rows) && CountFree(Ands(p)) && Eval(Ands(p), env, h).truth.True?
    requires forall i | 0 <= i < |rows| :: |rows[i]| > |p| ==> !SideEffect(Ands(rows[i][|p|..]))
    ensures !Eval(OrsThen(rows, Const(0)), env, h).truth.Taken?
    decreases |rows|
  {
    if rows != [] {
      RowAt(p, rows[0], env, h);
      CountFreeEval(Ands(p), env, h);
      if |rows[0]| > |p| { NoSideEffect(Ands(rows[0][|p|..]), env, h); }
      EarlierPlain(p, rows[1..], env, h);
    }
  }

  lemma {:induction false} PlainRow(p: Row, row: Row)
    requires p != [] && |row| >= |p| && row[..|p|] == p && CountFree(Ands(p))
    requires |row| > |p| ==> !SideEffect(Ands(row[|p|..]))
    ensures CountFree(Ands(row))
  {
    AndsFree(p);
    if |row| > |p| {
      Plain(Ands(row[|p|..]));
      AndsFree(row[|p|..]);
    }
    forall i | 0 <= i < |row| ensures CountFree(row[i]) {
      if i < |p| { assert row[i] == p[i]; } else { assert row[i] == row[|p|..][i - |p|]; }
    }
    CellsFree(row);
  }

  // ----- one round -----

  /** Nothing is lost or repeated that decides or counts: behind the common cells, or
      by leaving out rows in favour of a shorter one. */
  predicate CarefulBlock(rows: seq<Row>, from: nat, ors: nat, ands: nat)
    requires Rows(rows) && Block(rows, from, ors, ands)
  {
    var block, p := rows[from..from + ors], rows[from][..ands];
    if |block[ors - 1]| == ands then
      CountFree(Ands(p)) && forall i | 0 <= i < ors :: |block[i]| > ands ==> !SideEffect(Ands(block[i][ands..]))
    else
      Longer(block, ands) && CarefulRows(p, Tails(block, ands))
  }

  lemma OrsBehind(rows: seq<Row>, k: nat)
    requires Rows(rows) && k < |rows|
    ensures Ors(rows[k..]) == Behind(rows, k + 1, Ands(rows[k]))
  {
    assert rows[k..][0] == rows[k] && rows[k..][1..] == rows[k + 1..];
  }

  lemma Split(rows: seq<Row>, from: nat, k: nat)
    requires Rows(rows) && from <= k < |rows|
    ensures Ors(rows) == OrsThen(rows[..from], OrsThen(rows[from..k], Behind(rows, k + 1, Ands(rows[k]))))
  {
    OrsBehind(rows, k);
    assert rows == rows[..k] + rows[k..] && rows[..k] == rows[..from] + rows[from..k];
    OrsAppend(rows[..k], rows[k..]);
    OrsThenAppend(rows[..from], rows[from..k], Ors(rows[k..]));
  }

  lemma BlockBehind(rows: seq<Row>, from: nat, k: nat)
    requires Rows(rows) && from <= k < |rows|
    ensures SameMeaning(OrsThen(rows[from..k], Behind(rows, k + 1, Ands(rows[k]))), Behind(rows, k + 1, Ors(rows[from..k + 1])))
  {
    var block := rows[from..k + 1];
    assert block == rows[from..k] + [rows[k]];
    if k + 1 == |rows| {
      OrsAppend(rows[from..k], [rows[k]]);
    } else {
      var after := Ors(rows[k + 1..]);
      OrsThenAppend(rows[from..k], [rows[k]], after);
      assert OrsThen([rows[k]], after) == LOr(Ands(rows[k]), OrsThen([], after));
      OrsThenMeans(block, after);
    }
  }

  lemma BehindCongruent(rows: seq<Row>, end: nat, x: Expr, y: Expr)
    requires Rows(rows) && end <= |rows| && SameMeaning(x, y)
    ensures SameMeaning(Behind(rows, end, x), Behind(rows, end, y))
  {
    if end < |rows| { CongruentOr(x, y, Ors(rows[end..]), Ors(rows[end..])); }
  }

  lemma LongBlock(rows: seq<Row>, from: nat, ors: nat, ands: nat)
    requires Rows(rows) && Block(rows, from, ors, ands) && CarefulBlock(rows, from, ors, ands)
    requires |rows[from + ors - 1]| > ands
    ensures Bundled(rows, from, ors, ands).Some?
    ensures
      var k := from + ors - 1;
      SameMeaning(OrsThen(rows[from..k], Behind(rows, k + 1, Ands(rows[k]))), Behind(rows, k + 1, Bundled(rows, from, ors, ands).value))
  {
    var k, block, p := from + ors - 1, rows[from..from + ors], rows[from][..ands];
    var d := Bundled(rows, from, ors, ands).value;
    BlockPrefixed(rows, from, ors, ands);
    FactorRows(p, Tails(block, ands));
    assert d == AndsThen(p, Ors(Tails(block, ands)));
    BehindCongruent(rows, k + 1, Ors(block), d);
    BlockBehind(rows, from, k);
    SameMeaningTrans(OrsThen(rows[from..k], Behind(rows, k + 1, Ands(rows[k]))), Behind(rows, k + 1, Ors(block)), Behind(rows, k + 1, d));
  }

  /** The last row has the common cells alone: they stand for the block. */
  lemma ShortIs(rows: seq<Row>, from: nat, ors: nat, ands: nat)
    requires Rows(rows) && Block(rows, from, ors, ands) && |rows[from + ors - 1]| == ands
    ensures rows[from + ors - 1] == rows[from][..ands] && Begin(rows[from][..ands], rows[from..from + ors - 1])
    ensures Bundled(rows, from, ors, ands) == Some(Ands(rows[from + ors - 1]))
  {
    var k := from + ors - 1;
    assert rows[k] == rows[k][..ands] && rows[from..from + ors][ors - 1] == rows[k];
  }

  lemma BehindAt(rows: seq<Row>, end: nat, x: Expr, env: Env, h: Hist)
    requires Rows(rows) && end <= |rows|
    ensures !Eval(x, env, h).truth.False? ==> Eval(Behind(rows, end, x), env, h) == Eval(x, env, h)
  {}

  lemma ShortBlock(rows: seq<Row>, from: nat, ors: nat, ands: nat)
    requires Rows(rows) && Block(rows, from, ors, ands) && CarefulBlock(rows, from, ors, ands)
    requires |rows[from + ors - 1]| == ands
    ensures
      var k := from + ors - 1;
      SameMeaning(OrsThen(rows[from..k], Behind(rows, k + 1, Ands(rows[k]))), Behind(rows, k + 1, Ands(rows[k])))
  {
    var k, block, p := from + ors - 1, rows[from..from + ors], rows[from][..ands];
    var z, early := Behind(rows, k + 1, Ands(rows[k])), rows[from..k];
    ShortIs(rows, from, ors, ands);
    assert block[ors - 1] == rows[k];
    forall i | 0 <= i < |early|
      ensures CountFree(Ands(early[i])) && (|early[i]| > |p| ==> !SideEffect(Ands(early[i][|p|..])))
    {
      assert early[i] == block[i];
      PlainRow(p, early[i]);
    }
    forall env, h ensures Eval(OrsThen(early, z), env, h) == Eval(z, env, h) {
      BehindAt(rows, k + 1, Ands(p), env, h);
      BeginUnder(p, early, env, h);
      EarlierAt(Ands(p), early, z, env, h);
      if Eval(Ands(p), env, h).truth.True? { EarlierPlain(p, early, env, h); }
    }
  }

  lemma BlockSound(rows: seq<Row>, from: nat, ors: nat, ands: nat)
    requires Rows(rows) && Block(rows, from, ors, ands) && CarefulBlock(rows, from, ors, ands)
    ensures Bundled(rows, from, ors, ands).Some?
    ensures
      var k := from + ors - 1;
      SameMeaning(OrsThen(rows[from..k], Behind(rows, k + 1, Ands(rows[k]))), Behind(rows, k + 1, Bundled(rows, from, ors, ands).value))
  {
    if |rows[from + ors - 1]| == ands {
      ShortIs(rows, from, ors, ands);
      ShortBlock(rows, from, ors, ands);
    } else {
      LongBlock(rows, from, ors, ands);
    }
  }

  /** Careful rounds keep decisions and counts. */
  lemma RoundSound(rows: seq<Row>, from: nat, ors: nat, ands: nat)
    requires Rows(rows) && Block(rows, from, ors, ands) && CarefulBlock(rows, from, ors, ands)
    ensures Rebuilt(rows, from, ors, ands).Some? && SameMeaning(Ors(rows), Rebuilt(rows, from, ors, ands).value)
  {
    var k := from + ors - 1;
    BlockSound(rows, from, ors, ands);
    Split(rows, from, k);
    var x, y := OrsThen(rows[from..k], Behind(rows, k + 1, Ands(rows[k]))), Behind(rows, k + 1, Bundled(rows, from, ors, ands).value);
    FrontCongruent(rows[..from], x, y, Ors(rows), Rebuilt(rows, from, ors, ands).value);
  }

  lemma FrontCongruent(front: seq<Row>, x: Expr, y: Expr, d: Expr, d': Expr)
    requires Rows(front) && SameMeaning(x, y) && d == OrsThen(front, x) && d' == OrsThen(front, y)
    ensures SameMeaning(d, d')
  {
    OrsThenCongruent(front, x, y);
  }

  lemma BundledSmaller(rows: seq<Row>, from: nat, ors: nat, ands: nat)
    requires Rows(rows) && Block(rows, from, ors, ands) && Bundled(rows, from, ors, ands).Some?
    ensures Nodes(Bundled(rows, from, ors, ands).value) < Nodes(OrsThen(rows[from..from + ors - 1], Ands(rows[from + ors - 1])))
  {
    var k, block := from + ors - 1, rows[from..from + ors];
    assert block[ors - 1] == rows[k];
    if |rows[k]| == ands {
      ShortIs(rows, from, ors, ands);
      OrsThenNodes(rows[from..k], Ands(rows[k]), Ands(rows[k]));
    } else {
      BlockPrefixed(rows, from, ors, ands);
      FactorNodes(rows[from][..ands], Tails(block, ands));
      assert block == rows[from..k] + [rows[k]];
      OrsAppend(rows[from..k], [rows[k]]);
    }
  }

  lemma FewerNodes(front: seq<Row>, early: seq<Row>, rows: seq<Row>, end: nat, last: Expr, d: Expr)
    requires Rows(front) && Rows(early) && Rows(rows) && end <= |rows| && Nodes(d) < Nodes(OrsThen(early, last))
    ensures Nodes(OrsThen(front, Behind(rows, end, d))) < Nodes(OrsThen(front, OrsThen(early, Behind(rows, end, last))))
  {
    OrsThenNodes(early, Behind(rows, end, last), last);
    OrsThenNodes(front, OrsThen(early, Behind(rows, end, last)), Behind(rows, end, d));
  }

  lemma RoundSmaller(rows: seq<Row>, from: nat, ors: nat, ands: nat)
    requires Rows(rows) && Block(rows, from, ors, ands) && Rebuilt(rows, from, ors, ands).Some?
    ensures Nodes(Rebuilt(rows, from, ors, ands).value) < Nodes(Ors(rows))
  {
    var k, front, d := from + ors - 1, rows[..from], Bundled(rows, from, ors, ands).value;
    Split(rows, from, k);
    BundledSmaller(rows, from, ors, ands);
    FewerNodes(front, rows[from..k], rows, k + 1, Ands(rows[k]), d);
  }

  lemma {:induction false} FrontAt(front: seq<Row>, x: Expr, y: Expr, env: Env, h: Hist)
    requires Rows(front) && forall i | 0 <= i < |front| :: CountFree(Ands(front[i]))
    ensures Eval(OrsThen(front, x), env, h) == Eval(OrsThen(front, y), env, h) <==>
      (Eval(OrsThen(front, Const(0)), env, h).truth.False? ==> Eval(x, env, h) == Eval(y, env, h))
    decreases |front|
  {
    if front != [] {
      CountFreeEval(Ands(front[0]), env, h);
      FrontAt(front[1..], x, y, env, h);
    }
  }

  /** The packet gets past the rows in front and meets the common cells, and of the
      rows before the last one of the block, one decides. */
  predicate Overruled(front: seq<Row>, p: Row, early: seq<Row>, env: Env, h: Hist)
    requires Rows(front) && p != [] && Rows(early)
  {
    && Eval(OrsThen(front, Const(0)), env, h).truth.False?
    && Eval(Ands(p), env, h).truth.True?
    && Eval(OrsThen(early, Const(0)), env, h).truth.Taken?
  }

  ghost predicate NeverOverruled(front: seq<Row>, p: Row, early: seq<Row>)
    requires Rows(front) && p != [] && Rows(early)
  {
    forall env, h :: !Overruled(front, p, early, env, h)
  }

  lemma ShortRebuilt(rows: seq<Row>, from: nat, ors: nat, ands: nat)
    requires Rows(rows) && Block(rows, from, ors, ands) && |rows[from + ors - 1]| == ands
    ensures
      var k, p := from + ors - 1, rows[from][..ands];
      var z := Behind(rows, k + 1, Ands(p));
      Ors(rows) == OrsThen(rows[..from], OrsThen(rows[from..k], z)) && Rebuilt(rows, from, ors, ands) == Some(OrsThen(rows[..from], z))
  {
    ShortIs(rows, from, ors, ands);
    Split(rows, from, from + ors - 1);
  }

  lemma PartsFree(rows: seq<Row>, from: nat, k: nat)
    requires Rows(rows) && from <= k < |rows| && CountFree(Ors(rows))
    ensures forall i | 0 <= i < from :: CountFree(Ands(rows[..from][i]))
    ensures forall i | 0 <= i < k - from :: CountFree(Ands(rows[from..k][i]))
    ensures CountFree(Ands(rows[k]))
  {
    OrsFree(rows);
  }

  lemma BlockAt(front: seq<Row>, early: seq<Row>, p: Row, z: Expr, env: Env, h: Hist)
    requires Rows(front) && Rows(early) && p != [] && Begin(p, early) && CountFree(Ands(p))
    requires forall i | 0 <= i < |front| :: CountFree(Ands(front[i]))
    requires forall i | 0 <= i < |early| :: CountFree(Ands(early[i]))
    requires !Eval(Ands(p), env, h).truth.False? ==> Eval(z, env, h) == Eval(Ands(p), env, h)
    ensures Eval(OrsThen(front, OrsThen(early, z)), env, h) == Eval(OrsThen(front, z), env, h) <==> !Overruled(front, p, early, env, h)
  {
    BeginUnder(p, early, env, h);
    EarlierAt(Ands(p), early, z, env, h);
    FrontAt(front, OrsThen(early, z), z, env, h);
  }

  /** Where the last row of the block has the common cells alone, all other rows of it
      are lost. That makes a difference exactly for packets for which they decide. */
  lemma ShortExact(rows: seq<Row>, from: nat, ors: nat, ands: nat)
    requires Rows(rows) && Block(rows, from, ors, ands) && CountFree(Ors(rows))
    requires |rows[from + ors - 1]| == ands
    ensures Rebuilt(rows, from, ors, ands).Some?
    ensures SameMeaning(Ors(rows), Rebuilt(rows, from, ors, ands).value) <==>
      NeverOverruled(rows[..from], rows[from][..ands], rows[from..from + ors - 1])
  {
    var front, p, early, z := ShortParts(rows, from, ors, ands);
    MissesExactly(front, p, early, z, Ors(rows), Rebuilt(rows, from, ors, ands).value);
  }

  lemma ShortParts(rows: seq<Row>, from: nat, ors: nat, ands: nat) returns (front: seq<Row>, p: Row, early: seq<Row>, z: Expr)
    requires Rows(rows) && Block(rows, from, ors, ands) && CountFree(Ors(rows))
    requires |rows[from + ors - 1]| == ands
    ensures front == rows[..from] && p == rows[from][..ands] && early == rows[from..from + ors - 1]
    ensures Rows(front) && Rows(early) && p != [] && Begin(p, early) && CountFree(Ands(p))
    ensures forall i | 0 <= i < |front| :: CountFree(Ands(front[i]))
    ensures forall i | 0 <= i < |early| :: CountFree(Ands(early[i]))
    ensures z == Ands(p) || (z.LOr? && z.a == Ands(p))
    ensures Ors(rows) == OrsThen(front, OrsThen(early, z)) && Rebuilt(rows, from, ors, ands) == Some(OrsThen(front, z))
  {
    var k := from + ors - 1;
    front, p, early := rows[..from], rows[from][..ands], rows[from..k];
    z := Behind(rows, k + 1, Ands(p));
    ShortIs(rows, from, ors, ands);
    PartsFree(rows, from, k);
    ShortRebuilt(rows, from, ors, ands);
  }

  lemma MissesExactly(front: seq<Row>, p: Row, early: seq<Row>, z: Expr, d: Expr, d': Expr)
    requires Rows(front) && Rows(early) && p != [] && Begin(p, early) && CountFree(Ands(p))
    requires forall i | 0 <= i < |front| :: CountFree(Ands(front[i]))
    requires forall i | 0 <= i < |early| :: CountFree(Ands(early[i]))
    requires z == Ands(p) || (z.LOr? && z.a == Ands(p))
    requires d == OrsThen(front, OrsThen(early, z)) && d' == OrsThen(front, z)
    ensures SameMeaning(d, d') <==> NeverOverruled(front, p, early)
  {
    forall env, h ensures Eval(d, env, h) == Eval(d', env, h) <==> !Overruled(front, p, early, env, h) {
      BlockAt(front, early, p, z, env, h);
    }
    if SameMeaning(d, d') {
      forall env, h ensures !Overruled(front, p, early, env, h) {
        assert Eval(d, env, h) == Eval(d', env, h);
      }
    }
  }

  /** Without counts, longer rows may always share what they begin with. */
  lemma LongerCareful(rows: seq<Row>, from: nat, ors: nat, ands: nat)
    requires Rows(rows) && Block(rows, from, ors, ands) && CountFree(Ors(rows))
    requires Longer(rows[from..from + ors], ands)
    ensures CarefulBlock(rows, from, ors, ands)
  {
    var block, p := rows[from..from + ors], rows[from][..ands];
    OrsFree(rows);
    forall i | 0 <= i < ors ensures CountFree(Ands(p)) && CountFree(Ands(Tails(block, ands)[i])) {
      assert block[i] == rows[from + i] && block[i][..|p|] == p;
      CellsOf(p, block[i]);
    }
  }

  // ----- all rounds -----

  /** Bundles until there is no block, then within the operands; none if operands are
      missing. */
  ghost function BundleOf(d: Expr): (r: Option<Expr>)
    ensures r.Some? ==> Nodes(r.value) <= Nodes(d)
    decreases Nodes(d)
  {
    var rows := MatrixOf(d);
    if Choice(rows).Some? then
      var (from, ors, ands) := Choice(rows).value;
      var e := Rebuilt(rows, from, ors, ands);
      if e.None? then None else (OrsOfMatrix(d); RoundSmaller(rows, from, ors, ands); BundleOf(e.value))
    else match d
      case LNot(a) =>
        var a' := BundleOf(a);
        if a'.None? then None else Some(LNot(a'.value))
      case LAnd(a, b) =>
        var a', b' := BundleOf(a), BundleOf(b);
        if a'.None? || b'.None? then None else Some(LAnd(a'.value, b'.value))
      case LOr(a, b) =>
        var a', b' := BundleOf(a), BundleOf(b);
        if a'.None? || b'.None? then None else Some(LOr(a'.value, b'.value))
      case _ => Some(d)
  }

  /** All rounds on the way are careful. */
  ghost predicate CarefulRounds(d: Expr)
    decreases Nodes(d)
  {
    var rows := MatrixOf(d);
    if Choice(rows).Some? then
      var (from, ors, ands) := Choice(rows).value;
      var e := Rebuilt(rows, from, ors, ands);
      CarefulBlock(rows, from, ors, ands)
      && (e.Some? ==> (OrsOfMatrix(d); RoundSmaller(rows, from, ors, ands); CarefulRounds(e.value)))
    else match d
      case LNot(a) => CarefulRounds(a)
      case LAnd(a, b) => CarefulRounds(a) && CarefulRounds(b)
      case LOr(a, b) => CarefulRounds(a) && CarefulRounds(b)
      case _ => true
  }

  lemma {:induction false} BundleSound(d: Expr)
    requires CarefulRounds(d)
    ensures BundleOf(d).Some? && SameMeaning(d, BundleOf(d).value)
    decreases Nodes(d)
  {
    var rows := MatrixOf(d);
    if Choice(rows).Some? {
      var (from, ors, ands) := Choice(rows).value;
      OrsOfMatrix(d);
      RoundSound(rows, from, ors, ands);
      RoundSmaller(rows, from, ors, ands);
      var e := Rebuilt(rows, from, ors, ands).value;
      BundleSound(e);
      SameMeaningTrans(d, e, BundleOf(d).value);
    } else {
      match d
      case LNot(a) => BundleSound(a); CongruentNot(a, BundleOf(a).value);
      case LAnd(a, b) => BundleSound(a); BundleSound(b); CongruentAnd(a, BundleOf(a).value, b, BundleOf(b).value);
      case LOr(a, b) => BundleSound(a); BundleSound(b); CongruentOr(a, BundleOf(a).value, b, BundleOf(b).value);
      case _ =>
    }
  }

  lemma NoChoice(d: Expr)
    requires !d.LOr?
    ensures Choice(MatrixOf(d)).None?
  {}

  method BundleRound(d: Expr) returns (again: bool, e: Option<Expr>)
    ensures !again ==> Choice(MatrixOf(d)).None?
    ensures again && e.None? ==> BundleOf(d).None?
    ensures again && e.Some? ==> Nodes(e.value) < Nodes(d) && BundleOf(e.value) == BundleOf(d)
  {
    if !d.LOr? {
      NoChoice(d);
      return false, None;
    }
    OrsOfMatrix(d);
    var rows := MakeMatrix(d);
    var from, ors, ands := BundleFindBest(rows);
    if ors * ands < 2 {
      AreaTwo(rows, from, ors, ands);
      return false, None;
    }
    e := BundleRebuild(rows, from, ors, ands);
    if e.Some? { RoundSmaller(rows, from, ors, ands); }
    return true, e;
  }

  /** There is a block of the chain itself, or of an operand further down. */
  ghost predicate HasBlock(d: Expr) {
    || Choice(MatrixOf(d)).Some?
    || match d
       case LNot(a) => HasBlock(a)
       case LAnd(a, b) => HasBlock(a) || HasBlock(b)
       case LOr(a, b) => HasBlock(a) || HasBlock(b)
       case _ => false
  }

  /** Where there is no block, nothing changes; otherwise the expression becomes smaller. */
  lemma {:induction false} BundledOrSame(d: Expr)
    requires BundleOf(d).Some?
    ensures if HasBlock(d) then Nodes(BundleOf(d).value) < Nodes(d) else BundleOf(d).value == d
    decreases d
  {
    if Choice(MatrixOf(d)).Some? {
      var (from, ors, ands) := Choice(MatrixOf(d)).value;
      OrsOfMatrix(d);
      RoundSmaller(MatrixOf(d), from, ors, ands);
    } else {
      match d
      case LNot(a) => BundledOrSame(a);
      case LAnd(a, b) => BundledOrSame(a); BundledOrSame(b);
      case LOr(a, b) => BundledOrSame(a); BundledOrSame(b);
      case _ =>
    }
  }

  /** Operands of `!` and of `&&` are bundled each on its own, and all of them are. */
  lemma BundledApart(a: Expr, b: Expr)
    ensures BundleOf(LNot(a)).Some? <==> BundleOf(a).Some?
    ensures BundleOf(LAnd(a, b)).Some? <==> BundleOf(a).Some? && BundleOf(b).Some?
    ensures BundleOf(LNot(a)).Some? ==> BundleOf(LNot(a)).value == LNot(BundleOf(a).value)
    ensures BundleOf(LAnd(a, b)).Some? ==> BundleOf(LAnd(a, b)).value == LAnd(BundleOf(a).value, BundleOf(b).value)
  {
    NoChoice(LNot(a));
    NoChoice(LAnd(a, b));
  }

  /** Fails with a type error if an operand is missing. */
  method Bundle(d: Expr) returns (r: Option<Expr>)
    ensures r == BundleOf(d)
    ensures CarefulRounds(d) ==> r.Some? && SameMeaning(d, r.value)
    ensures r.Some? ==> Nodes(r.value) <= Nodes(d)
    decreases Nodes(d), 1
  {
    if CarefulRounds(d) { BundleSound(d); }
    var d' := d;
    while true
      invariant BundleOf(d') == BundleOf(d) && Nodes(d') <= Nodes(d)
      decreases Nodes(d')
    {
      var again, e := BundleRound(d');
      if !again { break; }
      if e.None? { return None; }
      d' := e.value;
    }
    r := BundleOperands(d');
  }

  method BundleOperands(d: Expr) returns (r: Option<Expr>)
    requires Choice(MatrixOf(d)).None?
    ensures r == BundleOf(d)
    decreases Nodes(d), 0
  {
    match d {
      case LNot(a) =>
        var a' := Bundle(a);
        r := if a'.None? then None else Some(LNot(a'.value));
      case LAnd(a, b) =>
        var a' := Bundle(a);
        if a'.None? { return None; }
        var b' := Bundle(b);
        r := if b'.None? then None else Some(LAnd(a'.value, b'.value));
      case LOr(a, b) =>
        var a' := Bundle(a);
        if a'.None? { return None; }
        var b' := Bundle(b);
        r := if b'.None? then None else Some(LOr(a'.value, b'.value));
      case _ => r := Some(d);
    }
  }

  lemma AreaTwo(rows: seq<Row>, from: nat, ors: nat, ands: nat)
    requires ors * ands < 2 && (ors * ands > 0 ==> Block(rows, from, ors, ands))
    ensures ors * ands == 0
  {
    if ors * ands > 0 { Scale(ors, 1, ands); }
  }

  // ----- where it fails, and where it cannot -----

  lemma ShortBlocks(a: Expr, b: Expr, rows: seq<Row>)
    requires rows == [[a, b], [a]] || rows == [[a], [a, b]]
    ensures Choice(rows) == Some((0, 2, 1))
  {
    assert rows[0][..1] == rows[1][..1] == [a];
    assert Block(rows, 0, 2, 1);
    assert forall f: nat, o: nat, k: nat :: Block(rows, f, o, k) ==> f == 0 && o == 2 && k == 1;
    assert Chosen(rows, 0, 2, 1);
    var c := Choice(rows).value;
    ChosenOnce(rows, 0, 2, 1, c.0, c.1, c.2);
  }

  lemma LeafBundled(a: Expr)
    requires a.Compare? || a.Decide?
    ensures BundleOf(a) == Some(a)
  {
    NoChoice(a);
  }

  /** `(a && drop) || a` becomes `a`: in the filter `((a && drop) || a) && class n` a
      packet with `a` is not dropped any more. */
  lemma ShortRowFails(a: Expr, n: nat, env: Env, h: Hist)
    requires a.Compare? && Eval(a, env, h).truth.True?
    ensures
      var d := LAnd(LOr(LAnd(a, Decide(Drop)), a), Decide(Class(n)));
      Eval(d, env, h).truth == Taken(Drop)
      && BundleOf(d).Some? && Eval(BundleOf(d).value, env, h).truth == Taken(Class(n))
  {
    var drop, next := Decide(Drop), Decide(Class(n));
    var d := LOr(LAnd(a, drop), a);
    var rows := [[a, drop], [a]];
    assert RowOf(LAnd(a, drop)) == [a] + RowOf(drop) == [a, drop];
    assert MatrixOf(d) == [RowOf(d.a)] + MatrixOf(d.b) == rows;
    ShortBlocks(a, drop, rows);
    ShortIs(rows, 0, 2, 1);
    assert Rebuilt(rows, 0, 2, 1) == Some(a);
    LeafBundled(a);
    LeafBundled(next);
    NoChoice(LAnd(d, next));
    assert BundleOf(d) == Some(a);
    assert BundleOf(LAnd(d, next)) == Some(LAnd(a, next));
    assert Eval(LAnd(a, next), env, h) == Eval(next, env, Eval(a, env, h).hist);
    assert Eval(LAnd(a, drop), env, h) == Eval(drop, env, Eval(a, env, h).hist);
    assert Eval(LAnd(d, next), env, h) == Eval(d, env, h);
  }

  /** `a || (a && b)` is an error, as an operand is missing. */
  lemma OperandMissing(a: Expr, b: Expr)
    requires !a.LAnd? && !a.LOr? && !b.LAnd?
    ensures BundleOf(LOr(a, LAnd(a, b))).None?
  {
    var d, rows := LOr(a, LAnd(a, b)), [[a], [a, b]];
    assert RowOf(LAnd(a, b)) == [a] + RowOf(b) == [a, b];
    assert MatrixOf(d) == [RowOf(d.a)] + MatrixOf(d.b) == rows;
    ShortBlocks(a, b, rows);
    assert rows[0..2] == rows && |rows[1]| > 1;
    assert OrsFrom(rows, 1, None).Mistyped?;
  }

  lemma {:induction false} AndsPlain(cells: Row)
    requires cells != []
    ensures !SideEffect(Ands(cells)) <==> (forall i | 0 <= i < |cells| :: !SideEffect(cells[i]))
    decreases |cells|
  {
    if |cells| > 1 {
      AndsPlain(cells[1..]);
      assert forall i | 1 <= i < |cells| :: cells[i] == cells[1..][i - 1];
    }
  }

  lemma {:induction false} OrsPlain(rows: seq<Row>)
    requires Rows(rows) && rows != []
    ensures !SideEffect(Ors(rows)) <==> (forall i | 0 <= i < |rows| :: !SideEffect(Ands(rows[i])))
    decreases |rows|
  {
    if |rows| > 1 {
      OrsPlain(rows[1..]);
      assert forall i | 1 <= i < |rows| :: rows[i] == rows[1..][i - 1];
    }
  }

  lemma {:induction false} AndsThenPlain(cells: Row, x: Expr)
    requires !SideEffect(x) && forall i | 0 <= i < |cells| :: !SideEffect(cells[i])
    ensures !SideEffect(AndsThen(cells, x))
    decreases |cells|
  {
    if cells != [] { AndsThenPlain(cells[1..], x); }
  }

  lemma {:induction false} OrsThenPlain(rows: seq<Row>, x: Expr)
    requires Rows(rows) && !SideEffect(x) && forall i | 0 <= i < |rows| :: !SideEffect(Ands(rows[i]))
    ensures !SideEffect(OrsThen(rows, x))
    decreases |rows|
  {
    if rows != [] { OrsThenPlain(rows[1..], x); }
  }

  lemma PartPlain(cells: Row, k: nat)
    requires k <= |cells| && cells != [] && !SideEffect(Ands(cells))
    ensures k > 0 ==> !SideEffect(Ands(cells[..k]))
    ensures k < |cells| ==> !SideEffect(Ands(cells[k..]))
  {
    AndsPlain(cells);
    if k > 0 { AndsPlain(cells[..k]); }
    if k < |cells| { AndsPlain(cells[k..]); }
  }

  lemma PlainBlock(rows: seq<Row>, from: nat, ors: nat, ands: nat)
    requires Rows(rows) && Block(rows, from, ors, ands) && !SideEffect(Ors(rows))
    requires Bundled(rows, from, ors, ands).Some?
    ensures CarefulBlock(rows, from, ors, ands) && !SideEffect(Bundled(rows, from, ors, ands).value)
  {
    var block, p := rows[from..from + ors], rows[from][..ands];
    OrsPlain(rows);
    PartPlain(rows[from], ands);
    Plain(Ands(p));
    forall i | 0 <= i < ors && |block[i]| > ands
      ensures !SideEffect(Ands(block[i][ands..])) && CountFree(Ands(block[i][ands..]))
    {
      assert block[i] == rows[from + i];
      PartPlain(block[i], ands);
      Plain(Ands(block[i][ands..]));
    }
    if |block[ors - 1]| > ands {
      OrsPlain(Tails(block, ands));
      AndsPlain(p);
      AndsThenPlain(p, Ors(Tails(block, ands)));
    }
  }

  lemma PlainRound(rows: seq<Row>, from: nat, ors: nat, ands: nat)
    requires Rows(rows) && Block(rows, from, ors, ands) && !SideEffect(Ors(rows))
    requires Rebuilt(rows, from, ors, ands).Some?
    ensures CarefulBlock(rows, from, ors, ands) && !SideEffect(Rebuilt(rows, from, ors, ands).value)
  {
    PlainBlock(rows, from, ors, ands);
    OrsPlain(rows);
    if from + ors < |rows| { OrsPlain(rows[from + ors..]); }
    OrsThenPlain(rows[..from], Behind(rows, from + ors, Bundled(rows, from, ors, ands).value));
  }

  /** Conditions are bundled carefully, if there is a result. */
  lemma {:induction false} PlainRounds(d: Expr)
    requires !SideEffect(d) && BundleOf(d).Some?
    ensures CarefulRounds(d)
    decreases Nodes(d)
  {
    var rows := MatrixOf(d);
    if Choice(rows).Some? {
      var (from, ors, ands) := Choice(rows).value;
      OrsOfMatrix(d);
      PlainRound(rows, from, ors, ands);
      RoundSmaller(rows, from, ors, ands);
      PlainRounds(Rebuilt(rows, from, ors, ands).value);
    } else {
      match d
      case LNot(a) => PlainRounds(a);
      case LAnd(a, b) => PlainRounds(a); PlainRounds(b);
      case LOr(a, b) => PlainRounds(a); PlainRounds(b);
      case _ =>
    }
  }
}
