/**
 * The results-table renderer `makeTable(players, result)` of the web client.
 *
 * The table has a header row (an empty corner cell, then one column header
 * per player) and one body row per player. Body row i starts with a row
 * header naming players[i]; in the source's column numbering j = 0 .. N,
 * column j == i + 1 is the player's own (diagonal) cell and shows the marker
 * " x ", and every other data cell shows the next value of the flat `result`
 * list, read through one cursor shared by all rows.
 *
 * The tags are kept exactly as the client writes them, including the data
 * cells that open with <td> and close with </th>, and the extra </tr> before
 * </tbody>. Result values are taken as the text the template literal
 * interpolates; a read past the end of `result` interpolates "undefined".
 */
module Table {

  const TableOpen: string := "<table class=\"table\"> <thead><tr>"
  const CornerHead: string := " <th scope=\"col\"></th>"
  const HeadClose: string := " </tr></thead><tbody>"
  const RowOpen: string := " <tr>"
  const RowClose: string := " </tr>"
  const TableClose: string := " </tr></tbody></table>"

  function ColHead(name: string): string {
    " <th scope=\"col\">" + name + "</th>"
  }

  /** What one cell of a body row shows. */
  datatype Cell = RowHeader(name: string) | SelfMarker | Data(value: string)

  function Render(cell: Cell): string {
    match cell
    case RowHeader(name) => " <th scope=\"row\">" + name + "</th>"
    case SelfMarker => " <td> x </th>"
    case Data(value) => " <td> " + value + " </th>"
  }

  /**
   * `${result[k]}`: the k-th value, or `undefined` for an index past the end
   * (stated outright by `AtIndex`).
   */
  function At(result: seq<string>, k: nat): (v: string)
    ensures k >= |result| ==> v == "undefined"
    decreases k
  {
    if result == [] then "undefined"
    else if k == 0 then result[0]
    else At(result[1..], k - 1)
  }

  /** Reading index k gives result[k] when it exists and `undefined` otherwise. */
  lemma {:induction false} AtIndex(result: seq<string>, k: nat)
    ensures At(result, k) == if k < |result| then result[k] else "undefined"
    decreases k
  {
    if result != [] && k > 0 {
      AtIndex(result[1..], k - 1);
    }
  }

  /**
   * The cursor value at the start of body row i: each earlier row holds
   * n - 1 data cells (every column but the diagonal one).
   */
  function RowStart(n: nat, i: nat): nat
    requires i <= n
    decreases i
  {
    if i == 0 then 0 else RowStart(n, i - 1) + n - 1
  }

  /** The number of entries a table of n players reads from `result`. */
  function Needed(n: nat): nat {
    RowStart(n, n)
  }

  /**
   * The cursor value when data column c (0-based, c <= n) of body row i is
   * reached: the off-diagonal cells before it in row-major order. For an
   * off-diagonal c this is the index of the result the cell shows.
   */
  function CursorAt(n: nat, i: nat, c: nat): nat
    requires i < n && c <= n
  {
    RowStart(n, i) + c - (if c > i then 1 else 0)
  }

  /** The cursor value when cell j (source numbering) of body row i is reached. */
  function CursorBefore(n: nat, i: nat, j: nat): nat
    requires i < n && j <= n + 1
  {
    if j == 0 then RowStart(n, i) else CursorAt(n, i, j - 1)
  }

  /** Cell j (source numbering, j = 0 is the row header) of body row i. */
  function CellAt(players: seq<string>, result: seq<string>, i: nat, j: nat): Cell
    requires i < |players| && j <= |players|
  {
    if j == 0 then RowHeader(players[i])
    else if i + 1 == j then SelfMarker
    else Data(At(result, CursorAt(|players|, i, j - 1)))
  }

  /** `html` followed by the first j cells of body row i. */
  function RowCells(html: string, players: seq<string>, result: seq<string>, i: nat, j: nat): string
    requires i < |players| && j <= |players| + 1
    decreases j
  {
    if j == 0 then html
    else RowCells(html, players, result, i, j - 1) + Render(CellAt(players, result, i, j - 1))
  }

  /** `html` followed by the first k body rows. */
  function Rows(html: string, players: seq<string>, result: seq<string>, k: nat): string
    requires k <= |players|
    decreases k
  {
    if k == 0 then html
    else RowCells(Rows(html, players, result, k - 1) + RowOpen, players, result, k - 1, |players| + 1) + RowClose
  }

  /** `html` followed by the column headers of the first k players. */
  function HeadCells(html: string, players: seq<string>, k: nat): string
    requires k <= |players|
    decreases k
  {
    if k == 0 then html else HeadCells(html, players, k - 1) + ColHead(players[k - 1])
  }

  /** The whole table, cell by cell, each data cell located by `CursorAt`. */
  function TableText(players: seq<string>, result: seq<string>): string
  {
    var head := HeadCells(TableOpen + CornerHead, players, |players|) + HeadClose;
    Rows(head, players, result, |players|) + TableClose
  }

  /**
   * makeTable: appends to the table text cell by cell, reading data values
   * through a cursor that each data cell advances by one. The text equals
   * `TableText`, and the cursor ends at Needed(N) = N * (N - 1).
   */
  method MakeTable(players: seq<string>, result: seq<string>) returns (html: string, ghost cursor: nat)
    ensures html == TableText(players, result)
    ensures cursor == Needed(|players|)
  {
    var n := |players|;
    html := HeaderRow(players);
    ghost var head := html;
    var count := 0;
    var i := 0;
    while i < n
      invariant 0 <= i <= n
      invariant count == RowStart(n, i)
      invariant html == Rows(head, players, result, i)
    {
      html, count := BodyRow(players, result, i, html, count);
      i := i + 1;
    }
    html := html + TableClose;
    cursor := count;
  }

  /** makeTable's table opening and head row: the corner cell, then one column header per player. */
  method HeaderRow(players: seq<string>) returns (html: string)
    ensures html == HeadCells(TableOpen + CornerHead, players, |players|) + HeadClose
  {
    html := TableOpen;
    html := html + CornerHead;
    var p := 0;
    while p < |players|
      invariant 0 <= p <= |players|
      invariant html == HeadCells(TableOpen + CornerHead, players, p)
    {
      html := html + ColHead(players[p]);
      p := p + 1;
    }
    html := html + HeadClose;
  }

  /**
   * One pass of makeTable's outer loop: appends body row i, whose data
   * cells advance the cursor from the start of row i to the start of row
   * i + 1.
   */
  method BodyRow(players: seq<string>, result: seq<string>, i: nat, html0: string, count0: nat)
    returns (html: string, count: nat)
    requires i < |players| && count0 == RowStart(|players|, i)
    ensures html == RowCells(html0 + RowOpen, players, result, i, |players| + 1) + RowClose
    ensures count == RowStart(|players|, i + 1)
  {
    var n := |players|;
    html, count := html0 + RowOpen, count0;
    ghost var rowStart := html;
    var j := 0;
    while j < n + 1
      invariant 0 <= j <= n + 1
      invariant count == CursorBefore(n, i, j)
      invariant html == RowCells(rowStart, players, result, i, j)
    {
      html, count := BodyCell(players, result, i, j, html, count);
      j := j + 1;
    }
    CursorAtRowEnd(n, i);
    html := html + RowClose;
  }

  /**
   * One pass of makeTable's inner loop: appends cell j of body row i. A data
   * cell shows the value under the cursor and advances it by one; the row
   * header and the diagonal marker leave it where it is.
   */
  method BodyCell(players: seq<string>, result: seq<string>, i: nat, j: nat, html0: string, count0: nat)
    returns (html: string, count: nat)
    requires i < |players| && j <= |players|
    requires count0 == CursorBefore(|players|, i, j)
    ensures html == html0 + Render(CellAt(players, result, i, j))
    ensures count == CursorBefore(|players|, i, j + 1)
  {
    html, count := html0, count0;
    if j == 0 {
      html := html + Render(RowHeader(players[i]));
    } else if i + 1 == j {
      CursorStep(|players|, i, j);
      html := html + Render(SelfMarker);
    } else {
      CursorStep(|players|, i, j);
      html := html + Render(Data(At(result, count)));
      count := count + 1;
    }
  }

  /** Moving past data column j - 1 advances the cursor by one, unless it is the diagonal. */
  lemma CursorStep(n: nat, i: nat, j: nat)
    requires i < n && 1 <= j <= n
    ensures CursorAt(n, i, j) == CursorAt(n, i, j - 1) + (if i + 1 == j then 0 else 1)
  {
  }

  /** After the last data column of row i the cursor is at the start of row i + 1. */
  lemma CursorAtRowEnd(n: nat, i: nat)
    requires i < n
    ensures CursorAt(n, i, n) == RowStart(n, i + 1)
  {
  }

  /** Closed form of the row start: row i begins at i * (n - 1). */
  lemma {:induction false} RowStartIsProduct(n: nat, i: nat)
    requires i <= n
    ensures RowStart(n, i) == i * (n - 1)
    decreases i
  {
    if i > 0 {
      RowStartIsProduct(n, i - 1);
    }
  }

  /** The cell in row i, data column c reads result index i * (n - 1) + c, less one past the diagonal. */
  lemma CursorClosedForm(n: nat, i: nat, c: nat)
    requires i < n && c <= n
    ensures CursorAt(n, i, c) == i * (n - 1) + c - (if c > i then 1 else 0)
  {
    RowStartIsProduct(n, i);
  }

  /** A table of n players reads n * (n - 1) results. */
  lemma NeededIsProduct(n: nat)
    ensures Needed(n) == n * (n - 1)
  {
    RowStartIsProduct(n, n);
  }

  /** Later rows start at least one full row further on. */
  lemma {:induction false} RowStartMono(n: nat, i: nat, i': nat)
    requires i < i' <= n
    ensures RowStart(n, i) + n - 1 <= RowStart(n, i')
    decreases i'
  {
    if i + 1 < i' {
      RowStartMono(n, i, i' - 1);
    }
  }

  /** Every off-diagonal cell reads inside 0 .. Needed(n) - 1. */
  lemma CursorInRange(n: nat, i: nat, c: nat)
    requires i < n && c < n && c != i
    ensures CursorAt(n, i, c) < Needed(n)
  {
    RowStartMono(n, i, n);
  }

  /**
   * The cursor strictly increases over off-diagonal cells in row-major order,
   * so no result index is read by two cells.
   */
  lemma CursorRowMajor(n: nat, i: nat, c: nat, i': nat, c': nat)
    requires i < n && c < n && c != i
    requires i' < n && c' < n && c' != i'
    requires i < i' || (i == i' && c < c')
    ensures CursorAt(n, i, c) < CursorAt(n, i', c')
  {
    if i < i' {
      RowStartMono(n, i, i');
    }
  }

  /** The body row whose data cells read result index k, searched from row i on. */
  function RowReading(n: nat, k: nat, i: nat): (r: nat)
    requires i < n && RowStart(n, i) <= k < Needed(n)
    ensures i <= r < n && RowStart(n, r) <= k < RowStart(n, r) + n - 1
    decreases n - i
  {
    if k < RowStart(n, i) + n - 1 then i
    else
      assert RowStart(n, i + 1) == RowStart(n, i) + n - 1;
      RowReading(n, k, i + 1)
  }

  /** The off-diagonal cell (row, data column) that reads result index k. */
  function CellReading(n: nat, k: nat): (ic: (nat, nat))
    requires k < Needed(n)
    ensures ic.0 < n && ic.1 < n && ic.1 != ic.0
    ensures CursorAt(n, ic.0, ic.1) == k
  {
    var i := RowReading(n, k, 0);
    var r := k - RowStart(n, i);
    if r < i then (i, r) else (i, r + 1)
  }

  /** Every index 0 .. Needed(n) - 1 is read by some off-diagonal cell. */
  lemma CursorOnto(n: nat, k: nat)
    requires k < Needed(n)
    ensures exists i: nat, c: nat :: i < n && c < n && c != i && CursorAt(n, i, c) == k
  {
    var ic := CellReading(n, k);
    assert ic.0 < n && ic.1 < n && ic.1 != ic.0 && CursorAt(n, ic.0, ic.1) == k;
  }

  /** The values shown by the data cells among the first j cells of row i, left to right. */
  function RowValues(players: seq<string>, result: seq<string>, i: nat, j: nat): seq<string>
    requires i < |players| && j <= |players| + 1
    decreases j
  {
    if j == 0 then []
    else RowValues(players, result, i, j - 1) + match CellAt(players, result, i, j - 1)
      case Data(v) => [v]
      case _ => []
  }

  /** The values shown by the data cells of the first k rows, row-major. */
  function TableValues(players: seq<string>, result: seq<string>, k: nat): seq<string>
    requires k <= |players|
    decreases k
  {
    if k == 0 then [] else TableValues(players, result, k - 1) + RowValues(players, result, k - 1, |players| + 1)
  }

  /** The entries lo .. hi - 1 of `result` as the table interpolates them. */
  function Slice(result: seq<string>, lo: nat, hi: nat): (s: seq<string>)
    requires lo <= hi
    ensures |s| == hi - lo
    ensures forall k :: 0 <= k < hi - lo ==> s[k] == At(result, lo + k)
    decreases hi
  {
    if lo == hi then [] else Slice(result, lo, hi - 1) + [At(result, hi - 1)]
  }

  /** The data cells among the first j cells of row i show the next values from the row's start. */
  lemma {:induction false} RowValuesSlice(players: seq<string>, result: seq<string>, i: nat, j: nat)
    requires i < |players| && 1 <= j <= |players| + 1
    ensures RowValues(players, result, i, j)
         == Slice(result, RowStart(|players|, i), CursorAt(|players|, i, j - 1))
    decreases j
  {
    var n := |players|;
    if j == 1 {
      assert RowValues(players, result, i, 0) == [];
    } else {
      RowValuesSlice(players, result, i, j - 1);
      CursorStep(n, i, j - 1);
    }
  }

  /**
   * Read row-major, the data cells of the first k rows show result[0],
   * result[1], ..., result[RowStart(N, k) - 1]: each value exactly once, in
   * order.
   */
  lemma {:induction false} TableValuesSlice(players: seq<string>, result: seq<string>, k: nat)
    requires k <= |players|
    ensures TableValues(players, result, k) == Slice(result, 0, RowStart(|players|, k))
    decreases k
  {
    var n := |players|;
    if k > 0 {
      TableValuesSlice(players, result, k - 1);
      RowValuesSlice(players, result, k - 1, n + 1);
      CursorAtRowEnd(n, k - 1);
      RowStartMono(n, k - 1, k);
      SliceSplit(result, 0, RowStart(n, k - 1), RowStart(n, k));
    }
  }

  /** Two adjacent slices make up the slice over both ranges. */
  lemma SliceSplit(result: seq<string>, lo: nat, mid: nat, hi: nat)
    requires lo <= mid <= hi
    ensures Slice(result, lo, mid) + Slice(result, mid, hi) == Slice(result, lo, hi)
  {
  }

  /** Within bounds, the interpolated entries are the entries themselves. */
  lemma SliceIsPrefix(result: seq<string>, m: nat)
    requires m <= |result|
    ensures Slice(result, 0, m) == result[..m]
  {
    forall k | 0 <= k < m
      ensures Slice(result, 0, m)[k] == result[k]
    {
      AtIndex(result, k);
    }
  }

  /**
   * With at least N * (N - 1) results, the data cells of the table show
   * exactly result[..N * (N - 1)], in order, and never "undefined" instead.
   */
  lemma FullResultShown(players: seq<string>, result: seq<string>)
    requires |result| >= |players| * (|players| - 1)
    ensures TableValues(players, result, |players|) == result[..|players| * (|players| - 1)]
  {
    var n := |players|;
    NeededIsProduct(n);
    TableValuesSlice(players, result, n);
    SliceIsPrefix(result, Needed(n));
  }

  /**
   * With a full-size result, the off-diagonal cell j of body row i shows
   * result[i * (N - 1) + c - (1 if c > i)], where c = j - 1 is its data column.
   */
  lemma DataCellValue(players: seq<string>, result: seq<string>, i: nat, j: nat)
    requires i < |players| && 1 <= j <= |players| && j != i + 1
    requires |result| >= |players| * (|players| - 1)
    ensures var n, c := |players|, j - 1;
      var k := i * (n - 1) + c - (if c > i then 1 else 0);
      k < |result| && CellAt(players, result, i, j) == Data(result[k])
  {
    var n := |players|;
    CursorClosedForm(n, i, j - 1);
    CursorInRange(n, i, j - 1);
    NeededIsProduct(n);
    AtIndex(result, CursorAt(n, i, j - 1));
  }

  /** Appending cells keeps what was written before as a prefix. */
  lemma {:induction false} RowCellsExtends(html: string, players: seq<string>, result: seq<string>, i: nat, j: nat)
    requires i < |players| && j <= |players| + 1
    ensures html <= RowCells(html, players, result, i, j)
    decreases j
  {
    if j > 0 {
      RowCellsExtends(html, players, result, i, j - 1);
    }
  }

  /** Appending body row k - 1 keeps the first k - 1 rows as a prefix. */
  lemma RowsStep(html: string, players: seq<string>, result: seq<string>, k: nat)
    requires 0 < k <= |players|
    ensures Rows(html, players, result, k - 1) <= Rows(html, players, result, k)
  {
    var before := Rows(html, players, result, k - 1);
    var row := RowCells(before + RowOpen, players, result, k - 1, |players| + 1);
    PrefixAppend(before, before, RowOpen);
    RowCellsExtends(before + RowOpen, players, result, k - 1, |players| + 1);
    PrefixTrans(before, before + RowOpen, row);
    PrefixAppend(before, row, RowClose);
  }

  lemma {:induction false} RowsExtends(html: string, players: seq<string>, result: seq<string>, k: nat)
    requires k <= |players|
    ensures html <= Rows(html, players, result, k)
    decreases k
  {
    if k > 0 {
      RowsExtends(html, players, result, k - 1);
      RowsStep(html, players, result, k);
      PrefixTrans(html, Rows(html, players, result, k - 1), Rows(html, players, result, k));
    }
  }

  /** Text followed by more text still starts with any prefix of the first part. */
  lemma PrefixAppend(a: string, b: string, c: string)
    requires a <= b
    ensures a <= b + c
  {
  }

  /** Being a prefix is transitive. */
  lemma PrefixTrans(a: string, b: string, c: string)
    requires a <= b && b <= c
    ensures a <= c
  {
  }

  lemma {:induction false} HeadCellsExtends(html: string, players: seq<string>, k: nat)
    requires k <= |players|
    ensures html <= HeadCells(html, players, k)
    decreases k
  {
    if k > 0 {
      HeadCellsExtends(html, players, k - 1);
    }
  }

  /**
   * The table always opens with the table and corner-cell tags and closes
   * with the extra row end and the table end.
   */
  lemma TableFrame(players: seq<string>, result: seq<string>)
    ensures TableOpen + CornerHead <= TableText(players, result)
    ensures var html := TableText(players, result);
      |html| >= |TableClose| && html[|html| - |TableClose|..] == TableClose
  {
    var head := HeadCells(TableOpen + CornerHead, players, |players|);
    HeadCellsExtends(TableOpen + CornerHead, players, |players|);
    RowsExtends(head + HeadClose, players, result, |players|);
  }

  /**
   * Two players A and B with results r1 and r2: the header, then row A with
   * the marker on the diagonal and r1, then row B with r2 and the marker.
   */
  lemma TwoPlayerExample()
    ensures TableText(["A", "B"], ["r1", "r2"])
         == TableOpen + CornerHead + ColHead("A") + ColHead("B") + HeadClose
          + RowOpen + Render(RowHeader("A")) + Render(SelfMarker) + Render(Data("r1")) + RowClose
          + RowOpen + Render(RowHeader("B")) + Render(Data("r2")) + Render(SelfMarker) + RowClose
          + TableClose
  {
    var players, result := ["A", "B"], ["r1", "r2"];
    assert At(result, CursorAt(2, 0, 1)) == "r1";
    assert At(result, CursorAt(2, 1, 0)) == "r2";
    var head := TableOpen + CornerHead + ColHead("A") + ColHead("B") + HeadClose;
    assert HeadCells(TableOpen + CornerHead, players, 2) + HeadClose == head;
    var a0, a1, a2 := Render(RowHeader("A")), Render(SelfMarker), Render(Data("r1"));
    var b0, b1, b2 := Render(RowHeader("B")), Render(Data("r2")), Render(SelfMarker);
    var open0 := Rows(head, players, result, 0) + RowOpen;
    assert RowCells(open0, players, result, 0, 1) == open0 + a0;
    assert RowCells(open0, players, result, 0, 2) == open0 + a0 + a1;
    assert RowCells(open0, players, result, 0, 3) == open0 + a0 + a1 + a2;
    var open1 := Rows(head, players, result, 1) + RowOpen;
    assert open1 == head + RowOpen + a0 + a1 + a2 + RowClose + RowOpen;
    assert RowCells(open1, players, result, 1, 1) == open1 + b0;
    assert RowCells(open1, players, result, 1, 2) == open1 + b0 + b1;
    assert RowCells(open1, players, result, 1, 3) == open1 + b0 + b1 + b2;
  }
}
