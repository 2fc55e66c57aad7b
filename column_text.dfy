/**
 * What the two printers of src/libmc/mc.c write, stated on values: the
 * column-major layout of print_many_per_line and the row-major layout of
 * print_horizontal, each for a given list of column widths (one per
 * column, so |widths| is the column count).
 */
module ColumnText {
  import opened ColumnFit

  /** Appending a text piece by piece or all at once gives the same output. */
  lemma AppendAssoc(t: seq<char>, a: seq<char>, b: seq<char>)
    ensures t + a + b == t + (a + b)
  {
  }

  /** The same for three pieces. */
  lemma AppendInParts(t: seq<char>, a: seq<char>, b: seq<char>, c: seq<char>)
    ensures t + a + b + c == t + (a + b + c)
  {
  }

  /** Appending nothing, before or after, leaves a text as it is. */
  lemma AppendNil(t: seq<char>)
    ensures t + [] == t && [] + t == t
  {
  }

  function Spaces(k: nat): (s: seq<char>)
    ensures |s| == k
    ensures forall j :: 0 <= j < k ==> s[j] == ' '
  {
    if k == 0 then [] else Spaces(k - 1) + [' ']
  }

  /** An element followed by blanks up to width; nothing is added when it is already that wide. */
  function Pad(elem: seq<char>, width: nat): (s: seq<char>)
    ensures |s| == if |elem| < width then width else |elem|
    ensures |elem| <= |s| && s[..|elem|] == elem
    ensures forall j :: |elem| <= j < |s| ==> s[j] == ' '
  {
    elem + Spaces(if |elem| < width then width - |elem| else 0)
  }

  /** The text of one cell in column col: padded to the column width except in the last column. */
  function Cell(elem: seq<char>, col: nat, widths: seq<nat>): (s: seq<char>)
    requires col < |widths|
    ensures |elem| <= |s| && s[..|elem|] == elem
    ensures col == |widths| - 1 ==> s == elem
    ensures col < |widths| - 1 ==> |s| == if |elem| < widths[col] then widths[col] else |elem|
  {
    if col < |widths| - 1 then Pad(elem, widths[col]) else elem
  }

  // ---------------------------------------------------------------------
  // Column-major layout (print_many_per_line)

  /** Rows of the column-major layout: one more row for every cols elements or part of them. */
  function RowCount(nelem: nat, cols: nat): (rows: nat)
    requires 0 < cols
    ensures rows <= nelem
    decreases nelem
  {
    if nelem == 0 then 0
    else if nelem <= cols then 1
    else 1 + RowCount(nelem - cols, cols)
  }

  /** rows * cols is the least multiple of cols that holds all nelem elements. */
  lemma {:induction false} RowCountSpan(nelem: nat, cols: nat)
    requires 0 < cols
    ensures nelem <= RowCount(nelem, cols) * cols < nelem + cols
    decreases nelem
  {
    if nelem > cols {
      RowCountSpan(nelem - cols, cols);
      var rest := RowCount(nelem - cols, cols);
      assert (1 + rest) * cols == rest * cols + cols;
    }
  }

  /** The row count is the one print_many_per_line computes: nelem / cols, plus one for a remainder. */
  lemma RowCountDiv(nelem: nat, cols: nat)
    requires 0 < cols
    ensures RowCount(nelem, cols) == nelem / cols + (if nelem % cols != 0 then 1 else 0)
  {
    RowCountSpan(nelem, cols);
    CeilingQuotient(nelem, cols, RowCount(nelem, cols));
  }

  /** The printer's row count is the one the counting pass used for the same candidate. */
  lemma RowsAgree(nelem: nat, cols: nat)
    requires 0 < nelem && 0 < cols
    ensures RowCount(nelem, cols) == Rows(nelem, cols - 1)
  {
    RowCountSpan(nelem, cols);
    MulUnique(RowCount(nelem, cols), Rows(nelem, cols - 1), cols, nelem);
  }

  /** Every row holds at least one element, and rows * cols places them all. */
  lemma RowCountBounds(nelem: nat, cols: nat)
    requires 0 < nelem && 0 < cols
    ensures 1 <= RowCount(nelem, cols) <= nelem
    ensures nelem <= RowCount(nelem, cols) * cols
  {
    RowCountSpan(nelem, cols);
    var rows := RowCount(nelem, cols);
    MulStep(nelem, rows, cols);
    MulAtLeast(cols, nelem);
  }

  /** How many cells the row that starts with element enr has: one per element enr, enr + rows, ... below nelem. */
  function RowSize(nelem: nat, rows: nat, enr: nat): (size: nat)
    requires 0 < rows && enr < nelem
    ensures 0 < size
    decreases nelem - enr
  {
    if enr + rows >= nelem then 1 else 1 + RowSize(nelem, rows, enr + rows)
  }

  /** The elements printed on the row that starts with element enr: enr, enr + rows, ... while below nelem. */
  function RowIndices(nelem: nat, rows: nat, enr: nat): (idx: seq<nat>)
    requires 0 < rows && enr < nelem
    ensures |idx| == RowSize(nelem, rows, enr) && idx[0] == enr
    ensures forall k :: 0 <= k < |idx| ==> idx[k] < nelem
    ensures nelem <= idx[|idx| - 1] + rows
    decreases nelem - enr
  {
    [enr] + (if enr + rows >= nelem then [] else RowIndices(nelem, rows, enr + rows))
  }

  /** The k-th cell of a row holds element enr + k * rows. */
  lemma {:induction false} RowIndicesAt(nelem: nat, rows: nat, enr: nat, k: nat)
    requires 0 < rows && enr < nelem && k < |RowIndices(nelem, rows, enr)|
    ensures RowIndices(nelem, rows, enr)[k] == enr + k * rows
    decreases k
  {
    if k > 0 {
      RowIndicesAt(nelem, rows, enr + rows, k - 1);
      assert (k - 1) * rows + rows == k * rows;
    }
  }

  /** Along a row the element number grows by rows, and the row ends at the first one past nelem. */
  lemma RowIndicesNext(nelem: nat, rows: nat, enr: nat, k: nat)
    requires 0 < rows && enr < nelem && k < |RowIndices(nelem, rows, enr)|
    ensures k + 1 < |RowIndices(nelem, rows, enr)| <==> RowIndices(nelem, rows, enr)[k] + rows < nelem
    ensures k + 1 < |RowIndices(nelem, rows, enr)| ==>
      RowIndices(nelem, rows, enr)[k + 1] == RowIndices(nelem, rows, enr)[k] + rows
  {
    var idx := RowIndices(nelem, rows, enr);
    RowIndicesAt(nelem, rows, enr, k);
    if k + 1 < |idx| {
      RowIndicesAt(nelem, rows, enr, k + 1);
      assert (k + 1) * rows == k * rows + rows;
    } else {
      assert k == |idx| - 1;
    }
  }

  /** No row of the column-major layout has more cells than there are columns. */
  lemma RowLength(nelem: nat, cols: nat, r: nat)
    requires 0 < nelem && 0 < cols && r < RowCount(nelem, cols)
    ensures r < nelem
    ensures RowSize(nelem, RowCount(nelem, cols), r) <= cols
  {
    RowCountBounds(nelem, cols);
    var rows := RowCount(nelem, cols);
    var idx := RowIndices(nelem, rows, r);
    var last := |idx| - 1;
    RowIndicesAt(nelem, rows, r, last);
    assert last * rows < rows * cols;
    MulStep(cols - 1, last, rows);
    assert (cols - 1) * rows + rows == rows * cols;
  }

  /** The last element of the row that reaches element enr. */
  function RowLast(nelem: nat, rows: nat, enr: nat): (last: nat)
    requires 0 < rows && enr < nelem
    ensures enr <= last < nelem <= last + rows
    decreases nelem - enr
  {
    if enr + rows >= nelem then enr else RowLast(nelem, rows, enr + rows)
  }

  /** print_many_per_line writes the indent just before the cell in column 0. */
  function RowLead(indent: nat, col: nat): seq<char>
  {
    if col == 0 then Spaces(indent) else []
  }

  /**
   * What a row writes before it reaches element enr in column col: the indent
   * and the cells of the col elements enr - col * rows, ..., enr - rows. The
   * guard only keeps the function total; along a row it always holds.
   */
  function RowUpTo(elems: seq<seq<char>>, widths: seq<nat>, indent: nat, rows: nat, enr: nat, col: nat): seq<char>
    decreases col
  {
    if col == 0 || enr < rows || |elems| <= enr - rows || |widths| < col then []
    else
      RowUpTo(elems, widths, indent, rows, enr - rows, col - 1)
      + RowLead(indent, col - 1) + Cell(elems[enr - rows], col - 1, widths)
  }

  /** One more cell: the row text up to element enr + rows extends the one up to enr by the cell of enr. */
  lemma RowUpToStep(elems: seq<seq<char>>, widths: seq<nat>, indent: nat, rows: nat, enr: nat, col: nat)
    requires enr < |elems| && col < |widths|
    ensures RowUpTo(elems, widths, indent, rows, enr + rows, col + 1)
      == RowUpTo(elems, widths, indent, rows, enr, col) + RowLead(indent, col) + Cell(elems[enr], col, widths)
  {
  }

  /** Moving along a row by rows elements: one cell fewer to go and the same last element, unless enr was the last. */
  lemma RowAdvance(nelem: nat, rows: nat, enr: nat)
    requires 0 < rows && enr < nelem
    ensures enr + rows < nelem ==>
      RowSize(nelem, rows, enr) == 1 + RowSize(nelem, rows, enr + rows) && RowLast(nelem, rows, enr) == RowLast(nelem, rows, enr + rows)
    ensures nelem <= enr + rows ==> RowSize(nelem, rows, enr) == 1 && RowLast(nelem, rows, enr) == enr
  {
  }

  /** Printing row r has reached element enr, which sits in column col. */
  ghost predicate RowPrinting(nelem: nat, rows: nat, r: nat, enr: nat, col: nat)
  {
    && 0 < rows && r < nelem && enr < nelem
    && col + RowSize(nelem, rows, enr) == RowSize(nelem, rows, r)
    && RowLast(nelem, rows, enr) == RowLast(nelem, rows, r)
  }

  /**
   * One step along row r: the cell of enr lies in a column that exists, the
   * text grows by that cell, and either the row goes on at enr + rows in the
   * next column or enr was its last element and a newline completes it.
   */
  lemma RowNext(elems: seq<seq<char>>, widths: seq<nat>, indent: nat, rows: nat, r: nat, enr: nat, col: nat)
    requires RowPrinting(|elems|, rows, r, enr, col) && RowSize(|elems|, rows, r) <= |widths|
    ensures col < |widths|
    ensures RowUpTo(elems, widths, indent, rows, enr + rows, col + 1)
      == RowUpTo(elems, widths, indent, rows, enr, col) + RowLead(indent, col) + Cell(elems[enr], col, widths)
    ensures enr + rows < |elems| ==> RowPrinting(|elems|, rows, r, enr + rows, col + 1)
    ensures |elems| <= enr + rows ==>
      RowText(elems, widths, indent, rows, r) == RowUpTo(elems, widths, indent, rows, enr + rows, col + 1) + "\n"
  {
    RowUpToStep(elems, widths, indent, rows, enr, col);
    RowAdvance(|elems|, rows, enr);
  }

  /** Text t0 followed by row text up to enr and then the cell of enr is t0 followed by the row text up to enr + rows. */
  lemma RowUpToNext(elems: seq<seq<char>>, widths: seq<nat>, indent: nat, rows: nat, enr: nat, col: nat, t0: seq<char>, t: seq<char>)
    requires enr < |elems| && col < |widths|
    requires t == t0 + RowUpTo(elems, widths, indent, rows, enr, col) + RowLead(indent, col) + Cell(elems[enr], col, widths)
    ensures t == t0 + RowUpTo(elems, widths, indent, rows, enr + rows, col + 1)
  {
    RowUpToStep(elems, widths, indent, rows, enr, col);
    AppendInParts(t0, RowUpTo(elems, widths, indent, rows, enr, col), RowLead(indent, col), Cell(elems[enr], col, widths));
  }

  /** The row of the column-major layout that starts with element r: the indent, its cells and a newline. */
  function RowText(elems: seq<seq<char>>, widths: seq<nat>, indent: nat, rows: nat, r: nat): seq<char>
    requires 0 < rows && r < |elems|
  {
    RowUpTo(elems, widths, indent, rows, RowLast(|elems|, rows, r) + rows, RowSize(|elems|, rows, r)) + "\n"
  }

  /** The first k rows of the column-major layout, rows being its row count. */
  function ColumnarRows(elems: seq<seq<char>>, widths: seq<nat>, indent: nat, rows: nat, k: nat): seq<char>
    requires rows <= |elems| && k <= rows
  {
    if k == 0 then []
    else
      ColumnarRows(elems, widths, indent, rows, k - 1) + RowText(elems, widths, indent, rows, k - 1)
  }

  /** Text t0 followed by the first k rows and then row k is t0 followed by the first k + 1 rows. */
  lemma ColumnarRowsNext(elems: seq<seq<char>>, widths: seq<nat>, indent: nat, rows: nat, k: nat, t0: seq<char>, t: seq<char>)
    requires rows <= |elems| && k < rows
    requires t == t0 + ColumnarRows(elems, widths, indent, rows, k) + RowText(elems, widths, indent, rows, k)
    ensures t == t0 + ColumnarRows(elems, widths, indent, rows, k + 1)
  {
    AppendAssoc(t0, ColumnarRows(elems, widths, indent, rows, k), RowText(elems, widths, indent, rows, k));
  }

  function ColumnarText(elems: seq<seq<char>>, widths: seq<nat>, indent: nat): seq<char>
    requires 0 < |elems| && 0 < |widths|
  {
    RowCountBounds(|elems|, |widths|);
    var rows := RowCount(|elems|, |widths|);
    ColumnarRows(elems, widths, indent, rows, rows)
  }

  /** The cells of a row in order: cell j holds element idx[j] in column j, with the indent before column 0. */
  function RowCells(elems: seq<seq<char>>, widths: seq<nat>, indent: nat, idx: seq<nat>): seq<char>
    requires |idx| <= |widths| && forall j :: 0 <= j < |idx| ==> idx[j] < |elems|
    decreases |idx|
  {
    if idx == [] then []
    else
      var k := |idx| - 1;
      RowCells(elems, widths, indent, idx[..k]) + RowLead(indent, k) + Cell(elems[idx[k]], k, widths)
  }

  /** The cells of the first k + 1 elements of a list are those of the first k and the cell of element k. */
  lemma RowCellsLast(elems: seq<seq<char>>, widths: seq<nat>, indent: nat, idx: seq<nat>, k: nat)
    requires k < |idx| <= |widths| && forall j :: 0 <= j < |idx| ==> idx[j] < |elems|
    ensures RowCells(elems, widths, indent, idx[..k + 1])
      == RowCells(elems, widths, indent, idx[..k]) + (RowLead(indent, k) + Cell(elems[idx[k]], k, widths))
  {
    assert idx[..k + 1][..k] == idx[..k];
  }

  /** The cells of the first element of a list: the indent and its cell in column 0. */
  lemma RowCellsFirst(elems: seq<seq<char>>, widths: seq<nat>, indent: nat, idx: seq<nat>)
    requires 0 < |idx| <= |widths| && forall j :: 0 <= j < |idx| ==> idx[j] < |elems|
    ensures RowCells(elems, widths, indent, idx[..1]) == RowLead(indent, 0) + Cell(elems[idx[0]], 0, widths)
  {
    RowCellsLast(elems, widths, indent, idx, 0);
    assert idx[..0] == [];
  }


  /** The last element of a row lies RowSize - 1 steps of rows after its first. */
  lemma {:induction false} RowLastIs(nelem: nat, rows: nat, enr: nat)
    requires 0 < rows && enr < nelem
    ensures RowLast(nelem, rows, enr) == enr + (RowSize(nelem, rows, enr) - 1) * rows
    decreases nelem - enr
  {
    if enr + rows < nelem {
      RowLastIs(nelem, rows, enr + rows);
      var s := RowSize(nelem, rows, enr + rows);
      assert (s - 1) * rows + rows == s * rows;
    }
  }

  /**
   * For elements spaced rows apart, what a row writes before the element
   * after the k-th is the cells of the first k.
   */
  lemma {:induction false} RowUpToCells(elems: seq<seq<char>>, widths: seq<nat>, indent: nat, rows: nat, idx: seq<nat>, k: nat)
    requires 0 < k <= |idx| <= |widths|
    requires forall j :: 0 <= j < |idx| ==> idx[j] < |elems| && idx[j] == idx[0] + j * rows
    ensures RowUpTo(elems, widths, indent, rows, idx[k - 1] + rows, k) == RowCells(elems, widths, indent, idx[..k])
    decreases k
  {
    var e := idx[k - 1];
    var lead, cell := RowLead(indent, k - 1), Cell(elems[e], k - 1, widths);
    RowUpToStep(elems, widths, indent, rows, e, k - 1);
    if k == 1 {
      RowCellsFirst(elems, widths, indent, idx);
      AppendAssoc([], lead, cell);
    } else {
      RowUpToCells(elems, widths, indent, rows, idx, k - 1);
      assert idx[k - 2] + rows == e by {
        assert (k - 1) * rows == (k - 2) * rows + rows;
      }
      RowCellsLast(elems, widths, indent, idx, k - 1);
      AppendAssoc(RowCells(elems, widths, indent, idx[..k - 1]), lead, cell);
    }
  }

  /** The row that print_many_per_line writes for row r is the cells of the elements r, r + rows, ... and a newline. */
  lemma RowTextIsIndices(elems: seq<seq<char>>, widths: seq<nat>, indent: nat, rows: nat, r: nat)
    requires 0 < rows && r < |elems| && RowSize(|elems|, rows, r) <= |widths|
    ensures RowText(elems, widths, indent, rows, r)
      == RowCells(elems, widths, indent, RowIndices(|elems|, rows, r)) + "\n"
  {
    var idx, n := RowIndices(|elems|, rows, r), RowSize(|elems|, rows, r);
    forall j | 0 <= j < |idx|
      ensures idx[j] == idx[0] + j * rows
    {
      RowIndicesAt(|elems|, rows, r, j);
    }
    RowLastIs(|elems|, rows, r);
    assert RowLast(|elems|, rows, r) == idx[n - 1];
    RowUpToCells(elems, widths, indent, rows, idx, n);
    assert idx[..n] == idx;
  }



  /** Rows k .. m - 1 of the column-major layout, rows being its row count. */
  function RowsBetween(elems: seq<seq<char>>, widths: seq<nat>, indent: nat, rows: nat, k: nat, m: nat): seq<char>
    requires rows <= |elems| && k <= m <= rows
    decreases m
  {
    if m == k then []
    else
      RowsBetween(elems, widths, indent, rows, k, m - 1) + RowText(elems, widths, indent, rows, m - 1)
  }

  /** Row r of the column-major layout stands between rows 0 .. r - 1 and rows r + 1 .. m - 1 in the first m rows. */
  lemma {:induction false} ColumnarRowText(elems: seq<seq<char>>, widths: seq<nat>, indent: nat, rows: nat, r: nat, m: nat)
    requires r < m <= rows <= |elems|
    ensures ColumnarRows(elems, widths, indent, rows, m)
      == ColumnarRows(elems, widths, indent, rows, r) + RowText(elems, widths, indent, rows, r)
         + RowsBetween(elems, widths, indent, rows, r + 1, m)
    decreases m
  {
    var before, row := ColumnarRows(elems, widths, indent, rows, r), RowText(elems, widths, indent, rows, r);
    if m == r + 1 {
      AppendNil(before + row);
    } else {
      ColumnarRowText(elems, widths, indent, rows, r, m - 1);
      AppendAssoc(before + row, RowsBetween(elems, widths, indent, rows, r + 1, m - 1), RowText(elems, widths, indent, rows, m - 1));
    }
  }

  /**
   * Row r of the column-major layout is printed in place: the text is rows
   * 0 .. r - 1, then the cells of the elements RowIndices lists for row r
   * and a newline, then rows r + 1 .. rows - 1.
   */
  predicate RowPrinted(elems: seq<seq<char>>, widths: seq<nat>, indent: nat, r: nat)
    requires 0 < |elems| && 0 < |widths| && r < RowCount(|elems|, |widths|)
  {
    RowCountBounds(|elems|, |widths|);
    var rows := RowCount(|elems|, |widths|);
    RowSize(|elems|, rows, r) <= |widths|
    && ColumnarText(elems, widths, indent)
       == ColumnarRows(elems, widths, indent, rows, r)
          + (RowCells(elems, widths, indent, RowIndices(|elems|, rows, r)) + "\n")
          + RowsBetween(elems, widths, indent, rows, r + 1, rows)
  }

  /** Every row of the column-major layout is printed in place. */
  lemma ColumnarTextRow(elems: seq<seq<char>>, widths: seq<nat>, indent: nat, r: nat)
    requires 0 < |elems| && 0 < |widths| && r < RowCount(|elems|, |widths|)
    ensures RowPrinted(elems, widths, indent, r)
  {
    var rows := RowCount(|elems|, |widths|);
    RowCountBounds(|elems|, |widths|);
    RowLength(|elems|, |widths|, r);
    RowTextIsIndices(elems, widths, indent, rows, r);
    ColumnarRowText(elems, widths, indent, rows, r, rows);
  }


  /** Element enr sits in the row starting at enr % rows, in position enr / rows. */
  lemma RowIndicesHit(nelem: nat, rows: nat, enr: nat)
    requires 0 < rows && enr < nelem
    ensures enr % rows <= enr
    ensures enr / rows < |RowIndices(nelem, rows, enr % rows)|
    ensures RowIndices(nelem, rows, enr % rows)[enr / rows] == enr
  {
    var r, c := enr % rows, enr / rows;
    assert c * rows + r == enr;
    var idx := RowIndices(nelem, rows, r);
    var last := |idx| - 1;
    RowIndicesAt(nelem, rows, r, last);
    assert nelem <= r + last * rows + rows;
    MulStep(last, c, rows);
    RowIndicesAt(nelem, rows, r, c);
  }

  /**
   * Element enr is printed on row enr % rows, as cell enr / rows of that
   * row's text, which is the slot the counting pass gave it under the same
   * column count.
   */
  lemma ColumnarPlacement(elems: seq<seq<char>>, widths: seq<nat>, indent: nat, enr: nat)
    requires 0 < |widths| && enr < |elems|
    ensures var rows := RowCount(|elems|, |widths|);
      var idx := RowIndices(|elems|, rows, enr % rows);
      enr % rows < rows && enr / rows < |idx| <= |widths|
      && idx[enr / rows] == enr
      && enr / rows == Slot(true, |elems|, |widths| - 1, enr)
      && RowPrinted(elems, widths, indent, enr % rows)
  {
    var rows := RowCount(|elems|, |widths|);
    RowsAgree(|elems|, |widths|);
    RowCountBounds(|elems|, |widths|);
    RowIndicesHit(|elems|, rows, enr);
    ColumnarTextRow(elems, widths, indent, enr % rows);
  }



  /** Cell k of the row starting at r < rows holds the element whose row is r and whose column is k. */
  lemma RowIndicesOnce(nelem: nat, rows: nat, r: nat, k: nat)
    requires 0 < rows && r < rows && r < nelem && k < |RowIndices(nelem, rows, r)|
    ensures RowIndices(nelem, rows, r)[k] % rows == r && RowIndices(nelem, rows, r)[k] / rows == k
  {
    RowIndicesAt(nelem, rows, r, k);
    QuotRem(r, k, rows);
  }

  /** No element is printed twice: cell k of row r in the text holds the element ColumnarPlacement puts there. */
  lemma ColumnarOnce(elems: seq<seq<char>>, widths: seq<nat>, indent: nat, r: nat, k: nat)
    requires 0 < |widths| && r < RowCount(|elems|, |widths|)
    requires k < |RowIndices(|elems|, RowCount(|elems|, |widths|), r)|
    ensures var rows := RowCount(|elems|, |widths|);
      var idx := RowIndices(|elems|, rows, r);
      r == idx[k] % rows && k == idx[k] / rows && |idx| <= |widths|
      && RowPrinted(elems, widths, indent, r)
  {
    var rows := RowCount(|elems|, |widths|);
    RowCountBounds(|elems|, |widths|);
    RowIndicesOnce(|elems|, rows, r, k);
    ColumnarTextRow(elems, widths, indent, r);
  }

  // ---------------------------------------------------------------------
  // Row-major layout (print_horizontal)

  /** What precedes element enr: a newline (except before the first element) and the indent, at column 0. */
  function Lead(enr: nat, cols: nat, indent: nat): seq<char>
    requires 0 < cols
  {
    if enr % cols == 0 then (if enr != 0 then "\n" else "") + Spaces(indent) else ""
  }

  /** The first n elements in input order, element enr in column enr % cols. */
  function HorizontalCells(elems: seq<seq<char>>, widths: seq<nat>, indent: nat, n: nat): seq<char>
    requires 0 < |widths| && n <= |elems|
  {
    if n == 0 then []
    else
      HorizontalCells(elems, widths, indent, n - 1)
      + Lead(n - 1, |widths|, indent)
      + Cell(elems[n - 1], (n - 1) % |widths|, widths)
  }

  function HorizontalText(elems: seq<seq<char>>, widths: seq<nat>, indent: nat): seq<char>
    requires 0 < |widths|
  {
    HorizontalCells(elems, widths, indent, |elems|) + "\n"
  }

  // ---------------------------------------------------------------------
  // What mc() writes

  /** The widths of the chosen candidate after the folding pass (its line_fmt). */
  function ChosenWidths(elems: seq<seq<char>>, llen: nat, indent: nat, byColumns: bool): (widths: seq<nat>)
    requires 0 < |elems| && llen < SizeLimit && indent < SizeLimit
    ensures 0 < |widths| == Columns(Lengths(elems), llen, indent, byColumns)
  {
    var lens := Lengths(elems);
    Folded(lens, byColumns, Budget(llen, indent), Columns(lens, llen, indent, byColumns) - 1, |elems|).widths
  }

  /**
   * Columns stay apart: under the chosen widths, the cell of any element
   * outside the last column is exactly as wide as its column and ends in at
   * least two blanks (MIN_COLUMN_WIDTH of mc.c).
   */
  lemma ColumnsSeparated(elems: seq<seq<char>>, llen: nat, indent: nat, byColumns: bool, enr: nat)
    requires 0 < |elems| && llen < SizeLimit && indent < SizeLimit && enr < |elems|
    ensures var widths := ChosenWidths(elems, llen, indent, byColumns);
      var col := Slot(byColumns, |elems|, |widths| - 1, enr);
      var cell := Cell(elems[enr], col, widths);
      col < |widths| - 1 ==>
        |cell| == widths[col] && |elems[enr]| + 2 <= |cell|
        && forall j :: |elems[enr]| <= j < |cell| ==> cell[j] == ' '
  {
    var lens := Lengths(elems);
    var cols := Columns(lens, llen, indent, byColumns);
    if 1 < cols {
      ColumnsMaximal(lens, llen, indent, byColumns);
      FoldedFitsAt(lens, byColumns, Budget(llen, indent), cols - 1, |lens|, enr);
    }
  }

  /** The text mc() writes for the elements, a line length, an indent and a direction. */
  function McText(elems: seq<seq<char>>, llen: nat, indent: nat, horizontal: bool): seq<char>
    requires 0 < |elems| && llen < SizeLimit && indent < SizeLimit
  {
    var widths := ChosenWidths(elems, llen, indent, !horizontal);
    if horizontal then HorizontalText(elems, widths, indent) else ColumnarText(elems, widths, indent)
  }

}
