/**
 * The column-layout engine of src/libmc/mc.c as imperative code: the mc_t
 * record with its candidate table, the table growth and initialisation, the
 * folding pass, the selection loop and the two printers.  Each method is
 * proved against the value-level definitions of ColumnFit and ColumnText.
 */
module Mc {
  import opened ColumnFit
  import opened ColumnText

  /** A stdio stream opened for writing (FILE *): it is only ever appended to. */
  class OutputFile {
    var text: seq<char>

    constructor ()
      ensures text == []
    {
      text := [];
    }

    /** fputc(c, f) */
    method PutChar(c: char)
      modifies this
      ensures text == old(text) + [c]
    {
      text := text + [c];
    }

    /** fputc(' ', f), n times over: the indent loops of the printers. */
    method PutSpaces(n: nat)
      modifies this
      ensures text == old(text) + Spaces(n)
    {
      AppendNil(text);
      for i := 0 to n
        invariant text == old(text) + Spaces(i)
      {
        PutChar(' ');
        AppendAssoc(old(text), Spaces(i), [' ']);
      }
    }

    /** The padding loop of the printers: blanks from elemLength up to width. */
    method PadFrom(elemLength: nat, width: nat)
      modifies this
      ensures text == old(text) + Spaces(if elemLength < width then width - elemLength else 0)
    {
      var len := elemLength;
      AppendNil(text);
      while len < width
        invariant elemLength <= len
        invariant len <= width || len == elemLength
        invariant text == old(text) + Spaces(len - elemLength)
      {
        PutChar(' ');
        assert Spaces(len + 1 - elemLength) == Spaces(len - elemLength) + [' '];
        AppendAssoc(old(text), Spaces(len - elemLength), [' ']);
        len := len + 1;
      }
    }

    /** One cell as the printers write it: the element, then blanks up to the column width unless it is the last column. */
    method PutCell(elem: seq<char>, col: nat, cols: nat, maxElemLength: nat, ghost widths: seq<nat>)
      requires col < |widths| == cols && widths[col] == maxElemLength
      modifies this
      ensures text == old(text) + Cell(elem, col, widths)
    {
      PutString(elem);
      if col < cols - 1 {
        PadFrom(|elem|, maxElemLength);
      }
    }

    /** fprintf(f, "%s", s) */
    method PutString(s: seq<char>)
      modifies this
      ensures text == old(text) + s
    {
      text := text + s;
    }
  }

  /** struct column_info; colArr is the offset in the cell store where the col_arr pointer points. */
  datatype ColumnInfo = ColumnInfo(validLen: bool, lineLen: nat, colArr: nat)

  /** Writing one cell of candidate i leaves the cells of every other candidate k as they were. */
  lemma OtherWindowKept(before: seq<nat>, after: seq<nat>, i: nat, j: nat, k: nat)
    requires |before| == |after| && j <= i && k != i && Tri(k) + k + 1 <= |before|
    requires forall y :: 0 <= y < |before| && y != Tri(i) + j ==> after[y] == before[y]
    ensures after[Tri(k)..Tri(k) + k + 1] == before[Tri(k)..Tri(k) + k + 1]
  {
    forall y | Tri(k) <= y < Tri(k) + k + 1
      ensures after[y] == before[y]
    {
      WindowsApart(k, y - Tri(k), i, j);
    }
  }

  /** The cells candidate k owns, Tri(k) .. Tri(k) + k, or nothing when s is too short to hold them. */
  ghost function Window(s: seq<nat>, k: nat): seq<nat>
  {
    if Tri(k) + k + 1 <= |s| then s[Tri(k)..Tri(k) + k + 1] else []
  }

  /** Writing cell idx of candidate i changes that cell of its window and leaves every other window as it was. */
  lemma CellWritten(before: seq<nat>, after: seq<nat>, alloc: nat, i: nat, idx: nat, v: nat)
    requires |before| == Tri(alloc) && i < alloc && idx <= i && Tri(i) + idx < |before|
    requires after == before[Tri(i) + idx := v]
    ensures |Window(after, i)| == i + 1 && Window(after, i) == Window(before, i)[idx := v]
    ensures forall k :: 0 <= k < alloc && k != i ==> Window(after, k) == Window(before, k)
  {
    TriMonotone(i + 1, alloc);
    forall k | 0 <= k < alloc && k != i
      ensures Window(after, k) == Window(before, k)
    {
      TriMonotone(k + 1, alloc);
      OtherWindowKept(before, after, i, idx, k);
    }
  }


  /**
   * The pointer walk of init_column_info: records from..Length-1 get col_arr
   * pointers into the new cells, each candidate i the next i + 1 of them.
   */
  method PointIntoCells(info: array<ColumnInfo>, from: nat)
    requires from <= info.Length
    modifies info
    ensures forall k :: 0 <= k < from ==> info[k] == old(info[k])
    ensures forall k :: from <= k < info.Length ==> info[k].colArr == Tri(k)
  {
    var p := Tri(from);
    var i := from;
    while i < info.Length
      invariant from <= i <= info.Length
      invariant p == Tri(i)
      invariant forall k :: 0 <= k < from ==> info[k] == old(info[k])
      invariant forall k :: from <= k < i ==> info[k].colArr == Tri(k)
    {
      info[i] := info[i].(colArr := p);
      p := p + i + 1;
      i := i + 1;
    }
  }

  /** The candidate Columns picks, once folded over all the elements, has the chosen widths. */
  lemma ChosenFromTable(elems: seq<seq<char>>, llen: nat, indent: nat, byColumns: bool, cols: nat, c: Candidate)
    requires 0 < |elems| && llen < SizeLimit && indent < SizeLimit
    requires cols == Columns(Lengths(elems), llen, indent, byColumns)
    requires c == Folded(Lengths(elems), byColumns, Budget(llen, indent), cols - 1, |elems|)
    ensures c.widths == ChosenWidths(elems, llen, indent, byColumns)
  {
  }

  /** mc_t: the parameters of one mc() call and its candidate table. */
  class Layout {
    const elemv: seq<seq<char>>
    const nelem: nat := |elemv|
    const llen: nat
    const indent: nat
    const f: OutputFile
    const maxIdx: nat

    var columnInfo: array<ColumnInfo>
    var columnInfoAlloc: nat
    /** The size_t cells the col_arr pointers point into: candidate i owns Tri(i) .. Tri(i) + i. */
    var cells: array<nat>

    ghost predicate Valid()
      reads this, columnInfo
    {
      && 0 < nelem
      && llen < SizeLimit && indent < SizeLimit
      && maxIdx == MaxIdx(llen)
      && columnInfo.Length == columnInfoAlloc
      && cells.Length == Tri(columnInfoAlloc)
      && columnInfoAlloc <= maxIdx
      && forall i :: 0 <= i < columnInfoAlloc ==> columnInfo[i].colArr == Tri(i)
    }

    /** Candidate i as a value: its record and the cells its col_arr points to. */
    ghost function Entry(i: nat): (c: Candidate)
      reads this, columnInfo, cells
      requires Valid() && i < columnInfoAlloc
      ensures |c.widths| == i + 1
    {
      TriMonotone(i + 1, columnInfoAlloc);
      Candidate(columnInfo[i].validLen, columnInfo[i].lineLen, Window(cells[..], i))
    }

    /** The set-up part of mc(): no table yet, max_idx = llen / 3 raised to 1. */
    constructor (f: OutputFile, elemv: seq<seq<char>>, llen: nat, indent: nat)
      requires 0 < |elemv| && llen < SizeLimit && indent < SizeLimit
      ensures Valid() && fresh(columnInfo) && fresh(cells)
      ensures this.f == f && this.elemv == elemv && this.llen == llen && this.indent == indent
      ensures columnInfoAlloc == 0
    {
      this.elemv := elemv;
      this.llen := llen;
      this.indent := indent;
      columnInfo := new ColumnInfo[0];
      columnInfoAlloc := 0;
      cells := new nat[0];
      var m := llen / MinColumnWidth;
      if m < 1 {
        m := 1;
      }
      maxIdx := m;
      this.f := f;
    }

    /**
     * The growth half of init_column_info: when fewer than max_cols
     * candidates are allocated, reallocate the records and cells for the
     * grown count, dying if the cell count overflows size_t.
     */
    method GrowTable(maxCols: nat) returns (died: bool)
      requires Valid() && maxCols == MaxCols(maxIdx, nelem)
      modifies this
      ensures Valid()
      ensures died == InitDies(old(columnInfoAlloc), maxCols, maxIdx)
      ensures !died ==> columnInfoAlloc == GrownAlloc(old(columnInfoAlloc), maxCols, maxIdx)
      ensures !died ==> maxCols <= columnInfoAlloc
      ensures !died ==> old(columnInfoAlloc) <= columnInfoAlloc
      ensures !died ==> forall k :: 0 <= k < old(columnInfoAlloc) ==> columnInfo[k] == old(columnInfo[k])
      ensures !died ==> old(cells.Length) <= cells.Length && cells[..old(cells.Length)] == old(cells[..])
      ensures columnInfo == old(columnInfo) || fresh(columnInfo)
      ensures cells == old(cells) || fresh(cells)
    {
      if columnInfoAlloc < maxCols {
        var newAlloc: nat;
        if maxCols < maxIdx / 2 {
          newAlloc := 2 * maxCols;
        } else {
          newAlloc := maxIdx;
        }
        if OverflowTestFires(columnInfoAlloc, newAlloc) {
          // xalloc_die(): the process exits with status 64
          return true;
        }
        // the records move to a bigger array; the new cells follow the old ones
        var info := new ColumnInfo[newAlloc](_ => ColumnInfo(false, 0, 0));
        forall k | 0 <= k < columnInfoAlloc {
          info[k] := columnInfo[k];
        }
        var store := new nat[cells.Length + NewCells(columnInfoAlloc, newAlloc)];
        forall k | 0 <= k < cells.Length {
          store[k] := cells[k];
        }
        PointIntoCells(info, columnInfoAlloc);
        columnInfo, columnInfoAlloc, cells := info, newAlloc, store;
      }
      return false;
    }

    /** The innermost loop of init_column_info: the i + 1 cells of candidate i, which follow those of 0 .. i-1. */
    method ResetCells(i: nat)
      requires Valid() && i < columnInfoAlloc && Tri(i + 1) <= cells.Length
      requires forall y :: 0 <= y < Tri(i) ==> cells[y] == MinColumnWidth
      modifies cells
      ensures Valid()
      ensures forall y :: 0 <= y < Tri(i + 1) ==> cells[y] == MinColumnWidth
    {
      var off := columnInfo[i].colArr;
      for j := 0 to i + 1
        invariant forall y :: 0 <= y < off + j ==> cells[y] == MinColumnWidth
      {
        cells[off + j] := MinColumnWidth;
      }
    }

    /** The reset half of init_column_info: candidates 0 .. maxCols-1 get three-column cells. */
    method ResetCandidates(maxCols: nat)
      requires Valid() && maxCols <= columnInfoAlloc
      modifies columnInfo, cells
      ensures Valid()
      ensures forall i :: 0 <= i < maxCols ==> Entry(i) == Initial(i)
    {
      TriMonotone(maxCols, columnInfoAlloc);
      // candidates 0 .. i-1 own exactly the cells below Tri(i)
      for i := 0 to maxCols
        invariant Valid() && Tri(i) <= cells.Length
        invariant forall k :: 0 <= k < i ==> columnInfo[k].validLen && columnInfo[k].lineLen == (k + 1) * MinColumnWidth
        invariant forall y :: 0 <= y < Tri(i) ==> cells[y] == MinColumnWidth
      {
        TriMonotone(i + 1, maxCols);
        columnInfo[i] := columnInfo[i].(validLen := true, lineLen := (i + 1) * MinColumnWidth);
        ResetCells(i);
      }
      AllReset(maxCols);
    }

    /** Candidates whose record and cells were reset are at their narrowest layout. */
    lemma AllReset(maxCols: nat)
      requires Valid() && maxCols <= columnInfoAlloc && Tri(maxCols) <= cells.Length
      requires forall k :: 0 <= k < maxCols ==> columnInfo[k].validLen && columnInfo[k].lineLen == (k + 1) * MinColumnWidth
      requires forall y :: 0 <= y < Tri(maxCols) ==> cells[y] == MinColumnWidth
      ensures forall i :: 0 <= i < maxCols ==> Entry(i) == Initial(i)
    {
      forall k | 0 <= k < maxCols
        ensures Entry(k) == Initial(k)
      {
        TriMonotone(k + 1, maxCols);
        assert Entry(k).widths == Initial(k).widths;
      }
    }

    /**
     * init_column_info: grow the table to serve MIN(max_idx, nelem)
     * candidates, then reset each of them to its narrowest layout.
     */
    method InitColumnInfo() returns (died: bool)
      requires Valid()
      modifies this, columnInfo, cells
      ensures Valid()
      ensures died == InitDies(old(columnInfoAlloc), MaxCols(maxIdx, nelem), maxIdx)
      ensures !died ==> columnInfoAlloc == GrownAlloc(old(columnInfoAlloc), MaxCols(maxIdx, nelem), maxIdx)
      ensures !died ==> forall i :: 0 <= i < MaxCols(maxIdx, nelem) ==> Entry(i) == Initial(i)
      ensures columnInfo == old(columnInfo) || fresh(columnInfo)
      ensures cells == old(cells) || fresh(cells)
    {
      var maxCols := MaxCols(maxIdx, nelem);
      died := GrowTable(maxCols);
      if !died {
        ResetCandidates(maxCols);
      }
    }

    /** col_arr[idx] = v for candidate i: one cell of its window changes, nothing else does. */
    method SetCell(i: nat, idx: nat, v: nat)
      requires Valid() && i < columnInfoAlloc && idx <= i
      modifies cells
      ensures Valid()
      ensures Entry(i) == old(Entry(i)).(widths := old(Entry(i)).widths[idx := v])
      ensures forall k :: 0 <= k < columnInfoAlloc && k != i ==> Entry(k) == old(Entry(k))
    {
      TriMonotone(i + 1, columnInfoAlloc);
      ghost var before := cells[..];
      cells[columnInfo[i].colArr + idx] := v;
      CellWritten(before, cells[..], columnInfoAlloc, i, idx, v);
    }

    /** valid_len and line_len of candidate i are set; nothing else changes. */
    method SetRecord(i: nat, validLen: bool, lineLen: nat)
      requires Valid() && i < columnInfoAlloc
      modifies columnInfo
      ensures Valid()
      ensures Entry(i) == old(Entry(i)).(valid := validLen, lineLen := lineLen)
      ensures forall k :: 0 <= k < columnInfoAlloc && k != i ==> Entry(k) == old(Entry(k))
    {
      columnInfo[i] := columnInfo[i].(validLen := validLen, lineLen := lineLen);
    }

    /**
     * The body of the inner loop of calculate_columns: an element of
     * elemLength characters goes into slot idx of candidate i.  Only
     * candidate i changes.
     */
    method WidenCandidate(i: nat, idx: nat, elemLength: nat)
      requires Valid() && i < columnInfoAlloc && idx <= i
      modifies columnInfo, cells
      ensures Valid()
      ensures Entry(i) == Widen(old(Entry(i)), i, idx, elemLength, Budget(llen, indent))
      ensures forall k :: 0 <= k < columnInfoAlloc && k != i ==> Entry(k) == old(Entry(k))
    {
      ghost var c := Entry(i);
      if columnInfo[i].validLen {
        var realLength := elemLength + (if idx == i then 0 else 2);
        var off := columnInfo[i].colArr;
        TriMonotone(i + 1, columnInfoAlloc);
        assert cells[off + idx] == c.widths[idx];
        if cells[off + idx] < realLength {
          var lineLen := columnInfo[i].lineLen + (realLength - cells[off + idx]);
          SetCell(i, idx, realLength);
          SetRecord(i, lineLen < (llen - indent) % SizeLimit, lineLen);
        }
      }
    }

    /** One pass of the outer loop of calculate_columns: element enr is folded into every candidate. */
    method FoldElement(byColumns: bool, maxCols: nat, enr: nat)
      requires Valid() && maxCols <= columnInfoAlloc && maxCols <= nelem && enr < nelem
      requires forall i :: 0 <= i < maxCols ==>
        Entry(i) == Folded(Lengths(elemv), byColumns, Budget(llen, indent), i, enr)
      modifies columnInfo, cells
      ensures Valid()
      ensures forall i :: 0 <= i < maxCols ==>
        Entry(i) == Folded(Lengths(elemv), byColumns, Budget(llen, indent), i, enr + 1)
    {
      ghost var lens, budget := Lengths(elemv), Budget(llen, indent);
      var elemLength := |elemv[enr]|;
      for i := 0 to maxCols
        invariant Valid()
        invariant forall k :: 0 <= k < i ==> Entry(k) == Folded(lens, byColumns, budget, k, enr + 1)
        invariant forall k :: i <= k < maxCols ==> Entry(k) == Folded(lens, byColumns, budget, k, enr)
      {
        // enr / ((nelem + i) / (i + 1)) down the columns, enr % (i + 1) across
        WidenCandidate(i, Slot(byColumns, nelem, i, enr), elemLength);
      }
    }

    /**
     * calculate_columns: set the table up, fold every element into every
     * candidate, then count down from MIN(max_idx, nelem) to the first
     * candidate still valid (one column at the least).
     */
    method CalculateColumns(byColumns: bool) returns (cols: nat, died: bool)
      requires Valid()
      modifies this, columnInfo, cells
      ensures Valid()
      ensures columnInfo == old(columnInfo) || fresh(columnInfo)
      ensures cells == old(cells) || fresh(cells)
      ensures died == InitDies(old(columnInfoAlloc), MaxCols(maxIdx, nelem), maxIdx)
      ensures !died ==> MaxCols(maxIdx, nelem) <= columnInfoAlloc
      ensures !died ==> forall i :: 0 <= i < MaxCols(maxIdx, nelem) ==>
        Entry(i) == Folded(Lengths(elemv), byColumns, Budget(llen, indent), i, nelem)
      ensures !died ==> cols == Columns(Lengths(elemv), llen, indent, byColumns)
    {
      var maxCols := MaxCols(maxIdx, nelem);
      died := InitColumnInfo();
      if died {
        return 0, true;
      }
      FoldElements(byColumns, maxCols);
      cols := SelectColumns(byColumns, maxCols);
    }

    /** The element loop of calculate_columns: fold every element into every candidate. */
    method FoldElements(byColumns: bool, maxCols: nat)
      requires Valid() && maxCols == MaxCols(maxIdx, nelem) <= columnInfoAlloc
      requires forall i :: 0 <= i < maxCols ==> Entry(i) == Initial(i)
      modifies columnInfo, cells
      ensures Valid()
      ensures forall i :: 0 <= i < maxCols ==>
        Entry(i) == Folded(Lengths(elemv), byColumns, Budget(llen, indent), i, nelem)
    {
      ghost var lens, budget := Lengths(elemv), Budget(llen, indent);
      for enr := 0 to nelem
        invariant Valid()
        invariant forall i :: 0 <= i < maxCols ==> Entry(i) == Folded(lens, byColumns, budget, i, enr)
      {
        FoldElement(byColumns, maxCols, enr);
      }
    }

    /** The last loop of calculate_columns: the largest candidate still valid, or one column. */
    method SelectColumns(byColumns: bool, maxCols: nat) returns (cols: nat)
      requires Valid() && 1 <= maxCols <= columnInfoAlloc
      requires forall i :: 0 <= i < maxCols ==>
        Entry(i) == Folded(Lengths(elemv), byColumns, Budget(llen, indent), i, nelem)
      ensures cols == Chosen(Survivors(Lengths(elemv), byColumns, Budget(llen, indent), maxCols), maxCols)
    {
      ghost var valid := Survivors(Lengths(elemv), byColumns, Budget(llen, indent), maxCols);
      cols := maxCols;
      while 1 < cols
        invariant 1 <= cols <= maxCols
        invariant Chosen(valid, cols) == Chosen(valid, maxCols)
      {
        if columnInfo[cols - 1].validLen {
          break;
        }
        cols := cols - 1;
      }
    }

    /** Cell j of candidate i, read through its col_arr offset. */
    lemma CellOf(i: nat, j: nat)
      requires Valid() && i < columnInfoAlloc && j <= i
      ensures columnInfo[i].colArr + j < cells.Length
      ensures Entry(i).widths[j] == cells[columnInfo[i].colArr + j]
    {
      TriMonotone(i + 1, columnInfoAlloc);
    }

    /** lineFmt holds widths: its col_arr points at cells that read as the widths, one per column. */
    ghost predicate Shows(lineFmt: ColumnInfo, widths: seq<nat>)
      reads this, cells
    {
      && 0 < nelem
      && 0 < |widths|
      && lineFmt.colArr + |widths| <= cells.Length
      && forall j :: 0 <= j < |widths| ==> cells[lineFmt.colArr + j] == widths[j]
    }

    /** The record of candidate cols - 1 shows that candidate's widths. */
    lemma RecordShows(cols: nat)
      requires Valid() && 1 <= cols <= columnInfoAlloc
      ensures Shows(columnInfo[cols - 1], Entry(cols - 1).widths)
    {
      TriMonotone(cols, columnInfoAlloc);
      var widths := Entry(cols - 1).widths;
      forall j | 0 <= j < cols
        ensures cells[columnInfo[cols - 1].colArr + j] == widths[j]
      {
        CellOf(cols - 1, j);
      }
    }

    /**
     * One row of print_many_per_line: the indent, then the elements
     * row, row + rows, row + 2 * rows, ... each padded to the width of its
     * column except in the last column, then a newline.
     */
    method PrintRow(row: nat, rows: nat, cols: nat, lineFmt: ColumnInfo, ghost widths: seq<nat>)
      requires Shows(lineFmt, widths) && cols == |widths|
      requires rows == RowCount(nelem, cols) && row < rows
      modifies f
      ensures f.text == old(f.text) + RowText(elemv, widths, indent, rows, row)
    {
      RowLength(nelem, cols, row);
      var col := 0;
      var enr := row;
      AppendNil(f.text);
      while true
        invariant Shows(lineFmt, widths)
        invariant RowPrinting(nelem, rows, row, enr, col)
        invariant f.text == old(f.text) + RowUpTo(elemv, widths, indent, rows, enr, col)
        decreases nelem - enr
      {
        RowNext(elemv, widths, indent, rows, row, enr, col);
        PrintRowCell(col, enr, cols, lineFmt, widths);
        RowUpToNext(elemv, widths, indent, rows, enr, col, old(f.text), f.text);
        enr := enr + rows;
        if enr >= nelem {
          break;
        }
        col := col + 1;
      }
      ghost var done := RowUpTo(elemv, widths, indent, rows, enr, col + 1);
      f.PutChar('\n');
      AppendAssoc(old(f.text), done, "\n");
    }

    /** The body of the row loop of print_many_per_line: the indent before column 0, then the cell. */
    method PrintRowCell(col: nat, enr: nat, cols: nat, lineFmt: ColumnInfo, ghost widths: seq<nat>)
      requires Shows(lineFmt, widths) && enr < nelem && col < cols == |widths|
      modifies f
      ensures f.text == old(f.text) + RowLead(indent, col) + Cell(elemv[enr], col, widths)
    {
      var elem := elemv[enr];
      var maxElemLength := cells[lineFmt.colArr + col];
      assert maxElemLength == widths[col];
      if col == 0 {
        f.PutSpaces(indent);
      }
      f.PutCell(elem, col, cols, maxElemLength, widths);
    }

    /** After calculate_columns, line_fmt = column_info[cols - 1] holds the chosen widths. */
    lemma ChosenLineFormat(byColumns: bool, cols: nat)
      requires Valid() && MaxCols(maxIdx, nelem) <= columnInfoAlloc
      requires forall i :: 0 <= i < MaxCols(maxIdx, nelem) ==>
        Entry(i) == Folded(Lengths(elemv), byColumns, Budget(llen, indent), i, nelem)
      requires cols == Columns(Lengths(elemv), llen, indent, byColumns)
      ensures 1 <= cols <= columnInfoAlloc
      ensures Entry(cols - 1).widths == ChosenWidths(elemv, llen, indent, byColumns)
    {
      var c := Entry(cols - 1);
      assert c == Folded(Lengths(elemv), byColumns, Budget(llen, indent), cols - 1, |elemv|);
      ChosenFromTable(elemv, llen, indent, byColumns, cols, c);
    }

    /**
     * print_many_per_line: the column-major layout with the column count
     * calculate_columns chose down the columns.
     */
    method PrintManyPerLine() returns (died: bool)
      requires Valid()
      modifies this, columnInfo, cells, f
      ensures died == InitDies(old(columnInfoAlloc), MaxCols(maxIdx, nelem), maxIdx)
      ensures died ==> f.text == old(f.text)
      ensures !died ==> f.text == old(f.text) + ColumnarText(elemv, ChosenWidths(elemv, llen, indent, true), indent)
    {
      var cols;
      cols, died := CalculateColumns(true);
      if died {
        return;
      }
      ChosenLineFormat(true, cols);
      RecordShows(cols);
      PrintDown(cols, columnInfo[cols - 1], ChosenWidths(elemv, llen, indent, true));
    }

    /** The printing loops of print_many_per_line, for the chosen candidate line_fmt = column_info[cols - 1]. */
    method PrintDown(cols: nat, lineFmt: ColumnInfo, ghost widths: seq<nat>)
      requires Shows(lineFmt, widths) && cols == |widths|
      modifies f
      ensures f.text == old(f.text) + ColumnarText(elemv, widths, indent)
    {
      var rows := nelem / cols + (if nelem % cols != 0 then 1 else 0);
      RowCountDiv(nelem, cols);
      RowCountBounds(nelem, cols);
      PrintRows(rows, cols, lineFmt, widths);
    }

    /** The row loop of print_many_per_line, rows being its row count. */
    method PrintRows(rows: nat, cols: nat, lineFmt: ColumnInfo, ghost widths: seq<nat>)
      requires Shows(lineFmt, widths) && cols == |widths| && rows == RowCount(nelem, cols) <= nelem
      modifies f
      ensures f.text == old(f.text) + ColumnarRows(elemv, widths, indent, rows, rows)
    {
      AppendNil(f.text);
      for row := 0 to rows
        invariant f.text == old(f.text) + ColumnarRows(elemv, widths, indent, rows, row)
      {
        PrintRow(row, rows, cols, lineFmt, widths);
        ColumnarRowsNext(elemv, widths, indent, rows, row, old(f.text), f.text);
      }
    }

    /**
     * print_horizontal: the elements in input order, cols to a line, each
     * padded to the width of its column except in the last column.
     */
    method PrintHorizontal() returns (died: bool)
      requires Valid()
      modifies this, columnInfo, cells, f
      ensures died == InitDies(old(columnInfoAlloc), MaxCols(maxIdx, nelem), maxIdx)
      ensures died ==> f.text == old(f.text)
      ensures !died ==> f.text == old(f.text) + HorizontalText(elemv, ChosenWidths(elemv, llen, indent, false), indent)
    {
      var cols;
      cols, died := CalculateColumns(false);
      if died {
        return;
      }
      ChosenLineFormat(false, cols);
      RecordShows(cols);
      PrintAcross(cols, columnInfo[cols - 1], ChosenWidths(elemv, llen, indent, false));
    }

    /** The printing loop of print_horizontal, for the chosen candidate line_fmt = column_info[cols - 1]. */
    method PrintAcross(cols: nat, lineFmt: ColumnInfo, ghost widths: seq<nat>)
      requires Shows(lineFmt, widths) && cols == |widths|
      modifies f
      ensures f.text == old(f.text) + HorizontalText(elemv, widths, indent)
    {
      AppendNil(f.text);
      for enr := 0 to nelem
        invariant f.text == old(f.text) + HorizontalCells(elemv, widths, indent, enr)
      {
        ghost var before := f.text;
        var elem := elemv[enr];
        var col := enr % cols;
        var maxElemLength := cells[lineFmt.colArr + col];
        if col == 0 {
          if enr != 0 {
            f.PutChar('\n');
          }
          f.PutSpaces(indent);
          if enr != 0 {
            AppendAssoc(before, "\n", Spaces(indent));
          } else {
            AppendNil(Spaces(indent));
          }
        } else {
          AppendNil(before);
        }
        assert f.text == before + Lead(enr, cols, indent);
        f.PutCell(elem, col, cols, maxElemLength, widths);
        ghost var prev, lead, cell := HorizontalCells(elemv, widths, indent, enr), Lead(enr, cols, indent), Cell(elem, col, widths);
        assert HorizontalCells(elemv, widths, indent, enr + 1) == prev + lead + cell;
        AppendInParts(old(f.text), prev, lead, cell);
      }
      f.PutChar('\n');
    }
  }

  /**
   * mc(): lay out the elements on f for a line of llen characters, each line
   * indented by indent blanks, down the columns or (horizontal) across.
   * died stands for the xalloc_die() exit, which happens exactly when the
   * candidate table would overflow size_t; nothing is written then.
   */
  method Mc(f: OutputFile, elemv: seq<seq<char>>, llen: nat, indent: nat, horizontal: bool) returns (died: bool)
    requires 0 < |elemv| && llen < SizeLimit && indent < SizeLimit
    modifies f
    ensures died == TableOverflows(|elemv|, llen)
    ensures died ==> f.text == old(f.text)
    ensures !died ==> f.text == old(f.text) + McText(elemv, llen, indent, horizontal)
  {
    var mc := new Layout(f, elemv, llen, indent);
    if horizontal {
      died := mc.PrintHorizontal();
    } else {
      died := mc.PrintManyPerLine();
    }
  }
}
