/**
 * How many columns fit: the candidate-table arithmetic of src/libmc/mc.c,
 * stated on values.  Candidate i (0-based) stands for a layout with i + 1
 * columns; folding the elements into it one by one widens its column slots
 * and may invalidate it.  The imperative table in module Mc is proved to
 * compute exactly these values.
 */
module ColumnFit {

  /** One character of text plus two separating blanks (MIN_COLUMN_WIDTH). */
  const MinColumnWidth: nat := 3

  /** One more than the largest size_t value on a 64-bit target. */
  const SizeLimit: nat := 0x1_0000_0000_0000_0000

  /** mc_t.max_idx: the most columns a line of llen characters could ever hold. */
  function MaxIdx(llen: nat): (m: nat)
    ensures m >= 1
    ensures llen < MinColumnWidth ==> m == 1
    ensures llen >= MinColumnWidth ==> m * MinColumnWidth <= llen < (m + 1) * MinColumnWidth
  {
    if llen / MinColumnWidth < 1 then 1 else llen / MinColumnWidth
  }

  /** The number of candidates actually considered: never more than there are elements. */
  function MaxCols(maxIdx: nat, nelem: nat): (m: nat)
    ensures m <= maxIdx && m <= nelem
    ensures m == maxIdx || m == nelem
  {
    if maxIdx < nelem then maxIdx else nelem
  }

  /** llen - indent computed in size_t: it wraps around when indent > llen. */
  function Budget(llen: nat, indent: nat): (b: nat)
    requires llen < SizeLimit && indent < SizeLimit
    ensures b < SizeLimit
    ensures indent <= llen ==> b == llen - indent
    ensures llen < indent ==> b == SizeLimit - (indent - llen)
  {
    (llen - indent) % SizeLimit
  }

  // ---------------------------------------------------------------------
  // Growing the candidate table

  /** The number of candidate records after init_column_info has grown the table. */
  function GrownAlloc(alloc: nat, maxCols: nat, maxIdx: nat): (r: nat)
    requires maxCols <= maxIdx
    ensures alloc < maxCols ==> maxCols <= r <= maxIdx
    ensures alloc < maxCols && maxCols < maxIdx / 2 ==> r == 2 * maxCols
    ensures alloc < maxCols && maxIdx / 2 <= maxCols ==> r == maxIdx
    ensures maxCols <= alloc ==> r == alloc
  {
    if maxCols <= alloc then alloc
    else if maxCols < maxIdx / 2 then 2 * maxCols
    else maxIdx
  }

  /**
   * The overflow test guarding the allocation of new cells, evaluated the
   * way C evaluates it: the sum and the product wrap around modulo 2^64.
   */
  predicate OverflowTestFires(alloc: nat, newAlloc: nat)
    requires alloc < newAlloc < SizeLimit
  {
    var growth := newAlloc - alloc;
    var s := (alloc + 1 + newAlloc) % SizeLimit;
    var t := (s * growth) % SizeLimit;
    s < newAlloc || t / growth != s
  }

  /** Whether init_column_info, starting from alloc records, ends in xalloc_die. */
  predicate InitDies(alloc: nat, maxCols: nat, maxIdx: nat)
    requires maxCols <= maxIdx < SizeLimit
  {
    alloc < maxCols && OverflowTestFires(alloc, GrownAlloc(alloc, maxCols, maxIdx))
  }

  /** Whether laying out nelem elements on a line of llen characters dies (mc starts from an empty table). */
  predicate TableOverflows(nelem: nat, llen: nat)
    requires llen < SizeLimit
  {
    InitDies(0, MaxCols(MaxIdx(llen), nelem), MaxIdx(llen))
  }

  lemma {:induction false} MulAtLeast(d: nat, g: nat)
    requires 1 <= d
    ensures g <= d * g
    decreases d
  {
    if d > 1 {
      MulAtLeast(d - 1, g);
      assert d * g == (d - 1) * g + g;
    }
  }

  lemma MulStep(a: int, b: int, g: nat)
    ensures a < b ==> a * g + g <= b * g
  {
    if a < b {
      assert b * g - a * g == (b - a) * g;
      MulAtLeast(b - a, g);
    }
  }

  /** Division undoes multiplication by a positive factor. */
  lemma MulDivCancel(s: nat, g: nat)
    requires 0 < g
    ensures (s * g) / g == s
  {
    var q, r := (s * g) / g, (s * g) % g;
    assert q * g + r == s * g && 0 <= r < g;
    MulStep(q, s, g);
    MulStep(s, q, g);
  }

  /** A quotient is pinned down by the multiples of the divisor around the dividend. */
  lemma DivUnique(x: nat, d: nat, q: nat)
    requires 0 < d && q * d <= x < q * d + d
    ensures x / d == q
  {
    var q', r := x / d, x % d;
    assert q' * d + r == x && 0 <= r < d;
    MulStep(q, q', d);
    MulStep(q', q, d);
  }

  /** k * d + r with r < d has quotient k and remainder r. */
  lemma QuotRem(r: nat, k: nat, d: nat)
    requires r < d
    ensures (r + k * d) / d == k && (r + k * d) % d == r
  {
    DivUnique(r + k * d, d, k);
  }

  /** Two multiples of g in the same window of width g are the same multiple. */
  lemma MulUnique(a: nat, b: nat, g: nat, lo: int)
    requires 0 < g && lo <= a * g < lo + g && lo <= b * g < lo + g
    ensures a == b
  {
    MulStep(a, b, g);
    MulStep(b, a, g);
  }

  /** The least multiple of g that is at least x is x / g rounded up. */
  lemma CeilingQuotient(x: nat, g: nat, d: nat)
    requires 0 < g && x <= d * g < x + g
    ensures d == x / g + (if x % g != 0 then 1 else 0)
  {
    var q, r := x / g, x % g;
    assert q * g + r == x && 0 <= r < g;
    if r == 0 {
      MulUnique(d, q, g, x);
    } else {
      assert (q + 1) * g == q * g + g;
      MulUnique(d, q + 1, g, x);
    }
  }

  lemma QuotientBelow(t: nat, g: nat)
    requires 0 < g
    ensures (t / g) * g <= t
  {
    assert (t / g) * g + t % g == t;
  }

  lemma WrappedQuotient(s: nat, g: nat)
    requires 0 < g && s < SizeLimit
    ensures (s * g) % SizeLimit / g == s <==> s * g < SizeLimit
  {
    var t := (s * g) % SizeLimit;
    if s * g < SizeLimit {
      assert t == s * g;
      MulDivCancel(s, g);
    } else {
      assert t < SizeLimit;
      QuotientBelow(t, g);
    }
  }

  /** The wrapped test fires exactly when the true product needs more than 64 bits. */
  lemma {:induction false} OverflowTestExact(alloc: nat, newAlloc: nat)
    requires alloc < newAlloc < SizeLimit
    ensures OverflowTestFires(alloc, newAlloc) <==> (alloc + 1 + newAlloc) * (newAlloc - alloc) >= SizeLimit
  {
    var growth := newAlloc - alloc;
    var sum := alloc + 1 + newAlloc;
    if sum >= SizeLimit {
      assert sum % SizeLimit == sum - SizeLimit < newAlloc;
      MulAtLeast(growth, sum);
    } else {
      assert sum % SizeLimit == sum;
      WrappedQuotient(sum, growth);
    }
  }

  /**
   * The cells init_column_info adds when the table grows from alloc to
   * newAlloc records, computed in size_t: (alloc + 1 + newAlloc) * growth / 2.
   * Once the overflow test has passed, it is exactly what the new candidates own.
   */
  function NewCells(alloc: nat, newAlloc: nat): (n: nat)
    requires alloc < newAlloc < SizeLimit && !OverflowTestFires(alloc, newAlloc)
    ensures n == Tri(newAlloc) - Tri(alloc)
    ensures Tri(alloc) + n == Tri(newAlloc)
  {
    var growth, sum := newAlloc - alloc, alloc + 1 + newAlloc;
    OverflowTestExact(alloc, newAlloc);
    MulAtLeast(growth, sum);
    assert sum % SizeLimit == sum;
    var product := sum * growth;
    assert product % SizeLimit == product;
    TriangleCells(alloc, newAlloc);
    (sum % SizeLimit * growth) % SizeLimit / 2
  }

  /** Tri(n): the cells owned by candidates 0 .. n-1 (candidate i owns i + 1). */
  function Tri(n: nat): nat
  {
    if n == 0 then 0 else Tri(n - 1) + n
  }

  lemma {:induction false} TriMonotone(a: nat, b: nat)
    requires a <= b
    ensures Tri(a) <= Tri(b)
    decreases b
  {
    if a < b {
      TriMonotone(a, b - 1);
    }
  }

  /** The cells of candidate k and those of a different candidate i never overlap. */
  lemma WindowsApart(k: nat, m: nat, i: nat, j: nat)
    requires m <= k && j <= i && k != i
    ensures Tri(k) + m != Tri(i) + j
  {
    if k < i {
      TriMonotone(k + 1, i);
    } else {
      TriMonotone(i + 1, k);
    }
  }

  /**
   * The chunk init_column_info allocates, (a + 1 + b) * (b - a) / 2 cells,
   * is exactly what candidates a .. b-1 need.
   */
  lemma {:induction false} TriangleCells(a: nat, b: nat)
    requires a <= b
    ensures 2 * (Tri(b) - Tri(a)) == (a + 1 + b) * (b - a)
    ensures Tri(b) - Tri(a) == (a + 1 + b) * (b - a) / 2
    decreases b
  {
    TriMonotone(a, b);
    if a < b {
      TriangleCells(a, b - 1);
      calc {
        (a + 1 + b) * (b - a);
        (a + b) * (b - a) + (b - a);
        (a + b) * (b - 1 - a) + (a + b) + (b - a);
        2 * (Tri(b - 1) - Tri(a)) + 2 * b;
      }
    }
  }

  // ---------------------------------------------------------------------
  // Candidates and the folding pass

  /** struct column_info as a value: validity, running line length and slot widths. */
  datatype Candidate = Candidate(valid: bool, lineLen: nat, widths: seq<nat>)

  function Sum(s: seq<nat>): nat
  {
    if s == [] then 0 else Sum(s[..|s| - 1]) + s[|s| - 1]
  }

  lemma {:induction false} SumUpdate(s: seq<nat>, k: nat, v: nat)
    requires k < |s|
    ensures Sum(s[k := v]) + s[k] == Sum(s) + v
    decreases |s|
  {
    var t := s[k := v];
    if k < |s| - 1 {
      assert t[..|t| - 1] == s[..|s| - 1][k := v];
      SumUpdate(s[..|s| - 1], k, v);
    } else {
      assert t[..|t| - 1] == s[..|s| - 1];
    }
  }

  lemma {:induction false} SumConstant(k: nat, w: nat)
    ensures Sum(seq(k, _ => w)) == k * w
    decreases k
  {
    if k > 0 {
      assert seq(k, _ => w)[..k - 1] == seq(k - 1, _ => w);
      SumConstant(k - 1, w);
    }
  }

  /** The narrowest layout with i + 1 columns, as init_column_info sets it up. */
  function Initial(i: nat): (c: Candidate)
    ensures c.valid && |c.widths| == i + 1
    ensures forall k :: 0 <= k < |c.widths| ==> c.widths[k] == MinColumnWidth
    ensures c.lineLen == Sum(c.widths)
  {
    SumConstant(i + 1, MinColumnWidth);
    Candidate(true, (i + 1) * MinColumnWidth, seq(i + 1, _ => MinColumnWidth))
  }

  /** Rows needed by candidate i: (nelem + i) / (i + 1), the ceiling of nelem / (i + 1). */
  function Rows(nelem: nat, i: nat): (rows: nat)
    requires 0 < nelem
    ensures 1 <= rows
    ensures nelem <= rows * (i + 1) < nelem + (i + 1)
  {
    var q := (nelem + i) / (i + 1);
    assert q * (i + 1) + (nelem + i) % (i + 1) == nelem + i;
    q
  }

  /** An index below rows * cols lies in one of the first cols groups of rows. */
  lemma QuotientBound(enr: nat, rows: nat, cols: nat)
    requires 0 < rows && enr < rows * cols
    ensures enr / rows < cols
  {
    var q := enr / rows;
    assert q * rows + enr % rows == enr;
    MulStep(cols - 1, q, rows);
  }

  /** The column slot of element enr under candidate i: down-then-across or across. */
  function Slot(byColumns: bool, nelem: nat, i: nat, enr: nat): (idx: nat)
    requires enr < nelem
    ensures idx <= i
  {
    if byColumns then
      var rows := Rows(nelem, i);
      QuotientBound(enr, rows, i + 1);
      enr / rows
    else
      enr % (i + 1)
  }

  /** The width an element of elemLength characters needs in slot idx of candidate i. */
  function Required(elemLength: nat, idx: nat, i: nat): (w: nat)
    ensures idx == i ==> w == elemLength
    ensures idx != i ==> w == elemLength + 2
  {
    elemLength + (if idx == i then 0 else 2)
  }

  /** Folding one element into candidate i (the body of the inner loop of calculate_columns). */
  function Widen(c: Candidate, i: nat, idx: nat, elemLength: nat, budget: nat): (r: Candidate)
    requires |c.widths| == i + 1 && idx <= i
    ensures |r.widths| == i + 1
    ensures r.valid ==> c.valid
    ensures !c.valid ==> r == c
    ensures forall k :: 0 <= k <= i ==> c.widths[k] <= r.widths[k]
    ensures r.valid ==> Required(elemLength, idx, i) <= r.widths[idx]
    ensures c.lineLen == Sum(c.widths) ==> r.lineLen == Sum(r.widths)
    ensures r != c ==> r.valid == (r.lineLen < budget)
  {
    if !c.valid then c
    else
      var need := Required(elemLength, idx, i);
      if c.widths[idx] < need then
        var lineLen := c.lineLen + (need - c.widths[idx]);
        SumUpdate(c.widths, idx, need);
        Candidate(lineLen < budget, lineLen, c.widths[idx := need])
      else c
  }

  /** Element lengths (strlen of each element). */
  function Lengths(elems: seq<seq<char>>): (lens: seq<nat>)
    ensures |lens| == |elems|
    ensures forall k :: 0 <= k < |elems| ==> lens[k] == |elems[k]|
  {
    seq(|elems|, k requires 0 <= k < |elems| => |elems[k]|)
  }

  /** Candidate i after the first n elements (of lengths lens) have been folded in. */
  function Folded(lens: seq<nat>, byColumns: bool, budget: nat, i: nat, n: nat): (c: Candidate)
    requires n <= |lens|
    ensures |c.widths| == i + 1
    decreases n
  {
    if n == 0 then Initial(i)
    else Widen(Folded(lens, byColumns, budget, i, n - 1), i, Slot(byColumns, |lens|, i, n - 1), lens[n - 1], budget)
  }

  /** The running line length is always the sum of the slot widths. */
  lemma {:induction false} FoldedLineLenIsSum(lens: seq<nat>, byColumns: bool, budget: nat, i: nat, n: nat)
    requires n <= |lens|
    ensures Folded(lens, byColumns, budget, i, n).lineLen == Sum(Folded(lens, byColumns, budget, i, n).widths)
    decreases n
  {
    if n > 0 {
      FoldedLineLenIsSum(lens, byColumns, budget, i, n - 1);
    }
  }

  /** Slot widths never shrink, and never drop below the minimum column width. */
  lemma {:induction false} WidthsNeverShrink(lens: seq<nat>, byColumns: bool, budget: nat, i: nat, n: nat, m: nat, k: nat)
    requires n <= m <= |lens| && k <= i
    ensures MinColumnWidth <= Folded(lens, byColumns, budget, i, n).widths[k] <= Folded(lens, byColumns, budget, i, m).widths[k]
    decreases m
  {
    if n < m {
      WidthsNeverShrink(lens, byColumns, budget, i, n, m - 1, k);
    } else if n > 0 {
      WidthsNeverShrink(lens, byColumns, budget, i, 0, n - 1, k);
    }
  }

  /** Validity only ever goes from true to false. */
  lemma {:induction false} ValidityMonotone(lens: seq<nat>, byColumns: bool, budget: nat, i: nat, n: nat, m: nat)
    requires n <= m <= |lens|
    ensures Folded(lens, byColumns, budget, i, m).valid ==> Folded(lens, byColumns, budget, i, n).valid
    decreases m
  {
    if n < m {
      ValidityMonotone(lens, byColumns, budget, i, n, m - 1);
    }
  }

  /** An invalidated candidate is never touched again. */
  lemma {:induction false} InvalidFrozen(lens: seq<nat>, byColumns: bool, budget: nat, i: nat, n: nat, m: nat)
    requires n <= m <= |lens|
    requires !Folded(lens, byColumns, budget, i, n).valid
    ensures Folded(lens, byColumns, budget, i, m) == Folded(lens, byColumns, budget, i, n)
    decreases m
  {
    if n < m {
      InvalidFrozen(lens, byColumns, budget, i, n, m - 1);
    }
  }

  /** Element enr, once folded in, keeps a slot wide enough for as long as the candidate stays valid. */
  lemma {:induction false} FoldedFitsAt(lens: seq<nat>, byColumns: bool, budget: nat, i: nat, n: nat, enr: nat)
    requires enr < n <= |lens|
    ensures var c, idx := Folded(lens, byColumns, budget, i, n), Slot(byColumns, |lens|, i, enr);
      c.valid ==> Required(lens[enr], idx, i) <= c.widths[idx]
    decreases n
  {
    if enr < n - 1 {
      FoldedFitsAt(lens, byColumns, budget, i, n - 1, enr);
    }
  }

  /** A candidate still valid after n elements gives every one of them a slot wide enough. */
  lemma FoldedFits(lens: seq<nat>, byColumns: bool, budget: nat, i: nat, n: nat)
    requires n <= |lens|
    ensures var c := Folded(lens, byColumns, budget, i, n);
      c.valid ==> forall enr :: 0 <= enr < n ==>
        Required(lens[enr], Slot(byColumns, |lens|, i, enr), i) <= c.widths[Slot(byColumns, |lens|, i, enr)]
  {
    forall enr | 0 <= enr < n
      ensures var c, idx := Folded(lens, byColumns, budget, i, n), Slot(byColumns, |lens|, i, enr);
        c.valid ==> Required(lens[enr], idx, i) <= c.widths[idx]
    {
      FoldedFitsAt(lens, byColumns, budget, i, n, enr);
    }
  }

  /**
   * A candidate still valid after n elements fits the budget, or was never
   * widened at all: the initial line length is never compared with it.
   */
  lemma {:induction false} FoldedWithinBudget(lens: seq<nat>, byColumns: bool, budget: nat, i: nat, n: nat)
    requires n <= |lens|
    ensures var c := Folded(lens, byColumns, budget, i, n);
      c.valid ==> c.lineLen < budget || c == Initial(i)
    decreases n
  {
    if n > 0 {
      FoldedWithinBudget(lens, byColumns, budget, i, n - 1);
    }
  }

  // ---------------------------------------------------------------------
  // Choosing the column count

  /** Whether each of the candidates 0 .. m - 1 is still valid after all elements. */
  function Survivors(lens: seq<nat>, byColumns: bool, budget: nat, m: nat): (v: seq<bool>)
    ensures |v| == m
    ensures forall i :: 0 <= i < m ==> v[i] == Folded(lens, byColumns, budget, i, |lens|).valid
  {
    if m == 0 then [] else Survivors(lens, byColumns, budget, m - 1) + [Folded(lens, byColumns, budget, m - 1, |lens|).valid]
  }

  /** The down-counting selection loop of calculate_columns over the validity flags, started at c. */
  function Chosen(valid: seq<bool>, c: nat): (cols: nat)
    requires 1 <= c <= |valid|
    ensures 1 <= cols <= c
    ensures forall i :: cols <= i < c ==> !valid[i]
    ensures 1 < cols ==> valid[cols - 1]
  {
    if c == 1 || valid[c - 1] then c else Chosen(valid, c - 1)
  }

  /** The column count calculate_columns returns for the given elements. */
  function Columns(lens: seq<nat>, llen: nat, indent: nat, byColumns: bool): (cols: nat)
    requires 0 < |lens| && llen < SizeLimit && indent < SizeLimit
    ensures 1 <= cols <= MaxCols(MaxIdx(llen), |lens|)
  {
    var maxCols := MaxCols(MaxIdx(llen), |lens|);
    Chosen(Survivors(lens, byColumns, Budget(llen, indent), maxCols), maxCols)
  }

  /**
   * The chosen count is the largest one that is still valid: every larger
   * candidate was invalidated, and the chosen one is valid unless it is the
   * fallback of one column.
   */
  lemma ColumnsMaximal(lens: seq<nat>, llen: nat, indent: nat, byColumns: bool)
    requires 0 < |lens| && llen < SizeLimit && indent < SizeLimit
    ensures var cols := Columns(lens, llen, indent, byColumns);
      var budget := Budget(llen, indent);
      (forall i :: cols <= i < MaxCols(MaxIdx(llen), |lens|) ==> !Folded(lens, byColumns, budget, i, |lens|).valid)
      && (1 < cols ==> Folded(lens, byColumns, budget, cols - 1, |lens|).valid)
  {
  }
}
