/** Index arithmetic of the transposition grid: a text of length `len` laid
    row-major into `cols` columns. */
module GridArith {

  /** Number of grid rows: `ceil(len / cols)`, the count of
      `range(0, len, cols)`. */
  function RowCount(len: nat, cols: nat): nat
    requires cols > 0
  {
    len / cols + (if len % cols == 0 then 0 else 1)
  }

  /** Number of real (non-filler) cells in column `c`: the full rows plus
      one when the partial last row reaches column `c`. */
  function ColLen(len: nat, cols: nat, c: nat): nat
    requires cols > 0
  {
    len / cols + (if c < len % cols then 1 else 0)
  }

  lemma MulSucc(k: int, c: int)
    ensures (k + 1) * c == k * c + c
  {
  }

  lemma MulMonotone(a: int, b: int, k: int)
    requires k >= 0 && a <= b
    ensures a * k <= b * k
  {
    assert b * k - a * k == (b - a) * k;
  }

  lemma MulCancelLess(a: int, b: int, k: int)
    requires k > 0 && a * k < b * k
    ensures a < b
  {
    if a >= b { MulMonotone(b, a, k); }
  }

  lemma DivMod(len: nat, cols: nat)
    requires cols > 0
    ensures len == (len / cols) * cols + len % cols
    ensures 0 <= len % cols < cols
  {
  }

  lemma DivModUnique(len: nat, cols: nat, q: nat, m: nat)
    requires cols > 0 && m < cols && len == q * cols + m
    ensures len / cols == q && len % cols == m
  {
    DivMod(len, cols);
    var q', m' := len / cols, len % cols;
    if q' < q {
      MulMonotone(q' + 1, q, cols);
      MulSucc(q', cols);
    } else if q' > q {
      MulMonotone(q + 1, q', cols);
      MulSucc(q, cols);
    }
  }

  /** Cell (r, c) lies inside the text exactly when r is below the column's
      length. */
  lemma CellInText(len: nat, cols: nat, r: nat, c: nat)
    requires cols > 0 && c < cols
    ensures r * cols + c < len <==> r < ColLen(len, cols, c)
  {
    var q, m := len / cols, len % cols;
    DivMod(len, cols);
    if r < q {
      MulMonotone(r + 1, q, cols);
      assert (r + 1) * cols == r * cols + cols;
    } else if r == q {
    } else {
      MulMonotone(q + 1, r, cols);
      assert (q + 1) * cols == q * cols + cols;
    }
  }

  /** One more character of text lengthens exactly the column it falls in,
      and lands at that column's old length. */
  lemma ColLenGrows(len: nat, cols: nat, c: nat)
    requires cols > 0 && c < cols && len > 0
    ensures ColLen(len, cols, c) == ColLen(len - 1, cols, c) + (if c == (len - 1) % cols then 1 else 0)
    ensures c == (len - 1) % cols ==> ColLen(len - 1, cols, c) * cols + c == len - 1
  {
    var q', m' := (len - 1) / cols, (len - 1) % cols;
    DivMod(len - 1, cols);
    if m' + 1 < cols {
      DivModUnique(len, cols, q', m' + 1);
    } else {
      MulSucc(q', cols);
      DivModUnique(len, cols, q' + 1, 0);
    }
  }

  lemma ColLenAtMostRows(len: nat, cols: nat, c: nat)
    requires cols > 0 && c < cols
    ensures ColLen(len, cols, c) <= RowCount(len, cols)
    ensures c == 0 ==> ColLen(len, cols, c) == RowCount(len, cols)
  {
  }

  /** The grid holds at least the text, and less than one extra row. */
  lemma RowCountCovers(len: nat, cols: nat)
    requires cols > 0
    ensures len <= RowCount(len, cols) * cols < len + cols
  {
    var q, m := len / cols, len % cols;
    DivMod(len, cols);
    if m != 0 {
      assert (q + 1) * cols == q * cols + cols;
    }
  }

  /** `k` rows cover `len` characters and `k - 1` rows do not: `k` is the
      row count. */
  lemma RowCountUnique(len: nat, cols: nat, k: nat)
    requires cols > 0
    requires len <= k * cols
    requires k == 0 || (k - 1) * cols < len
    ensures k == RowCount(len, cols)
  {
    var q, m := len / cols, len % cols;
    DivMod(len, cols);
    RowCountCovers(len, cols);
    var rc := RowCount(len, cols);
    if rc > 0 {
      if m == 0 {
        assert (rc - 1) * cols == len - cols;
      } else {
        assert (rc - 1) * cols == len - m;
      }
      MulCancelLess(rc - 1, k, cols);
    }
    if k > 0 {
      MulCancelLess(k - 1, rc, cols);
    }
  }
}
