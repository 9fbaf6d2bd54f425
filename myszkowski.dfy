/** The Myszkowski transposition of crypto_hybrid.py: `myszkowski_encrypt`
    and `myszkowski_decrypt` as imperative methods, each proved equal to a
    specification function (`Encrypted`, `Decrypted`) whose properties are
    proved in module MyszkowskiProps. */
module Myszkowski {
  import opened Base
  import opened GridArith
  import opened KeywordOrder

  /** `ValueError("Keyword diperlukan untuk Myszkowski")`. */
  datatype CipherError = EmptyKeyword

  // ---------------------------------------------------------------------
  // Sequence helpers (Python builtins used by the two functions)

  /** `s[from:to]` with Python's clamping of out-of-range bounds. */
  function Slice<T>(s: seq<T>, from: nat, to: nat): (r: seq<T>)
    ensures from <= to <= |s| ==> r == s[from..to]
    ensures |r| <= |s|
  {
    var hi := Min(to, |s|);
    var lo := Min(from, hi);
    s[lo..hi]
  }

  /** `list(s).ljust(width, '\0')`. */
  function LJust(s: seq<char>, width: nat): seq<char>
  {
    if |s| >= width then s else s + seq(width - |s|, _ => NUL)
  }

  /** The characters of `s` that are not filler, in order. */
  function DropNul(s: seq<char>): seq<char>
  {
    if |s| == 0 then []
    else DropNul(s[..|s| - 1]) + (if s[|s| - 1] == NUL then [] else [s[|s| - 1]])
  }

  /** `''.join(...)` over a list of rows or chunks. */
  function Join(rows: seq<seq<char>>): seq<char>
  {
    if |rows| == 0 then [] else Join(rows[..|rows| - 1]) + rows[|rows| - 1]
  }

  /** `s.rstrip('\0')`. */
  function RStrip(s: seq<char>): seq<char>
  {
    if |s| > 0 && s[|s| - 1] == NUL then RStrip(s[..|s| - 1]) else s
  }

  function Sum(s: seq<nat>): nat
  {
    if |s| == 0 then 0 else Sum(s[..|s| - 1]) + s[|s| - 1]
  }

  // ---------------------------------------------------------------------
  // Encryption

  /** Cell (r, c) of the grid the plaintext is laid into row by row, the
      filler character past the end of the text. */
  function Cell(p: seq<char>, cols: nat, r: nat, c: nat): char
  {
    if r * cols + c < |p| then p[r * cols + c] else NUL
  }

  /** Row r of the grid: `plaintext[r*cols : r*cols+cols].ljust(cols, '\0')`. */
  function GridRow(p: seq<char>, cols: nat, r: nat): seq<char>
  {
    seq(cols, c requires 0 <= c => Cell(p, cols, r, c))
  }

  /** What encryption emits for column c: its cells top to bottom, filler
      skipped. */
  function ColumnText(p: seq<char>, cols: nat, c: nat): seq<char>
    requires cols > 0
  {
    DropNul(seq(RowCount(|p|, cols), r requires 0 <= r => Cell(p, cols, r, c)))
  }

  /** The column texts of the columns `cs`, concatenated in that order. */
  function Gather(p: seq<char>, cols: nat, cs: seq<nat>): seq<char>
    requires cols > 0
  {
    if |cs| == 0 then []
    else Gather(p, cols, cs[..|cs| - 1]) + ColumnText(p, cols, cs[|cs| - 1])
  }

  /** `myszkowski_encrypt(plaintext, keyword)`. */
  function Encrypted(plaintext: seq<char>, keyword: seq<char>): Result<seq<char>, CipherError>
  {
    if |keyword| == 0 then Err(EmptyKeyword)
    else Ok(Gather(plaintext, |keyword|, ReadOrder(Ranks(keyword))))
  }

  /** Row k of the grid is the padded slice starting at `k * cols`. */
  lemma PaddedSliceIsRow(p: seq<char>, cols: nat, k: nat, i: nat)
    requires cols > 0 && i == k * cols && i < |p|
    ensures LJust(Slice(p, i, i + cols), cols) == GridRow(p, cols, k)
  {
    var row := LJust(Slice(p, i, i + cols), cols);
    var hi := Min(i + cols, |p|);
    assert Slice(p, i, i + cols) == p[i..hi];
    forall c | 0 <= c < cols ensures row[c] == Cell(p, cols, k, c) {
      assert k * cols + c == i + c;
    }
  }

  /** The `rows` loop: the plaintext cut into rows of `cols` characters,
      the last one padded with filler. */
  method BuildRows(plaintext: seq<char>, cols: nat) returns (rows: seq<seq<char>>)
    requires cols > 0
    ensures |rows| == RowCount(|plaintext|, cols)
    ensures forall k :: 0 <= k < |rows| ==> rows[k] == GridRow(plaintext, cols, k)
  {
    rows := [];
    var i := 0;
    while i < |plaintext|
      invariant i == |rows| * cols
      invariant i == 0 || i - cols < |plaintext|
      invariant forall k :: 0 <= k < |rows| ==> rows[k] == GridRow(plaintext, cols, k)
      decreases |plaintext| - i
    {
      var row := LJust(Slice(plaintext, i, i + cols), cols);
      PaddedSliceIsRow(plaintext, cols, |rows|, i);
      MulSucc(|rows|, cols);
      rows := rows + [row];
      i := i + cols;
    }
    if |rows| > 0 {
      MulSucc(|rows| - 1, cols);
    }
    RowCountUnique(|plaintext|, cols, |rows|);
  }

  /** The `result_chars` loops: every column in read order, top to bottom,
      filler skipped. */
  method ReadColumns(plaintext: seq<char>, cols: nat, rows: seq<seq<char>>, order: seq<nat>)
    returns (result: seq<char>)
    requires cols > 0 && IsColumnOrder(order, cols)
    requires |rows| == RowCount(|plaintext|, cols)
    requires forall k :: 0 <= k < |rows| ==> rows[k] == GridRow(plaintext, cols, k)
    ensures result == Gather(plaintext, cols, order)
  {
    result := [];
    for pos := 0 to cols
      invariant result == Gather(plaintext, cols, order[..pos])
    {
      var col := order[pos];
      ghost var before := result;
      for r := 0 to |rows|
        invariant result == before + DropNul(seq(r, k requires 0 <= k => Cell(plaintext, cols, k, col)))
      {
        var ch := rows[r][col];
        assert seq(r + 1, k requires 0 <= k => Cell(plaintext, cols, k, col))[..r]
            == seq(r, k requires 0 <= k => Cell(plaintext, cols, k, col));
        if ch != NUL {
          result := result + [ch];
        }
      }
      assert order[..pos + 1][..pos] == order[..pos];
    }
    assert order[..cols] == order;
  }

  method Encrypt(plaintext: seq<char>, keyword: seq<char>) returns (r: Result<seq<char>, CipherError>)
    ensures r == Encrypted(plaintext, keyword)
  {
    if |keyword| == 0 {
      return Err(EmptyKeyword);
    }
    var cols := |keyword|;
    var rows := BuildRows(plaintext, cols);
    var ranks := Ranks(keyword);
    var order := ReadOrder(ranks);
    var result := ReadColumns(plaintext, cols, rows, order);
    r := Ok(result);
  }

  // ---------------------------------------------------------------------
  // Decryption, as written: chunk lengths by the remainder rule

  /** `col_lens_sorted`: `len//cols + 1` for the first `len % cols` read
      positions, `len//cols` for the others. */
  function ChunkLens(n: nat, cols: nat): (lens: seq<nat>)
    requires cols > 0
    ensures |lens| == cols
  {
    seq(cols, pos => n / cols + (if pos < n % cols then 1 else 0))
  }

  /** The part of `ct` the read position `pos` consumes:
      `ciphertext[ptr:ptr+l]` with `ptr` the sum of the earlier lengths. */
  function Part(ct: seq<char>, lens: seq<nat>, pos: nat): seq<char>
    requires pos < |lens|
  {
    Slice(ct, Sum(lens[..pos]), Sum(lens[..pos]) + lens[pos])
  }

  /** Cell (r, c) of the rebuilt grid: the r-th character of column c's
      part, or filler when the part is shorter. */
  function RecoveredCell(ct: seq<char>, order: seq<nat>, lens: seq<nat>, r: nat, c: nat): char
    requires IsColumnOrder(order, |lens|) && c < |lens|
  {
    var part := Part(ct, lens, IndexOf(order, c));
    if r < |part| then part[r] else NUL
  }

  function RecoveredRow(ct: seq<char>, order: seq<nat>, lens: seq<nat>, r: nat): (row: seq<char>)
    requires IsColumnOrder(order, |lens|)
    ensures |row| == |lens|
  {
    seq(|lens|, c requires 0 <= c < |lens| => RecoveredCell(ct, order, lens, r, c))
  }

  /** The first `rows` rows of the rebuilt grid. */
  function RecoveredRows(ct: seq<char>, order: seq<nat>, lens: seq<nat>, rows: nat): (grid: seq<seq<char>>)
    requires IsColumnOrder(order, |lens|)
    ensures |grid| == rows
    ensures forall r :: 0 <= r < rows ==> grid[r] == RecoveredRow(ct, order, lens, r)
  {
    seq(rows, r requires 0 <= r => RecoveredRow(ct, order, lens, r))
  }

  /** The first `rows` rows of the rebuilt grid, joined row-major. */
  function Reassembled(ct: seq<char>, order: seq<nat>, lens: seq<nat>, rows: nat): seq<char>
    requires IsColumnOrder(order, |lens|)
  {
    Join(RecoveredRows(ct, order, lens, rows))
  }

  /** `myszkowski_decrypt(ciphertext, keyword)` as written. */
  function Decrypted(ciphertext: seq<char>, keyword: seq<char>): Result<seq<char>, CipherError>
  {
    if |keyword| == 0 then Err(EmptyKeyword)
    else
      var cols := |keyword|;
      var order := ReadOrder(Ranks(keyword));
      Ok(RStrip(Reassembled(ciphertext, order, ChunkLens(|ciphertext|, cols), RowCount(|ciphertext|, cols))))
  }

  /** Closed form of the start of read position `pos`. */
  lemma {:induction false} ChunkStart(n: nat, cols: nat, pos: nat)
    requires cols > 0 && pos <= cols
    ensures Sum(ChunkLens(n, cols)[..pos]) == pos * (n / cols) + Min(pos, n % cols)
  {
    if pos > 0 {
      var lens := ChunkLens(n, cols);
      assert lens[..pos][..pos - 1] == lens[..pos - 1];
      ChunkStart(n, cols, pos - 1);
      assert pos * (n / cols) == (pos - 1) * (n / cols) + n / cols;
    }
  }

  /** Every chunk lies inside the ciphertext, so its part has the full
      chunk length; the first chunk is the longest. */
  lemma ChunkInside(n: nat, cols: nat, pos: nat)
    requires cols > 0 && pos < cols
    ensures Sum(ChunkLens(n, cols)[..pos]) + ChunkLens(n, cols)[pos] <= n
    ensures ChunkLens(n, cols)[pos] <= RowCount(n, cols)
    ensures ChunkLens(n, cols)[0] == RowCount(n, cols)
  {
    var lens := ChunkLens(n, cols);
    var q, m := n / cols, n % cols;
    assert lens[..pos + 1][..pos] == lens[..pos];
    ChunkStart(n, cols, pos + 1);
    var a, b := (pos + 1) * q, cols * q;
    MulMonotone(pos + 1, cols, q);
    assert a <= b;
    DivMod(n, cols);
    assert n == b + m;
  }

  /** The `col_lens_sorted` loop. */
  method ColumnLengths(n: nat, cols: nat) returns (colLens: seq<nat>)
    requires cols > 0
    ensures colLens == ChunkLens(n, cols)
  {
    var baseLen := n / cols;
    var remainder := n % cols;
    colLens := [];
    for iPos := 0 to cols
      invariant colLens == ChunkLens(n, cols)[..iPos]
    {
      if iPos < remainder {
        colLens := colLens + [baseLen + 1];
      } else {
        colLens := colLens + [baseLen];
      }
      assert ChunkLens(n, cols)[..iPos + 1] == ChunkLens(n, cols)[..iPos] + [ChunkLens(n, cols)[iPos]];
    }
  }

  /** The `parts` loop: walks the read order, giving each column the next
      `col_lens_sorted[pos]` characters. */
  method SplitParts(ct: seq<char>, order: seq<nat>, colLens: seq<nat>) returns (parts: map<nat, seq<char>>)
    requires IsColumnOrder(order, |colLens|)
    ensures forall c :: 0 <= c < |colLens| ==> c in parts && parts[c] == Part(ct, colLens, IndexOf(order, c))
  {
    parts := map[];
    var ptr := 0;
    for pos := 0 to |colLens|
      invariant ptr == Sum(colLens[..pos])
      invariant forall j :: 0 <= j < pos ==> order[j] in parts && parts[order[j]] == Part(ct, colLens, j)
    {
      var l := colLens[pos];
      parts := parts[order[pos] := Slice(ct, ptr, ptr + l)];
      ptr := ptr + l;
      assert colLens[..pos + 1][..pos] == colLens[..pos];
    }
    forall c | 0 <= c < |colLens|
      ensures c in parts && parts[c] == Part(ct, colLens, IndexOf(order, c))
    {
      var j := IndexOf(order, c);
    }
  }

  /** `max(len(parts[c]) for c in range(cols))`: the grid height. */
  method LongestPart(ct: seq<char>, order: seq<nat>, cols: nat, parts: map<nat, seq<char>>) returns (maxR: nat)
    requires cols > 0 && IsColumnOrder(order, cols)
    requires forall c :: 0 <= c < cols ==> c in parts && parts[c] == Part(ct, ChunkLens(|ct|, cols), IndexOf(order, c))
    ensures maxR == RowCount(|ct|, cols)
  {
    var n := |ct|;
    maxR := 0;
    for c := 0 to cols
      invariant maxR <= RowCount(n, cols)
      invariant forall k :: 0 <= k < c ==> |parts[k]| <= maxR
    {
      ChunkInside(n, cols, IndexOf(order, c));
      if |parts[c]| > maxR {
        maxR := |parts[c]|;
      }
    }
    ChunkInside(n, cols, 0);
    assert |parts[order[0]]| == RowCount(n, cols);
  }

  /** The row reconstruction loops, padding short columns with filler. */
  method RebuildRows(ct: seq<char>, order: seq<nat>, colLens: seq<nat>, parts: map<nat, seq<char>>, maxR: nat)
    returns (rows: seq<seq<char>>)
    requires IsColumnOrder(order, |colLens|)
    requires forall c :: 0 <= c < |colLens| ==> c in parts && parts[c] == Part(ct, colLens, IndexOf(order, c))
    ensures rows == RecoveredRows(ct, order, colLens, maxR)
  {
    rows := [];
    for row := 0 to maxR
      invariant |rows| == row
      invariant forall k :: 0 <= k < row ==> rows[k] == RecoveredRow(ct, order, colLens, k)
    {
      var rowChars := RebuildRow(ct, order, colLens, parts, row);
      rows := rows + [rowChars];
    }
  }

  /** One row of the grid: the `row`-th character of every column, or
      filler where the column is shorter. */
  method RebuildRow(ct: seq<char>, order: seq<nat>, colLens: seq<nat>, parts: map<nat, seq<char>>, row: nat)
    returns (rowChars: seq<char>)
    requires IsColumnOrder(order, |colLens|)
    requires forall c :: 0 <= c < |colLens| ==> c in parts && parts[c] == Part(ct, colLens, IndexOf(order, c))
    ensures rowChars == RecoveredRow(ct, order, colLens, row)
  {
    rowChars := [];
    for c := 0 to |colLens|
      invariant |rowChars| == c
      invariant forall k :: 0 <= k < c ==> rowChars[k] == RecoveredCell(ct, order, colLens, row, k)
    {
      var colList := if c in parts then parts[c] else [];
      var cell := if row < |colList| then colList[row] else NUL;
      CellOfPart(ct, order, colLens, colList, row, c);
      rowChars := rowChars + [cell];
    }
  }

  /** The cell `RebuildRow` takes from column c's part is the rebuilt
      grid's cell. */
  lemma CellOfPart(ct: seq<char>, order: seq<nat>, colLens: seq<nat>, colList: seq<char>, row: nat, c: nat)
    requires IsColumnOrder(order, |colLens|) && c < |colLens|
    requires colList == Part(ct, colLens, IndexOf(order, c))
    ensures (if row < |colList| then colList[row] else NUL) == RecoveredCell(ct, order, colLens, row, c)
  {
  }

  method Decrypt(ciphertext: seq<char>, keyword: seq<char>) returns (r: Result<seq<char>, CipherError>)
    ensures r == Decrypted(ciphertext, keyword)
  {
    if |keyword| == 0 {
      return Err(EmptyKeyword);
    }
    var cols := |keyword|;
    var ranks := Ranks(keyword);
    var order := ReadOrder(ranks);
    var colLens := ColumnLengths(|ciphertext|, cols);
    var parts := SplitParts(ciphertext, order, colLens);
    var maxR := LongestPart(ciphertext, order, cols, parts);
    var rows := RebuildRows(ciphertext, order, colLens, parts, maxR);
    r := Ok(RStrip(Join(rows)));
  }
}
