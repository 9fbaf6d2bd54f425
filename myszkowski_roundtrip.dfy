/** When does `myszkowski_decrypt` undo `myszkowski_encrypt`?

    Encryption fills the grid row by row, so the partial last row reaches
    the leftmost ORIGINAL columns 0 .. r-1 (r = len % cols). Decryption
    instead hands the one extra character to the first r columns in READ
    order. The two agree exactly when those are the same columns; this
    module proves the round trip under that condition, proves that it fails
    whenever the condition fails, and gives the decryption that replays the
    grid, which always inverts encryption. */
module MyszkowskiRoundTrip {
  import opened Base
  import opened GridArith
  import opened KeywordOrder
  import opened Myszkowski
  import opened MyszkowskiProps

  /** The first `rem` read positions hold exactly the columns 0 .. rem-1. */
  predicate ExtrasLeftmost(order: seq<nat>, rem: nat)
  {
    forall pos :: 0 <= pos < |order| ==> (pos < rem <==> order[pos] < rem)
  }

  /** The true column lengths of the encryption grid, in read order. */
  function GridLens(n: nat, cols: nat, order: seq<nat>): (lens: seq<nat>)
    requires cols > 0 && IsColumnOrder(order, cols)
    ensures |lens| == cols
  {
    seq(cols, pos requires 0 <= pos < cols => ColLen(n, cols, order[pos]))
  }

  /** Decryption that replays the grid: column lengths as encryption
      produced them rather than by the remainder rule. */
  function DecryptedByGrid(ciphertext: seq<char>, keyword: seq<char>): Result<seq<char>, CipherError>
  {
    if |keyword| == 0 then Err(EmptyKeyword)
    else
      var cols := |keyword|;
      var order := ReadOrder(Ranks(keyword));
      Ok(RStrip(Reassembled(ciphertext, order, GridLens(|ciphertext|, cols, order), RowCount(|ciphertext|, cols))))
  }

  // ---------------------------------------------------------------------
  // Decrypt's chunks

  /** The remainder rule's chunks tile the ciphertext: each starts where
      the previous one ends, the first at 0, and together they cover all of
      it, so their lengths sum to its length. */
  lemma ChunksTile(ct: seq<char>, cols: nat)
    requires cols > 0
    ensures Sum(ChunkLens(|ct|, cols)) == |ct|
    ensures forall pos :: 0 <= pos < cols ==>
              Sum(ChunkLens(|ct|, cols)[..pos + 1]) == Sum(ChunkLens(|ct|, cols)[..pos]) + ChunkLens(|ct|, cols)[pos]
    ensures Join(Chunks(ct, ChunkLens(|ct|, cols), cols)) == ct
  {
    var n := |ct|;
    var lens := ChunkLens(n, cols);
    ChunkStart(n, cols, cols);
    DivMod(n, cols);
    assert lens[..cols] == lens;
    forall pos | 0 <= pos < cols
      ensures Sum(lens[..pos + 1]) == Sum(lens[..pos]) + lens[pos]
    {
      SumStep(lens, pos + 1);
    }
    JoinParts(ct, lens, cols);
  }

  /** The first k parts of the ciphertext, cut by the lengths `lens`. */
  function Chunks(ct: seq<char>, lens: seq<nat>, k: nat): (parts: seq<seq<char>>)
    requires k <= |lens|
    ensures |parts| == k
    ensures forall pos :: 0 <= pos < k ==> parts[pos] == Part(ct, lens, pos)
  {
    seq(k, pos requires 0 <= pos < k => Part(ct, lens, pos))
  }

  lemma SumStep(lens: seq<nat>, k: nat)
    requires 0 < k <= |lens|
    ensures Sum(lens[..k]) == Sum(lens[..k - 1]) + lens[k - 1]
  {
    assert lens[..k][..k - 1] == lens[..k - 1];
  }

  /** Parts cut by lengths that fit in the ciphertext join to its prefix
      of their total length. */
  lemma {:induction false} JoinParts(ct: seq<char>, lens: seq<nat>, k: nat)
    requires k <= |lens| && Sum(lens[..k]) <= |ct|
    ensures Join(Chunks(ct, lens, k)) == ct[..Sum(lens[..k])]
  {
    if k == 0 {
      assert lens[..0] == [];
    } else {
      SumStep(lens, k);
      JoinParts(ct, lens, k - 1);
      JoinNextPart(ct, lens, k);
    }
  }

  /** One more part extends the joined prefix by that part. */
  lemma JoinNextPart(ct: seq<char>, lens: seq<nat>, k: nat)
    requires 0 < k <= |lens| && Sum(lens[..k]) <= |ct|
    requires Sum(lens[..k]) == Sum(lens[..k - 1]) + lens[k - 1]
    requires Join(Chunks(ct, lens, k - 1)) == ct[..Sum(lens[..k - 1])]
    ensures Join(Chunks(ct, lens, k)) == ct[..Sum(lens[..k])]
  {
    ChunksStep(ct, lens, k);
    PartBetween(ct, lens, k - 1, Sum(lens[..k - 1]), Sum(lens[..k]));
    PrefixExtend(ct, Sum(lens[..k - 1]), Sum(lens[..k]));
  }

  /** A part that fits in the ciphertext is the slice between its bounds. */
  lemma PartBetween(ct: seq<char>, lens: seq<nat>, pos: nat, before: nat, after: nat)
    requires pos < |lens| && before == Sum(lens[..pos]) && after == before + lens[pos] <= |ct|
    ensures Part(ct, lens, pos) == ct[before..after]
  {
  }

  lemma PrefixExtend(ct: seq<char>, before: nat, after: nat)
    requires before <= after <= |ct|
    ensures ct[..before] + ct[before..after] == ct[..after]
  {
  }

  /** The k-th chunk list is the one before it plus the next part. */
  lemma ChunksStep(ct: seq<char>, lens: seq<nat>, k: nat)
    requires 0 < k <= |lens|
    ensures Join(Chunks(ct, lens, k)) == Join(Chunks(ct, lens, k - 1)) + Part(ct, lens, k - 1)
  {
    var parts := Chunks(ct, lens, k);
    assert parts[..k - 1] == Chunks(ct, lens, k - 1);
  }

  // ---------------------------------------------------------------------
  // Rebuilding the grid from correctly sized parts

  lemma {:induction false} GatherPrefixLength(p: seq<char>, cols: nat, order: seq<nat>, lens: seq<nat>, pos: nat)
    requires cols > 0 && NoNul(p) && IsColumnOrder(order, cols) && lens == GridLens(|p|, cols, order)
    requires pos <= cols
    ensures Sum(lens[..pos]) == |Gather(p, cols, order[..pos])|
  {
    if pos > 0 {
      GatherPrefixLength(p, cols, order, lens, pos - 1);
      assert lens[..pos][..pos - 1] == lens[..pos - 1];
      assert order[..pos][..pos - 1] == order[..pos - 1];
      ColumnTextOfText(p, cols, order[pos - 1]);
    }
  }

  lemma PartIsColumn(p: seq<char>, cols: nat, order: seq<nat>, lens: seq<nat>, pos: nat)
    requires cols > 0 && NoNul(p) && IsColumnOrder(order, cols) && lens == GridLens(|p|, cols, order)
    requires pos < cols
    ensures Part(Gather(p, cols, order), lens, pos) == ColumnText(p, cols, order[pos])
  {
    var before := Gather(p, cols, order[..pos]);
    var col := ColumnText(p, cols, order[pos]);
    var after := Gather(p, cols, order[pos + 1..]);
    GatherAround(p, cols, order, pos);
    assert Sum(lens[..pos]) == |before| by {
      GatherPrefixLength(p, cols, order, lens, pos);
    }
    assert lens[pos] == |col| by {
      ColumnTextOfText(p, cols, order[pos]);
    }
    PartBetween(before + col + after, lens, pos, |before|, |before| + |col|);
    MiddleSlice(before, col, after);
  }

  /** The read-out splits around any read position. */
  lemma GatherAround(p: seq<char>, cols: nat, order: seq<nat>, pos: nat)
    requires cols > 0 && pos < |order|
    ensures Gather(p, cols, order)
            == Gather(p, cols, order[..pos]) + ColumnText(p, cols, order[pos]) + Gather(p, cols, order[pos + 1..])
  {
    assert order == order[..pos + 1] + order[pos + 1..];
    GatherAppend(p, cols, order[..pos + 1], order[pos + 1..]);
    assert order[..pos + 1][..pos] == order[..pos];
  }

  lemma MiddleSlice(a: seq<char>, b: seq<char>, c: seq<char>)
    ensures (a + b + c)[|a|..|a| + |b|] == b
  {
  }

  lemma RecoveredCellIsCell(p: seq<char>, cols: nat, order: seq<nat>, lens: seq<nat>, r: nat, c: nat)
    requires cols > 0 && NoNul(p) && IsColumnOrder(order, cols) && lens == GridLens(|p|, cols, order)
    requires c < cols
    ensures RecoveredCell(Gather(p, cols, order), order, lens, r, c) == Cell(p, cols, r, c)
  {
    var pos := IndexOf(order, c);
    PartIsColumn(p, cols, order, lens, pos);
    ColumnTextOfText(p, cols, c);
    CellInText(|p|, cols, r, c);
  }

  /** Character i of the grid rebuilt from correctly sized parts is the
      plaintext's, or filler past its end. */
  lemma ReassembledAt(p: seq<char>, cols: nat, order: seq<nat>, i: nat)
    requires cols > 0 && NoNul(p) && IsColumnOrder(order, cols)
    requires i < RowCount(|p|, cols) * cols
    ensures var s := Reassembled(Gather(p, cols, order), order, GridLens(|p|, cols, order), RowCount(|p|, cols));
            |s| == RowCount(|p|, cols) * cols && s[i] == (if i < |p| then p[i] else NUL)
  {
    var r, c := i / cols, i % cols;
    RowAndColumn(i, cols, RowCount(|p|, cols));
    ReassembledGridCell(p, cols, order, r, c);
  }

  /** Position i of a grid of `rows` rows lies in row `i / cols`, column
      `i % cols`. */
  lemma RowAndColumn(i: nat, cols: nat, rows: nat)
    requires cols > 0 && i < rows * cols
    ensures i / cols < rows && i % cols < cols && i == i / cols * cols + i % cols
  {
    DivMod(i, cols);
    MulCancelLess(i / cols, rows, cols);
  }

  /** Cell (r, c) of the grid rebuilt from correctly sized parts is the
      plaintext grid's cell (r, c). */
  lemma ReassembledGridCell(p: seq<char>, cols: nat, order: seq<nat>, r: nat, c: nat)
    requires cols > 0 && NoNul(p) && IsColumnOrder(order, cols)
    requires r < RowCount(|p|, cols) && c < cols
    ensures var s := Reassembled(Gather(p, cols, order), order, GridLens(|p|, cols, order), RowCount(|p|, cols));
            |s| == RowCount(|p|, cols) * cols && r * cols + c < |s| && s[r * cols + c] == Cell(p, cols, r, c)
  {
    var lens := GridLens(|p|, cols, order);
    ReassembledCell(Gather(p, cols, order), order, lens, RowCount(|p|, cols), r, c);
    RecoveredCellIsCell(p, cols, order, lens, r, c);
  }

  /** The rebuilt grid read row-major holds cell (r, c) at `r * cols + c`. */
  lemma ReassembledCell(ct: seq<char>, order: seq<nat>, lens: seq<nat>, rows: nat, r: nat, c: nat)
    requires IsColumnOrder(order, |lens|) && r < rows && c < |lens|
    ensures |Reassembled(ct, order, lens, rows)| == rows * |lens|
    ensures r * |lens| + c < rows * |lens|
    ensures Reassembled(ct, order, lens, rows)[r * |lens| + c] == RecoveredCell(ct, order, lens, r, c)
  {
    var grid := RecoveredRows(ct, order, lens, rows);
    JoinAt(grid, |lens|, r, c);
    assert grid[r][c] == RecoveredCell(ct, order, lens, r, c);
  }

  /** Every character of the rebuilt grid is a ciphertext character or
      filler. */
  lemma ReassembledFromCiphertext(ct: seq<char>, order: seq<nat>, lens: seq<nat>, rows: nat, i: nat)
    requires IsColumnOrder(order, |lens|) && |lens| > 0 && rows > 0
    requires i < |Reassembled(ct, order, lens, rows)|
    ensures Reassembled(ct, order, lens, rows)[i] == NUL || Reassembled(ct, order, lens, rows)[i] in ct
  {
    var cols := |lens|;
    ReassembledCell(ct, order, lens, rows, 0, 0);
    RowAndColumn(i, cols, rows);
    var r, c := i / cols, i % cols;
    ReassembledCell(ct, order, lens, rows, r, c);
    var pos := IndexOf(order, c);
    if r < |Part(ct, lens, pos)| {
      PartWithin(ct, lens, pos, r);
    }
  }

  /** A part holds only ciphertext characters. */
  lemma PartWithin(ct: seq<char>, lens: seq<nat>, pos: nat, r: nat)
    requires pos < |lens| && r < |Part(ct, lens, pos)|
    ensures Part(ct, lens, pos)[r] in ct
  {
    var hi := Min(Sum(lens[..pos]) + lens[pos], |ct|);
    var lo := Min(Sum(lens[..pos]), hi);
    assert Part(ct, lens, pos)[r] == ct[lo + r];
  }

  /** With every part of its true length, the rebuilt grid read row-major
      is the plaintext followed by the padding of the last row. */
  lemma ReassembleColumns(p: seq<char>, cols: nat, order: seq<nat>)
    requires cols > 0 && NoNul(p) && IsColumnOrder(order, cols)
    ensures RowCount(|p|, cols) * cols >= |p|
    ensures Reassembled(Gather(p, cols, order), order, GridLens(|p|, cols, order), RowCount(|p|, cols))
            == p + seq(RowCount(|p|, cols) * cols - |p|, _ => NUL)
  {
    var R := RowCount(|p|, cols);
    RowCountCovers(|p|, cols);
    var s := Reassembled(Gather(p, cols, order), order, GridLens(|p|, cols, order), R);
    var target := p + seq(R * cols - |p|, _ => NUL);
    JoinLength(RecoveredRows(Gather(p, cols, order), order, GridLens(|p|, cols, order), R), cols);
    forall i | 0 <= i < R * cols
      ensures s[i] == target[i]
    {
      ReassembledAt(p, cols, order, i);
    }
  }

  // ---------------------------------------------------------------------
  // The round trip

  /** Under the condition, the remainder rule gives every column its true
      length, so decryption inverts encryption. */
  lemma DecryptInverts(p: seq<char>, keyword: seq<char>)
    requires |keyword| > 0 && NoNul(p)
    requires ExtrasLeftmost(ReadOrder(Ranks(keyword)), |p| % |keyword|)
    ensures Encrypted(p, keyword).Ok?
    ensures Decrypted(Encrypted(p, keyword).value, keyword) == Ok(p)
  {
    EncryptedIsPermutation(p, keyword);
    var ct := Encrypted(p, keyword).value;
    GridDecryptInverts(p, keyword);
    StrategiesAgree(ct, keyword);
  }

  /** In the remainder rule's grid, the cell of column `order[pos]` in row
      `len / cols` holds a ciphertext character exactly when `pos` is one of
      the first `len % cols` read positions. */
  lemma LastRowCell(ct: seq<char>, cols: nat, order: seq<nat>, pos: nat)
    requires cols > 0 && IsColumnOrder(order, cols) && NoNul(ct) && pos < cols
    ensures var cell := RecoveredCell(ct, order, ChunkLens(|ct|, cols), |ct| / cols, order[pos]);
            cell != NUL <==> pos < |ct| % cols
  {
    var lens := ChunkLens(|ct|, cols);
    var c := order[pos];
    assert IndexOf(order, c) == pos;
    ChunkInside(|ct|, cols, pos);
    var from := Sum(lens[..pos]);
    var part := Part(ct, lens, pos);
    assert part == ct[from..from + lens[pos]];
    if pos < |ct| % cols {
      assert part[|ct| / cols] == ct[from + |ct| / cols];
    }
  }

  /** Without the condition, some column gets the wrong length and the
      output is not the plaintext: a column credited with an extra
      character pushes a real character past the text's end, and a column
      denied one leaves filler inside it. */
  lemma DecryptFailsOtherwise(p: seq<char>, keyword: seq<char>)
    requires |keyword| > 0 && NoNul(p)
    requires !ExtrasLeftmost(ReadOrder(Ranks(keyword)), |p| % |keyword|)
    ensures Encrypted(p, keyword).Ok?
    ensures Decrypted(Encrypted(p, keyword).value, keyword) != Ok(p)
  {
    EncryptedIsPermutation(p, keyword);
    EncryptedHasNoNul(p, keyword);
    var ct := Encrypted(p, keyword).value;
    MisSplitLosesText(ct, |keyword|, ReadOrder(Ranks(keyword)), p);
  }

  /** The general form: a filler-free ciphertext split by the remainder
      rule against the grid never rebuilds a filler-free text of its own
      length. */
  lemma MisSplitLosesText(ct: seq<char>, cols: nat, order: seq<nat>, p: seq<char>)
    requires cols > 0 && IsColumnOrder(order, cols) && NoNul(ct) && NoNul(p) && |p| == |ct|
    requires !ExtrasLeftmost(order, |ct| % cols)
    ensures RStrip(Reassembled(ct, order, ChunkLens(|ct|, cols), RowCount(|ct|, cols))) != p
  {
    MisSplitShape(ct, cols, order);
  }

  /** What a mis-split leaves: the stripped text differs in length from
      the ciphertext (a real character landed past its end, or filler
      inside it was stripped with the rest), or it keeps a filler
      character inside. */
  lemma MisSplitShape(ct: seq<char>, cols: nat, order: seq<nat>)
    requires cols > 0 && IsColumnOrder(order, cols) && NoNul(ct)
    requires !ExtrasLeftmost(order, |ct| % cols)
    ensures var t := RStrip(Reassembled(ct, order, ChunkLens(|ct|, cols), RowCount(|ct|, cols)));
            |t| != |ct| || exists j :: 0 <= j < |t| && t[j] == NUL
  {
    var n := |ct|;
    var q, m := n / cols, n % cols;
    DivMod(n, cols);
    var pos0 :| 0 <= pos0 < cols && (pos0 < m) != (order[pos0] < m);
    assert m > 0;
    var s := Reassembled(ct, order, ChunkLens(n, cols), RowCount(n, cols));
    LastRowAt(ct, cols, order, pos0);
    var i: nat := q * cols + order[pos0];
    if pos0 < m {
      StripKeepsLateCell(s, i, n);
    } else {
      StripShowsFiller(s, i, n);
    }
  }

  /** A character at or past position n that is not filler survives the
      strip, so the stripped text is longer than n. */
  lemma StripKeepsLateCell(s: seq<char>, i: nat, n: nat)
    requires i < |s| && s[i] != NUL && n <= i
    ensures |RStrip(s)| != n
  {
    RStripPrefix(s, i);
  }

  /** Filler before position n is either stripped with everything after
      it, leaving fewer than n characters, or stays inside the text. */
  lemma StripShowsFiller(s: seq<char>, i: nat, n: nat)
    requires i < |s| && s[i] == NUL && i < n
    ensures var t := RStrip(s);
            |t| != n || exists j :: 0 <= j < |t| && t[j] == NUL
  {
    RStripLength(s);
    var t := RStrip(s);
    if i < |t| {
      assert t[i] == NUL;
    }
  }

  /** The cell of the last, partial row that sits in column `order[pos]`
      lies inside the reassembled text, and it is a real character exactly
      when the column was read among the first `|ct| % cols`. */
  lemma LastRowAt(ct: seq<char>, cols: nat, order: seq<nat>, pos: nat)
    requires cols > 0 && IsColumnOrder(order, cols) && NoNul(ct) && pos < cols
    requires |ct| % cols > 0
    ensures var s := Reassembled(ct, order, ChunkLens(|ct|, cols), RowCount(|ct|, cols));
            var i := |ct| / cols * cols + order[pos];
            0 <= i < |s| && (s[i] != NUL <==> pos < |ct| % cols)
  {
    var n := |ct|;
    var q := n / cols;
    DivMod(n, cols);
    MulMonotone(0, q, cols);
    var lens := ChunkLens(n, cols);
    assert RowCount(n, cols) == q + 1;
    ReassembledCell(ct, order, lens, q + 1, q, order[pos]);
    LastRowCell(ct, cols, order, pos);
  }

  /** `myszkowski_decrypt(myszkowski_encrypt(p, k), k) == p` holds for a
      filler-free plaintext exactly when the first `len(p) % len(k)` read
      positions are the columns 0 .. `len(p) % len(k)` - 1. */
  lemma RoundTripIff(p: seq<char>, keyword: seq<char>)
    requires |keyword| > 0 && NoNul(p)
    ensures Encrypted(p, keyword).Ok?
    ensures Decrypted(Encrypted(p, keyword).value, keyword) == Ok(p)
            <==> ExtrasLeftmost(ReadOrder(Ranks(keyword)), |p| % |keyword|)
  {
    if ExtrasLeftmost(ReadOrder(Ranks(keyword)), |p| % |keyword|) {
      DecryptInverts(p, keyword);
    } else {
      DecryptFailsOtherwise(p, keyword);
    }
  }

  /** When the keyword length divides the text length no column is short,
      and the round trip always holds. */
  lemma RoundTripWhenDivisible(p: seq<char>, keyword: seq<char>)
    requires |keyword| > 0 && NoNul(p) && |p| % |keyword| == 0
    ensures Encrypted(p, keyword).Ok?
    ensures Decrypted(Encrypted(p, keyword).value, keyword) == Ok(p)
  {
    DecryptInverts(p, keyword);
  }

  /** The 64-character hex key survives the round trip under every keyword
      whose length divides 64. */
  lemma HexKeyRoundTrip(keyHex: seq<char>, keyword: seq<char>)
    requires |keyHex| == 64 && NoNul(keyHex)
    requires |keyword| in {1, 2, 4, 8, 16, 32, 64}
    ensures Encrypted(keyHex, keyword).Ok?
    ensures Decrypted(Encrypted(keyHex, keyword).value, keyword) == Ok(keyHex)
  {
    RoundTripWhenDivisible(keyHex, keyword);
  }

  /** The grid-replay decryption inverts encryption for every keyword and
      every filler-free plaintext. */
  lemma GridDecryptInverts(p: seq<char>, keyword: seq<char>)
    requires |keyword| > 0 && NoNul(p)
    ensures Encrypted(p, keyword).Ok?
    ensures DecryptedByGrid(Encrypted(p, keyword).value, keyword) == Ok(p)
  {
    var cols := |keyword|;
    var order := ReadOrder(Ranks(keyword));
    EncryptedIsPermutation(p, keyword);
    ReassembleColumns(p, cols, order);
    RStripPadding(p, RowCount(|p|, cols) * cols - |p|);
  }

  /** The remainder rule and the grid replay split a ciphertext the same way
      exactly when the condition holds, so they agree on it there. */
  lemma StrategiesAgree(ct: seq<char>, keyword: seq<char>)
    requires |keyword| > 0
    ensures var order := ReadOrder(Ranks(keyword));
            ChunkLens(|ct|, |keyword|) == GridLens(|ct|, |keyword|, order)
            <==> ExtrasLeftmost(order, |ct| % |keyword|)
    ensures ExtrasLeftmost(ReadOrder(Ranks(keyword)), |ct| % |keyword|) ==>
            Decrypted(ct, keyword) == DecryptedByGrid(ct, keyword)
  {
    var cols := |keyword|;
    var order := ReadOrder(Ranks(keyword));
    var m := |ct| % cols;
    if ChunkLens(|ct|, cols) == GridLens(|ct|, cols, order) {
      forall pos | 0 <= pos < cols ensures pos < m <==> order[pos] < m {
        assert ChunkLens(|ct|, cols)[pos] == GridLens(|ct|, cols, order)[pos];
      }
    }
  }

  /** The smallest failing case: under keyword "BA" the text "abc" is
      enciphered as "bac" (column 1 = "b" first, then column 0 = "ac"),
      but decryption gives the first read position, column 1, two
      characters and column 0 one, and returns "cb\0a". */
  lemma BAabcCounterexample()
    ensures Encrypted("abc", "BA") == Ok("bac")
    ensures Decrypted("bac", "BA") == Ok("cb\0a")
    ensures !ExtrasLeftmost(ReadOrder(Ranks("BA")), 3 % 2)
  {
    ReadOrderBA();
    BAabcEncrypts();
    BAbacDecrypts();
  }

  lemma BAabcEncrypts()
    ensures Encrypted("abc", "BA") == Ok("bac")
  {
    ReadOrderBA();
    var p := "abc";
    ColumnTextOfText(p, 2, 1);
    assert ColumnText(p, 2, 1) == "b";
    ColumnTextOfText(p, 2, 0);
    assert ColumnText(p, 2, 0) == "ac";
    var order: seq<nat> := [1, 0];
    assert order[..1] == [1];
    assert [1][..0] == [];
    assert Gather(p, 2, [1]) == "b";
    assert Gather(p, 2, order) == "bac";
  }

  lemma BAbacDecrypts()
    ensures Decrypted("bac", "BA") == Ok("cb\0a")
  {
    ReadOrderBA();
    BAbacRows();
    var rows := RecoveredRows("bac", [1, 0], [2, 1], 2);
    assert rows[..1] == ["cb"];
    assert rows[..1][..0] == [];
    assert Join(rows[..1]) == "cb";
    assert Join(rows) == "cb\0a";
    assert Reassembled("bac", [1, 0], [2, 1], 2) == "cb\0a";
    assert RStrip("cb\0a") == "cb\0a";
  }

  /** The chunks of `"bac"` under `"BA"` and the grid they rebuild. */
  lemma BAbacRows()
    ensures ChunkLens(3, 2) == [2, 1]
    ensures RecoveredRows("bac", [1, 0], [2, 1], 2) == ["cb", [NUL, 'a']]
  {
    BAbacCells();
    OrderBA();
    TwoByTwo("bac", [1, 0], [2, 1]);
  }

  /** Reading column 1 and then column 0 reads each of two columns once. */
  lemma OrderBA()
    ensures IsColumnOrder([1, 0], 2)
  {
    var o: seq<nat> := [1, 0];
    forall c | 0 <= c < 2
      ensures c in o
    {
      assert o[1 - c] == c;
    }
  }

  /** A two-column, two-row rebuilt grid, cell by cell. */
  lemma TwoByTwo(ct: seq<char>, order: seq<nat>, lens: seq<nat>)
    requires IsColumnOrder(order, |lens|) && |lens| == 2
    ensures RecoveredRows(ct, order, lens, 2)
            == [[RecoveredCell(ct, order, lens, 0, 0), RecoveredCell(ct, order, lens, 0, 1)],
                [RecoveredCell(ct, order, lens, 1, 0), RecoveredCell(ct, order, lens, 1, 1)]]
  {
    var rows := RecoveredRows(ct, order, lens, 2);
    assert rows[0] == [RecoveredCell(ct, order, lens, 0, 0), RecoveredCell(ct, order, lens, 0, 1)];
    assert rows[1] == [RecoveredCell(ct, order, lens, 1, 0), RecoveredCell(ct, order, lens, 1, 1)];
  }

  /** Cell by cell: column 1 is read first and gets `"ba"`, column 0 gets
      `"c"`. */
  lemma BAbacCells()
    ensures ChunkLens(3, 2) == [2, 1]
    ensures RecoveredCell("bac", [1, 0], [2, 1], 0, 0) == 'c' && RecoveredCell("bac", [1, 0], [2, 1], 0, 1) == 'b'
    ensures RecoveredCell("bac", [1, 0], [2, 1], 1, 0) == NUL && RecoveredCell("bac", [1, 0], [2, 1], 1, 1) == 'a'
  {
    var ct, lens := "bac", ChunkLens(3, 2);
    assert lens == [2, 1];
    assert lens[..1] == [2];
    assert Part(ct, lens, 0) == "ba";
    assert Part(ct, lens, 1) == "c";
    var order: seq<nat> := [1, 0];
    assert IndexOf(order, 1) == 0;
    assert IndexOf(order, 0) == 1;
  }

}
