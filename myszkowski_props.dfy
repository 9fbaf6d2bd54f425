/** Properties of the Myszkowski specification functions: encryption is a
    permutation, the decryption chunks tile the ciphertext, and the round
    trip holds exactly when the extra characters of the remainder rule land
    on the columns encryption filled. */
module MyszkowskiProps {
  import opened Base
  import opened GridArith
  import opened KeywordOrder
  import opened Myszkowski

  // ---------------------------------------------------------------------
  // Filler removal, joining, stripping

  lemma {:induction false} DropNulAppend(a: seq<char>, b: seq<char>)
    ensures DropNul(a + b) == DropNul(a) + DropNul(b)
    decreases |b|
  {
    if |b| > 0 {
      var b' := b[..|b| - 1];
      assert (a + b)[..|a + b| - 1] == a + b';
      DropNulAppend(a, b');
    } else {
      assert a + b == a;
    }
  }

  lemma {:induction false} DropNulKeeps(s: seq<char>)
    requires NoNul(s)
    ensures DropNul(s) == s
  {
    if |s| > 0 {
      DropNulKeeps(s[..|s| - 1]);
    }
  }

  lemma {:induction false} DropNulFiller(k: nat)
    ensures DropNul(seq(k, _ => NUL)) == []
  {
    if k > 0 {
      assert seq(k, _ => NUL)[..k - 1] == seq(k - 1, _ => NUL);
      DropNulFiller(k - 1);
    }
  }

  lemma {:induction false} DropNulHasNoNul(s: seq<char>)
    ensures NoNul(DropNul(s))
  {
    if |s| > 0 {
      DropNulHasNoNul(s[..|s| - 1]);
    }
  }

  /** Rows of equal width join into one sequence that holds row r's
      column c at `r * width + c`. */
  lemma {:induction false} JoinAt(rows: seq<seq<char>>, width: nat, r: nat, c: nat)
    requires forall k :: 0 <= k < |rows| ==> |rows[k]| == width
    requires r < |rows| && c < width
    ensures |Join(rows)| == |rows| * width
    ensures r * width + c < |Join(rows)| && Join(rows)[r * width + c] == rows[r][c]
  {
    JoinLength(rows, width);
    var init := rows[..|rows| - 1];
    MulSucc(|init|, width);
    if r < |rows| - 1 {
      JoinAt(init, width, r, c);
    } else {
      JoinLength(init, width);
    }
  }

  lemma {:induction false} JoinLength(rows: seq<seq<char>>, width: nat)
    requires forall k :: 0 <= k < |rows| ==> |rows[k]| == width
    ensures |Join(rows)| == |rows| * width
  {
    if |rows| > 0 {
      JoinLength(rows[..|rows| - 1], width);
      MulSucc(|rows| - 1, width);
    }
  }

  /** `rstrip` removes only a filler suffix: the result is a prefix of the
      input, and it keeps every position up to the last non-filler one. */
  lemma {:induction false} RStripPrefix(s: seq<char>, i: nat)
    requires i < |s| && s[i] != NUL
    ensures |RStrip(s)| <= |s| && RStrip(s) == s[..|RStrip(s)|]
    ensures i < |RStrip(s)|
  {
    if s[|s| - 1] == NUL {
      RStripPrefix(s[..|s| - 1], i);
    }
  }

  lemma {:induction false} RStripLength(s: seq<char>)
    ensures |RStrip(s)| <= |s| && RStrip(s) == s[..|RStrip(s)|]
  {
    if |s| > 0 && s[|s| - 1] == NUL {
      RStripLength(s[..|s| - 1]);
    }
  }

  /** Stripping the filler padding of a filler-free text gives it back. */
  lemma {:induction false} RStripPadding(p: seq<char>, k: nat)
    requires NoNul(p)
    ensures RStrip(p + seq(k, _ => NUL)) == p
  {
    if k > 0 {
      assert (p + seq(k, _ => NUL))[..|p| + k - 1] == p + seq(k - 1, _ => NUL);
      RStripPadding(p, k - 1);
    } else {
      assert p + seq(0, _ => NUL) == p;
    }
  }

  // ---------------------------------------------------------------------
  // Columns of the encryption grid

  /** For a filler-free text, column c holds exactly the characters at
      `c, c + cols, c + 2*cols, ...` that lie inside the text. */
  lemma ColumnTextOfText(p: seq<char>, cols: nat, c: nat)
    requires cols > 0 && c < cols && NoNul(p)
    ensures |ColumnText(p, cols, c)| == ColLen(|p|, cols, c)
    ensures forall r :: 0 <= r < ColLen(|p|, cols, c) ==>
              r * cols + c < |p| && ColumnText(p, cols, c)[r] == p[r * cols + c]
  {
    var rc, len := RowCount(|p|, cols), ColLen(|p|, cols, c);
    ColLenAtMostRows(|p|, cols, c);
    var cells := seq(rc, r requires 0 <= r => Cell(p, cols, r, c));
    var inText := cells[..len];
    var filler := seq(rc - len, _ => NUL);
    CellsSplit(p, cols, c, cells);
    assert cells == inText + filler;
    DropNulAppend(inText, filler);
    DropNulFiller(rc - len);
    assert NoNul(inText);
    DropNulKeeps(inText);
    assert ColumnText(p, cols, c) == inText;
  }

  lemma CellsSplit(p: seq<char>, cols: nat, c: nat, cells: seq<char>)
    requires cols > 0 && c < cols && NoNul(p)
    requires cells == seq(RowCount(|p|, cols), r requires 0 <= r => Cell(p, cols, r, c))
    ensures ColLen(|p|, cols, c) <= |cells|
    ensures forall r :: 0 <= r < ColLen(|p|, cols, c) ==> r * cols + c < |p| && cells[r] == p[r * cols + c]
    ensures forall r :: ColLen(|p|, cols, c) <= r < |cells| ==> cells[r] == NUL
    ensures forall r :: 0 <= r < ColLen(|p|, cols, c) ==> cells[r] != NUL
  {
    ColLenAtMostRows(|p|, cols, c);
    forall r | 0 <= r < |cells|
      ensures r < ColLen(|p|, cols, c) <==> r * cols + c < |p|
    {
      CellInText(|p|, cols, r, c);
    }
  }

  lemma {:induction false} GatherAppend(p: seq<char>, cols: nat, cs: seq<nat>, ds: seq<nat>)
    requires cols > 0
    ensures Gather(p, cols, cs + ds) == Gather(p, cols, cs) + Gather(p, cols, ds)
    decreases |ds|
  {
    if |ds| > 0 {
      var ds' := ds[..|ds| - 1];
      assert (cs + ds)[..|cs + ds| - 1] == cs + ds';
      GatherAppend(p, cols, cs, ds');
    } else {
      assert cs + ds == cs;
    }
  }

  lemma {:induction false} GatherHasNoNul(p: seq<char>, cols: nat, cs: seq<nat>)
    requires cols > 0
    ensures NoNul(Gather(p, cols, cs))
  {
    if |cs| > 0 {
      GatherHasNoNul(p, cols, cs[..|cs| - 1]);
      DropNulHasNoNul(seq(RowCount(|p|, cols), r requires 0 <= r => Cell(p, cols, r, cs[|cs| - 1])));
    }
  }

  /** Encryption never emits the filler character. */
  lemma EncryptedHasNoNul(p: seq<char>, keyword: seq<char>)
    requires |keyword| > 0
    ensures Encrypted(p, keyword).Ok? && NoNul(Encrypted(p, keyword).value)
  {
    GatherHasNoNul(p, |keyword|, ReadOrder(Ranks(keyword)));
  }

  // ---------------------------------------------------------------------
  // Encryption is a permutation

  lemma {:induction false} GatherOfEmpty(cols: nat, cs: seq<nat>)
    requires cols > 0
    ensures Gather([], cols, cs) == []
  {
    if |cs| > 0 {
      GatherOfEmpty(cols, cs[..|cs| - 1]);
    }
  }

  /** Appending one character to the text adds it to the end of the column
      it falls in and leaves the other columns alone. */
  lemma ColumnTextGrows(p: seq<char>, cols: nat, c: nat)
    requires cols > 0 && c < cols && NoNul(p) && |p| > 0
    ensures ColumnText(p, cols, c) ==
            ColumnText(p[..|p| - 1], cols, c) + (if c == (|p| - 1) % cols then [p[|p| - 1]] else [])
  {
    var L := |p|;
    var p' := p[..L - 1];
    var t, t' := ColumnText(p, cols, c), ColumnText(p', cols, c);
    ColLenGrows(L, cols, c);
    ColumnTextOfText(p, cols, c);
    ColumnTextOfText(p', cols, c);
    var extra := if c == (L - 1) % cols then [p[L - 1]] else [];
    assert |t| == |t' + extra|;
    forall r | 0 <= r < |t|
      ensures t[r] == (t' + extra)[r]
    {
      if r < |t'| {
        assert p'[r * cols + c] == p[r * cols + c];
      }
    }
  }

  lemma {:induction false} GatherGrows(p: seq<char>, cols: nat, cs: seq<nat>)
    requires cols > 0 && NoNul(p) && |p| > 0
    requires forall a :: 0 <= a < |cs| ==> cs[a] < cols
    requires forall a, b :: 0 <= a < b < |cs| ==> cs[a] != cs[b]
    ensures multiset(Gather(p, cols, cs)) ==
            multiset(Gather(p[..|p| - 1], cols, cs)) +
            (if (|p| - 1) % cols in cs then multiset{p[|p| - 1]} else multiset{})
  {
    if |cs| > 0 {
      var p' := p[..|p| - 1];
      var init := cs[..|cs| - 1];
      var x := cs[|cs| - 1];
      var c0 := (|p| - 1) % cols;
      GatherGrows(p, cols, init);
      ColumnTextGrows(p, cols, x);
      var g, g' := Gather(p, cols, init), Gather(p', cols, init);
      var t, t' := ColumnText(p, cols, x), ColumnText(p', cols, x);
      assert Gather(p, cols, cs) == g + t;
      assert Gather(p', cols, cs) == g' + t';
      var one := multiset{p[|p| - 1]};
      assert multiset(g) == multiset(g') + (if c0 in init then one else multiset{});
      assert multiset(t) == multiset(t') + (if c0 == x then one else multiset{});
      assert c0 in cs <==> c0 in init || c0 == x;
      assert !(c0 in init && c0 == x);
    }
  }

  lemma {:induction false} GatherIsPermutation(p: seq<char>, cols: nat, order: seq<nat>)
    requires cols > 0 && NoNul(p) && IsColumnOrder(order, cols)
    ensures multiset(Gather(p, cols, order)) == multiset(p)
    decreases |p|
  {
    if |p| == 0 {
      GatherOfEmpty(cols, order);
    } else {
      var p', x := p[..|p| - 1], p[|p| - 1];
      assert NoNul(p') by {
        forall i | 0 <= i < |p'|
          ensures p'[i] != NUL
        {
          assert p'[i] == p[i];
        }
      }
      GatherIsPermutation(p', cols, order);
      GatherGrowsByOne(p, cols, order);
      DropLast(p);
      MultisetStep(Gather(p, cols, order), Gather(p', cols, order), p, p', x);
    }
  }

  /** A non-empty text is its prefix followed by its last character. */
  lemma DropLast(p: seq<char>)
    requires |p| > 0
    ensures p == p[..|p| - 1] + [p[|p| - 1]]
  {
  }

  /** One more character on both sides keeps two texts permutations of
      each other. */
  lemma MultisetStep(g: seq<char>, g': seq<char>, p: seq<char>, p': seq<char>, x: char)
    requires multiset(g) == multiset(g') + multiset{x}
    requires multiset(g') == multiset(p') && p == p' + [x]
    ensures multiset(g) == multiset(p)
  {
  }

  /** Over all the columns, appending a character adds it to the
      ciphertext once. */
  lemma GatherGrowsByOne(p: seq<char>, cols: nat, order: seq<nat>)
    requires cols > 0 && NoNul(p) && IsColumnOrder(order, cols) && |p| > 0
    ensures multiset(Gather(p, cols, order)) == multiset(Gather(p[..|p| - 1], cols, order)) + multiset{p[|p| - 1]}
  {
    GatherGrows(p, cols, order);
    assert (|p| - 1) % cols in order;
  }

  /** For a plaintext without filler characters, `myszkowski_encrypt`'s
      output is a rearrangement of the plaintext: same characters, same
      multiplicities, same length. */
  lemma EncryptedIsPermutation(p: seq<char>, keyword: seq<char>)
    requires |keyword| > 0 && NoNul(p)
    ensures Encrypted(p, keyword).Ok?
    ensures multiset(Encrypted(p, keyword).value) == multiset(p)
    ensures |Encrypted(p, keyword).value| == |p|
  {
    GatherIsPermutation(p, |keyword|, ReadOrder(Ranks(keyword)));
    assert |multiset(Encrypted(p, keyword).value)| == |multiset(p)|;
  }

  /** Encryption refuses an empty keyword, whatever the text. */
  lemma EncryptRefusesEmptyKeyword(text: seq<char>)
    ensures Encrypted(text, []) == Err(EmptyKeyword)
  {
  }

  /** Decryption refuses an empty keyword, whatever the text. */
  lemma DecryptRefusesEmptyKeyword(text: seq<char>)
    ensures Decrypted(text, []) == Err(EmptyKeyword)
  {
  }
}
