/** Keyword ranking and the column read order of the Myszkowski transposition
    (`_keyword_order` and the `(rank, index)` sort in crypto_hybrid.py). */
module KeywordOrder {

  /** Strictly ascending by code point, hence free of repeats. */
  predicate Increasing(s: seq<char>)
  {
    forall i, j :: 0 <= i < j < |s| ==> s[i] < s[j]
  }

  /** Inserts `c` into the ascending sequence `s`, unless it is already there. */
  function Insert(s: seq<char>, c: char): (r: seq<char>)
    requires Increasing(s)
    decreases |s|, 1
    ensures Increasing(r)
    ensures forall x :: x in r <==> x in s || x == c
  {
    if |s| == 0 then [c]
    else if c < s[0] then [c] + s
    else if c == s[0] then s
    else
      InsertTailAbove(s, c);
      [s[0]] + Insert(s[1..], c)
  }

  lemma InsertTailAbove(s: seq<char>, c: char)
    requires Increasing(s) && |s| > 0 && s[0] < c
    decreases |s|, 0
    ensures forall k :: 0 <= k < |Insert(s[1..], c)| ==> s[0] < Insert(s[1..], c)[k]
  {
    var t := Insert(s[1..], c);
    forall k | 0 <= k < |t| ensures s[0] < t[k] {
      var x := t[k];
      assert x in t;
      if x != c {
        assert x in s[1..];
        var m :| 0 <= m < |s| - 1 && s[1..][m] == x;
        assert s[m + 1] == x;
      }
    }
  }

  /** `sorted(set(keyword))`: the distinct characters of the keyword in
      ascending code-point order. */
  function Distinct(keyword: seq<char>): (u: seq<char>)
    ensures Increasing(u)
    ensures forall x :: x in u <==> x in keyword
  {
    if |keyword| == 0 then []
    else Insert(Distinct(keyword[..|keyword| - 1]), keyword[|keyword| - 1])
  }

  /** Position of `c` in `u`: the rank map is `c -> IndexOf(u, c) + 1`, and
      a column's read position is `IndexOf(order, c)`. */
  function IndexOf<T(==)>(u: seq<T>, c: T): (i: nat)
    requires c in u
    ensures i < |u| && u[i] == c
  {
    if u[0] == c then 0 else 1 + IndexOf(u[1..], c)
  }

  /** The number of distinct characters of the keyword. */
  function DistinctCount(keyword: seq<char>): nat
  {
    |set c | c in keyword|
  }

  /** `_keyword_order`: each keyword character replaced by the 1-based
      position of that character among the keyword's sorted distinct
      characters. */
  function Ranks(keyword: seq<char>): (ranks: seq<nat>)
    ensures |ranks| == |keyword|
  {
    var u := Distinct(keyword);
    seq(|keyword|, i requires 0 <= i < |keyword| => IndexOf(u, keyword[i]) + 1)
  }

  lemma {:induction false} IncreasingIndex(u: seq<char>, a: nat, b: nat)
    requires Increasing(u) && a < |u| && b < |u|
    ensures u[a] < u[b] <==> a < b
    ensures u[a] == u[b] <==> a == b
  {
  }

  lemma {:induction false} IncreasingCard(u: seq<char>)
    requires Increasing(u)
    ensures |set c | c in u| == |u|
  {
    if |u| > 0 {
      var tail := u[1..];
      IncreasingCard(tail);
      SetOfCons(u);
      HeadNotInTail(u);
    }
  }

  lemma SetOfCons(u: seq<char>)
    requires |u| > 0
    ensures (set c | c in u) == {u[0]} + (set c | c in u[1..])
  {
    assert u == [u[0]] + u[1..];
  }

  lemma HeadNotInTail(u: seq<char>)
    requires Increasing(u) && |u| > 0
    ensures u[0] !in u[1..]
  {
    forall k | 1 <= k < |u| ensures u[k] != u[0] {
      IncreasingIndex(u, 0, k);
    }
  }

  /** Ranks order the keyword positions exactly as their characters are
      ordered: equal characters share a rank, and a smaller character gets a
      smaller rank and vice versa. */
  lemma RanksFollowCharacters(keyword: seq<char>, i: nat, j: nat)
    requires i < |keyword| && j < |keyword|
    ensures keyword[i] < keyword[j] <==> Ranks(keyword)[i] < Ranks(keyword)[j]
    ensures keyword[i] == keyword[j] <==> Ranks(keyword)[i] == Ranks(keyword)[j]
  {
    var u := Distinct(keyword);
    var a, b := IndexOf(u, keyword[i]), IndexOf(u, keyword[j]);
    IncreasingIndex(u, a, b);
  }

  /** The ranks are exactly 1..U, U the number of distinct characters:
      every rank lies in that range and every value of it is taken. */
  lemma RanksCoverDistinct(keyword: seq<char>)
    ensures forall i :: 0 <= i < |keyword| ==> 1 <= Ranks(keyword)[i] <= DistinctCount(keyword)
    ensures forall k: nat :: 1 <= k <= DistinctCount(keyword) ==> k in Ranks(keyword)
  {
    var u := Distinct(keyword);
    IncreasingCard(u);
    assert (set c | c in u) == (set c | c in keyword);
    forall k: nat | 1 <= k <= DistinctCount(keyword)
      ensures k in Ranks(keyword)
    {
      var c := u[k - 1];
      assert c in keyword;
      var i :| 0 <= i < |keyword| && keyword[i] == c;
      IncreasingIndex(u, IndexOf(u, c), k - 1);
      assert Ranks(keyword)[i] == k;
      assert k in Ranks(keyword);
    }
  }

  lemma DistinctBall()
    ensures Distinct("BALL") == "ABL"
  {
    assert Distinct("B") == "B";
    assert Distinct("BA") == "AB";
    assert Insert("B", 'L') == "BL";
    assert Distinct("BAL") == "ABL";
    assert Insert("BL", 'L') == "BL";
    assert "BALL"[..3] == "BAL";
  }

  lemma DistinctBalloo()
    ensures Distinct("BALLOO") == "ABLO"
  {
    DistinctBall();
    InsertFirstO();
    assert "BALLO"[..4] == "BALL";
    assert Distinct("BALLO") == "ABLO";
    InsertSecondO();
    assert "BALLOO"[..5] == "BALLO";
  }

  lemma InsertFirstO()
    ensures Insert("ABL", 'O') == "ABLO"
  {
    assert Insert("L", 'O') == "LO";
    assert Insert("BL", 'O') == "BLO";
  }

  lemma InsertSecondO()
    ensures Insert("ABLO", 'O') == "ABLO"
  {
    assert Insert("O", 'O') == "O";
    assert Insert("LO", 'O') == "LO";
    assert Insert("BLO", 'O') == "BLO";
  }

  lemma DistinctBalloon()
    ensures Distinct("BALLOON") == "ABLNO"
  {
    DistinctBalloo();
    InsertN();
    assert "BALLOON"[..6] == "BALLOO";
  }

  lemma InsertN()
    ensures Insert("ABLO", 'N') == "ABLNO"
  {
    assert Insert("O", 'N') == "NO";
    assert Insert("LO", 'N') == "LNO";
    assert Insert("BLO", 'N') == "BLNO";
  }

  /** The keyword of the example in `_keyword_order`'s documentation
      (A=1, B=2, L=3, N=4, O=5). Each O ranks 5 and the N ranks 4, so the
      code yields [2, 1, 3, 3, 5, 5, 4], not the [2, 1, 3, 3, 4, 4, 5]
      printed beside it. */
  lemma BalloonRanks()
    ensures Ranks("BALLOON") == [2, 1, 3, 3, 5, 5, 4]
    ensures Ranks("BALLOON") != [2, 1, 3, 3, 4, 4, 5]
  {
    DistinctBalloon();
    AblnoIndexes();
    var r := Ranks("BALLOON");
    assert r[0] == 2 && r[1] == 1 && r[2] == 3 && r[3] == 3;
    assert r[4] == 5 && r[5] == 5 && r[6] == 4;
  }

  lemma AblnoIndexes()
    ensures IndexOf("ABLNO", 'A') == 0 && IndexOf("ABLNO", 'B') == 1 && IndexOf("ABLNO", 'L') == 2
    ensures IndexOf("ABLNO", 'N') == 3 && IndexOf("ABLNO", 'O') == 4
  {
    assert "ABLNO"[1..] == "BLNO";
    assert "BLNO"[1..] == "LNO";
    assert "LNO"[1..] == "NO";
    assert "NO"[1..] == "O";
  }

  // ---------------------------------------------------------------------
  // Column read order: `sorted(range(cols), key=lambda i: (ranks[i], i))`

  /** Column `i` is read before column `j`: smaller rank first, ties broken
      by the original column index. */
  predicate KeyBefore(ranks: seq<nat>, i: nat, j: nat)
    requires i < |ranks| && j < |ranks|
  {
    ranks[i] < ranks[j] || (ranks[i] == ranks[j] && i < j)
  }

  predicate InRange(ranks: seq<nat>, o: seq<nat>)
  {
    forall a :: 0 <= a < |o| ==> o[a] < |ranks|
  }

  predicate SortedByKey(ranks: seq<nat>, o: seq<nat>)
    requires InRange(ranks, o)
  {
    forall a, b :: 0 <= a < b < |o| ==> KeyBefore(ranks, o[a], o[b])
  }

  /** `o` lists every column index below `k` exactly once. */
  predicate IsColumnOrder(o: seq<nat>, k: nat)
  {
    && |o| == k
    && (forall a :: 0 <= a < k ==> o[a] < k)
    && (forall c :: 0 <= c < k ==> c in o)
    && (forall a, b :: 0 <= a < b < k ==> o[a] != o[b])
  }

  function InsertColumn(ranks: seq<nat>, o: seq<nat>, i: nat): (r: seq<nat>)
    requires InRange(ranks, o) && SortedByKey(ranks, o) && i < |ranks| && i !in o
    decreases |o|, 1
    ensures |r| == |o| + 1
    ensures InRange(ranks, r) && SortedByKey(ranks, r)
    ensures forall x :: x in r <==> x in o || x == i
  {
    if |o| == 0 then [i]
    else if KeyBefore(ranks, i, o[0]) then [i] + o
    else
      InsertColumnTailAfter(ranks, o, i);
      [o[0]] + InsertColumn(ranks, o[1..], i)
  }

  lemma InsertColumnTailAfter(ranks: seq<nat>, o: seq<nat>, i: nat)
    requires InRange(ranks, o) && SortedByKey(ranks, o) && i < |ranks|
    requires i !in o && |o| > 0 && !KeyBefore(ranks, i, o[0])
    decreases |o|, 0
    ensures forall k :: 0 <= k < |InsertColumn(ranks, o[1..], i)| ==>
              InsertColumn(ranks, o[1..], i)[k] < |ranks| &&
              KeyBefore(ranks, o[0], InsertColumn(ranks, o[1..], i)[k])
  {
    var t := InsertColumn(ranks, o[1..], i);
    forall k | 0 <= k < |t|
      ensures t[k] < |ranks| && KeyBefore(ranks, o[0], t[k])
    {
      var x := t[k];
      assert x in t;
      if x != i {
        assert x in o[1..];
        var m :| 0 <= m < |o| - 1 && o[1..][m] == x;
        assert o[m + 1] == x;
        assert KeyBefore(ranks, o[0], o[m + 1]);
      }
    }
  }

  /** The first `n` column indices sorted by `(rank, index)`. */
  function SortColumns(ranks: seq<nat>, n: nat): (o: seq<nat>)
    requires n <= |ranks|
    ensures |o| == n
    ensures InRange(ranks, o) && SortedByKey(ranks, o)
    ensures forall x: nat :: x in o <==> x < n
  {
    if n == 0 then [] else InsertColumn(ranks, SortColumns(ranks, n - 1), n - 1)
  }

  /** The column read order shared by encryption and decryption. */
  function ReadOrder(ranks: seq<nat>): (o: seq<nat>)
    ensures IsColumnOrder(o, |ranks|)
    ensures InRange(ranks, o) && SortedByKey(ranks, o)
  {
    var o := SortColumns(ranks, |ranks|);
    forall a, b | 0 <= a < b < |o| ensures o[a] != o[b] {
      assert KeyBefore(ranks, o[a], o[b]);
    }
    o
  }

  lemma HeadIsMember(s: seq<nat>)
    ensures |s| > 0 ==> s[0] in s
  {
  }

  lemma {:induction false} SortedUnique(ranks: seq<nat>, a: seq<nat>, b: seq<nat>)
    requires InRange(ranks, a) && SortedByKey(ranks, a)
    requires InRange(ranks, b) && SortedByKey(ranks, b)
    requires forall x :: x in a <==> x in b
    ensures a == b
    decreases |a|
  {
    if |a| == 0 {
      HeadIsMember(b);
    } else {
      assert a[0] in a;
      assert a[0] in b;
      var j :| 0 <= j < |b| && b[j] == a[0];
      assert b[0] in b;
      assert b[0] in a;
      var i :| 0 <= i < |a| && a[i] == b[0];
      assert a[0] == b[0];
      forall x ensures x in a[1..] <==> x in b[1..] {
        if x in a[1..] {
          var p :| 0 <= p < |a| - 1 && a[1..][p] == x;
          assert KeyBefore(ranks, a[0], a[p + 1]);
          assert x in a;
          var q :| 0 <= q < |b| && b[q] == x;
          assert q != 0;
          assert b[1..][q - 1] == x;
        }
        if x in b[1..] {
          var p :| 0 <= p < |b| - 1 && b[1..][p] == x;
          assert KeyBefore(ranks, b[0], b[p + 1]);
          assert x in b;
          var q :| 0 <= q < |a| && a[q] == x;
          assert q != 0;
          assert a[1..][q - 1] == x;
        }
      }
      SortedUnique(ranks, a[1..], b[1..]);
    }
  }

  /** The read order is fully determined by the ranks: any listing of the
      columns sorted by `(rank, index)` is this one, so decryption, which
      recomputes it from the same keyword, replays encryption's order. */
  lemma ReadOrderUnique(ranks: seq<nat>, o: seq<nat>)
    requires IsColumnOrder(o, |ranks|)
    requires InRange(ranks, o) && SortedByKey(ranks, o)
    ensures o == ReadOrder(ranks)
  {
    var r := ReadOrder(ranks);
    forall x ensures x in o <==> x in r {
      if x in o {
        var p :| 0 <= p < |o| && o[p] == x;
      }
      if x in r {
        var p :| 0 <= p < |r| && r[p] == x;
      }
    }
    SortedUnique(ranks, o, r);
  }

  /** Read order for the keyword "BA": column 1 (rank 1) before column 0. */
  lemma ReadOrderBA()
    ensures Ranks("BA") == [2, 1]
    ensures ReadOrder(Ranks("BA")) == [1, 0]
  {
    assert Distinct("B") == "B";
    assert Distinct("BA") == "AB";
    var ranks := Ranks("BA");
    assert SortColumns(ranks, 1) == [0];
  }
}
