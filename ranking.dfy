/** The rank ordering of a sheet: the list the draft tracker walks is the
    sheet's rows sorted ascending by their RK column, read off as player
    names. */
module Ranking {

  /** One spreadsheet row as the tracker sees it: the PLAYER NAME cell and
      the RK cell. Every other column is display payload. */
  datatype Row = Row(name: string, rank: int)

  /** Ascending by rank (lower rank is better); equal ranks may come in any
      order. */
  predicate SortedByRank(rows: seq<Row>)
  {
    forall i, j :: 0 <= i < j < |rows| ==> rows[i].rank <= rows[j].rank
  }

  /** Inserts one row into a rank-ordered list. */
  function Insert(r: Row, s: seq<Row>): (t: seq<Row>)
    requires SortedByRank(s)
    ensures SortedByRank(t)
    ensures multiset(t) == multiset(s) + multiset{r}
  {
    if s == [] then [r]
    else if r.rank <= s[0].rank then ConsSorted(r, s); [r] + s
    else
      var tail := Insert(r, s[1..]);
      assert s == [s[0]] + s[1..];
      assert forall k :: 0 <= k < |tail| ==> s[0].rank <= tail[k].rank by {
        forall k | 0 <= k < |tail| ensures s[0].rank <= tail[k].rank {
          assert tail[k] in multiset(tail);
          assert tail[k] == r || tail[k] in multiset(s[1..]);
        }
      }
      ConsSorted(s[0], tail);
      [s[0]] + tail
  }

  /** A row no worse than every row of a rank-ordered list can go in front. */
  lemma ConsSorted(x: Row, t: seq<Row>)
    requires SortedByRank(t)
    requires forall k :: 0 <= k < |t| ==> x.rank <= t[k].rank
    ensures SortedByRank([x] + t)
  {
  }

  /** A reference sort by rank: the result is ascending by rank and holds
      exactly the rows of the sheet, each as often as in the sheet. */
  function SortByRank(rows: seq<Row>): (s: seq<Row>)
    ensures SortedByRank(s)
    ensures multiset(s) == multiset(rows)
    ensures |s| == |rows|
  {
    if rows == [] then []
    else
      assert rows == [rows[0]] + rows[1..];
      Insert(rows[0], SortByRank(rows[1..]))
  }

  /** The PLAYER NAME column of a list of rows, in the same order. */
  function Names(rows: seq<Row>): (ns: seq<string>)
    ensures |ns| == |rows|
    ensures forall i :: 0 <= i < |rows| ==> ns[i] == rows[i].name
  {
    seq(|rows|, i requires 0 <= i < |rows| => rows[i].name)
  }

  /** Sorting neither drops nor invents players: a row is in the sorted list
      exactly when it is in the sheet, and so is a name. */
  lemma SortedRowsAreSheetRows(sheet: seq<Row>)
    ensures forall x :: x in SortByRank(sheet) <==> x in sheet
    ensures forall n :: n in Names(SortByRank(sheet)) <==> n in Names(sheet)
  {
    var s := SortByRank(sheet);
    forall x ensures x in s <==> x in sheet {
      assert x in s <==> x in multiset(s);
      assert x in sheet <==> x in multiset(sheet);
    }
    forall n ensures n in Names(s) <==> n in Names(sheet) {
      if n in Names(s) {
        var j :| 0 <= j < |s| && Names(s)[j] == n;
        assert s[j] in sheet;
        var i :| 0 <= i < |sheet| && sheet[i] == s[j];
        assert Names(sheet)[i] == n;
      }
      if n in Names(sheet) {
        var i :| 0 <= i < |sheet| && Names(sheet)[i] == n;
        assert sheet[i] in s;
        var j :| 0 <= j < |s| && s[j] == sheet[i];
        assert Names(s)[j] == n;
      }
    }
  }

  /** The RK column of a list of rows, in the same order. */
  function Ranks(rows: seq<Row>): (rs: seq<int>)
    ensures |rs| == |rows|
    ensures forall i :: 0 <= i < |rows| ==> rs[i] == rows[i].rank
  {
    seq(|rows|, i requires 0 <= i < |rows| => rows[i].rank)
  }

  predicate Ascending(p: seq<int>)
  {
    forall i, j :: 0 <= i < j < |p| ==> p[i] <= p[j]
  }

  /** Taking out the row at position `j` takes out one copy of that row and
      one copy of its rank. */
  lemma RemoveAt(b: seq<Row>, j: nat)
    requires j < |b|
    ensures multiset(b) == multiset(b[..j] + b[j + 1..]) + multiset{b[j]}
    ensures multiset(Ranks(b)) == multiset(Ranks(b[..j] + b[j + 1..])) + multiset{b[j].rank}
  {
    assert b == b[..j] + [b[j]] + b[j + 1..];
    var rs := Ranks(b);
    assert Ranks(b[..j] + b[j + 1..]) == rs[..j] + rs[j + 1..];
    assert rs == rs[..j] + [rs[j]] + rs[j + 1..];
  }

  /** Two lists holding the same rows carry the same ranks, counted with
      multiplicity. */
  lemma {:induction false} SameRowsSameRanks(a: seq<Row>, b: seq<Row>)
    requires multiset(a) == multiset(b)
    ensures multiset(Ranks(a)) == multiset(Ranks(b))
    decreases |a|
  {
    if a == [] {
      assert |b| == |multiset(b)| == 0;
    } else {
      var x := a[0];
      var j := IndexOf(b, x);
      var rest := b[..j] + b[j + 1..];
      RemoveFirst(a);
      RemoveAt(b, j);
      Cancel(multiset(a[1..]), multiset(rest), multiset{x});
      SameRowsSameRanks(a[1..], rest);
    }
  }

  lemma IndexOf(b: seq<Row>, x: Row) returns (j: nat)
    requires x in multiset(b)
    ensures j < |b| && b[j] == x
  {
    assert x in b;
    j :| 0 <= j < |b| && b[j] == x;
  }

  lemma RemoveFirst(a: seq<Row>)
    requires a != []
    ensures multiset(a) == multiset(a[1..]) + multiset{a[0]}
    ensures multiset(Ranks(a)) == multiset(Ranks(a[1..])) + multiset{a[0].rank}
  {
    assert a == [a[0]] + a[1..];
    assert Ranks(a) == [a[0].rank] + Ranks(a[1..]);
  }

  lemma Cancel<T>(m: multiset<T>, n: multiset<T>, x: multiset<T>)
    requires m + x == n + x
    ensures m == n
  {
    assert forall y :: m[y] == (m + x)[y] - x[y];
  }

  /** Ascending integer sequences with the same elements are equal. */
  lemma {:induction false} AscendingUnique(p: seq<int>, q: seq<int>)
    requires Ascending(p) && Ascending(q)
    requires multiset(p) == multiset(q)
    ensures p == q
    decreases |p|
  {
    if p == [] {
      assert |q| == |multiset(q)| == 0;
    } else {
      assert |q| == |multiset(q)| == |p|;
      assert p[0] in multiset(q);
      assert q[0] in multiset(p);
      assert p[0] == q[0];
      assert p == [p[0]] + p[1..];
      assert q == [q[0]] + q[1..];
      assert multiset(p[1..]) == multiset(p) - multiset{p[0]};
      assert multiset(q[1..]) == multiset(q) - multiset{q[0]};
      AscendingUnique(p[1..], q[1..]);
    }
  }

  /** What "sorted ascending by RK" pins down: every ordering of a sheet that
      is ascending by rank and holds the sheet's rows has the same rank as the
      reference sort at every position. Orderings may differ only in how rows
      of equal rank are arranged. */
  lemma RankOrderIsDetermined(sheet: seq<Row>, ordered: seq<Row>)
    requires SortedByRank(ordered)
    requires multiset(ordered) == multiset(sheet)
    ensures Ranks(ordered) == Ranks(SortByRank(sheet))
  {
    var s := SortByRank(sheet);
    SameRowsSameRanks(ordered, s);
    AscendingUnique(Ranks(ordered), Ranks(s));
  }
}
