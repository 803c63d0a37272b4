/** DataFrame.sort_values(by=keys) on the rows of a frame: the result is a
    reordering of the rows in which every row comes no later than each row
    after it, comparing key by key. Which of several rows that tie on every
    key comes first is not promised. */
module Sorting {
  import opened Frames
  import opened Cells

  /** Row a may come before row b: on the first key where they are not tied
      a's cell is the smaller; rows tied on every key may come in either
      order. */
  predicate RowLe(a: Row, b: Row, keys: seq<string>)
    decreases |keys|
  {
    keys == [] ||
      (CellLe(Get(a, keys[0]), Get(b, keys[0])) &&
       (!CellLe(Get(b, keys[0]), Get(a, keys[0])) || RowLe(a, b, keys[1..])))
  }

  lemma {:induction false} RowLeTotal(a: Row, b: Row, keys: seq<string>)
    ensures RowLe(a, b, keys) || RowLe(b, a, keys)
    decreases |keys|
  {
    if keys != [] {
      CellLeTotal(Get(a, keys[0]), Get(b, keys[0]));
      RowLeTotal(a, b, keys[1..]);
    }
  }

  lemma {:induction false} RowLeTransitive(a: Row, b: Row, c: Row, keys: seq<string>)
    requires RowLe(a, b, keys) && RowLe(b, c, keys)
    ensures RowLe(a, c, keys)
    decreases |keys|
  {
    if keys != [] {
      var x, y, z := Get(a, keys[0]), Get(b, keys[0]), Get(c, keys[0]);
      CellLeTransitive(x, y, z);
      if CellLe(z, x) {
        CellLeTransitive(y, z, x);
        CellLeTransitive(z, x, y);
        RowLeTransitive(a, b, c, keys[1..]);
      }
    }
  }

  /** Every row comes no later than every row after it. */
  predicate Sorted(rows: seq<Row>, keys: seq<string>)
  {
    forall i, j :: 0 <= i < j < |rows| ==> RowLe(rows[i], rows[j], keys)
  }

  /** A row that may come before every row of a sorted sequence may lead
      it. */
  lemma ConsSorted(y: Row, t: seq<Row>, keys: seq<string>)
    requires Sorted(t, keys)
    requires forall z :: z in t ==> RowLe(y, z, keys)
    ensures Sorted([y] + t, keys)
  {
    forall i, j | 0 <= i < j < |[y] + t| ensures RowLe(([y] + t)[i], ([y] + t)[j], keys) {
      assert ([y] + t)[j] == t[j - 1];
      if i == 0 {
        assert t[j - 1] in t;
      } else {
        assert ([y] + t)[i] == t[i - 1];
      }
    }
  }

  /** The head of a sorted sequence may come before every other row of it,
      and before x too when x may not come before it. */
  lemma HeadFirst(x: Row, s: seq<Row>, t: seq<Row>, keys: seq<string>)
    requires Sorted(s, keys) && s != [] && !RowLe(x, s[0], keys)
    requires multiset(t) == multiset(s[1..]) + multiset{x}
    ensures forall z :: z in t ==> RowLe(s[0], z, keys)
  {
    forall z | z in t ensures RowLe(s[0], z, keys) {
      assert z in multiset(t);
      if z == x {
        RowLeTotal(x, s[0], keys);
      } else {
        assert z in multiset(s[1..]);
        var j :| 0 <= j < |s[1..]| && s[1..][j] == z;
        assert s[j + 1] == z;
      }
    }
  }

  /** x placed into the sorted rows s, ahead of the first row it may come
      before. */
  function Insert(x: Row, s: seq<Row>, keys: seq<string>): (r: seq<Row>)
    requires Sorted(s, keys)
    ensures multiset(r) == multiset(s) + multiset{x}
    ensures Sorted(r, keys)
  {
    if s == [] then [x]
    else if RowLe(x, s[0], keys) then
      forall z | z in s ensures RowLe(x, z, keys) {
        var j :| 0 <= j < |s| && s[j] == z;
        if j > 0 { RowLeTransitive(x, s[0], s[j], keys); }
      }
      ConsSorted(x, s, keys);
      [x] + s
    else
      var t := Insert(x, s[1..], keys);
      assert s == [s[0]] + s[1..];
      HeadFirst(x, s, t, keys);
      ConsSorted(s[0], t, keys);
      [s[0]] + t
  }

  /** sort_values(by=keys): a sorted reordering of rows. */
  function SortRows(rows: seq<Row>, keys: seq<string>): (r: seq<Row>)
    ensures multiset(r) == multiset(rows)
    ensures Sorted(r, keys)
  {
    if rows == [] then []
    else
      assert rows == [rows[0]] + rows[1..];
      Insert(rows[0], SortRows(rows[1..], keys), keys)
  }

  /** A reordering keeps the number of rows, and every row of one is a row
      of the other. */
  lemma PermutationFacts(r: seq<Row>, rows: seq<Row>)
    requires multiset(r) == multiset(rows)
    ensures |r| == |rows|
    ensures forall x :: x in r <==> x in rows
  {
    assert |multiset(r)| == |multiset(rows)|;
    forall x ensures x in r <==> x in rows {
      assert x in r <==> x in multiset(r);
      assert x in rows <==> x in multiset(rows);
    }
  }
}
