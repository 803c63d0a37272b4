/** The pandas DataFrame operations the transfer script uses, on a value
    model of a data frame: a list of column names and a list of rows, each
    row a map from column name to cell. */
module Frames {
  import opened Wrappers

  /** What a cell holds once the file is read: text, a number, or a
      boolean (a column whose every value reads as True or False). */
  datatype Value = Str(s: string) | Num(x: real) | Bool(b: bool)

  /** A cell: None is pandas' missing value (NaN or None). */
  type Cell = Option<Value>

  type Row = map<string, Cell>

  datatype Frame = Frame(columns: seq<string>, rows: seq<Row>)

  /** The positional table handed to the CSV writer: a header and, per row,
      one cell per header entry. */
  datatype Sheet = Sheet(header: seq<string>, rows: seq<seq<Cell>>)

  /** The exceptions the modelled steps can raise. */
  datatype Error =
    | KeyError(column: string)   // a column selected by name does not exist
    | DuplicateColumns           // stripping the header made two names equal

  predicate Distinct<T(==)>(s: seq<T>)
  {
    forall i, j :: 0 <= i < j < |s| ==> s[i] != s[j]
  }

  /** A non-empty sequence is its prefix and its last element: its members
      are the prefix's and the last one, and when it has no duplicates
      neither has the prefix, nor does the last element occur in it. */
  lemma LastSplit<T>(s: seq<T>)
    requires s != []
    ensures forall x :: x in s <==> x in s[..|s| - 1] || x == s[|s| - 1]
    ensures Distinct(s) ==> Distinct(s[..|s| - 1]) && forall j :: 0 <= j < |s| - 1 ==> s[j] != s[|s| - 1]
  {
    assert s == s[..|s| - 1] + [s[|s| - 1]];
  }

  /** Column names are unique and every row has exactly those columns. */
  predicate WellFormed(f: Frame)
  {
    && Distinct(f.columns)
    && forall k :: 0 <= k < |f.rows| ==> f.rows[k].Keys == set c | c in f.columns
  }

  /** The cell of row r in column c (missing when r has no such column). */
  function Get(r: Row, c: string): Cell
  {
    if c in r then r[c] else None
  }

  /** df[c]: the cells of column c, one per row. */
  function Column(f: Frame, c: string): (col: seq<Cell>)
    ensures |col| == |f.rows|
    ensures forall k :: 0 <= k < |col| ==> col[k] == Get(f.rows[k], c)
  {
    seq(|f.rows|, k requires 0 <= k < |f.rows| => Get(f.rows[k], c))
  }

  /** df[c] = col: overwrites column c in place when it exists and appends
      it as the last column otherwise; every other cell is unchanged. */
  function WithColumn(f: Frame, c: string, col: seq<Cell>): (g: Frame)
    requires |col| == |f.rows|
    ensures g.columns == if c in f.columns then f.columns else f.columns + [c]
    ensures |g.rows| == |f.rows|
    ensures forall k :: 0 <= k < |g.rows| ==> g.rows[k] == f.rows[k][c := col[k]]
  {
    Frame(if c in f.columns then f.columns else f.columns + [c],
          seq(|f.rows|, k requires 0 <= k < |f.rows| => f.rows[k][c := col[k]]))
  }

  /** df[c] = v for a scalar v: every row gets v in column c. */
  function WithConstant(f: Frame, c: string, v: Cell): (g: Frame)
    ensures g.columns == if c in f.columns then f.columns else f.columns + [c]
    ensures |g.rows| == |f.rows|
    ensures forall k :: 0 <= k < |g.rows| ==> g.rows[k] == f.rows[k][c := v]
  {
    WithColumn(f, c, seq(|f.rows|, _ => v))
  }

  /** No cell of r in the columns of subset is missing. */
  predicate Complete(r: Row, subset: seq<string>)
  {
    forall c :: c in subset ==> Get(r, c).Some?
  }

  /** The positions at which keep holds, in increasing order. */
  function Positions(keep: seq<bool>): (s: seq<nat>)
    ensures |s| <= |keep|
    ensures forall k :: 0 <= k < |s| ==> s[k] < |keep| && keep[s[k]]
    ensures forall k, l :: 0 <= k < l < |s| ==> s[k] < s[l]
    ensures forall j :: j in s <==> 0 <= j < |keep| && keep[j]
  {
    if keep == [] then []
    else
      var n := |keep| - 1;
      var init := Positions(keep[..n]);
      init + (if keep[n] then [n] else [])
  }

  /** Which rows are complete on subset, one flag per row. */
  function CompleteFlags(rows: seq<Row>, subset: seq<string>): seq<bool>
  {
    seq(|rows|, k requires 0 <= k < |rows| => Complete(rows[k], subset))
  }

  /** The positions of the rows complete on subset, in increasing order: a
      position is listed exactly when its row is complete, and at most once. */
  function CompletePositions(rows: seq<Row>, subset: seq<string>): (p: seq<nat>)
    ensures |p| <= |rows|
    ensures forall k :: 0 <= k < |p| ==> p[k] < |rows| && Complete(rows[p[k]], subset)
    ensures forall k, l :: 0 <= k < l < |p| ==> p[k] < p[l]
    ensures forall j :: j in p <==> 0 <= j < |rows| && Complete(rows[j], subset)
  {
    Positions(CompleteFlags(rows, subset))
  }

  /** The rows that are complete on subset, in their original order. */
  function KeepComplete(rows: seq<Row>, subset: seq<string>): (kept: seq<Row>)
    ensures |kept| <= |rows|
    ensures forall r :: r in kept ==> r in rows && Complete(r, subset)
    ensures forall r :: r in rows && Complete(r, subset) ==> r in kept
  {
    if rows == [] then []
    else
      var init := KeepComplete(rows[..|rows| - 1], subset);
      var last := rows[|rows| - 1];
      assert rows == rows[..|rows| - 1] + [last];
      init + (if Complete(last, subset) then [last] else [])
  }

  /** The k-th kept row is the row at the k-th complete position: every
      complete row is kept exactly once, and the rows keep their order. */
  lemma {:induction false} KeepCompleteAt(rows: seq<Row>, subset: seq<string>)
    ensures |KeepComplete(rows, subset)| == |CompletePositions(rows, subset)|
    ensures forall k :: 0 <= k < |KeepComplete(rows, subset)| ==>
      KeepComplete(rows, subset)[k] == rows[CompletePositions(rows, subset)[k]]
  {
    if rows != [] {
      var n := |rows| - 1;
      KeepCompleteAt(rows[..n], subset);
      var init := KeepComplete(rows[..n], subset);
      var p0 := CompletePositions(rows[..n], subset);
      assert CompleteFlags(rows, subset)[..n] == CompleteFlags(rows[..n], subset);
      assert CompletePositions(rows, subset) == p0 + (if Complete(rows[n], subset) then [n] else []);
      var kept, p := KeepComplete(rows, subset), CompletePositions(rows, subset);
      assert kept == init + (if Complete(rows[n], subset) then [rows[n]] else []);
      forall k | 0 <= k < |kept| ensures kept[k] == rows[p[k]] {
        if k < |init| {
          assert kept[k] == init[k] && p[k] == p0[k];
          assert rows[..n][p0[k]] == rows[p0[k]];
        } else {
          assert Complete(rows[n], subset) && k == |init| == |p0|;
          assert kept[k] == rows[n] && p[k] == n;
        }
      }
    }
  }

  /** df.dropna(subset=subset): removes every row that is missing a value in
      one of the columns of subset; the columns are kept. */
  function DropNa(f: Frame, subset: seq<string>): (g: Frame)
    ensures g.columns == f.columns
    ensures |g.rows| == |CompletePositions(f.rows, subset)|
    ensures forall k :: 0 <= k < |g.rows| ==> g.rows[k] == f.rows[CompletePositions(f.rows, subset)[k]]
    ensures g.rows == KeepComplete(f.rows, subset)
  {
    KeepCompleteAt(f.rows, subset);
    Frame(f.columns, KeepComplete(f.rows, subset))
  }

  /** cols with every occurrence of c removed, the rest in order. */
  function Without(cols: seq<string>, c: string): (r: seq<string>)
    ensures forall d :: d in r <==> d in cols && d != c
    ensures Distinct(cols) ==> Distinct(r)
    ensures c !in cols ==> r == cols
  {
    if cols == [] then []
    else
      var rest := Without(cols[1..], c);
      assert Distinct(cols) ==> cols[0] !in cols[1..] by {
        if Distinct(cols) {
          forall j | 0 <= j < |cols[1..]| ensures cols[1..][j] != cols[0] {
            assert cols[1..][j] == cols[j + 1];
          }
        }
      }
      (if cols[0] == c then [] else [cols[0]]) + rest
  }

  /** The removal keeps the order of the other names: removing c from two
      runs of names one after the other is removing it from each and joining
      the results. */
  lemma {:induction false} WithoutConcat(a: seq<string>, b: seq<string>, c: string)
    ensures Without(a + b, c) == Without(a, c) + Without(b, c)
  {
    if a == [] {
      assert a + b == b && Without(a, c) == [];
    } else {
      var head := if a[0] == c then [] else [a[0]];
      assert (a + b)[0] == a[0] && (a + b)[1..] == a[1..] + b;
      assert Without(a + b, c) == head + Without(a[1..] + b, c);
      WithoutConcat(a[1..], b, c);
      assert Without(a, c) == head + Without(a[1..], c);
      ConcatAssoc(head, Without(a[1..], c), Without(b, c));
    }
  }

  lemma ConcatAssoc<T>(x: seq<T>, y: seq<T>, z: seq<T>)
    ensures x + (y + z) == (x + y) + z
  {
  }

  /** Removing c from cols with c appended is removing it from cols. */
  lemma {:induction false} WithoutAppended(cols: seq<string>, c: string)
    ensures Without(cols + [c], c) == Without(cols, c)
  {
    if cols == [] {
      assert Without([c], c) == [] + Without([], c);
    } else {
      assert (cols + [c])[0] == cols[0] && (cols + [c])[1..] == cols[1..] + [c];
      WithoutAppended(cols[1..], c);
    }
  }

  /** df.drop(columns=c): the column disappears from the header and from
      every row. */
  function DropColumn(f: Frame, c: string): (g: Frame)
    ensures g.columns == Without(f.columns, c)
    ensures |g.rows| == |f.rows|
    ensures forall k :: 0 <= k < |g.rows| ==> g.rows[k] == f.rows[k] - {c}
    ensures forall k :: 0 <= k < |g.rows| ==> c !in g.rows[k]
  {
    Frame(Without(f.columns, c), seq(|f.rows|, k requires 0 <= k < |f.rows| => f.rows[k] - {c}))
  }

  /** All rows of the frames, frame after frame, each frame's rows in their
      own order. */
  function AllRows(frames: seq<Frame>): (rows: seq<Row>)
  {
    if frames == [] then [] else AllRows(frames[..|frames| - 1]) + frames[|frames| - 1].rows
  }

  /** The rows of the first n frames are those of the first n - 1 followed
      by those of frame n - 1. */
  lemma AllRowsPrefix(frames: seq<Frame>, n: nat)
    requires 0 < n <= |frames|
    ensures AllRows(frames[..n]) == AllRows(frames[..n - 1]) + frames[n - 1].rows
  {
    assert frames[..n][..n - 1] == frames[..n - 1];
  }

  /** The rows of five frames are theirs, one frame after the other. */
  lemma AllRowsOfFive(frames: seq<Frame>)
    requires |frames| == 5
    ensures AllRows(frames) ==
      frames[0].rows + frames[1].rows + frames[2].rows + frames[3].rows + frames[4].rows
  {
    var r0, r1, r2, r3, r4 := frames[0].rows, frames[1].rows, frames[2].rows, frames[3].rows, frames[4].rows;
    assert AllRows(frames[..1]) == r0 by {
      assert frames[..1][..0] == [];
    }
    assert AllRows(frames[..2]) == r0 + r1 by {
      AllRowsPrefix(frames, 2);
    }
    assert AllRows(frames[..3]) == r0 + r1 + r2 by {
      AllRowsPrefix(frames, 3);
    }
    assert AllRows(frames[..4]) == r0 + r1 + r2 + r3 by {
      AllRowsPrefix(frames, 4);
    }
    AllRowsPrefix(frames, 5);
    assert frames[..5] == frames;
  }

  /** pd.concat(frames, ignore_index=True) for frames that share their
      columns: the header of the first frame and all rows in frame order.
      An empty list gives an empty table here, where pandas raises
      ValueError; the script always concatenates five frames. */
  function Concat(frames: seq<Frame>): (g: Frame)
    ensures g.rows == AllRows(frames)
    ensures frames != [] ==> g.columns == frames[0].columns
  {
    Frame(if frames == [] then [] else frames[0].columns, AllRows(frames))
  }

  /** The first name of order that is not a column of f, if any. */
  function FirstMissing(columns: seq<string>, order: seq<string>): (m: Option<string>)
    ensures m.None? <==> forall c :: c in order ==> c in columns
    ensures m.Some? ==> m.value in order && m.value !in columns
  {
    if order == [] then None
    else if order[0] !in columns then Some(order[0])
    else FirstMissing(columns, order[1..])
  }

  /** When order[m] is the first name of order that is not a column, it is
      the one reported. */
  lemma {:induction false} FirstMissingAt(columns: seq<string>, order: seq<string>, m: nat)
    requires m < |order| && order[m] !in columns
    requires forall k :: 0 <= k < m ==> order[k] in columns
    ensures FirstMissing(columns, order) == Some(order[m])
  {
    if m > 0 {
      assert order[0] in columns;
      FirstMissingAt(columns, order[1..], m - 1);
    }
  }

  /** The cells of row r under the names of header, one per name. */
  function Fields(r: Row, header: seq<string>): (cells: seq<Cell>)
    ensures |cells| == |header|
    ensures forall j :: 0 <= j < |header| ==> cells[j] == Get(r, header[j])
  {
    seq(|header|, j requires 0 <= j < |header| => Get(r, header[j]))
  }

  /** The cell under the first occurrence of column c in a positional row;
      missing when c is not in the header. */
  function Lookup(header: seq<string>, cells: seq<Cell>, c: string): Cell
  {
    if header == [] || cells == [] then None
    else if header[0] == c then cells[0]
    else Lookup(header[1..], cells[1..], c)
  }

  /** A positional row read back by column name. */
  function RowOf(header: seq<string>, cells: seq<Cell>): (r: Row)
    ensures r.Keys == set c | c in header
  {
    map c | c in header :: Lookup(header, cells, c)
  }

  /** Reading back the fields of a row gives the row's cells under the
      header's names, and nothing under any other name. */
  lemma {:induction false} FieldsRead(r: Row, header: seq<string>, c: string)
    ensures Get(RowOf(header, Fields(r, header)), c) == if c in header then Get(r, c) else None
  {
    if c in header {
      LookupFields(r, header, c);
    }
  }

  lemma {:induction false} LookupFields(r: Row, header: seq<string>, c: string)
    requires c in header
    ensures Lookup(header, Fields(r, header), c) == Get(r, c)
    decreases |header|
  {
    if header[0] != c {
      assert Fields(r, header)[1..] == Fields(r, header[1..]);
      LookupFields(r, header[1..], c);
    }
  }

  /** df[order]: the columns named by order, in that order (a name listed
      twice is selected twice); a name that is not a column raises
      KeyError. */
  function Select(f: Frame, order: seq<string>): (r: Result<Sheet, Error>)
    ensures r.Failure? <==> exists c :: c in order && c !in f.columns
    ensures r.Failure? ==> r.error.KeyError? && r.error.column in order && r.error.column !in f.columns
    ensures r.Success? ==> r.value.header == order && |r.value.rows| == |f.rows|
    ensures r.Success? ==> forall k, j :: 0 <= k < |f.rows| && 0 <= j < |order| ==>
      |r.value.rows[k]| == |order| && r.value.rows[k][j] == Get(f.rows[k], order[j])
  {
    match FirstMissing(f.columns, order)
    case Some(c) => Failure(KeyError(c))
    case None =>
      Success(Sheet(order, seq(|f.rows|, k requires 0 <= k < |f.rows| => Fields(f.rows[k], order))))
  }
}
