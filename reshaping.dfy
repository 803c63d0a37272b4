/** Step 2 of the transfer script, the reshape: for each year offset, a
    fresh copy of the cleaned table gets that year's ESG score and two SDG
    flags, loses the rows where one of them is missing, and is labelled with
    the year. */
module Reshaping {
  import opened Wrappers
  import opened Text
  import opened Frames
  import opened Cells
  import opened Layout

  /** pd.to_numeric(col, errors='coerce') on a whole column. */
  function ToNumericColumn(co: Coercion, col: seq<Cell>): (r: seq<Cell>)
    ensures |r| == |col|
    ensures forall k :: 0 <= k < |r| ==>
      (r[k].None? <==> col[k].None? || (col[k].value.Str? && co.parse(col[k].value.s).None?))
    ensures forall k :: 0 <= k < |r| && r[k].Some? ==> !r[k].value.Str?
  {
    seq(|col|, k requires 0 <= k < |col| => ToNumeric(co, col[k]))
  }

  /** col.astype(str).str.upper().replace({'FALSE': None, 'NAN': None}) on a
      whole column. */
  function FlagColumn(co: Coercion, col: seq<Cell>): (r: seq<Cell>)
    ensures |r| == |col|
    ensures forall k :: 0 <= k < |r| ==> (r[k].None? <==> IsMissingFlag(Upper(AsStr(co, col[k]))))
    ensures forall k :: 0 <= k < |r| && r[k].Some? ==> r[k].value.Str?
  {
    seq(|col|, k requires 0 <= k < |col| => Flag(co, col[k]))
  }

  /** One row after the three assignments of year i: its ESG, ESG3 and ESG9
      cells replaced by the year's converted values. */
  function Assigned(co: Coercion, r: Row, i: nat): Row
    requires i < YearCount
  {
    r["ESG" := ToNumeric(co, Get(r, EsgCols[i]))]
     ["ESG3" := Flag(co, Get(r, Esg3Cols[i]))]
     ["ESG9" := Flag(co, Get(r, Esg9Cols[i]))]
  }

  /** Row r yields a row for year i: its year-i ESG score reads as a number
      and neither of its year-i SDG flags normalises to missing. */
  predicate Survives(co: Coercion, r: Row, i: nat)
    requires i < YearCount
  {
    && ToNumeric(co, Get(r, EsgCols[i])).Some?
    && Flag(co, Get(r, Esg3Cols[i])).Some?
    && Flag(co, Get(r, Esg9Cols[i])).Some?
  }

  /** The row year i makes of r: the year's label, and ESG, ESG3 and ESG9
      read from the i-th column of each group and nowhere else; every other
      cell of r is carried over unchanged. */
  function Derive(co: Coercion, r: Row, i: nat): (d: Row)
    requires i < YearCount
    ensures Get(d, "YEAR") == Some(Str(Years[i]))
    ensures Get(d, "ESG") == ToNumeric(co, Get(r, EsgCols[i]))
    ensures Get(d, "ESG3") == Flag(co, Get(r, Esg3Cols[i]))
    ensures Get(d, "ESG9") == Flag(co, Get(r, Esg9Cols[i]))
    ensures forall c :: c !in Appended ==> Get(d, c) == Get(r, c)
    ensures d.Keys == r.Keys + set c | c in Appended
  {
    Assigned(co, r, i)["YEAR" := Some(Str(Years[i]))]
  }

  /** Which rows survive for year i, one flag per row. */
  function SurvivalFlags(co: Coercion, rows: seq<Row>, i: nat): seq<bool>
    requires i < YearCount
  {
    seq(|rows|, k requires 0 <= k < |rows| => Survives(co, rows[k], i))
  }

  /** The positions of the rows that yield a row for year i, in increasing
      order: a position is listed exactly when its row survives, and at most
      once. */
  function Survivors(co: Coercion, rows: seq<Row>, i: nat): (s: seq<nat>)
    requires i < YearCount
    ensures |s| <= |rows|
    ensures forall k :: 0 <= k < |s| ==> s[k] < |rows| && Survives(co, rows[s[k]], i)
    ensures forall k, l :: 0 <= k < l < |s| ==> s[k] < s[l]
    ensures forall j :: j in s <==> 0 <= j < |rows| && Survives(co, rows[j], i)
  {
    Positions(SurvivalFlags(co, rows, i))
  }

  /** One more row at the end adds its position at the end when it
      survives, and nothing otherwise. */
  lemma SurvivorsSnoc(co: Coercion, rows: seq<Row>, i: nat)
    requires i < YearCount && rows != []
    ensures Survivors(co, rows, i) == Survivors(co, rows[..|rows| - 1], i) +
      (if Survives(co, rows[|rows| - 1], i) then [|rows| - 1] else [])
  {
    var n := |rows| - 1;
    assert SurvivalFlags(co, rows, i)[..n] == SurvivalFlags(co, rows[..n], i);
  }

  /** The rows year i keeps, in the order of the cleaned table, each derived
      from the row it comes from. */
  function Block(co: Coercion, rows: seq<Row>, i: nat): seq<Row>
    requires i < YearCount
  {
    var s := Survivors(co, rows, i);
    seq(|s|, k requires 0 <= k < |s| => Derive(co, rows[s[k]], i))
  }

  /** cols once df[c] = ... has run: c added at the end unless present. */
  function AddColumn(cols: seq<string>, c: string): seq<string>
  {
    if c in cols then cols else cols + [c]
  }

  /** Adding a column keeps the columns before it, first and in order. */
  lemma AddColumnPrefix(cols: seq<string>, c: string)
    ensures |cols| <= |AddColumn(cols, c)| <= |cols| + 1 && AddColumn(cols, c)[..|cols|] == cols
  {
  }

  /** The columns of every year's frame: the cleaned columns, then those of
      ESG, ESG3, ESG9 and YEAR that were not already there. */
  function BlockColumns(cols: seq<string>): (r: seq<string>)
    ensures forall c :: c in r <==> c in cols || c in Appended
  {
    AddColumn(AddColumn(AddColumn(AddColumn(cols, "ESG"), "ESG3"), "ESG9"), "YEAR")
  }

  /** A year frame's header starts with the cleaned header, unchanged, and
      appends the new names in the order the loop assigns them. */
  lemma BlockColumnsOrder(cols: seq<string>)
    ensures |cols| <= |BlockColumns(cols)| <= |cols| + 4 && BlockColumns(cols)[..|cols|] == cols
    ensures (forall c :: c in Appended ==> c !in cols) ==>
      BlockColumns(cols) == cols + ["ESG", "ESG3", "ESG9", "YEAR"]
  {
    var r1 := AddColumn(cols, "ESG");
    var r2 := AddColumn(r1, "ESG3");
    var r3 := AddColumn(r2, "ESG9");
    var r := AddColumn(r3, "YEAR");
    AddColumnPrefix(cols, "ESG");
    AddColumnPrefix(r1, "ESG3");
    AddColumnPrefix(r2, "ESG9");
    AddColumnPrefix(r3, "YEAR");
    PrefixOfPrefix(cols, r1, r2);
    PrefixOfPrefix(cols, r2, r3);
    PrefixOfPrefix(cols, r3, r);
    AddFresh(cols);
  }

  /** Adding four new columns appends them in the order they are added. */
  lemma AddFresh(cols: seq<string>)
    ensures "ESG" !in cols && "ESG3" !in cols && "ESG9" !in cols && "YEAR" !in cols ==>
      AddColumn(AddColumn(AddColumn(AddColumn(cols, "ESG"), "ESG3"), "ESG9"), "YEAR") ==
      cols + ["ESG", "ESG3", "ESG9", "YEAR"]
  {
    if "ESG" !in cols && "ESG3" !in cols && "ESG9" !in cols && "YEAR" !in cols {
      var r1 := AddColumn(cols, "ESG");
      var r2 := AddColumn(r1, "ESG3");
      var r3 := AddColumn(r2, "ESG9");
      assert r1 == cols + ["ESG"];
      assert r2 == r1 + ["ESG3"];
      assert r3 == r2 + ["ESG9"];
      SnocFour(cols, "ESG", "ESG3", "ESG9", "YEAR");
    }
  }

  lemma PrefixOfPrefix<T>(a: seq<T>, b: seq<T>, c: seq<T>)
    requires |a| <= |b| <= |c| && b[..|a|] == a && c[..|b|] == b
    ensures c[..|a|] == a
  {
    assert c[..|a|] == c[..|b|][..|a|];
  }

  lemma SnocFour<T>(s: seq<T>, a: T, b: T, c: T, d: T)
    ensures s + [a] + [b] + [c] + [d] == s + [a, b, c, d]
  {
  }

  /** The frame year i contributes. */
  function YearFrame(co: Coercion, clean: Frame, i: nat): Frame
    requires i < YearCount
  {
    Frame(BlockColumns(clean.columns), Block(co, clean.rows, i))
  }

  /** The five year frames, FY0 first. */
  function YearFrames(co: Coercion, clean: Frame): (fs: seq<Frame>)
    ensures |fs| == YearCount
    ensures forall i :: 0 <= i < YearCount ==> fs[i] == YearFrame(co, clean, i)
  {
    seq(YearCount, i requires 0 <= i < YearCount => YearFrame(co, clean, i))
  }

  /** The whole reshape: the five year frames, FY0 first, or the KeyError of
      the first score column the script reads and does not find. */
  function ReshapeSpec(co: Coercion, clean: Frame): (r: Result<seq<Frame>, Error>)
    ensures r.Failure? ==> r.error.KeyError? && r.error.column in AccessOrder && r.error.column !in clean.columns
    ensures r.Success? ==> |r.value| == YearCount
  {
    match FirstMissing(clean.columns, AccessOrder)
    case Some(c) => Failure(KeyError(c))
    case None => Success(YearFrames(co, clean))
  }

  /** The year's frame holds exactly one row per surviving row of the cleaned
      table, in the order of the table: a pair of a row and a year yields a
      row if and only if the row survives for that year, and the row it
      yields is the row derived from it. */
  lemma BlockRows(co: Coercion, rows: seq<Row>, i: nat)
    requires i < YearCount
    ensures |Block(co, rows, i)| == |Survivors(co, rows, i)| <= |rows|
    ensures forall j :: 0 <= j < |rows| ==>
      (Survives(co, rows[j], i) <==> exists k :: 0 <= k < |Survivors(co, rows, i)| && Survivors(co, rows, i)[k] == j)
    ensures forall k :: 0 <= k < |Block(co, rows, i)| ==>
      Block(co, rows, i)[k] == Derive(co, rows[Survivors(co, rows, i)[k]], i)
  {
    var s := Survivors(co, rows, i);
    forall j | 0 <= j < |rows|
      ensures Survives(co, rows[j], i) <==> exists k :: 0 <= k < |s| && s[k] == j
    {
      if Survives(co, rows[j], i) {
        assert j in s;
      }
    }
  }

  /** Every row of year i's frame carries that year's label and a present
      ESG, ESG3 and ESG9. */
  lemma BlockValues(co: Coercion, rows: seq<Row>, i: nat)
    requires i < YearCount
    ensures forall d :: d in Block(co, rows, i) ==>
      && Get(d, "YEAR") == Some(Str(Years[i]))
      && Get(d, "ESG").Some? && Get(d, "ESG3").Some? && Get(d, "ESG9").Some?
  {
    var s := Survivors(co, rows, i);
    var b := Block(co, rows, i);
    forall d | d in b
      ensures Get(d, "YEAR") == Some(Str(Years[i]))
      ensures Get(d, "ESG").Some? && Get(d, "ESG3").Some? && Get(d, "ESG9").Some?
    {
      var k :| 0 <= k < |b| && b[k] == d;
      assert d == Derive(co, rows[s[k]], i);
      assert Survives(co, rows[s[k]], i);
    }
  }

  /** A row has all three derived cells after the assignments exactly when it
      survives. */
  lemma AssignedComplete(co: Coercion, r: Row, i: nat)
    requires i < YearCount
    ensures Complete(Assigned(co, r, i), Derived) <==> Survives(co, r, i)
  {
    var a := Assigned(co, r, i);
    assert Get(a, "ESG") == ToNumeric(co, Get(r, EsgCols[i]));
    assert Get(a, "ESG3") == Flag(co, Get(r, Esg3Cols[i]));
    assert Get(a, "ESG9") == Flag(co, Get(r, Esg9Cols[i]));
    if Survives(co, r, i) {
      forall c | c in Derived ensures Get(a, c).Some? {
      }
    }
  }

  /** The rows after the three assignments of year i. */
  function AssignedRows(co: Coercion, rows: seq<Row>, i: nat): seq<Row>
    requires i < YearCount
  {
    seq(|rows|, k requires 0 <= k < |rows| => Assigned(co, rows[k], i))
  }

  /** The rows at positions s, in the order of s, each passed through g. */
  function Pick(rows: seq<Row>, s: seq<nat>, g: Row -> Row): (p: seq<Row>)
    requires forall k :: 0 <= k < |s| ==> s[k] < |rows|
    ensures |p| == |s|
    ensures forall k :: 0 <= k < |s| ==> p[k] == g(rows[s[k]])
  {
    seq(|s|, k requires 0 <= k < |s| => g(rows[s[k]]))
  }

  /** Picking positions before the last row does not see the last row;
      picking the last row as well adds it at the end. */
  lemma PickSnoc(rows: seq<Row>, s: seq<nat>, g: Row -> Row)
    requires rows != [] && forall k :: 0 <= k < |s| ==> s[k] < |rows| - 1
    ensures Pick(rows, s, g) == Pick(rows[..|rows| - 1], s, g)
    ensures Pick(rows, s + [|rows| - 1], g) == Pick(rows[..|rows| - 1], s, g) + [g(rows[|rows| - 1])]
  {
    var n := |rows| - 1;
    var t := s + [n];
    assert forall k :: 0 <= k < |t| ==> t[k] < |rows|;
    forall k | 0 <= k < |s| ensures rows[..n][s[k]] == rows[s[k]] {
    }
  }

  /** The three assignments of year i, as a function on rows. */
  function AssignFn(co: Coercion, i: nat): Row -> Row
    requires i < YearCount
  {
    (r: Row) => Assigned(co, r, i)
  }

  /** The assigned rows of the survivors, in order. */
  function AssignedSurvivors(co: Coercion, rows: seq<Row>, i: nat): seq<Row>
    requires i < YearCount
  {
    Pick(rows, Survivors(co, rows, i), AssignFn(co, i))
  }

  /** Adding one row at the end adds its assigned row at the end when it
      survives, and nothing otherwise. */
  lemma AssignedSurvivorsSnoc(co: Coercion, rows: seq<Row>, i: nat)
    requires i < YearCount && rows != []
    ensures AssignedSurvivors(co, rows, i) ==
      AssignedSurvivors(co, rows[..|rows| - 1], i) +
      (if Survives(co, rows[|rows| - 1], i) then [Assigned(co, rows[|rows| - 1], i)] else [])
  {
    var n := |rows| - 1;
    var init := Survivors(co, rows[..n], i);
    SurvivorsSnoc(co, rows, i);
    PickSnoc(rows, init, AssignFn(co, i));
  }

  /** dropna on the assigned rows keeps exactly the assigned rows of the
      survivors, in order. */
  lemma {:induction false} KeepAssigned(co: Coercion, rows: seq<Row>, i: nat)
    requires i < YearCount
    ensures KeepComplete(AssignedRows(co, rows, i), Derived) == AssignedSurvivors(co, rows, i)
  {
    if rows != [] {
      var n := |rows| - 1;
      var a := AssignedRows(co, rows, i);
      assert a[..n] == AssignedRows(co, rows[..n], i);
      assert a[n] == Assigned(co, rows[n], i);
      KeepAssigned(co, rows[..n], i);
      AssignedComplete(co, rows[n], i);
      AssignedSurvivorsSnoc(co, rows, i);
    }
  }

  /** The three column assignments of year i, on one row of the frame. */
  lemma AssignRow(co: Coercion, clean: Frame, i: nat, k: nat)
    requires i < YearCount && k < |clean.rows|
    ensures
      var t1 := WithColumn(clean, "ESG", ToNumericColumn(co, Column(clean, EsgCols[i])));
      var t2 := WithColumn(t1, "ESG3", FlagColumn(co, Column(t1, Esg3Cols[i])));
      var t3 := WithColumn(t2, "ESG9", FlagColumn(co, Column(t2, Esg9Cols[i])));
      t3.rows[k] == Assigned(co, clean.rows[k], i)
  {
    TriadFresh(i);
    var r := clean.rows[k];
    var t1 := WithColumn(clean, "ESG", ToNumericColumn(co, Column(clean, EsgCols[i])));
    assert t1.rows[k] == r["ESG" := ToNumeric(co, Get(r, EsgCols[i]))];
    var t2 := WithColumn(t1, "ESG3", FlagColumn(co, Column(t1, Esg3Cols[i])));
    assert t2.rows[k] == t1.rows[k]["ESG3" := Flag(co, Get(t1.rows[k], Esg3Cols[i]))];
    assert Get(t1.rows[k], Esg3Cols[i]) == Get(r, Esg3Cols[i]);
    var t3 := WithColumn(t2, "ESG9", FlagColumn(co, Column(t2, Esg9Cols[i])));
    assert t3.rows[k] == t2.rows[k]["ESG9" := Flag(co, Get(t2.rows[k], Esg9Cols[i]))];
    assert Get(t2.rows[k], Esg9Cols[i]) == Get(r, Esg9Cols[i]);
  }

  /** The three column assignments of year i, on the frame, assign every row
      as Assigned does. */
  lemma AssignSteps(co: Coercion, clean: Frame, i: nat)
    requires i < YearCount
    ensures
      var t1 := WithColumn(clean, "ESG", ToNumericColumn(co, Column(clean, EsgCols[i])));
      var t2 := WithColumn(t1, "ESG3", FlagColumn(co, Column(t1, Esg3Cols[i])));
      var t3 := WithColumn(t2, "ESG9", FlagColumn(co, Column(t2, Esg9Cols[i])));
      t3 == Frame(AddColumn(AddColumn(AddColumn(clean.columns, "ESG"), "ESG3"), "ESG9"),
                  AssignedRows(co, clean.rows, i))
  {
    var t1 := WithColumn(clean, "ESG", ToNumericColumn(co, Column(clean, EsgCols[i])));
    var t2 := WithColumn(t1, "ESG3", FlagColumn(co, Column(t1, Esg3Cols[i])));
    var t3 := WithColumn(t2, "ESG9", FlagColumn(co, Column(t2, Esg9Cols[i])));
    forall k | 0 <= k < |clean.rows| ensures t3.rows[k] == AssignedRows(co, clean.rows, i)[k] {
      AssignRow(co, clean, i, k);
    }
  }

  /** The steps the loop body runs, on the frame: three column assignments,
      the dropna, and the YEAR label, give the year's frame. */
  lemma YearSteps(co: Coercion, clean: Frame, i: nat)
    requires i < YearCount
    ensures
      var t1 := WithColumn(clean, "ESG", ToNumericColumn(co, Column(clean, EsgCols[i])));
      var t2 := WithColumn(t1, "ESG3", FlagColumn(co, Column(t1, Esg3Cols[i])));
      var t3 := WithColumn(t2, "ESG9", FlagColumn(co, Column(t2, Esg9Cols[i])));
      WithConstant(DropNa(t3, Derived), "YEAR", Some(Str(Years[i]))) == YearFrame(co, clean, i)
  {
    AssignSteps(co, clean, i);
    var t3 := Frame(AddColumn(AddColumn(AddColumn(clean.columns, "ESG"), "ESG3"), "ESG9"),
                    AssignedRows(co, clean.rows, i));
    KeepAssigned(co, clean.rows, i);
    var kept := AssignedSurvivors(co, clean.rows, i);
    var t4 := DropNa(t3, Derived);
    assert t4 == Frame(t3.columns, kept);
    LabelSurvivors(co, t3.columns, clean.rows, i);
  }

  /** Labelling the assigned survivors with the year gives the year's
      rows. */
  lemma LabelSurvivors(co: Coercion, cols: seq<string>, rows: seq<Row>, i: nat)
    requires i < YearCount
    ensures WithConstant(Frame(cols, AssignedSurvivors(co, rows, i)), "YEAR", Some(Str(Years[i]))).rows ==
      Block(co, rows, i)
  {
    var kept := AssignedSurvivors(co, rows, i);
    var t5 := WithConstant(Frame(cols, kept), "YEAR", Some(Str(Years[i])));
    var b := Block(co, rows, i);
    var s := Survivors(co, rows, i);
    assert |t5.rows| == |kept| == |b|;
    forall k | 0 <= k < |b| ensures t5.rows[k] == b[k] {
      assert kept[k] == Assigned(co, rows[s[k]], i);
      assert b[k] == Derive(co, rows[s[k]], i);
    }
  }

  /** What one pass of the loop makes for year i: the year's frame, or the
      KeyError of the first of its three score columns that is absent. */
  function YearSpec(co: Coercion, clean: Frame, i: nat): (r: Result<Frame, Error>)
    requires i < YearCount
    ensures r.Failure? ==> r.error.KeyError? && r.error.column in Triad(i) && r.error.column !in clean.columns
    ensures r.Success? ==> r.value.columns == BlockColumns(clean.columns) && |r.value.rows| <= |clean.rows|
  {
    if EsgCols[i] !in clean.columns then Failure(KeyError(EsgCols[i]))
    else if Esg3Cols[i] !in clean.columns then Failure(KeyError(Esg3Cols[i]))
    else if Esg9Cols[i] !in clean.columns then Failure(KeyError(Esg9Cols[i]))
    else Success(YearFrame(co, clean, i))
  }

  /** One pass of the loop: a fresh copy of the cleaned table, the year's
      ESG, ESG3 and ESG9 columns assigned one after the other, the rows
      missing one of them dropped, and the survivors labelled with the year.
      Reading a score column that is absent raises KeyError. */
  method YearBody(co: Coercion, clean: Frame, i: nat) returns (r: Result<Frame, Error>)
    requires i < YearCount
    ensures r == YearSpec(co, clean, i)
  {
    TriadFresh(i);
    var temp := clean;
    if EsgCols[i] !in temp.columns {
      return Failure(KeyError(EsgCols[i]));
    }
    temp := WithColumn(temp, "ESG", ToNumericColumn(co, Column(temp, EsgCols[i])));
    Widened(clean.columns, temp.columns, "ESG", Esg3Cols[i]);
    if Esg3Cols[i] !in temp.columns {
      return Failure(KeyError(Esg3Cols[i]));
    }
    ghost var before := temp.columns;
    temp := WithColumn(temp, "ESG3", FlagColumn(co, Column(temp, Esg3Cols[i])));
    Widened(clean.columns, before, "ESG", Esg9Cols[i]);
    Widened(before, temp.columns, "ESG3", Esg9Cols[i]);
    if Esg9Cols[i] !in temp.columns {
      return Failure(KeyError(Esg9Cols[i]));
    }
    temp := WithColumn(temp, "ESG9", FlagColumn(co, Column(temp, Esg9Cols[i])));
    temp := DropNa(temp, Derived);
    temp := WithConstant(temp, "YEAR", Some(Str(Years[i])));
    YearSteps(co, clean, i);
    r := Success(temp);
  }

  /** Adding column c leaves every other name as present or absent as it
      was. */
  lemma Widened(cols: seq<string>, wider: seq<string>, c: string, x: string)
    requires wider == if c in cols then cols else cols + [c]
    requires x != c
    ensures x in wider <==> x in cols
  {
  }

  /** The three score columns of year j are all columns of the table. */
  predicate YearPresent(cols: seq<string>, j: nat)
    requires j < YearCount
  {
    EsgCols[j] in cols && Esg3Cols[j] in cols && Esg9Cols[j] in cols
  }

  /** The score columns of the years before i, by position in the reading
      order. */
  lemma PresentPrefix(cols: seq<string>, i: nat)
    requires i <= YearCount
    requires forall j :: 0 <= j < i ==> YearPresent(cols, j)
    ensures forall k :: 0 <= k < 3 * i ==> AccessOrder[k] in cols
  {
    forall k | 0 <= k < 3 * i ensures AccessOrder[k] in cols {
      var j := k / 3;
      AccessAt(j);
      assert YearPresent(cols, j);
      assert k == 3 * j || k == 3 * j + 1 || k == 3 * j + 2;
    }
  }

  /** When the score columns of the years before i are all present, the
      KeyError of year i's pass is the KeyError of the whole reshape; and a
      pass that succeeds finds all three of year i's columns. */
  lemma FirstMissingYear(co: Coercion, clean: Frame, i: nat)
    requires i < YearCount
    requires forall j :: 0 <= j < i ==> YearPresent(clean.columns, j)
    ensures YearSpec(co, clean, i).Failure? ==> ReshapeSpec(co, clean) == Failure(YearSpec(co, clean, i).error)
    ensures YearSpec(co, clean, i).Success? ==> YearPresent(clean.columns, i)
  {
    FirstMissingTriad(clean.columns, i);
  }

  /** With the columns of the years before i all present, the first absent
      score column in reading order, if any among year i's, is the first of
      year i's three that is absent. */
  lemma FirstMissingTriad(cols: seq<string>, i: nat)
    requires i < YearCount
    requires forall j :: 0 <= j < i ==> YearPresent(cols, j)
    ensures EsgCols[i] !in cols ==> FirstMissing(cols, AccessOrder) == Some(EsgCols[i])
    ensures EsgCols[i] in cols && Esg3Cols[i] !in cols ==>
      FirstMissing(cols, AccessOrder) == Some(Esg3Cols[i])
    ensures EsgCols[i] in cols && Esg3Cols[i] in cols && Esg9Cols[i] !in cols ==>
      FirstMissing(cols, AccessOrder) == Some(Esg9Cols[i])
  {
    AccessAt(i);
    PresentPrefix(cols, i);
    if EsgCols[i] !in cols {
      FirstMissingAt(cols, AccessOrder, 3 * i);
    } else if Esg3Cols[i] !in cols {
      FirstMissingAt(cols, AccessOrder, 3 * i + 1);
    } else if Esg9Cols[i] !in cols {
      FirstMissingAt(cols, AccessOrder, 3 * i + 2);
    }
  }

  /** The first n passes of the loop, as the loop runs them: each pass
      appends its year's frame, and the first pass that fails ends the
      loop with its KeyError. */
  function Passes(co: Coercion, clean: Frame, n: nat): (r: Result<seq<Frame>, Error>)
    requires n <= YearCount
    ensures r.Success? ==> |r.value| == n
    ensures r.Failure? ==> r.error.KeyError?
  {
    if n == 0 then Success([])
    else
      match Passes(co, clean, n - 1)
      case Failure(e) => Failure(e)
      case Success(frames) =>
        match YearSpec(co, clean, n - 1)
        case Failure(e) => Failure(e)
        case Success(f) => Success(frames + [f])
  }

  /** The first n passes either make the first n year frames, having found
      every score column of those years, or fail with the KeyError of the
      whole reshape. */
  predicate PassesOk(co: Coercion, clean: Frame, n: nat)
    requires n <= YearCount
  {
    && (Passes(co, clean, n).Success? ==>
          && (forall j :: 0 <= j < n ==> YearPresent(clean.columns, j))
          && Passes(co, clean, n).value == YearFrames(co, clean)[..n])
    && (Passes(co, clean, n).Failure? ==> ReshapeSpec(co, clean) == Passes(co, clean, n))
  }

  lemma {:induction false} PassesFacts(co: Coercion, clean: Frame, n: nat)
    requires n <= YearCount
    ensures PassesOk(co, clean, n)
  {
    if n > 0 {
      PassesFacts(co, clean, n - 1);
      PassStep(co, clean, n);
    }
  }

  /** One more pass keeps the passes' facts. */
  lemma PassStep(co: Coercion, clean: Frame, n: nat)
    requires 0 < n <= YearCount && PassesOk(co, clean, n - 1)
    ensures PassesOk(co, clean, n)
  {
    var prev := Passes(co, clean, n - 1);
    if prev.Failure? {
      assert Passes(co, clean, n) == prev;
    } else {
      var y := YearSpec(co, clean, n - 1);
      FirstMissingYear(co, clean, n - 1);
      if y.Failure? {
        assert Passes(co, clean, n) == Failure(y.error);
      } else {
        var fs := YearFrames(co, clean);
        assert Passes(co, clean, n) == Success(prev.value + [y.value]);
        assert y.value == fs[n - 1];
        SliceSnoc(fs, n);
        forall j | 0 <= j < n ensures YearPresent(clean.columns, j) {
          if j == n - 1 {
            assert YearPresent(clean.columns, n - 1);
          }
        }
      }
    }
  }

  /** A prefix one longer is the shorter prefix and one more element. */
  lemma SliceSnoc<T>(s: seq<T>, n: nat)
    requires 0 < n <= |s|
    ensures s[..n] == s[..n - 1] + [s[n - 1]]
  {
  }

  /** Running all five passes is the reshape: the five year frames, FY0
      first, or the KeyError of the first score column, in reading order,
      that the cleaned table lacks. */
  lemma PassesSpec(co: Coercion, clean: Frame)
    ensures Passes(co, clean, YearCount) == ReshapeSpec(co, clean)
  {
    PassesFacts(co, clean, YearCount);
    var p := Passes(co, clean, YearCount);
    if p.Success? {
      AllYears(co, clean, p.value);
    }
  }

  /** The loop of the script: for each year in order, one pass of the body,
      its frame appended to the list of year frames; a pass that raises
      ends the loop with its KeyError. What the passes make is PassesSpec. */
  method ReshapeLoop(co: Coercion, clean: Frame) returns (r: Result<seq<Frame>, Error>)
    ensures r == Passes(co, clean, YearCount)
  {
    var longDf: seq<Frame> := [];
    var i: nat := 0;
    while i < YearCount
      invariant i <= YearCount
      invariant Passes(co, clean, i) == Success(longDf)
    {
      var temp := YearBody(co, clean, i);
      if temp.Failure? {
        PassNext(co, clean, i, longDf, temp);
        PassesFail(co, clean, i + 1);
        return Failure(temp.error);
      }
      PassNext(co, clean, i, longDf, temp);
      longDf := longDf + [temp.value];
      i := i + 1;
    }
    r := Success(longDf);
  }

  /** The pass after i successful ones appends its frame or fails with its
      KeyError. */
  lemma PassNext(co: Coercion, clean: Frame, i: nat, done: seq<Frame>, y: Result<Frame, Error>)
    requires i < YearCount && Passes(co, clean, i) == Success(done) && y == YearSpec(co, clean, i)
    ensures y.Failure? ==> Passes(co, clean, i + 1) == Failure(y.error)
    ensures y.Success? ==> Passes(co, clean, i + 1) == Success(done + [y.value])
  {
  }

  /** Once a pass has failed, the later passes keep its KeyError. */
  lemma {:induction false} PassesFail(co: Coercion, clean: Frame, n: nat)
    requires n <= YearCount && Passes(co, clean, n).Failure?
    ensures Passes(co, clean, YearCount) == Passes(co, clean, n)
    decreases YearCount - n
  {
    if n < YearCount {
      assert Passes(co, clean, n + 1) == Passes(co, clean, n);
      PassesFail(co, clean, n + 1);
    }
  }

  /** Once every score column has been read and every year's frame made,
      the reshape succeeds with those frames. */
  lemma AllYears(co: Coercion, clean: Frame, frames: seq<Frame>)
    requires forall j :: 0 <= j < YearCount ==> YearPresent(clean.columns, j)
    requires frames == YearFrames(co, clean)[..YearCount]
    ensures ReshapeSpec(co, clean) == Success(frames)
  {
    AccessAt(0);
    PresentPrefix(clean.columns, YearCount);
    assert FirstMissing(clean.columns, AccessOrder) == None;
    assert frames == YearFrames(co, clean);
  }
}
