/** The transfer script from the table read from the export to the table
    handed to the CSV writer: clean, reshape year by year, merge, sort,
    project. */
module Pipeline {
  import opened Wrappers
  import opened Text
  import opened Frames
  import opened Cells
  import opened Layout
  import opened Cleaning
  import opened Reshaping
  import opened Sorting
  import opened Ordering

  /** The whole script as one value: the output table, or the first
      exception a step raises. */
  function Transfer(co: Coercion, raw: Frame): (r: Result<Sheet, Error>)
    ensures "Identifier" !in raw.columns ==> r == Failure(KeyError("Identifier"))
    ensures r.Success? ==> r.value.header == ColumnOrder(StripAll(raw.columns))
  {
    match Clean(raw)
    case Failure(e) => Failure(e)
    case Success(clean) =>
      match ReshapeSpec(co, clean)
      case Failure(e) => Failure(e)
      case Success(longDf) =>
        match SortStage(Concat(longDf))
        case Failure(e) => Failure(e)
        case Success(final) => Project(final, clean.columns)
  }

  /** The script as it runs, step after step, each step reassigning the
      table the next one reads; the loop over the years is ReshapeLoop. */
  method Run(co: Coercion, raw: Frame) returns (r: Result<Sheet, Error>)
    ensures r == Transfer(co, raw)
  {
    var cleaned := Clean(raw);
    if cleaned.Failure? {
      return Failure(cleaned.error);
    }
    var dfClean := cleaned.value;
    var longDf := ReshapeLoop(co, dfClean);
    PassesSpec(co, dfClean);
    if longDf.Failure? {
      return Failure(longDf.error);
    }
    var finalDf := Concat(longDf.value);
    var sorted := SortStage(finalDf);
    if sorted.Failure? {
      return Failure(sorted.error);
    }
    finalDf := sorted.value;
    r := Project(finalDf, dfClean.columns);
  }

  /** pd.concat(long_df, ignore_index=True) once every year's columns are
      present: the five year frames share their header, which the merged
      table keeps. */
  function Merged(co: Coercion, clean: Frame): (g: Frame)
    ensures g.columns == BlockColumns(clean.columns)
  {
    Concat(YearFrames(co, clean))
  }

  /** The merged table is the FY0 frame's rows, then FY-1's, and so on, each
      in the order of the cleaned table; its length is the sum of the five
      frames' lengths, at most five rows per cleaned row. */
  lemma MergeRows(co: Coercion, clean: Frame)
    ensures Merged(co, clean).columns == BlockColumns(clean.columns)
    ensures Merged(co, clean).rows ==
      Block(co, clean.rows, 0) + Block(co, clean.rows, 1) + Block(co, clean.rows, 2) +
      Block(co, clean.rows, 3) + Block(co, clean.rows, 4)
    ensures |Merged(co, clean).rows| ==
      |Block(co, clean.rows, 0)| + |Block(co, clean.rows, 1)| + |Block(co, clean.rows, 2)| +
      |Block(co, clean.rows, 3)| + |Block(co, clean.rows, 4)|
    ensures |Merged(co, clean).rows| <= YearCount * |clean.rows|
  {
    var fs := YearFrames(co, clean);
    AllRowsOfFive(fs);
    assert fs[0].rows == Block(co, clean.rows, 0);
    assert fs[1].rows == Block(co, clean.rows, 1);
    assert fs[2].rows == Block(co, clean.rows, 2);
    assert fs[3].rows == Block(co, clean.rows, 3);
    assert fs[4].rows == Block(co, clean.rows, 4);
    BlockRows(co, clean.rows, 0);
    BlockRows(co, clean.rows, 1);
    BlockRows(co, clean.rows, 2);
    BlockRows(co, clean.rows, 3);
    BlockRows(co, clean.rows, 4);
  }

  /** A normalised SDG flag: present text that is neither "FALSE" nor
      "NAN". */
  predicate FlagPresent(c: Cell)
  {
    c.Some? && c.value.Str? && !IsMissingFlag(c.value.s)
  }

  /** What every row of the long table holds: an Identifier, one of the five
      year labels, a numeric ESG score, and two present flags. */
  predicate Tidy(d: Row)
  {
    && Get(d, "Identifier").Some?
    && (exists i :: 0 <= i < YearCount && Get(d, "YEAR") == Some(Str(Years[i])))
    && Get(d, "ESG").Some? && !Get(d, "ESG").value.Str?
    && FlagPresent(Get(d, "ESG3")) && FlagPresent(Get(d, "ESG9"))
  }

  /** A flag that survives the normalisation is present text other than
      "FALSE" and "NAN". */
  lemma FlagSurvivor(co: Coercion, c: Cell)
    requires Flag(co, c).Some?
    ensures FlagPresent(Flag(co, c))
  {
    var u := Upper(AsStr(co, c));
    assert Flag(co, c) == Some(Str(u));
  }

  /** The row derived from a cleaned row that survives for year i is tidy,
      and has no column the cleaned table did not have besides YEAR, ESG,
      ESG3 and ESG9. */
  lemma DeriveTidy(co: Coercion, r: Row, i: nat)
    requires i < YearCount && Survives(co, r, i) && Get(r, "Identifier").Some?
    ensures Tidy(Derive(co, r, i))
  {
    var d := Derive(co, r, i);
    FlagSurvivor(co, Get(r, Esg3Cols[i]));
    FlagSurvivor(co, Get(r, Esg9Cols[i]));
    assert Get(d, "Identifier") == Get(r, "Identifier");
  }

  /** Deriving a year's row adds no rank column. */
  lemma DeriveUnranked(co: Coercion, r: Row, i: nat)
    requires i < YearCount && RankColumnName !in r
    ensures RankColumnName !in Derive(co, r, i)
  {
    assert RankColumnName !in Appended;
    assert RankColumnName !in set c | c in Appended;
  }

  /** Every row of year i's block is tidy when every row it is made from has
      an Identifier. */
  lemma BlockTidy(co: Coercion, rows: seq<Row>, i: nat)
    requires i < YearCount
    requires forall k :: 0 <= k < |rows| ==> Get(rows[k], "Identifier").Some?
    ensures forall d :: d in Block(co, rows, i) ==> Tidy(d)
  {
    BlockRows(co, rows, i);
    var b := Block(co, rows, i);
    forall d | d in b ensures Tidy(d) {
      var k :| 0 <= k < |b| && b[k] == d;
      DeriveTidy(co, rows[Survivors(co, rows, i)[k]], i);
    }
  }

  /** No row of year i's block has the rank column when no row it is made
      from has it. */
  lemma BlockUnranked(co: Coercion, rows: seq<Row>, i: nat)
    requires i < YearCount
    requires forall k :: 0 <= k < |rows| ==> RankColumnName !in rows[k]
    ensures forall d :: d in Block(co, rows, i) ==> RankColumnName !in d
  {
    BlockRows(co, rows, i);
    var b := Block(co, rows, i);
    forall d | d in b ensures RankColumnName !in d {
      var k :| 0 <= k < |b| && b[k] == d;
      DeriveUnranked(co, rows[Survivors(co, rows, i)[k]], i);
    }
  }

  /** Every row of the merged table is tidy; and when the cleaned table has
      no rank column, no merged row has one. */
  lemma MergedTidy(co: Coercion, raw: Frame, clean: Frame)
    requires Clean(raw) == Success(clean)
    ensures forall d :: d in Merged(co, clean).rows ==>
      Tidy(d) && (RankColumnName !in clean.columns ==> RankColumnName !in d)
  {
    CleanRows(raw, clean);
    MergeRows(co, clean);
    var b0, b1, b2, b3, b4 := Block(co, clean.rows, 0), Block(co, clean.rows, 1),
      Block(co, clean.rows, 2), Block(co, clean.rows, 3), Block(co, clean.rows, 4);
    BlockTidy(co, clean.rows, 0);
    BlockTidy(co, clean.rows, 1);
    BlockTidy(co, clean.rows, 2);
    BlockTidy(co, clean.rows, 3);
    BlockTidy(co, clean.rows, 4);
    if RankColumnName !in clean.columns {
      forall k | 0 <= k < |clean.rows| ensures RankColumnName !in clean.rows[k] {
        assert clean.rows[k].Keys == set c | c in clean.columns;
      }
      BlockUnranked(co, clean.rows, 0);
      BlockUnranked(co, clean.rows, 1);
      BlockUnranked(co, clean.rows, 2);
      BlockUnranked(co, clean.rows, 3);
      BlockUnranked(co, clean.rows, 4);
    }
    forall d | d in Merged(co, clean).rows
      ensures d in b0 || d in b1 || d in b2 || d in b3 || d in b4
    {
      assert d in b0 + b1 + b2 + b3 + b4;
    }
  }

  /** With every score column present, the reshape yields the five year
      frames and the sort cannot fail: the merged table has YEAR, and the
      Identifier it kept from the cleaned table. */
  lemma Stages(co: Coercion, raw: Frame, clean: Frame)
    requires Clean(raw) == Success(clean)
    requires forall c :: c in AccessOrder ==> c in clean.columns
    ensures ReshapeSpec(co, clean) == Success(YearFrames(co, clean))
    ensures SortStage(Merged(co, clean)).Success?
    ensures SortStage(Merged(co, clean)).value.columns ==
      Without(BlockColumns(clean.columns), RankColumnName)
  {
    CleanRows(raw, clean);
    MergeRows(co, clean);
    assert "YEAR" in Appended;
  }

  /** When the script fails and with which exception: KeyError('Identifier')
      for an export without that column; DuplicateColumns when trimming the
      header makes two names equal; KeyError for the first score column, in
      reading order, that the cleaned table lacks; and KeyError('YEAR_order')
      when the export itself has a column of that name, since the sort drops
      it before the projection asks for it. Nothing else fails. */
  lemma TransferErrors(co: Coercion, raw: Frame)
    ensures Transfer(co, raw).Failure? <==>
      || "Identifier" !in raw.columns
      || !Distinct(StripAll(raw.columns))
      || (exists c :: c in AccessOrder && c !in StripAll(raw.columns))
      || RankColumnName in StripAll(raw.columns)
    ensures "Identifier" !in raw.columns ==> Transfer(co, raw) == Failure(KeyError("Identifier"))
    ensures "Identifier" in raw.columns && !Distinct(StripAll(raw.columns)) ==>
      Transfer(co, raw) == Failure(DuplicateColumns)
    ensures forall m ::
      (&& Clean(raw).Success? && 0 <= m < |AccessOrder|
       && AccessOrder[m] !in StripAll(raw.columns)
       && (forall n :: 0 <= n < m ==> AccessOrder[n] in StripAll(raw.columns))) ==>
        Transfer(co, raw) == Failure(KeyError(AccessOrder[m]))
    ensures
      (&& Clean(raw).Success?
       && (forall c :: c in AccessOrder ==> c in StripAll(raw.columns))
       && RankColumnName in StripAll(raw.columns)) ==>
        Transfer(co, raw) == Failure(KeyError(RankColumnName))
  {
    if Clean(raw).Success? {
      var clean := Clean(raw).value;
      forall m | 0 <= m < |AccessOrder| && AccessOrder[m] !in clean.columns &&
        (forall n :: 0 <= n < m ==> AccessOrder[n] in clean.columns)
        ensures Transfer(co, raw) == Failure(KeyError(AccessOrder[m]))
      {
        FirstMissingAt(clean.columns, AccessOrder, m);
      }
      if forall c :: c in AccessOrder ==> c in clean.columns {
        Stages(co, raw, clean);
        ProjectErrors(co, raw, clean);
      }
    }
  }

  /** The projection fails exactly when the cleaned table has a rank column,
      and then reports that column. */
  lemma ProjectErrors(co: Coercion, raw: Frame, clean: Frame)
    requires Clean(raw) == Success(clean)
    requires forall c :: c in AccessOrder ==> c in clean.columns
    ensures SortStage(Merged(co, clean)).Success?
    ensures var r := Project(SortStage(Merged(co, clean)).value, clean.columns);
      && (r.Failure? <==> RankColumnName in clean.columns)
      && (r.Failure? ==> r == Failure(KeyError(RankColumnName)))
  {
    Stages(co, raw, clean);
    var g := SortStage(Merged(co, clean)).value;
    ProjectColumns(clean.columns, g.columns);
  }

  /** Of the output columns, the sorted table lacks only the rank column, and
      lacks it exactly when the cleaned table had it. */
  lemma ProjectColumns(cols: seq<string>, sortedCols: seq<string>)
    requires sortedCols == Without(BlockColumns(cols), RankColumnName)
    ensures (exists c :: c in ColumnOrder(cols) && c !in sortedCols) <==> RankColumnName in cols
    ensures forall c :: c in ColumnOrder(cols) && c !in sortedCols ==> c == RankColumnName
  {
    var order := ColumnOrder(cols);
    assert order == Kept(cols) + Appended;
    NamesFresh();
    forall c | c in order ensures c in sortedCols <==> c != RankColumnName {
      assert c in Kept(cols) || c in Appended;
    }
    if RankColumnName in cols {
      assert RankColumnName in Kept(cols);
      assert RankColumnName in order;
    }
  }

  /** A row read back from its fields under a header holding Identifier,
      YEAR, ESG, ESG3 and ESG9 has the row's cells under those names. */
  lemma ReadBack(r: Row, header: seq<string>)
    requires "Identifier" in header && forall c :: c in Appended ==> c in header
    ensures forall c :: c == "Identifier" || c in Appended ==>
      Get(RowOf(header, Fields(r, header)), c) == Get(r, c)
  {
    forall c | c == "Identifier" || c in Appended
      ensures Get(RowOf(header, Fields(r, header)), c) == Get(r, c)
    {
      FieldsRead(r, header, c);
    }
  }

  /** final_df[column_order] row by row: the output's header is the column
      order, and its k-th line is the k-th sorted row's fields under it. */
  lemma Projected(g: Frame, cols: seq<string>, out: Sheet)
    requires Project(g, cols) == Success(out)
    ensures out.header == Kept(cols) + Appended
    ensures out.rows == Apply(g.rows, (r: Row) => Fields(r, out.header))
  {
    assert out.rows == Apply(g.rows, (r: Row) => Fields(r, out.header));
  }

  /** A successful run read every score column, met no rank column in the
      cleaned table, and wrote the projection of the sorted merged table. */
  lemma TransferSucceeded(co: Coercion, raw: Frame, clean: Frame, out: Sheet)
    requires Clean(raw) == Success(clean) && Transfer(co, raw) == Success(out)
    ensures forall c :: c in AccessOrder ==> c in clean.columns
    ensures RankColumnName !in clean.columns
    ensures SortStage(Merged(co, clean)).Success?
    ensures Project(SortStage(Merged(co, clean)).value, clean.columns) == Success(out)
  {
    TransferErrors(co, raw);
    Stages(co, raw, clean);
  }

  /** The sorted table of a successful run: a reordering of the merged rows,
      every row tidy, ordered by Identifier and year rank, and the output
      lines are its rows' fields. */
  lemma SortedMerged(co: Coercion, raw: Frame, clean: Frame, out: Sheet) returns (g: Frame)
    requires Clean(raw) == Success(clean) && Transfer(co, raw) == Success(out)
    ensures out.header == Kept(clean.columns) + Appended
    ensures out.rows == Apply(g.rows, (r: Row) => Fields(r, out.header))
    ensures multiset(g.rows) == multiset(Merged(co, clean).rows)
    ensures forall k :: 0 <= k < |g.rows| ==> Tidy(g.rows[k])
    ensures forall k, l :: 0 <= k < l < |g.rows| ==> IdYearLe(g.rows[k], g.rows[l])
  {
    TransferSucceeded(co, raw, clean, out);
    g := SortStage(Merged(co, clean)).value;
    Projected(g, clean.columns, out);
    MergedTidy(co, raw, clean);
    SortedTidy(Merged(co, clean), g);
  }

  /** Sorting tidy rows without a rank column reorders them and keeps them
      tidy, in output order. */
  lemma SortedTidy(m: Frame, g: Frame)
    requires SortStage(m) == Success(g)
    requires forall d :: d in m.rows ==> Tidy(d)
    requires forall d :: d in m.rows ==> RankColumnName !in d
    ensures multiset(g.rows) == multiset(m.rows)
    ensures forall k :: 0 <= k < |g.rows| ==> Tidy(g.rows[k])
    ensures forall k, l :: 0 <= k < l < |g.rows| ==> IdYearLe(g.rows[k], g.rows[l])
  {
    SortStageRows(m, g);
    DropAbsent(m.rows, RankColumnName);
    PermutationTidy(g.rows, m.rows);
  }

  /** A reordering of tidy rows is tidy. */
  lemma PermutationTidy(a: seq<Row>, b: seq<Row>)
    requires multiset(a) == multiset(b)
    requires forall d :: d in b ==> Tidy(d)
    ensures forall k :: 0 <= k < |a| ==> Tidy(a[k])
  {
    PermutationFacts(a, b);
    forall k | 0 <= k < |a| ensures Tidy(a[k]) {
      assert a[k] in a;
    }
  }

  /** Tidy rows in output order stay tidy and in order once written as
      lines under a header that holds the names they are judged by. */
  lemma LinesRead(rows: seq<Row>, header: seq<string>, lines: seq<seq<Cell>>)
    requires "Identifier" in header && forall c :: c in Appended ==> c in header
    requires lines == Apply(rows, (r: Row) => Fields(r, header))
    requires forall k :: 0 <= k < |rows| ==> Tidy(rows[k])
    requires forall k, l :: 0 <= k < l < |rows| ==> IdYearLe(rows[k], rows[l])
    ensures forall k :: 0 <= k < |lines| ==> Tidy(RowOf(header, lines[k]))
    ensures forall k, l :: 0 <= k < l < |lines| ==>
      IdYearLe(RowOf(header, lines[k]), RowOf(header, lines[l]))
  {
    forall k | 0 <= k < |lines| ensures Tidy(RowOf(header, lines[k])) {
      ReadBack(rows[k], header);
    }
    forall k, l | 0 <= k < l < |lines|
      ensures IdYearLe(RowOf(header, lines[k]), RowOf(header, lines[l]))
    {
      ReadBack(rows[k], header);
      ReadBack(rows[l], header);
    }
  }

  /** The merged table has one row per surviving pair of a cleaned row and a
      year. */
  lemma MergedCount(co: Coercion, clean: Frame)
    ensures |Merged(co, clean).rows| ==
      |Survivors(co, clean.rows, 0)| + |Survivors(co, clean.rows, 1)| + |Survivors(co, clean.rows, 2)| +
      |Survivors(co, clean.rows, 3)| + |Survivors(co, clean.rows, 4)|
  {
    MergeRows(co, clean);
    BlockRows(co, clean.rows, 0);
    BlockRows(co, clean.rows, 1);
    BlockRows(co, clean.rows, 2);
    BlockRows(co, clean.rows, 3);
    BlockRows(co, clean.rows, 4);
  }

  /** What the script writes, given the cleaned table it worked from: the
      header is the company's own columns without the fifteen score columns,
      then YEAR, ESG, ESG3, ESG9; the lines are a reordering of the merged
      rows' fields, so one line per surviving pair of a cleaned row and a
      year; every line is tidy; and the lines are ordered by Identifier and
      then by year rank, FY0 first. */
  lemma TransferOutput(co: Coercion, raw: Frame, clean: Frame, out: Sheet)
    requires Clean(raw) == Success(clean) && Transfer(co, raw) == Success(out)
    ensures out.header == Kept(clean.columns) + Appended
    ensures multiset(out.rows) ==
      multiset(Apply(Merged(co, clean).rows, (r: Row) => Fields(r, out.header)))
    ensures |out.rows| ==
      |Survivors(co, clean.rows, 0)| + |Survivors(co, clean.rows, 1)| + |Survivors(co, clean.rows, 2)| +
      |Survivors(co, clean.rows, 3)| + |Survivors(co, clean.rows, 4)|
    ensures forall k :: 0 <= k < |out.rows| ==> Tidy(RowOf(out.header, out.rows[k]))
    ensures forall k, l :: 0 <= k < l < |out.rows| ==>
      IdYearLe(RowOf(out.header, out.rows[k]), RowOf(out.header, out.rows[l]))
  {
    var g := SortedMerged(co, raw, clean, out);
    var m := Merged(co, clean).rows;
    ApplyPermutation(g.rows, m, (r: Row) => Fields(r, out.header));
    MergedCount(co, clean);
    assert |g.rows| == |m| by {
      assert |multiset(g.rows)| == |multiset(m)|;
    }
    NamesFresh();
    LinesRead(g.rows, out.header, out.rows);
  }
}
