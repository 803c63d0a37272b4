/** Steps 4 and 5 of the transfer script: sort the merged rows by company and
    then by the year's rank, and pick the output columns in their order. */
module Ordering {
  import opened Wrappers
  import opened Text
  import opened Frames
  import opened Cells
  import opened Sorting
  import opened Layout

  /** final_df['YEAR'].map(year_order) on one cell: a year label becomes its
      rank, anything else missing. */
  function YearRank(c: Cell): (r: Cell)
    ensures forall i :: 0 <= i < YearCount && c == Some(Str(Years[i])) ==> r == Some(Num(i as real))
    ensures r.Some? ==> exists i :: 0 <= i < YearCount && c == Some(Str(Years[i]))
  {
    forall i | 0 <= i < YearCount ensures Years[i] in YearOrder && YearOrder[Years[i]] == i as real {
      LayoutFacts(i);
    }
    if c.Some? && c.value.Str? && c.value.s in YearOrder then
      assert c.value.s == Years[0] || c.value.s == Years[1] || c.value.s == Years[2] ||
             c.value.s == Years[3] || c.value.s == Years[4];
      Some(Num(YearOrder[c.value.s]))
    else None
  }

  /** The rank puts the years newest first: label i sorts before label j
      exactly when i <= j. As text, the labels would sort otherwise: "FY-1"
      comes before "FY0", which is why the script sorts by the rank. */
  lemma YearRankOrder(i: nat, j: nat)
    requires i < YearCount && j < YearCount
    ensures CellLe(YearRank(Some(Str(Years[i]))), YearRank(Some(Str(Years[j])))) <==> i <= j
    ensures LexLe(Years[1], Years[0]) && !LexLe(Years[0], Years[1])
  {
    assert Years[1] == "FY-1" && Years[0] == "FY0";
    assert "FY-1"[2] == '-' && "FY0"[2] == '0';
  }

  /** The rank column, one rank per row. */
  function RankColumn(col: seq<Cell>): (r: seq<Cell>)
    ensures |r| == |col|
    ensures forall k, i :: 0 <= k < |col| && 0 <= i < YearCount && col[k] == Some(Str(Years[i])) ==>
      r[k] == Some(Num(i as real))
    ensures forall k :: 0 <= k < |col| && r[k].Some? ==> col[k].Some? && col[k].value.Str? && col[k].value.s in YearOrder
  {
    seq(|col|, k requires 0 <= k < |col| => YearRank(col[k]))
  }

  /** The rows with column c removed from each. */
  function DropKey(rows: seq<Row>, c: string): seq<Row>
  {
    seq(|rows|, k requires 0 <= k < |rows| => rows[k] - {c})
  }

  /** Dropping a column no row has changes nothing. */
  lemma DropAbsent(rows: seq<Row>, c: string)
    requires forall d :: d in rows ==> c !in d
    ensures DropKey(rows, c) == rows
  {
    forall k | 0 <= k < |rows| ensures rows[k] - {c} == rows[k] {
      assert rows[k] in rows;
    }
  }

  /** Row a may come before row b in the output: by Identifier, and for the
      same Identifier by the rank of the year, FY0 first. */
  predicate IdYearLe(a: Row, b: Row)
  {
    && CellLe(Get(a, "Identifier"), Get(b, "Identifier"))
    && (CellLe(Get(b, "Identifier"), Get(a, "Identifier")) ==>
          CellLe(YearRank(Get(a, "YEAR")), YearRank(Get(b, "YEAR"))))
  }

  /** Lines 34-36: the rank column added, the rows sorted by Identifier and
      rank, and the rank column dropped again. Reading YEAR, or sorting by an
      Identifier column that does not exist, raises KeyError. */
  function SortStage(f: Frame): (r: Result<Frame, Error>)
    ensures r.Failure? <==> "YEAR" !in f.columns || "Identifier" !in f.columns
    ensures "YEAR" !in f.columns ==> r == Failure(KeyError("YEAR"))
    ensures r.Success? ==> r.value.columns == Without(f.columns, RankColumnName)
  {
    if "YEAR" !in f.columns then Failure(KeyError("YEAR"))
    else
      var ranked := WithRanks(f);
      if "Identifier" !in ranked.columns then Failure(KeyError("Identifier"))
      else
        WithoutAppended(f.columns, RankColumnName);
        Success(DropColumn(Frame(ranked.columns, SortRows(ranked.rows, SortKeys)), RankColumnName))
  }

  /** The rows mapped one by one through g. */
  function Apply<T>(rows: seq<Row>, g: Row -> T): seq<T>
  {
    seq(|rows|, k requires 0 <= k < |rows| => g(rows[k]))
  }

  lemma ApplyConcat<T>(u: seq<Row>, v: seq<Row>, g: Row -> T)
    ensures Apply(u + v, g) == Apply(u, g) + Apply(v, g)
  {
  }

  /** Mapping two reorderings of the same rows gives reorderings of the same
      values. */
  lemma {:induction false} ApplyPermutation<T>(a: seq<Row>, b: seq<Row>, g: Row -> T)
    requires multiset(a) == multiset(b)
    ensures multiset(Apply(a, g)) == multiset(Apply(b, g))
    decreases |a|
  {
    if a == [] {
      assert |multiset(b)| == 0;
    } else {
      var x := a[0];
      assert x in multiset(b);
      var j :| 0 <= j < |b| && b[j] == x;
      var rest := b[..j] + b[j + 1..];
      assert b == b[..j] + [x] + b[j + 1..];
      assert a == [x] + a[1..];
      assert multiset(a) == multiset{x} + multiset(a[1..]);
      assert multiset(b) == multiset(b[..j]) + multiset{x} + multiset(b[j + 1..]);
      assert multiset(rest) == multiset(b[..j]) + multiset(b[j + 1..]);
      assert multiset(a[1..]) == multiset(a) - multiset{x};
      assert multiset(rest) == multiset(b) - multiset{x};
      ApplyPermutation(a[1..], rest, g);
      ApplyConcat([x], a[1..], g);
      ApplyConcat(b[..j] + [x], b[j + 1..], g);
      ApplyConcat(b[..j], [x], g);
      ApplyConcat(b[..j], b[j + 1..], g);
    }
  }

  /** A row of the ranked table holds the rank of its own year. */
  predicate Ranked(r: Row)
  {
    Get(r, RankColumnName) == YearRank(Get(r, "YEAR"))
  }

  /** Two ranked rows in sort order are in output order once the rank column
      is gone. */
  lemma RankedOrder(a: Row, b: Row)
    requires Ranked(a) && Ranked(b) && RowLe(a, b, SortKeys)
    ensures IdYearLe(a - {RankColumnName}, b - {RankColumnName})
  {
    assert SortKeys[1..] == [RankColumnName];
    assert SortKeys[1..][1..] == [];
    assert Get(a - {RankColumnName}, "Identifier") == Get(a, "Identifier");
    assert Get(b - {RankColumnName}, "Identifier") == Get(b, "Identifier");
    assert Get(a - {RankColumnName}, "YEAR") == Get(a, "YEAR");
    assert Get(b - {RankColumnName}, "YEAR") == Get(b, "YEAR");
  }

  /** The table with the rank column added: appended last unless the table
      already has one, which is then overwritten. */
  function WithRanks(f: Frame): (g: Frame)
    ensures g.columns == if RankColumnName in f.columns then f.columns else f.columns + [RankColumnName]
    ensures |g.rows| == |f.rows|
  {
    WithColumn(f, RankColumnName, RankColumn(Column(f, "YEAR")))
  }

  /** Every row of the ranked table holds its year's rank and, the rank
      column aside, is the row it was made from. */
  lemma RanksAdded(f: Frame)
    ensures |WithRanks(f).rows| == |f.rows|
    ensures forall k :: 0 <= k < |f.rows| ==> Ranked(WithRanks(f).rows[k])
    ensures DropKey(WithRanks(f).rows, RankColumnName) == DropKey(f.rows, RankColumnName)
  {
    var ranked := WithRanks(f);
    forall k | 0 <= k < |f.rows|
      ensures Ranked(ranked.rows[k])
      ensures ranked.rows[k] - {RankColumnName} == f.rows[k] - {RankColumnName}
    {
      assert ranked.rows[k] == f.rows[k][RankColumnName := YearRank(Get(f.rows[k], "YEAR"))];
    }
  }

  /** Dropping a column from two reorderings of the same rows gives
      reorderings of the same rows. */
  lemma DropKeyPermutation(a: seq<Row>, b: seq<Row>, c: string)
    requires multiset(a) == multiset(b)
    ensures multiset(DropKey(a, c)) == multiset(DropKey(b, c))
  {
    ApplyPermutation(a, b, (r: Row) => r - {c});
    assert Apply(a, (r: Row) => r - {c}) == DropKey(a, c);
    assert Apply(b, (r: Row) => r - {c}) == DropKey(b, c);
  }

  /** Ranked rows in sort order are in output order once the rank column is
      dropped. */
  lemma SortedRanked(ranked: seq<Row>, sorted: seq<Row>)
    requires forall k :: 0 <= k < |ranked| ==> Ranked(ranked[k])
    requires multiset(sorted) == multiset(ranked) && Sorted(sorted, SortKeys)
    ensures forall k, l :: 0 <= k < l < |sorted| ==>
      IdYearLe(DropKey(sorted, RankColumnName)[k], DropKey(sorted, RankColumnName)[l])
  {
    PermutationFacts(sorted, ranked);
    forall k, l | 0 <= k < l < |sorted|
      ensures IdYearLe(DropKey(sorted, RankColumnName)[k], DropKey(sorted, RankColumnName)[l])
    {
      assert sorted[k] in ranked && sorted[l] in ranked;
      RankedOrder(sorted[k], sorted[l]);
    }
  }

  /** The sorted table is a reordering of the merged rows (each without the
      rank column, should the input have had one), ordered by Identifier and
      then by year rank, and no row keeps the rank column. */
  lemma SortStageRows(f: Frame, g: Frame)
    requires SortStage(f) == Success(g)
    ensures multiset(g.rows) == multiset(DropKey(f.rows, RankColumnName))
    ensures forall k, l :: 0 <= k < l < |g.rows| ==> IdYearLe(g.rows[k], g.rows[l])
    ensures forall k :: 0 <= k < |g.rows| ==> RankColumnName !in g.rows[k]
  {
    var ranked := WithRanks(f);
    var sorted := SortRows(ranked.rows, SortKeys);
    assert g.rows == DropKey(sorted, RankColumnName);
    RanksAdded(f);
    DropKeyPermutation(sorted, ranked.rows, RankColumnName);
    SortedRanked(ranked.rows, sorted);
  }

  /** [col for col in cols if col not in columns_to_exclude]. */
  function Kept(cols: seq<string>): (r: seq<string>)
    ensures forall c :: c in r <==> c in cols && c !in Excluded
    ensures |r| <= |cols|
  {
    if cols == [] then []
    else (if cols[0] in Excluded then [] else [cols[0]]) + Kept(cols[1..])
  }

  /** The filter keeps the order of the columns: filtering two runs of
      columns one after the other is filtering each and joining the
      results. */
  lemma {:induction false} KeptConcat(a: seq<string>, b: seq<string>)
    ensures Kept(a + b) == Kept(a) + Kept(b)
  {
    if a == [] {
      assert a + b == b;
    } else {
      assert (a + b)[0] == a[0] && (a + b)[1..] == a[1..] + b;
      KeptConcat(a[1..], b);
    }
  }

  /** The output's column order: the company's own columns, then YEAR, ESG,
      ESG3, ESG9. */
  function ColumnOrder(cols: seq<string>): (order: seq<string>)
    ensures |order| == |Kept(cols)| + 4
    ensures order[|Kept(cols)|..] == ["YEAR", "ESG", "ESG3", "ESG9"]
    ensures forall c :: c in order[..|Kept(cols)|] <==> c in cols && c !in Excluded
  {
    var order := Kept(cols) + Appended;
    assert order[..|Kept(cols)|] == Kept(cols);
    order
  }

  /** final_df[column_order]: the output table, or KeyError for a listed
      column the sorted table does not have. */
  function Project(f: Frame, cleanColumns: seq<string>): (r: Result<Sheet, Error>)
    ensures r.Failure? <==> exists c :: c in ColumnOrder(cleanColumns) && c !in f.columns
    ensures r.Success? ==> r.value.header == ColumnOrder(cleanColumns) && |r.value.rows| == |f.rows|
  {
    Select(f, ColumnOrder(cleanColumns))
  }
}
