/** Step 1 of the transfer script, cleaning: drop the companies without an
    Identifier, then trim the column names. */
module Cleaning {
  import opened Wrappers
  import opened Text
  import opened Frames

  /** df.columns.str.strip(): every column name trimmed. */
  function StripAll(cols: seq<string>): (r: seq<string>)
    ensures |r| == |cols|
  {
    seq(|cols|, k requires 0 <= k < |cols| => Strip(cols[k]))
  }

  /** Each trimmed name is the middle of the name it came from, with no
      whitespace left at either end; a name without whitespace at its ends
      is kept as it is. */
  lemma StripAllNames(cols: seq<string>)
    ensures forall k :: 0 <= k < |cols| ==>
      var r := StripAll(cols)[k];
      && Lead(cols[k]) + |r| <= |cols[k]| && r == cols[k][Lead(cols[k])..Lead(cols[k]) + |r|]
      && (r != [] ==> !IsSpace(r[0]) && !IsSpace(r[|r| - 1]))
    ensures forall k :: 0 <= k < |cols| && cols[k] != [] && !IsSpace(cols[k][0]) && !IsSpace(cols[k][|cols[k]| - 1]) ==>
      StripAll(cols)[k] == cols[k]
  {
    forall k | 0 <= k < |cols| && cols[k] != [] && !IsSpace(cols[k][0]) && !IsSpace(cols[k][|cols[k]| - 1])
      ensures StripAll(cols)[k] == cols[k]
    {
      StripUnchanged(cols[k]);
    }
  }

  /** One row with its columns renamed position by position: the cell that
      was under olds[j] is now under news[j]. */
  function RenameRow(r: Row, olds: seq<string>, news: seq<string>): (s: Row)
    requires |olds| == |news|
    ensures s.Keys == set c | c in news
    ensures Distinct(news) ==> forall j :: 0 <= j < |news| ==> s[news[j]] == Get(r, olds[j])
    decreases |news|
  {
    if news == [] then map[]
    else
      var n := |news| - 1;
      var init := RenameRow(r, olds[..n], news[..n]);
      LastSplit(news);
      var s := init[news[n] := Get(r, olds[n])];
      assert Distinct(news) ==> forall j :: 0 <= j < |news| ==> s[news[j]] == Get(r, olds[j]) by {
        if Distinct(news) {
          forall j | 0 <= j < |news| ensures s[news[j]] == Get(r, olds[j]) {
            if j < n {
              assert news[..n][j] == news[j] && olds[..n][j] == olds[j];
            }
          }
        }
      }
      s
  }

  /** df.dropna(subset=["Identifier"]).copy() followed by
      df.columns = df.columns.str.strip(). Selecting the Identifier column
      raises KeyError when the export has none. Trimmed names that collide
      are reported as DuplicateColumns. */
  function Clean(raw: Frame): (r: Result<Frame, Error>)
    ensures r.Failure? <==> "Identifier" !in raw.columns || !Distinct(StripAll(raw.columns))
    ensures "Identifier" !in raw.columns ==> r == Failure(KeyError("Identifier"))
    ensures r.Success? ==> r.value.columns == StripAll(raw.columns) && WellFormed(r.value)
  {
    if "Identifier" !in raw.columns then Failure(KeyError("Identifier"))
    else
      var kept := DropNa(raw, ["Identifier"]);
      var names := StripAll(kept.columns);
      if !Distinct(names) then Failure(DuplicateColumns)
      else
        Success(Frame(names, seq(|kept.rows|, k requires 0 <= k < |kept.rows| =>
          RenameRow(kept.rows[k], kept.columns, names))))
  }

  /** What the cleaned table holds: one row for each row of the export whose
      Identifier is present, in their order and each once (the k-th cleaned
      row comes from the k-th such row); each cell under the trimmed name
      of the column it was under; and so a present Identifier in every row. */
  lemma CleanRows(raw: Frame, clean: Frame)
    requires Clean(raw) == Success(clean)
    ensures |clean.rows| == |KeepComplete(raw.rows, ["Identifier"])|
    ensures forall k, j :: 0 <= k < |clean.rows| && 0 <= j < |raw.columns| ==>
      Get(clean.rows[k], clean.columns[j]) == Get(KeepComplete(raw.rows, ["Identifier"])[k], raw.columns[j])
    ensures var p := CompletePositions(raw.rows, ["Identifier"]);
      |clean.rows| == |p| && forall k, j :: 0 <= k < |clean.rows| && 0 <= j < |raw.columns| ==>
        Get(clean.rows[k], clean.columns[j]) == Get(raw.rows[p[k]], raw.columns[j])
    ensures "Identifier" in clean.columns
    ensures forall k :: 0 <= k < |clean.rows| ==> Get(clean.rows[k], "Identifier").Some?
  {
    var kept := KeepComplete(raw.rows, ["Identifier"]);
    KeepCompleteAt(raw.rows, ["Identifier"]);
    var j :| 0 <= j < |raw.columns| && raw.columns[j] == "Identifier";
    StripUnchanged("Identifier");
    assert clean.columns[j] == "Identifier";
    forall k | 0 <= k < |clean.rows| ensures Get(clean.rows[k], "Identifier").Some? {
      assert kept[k] in kept;
      assert Complete(kept[k], ["Identifier"]);
      assert Get(kept[k], "Identifier").Some?;
    }
  }
}
