/** The fixed layout the transfer script is written against: the three
    groups of five per-year score columns, the year labels, the rank each
    label sorts by, and the columns the script adds. */
module Layout {
  /** The ESG score columns, FY0 first. Only the first carries a header in
      the export; the other four are the names pandas gives blank headers. */
  const EsgCols: seq<string> :=
    ["ESG Score\nIn the last 5 FY", "Unnamed: 9", "Unnamed: 10", "Unnamed: 11", "Unnamed: 12"]

  /** The SDG 3 (health and well-being) flag columns, FY0 first. */
  const Esg3Cols: seq<string> :=
    ["SDG 3 Good Health and Well-being\nIn the last 5 FY", "Unnamed: 14", "Unnamed: 15",
     "Unnamed: 16", "Unnamed: 17"]

  /** The SDG 9 (industry, innovation and infrastructure) flag columns, FY0
      first. */
  const Esg9Cols: seq<string> :=
    ["SDG 9 Industry, Innovation and Infrastructure\nIn the last 5 FY", "Unnamed: 19",
     "Unnamed: 20", "Unnamed: 21", "Unnamed: 22"]

  /** The label of each year offset, in the order the years are processed. */
  const Years: seq<string> := ["FY0", "FY-1", "FY-2", "FY-3", "FY-4"]

  /** The number of years, and of columns in each group. */
  const YearCount: nat := 5

  /** The fifteen raw score columns left out of the output. */
  const Excluded: seq<string> := EsgCols + Esg3Cols + Esg9Cols

  /** The derived columns a row must have to be kept. */
  const Derived: seq<string> := ["ESG", "ESG3", "ESG9"]

  /** The columns that follow the company's own columns in the output. */
  const Appended: seq<string> := ["YEAR", "ESG", "ESG3", "ESG9"]

  /** The helper column the sort uses and then drops. */
  const RankColumnName: string := "YEAR_order"

  /** The keys of the sort: the company, then the year's rank. */
  const SortKeys: seq<string> := ["Identifier", RankColumnName]

  /** The year_order dictionary: newest year first, by an explicit rank
      rather than by the text of the label. */
  const YearOrder: map<string, real> :=
    map["FY0" := 0.0, "FY-1" := 1.0, "FY-2" := 2.0, "FY-3" := 3.0, "FY-4" := 4.0]

  /** The three columns year i reads, in the order the script reads them. */
  function Triad(i: nat): seq<string>
    requires i < YearCount
  {
    [EsgCols[i], Esg3Cols[i], Esg9Cols[i]]
  }

  /** Every column the reshape reads, in the order it reads them: year by
      year, and within a year ESG, then SDG 3, then SDG 9. */
  const AccessOrder: seq<string> := Triad(0) + Triad(1) + Triad(2) + Triad(3) + Triad(4)

  /** No score column of year i is a column the script writes, sorts by or
      drops rows on. */
  lemma TriadFresh(i: nat)
    requires i < YearCount
    ensures EsgCols[i] != "ESG" && EsgCols[i] != "ESG3" && EsgCols[i] != "ESG9" && EsgCols[i] != "YEAR"
    ensures Esg3Cols[i] != "ESG" && Esg3Cols[i] != "ESG3" && Esg3Cols[i] != "ESG9" && Esg3Cols[i] != "YEAR"
    ensures Esg9Cols[i] != "ESG" && Esg9Cols[i] != "ESG3" && Esg9Cols[i] != "ESG9" && Esg9Cols[i] != "YEAR"
  {
  }

  /** Where each year's columns sit in the reading order. */
  lemma AccessAt(i: nat)
    requires i < YearCount
    ensures |AccessOrder| == 3 * YearCount
    ensures AccessOrder[3 * i] == EsgCols[i]
    ensures AccessOrder[3 * i + 1] == Esg3Cols[i]
    ensures AccessOrder[3 * i + 2] == Esg9Cols[i]
  {
  }

  /** The configuration is consistent: five columns per group and five
      labels; no score column is one of the columns the script adds or sorts
      by; and the year ranks are 0 to 4 in label order. */
  lemma LayoutFacts(i: nat)
    requires i < YearCount
    ensures |EsgCols| == |Esg3Cols| == |Esg9Cols| == |Years| == YearCount
    ensures |Excluded| == 3 * YearCount && |AccessOrder| == 3 * YearCount
    ensures forall c :: c in Triad(i) ==> c in Excluded && c !in Appended && c != RankColumnName
    ensures forall c :: c in Triad(i) ==> c != "Identifier"
    ensures Years[i] in YearOrder && YearOrder[Years[i]] == i as real
    ensures forall k :: 0 <= k < YearCount && Years[k] == Years[i] ==> k == i
  {
  }

  /** The rank column and the Identifier are none of the score columns, and
      the rank column is none of the added columns, while YEAR is one. */
  lemma NamesFresh()
    ensures RankColumnName !in Excluded && RankColumnName !in Appended
    ensures "Identifier" !in Excluded && "Identifier" !in Appended
    ensures "YEAR" in Appended
  {
  }
}
