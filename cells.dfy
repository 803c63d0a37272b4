/** The per-cell conversions the transfer script applies to one year's
    columns, pd.to_numeric(errors='coerce') and
    astype(str).str.upper().replace({'FALSE': None, 'NAN': None}), and the
    order sort_values puts cells in. */
module Cells {
  import opened Wrappers
  import opened Text
  import opened Frames

  /** The parts of pandas the model takes as given rather than re-implements:
      how pd.to_numeric reads one string (None when it cannot, or when it
      reads NaN), and how str() writes one number. */
  datatype Coercion = Coercion(parse: string -> Option<real>, show: real -> string)

  /** pd.to_numeric(errors='coerce') on one cell: a number or a boolean is
      already numeric and stays as it is, a missing cell stays missing, and
      text becomes the number it reads as, or missing when it reads as none. */
  function ToNumeric(co: Coercion, c: Cell): (n: Cell)
    ensures n.None? <==> c.None? || (c.value.Str? && co.parse(c.value.s).None?)
    ensures n.Some? ==> !n.value.Str?
    ensures c.Some? && !c.value.Str? ==> n == c
    ensures c.Some? && c.value.Str? && n.Some? ==> n == Some(Num(co.parse(c.value.s).value))
  {
    match c
    case None => None
    case Some(Str(s)) => (match co.parse(s) case None => None case Some(x) => Some(Num(x)))
    case Some(_) => c
  }

  /** astype(str) on one cell: a missing cell becomes "nan" and a boolean
      Python's "True" or "False". */
  function AsStr(co: Coercion, c: Cell): (s: string)
    ensures c.None? ==> s == "nan"
    ensures c.Some? && c.value.Bool? ==> s == (if c.value.b then "True" else "False")
    ensures c.Some? && c.value.Str? ==> s == c.value.s
  {
    match c
    case None => "nan"
    case Some(Str(t)) => t
    case Some(Num(x)) => co.show(x)
    case Some(Bool(b)) => if b then "True" else "False"
  }

  /** The two upper-cased strings that replace(...) turns into a missing
      value. */
  predicate IsMissingFlag(u: string)
  {
    u == "FALSE" || u == "NAN"
  }

  /** The ESG3 / ESG9 normalisation of one cell: its text upper-cased, except
      that exactly "FALSE" and "NAN" become missing. */
  function Flag(co: Coercion, c: Cell): (f: Cell)
    ensures f.None? <==> IsMissingFlag(Upper(AsStr(co, c)))
    ensures f.Some? ==> f.value.Str? && |f.value.s| == |AsStr(co, c)|
    ensures f.Some? ==> forall k :: 0 <= k < |f.value.s| ==> f.value.s[k] == UpperChar(AsStr(co, c)[k])
  {
    var u := Upper(AsStr(co, c));
    if IsMissingFlag(u) then None else Some(Str(u))
  }

  /** A missing cell and a False boolean never survive the normalisation;
      a True boolean survives as "TRUE". */
  lemma FlagNonText(co: Coercion)
    ensures Flag(co, None) == None
    ensures Flag(co, Some(Bool(false))) == None
    ensures Flag(co, Some(Bool(true))) == Some(Str("TRUE"))
  {
    assert Upper("nan") == "NAN";
    assert Upper("False") == "FALSE";
    assert Upper("True") == "TRUE";
  }

  /** Text that reads "false" or "nan" in any mix of cases does not survive
      the normalisation; all other text survives, upper-cased. */
  lemma FlagMissingCases(co: Coercion, s: string)
    ensures Flag(co, Some(Str(s))).None? <==> Upper(s) == "FALSE" || Upper(s) == "NAN"
    ensures Flag(co, Some(Str(s))).Some? ==> Flag(co, Some(Str(s))) == Some(Str(Upper(s)))
  {
  }

  /** The check is an exact string match, not a reading of falsiness:
      "True" passes as "TRUE", "false" does not pass, and "0" passes. */
  lemma FlagExamples(co: Coercion)
    ensures Flag(co, Some(Str("True"))) == Some(Str("TRUE"))
    ensures Flag(co, Some(Str("false"))) == None
    ensures Flag(co, Some(Str("0"))) == Some(Str("0"))
  {
    assert Upper("True") == "TRUE";
    assert Upper("false") == "FALSE";
    assert Upper("0") == "0";
  }

  /** Text that only looks false passes: "No" as "NO", and " false", whose
      leading space the match does not strip, as " FALSE". */
  lemma FlagLookalikes(co: Coercion)
    ensures Flag(co, Some(Str("No"))) == Some(Str("NO"))
    ensures Flag(co, Some(Str(" false"))) == Some(Str(" FALSE"))
  {
    assert Upper("No") == "NO";
    assert Upper(" false") == " FALSE";
  }

  lemma {:induction false} UpperIdempotent(s: string)
    ensures Upper(Upper(s)) == Upper(s)
  {
    if s != [] {
      UpperIdempotent(s[1..]);
      assert Upper(s)[1..] == Upper(s[1..]);
    }
  }

  /** A flag that survived is already normalised: running the conversion
      again on the output leaves it unchanged. */
  lemma FlagIdempotent(co: Coercion, c: Cell)
    requires Flag(co, c).Some?
    ensures Flag(co, Flag(co, c)) == Flag(co, c)
  {
    UpperIdempotent(AsStr(co, c));
  }

  /** The numeric view of a number or a boolean (Python compares True as 1). */
  function Numeric(v: Value): real
    requires !v.Str?
  {
    if v.Num? then v.x else if v.b then 1.0 else 0.0
  }

  /** The order sort_values uses within one column: numbers (and booleans) by
      value, text by code point, and, in a column that mixes them, numbers
      before text, as pandas' mixed-type sort places them. */
  predicate ValueLe(v: Value, w: Value)
  {
    if v.Str? && w.Str? then LexLe(v.s, w.s)
    else if v.Str? then false
    else if w.Str? then true
    else Numeric(v) <= Numeric(w)
  }

  /** The order of one sort key, with missing values placed last
      (na_position='last'). */
  predicate CellLe(a: Cell, b: Cell)
  {
    if b.None? then true
    else if a.None? then false
    else ValueLe(a.value, b.value)
  }

  lemma CellLeTotal(a: Cell, b: Cell)
    ensures CellLe(a, b) || CellLe(b, a)
  {
    if a.Some? && b.Some? && a.value.Str? && b.value.Str? {
      LexLeTotal(a.value.s, b.value.s);
    }
  }

  lemma CellLeTransitive(a: Cell, b: Cell, c: Cell)
    requires CellLe(a, b) && CellLe(b, c)
    ensures CellLe(a, c)
  {
    if a.Some? && b.Some? && c.Some? && a.value.Str? && b.value.Str? && c.value.Str? {
      LexLeTransitive(a.value.s, b.value.s, c.value.s);
    }
  }
}
