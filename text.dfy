/** The string operations the transfer script applies to header names and
    cells: Python's str.strip(), str.upper() and the ordering of str. */
module Text {

  /** Python's str.isspace() for one character, the set str.strip() removes
      when it is called without arguments: the ASCII controls tab to
      carriage return and 0x1c to 0x1f, space, next line, no-break space,
      and the Unicode spaces and separators. */
  predicate IsSpace(c: char)
  {
    || ('\t' <= c <= '\r')
    || ('\U{1c}' <= c <= ' ')
    || c == '\U{85}' || c == '\U{a0}' || c == '\U{1680}'
    || ('\U{2000}' <= c <= '\U{200a}')
    || c == '\U{2028}' || c == '\U{2029}' || c == '\U{202f}' || c == '\U{205f}' || c == '\U{3000}'
  }

  /** Every character of s is whitespace. */
  predicate AllSpace(s: string)
  {
    forall k :: 0 <= k < |s| ==> IsSpace(s[k])
  }

  /** The number of whitespace characters at the start of s. */
  function Lead(s: string): (n: nat)
    ensures n <= |s| && AllSpace(s[..n])
    ensures n < |s| ==> !IsSpace(s[n])
  {
    if s != [] && IsSpace(s[0]) then
      var n := 1 + Lead(s[1..]);
      PrefixCons(s, n);
      n
    else 0
  }

  /** The number of whitespace characters at the end of s. */
  function Trail(s: string): (n: nat)
    ensures n <= |s| && AllSpace(s[|s| - n..])
    ensures n < |s| ==> !IsSpace(s[|s| - n - 1])
  {
    if s != [] && IsSpace(s[|s| - 1]) then
      var init := s[..|s| - 1];
      var n := 1 + Trail(init);
      SuffixSnoc(s, |s| - n);
      n
    else 0
  }

  /** str.lstrip(): drops the leading whitespace and nothing else. */
  function LStrip(s: string): string
  {
    s[Lead(s)..]
  }

  /** str.rstrip(): drops the trailing whitespace and nothing else. */
  function RStrip(s: string): string
  {
    s[..|s| - Trail(s)]
  }

  /** str.strip(), that is rstrip after lstrip: the result is the slice of s
      that remains once the whitespace on both ends is gone; everything cut
      off was whitespace, and the result neither starts nor ends with
      whitespace. */
  function Strip(s: string): (r: string)
    ensures Lead(s) + |r| <= |s| && r == s[Lead(s)..Lead(s) + |r|]
    ensures AllSpace(s[..Lead(s)]) && AllSpace(s[Lead(s) + |r|..])
    ensures r != [] ==> !IsSpace(r[0]) && !IsSpace(r[|r| - 1])
  {
    StripSlice(s);
    StripCut(s);
    StripEnds(s);
    RStrip(LStrip(s))
  }

  /** What str.strip() keeps is one slice of s, starting after its leading
      whitespace. */
  lemma StripSlice(s: string)
    ensures Lead(s) + |RStrip(LStrip(s))| <= |s|
    ensures RStrip(LStrip(s)) == s[Lead(s)..Lead(s) + |RStrip(LStrip(s))|]
  {
  }

  /** What str.strip() cuts off at the end is whitespace. */
  lemma StripCut(s: string)
    ensures Lead(s) + |RStrip(LStrip(s))| <= |s|
    ensures AllSpace(s[Lead(s) + |RStrip(LStrip(s))|..])
  {
    var l := LStrip(s);
    SuffixOfSuffix(s, Lead(s), |l| - Trail(l));
  }

  /** What str.strip() keeps neither starts nor ends with whitespace. */
  lemma StripEnds(s: string)
    ensures var r := RStrip(LStrip(s)); r != [] ==> !IsSpace(r[0]) && !IsSpace(r[|r| - 1])
  {
    var l := LStrip(s);
    var r := RStrip(l);
    if r != [] {
      assert r[0] == l[0] == s[Lead(s)];
      assert r[|r| - 1] == l[|l| - Trail(l) - 1];
    }
  }

  /** A non-empty prefix is the first element and a prefix of the rest. */
  lemma PrefixCons<T>(s: seq<T>, n: nat)
    requires 0 < n <= |s|
    ensures s[..n] == [s[0]] + s[1..][..n - 1]
  {
  }

  /** A suffix that reaches the last element is a suffix of the rest and
      the last element. */
  lemma SuffixSnoc<T>(s: seq<T>, a: nat)
    requires a < |s|
    ensures s[a..] == s[..|s| - 1][a..] + [s[|s| - 1]]
  {
  }

  /** A suffix of a suffix is a suffix. */
  lemma SuffixOfSuffix<T>(s: seq<T>, i: nat, a: nat)
    requires i <= |s| && a <= |s| - i
    ensures s[i..][a..] == s[i + a..]
  {
  }

  /** A string with no whitespace at either end is left as it is by
      str.strip(). */
  lemma StripUnchanged(s: string)
    requires s != [] && !IsSpace(s[0]) && !IsSpace(s[|s| - 1])
    ensures Strip(s) == s
  {
    assert Lead(s) == 0;
    assert s[0..] == s;
    assert Trail(s) == 0;
  }

  /** str.upper() on one character, for the ASCII letters. */
  function UpperChar(c: char): (u: char)
    ensures 'a' <= c <= 'z' ==> u as int == c as int - 32
    ensures !('a' <= c <= 'z') ==> u == c
  {
    if 'a' <= c <= 'z' then (c as int - 32) as char else c
  }

  /** str.upper(): every character upper-cased, the length unchanged. */
  function Upper(s: string): (r: string)
    ensures |r| == |s|
    ensures forall k :: 0 <= k < |s| ==> r[k] == UpperChar(s[k])
  {
    if s == [] then [] else [UpperChar(s[0])] + Upper(s[1..])
  }

  /** Python's s <= t on str: lexicographic by code point. */
  predicate LexLe(s: string, t: string)
  {
    s == [] || (t != [] && (s[0] < t[0] || (s[0] == t[0] && LexLe(s[1..], t[1..]))))
  }

  lemma {:induction false} LexLeTotal(s: string, t: string)
    ensures LexLe(s, t) || LexLe(t, s)
  {
    if s != [] && t != [] && s[0] == t[0] {
      LexLeTotal(s[1..], t[1..]);
    }
  }

  lemma {:induction false} LexLeAntisymmetric(s: string, t: string)
    requires LexLe(s, t) && LexLe(t, s)
    ensures s == t
  {
    if s != [] && t != [] {
      LexLeAntisymmetric(s[1..], t[1..]);
      assert s == [s[0]] + s[1..] && t == [t[0]] + t[1..];
    }
  }

  lemma {:induction false} LexLeTransitive(s: string, t: string, u: string)
    requires LexLe(s, t) && LexLe(t, u)
    ensures LexLe(s, u)
  {
    if s != [] && t != [] && u != [] && s[0] == t[0] == u[0] {
      LexLeTransitive(s[1..], t[1..], u[1..]);
    }
  }
}
