/** The whitespace strip of scripts/build_historical_dataset.py, line 46: every column
    that holds text has leading and trailing whitespace removed from each of its values;
    other columns pass through unchanged. */
module Whitespace {
  import opened Chars
  import opened Frame

  /** Drops the leading whitespace: the result is the suffix of `s` that starts at its
      first non-space character. */
  function TrimStart(s: string): (r: string)
    ensures |r| <= |s| && r == s[|s| - |r|..]
    ensures forall i :: 0 <= i < |s| - |r| ==> IsSpace(s[i])
    ensures r == [] || !IsSpace(r[0])
  {
    if s != [] && IsSpace(s[0]) then TrimStart(s[1..]) else s
  }

  /** Drops the trailing whitespace: the result is the prefix of `s` that ends at its
      last non-space character. */
  function TrimEnd(s: string): (r: string)
    ensures |r| <= |s| && r == s[..|r|]
    ensures forall i :: |r| <= i < |s| ==> IsSpace(s[i])
    ensures r == [] || !IsSpace(r[|r| - 1])
  {
    if s != [] && IsSpace(s[|s| - 1]) then TrimEnd(s[..|s| - 1]) else s
  }

  /** Neither begins nor ends with whitespace. */
  predicate IsStripped(s: string) {
    s == [] || (!IsSpace(s[0]) && !IsSpace(s[|s| - 1]))
  }

  /** `s[lo..hi]` is `s` with only whitespace cut away at either end. */
  predicate IsCore(s: string, lo: nat, hi: nat) {
    && lo <= hi <= |s|
    && IsStripped(s[lo..hi])
    && (forall i :: 0 <= i < lo ==> IsSpace(s[i]))
    && (forall i :: hi <= i < |s| ==> IsSpace(s[i]))
  }

  /** `str.strip()`: the infix of `s` left after cutting whitespace from both ends. */
  function Strip(s: string): (r: string)
    ensures IsStripped(r)
    ensures |r| <= |s|
    ensures exists lo: nat, hi: nat :: IsCore(s, lo, hi) && r == s[lo..hi]
  {
    var u := TrimStart(s);
    var r := TrimEnd(u);
    var lo := |s| - |u|;
    assert r == s[lo..lo + |r|];
    assert forall i :: lo + |r| <= i < |s| ==> IsSpace(s[i]) by {
      forall i | lo + |r| <= i < |s|
        ensures IsSpace(s[i])
      {
        assert s[i] == u[i - lo];
      }
    }
    assert IsCore(s, lo, lo + |r|);
    r
  }

  /** The strip is the only such infix: any way of cutting only whitespace from the ends
      and leaving neither end on whitespace gives Strip's result. */
  lemma StripUnique(s: string, lo: nat, hi: nat)
    requires IsCore(s, lo, hi)
    ensures s[lo..hi] == Strip(s)
  {
  }

  /** A stripped string is left alone; in particular stripping twice is stripping once. */
  lemma StripFixpoint(s: string)
    ensures Strip(s) == s <==> IsStripped(s)
  {
  }

  lemma StripIdempotent(s: string)
    ensures Strip(Strip(s)) == Strip(s)
  {
  }

  /** `.str.strip()` on one cell: text is stripped, a missing value passes through. A
      timestamp lives in a datetime column, which the strip skips. */
  function StripCell(c: Cell): Cell {
    match c
    case Text(s) => Text(Strip(s))
    case _ => c
  }

  function StripRow(row: Row): (r: Row)
    ensures |r| == |row|
  {
    seq(|row|, j requires 0 <= j < |row| => StripCell(row[j]))
  }

  /** The strip applied to every text cell of the table. */
  function StripTable(t: Table): (r: Table)
    ensures r.columns == t.columns
    ensures |r.rows| == |t.rows|
    ensures WellFormed(t) ==> WellFormed(r)
    ensures forall i, j :: 0 <= i < |t.rows| && 0 <= j < |t.rows[i]| ==>
      && |r.rows[i]| == |t.rows[i]|
      && (r.rows[i][j].Null? <==> t.rows[i][j].Null?)
      && (r.rows[i][j].Text? <==> t.rows[i][j].Text?)
      && (t.rows[i][j].Text? ==> IsStripped(r.rows[i][j].s) && r.rows[i][j].s == Strip(t.rows[i][j].s))
      && (t.rows[i][j].Time? ==> r.rows[i][j] == t.rows[i][j])
  {
    Table(t.columns, seq(|t.rows|, i requires 0 <= i < |t.rows| => StripRow(t.rows[i])))
  }

  /** Stripping the table a second time changes nothing. */
  lemma StripTableIdempotent(t: Table)
    ensures StripTable(StripTable(t)) == StripTable(t)
  {
    var once := StripTable(t);
    var twice := StripTable(once);
    forall i | 0 <= i < |t.rows|
      ensures twice.rows[i] == once.rows[i]
    {
      forall j | 0 <= j < |t.rows[i]|
        ensures twice.rows[i][j] == once.rows[i][j]
      {
        if t.rows[i][j].Text? {
          StripIdempotent(t.rows[i][j].s);
        }
      }
    }
  }

  /** A padded status loses its padding and nothing else. */
  lemma PaddedStatus()
    ensures Strip(" Sold ") == "Sold"
  {
    var padded := " Sold ";
    assert padded[1..5] == "Sold";
    assert IsCore(padded, 1, 5);
    StripUnique(padded, 1, 5);
  }
}
