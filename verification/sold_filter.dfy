/** The status filter of scripts/build_historical_dataset.py, line 51: a row is kept when
    its `still_for_sale` value contains `Sold`. The pattern has no regular-expression
    metacharacter, so the match is a plain, case-sensitive substring search. */
module SoldFilter {
  import opened Frame
  import opened Whitespace
  import opened Chars
  import opened Outcomes

  const StatusColumn := "still_for_sale"
  const Marker := "Sold"

  /** Substring search: `pat` starts at the head of `s` or somewhere in its tail. */
  predicate HasSubstring(s: string, pat: string) {
    (|pat| <= |s| && s[..|pat|] == pat) || (s != [] && HasSubstring(s[1..], pat))
  }

  /** The reference meaning of containment: `pat` occupies some window of `s`. */
  ghost predicate OccursAt(s: string, pat: string, i: int) {
    0 <= i && i + |pat| <= |s| && s[i..i + |pat|] == pat
  }

  ghost predicate Occurs(s: string, pat: string) {
    exists i :: OccursAt(s, pat, i)
  }

  /** The search finds `pat` exactly when `pat` occurs in `s`. */
  lemma {:induction false} HasSubstringIff(s: string, pat: string)
    ensures HasSubstring(s, pat) <==> Occurs(s, pat)
  {
    if |pat| <= |s| && s[..|pat|] == pat {
      assert OccursAt(s, pat, 0);
    }
    if s != [] {
      HasSubstringIff(s[1..], pat);
      if Occurs(s[1..], pat) {
        var i :| OccursAt(s[1..], pat, i);
        assert s[i + 1..i + 1 + |pat|] == s[1..][i..i + |pat|];
        assert OccursAt(s, pat, i + 1);
      }
      if Occurs(s, pat) {
        var i :| OccursAt(s, pat, i);
        if i > 0 {
          assert s[1..][i - 1..i - 1 + |pat|] == s[i..i + |pat|];
          assert OccursAt(s[1..], pat, i - 1);
        } else {
          assert s[..|pat|] == pat;
        }
      }
    } else {
      if Occurs(s, pat) {
        var i :| OccursAt(s, pat, i);
        assert pat == [];
      }
      assert OccursAt(s, pat, 0) <== pat == [];
    }
  }

  /** "Not Sold" contains "Sold": the filter keeps it, since it tests containment, not
      equality. */
  lemma NotSoldIsKept()
    ensures HasSubstring("Not Sold", Marker)
    ensures !HasSubstring("sold", Marker)
  {
    assert "Not Sold"[4..][..4] == Marker;
    MarkerNeedsCapital("sold");
  }

  /** The match is case-sensitive: a status without a capital `S` never matches. */
  lemma {:induction false} MarkerNeedsCapital(s: string)
    requires 'S' !in s
    ensures !HasSubstring(s, Marker)
  {
    if |Marker| <= |s| {
      assert s[..|Marker|][0] == s[0];
    }
    if s != [] {
      MarkerNeedsCapital(s[1..]);
    }
  }

  /** An occurrence in an infix is an occurrence in the whole string. */
  lemma OccursInWhole(s: string, lo: nat, hi: nat, pat: string, i: int)
    requires lo <= hi <= |s|
    requires OccursAt(s[lo..hi], pat, i)
    ensures OccursAt(s, pat, lo + i)
  {
    forall k | 0 <= k < |pat|
      ensures s[lo + i..lo + i + |pat|][k] == pat[k]
    {
      assert s[lo..hi][i..i + |pat|][k] == pat[k];
    }
  }

  /** An occurrence of the marker lies inside the whitespace-free core of the string. */
  lemma MarkerInCore(s: string, lo: nat, hi: nat, i: int)
    requires IsCore(s, lo, hi)
    requires OccursAt(s, Marker, i)
    ensures OccursAt(s[lo..hi], Marker, i - lo)
  {
    assert s[i] == Marker[0] && s[i + 3] == Marker[3];
    assert !IsSpace(s[i]) && !IsSpace(s[i + 3]);
    assert lo <= i;
    assert i + 4 <= hi;
    forall k | 0 <= k < 4
      ensures s[lo..hi][i - lo..i - lo + 4][k] == Marker[k]
    {
      assert s[i..i + 4][k] == Marker[k];
    }
  }

  /** Stripping a status never changes whether it contains the marker: the marker
      neither starts nor ends with whitespace, so no occurrence lies in what is cut. */
  lemma StripKeepsMarker(s: string)
    ensures HasSubstring(Strip(s), Marker) <==> HasSubstring(s, Marker)
  {
    var r := Strip(s);
    var lo: nat, hi: nat :| IsCore(s, lo, hi) && r == s[lo..hi];
    HasSubstringIff(r, Marker);
    HasSubstringIff(s, Marker);
    if Occurs(r, Marker) {
      var i :| OccursAt(r, Marker, i);
      OccursInWhole(s, lo, hi, Marker, i);
    }
    if Occurs(s, Marker) {
      var i :| OccursAt(s, Marker, i);
      MarkerInCore(s, lo, hi, i);
    }
  }

  /** `a` is `b` with some elements left out and the rest in order. */
  predicate IsSubsequence<T(==)>(a: seq<T>, b: seq<T>)
    decreases b
  {
    a == [] || (b != [] && ((a[0] == b[0] && IsSubsequence(a[1..], b[1..])) || IsSubsequence(a, b[1..])))
  }

  /** The row's status, at column `k`, is text containing the marker. */
  predicate IsSold(row: Row, k: nat) {
    k < |row| && row[k].Text? && HasSubstring(row[k].s, Marker)
  }

  /** Rows whose status column `k` holds text. */
  predicate StatusIsText(rows: seq<Row>, k: nat) {
    forall i :: 0 <= i < |rows| ==> k < |rows[i]| && rows[i][k].Text?
  }

  /** Every occurrence of a sold row, and nothing else: a sold row occurs in `r` as often
      as in `rows`, an unsold one not at all. */
  ghost predicate KeepsEveryOccurrence(r: seq<Row>, rows: seq<Row>, k: nat) {
    forall x :: multiset(r)[x] == if IsSold(x, k) then multiset(rows)[x] else 0
  }

  /** The sold rows, in their original order. */
  function KeepSold(rows: seq<Row>, k: nat): (r: seq<Row>)
    requires StatusIsText(rows, k)
    ensures IsSubsequence(r, rows)
    ensures |r| <= |rows|
    ensures StatusIsText(r, k)
    ensures forall i :: 0 <= i < |r| ==> IsSold(r[i], k)
    ensures forall i :: 0 <= i < |rows| && IsSold(rows[i], k) ==> rows[i] in r
  {
    if rows == [] then []
    else
      var rest := KeepSold(rows[1..], k);
      assert forall i :: 1 <= i < |rows| ==> rows[i] == rows[1..][i - 1];
      if IsSold(rows[0], k) then [rows[0]] + rest else rest
  }

  /** KeepSold keeps every occurrence of each sold row and drops every unsold one, so
      identical sold rows all survive. */
  lemma {:induction false} KeepSoldOccurrences(rows: seq<Row>, k: nat)
    requires StatusIsText(rows, k)
    ensures KeepsEveryOccurrence(KeepSold(rows, k), rows, k)
  {
    if rows != [] {
      assert StatusIsText(rows[1..], k);
      KeepSoldOccurrences(rows[1..], k);
      OccurrencesStep(rows[0], rows[1..], KeepSold(rows[1..], k), k);
      assert rows == [rows[0]] + rows[1..];
    }
  }

  /** One step of KeepSold keeps the occurrence count right for the longer list. */
  lemma OccurrencesStep(head: Row, tail: seq<Row>, rest: seq<Row>, k: nat)
    requires KeepsEveryOccurrence(rest, tail, k)
    ensures KeepsEveryOccurrence(if IsSold(head, k) then [head] + rest else rest, [head] + tail, k)
  {
    var r := if IsSold(head, k) then [head] + rest else rest;
    forall x
      ensures multiset(r)[x] == if IsSold(x, k) then multiset([head] + tail)[x] else 0
    {
      assert multiset([head] + tail)[x] == multiset(tail)[x] + (if x == head then 1 else 0);
    }
  }

  /** A subsequence holds no element more often than the whole does. */
  lemma {:induction false} SubsequenceMultiset<T>(a: seq<T>, b: seq<T>)
    requires IsSubsequence(a, b)
    ensures multiset(a) <= multiset(b)
    decreases b
  {
    if a != [] {
      assert b == [b[0]] + b[1..];
      if a[0] == b[0] && IsSubsequence(a[1..], b[1..]) {
        SubsequenceMultiset(a[1..], b[1..]);
        assert a == [a[0]] + a[1..];
      } else {
        SubsequenceMultiset(a, b[1..]);
      }
    }
  }

  /** The filter's contract determines its result: an in-order selection of `rows` that
      keeps every occurrence of each sold row and no unsold row is KeepSold's. */
  lemma {:induction false} KeepSoldUnique(s: seq<Row>, rows: seq<Row>, k: nat)
    requires StatusIsText(rows, k)
    requires IsSubsequence(s, rows)
    requires KeepsEveryOccurrence(s, rows, k)
    ensures s == KeepSold(rows, k)
    decreases rows
  {
    if rows == [] {
    } else {
      var head := rows[0];
      var tail := rows[1..];
      assert rows == [head] + tail;
      assert StatusIsText(tail, k);
      if IsSold(head, k) {
        assert multiset(s)[head] == multiset(tail)[head] + 1;
        if !(s != [] && s[0] == head && IsSubsequence(s[1..], tail)) {
          SubsequenceMultiset(s, tail);
          assert false;
        }
        assert s == [head] + s[1..];
        forall x
          ensures multiset(s[1..])[x] == if IsSold(x, k) then multiset(tail)[x] else 0
        {
          assert multiset(s)[x] == multiset(s[1..])[x] + (if x == head then 1 else 0);
        }
        KeepSoldUnique(s[1..], tail, k);
      } else {
        if s != [] && s[0] == head {
          assert false;
        }
        forall x
          ensures multiset(s)[x] == if IsSold(x, k) then multiset(tail)[x] else 0
        {
          if IsSold(x, k) {
            assert x != head;
          }
        }
        KeepSoldUnique(s, tail, k);
      }
    }
  }

  /** Filtering a concatenation filters each part: together with the one-row case this
      pins KeepSold down completely. */
  lemma {:induction false} KeepSoldConcat(a: seq<Row>, b: seq<Row>, k: nat)
    requires StatusIsText(a, k) && StatusIsText(b, k)
    ensures StatusIsText(a + b, k)
    ensures KeepSold(a + b, k) == KeepSold(a, k) + KeepSold(b, k)
  {
    assert StatusIsText(a + b, k) by {
      forall i | 0 <= i < |a + b|
        ensures k < |(a + b)[i]| && (a + b)[i][k].Text?
      {
        if i >= |a| {
          assert (a + b)[i] == b[i - |a|];
        }
      }
    }
    if a == [] {
      assert a + b == b;
    } else {
      assert (a + b)[1..] == a[1..] + b;
      KeepSoldConcat(a[1..], b, k);
    }
  }

  lemma KeepSoldSingle(row: Row, k: nat)
    requires k < |row| && row[k].Text?
    ensures KeepSold([row], k) == if IsSold(row, k) then [row] else []
  {
  }

  datatype FilterError =
    | StatusColumnMissing   // the query names an absent column
    | StatusColumnRepeated  // the label selects several columns, which have no `.str`
    | StatusNotText         // a missing status makes the mask non-boolean (ValueError)

  /** The filter. The status label must name exactly one column, and every status must be
      text; then the table keeps its columns and exactly its sold rows, in order. */
  function FilterSold(t: Table): (r: Result<Table, FilterError>)
    requires WellFormed(t)
    ensures r == Failure(StatusColumnMissing) <==> StatusColumn !in t.columns
    ensures r.Success? <==>
      PositionOf(t.columns, StatusColumn).At? &&
      StatusIsText(t.rows, PositionOf(t.columns, StatusColumn).index)
    ensures r.Success? ==>
      var k := PositionOf(t.columns, StatusColumn).index;
      && WellFormed(r.value)
      && r.value.columns == t.columns
      && IsSubsequence(r.value.rows, t.rows)
      && |r.value.rows| <= |t.rows|
      && (forall i :: 0 <= i < |t.rows| ==> (t.rows[i] in r.value.rows <==> IsSold(t.rows[i], k)))
      && KeepsEveryOccurrence(r.value.rows, t.rows, k)
  {
    match PositionOf(t.columns, StatusColumn)
    case Absent => Failure(StatusColumnMissing)
    case Repeated => Failure(StatusColumnRepeated)
    case At(k) =>
      if !StatusIsText(t.rows, k) then Failure(StatusNotText)
      else
        var kept := KeepSold(t.rows, k);
        KeepSoldOccurrences(t.rows, k);
        SubsequenceMembers(kept, t.rows);
        assert forall i :: 0 <= i < |kept| ==> kept[i] in t.rows;
        Success(Table(t.columns, kept))
  }

  /** Every element of a subsequence is an element of the whole. */
  lemma {:induction false} SubsequenceMembers<T>(a: seq<T>, b: seq<T>)
    requires IsSubsequence(a, b)
    ensures forall x :: x in a ==> x in b
    decreases b
  {
    if a != [] {
      if a[0] == b[0] && IsSubsequence(a[1..], b[1..]) {
        SubsequenceMembers(a[1..], b[1..]);
        assert forall x :: x in a ==> x == a[0] || x in a[1..];
      } else {
        SubsequenceMembers(a, b[1..]);
      }
    }
  }

  /** Every row the filter keeps has a text status containing the marker. */
  lemma FilterSoldKeepsOnlySold(t: Table)
    requires WellFormed(t)
    requires FilterSold(t).Success?
    ensures var kept := FilterSold(t).value;
      forall i :: 0 <= i < |kept.rows| ==>
        CellAt(kept, i, StatusColumn).Text? && HasSubstring(CellAt(kept, i, StatusColumn).s, Marker)
  {
  }
}
