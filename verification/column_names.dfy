/** The column-name normalizer of scripts/build_historical_dataset.py (lines 34 and 38):
    every space becomes `_`, then every `:` is removed, then the name is lower-cased. */
module ColumnNames {
  import opened Outcomes
  import opened Chars
  import opened Frame

  /** First rewrite: each space becomes an underscore, position for position. */
  function ReplaceSpaces(s: string): (r: string)
    ensures |r| == |s|
    ensures ' ' !in r
    ensures forall i :: 0 <= i < |s| && s[i] != ' ' ==> r[i] == s[i]
  {
    if s == [] then [] else [if s[0] == ' ' then '_' else s[0]] + ReplaceSpaces(s[1..])
  }

  /** Second rewrite: every colon is dropped and nothing else is. */
  function RemoveColons(s: string): (r: string)
    ensures ':' !in r
    ensures multiset(r) == multiset(s)[':' := 0]
  {
    if s == [] then []
    else
      assert s == [s[0]] + s[1..];
      (if s[0] == ':' then [] else [s[0]]) + RemoveColons(s[1..])
  }

  /** Third rewrite: ASCII lower-casing, position for position. */
  function Lower(s: string): (r: string)
    ensures |r| == |s|
    ensures forall i :: 0 <= i < |s| ==> r[i] == ToLower(s[i])
  {
    if s == [] then [] else [ToLower(s[0])] + Lower(s[1..])
  }

  /** A name the normalizer leaves alone: no space, no colon, no upper-case ASCII letter. */
  predicate IsNormalized(s: string) {
    forall i :: 0 <= i < |s| ==> s[i] != ' ' && s[i] != ':' && !IsUpper(s[i])
  }

  /** The name rewrite: spaces to underscores, then colons dropped, then lower case. */
  function Normalize(s: string): string {
    Lower(RemoveColons(ReplaceSpaces(s)))
  }

  /** A normalized name has no space, no colon and no upper-case ASCII letter, and is
      shorter than the original by exactly its number of colons. */
  lemma NormalizeShape(s: string)
    ensures ' ' !in Normalize(s) && ':' !in Normalize(s)
    ensures forall i :: 0 <= i < |Normalize(s)| ==> !IsUpper(Normalize(s)[i])
    ensures |Normalize(s)| == |s| - multiset(s)[':']
    ensures IsNormalized(Normalize(s))
  {
    var spaced := ReplaceSpaces(s);
    var stripped := RemoveColons(spaced);
    ColonCountKept(s);
    assert |stripped| == |multiset(stripped)| == |multiset(spaced)| - multiset(spaced)[':'];
    var r := Lower(stripped);
    forall i | 0 <= i < |r|
      ensures r[i] != ' ' && r[i] != ':'
    {
      assert stripped[i] in multiset(stripped);
      assert stripped[i] in spaced;
    }
  }

  /** The space rewrite leaves the colons where they were. */
  lemma {:induction false} ColonCountKept(s: string)
    ensures multiset(ReplaceSpaces(s))[':'] == multiset(s)[':']
  {
    if s != [] {
      ColonCountKept(s[1..]);
      assert s == [s[0]] + s[1..];
    }
  }

  /** Each rewrite is the identity on a name it has nothing to do to. */
  lemma ReplaceSpacesIdentity(s: string)
    requires ' ' !in s
    ensures ReplaceSpaces(s) == s
  {
  }

  lemma {:induction false} RemoveColonsIdentity(s: string)
    requires ':' !in s
    ensures RemoveColons(s) == s
  {
    if s != [] {
      RemoveColonsIdentity(s[1..]);
    }
  }

  /** A name is a fixed point of the normalizer exactly when it is already normalized. */
  lemma NormalizeFixpoint(s: string)
    ensures Normalize(s) == s <==> IsNormalized(s)
  {
    NormalizeShape(s);
    if IsNormalized(s) {
      ReplaceSpacesIdentity(s);
      RemoveColonsIdentity(s);
      assert Lower(s) == s;
    }
  }

  /** Normalizing an already-normalized name returns it unchanged. */
  lemma NormalizeIdempotent(s: string)
    ensures Normalize(Normalize(s)) == Normalize(s)
  {
    var n := Normalize(s);
    NormalizeShape(s);
    NormalizeFixpoint(n);
  }

  /** The normalizer acting on one character: a colon vanishes, a space becomes `_`,
      everything else is lower-cased. */
  function NormalizeChar(c: char): string {
    if c == ':' then [] else if c == ' ' then ['_'] else [ToLower(c)]
  }

  /** The normalizer works character by character: it distributes over concatenation
      and on a single character it is NormalizeChar. Together these determine it. */
  lemma {:induction false} NormalizeConcat(a: string, b: string)
    ensures Normalize(a + b) == Normalize(a) + Normalize(b)
  {
    ReplaceSpacesConcat(a, b);
    RemoveColonsConcat(ReplaceSpaces(a), ReplaceSpaces(b));
    LowerConcat(RemoveColons(ReplaceSpaces(a)), RemoveColons(ReplaceSpaces(b)));
  }

  lemma NormalizeSingle(c: char)
    ensures Normalize([c]) == NormalizeChar(c)
  {
    var spaced := [if c == ' ' then '_' else c];
    assert ReplaceSpaces([c]) == spaced;
    assert RemoveColons(spaced) == if c == ':' then [] else spaced;
  }

  lemma {:induction false} ReplaceSpacesConcat(a: string, b: string)
    ensures ReplaceSpaces(a + b) == ReplaceSpaces(a) + ReplaceSpaces(b)
  {
    if a != [] {
      assert (a + b)[1..] == a[1..] + b;
      ReplaceSpacesConcat(a[1..], b);
    } else {
      assert a + b == b;
    }
  }

  lemma {:induction false} RemoveColonsConcat(a: string, b: string)
    ensures RemoveColons(a + b) == RemoveColons(a) + RemoveColons(b)
  {
    if a != [] {
      assert (a + b)[1..] == a[1..] + b;
      RemoveColonsConcat(a[1..], b);
    } else {
      assert a + b == b;
    }
  }

  /** Lower distributes over concatenation too; Normalize's last step. */
  lemma LowerConcat(a: string, b: string)
    ensures Lower(a + b) == Lower(a) + Lower(b)
  {
  }

  /** Every column label is replaced by its normalized form; the label list keeps its
      length and order, and no cell is touched. */
  function NormalizeColumns(t: Table): (r: Table)
    ensures |r.columns| == |t.columns|
    ensures forall j :: 0 <= j < |t.columns| ==> r.columns[j] == Normalize(t.columns[j])
    ensures forall j :: 0 <= j < |r.columns| ==> IsNormalized(r.columns[j])
    ensures r.rows == t.rows
    ensures WellFormed(t) ==> WellFormed(r)
  {
    var columns := seq(|t.columns|, j requires 0 <= j < |t.columns| => Normalize(t.columns[j]));
    assert forall j :: 0 <= j < |columns| ==> IsNormalized(columns[j]) by {
      forall j | 0 <= j < |columns|
        ensures IsNormalized(columns[j])
      {
        NormalizeShape(t.columns[j]);
      }
    }
    Table(columns, t.rows)
  }

  /** Renaming the columns a second time changes nothing. */
  lemma NormalizeColumnsIdempotent(t: Table)
    ensures NormalizeColumns(NormalizeColumns(t)) == NormalizeColumns(t)
  {
    var r := NormalizeColumns(t);
    forall j | 0 <= j < |r.columns|
      ensures Normalize(r.columns[j]) == r.columns[j]
    {
      NormalizeIdempotent(t.columns[j]);
    }
  }

  /** No two different labels of `columns` normalize to the same name. */
  predicate NoCollision(columns: seq<string>) {
    forall j, k ::
      0 <= j < |columns| && 0 <= k < |columns| && Normalize(columns[j]) == Normalize(columns[k])
      ==> columns[j] == columns[k]
  }

  /** When no two labels collide, every cell is found under the normalized name of its
      old label: the rename moves no value to another column. */
  lemma NormalizeColumnsKeepsCells(t: Table, i: nat, name: string)
    requires WellFormed(t) && i < |t.rows|
    requires NoCollision(t.columns)
    requires name in t.columns
    ensures CellAt(NormalizeColumns(t), i, Normalize(name)) == CellAt(t, i, name)
  {
  }
}
