/** The join of scripts/build_historical_dataset.py, line 40: the backfill table and the
    restrictions table are joined on their key column, keeping only the keys both carry,
    and the join refuses to run unless every key value appears at most once on each side. */
module Merge {
  import opened Outcomes
  import opened Frame

  /** Which input broke the one-to-one promise, as the library's MergeError says. */
  datatype Side = LeftSide | RightSide | BothSides

  datatype JoinError =
    | KeyColumnMissing        // a table has no column with the key label (KeyError)
    | KeyColumnNotUnique      // a table has two columns with the key label (ValueError)
    | NotOneToOne(side: Side) // a key value repeats within a table (MergeError)

  /** `s` without its element at position `k`. */
  function DropAt<T>(s: seq<T>, k: nat): (r: seq<T>)
    requires k < |s|
    ensures |r| == |s| - 1
  {
    s[..k] + s[k + 1..]
  }

  /** Where the key label sits among `columns`; it must label exactly one column. */
  function KeyPosition(columns: seq<string>, key: string): (r: Result<nat, JoinError>)
    ensures r.Success? <==> multiset(columns)[key] == 1
    ensures r.Success? ==> r.value < |columns| && columns[r.value] == key
    ensures r == Failure(KeyColumnMissing) <==> key !in columns
    ensures r.Failure? ==> r.error.KeyColumnMissing? || r.error.KeyColumnNotUnique?
  {
    match PositionOf(columns, key)
    case Absent => Failure(KeyColumnMissing)
    case Repeated => Failure(KeyColumnNotUnique)
    case At(j) => Success(j)
  }

  /** The values of position `k` across `rows`. */
  function KeysOf(rows: seq<Row>, k: nat): (ks: seq<Cell>)
    requires forall i :: 0 <= i < |rows| ==> k < |rows[i]|
    ensures |ks| == |rows|
    ensures forall i :: 0 <= i < |rows| ==> ks[i] == rows[i][k]
  {
    seq(|rows|, i requires 0 <= i < |rows| => rows[i][k])
  }

  /** The key column of a table, provided the key labels exactly one of its columns. */
  function KeyValues(t: Table, key: string): (ks: seq<Cell>)
    requires WellFormed(t) && multiset(t.columns)[key] == 1
    ensures |ks| == |t.rows|
  {
    KeysOf(t.rows, KeyPosition(t.columns, key).value)
  }

  /** The output row for a matched pair: the left row, then the right row without its key. */
  function Combine(l: Row, r: Row, rk: nat): (o: Row)
    requires rk < |r|
    ensures |o| == |l| + |r| - 1
  {
    l + DropAt(r, rk)
  }

  /** Each left row, in order, combined with the right row whose key equals its key;
      a left row with no partner produces nothing. */
  function JoinRows(lrows: seq<Row>, lk: nat, rrows: seq<Row>, rk: nat): seq<Row>
    requires forall i :: 0 <= i < |lrows| ==> lk < |lrows[i]|
    requires forall j :: 0 <= j < |rrows| ==> rk < |rrows[j]|
  {
    if lrows == [] then []
    else
      var rest := JoinRows(lrows[1..], lk, rrows, rk);
      match IndexOf(KeysOf(rrows, rk), lrows[0][lk])
      case None => rest
      case Some(j) => [Combine(lrows[0], rrows[j], rk)] + rest
  }

  /** The merge. The key label must name exactly one column on each side, and the key
      values must be unique on each side; then each left row whose key the right table
      also holds yields one row carrying the left columns followed by the right columns
      other than the key. */
  function InnerJoin(left: Table, right: Table, key: string): (r: Result<Table, JoinError>)
    requires WellFormed(left) && WellFormed(right)
    ensures key !in left.columns || key !in right.columns ==> r.Failure?
    ensures r == Failure(KeyColumnMissing) ==> key !in left.columns || key !in right.columns
    ensures r.Success? ==> multiset(left.columns)[key] == 1 && multiset(right.columns)[key] == 1
    ensures multiset(left.columns)[key] == 1 && multiset(right.columns)[key] == 1 ==>
      var lkeys := KeyValues(left, key);
      var rkeys := KeyValues(right, key);
      && (r.Failure? <==> !Distinct(lkeys) || !Distinct(rkeys))
      && (r == Failure(NotOneToOne(LeftSide)) <==> !Distinct(lkeys) && Distinct(rkeys))
      && (r == Failure(NotOneToOne(RightSide)) <==> Distinct(lkeys) && !Distinct(rkeys))
      && (r == Failure(NotOneToOne(BothSides)) <==> !Distinct(lkeys) && !Distinct(rkeys))
    ensures r.Success? ==> WellFormed(r.value)
    ensures r.Success? ==>
      r.value.columns == left.columns + DropAt(right.columns, KeyPosition(right.columns, key).value)
  {
    match KeyPosition(left.columns, key)
    case Failure(e) => Failure(e)
    case Success(lk) =>
      match KeyPosition(right.columns, key)
      case Failure(e) => Failure(e)
      case Success(rk) =>
        var lkeys := KeysOf(left.rows, lk);
        var rkeys := KeysOf(right.rows, rk);
        if !Distinct(lkeys) && !Distinct(rkeys) then Failure(NotOneToOne(BothSides))
        else if !Distinct(lkeys) then Failure(NotOneToOne(LeftSide))
        else if !Distinct(rkeys) then Failure(NotOneToOne(RightSide))
        else
          var rows := JoinRows(left.rows, lk, right.rows, rk);
          JoinRowsShape(left.rows, lk, right.rows, rk, |left.columns|, |right.columns|);
          Success(Table(left.columns + DropAt(right.columns, rk), rows))
  }

  lemma {:induction false} JoinRowsShape(lrows: seq<Row>, lk: nat, rrows: seq<Row>, rk: nat, lw: nat, rw: nat)
    requires forall i :: 0 <= i < |lrows| ==> lk < |lrows[i]| == lw
    requires forall j :: 0 <= j < |rrows| ==> rk < |rrows[j]| == rw
    ensures forall o :: o in JoinRows(lrows, lk, rrows, rk) ==> |o| == lw + rw - 1
  {
    if lrows != [] {
      JoinRowsShape(lrows[1..], lk, rrows, rk, lw, rw);
    }
  }

  /** The elements of a sequence, as a set. */
  function Elems<T>(s: seq<T>): set<T> {
    set x | x in s
  }

  /** A subset is no larger than its superset. */
  lemma SubsetCardinality<T>(a: set<T>, b: set<T>)
    requires a <= b
    ensures |a| <= |b|
  {
    assert b == a + (b - a);
  }

  /** A duplicate-free sequence has as many elements as its set. */
  lemma {:induction false} DistinctCardinality<T>(s: seq<T>)
    requires Distinct(s)
    ensures |Elems(s)| == |s|
  {
    if s != [] {
      assert Distinct(s[1..]);
      DistinctCardinality(s[1..]);
      assert Elems(s) == {s[0]} + Elems(s[1..]);
      assert s[0] !in Elems(s[1..]);
    }
  }

  /** The elements of `keys` that also occur in `others`, in the order of `keys`. */
  function Matched(keys: seq<Cell>, others: seq<Cell>): (r: seq<Cell>)
    ensures forall x :: x in r <==> x in keys && x in others
    ensures Distinct(keys) ==> Distinct(r)
  {
    if keys == [] then []
    else
      var rest := Matched(keys[1..], others);
      assert forall x :: x in keys <==> x == keys[0] || x in keys[1..] by {
        assert keys == [keys[0]] + keys[1..];
      }
      assert Distinct(keys) ==> Distinct(keys[1..]) && keys[0] !in keys[1..];
      if keys[0] in others then [keys[0]] + rest else rest
  }

  /** Every joined row keeps its left row's key in place, and the joined key column is
      the left key column restricted to the keys the right table holds. */
  lemma {:induction false} JoinRowsKeys(lrows: seq<Row>, lk: nat, rrows: seq<Row>, rk: nat)
    requires forall i :: 0 <= i < |lrows| ==> lk < |lrows[i]|
    requires forall j :: 0 <= j < |rrows| ==> rk < |rrows[j]|
    ensures forall o :: o in JoinRows(lrows, lk, rrows, rk) ==> lk < |o|
    ensures KeysOf(JoinRows(lrows, lk, rrows, rk), lk) == Matched(KeysOf(lrows, lk), KeysOf(rrows, rk))
  {
    if lrows != [] {
      JoinRowsKeys(lrows[1..], lk, rrows, rk);
      assert KeysOf(lrows, lk)[1..] == KeysOf(lrows[1..], lk);
    }
  }

  /** Every joined row is a left row combined with a right row carrying the same key. */
  lemma {:induction false} JoinRowsFromPairs(lrows: seq<Row>, lk: nat, rrows: seq<Row>, rk: nat)
    requires forall i :: 0 <= i < |lrows| ==> lk < |lrows[i]|
    requires forall j :: 0 <= j < |rrows| ==> rk < |rrows[j]|
    ensures forall o :: o in JoinRows(lrows, lk, rrows, rk) ==>
      exists i, j :: 0 <= i < |lrows| && 0 <= j < |rrows| && lrows[i][lk] == rrows[j][rk] &&
        o == Combine(lrows[i], rrows[j], rk)
  {
    if lrows != [] {
      JoinRowsFromPairs(lrows[1..], lk, rrows, rk);
      forall o | o in JoinRows(lrows[1..], lk, rrows, rk)
        ensures exists i, j ::
          0 <= i < |lrows| && 0 <= j < |rrows| && lrows[i][lk] == rrows[j][rk] &&
          o == Combine(lrows[i], rrows[j], rk)
      {
        var i, j :| 0 <= i < |lrows[1..]| && 0 <= j < |rrows| && lrows[1..][i][lk] == rrows[j][rk] &&
          o == Combine(lrows[1..][i], rrows[j], rk);
        assert lrows[i + 1] == lrows[1..][i];
      }
    }
  }

  /** When the right keys are unique, every pair of rows with equal keys is joined. */
  lemma {:induction false} JoinRowsCoverPairs(lrows: seq<Row>, lk: nat, rrows: seq<Row>, rk: nat)
    requires forall i :: 0 <= i < |lrows| ==> lk < |lrows[i]|
    requires forall j :: 0 <= j < |rrows| ==> rk < |rrows[j]|
    requires Distinct(KeysOf(rrows, rk))
    ensures forall i, j :: 0 <= i < |lrows| && 0 <= j < |rrows| && lrows[i][lk] == rrows[j][rk] ==>
      Combine(lrows[i], rrows[j], rk) in JoinRows(lrows, lk, rrows, rk)
  {
    if lrows != [] {
      JoinRowsCoverPairs(lrows[1..], lk, rrows, rk);
      var rkeys := KeysOf(rrows, rk);
      forall i, j | 0 <= i < |lrows| && 0 <= j < |rrows| && lrows[i][lk] == rrows[j][rk]
        ensures Combine(lrows[i], rrows[j], rk) in JoinRows(lrows, lk, rrows, rk)
      {
        if i == 0 {
          var j' := IndexOf(rkeys, lrows[0][lk]).value;
          assert rkeys[j] == rkeys[j'];
        } else {
          assert lrows[i] == lrows[1..][i - 1];
        }
      }
    }
  }

  /** On success the joined table holds exactly one row per key value present in both
      inputs: its key column repeats no value, and its values are the shared ones. */
  lemma InnerJoinOneRowPerSharedKey(left: Table, right: Table, key: string)
    requires WellFormed(left) && WellFormed(right)
    requires InnerJoin(left, right, key).Success?
    ensures var t := InnerJoin(left, right, key).value;
      && multiset(t.columns)[key] == 1
      && Distinct(KeyValues(t, key))
      && Elems(KeyValues(t, key)) == Elems(KeyValues(left, key)) * Elems(KeyValues(right, key))
      && |t.rows| == |Elems(KeyValues(left, key)) * Elems(KeyValues(right, key))|
  {
    var t := InnerJoin(left, right, key).value;
    var lk := KeyPosition(left.columns, key).value;
    var rk := KeyPosition(right.columns, key).value;
    var dropped := DropAt(right.columns, rk);
    assert right.columns == right.columns[..rk] + [key] + right.columns[rk + 1..];
    assert multiset(dropped)[key] == 0;
    assert t.columns == left.columns + dropped;
    assert multiset(t.columns)[key] == 1;
    assert KeyPosition(t.columns, key).value == lk by {
      assert t.columns[lk] == key;
      assert left.columns == t.columns[..|left.columns|];
    }
    JoinRowsKeys(left.rows, lk, right.rows, rk);
    var shared := Matched(KeyValues(left, key), KeyValues(right, key));
    assert KeyValues(t, key) == shared;
    assert Elems(shared) == Elems(KeyValues(left, key)) * Elems(KeyValues(right, key));
    DistinctCardinality(shared);
  }

  /** On success every joined row is a left row followed by the non-key cells of the right
      row with the same key, and every such pair of rows is joined. */
  lemma InnerJoinCombinesMatchedRows(left: Table, right: Table, key: string)
    requires WellFormed(left) && WellFormed(right)
    requires InnerJoin(left, right, key).Success?
    ensures var t := InnerJoin(left, right, key).value;
      var lk := KeyPosition(left.columns, key).value;
      var rk := KeyPosition(right.columns, key).value;
      && (forall o :: o in t.rows ==>
            exists i, j :: 0 <= i < |left.rows| && 0 <= j < |right.rows| &&
              left.rows[i][lk] == right.rows[j][rk] && o == Combine(left.rows[i], right.rows[j], rk))
      && (forall i, j ::
            0 <= i < |left.rows| && 0 <= j < |right.rows| && left.rows[i][lk] == right.rows[j][rk]
            ==> Combine(left.rows[i], right.rows[j], rk) in t.rows)
  {
    var lk := KeyPosition(left.columns, key).value;
    var rk := KeyPosition(right.columns, key).value;
    JoinRowsFromPairs(left.rows, lk, right.rows, rk);
    JoinRowsCoverPairs(left.rows, lk, right.rows, rk);
  }

  /** Two tables whose key values are unique and share none join to an empty table. */
  lemma InnerJoinDisjointIsEmpty(left: Table, right: Table, key: string)
    requires WellFormed(left) && WellFormed(right)
    requires multiset(left.columns)[key] == 1 && multiset(right.columns)[key] == 1
    requires Distinct(KeyValues(left, key)) && Distinct(KeyValues(right, key))
    requires Elems(KeyValues(left, key)) !! Elems(KeyValues(right, key))
    ensures InnerJoin(left, right, key).Success?
    ensures InnerJoin(left, right, key).value.rows == []
  {
    InnerJoinOneRowPerSharedKey(left, right, key);
    assert Elems(KeyValues(left, key)) * Elems(KeyValues(right, key)) == {};
  }
}
