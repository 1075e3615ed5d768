/** The datetime conversion of scripts/build_historical_dataset.py, lines 45 and 47: each
    of the listed date columns is replaced by the timestamps its values denote.
    The library's date grammar is not modelled: the parser is a parameter, applied to
    each value on its own. */
module Datetimes {
  import opened Outcomes
  import opened Frame

  /** What the date parser makes of one text value: an instant, the library's
      "not a time" (as for an empty string), or a value it rejects. */
  datatype Parsed = Instant(t: int) | NotATime | Unparseable

  datatype DateError =
    | DateColumnMissing(name: string) // selecting an absent column (KeyError)
    | DateUnparseable(name: string)   // a value of that column the parser rejects

  /** A text cell the parser rejects. */
  predicate Rejected(c: Cell, parse: string -> Parsed) {
    c.Text? && parse(c.s).Unparseable?
  }

  /** `pd.to_datetime` on one accepted cell: text becomes an instant or a missing value;
      missing values and instants pass through. */
  function ConvertCell(c: Cell, parse: string -> Parsed): (r: Cell)
    requires !Rejected(c, parse)
    ensures r.Null? || r.Time?
    ensures c.Time? ==> r == c
    ensures c.Null? ==> r.Null?
  {
    if c.Text? then
      var p := parse(c.s);
      if p.Instant? then Time(p.t) else Null
    else c
  }

  /** The first listed name the table has no column for. */
  function FirstMissing(names: seq<string>, columns: seq<string>): (r: Option<string>)
    ensures r.None? <==> forall n :: n in names ==> n in columns
    ensures r.Some? ==> r.value in names && r.value !in columns
  {
    if names == [] then None
    else if names[0] !in columns then Some(names[0])
    else FirstMissing(names[1..], columns)
  }

  /** Some value of a column labelled `name` is rejected by the parser. */
  predicate ColumnRejected(t: Table, name: string, parse: string -> Parsed)
    requires WellFormed(t)
  {
    exists i, j :: 0 <= i < |t.rows| && 0 <= j < |t.columns| && t.columns[j] == name &&
      Rejected(t.rows[i][j], parse)
  }

  /** The first listed name whose column holds a value the parser rejects. */
  function FirstRejected(t: Table, names: seq<string>, parse: string -> Parsed): (r: Option<string>)
    requires WellFormed(t)
    ensures r.None? <==> forall n :: n in names ==> !ColumnRejected(t, n, parse)
    ensures r.Some? ==> r.value in names && ColumnRejected(t, r.value, parse)
  {
    if names == [] then None
    else if ColumnRejected(t, names[0], parse) then Some(names[0])
    else FirstRejected(t, names[1..], parse)
  }

  /** The conversion: every listed name must label a column, and no value of those
      columns may be rejected; then their cells are converted and all others kept. */
  function ToDatetime(t: Table, names: seq<string>, parse: string -> Parsed): (r: Result<Table, DateError>)
    requires WellFormed(t)
    ensures r.Failure? <==>
      (exists n :: n in names && n !in t.columns) ||
      (exists i, j :: 0 <= i < |t.rows| && 0 <= j < |t.columns| && t.columns[j] in names &&
        Rejected(t.rows[i][j], parse))
    ensures r.Success? ==>
      && WellFormed(r.value)
      && r.value.columns == t.columns
      && |r.value.rows| == |t.rows|
      && forall i, j :: 0 <= i < |t.rows| && 0 <= j < |t.columns| ==>
        var before, after := t.rows[i][j], r.value.rows[i][j];
        && (t.columns[j] !in names ==> after == before)
        && (t.columns[j] in names ==>
              && (before.Null? ==> after.Null?)
              && (before.Time? ==> after == before)
              && (before.Text? && parse(before.s).Instant? ==> after == Time(parse(before.s).t))
              && (before.Text? && parse(before.s).NotATime? ==> after.Null?))
  {
    match FirstMissing(names, t.columns)
    case Some(n) => Failure(DateColumnMissing(n))
    case None =>
      match FirstRejected(t, names, parse)
      case Some(n) =>
        assert ColumnRejected(t, n, parse);
        Failure(DateUnparseable(n))
      case None =>
        assert forall i, j :: 0 <= i < |t.rows| && 0 <= j < |t.columns| && t.columns[j] in names ==>
          !Rejected(t.rows[i][j], parse) by {
          forall i, j | 0 <= i < |t.rows| && 0 <= j < |t.columns| && t.columns[j] in names
            ensures !Rejected(t.rows[i][j], parse)
          {
            assert !ColumnRejected(t, t.columns[j], parse);
          }
        }
        Success(Table(t.columns, seq(|t.rows|, i requires 0 <= i < |t.rows| =>
          seq(|t.columns|, j requires 0 <= j < |t.columns| =>
            if t.columns[j] in names then ConvertCell(t.rows[i][j], parse) else t.rows[i][j]))))
  }

  /** After a successful conversion the listed columns hold only instants and missing
      values, so converting again succeeds and changes nothing. */
  lemma ToDatetimeIdempotent(t: Table, names: seq<string>, parse: string -> Parsed)
    requires WellFormed(t)
    requires ToDatetime(t, names, parse).Success?
    ensures ToDatetime(ToDatetime(t, names, parse).value, names, parse) == ToDatetime(t, names, parse)
  {
    var once := ToDatetime(t, names, parse).value;
    forall i, j | 0 <= i < |once.rows| && 0 <= j < |once.columns| && once.columns[j] in names
      ensures once.rows[i][j].Null? || once.rows[i][j].Time?
    {
    }
    var twice := ToDatetime(once, names, parse);
    assert twice.Success?;
    forall i | 0 <= i < |once.rows|
      ensures twice.value.rows[i] == once.rows[i]
    {
      assert forall j :: 0 <= j < |once.columns| ==> twice.value.rows[i][j] == once.rows[i][j];
    }
    assert twice.value.rows == once.rows;
  }
}
