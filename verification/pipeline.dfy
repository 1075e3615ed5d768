/** The whole transform of scripts/build_historical_dataset.py, lines 33-51: build a table
    from each loaded record list, normalize both sets of column names, join them one to
    one on `url`, strip every text cell, convert the three date columns, and keep the
    sold rows. The result is what the script hands to the upload. */
module Pipeline {
  import opened Outcomes
  import opened Frame
  import opened ColumnNames
  import opened Merge
  import opened Whitespace
  import opened Datetimes
  import opened SoldFilter

  const JoinKey := "url"
  const DatetimeColumns := ["original_post_date", "last_repost_date", "datetime_scraped"]

  datatype BuildError =
    | JoinFailed(join: JoinError)
    | DatetimeFailed(date: DateError)
    | FilterFailed(filter: FilterError)

  /** The backfill or restrictions table as the script holds it before the join. */
  function Prepared(records: seq<Record>): (t: Table)
    ensures WellFormed(t)
    ensures |t.rows| == |records|
    ensures forall j :: 0 <= j < |t.columns| ==> IsNormalized(t.columns[j])
  {
    NormalizeColumns(FromRecords(records))
  }

  function BuildHistorical(backfill: seq<Record>, restrictions: seq<Record>, parse: string -> Parsed)
    : (r: Result<Table, BuildError>)
    ensures r.Success? ==>
      && WellFormed(r.value)
      && (forall j :: 0 <= j < |r.value.columns| ==> IsNormalized(r.value.columns[j]))
      && |r.value.rows| <= |backfill|
      && |r.value.rows| <= |restrictions|
      && forall i :: 0 <= i < |r.value.rows| ==>
        var status := CellAt(r.value, i, StatusColumn);
        status.Text? && HasSubstring(status.s, Marker)
  {
    var left := Prepared(backfill);
    var right := Prepared(restrictions);
    match InnerJoin(left, right, JoinKey)
    case Failure(e) => Failure(JoinFailed(e))
    case Success(joined) =>
      var stripped := StripTable(joined);
      match ToDatetime(stripped, DatetimeColumns, parse)
      case Failure(e) => Failure(DatetimeFailed(e))
      case Success(dated) =>
        match FilterSold(dated)
        case Failure(e) => Failure(FilterFailed(e))
        case Success(sold) =>
          BuildBounds(left, right, joined, sold);
          JoinedColumnsNormalized(left, right, joined);
          FilterSoldKeepsOnlySold(dated);
          Success(sold)
  }

  lemma BuildBounds(left: Table, right: Table, joined: Table, sold: Table)
    requires WellFormed(left) && WellFormed(right)
    requires InnerJoin(left, right, JoinKey) == Success(joined)
    requires WellFormed(sold)
    requires |sold.rows| <= |joined.rows|
    ensures |sold.rows| <= |left.rows| && |sold.rows| <= |right.rows|
  {
    InnerJoinOneRowPerSharedKey(left, right, JoinKey);
    var lkeys := KeyValues(left, JoinKey);
    var rkeys := KeyValues(right, JoinKey);
    DistinctCardinality(lkeys);
    DistinctCardinality(rkeys);
    SubsetCardinality(Elems(lkeys) * Elems(rkeys), Elems(lkeys));
    SubsetCardinality(Elems(lkeys) * Elems(rkeys), Elems(rkeys));
  }

  lemma JoinedColumnsNormalized(left: Table, right: Table, joined: Table)
    requires WellFormed(left) && WellFormed(right)
    requires forall j :: 0 <= j < |left.columns| ==> IsNormalized(left.columns[j])
    requires forall j :: 0 <= j < |right.columns| ==> IsNormalized(right.columns[j])
    requires InnerJoin(left, right, JoinKey) == Success(joined)
    ensures forall j :: 0 <= j < |joined.columns| ==> IsNormalized(joined.columns[j])
  {
  }

  /** A repeated `url` in either input stops the run at the join. */
  lemma BuildRejectsRepeatedUrl(backfill: seq<Record>, restrictions: seq<Record>, parse: string -> Parsed)
    requires PositionOf(Prepared(backfill).columns, JoinKey).At?
    requires PositionOf(Prepared(restrictions).columns, JoinKey).At?
    requires !Distinct(KeyValues(Prepared(backfill), JoinKey)) || !Distinct(KeyValues(Prepared(restrictions), JoinKey))
    ensures BuildHistorical(backfill, restrictions, parse).Failure?
    ensures BuildHistorical(backfill, restrictions, parse).error.JoinFailed?
    ensures BuildHistorical(backfill, restrictions, parse).error.join.NotOneToOne?
  {
  }
}
