/** The tabular data model: a DataFrame as an ordered list of column labels and a list of
    rows, each row holding one cell per column. Labels are positional, so a table may carry
    the same name twice, as a DataFrame may. The loaded JSON records and the
    `pd.DataFrame(records)` construction of scripts/build_historical_dataset.py (lines 33
    and 37) are modelled here. */
module Frame {
  import opened Outcomes

  /** A cell: a missing value (None/NaN/NaT), a text value, or a timestamp produced by
      the datetime conversion (an instant on an abstract integer time line). */
  datatype Cell = Null | Text(s: string) | Time(instant: int)

  type Row = seq<Cell>

  datatype Table = Table(columns: seq<string>, rows: seq<Row>)

  /** Every row has exactly one cell per column. */
  predicate WellFormed(t: Table) {
    forall i :: 0 <= i < |t.rows| ==> |t.rows[i]| == |t.columns|
  }

  predicate Distinct<T(==)>(s: seq<T>) {
    forall i, j :: 0 <= i < j < |s| ==> s[i] != s[j]
  }

  /** Position of the first occurrence of `x` in `s`. */
  function IndexOf<T(==)>(s: seq<T>, x: T): (r: Option<nat>)
    ensures r.None? <==> x !in s
    ensures r.Some? ==> r.value < |s| && s[r.value] == x && x !in s[..r.value]
  {
    if s == [] then None
    else if s[0] == x then Some(0)
    else
      match IndexOf(s[1..], x)
      case None => None
      case Some(k) =>
        assert s[..k + 1] == [s[0]] + s[1..][..k];
        Some(k + 1)
  }

  /** Where a label sits among the columns: nowhere, at exactly one position, or at
      several (a selection by that label then yields more than one column). */
  datatype Position = Absent | At(index: nat) | Repeated

  function PositionOf(columns: seq<string>, name: string): (p: Position)
    ensures p.Absent? <==> name !in columns
    ensures p.At? <==> multiset(columns)[name] == 1
    ensures p.At? ==> p.index < |columns| && columns[p.index] == name
    ensures p.At? ==> IndexOf(columns, name) == Some(p.index)
  {
    match IndexOf(columns, name)
    case None => Absent
    case Some(j) =>
      assert columns == columns[..j] + [name] + columns[j + 1..];
      assert multiset(columns)[name] == 1 + multiset(columns[j + 1..])[name];
      if name in columns[j + 1..] then Repeated else At(j)
  }

  /** The cell a name selects in row `i`: the first column carrying that name, or Null
      when the table has no such column. */
  function CellAt(t: Table, i: nat, name: string): Cell
    requires WellFormed(t) && i < |t.rows|
  {
    match IndexOf(t.columns, name)
    case None => Null
    case Some(j) => t.rows[i][j]
  }

  /** One loaded JSON object: its (name, value) pairs in document order. */
  type Record = seq<(string, Cell)>

  function Labels(rec: Record): (ls: seq<string>)
    ensures |ls| == |rec|
    ensures forall i :: 0 <= i < |rec| ==> ls[i] == rec[i].0
  {
    seq(|rec|, i requires 0 <= i < |rec| => rec[i].0)
  }

  /** The value a record holds under a name; Null when the record lacks the name. */
  function Lookup(rec: Record, name: string): Cell {
    match IndexOf(Labels(rec), name)
    case None => Null
    case Some(i) => rec[i].1
  }

  /** `acc` followed by the labels of `ls` it does not hold yet, in first-seen order. */
  function AppendNew(acc: seq<string>, ls: seq<string>): (r: seq<string>)
    ensures acc <= r
    ensures Distinct(acc) ==> Distinct(r)
    ensures forall l :: l in r <==> l in acc || l in ls
    decreases ls
  {
    if ls == [] then acc
    else
      var acc' := if ls[0] in acc then acc else acc + [ls[0]];
      var r := AppendNew(acc', ls[1..]);
      assert forall l :: l in ls <==> l == ls[0] || l in ls[1..] by {
        assert ls == [ls[0]] + ls[1..];
      }
      r
  }

  /** True when some record among `records` carries `name`. */
  predicate SomeRecordHas(records: seq<Record>, name: string) {
    exists i :: 0 <= i < |records| && name in Labels(records[i])
  }

  function LabelsFrom(acc: seq<string>, records: seq<Record>): (r: seq<string>)
    ensures acc <= r
    ensures Distinct(acc) ==> Distinct(r)
    ensures forall l :: l in r <==> l in acc || SomeRecordHas(records, l)
    decreases records
  {
    if records == [] then acc
    else
      var r := LabelsFrom(AppendNew(acc, Labels(records[0])), records[1..]);
      assert forall l :: SomeRecordHas(records, l) <==>
          l in Labels(records[0]) || SomeRecordHas(records[1..], l) by {
        forall l
          ensures SomeRecordHas(records, l) ==> l in Labels(records[0]) || SomeRecordHas(records[1..], l)
        {
          if SomeRecordHas(records, l) {
            var i :| 0 <= i < |records| && l in Labels(records[i]);
            if i > 0 {
              assert records[1..][i - 1] == records[i];
            }
          }
        }
        forall l | SomeRecordHas(records[1..], l)
          ensures SomeRecordHas(records, l)
        {
          var i :| 0 <= i < |records[1..]| && l in Labels(records[1..][i]);
          assert records[i + 1] == records[1..][i];
        }
      }
      r
  }

  /** `pd.DataFrame(records)`: one column per name any record carries, in first-seen
      order, and one row per record; a record without a name gets a Null cell there. */
  function FromRecords(records: seq<Record>): (t: Table)
    ensures WellFormed(t)
    ensures Distinct(t.columns)
    ensures |t.rows| == |records|
    ensures forall l :: l in t.columns <==> SomeRecordHas(records, l)
  {
    var columns := LabelsFrom([], records);
    Table(columns,
          seq(|records|, i requires 0 <= i < |records| =>
            seq(|columns|, j requires 0 <= j < |columns| => Lookup(records[i], columns[j]))))
  }

  /** Reading a record back out of the table by name gives exactly what the record held:
      the construction loses no value and invents none. */
  lemma FromRecordsRoundTrip(records: seq<Record>, i: nat, name: string)
    requires i < |records|
    ensures CellAt(FromRecords(records), i, name) == Lookup(records[i], name)
  {
  }
}
