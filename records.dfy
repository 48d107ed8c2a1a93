/**
 * Contact records and their rows in the phonebook's CSV file.
 *
 * A record is a dictionary from field name to string.  The file is a
 * sequence of rows, each a sequence of string values; its first row is the
 * header naming the fields.  Writing a record (`csv.DictWriter`) lays its
 * values out in field order; reading a row back (`csv.DictReader`) zips the
 * header with the row's values.  Quoting and escaping are not modelled: a
 * row is a sequence of values, not bytes.
 */
module Records {

  type Record = map<string, string>
  type Row = seq<string>

  /** The fixed field order shared by every record and by the file header. */
  const FieldNames: seq<string> :=
    ["ID", "Имя", "Отчество", "Фамилия", "Организация", "Рабочий телефон", "Личный телефон"]

  const FieldSet: set<string> := set f | f in FieldNames

  /** Number of fields in a record and of values in a row. */
  const FieldCount := 7

  predicate Distinct(s: seq<string>) {
    forall i, j | 0 <= i < j < |s| :: s[i] != s[j]
  }

  lemma FieldNamesShape()
    ensures |FieldNames| == FieldCount
    ensures Distinct(FieldNames)
  {
  }

  /** A record has exactly the fields of the header. */
  predicate WellFormed(r: Record) {
    r.Keys == FieldSet
  }

  predicate AllWellFormed(rs: seq<Record>) {
    forall i | 0 <= i < |rs| :: WellFormed(rs[i])
  }

  /**
   * The row `DictWriter.writerow` writes for a record: its values in field
   * order, with the empty string for a field the record lacks.
   */
  function RowOf(r: Record): (row: Row)
    ensures |row| == FieldCount
    ensures forall i | 0 <= i < FieldCount :: FieldNames[i] in r ==> row[i] == r[FieldNames[i]]
  {
    seq(FieldCount, i requires 0 <= i < FieldCount => if FieldNames[i] in r then r[FieldNames[i]] else "")
  }

  /** `dict(zip(keys, vals))`: a later key overrides an earlier equal one. */
  function Zip(keys: seq<string>, vals: seq<string>): (m: map<string, string>)
    requires |keys| == |vals|
    decreases |keys|
  {
    if keys == [] then map[]
    else Zip(keys[..|keys| - 1], vals[..|vals| - 1])[keys[|keys| - 1] := vals[|vals| - 1]]
  }

  lemma {:induction false} ZipAt(keys: seq<string>, vals: seq<string>)
    requires |keys| == |vals| && Distinct(keys)
    ensures Zip(keys, vals).Keys == set k | k in keys
    ensures forall i | 0 <= i < |keys| :: Zip(keys, vals)[keys[i]] == vals[i]
    decreases |keys|
  {
    if keys != [] {
      var n := |keys| - 1;
      ZipAt(keys[..n], vals[..n]);
      assert keys == keys[..n] + [keys[n]];
      forall i | 0 <= i < n
        ensures Zip(keys, vals)[keys[i]] == vals[i]
      {
        assert keys[..n][i] == keys[i];
      }
    }
  }

  /** The record `DictReader` yields for a data row under the canonical header. */
  function RecordOf(row: Row): Record
    requires |row| == FieldCount
  {
    Zip(FieldNames, row)
  }

  /** Writing a well-formed record and reading the row back gives the record again. */
  lemma RecordRoundTrip(r: Record)
    requires WellFormed(r)
    ensures RecordOf(RowOf(r)) == r
  {
    FieldNamesShape();
    var row := RowOf(r);
    ZipAt(FieldNames, row);
    var m := RecordOf(row);
    assert m.Keys == r.Keys;
    forall k | k in r
      ensures m[k] == r[k]
    {
      var i :| 0 <= i < FieldCount && FieldNames[i] == k;
    }
  }

  /** Reading a full row and writing the record back gives the row again. */
  lemma RowRoundTrip(row: Row)
    requires |row| == FieldCount
    ensures WellFormed(RecordOf(row))
    ensures RowOf(RecordOf(row)) == row
  {
    FieldNamesShape();
    ZipAt(FieldNames, row);
  }

  /** The data rows `DictWriter.writerows` writes for a list of records. */
  function Rows(rs: seq<Record>): (rows: seq<Row>)
    ensures |rows| == |rs|
    ensures forall i | 0 <= i < |rs| :: rows[i] == RowOf(rs[i])
  {
    seq(|rs|, i requires 0 <= i < |rs| => RowOf(rs[i]))
  }

  /** A file `DictReader` reads back under the canonical header: header first, then full rows. */
  predicate IsWellFormedFile(rows: seq<Row>) {
    |rows| >= 1 && rows[0] == FieldNames &&
    forall i | 1 <= i < |rows| :: |rows[i]| == FieldCount
  }

  /** `list(DictReader(f))`: one record per data row, in file order. */
  function LoadRecords(file: seq<Row>): (rs: seq<Record>)
    requires IsWellFormedFile(file)
    ensures |rs| == |file| - 1
    ensures forall i | 0 <= i < |rs| :: rs[i] == RecordOf(file[i + 1])
  {
    seq(|file| - 1, i requires 0 <= i < |file| - 1 => RecordOf(file[i + 1]))
  }

  /** The file holding the header and then every record's row, in order. */
  function FileOf(rs: seq<Record>): seq<Row> {
    [FieldNames] + Rows(rs)
  }

  /**
   * Writing well-formed records and loading the file yields exactly those
   * records, in order: the in-memory list and the file agree.
   */
  lemma LoadAfterWrite(rs: seq<Record>)
    requires AllWellFormed(rs)
    ensures IsWellFormedFile(FileOf(rs))
    ensures LoadRecords(FileOf(rs)) == rs
  {
    var file := FileOf(rs);
    assert file[0] == FieldNames;
    assert forall i | 0 <= i < |rs| :: file[i + 1] == RowOf(rs[i]);
    assert IsWellFormedFile(file);
    var loaded := LoadRecords(file);
    forall i | 0 <= i < |rs|
      ensures loaded[i] == rs[i]
    {
      var row := file[i + 1];
      assert loaded[i] == RecordOf(row);
      assert row == RowOf(rs[i]);
      RecordRoundTrip(rs[i]);
    }
  }

  /**
   * Loading a well-formed file and writing the records back reproduces the
   * file row for row, and every loaded record is well-formed.
   */
  lemma WriteAfterLoad(file: seq<Row>)
    requires IsWellFormedFile(file)
    ensures AllWellFormed(LoadRecords(file))
    ensures FileOf(LoadRecords(file)) == file
  {
    var rs := LoadRecords(file);
    forall i | 0 <= i < |rs|
      ensures WellFormed(rs[i]) && RowOf(rs[i]) == file[i + 1]
    {
      RowRoundTrip(file[i + 1]);
    }
    assert FileOf(rs) == file;
  }
}
