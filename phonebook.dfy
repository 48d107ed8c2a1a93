/**
 * The phonebook store: the in-memory list of records and the CSV file that
 * mirrors it.  The file is not read or written byte by byte here; it is the
 * ghost sequence of rows `fileRows`, header first, that the writes produce.
 */
module Store {
  import opened Wrappers
  import opened Records
  import opened Matching

  /**
   * The position Python's `lst[i]` addresses in a list of length `n`:
   * a negative index counts from the end.
   */
  function PythonIndex(i: int, n: nat): (j: nat)
    requires -(n as int) <= i < n
    ensures j < n
    ensures j % n == i % n
  {
    if i < 0 then i + n else i
  }

  /** Every non-blank criterion names a field of the record layout. */
  predicate OnFields(criteria: Criteria) {
    forall k | k in criteria && NonEmpty(criteria[k]) :: k in FieldSet
  }

  /** Well-formed records carry every field a criterion on the fields can name. */
  lemma StoreIsSearchable(rs: seq<Record>, criteria: Criteria, caseSensitive: bool, lower: string -> string)
    requires AllWellFormed(rs) && OnFields(criteria)
    ensures Searchable(rs, Normalise(criteria, caseSensitive, lower))
  {
  }

  class Phonebook {
    var records: seq<Record>
    ghost var fileRows: seq<Row>

    /** Every record is well-formed and the file holds exactly the header and the records' rows. */
    ghost predicate Valid()
      reads this
    {
      AllWellFormed(records) && fileRows == FileOf(records)
    }

    /**
     * Opens the store.  `disk` is the file's rows when the file exists, `None`
     * when it does not; in that case a header-only file is written.
     */
    constructor (disk: Option<seq<Row>>)
      requires disk.Some? ==> IsWellFormedFile(disk.value)
      ensures Valid()
      ensures disk.None? ==> records == [] && fileRows == [FieldNames]
      ensures disk.Some? ==> fileRows == disk.value && records == LoadRecords(disk.value)
    {
      if disk.None? {
        records := [];
        fileRows := [FieldNames];
      } else {
        records := LoadRecords(disk.value);
        fileRows := disk.value;
      }
      new;
      if disk.Some? {
        WriteAfterLoad(disk.value);
      }
    }

    /** Reloading the file gives back exactly the in-memory records, in order. */
    lemma FileAgrees()
      requires Valid()
      ensures IsWellFormedFile(fileRows)
      ensures LoadRecords(fileRows) == records
    {
      LoadAfterWrite(records);
    }

    /** Appends one record to the list and one row to the file. */
    method Add(record: Record)
      requires Valid() && WellFormed(record)
      modifies this
      ensures Valid()
      ensures records == old(records) + [record]
      ensures fileRows == old(fileRows) + [RowOf(record)]
    {
      records := records + [record];
      fileRows := fileRows + [RowOf(record)];
      assert Rows(records) == Rows(old(records)) + [RowOf(record)];
    }

    /**
     * Overwrites the record at `recordId - 1` under Python's list indexing
     * and rewrites the whole file.  An index outside the list raises
     * `IndexError` before anything changes (`ok` is false).
     */
    method Edit(recordId: int, record: Record) returns (ok: bool)
      requires Valid() && WellFormed(record)
      modifies this
      ensures Valid()
      ensures ok <==> -|old(records)| < recordId <= |old(records)|
      ensures ok ==> records == old(records)[PythonIndex(recordId - 1, |old(records)|) := record]
      ensures ok ==> fileRows == FileOf(records)
      ensures !ok ==> records == old(records) && fileRows == old(fileRows)
      ensures 1 <= recordId <= |old(records)| ==> records == old(records)[recordId - 1 := record]
      ensures recordId == 0 && old(records) != [] ==> records == old(records)[|old(records)| - 1 := record]
    {
      var n := |records|;
      if -n <= recordId - 1 < n {
        records := records[PythonIndex(recordId - 1, n) := record];
        fileRows := FileOf(records);
        ok := true;
      } else {
        ok := false;
      }
    }

    /**
     * The records matching every non-blank criterion, in store order:
     * by equality when `isStrict`, by substring otherwise, always against
     * the lower-cased record value.
     */
    method Search(criteria: Criteria, isStrict: bool, isCaseSensitive: bool, lower: string -> string)
      returns (result: seq<Record>)
      requires Valid() && OnFields(criteria)
      ensures Searchable(records, Normalise(criteria, isCaseSensitive, lower))
      ensures result == Filter(records, Normalise(criteria, isCaseSensitive, lower), isStrict, lower)
      ensures IsSubsequence(result, records)
      ensures forall r :: r in result <==> r in records && Matches(r, Normalise(criteria, isCaseSensitive, lower), isStrict, lower)
      ensures forall r :: multiset(result)[r] ==
                          if r in records && Matches(r, Normalise(criteria, isCaseSensitive, lower), isStrict, lower)
                          then multiset(records)[r] else 0
    {
      var active := Normalise(criteria, isCaseSensitive, lower);
      var rs := records;
      StoreIsSearchable(rs, criteria, isCaseSensitive, lower);
      result := [];
      for i := 0 to |rs|
        invariant Searchable(rs[..i], active)
        invariant result == Filter(rs[..i], active, isStrict, lower)
      {
        var record := rs[i];
        FilterSnoc(rs, i, active, isStrict, lower);
        if Matches(record, active, isStrict, lower) {
          result := result + [record];
        }
      }
      assert rs[..|rs|] == rs;
      FilterFacts(records, active, isStrict, lower);
    }
  }
}
