/**
 * The rules the menu front end applies around the store: a new record's ID
 * is the current number of records plus one, an edit ID must lie in
 * 1..len(records), every entered value is at most 16 characters long, and
 * the edited record keeps its ID.  Prompts, screen handling and navigation
 * are not modelled.
 */
module Menu {
  import opened Records
  import opened Store

  /** Longest value the input loop accepts for a field. */
  const MAX_VALUE_LENGTH := 16

  predicate IsDigits(s: string) {
    forall i | 0 <= i < |s| :: '0' <= s[i] <= '9'
  }

  /** The number a string of decimal digits denotes. */
  function DecimalValue(s: string): nat
    requires IsDigits(s)
    decreases |s|
  {
    if s == [] then 0 else DecimalValue(s[..|s| - 1]) * 10 + (s[|s| - 1] - '0') as nat
  }

  /** Python's `str(n)` for a natural number: the decimal digits, no leading zero. */
  function DecimalString(n: nat): (s: string)
    ensures |s| >= 1 && IsDigits(s)
    ensures |s| > 1 ==> s[0] != '0'
    ensures DecimalValue(s) == n
  {
    if n < 10 then ["0123456789"[n]]
    else
      var prefix := DecimalString(n / 10);
      var s := prefix + ["0123456789"[n % 10]];
      assert s[..|s| - 1] == prefix;
      s
  }

  /**
   * The record the add and edit screens build: `ID` first, then the entered
   * values for the remaining fields in field order.
   */
  function NewRecord(id: nat, values: seq<string>): (r: Record)
    requires |values| == FieldCount - 1
    ensures WellFormed(r)
    ensures r[FieldNames[0]] == DecimalString(id)
    ensures forall i | 1 <= i < FieldCount :: r[FieldNames[i]] == values[i - 1]
  {
    var row := [DecimalString(id)] + values;
    RowRoundTrip(row);
    FieldNamesShape();
    ZipAt(FieldNames, row);
    RecordOf(row)
  }

  /** The ID of each record is its 1-based position in the list. */
  predicate IdsArePositions(rs: seq<Record>) {
    forall i | 0 <= i < |rs| :: FieldNames[0] in rs[i] && rs[i][FieldNames[0]] == DecimalString(i + 1)
  }

  /** While IDs are positions, no two records share an ID. */
  lemma IdsAreUnique(rs: seq<Record>)
    requires IdsArePositions(rs)
    ensures forall i, j | 0 <= i < j < |rs| :: rs[i][FieldNames[0]] != rs[j][FieldNames[0]]
  {
  }

  /** Appending a record numbered one past the end keeps IDs equal to positions. */
  lemma AppendKeepsIds(rs: seq<Record>, r: Record)
    requires IdsArePositions(rs)
    requires FieldNames[0] in r && r[FieldNames[0]] == DecimalString(|rs| + 1)
    ensures IdsArePositions(rs + [r])
  {
  }

  /** Replacing record `i` by one numbered `i + 1` keeps IDs equal to positions. */
  lemma ReplaceKeepsIds(rs: seq<Record>, i: nat, r: Record)
    requires IdsArePositions(rs) && i < |rs|
    requires FieldNames[0] in r && r[FieldNames[0]] == DecimalString(i + 1)
    ensures IdsArePositions(rs[i := r])
  {
  }

  predicate FitsColumn(values: seq<string>) {
    forall i | 0 <= i < |values| :: |values[i]| <= MAX_VALUE_LENGTH
  }

  /** The add screen: builds a record numbered `len(records) + 1` and stores it. */
  method AddContact(book: Phonebook, values: seq<string>)
    requires book.Valid() && |values| == FieldCount - 1 && FitsColumn(values)
    modifies book
    ensures book.Valid()
    ensures book.records == old(book.records) + [NewRecord(|old(book.records)| + 1, values)]
    ensures IdsArePositions(old(book.records)) ==> IdsArePositions(book.records)
  {
    var record := NewRecord(|book.records| + 1, values);
    ghost var before := book.records;
    book.Add(record);
    if IdsArePositions(before) {
      AppendKeepsIds(before, record);
    }
  }

  /** The edit screen: replaces record `recordId` by one with the same ID and the new values. */
  method EditContact(book: Phonebook, recordId: int, values: seq<string>)
    requires book.Valid() && 0 < recordId <= |book.records|
    requires |values| == FieldCount - 1 && FitsColumn(values)
    modifies book
    ensures book.Valid()
    ensures book.records == old(book.records)[recordId - 1 := NewRecord(recordId, values)]
    ensures IdsArePositions(old(book.records)) ==> IdsArePositions(book.records)
  {
    var record := NewRecord(recordId, values);
    ghost var before := book.records;
    var ok := book.Edit(recordId, record);
    if IdsArePositions(before) {
      ReplaceKeepsIds(before, recordId - 1, record);
    }
  }
}
