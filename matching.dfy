/**
 * The search filter of the phonebook: normalising the criteria, the
 * per-record match predicate and the order-preserving filter that the
 * search loop computes.
 *
 * Lower-casing is Python's Unicode-aware `str.lower`; it is passed in as an
 * arbitrary function `lower`, so nothing proved here depends on how it maps
 * characters (not even that it is idempotent).
 */
module Matching {
  import opened Wrappers
  import opened Records

  /** A search form: field name to the entered value, `None` when left blank. */
  type Criteria = map<string, Option<string>>

  /** Python truthiness of a criterion value: neither `None` nor `""`. */
  predicate NonEmpty(v: Option<string>) {
    v.Some? && v.value != ""
  }

  /**
   * The criteria the search actually applies: empty values are dropped and
   * the rest lower-cased unless the search is case-sensitive.
   */
  function Normalise(criteria: Criteria, caseSensitive: bool, lower: string -> string): (active: map<string, string>)
    ensures forall k :: k in active <==> k in criteria && NonEmpty(criteria[k])
  {
    map k | k in criteria && NonEmpty(criteria[k]) ::
      if caseSensitive then criteria[k].value else lower(criteria[k].value)
  }

  /** Python's `sub in s` on strings. */
  predicate IsSubstring(sub: string, s: string) {
    exists i | 0 <= i <= |s| :: sub <= s[i..]
  }

  /**
   * One criterion against one record value.  The record value is always
   * lower-cased, whatever the case sensitivity; the criterion never is here.
   */
  predicate Holds(crit: string, value: string, strict: bool, lower: string -> string) {
    if strict then crit == lower(value) else IsSubstring(crit, lower(value))
  }

  /** `all(...)` over the active criteria: every one of them holds for the record. */
  predicate Matches(record: Record, active: map<string, string>, strict: bool, lower: string -> string)
    requires active.Keys <= record.Keys
  {
    forall k | k in active :: Holds(active[k], record[k], strict, lower)
  }

  /** Every record carries every active criterion's field. */
  predicate Searchable(rs: seq<Record>, active: map<string, string>) {
    forall i | 0 <= i < |rs| :: active.Keys <= rs[i].Keys
  }

  /** The records that match, in store order (what the search loop appends). */
  function Filter(rs: seq<Record>, active: map<string, string>, strict: bool, lower: string -> string): (r: seq<Record>)
    requires Searchable(rs, active)
    ensures |r| <= |rs|
    decreases |rs|
  {
    if rs == [] then []
    else
      var last := rs[|rs| - 1];
      Filter(rs[..|rs| - 1], active, strict, lower) + (if Matches(last, active, strict, lower) then [last] else [])
  }

  /** `a` is `b` with some elements left out, order kept. */
  predicate IsSubsequence(a: seq<Record>, b: seq<Record>)
    decreases |b|
  {
    a == [] ||
    (b != [] &&
     ((a[|a| - 1] == b[|b| - 1] && IsSubsequence(a[..|a| - 1], b[..|b| - 1])) ||
      IsSubsequence(a, b[..|b| - 1])))
  }

  /** One more record at the end adds it to the result exactly when it matches. */
  lemma FilterSnoc(rs: seq<Record>, i: nat, active: map<string, string>, strict: bool, lower: string -> string)
    requires i < |rs| && Searchable(rs, active)
    ensures Searchable(rs[..i], active) && Searchable(rs[..i + 1], active)
    ensures Filter(rs[..i + 1], active, strict, lower) ==
            Filter(rs[..i], active, strict, lower) + (if Matches(rs[i], active, strict, lower) then [rs[i]] else [])
  {
    assert rs[..i + 1][..i] == rs[..i];
  }

  /** A record is in the result exactly when it is in the store and matches. */
  lemma {:induction false} FilterMembership(rs: seq<Record>, active: map<string, string>, strict: bool,
                                            lower: string -> string, x: Record)
    requires Searchable(rs, active)
    ensures x in Filter(rs, active, strict, lower) <==> x in rs && active.Keys <= x.Keys && Matches(x, active, strict, lower)
    decreases |rs|
  {
    if rs != [] {
      var init := rs[..|rs| - 1];
      FilterMembership(init, active, strict, lower, x);
      assert rs == init + [rs[|rs| - 1]];
    }
  }

  /** The result keeps the store's order: it is a subsequence of the records. */
  lemma {:induction false} FilterIsSubsequence(rs: seq<Record>, active: map<string, string>, strict: bool,
                                               lower: string -> string)
    requires Searchable(rs, active)
    ensures IsSubsequence(Filter(rs, active, strict, lower), rs)
    decreases |rs|
  {
    if rs != [] {
      var n := |rs| - 1;
      var init, last := rs[..n], rs[n];
      FilterSnoc(rs, n, active, strict, lower);
      assert rs[..n + 1] == rs == init + [last];
      FilterIsSubsequence(init, active, strict, lower);
      var g := Filter(init, active, strict, lower);
      if Matches(last, active, strict, lower) {
        SubsequenceExtendBoth(g, init, last);
      } else {
        assert g + [] == g;
        SubsequenceExtendRight(g, init, last);
      }
    }
  }

  /**
   * Every copy of a matching record is kept: the result holds a record as
   * many times as the store does when it matches, and not at all otherwise.
   */
  lemma {:induction false} FilterCount(rs: seq<Record>, active: map<string, string>, strict: bool,
                                       lower: string -> string, x: Record)
    requires Searchable(rs, active)
    ensures multiset(Filter(rs, active, strict, lower))[x] ==
            if active.Keys <= x.Keys && Matches(x, active, strict, lower) then multiset(rs)[x] else 0
    decreases |rs|
  {
    if rs != [] {
      var init, last := rs[..|rs| - 1], rs[|rs| - 1];
      FilterSnoc(rs, |rs| - 1, active, strict, lower);
      assert rs[..|rs|] == rs;
      FilterCount(init, active, strict, lower, x);
      assert rs == init + [last];
      var g := Filter(init, active, strict, lower);
      var tail := if Matches(last, active, strict, lower) then [last] else [];
      assert multiset(rs) == multiset(init) + multiset{last};
      assert multiset(g + tail) == multiset(g) + multiset(tail);
    }
  }

  /** What every search result satisfies: store order, exactly the matching records, every copy of each. */
  lemma FilterFacts(rs: seq<Record>, active: map<string, string>, strict: bool, lower: string -> string)
    requires Searchable(rs, active)
    ensures IsSubsequence(Filter(rs, active, strict, lower), rs)
    ensures forall x :: x in Filter(rs, active, strict, lower) <==> x in rs && Matches(x, active, strict, lower)
    ensures forall x :: multiset(Filter(rs, active, strict, lower))[x] ==
                        if x in rs && Matches(x, active, strict, lower) then multiset(rs)[x] else 0
  {
    FilterIsSubsequence(rs, active, strict, lower);
    forall x
      ensures x in Filter(rs, active, strict, lower) <==> x in rs && Matches(x, active, strict, lower)
      ensures multiset(Filter(rs, active, strict, lower))[x] ==
              if x in rs && Matches(x, active, strict, lower) then multiset(rs)[x] else 0
    {
      FilterMembership(rs, active, strict, lower, x);
      FilterCount(rs, active, strict, lower, x);
    }
  }

  /**
   * If every record matching one way also matches another way, the first
   * result is a subsequence of the second.
   */
  lemma {:induction false} FilterMonotone(rs: seq<Record>, a1: map<string, string>, s1: bool,
                                          a2: map<string, string>, s2: bool, lower: string -> string)
    requires Searchable(rs, a1) && Searchable(rs, a2)
    requires forall i | 0 <= i < |rs| :: Matches(rs[i], a1, s1, lower) ==> Matches(rs[i], a2, s2, lower)
    ensures IsSubsequence(Filter(rs, a1, s1, lower), Filter(rs, a2, s2, lower))
    decreases |rs|
  {
    if rs != [] {
      var n := |rs| - 1;
      var x, init := rs[n], rs[..n];
      assert Searchable(init, a1) && Searchable(init, a2);
      assert forall i | 0 <= i < n :: Matches(init[i], a1, s1, lower) ==> Matches(init[i], a2, s2, lower) by {
        assert forall i | 0 <= i < n :: init[i] == rs[i];
      }
      FilterMonotone(init, a1, s1, a2, s2, lower);
      var g1, g2 := Filter(init, a1, s1, lower), Filter(init, a2, s2, lower);
      assert Filter(rs, a1, s1, lower) == g1 + (if Matches(x, a1, s1, lower) then [x] else []);
      assert Filter(rs, a2, s2, lower) == g2 + (if Matches(x, a2, s2, lower) then [x] else []);
      if Matches(x, a1, s1, lower) {
        SubsequenceExtendBoth(g1, g2, x);
      } else if Matches(x, a2, s2, lower) {
        assert g1 + [] == g1;
        SubsequenceExtendRight(g1, g2, x);
      } else {
        assert g1 + [] == g1 && g2 + [] == g2;
      }
    }
  }

  lemma SubsequenceExtendBoth(a: seq<Record>, b: seq<Record>, x: Record)
    requires IsSubsequence(a, b)
    ensures IsSubsequence(a + [x], b + [x])
  {
    assert (a + [x])[..|a|] == a && (b + [x])[..|b|] == b;
  }

  lemma SubsequenceExtendRight(a: seq<Record>, b: seq<Record>, x: Record)
    requires IsSubsequence(a, b)
    ensures IsSubsequence(a, b + [x])
  {
    assert (b + [x])[..|b|] == b;
  }

  /** A search whose criteria are all blank returns every record, in order. */
  lemma {:induction false} BlankCriteriaReturnAll(rs: seq<Record>, criteria: Criteria, strict: bool,
                                                  caseSensitive: bool, lower: string -> string)
    requires forall k | k in criteria :: !NonEmpty(criteria[k])
    ensures Searchable(rs, Normalise(criteria, caseSensitive, lower))
    ensures Filter(rs, Normalise(criteria, caseSensitive, lower), strict, lower) == rs
    decreases |rs|
  {
    var active := Normalise(criteria, caseSensitive, lower);
    assert active == map[];
    if rs != [] {
      BlankCriteriaReturnAll(rs[..|rs| - 1], criteria, strict, caseSensitive, lower);
      assert rs == rs[..|rs| - 1] + [rs[|rs| - 1]];
    }
  }

  /** An exact match is also a substring match, so strict results lie within the loose ones. */
  lemma StrictWithinLoose(rs: seq<Record>, active: map<string, string>, lower: string -> string)
    requires Searchable(rs, active)
    ensures IsSubsequence(Filter(rs, active, true, lower), Filter(rs, active, false, lower))
  {
    forall i, k | 0 <= i < |rs| && k in active && Holds(active[k], rs[i][k], true, lower)
      ensures Holds(active[k], rs[i][k], false, lower)
    {
      assert active[k] <= lower(rs[i][k])[0..];
    }
    FilterMonotone(rs, active, true, active, false, lower);
  }

  /**
   * Filling in one more blank criterion with a non-empty value never adds
   * a record to the result.
   */
  lemma ExtraCriterionNarrows(rs: seq<Record>, criteria: Criteria, key: string, value: string,
                              strict: bool, caseSensitive: bool, lower: string -> string)
    requires !(key in criteria && NonEmpty(criteria[key])) && value != ""
    requires Searchable(rs, Normalise(criteria[key := Some(value)], caseSensitive, lower))
    ensures Searchable(rs, Normalise(criteria, caseSensitive, lower))
    ensures IsSubsequence(Filter(rs, Normalise(criteria[key := Some(value)], caseSensitive, lower), strict, lower),
                          Filter(rs, Normalise(criteria, caseSensitive, lower), strict, lower))
  {
    var wider := Normalise(criteria[key := Some(value)], caseSensitive, lower);
    var narrower := Normalise(criteria, caseSensitive, lower);
    assert narrower.Keys <= wider.Keys;
    assert forall k | k in narrower :: wider[k] == narrower[k];
    FilterMonotone(rs, wider, strict, narrower, strict, lower);
  }

  /**
   * As written, a case-sensitive strict search compares the criterion with
   * the LOWER-CASED record value, so a criterion that no value lower-cases
   * to (one with an upper-case letter, for Python's `str.lower`) matches
   * nothing.
   */
  lemma {:induction false} CaseSensitiveStrictNeedsLowerCase(rs: seq<Record>, criteria: Criteria, key: string,
                                                              lower: string -> string)
    requires key in criteria && NonEmpty(criteria[key])
    requires forall s :: lower(s) != criteria[key].value
    requires Searchable(rs, Normalise(criteria, true, lower))
    ensures Filter(rs, Normalise(criteria, true, lower), true, lower) == []
    decreases |rs|
  {
    if rs != [] {
      CaseSensitiveStrictNeedsLowerCase(rs[..|rs| - 1], criteria, key, lower);
      var last := rs[|rs| - 1];
      assert !Holds(criteria[key].value, last[key], true, lower);
    }
  }

  /*
   * A one-record store holding first name "Ivan", searched three ways.
   * The stored value is lower-cased to "ivan" before every comparison.
   */

  /** A loose case-insensitive search for "iv" finds "Ivan". */
  lemma IvanLooseSearch(r: Record, lower: string -> string)
    requires "Имя" in r && r["Имя"] == "Ivan"
    requires lower("Ivan") == "ivan" && lower("iv") == "iv"
    ensures Searchable([r], Normalise(map["Имя" := Some("iv")], false, lower))
    ensures Filter([r], Normalise(map["Имя" := Some("iv")], false, lower), false, lower) == [r]
  {
    var active := Normalise(map["Имя" := Some("iv")], false, lower);
    assert active == map["Имя" := "iv"];
    assert "iv" <= "ivan"[0..];
    SingleRecordFilter(r, active, false, lower);
  }

  /** A strict case-sensitive search for "Ivan" does not find "Ivan". */
  lemma IvanCapitalisedStrictSearch(r: Record, lower: string -> string)
    requires "Имя" in r && r["Имя"] == "Ivan"
    requires lower("Ivan") == "ivan"
    ensures Searchable([r], Normalise(map["Имя" := Some("Ivan")], true, lower))
    ensures Filter([r], Normalise(map["Имя" := Some("Ivan")], true, lower), true, lower) == []
  {
    var active := Normalise(map["Имя" := Some("Ivan")], true, lower);
    assert active == map["Имя" := "Ivan"];
    SingleRecordFilter(r, active, true, lower);
  }

  /** A strict case-sensitive search for "ivan" does find "Ivan". */
  lemma IvanLowerCaseStrictSearch(r: Record, lower: string -> string)
    requires "Имя" in r && r["Имя"] == "Ivan"
    requires lower("Ivan") == "ivan"
    ensures Searchable([r], Normalise(map["Имя" := Some("ivan")], true, lower))
    ensures Filter([r], Normalise(map["Имя" := Some("ivan")], true, lower), true, lower) == [r]
  {
    var active := Normalise(map["Имя" := Some("ivan")], true, lower);
    assert active == map["Имя" := "ivan"];
    SingleRecordFilter(r, active, true, lower);
  }

  /** A one-record store returns that record exactly when it matches. */
  lemma SingleRecordFilter(r: Record, active: map<string, string>, strict: bool, lower: string -> string)
    requires active.Keys <= r.Keys
    ensures Searchable([r], active)
    ensures Filter([r], active, strict, lower) == if Matches(r, active, strict, lower) then [r] else []
  {
    assert [r][..0] == [];
  }
}
