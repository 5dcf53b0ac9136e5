/**
 * The nationality tally computed by `getNationalitySummary`, which both
 * versions of the case-data helpers implement identically apart from the
 * country-code lookup they call: the distinct nationalities in order of
 * first appearance, each with its number of records and its country code.
 */
module NationalityTally {
  import opened Sequences

  /** One tally row: `{ nationality, key, count, countryCode }`. */
  datatype NationalityEntry<C> = NationalityEntry(nationality: string, key: string, count: nat, countryCode: C)

  /**
   * The tally of `nationalities` (the NATIONALITY of each record, in record
   * order), resolving each nationality with `countryCode`.
   */
  function Summary<C>(nationalities: seq<string>, countryCode: string -> C): (summary: seq<NationalityEntry<C>>)
    ensures |summary| <= |nationalities|
    ensures forall i :: 0 <= i < |summary| ==>
      && summary[i].nationality in nationalities
      && summary[i].key == summary[i].nationality
      && summary[i].count == Count(nationalities, summary[i].nationality)
      && summary[i].count >= 1
      && summary[i].countryCode == countryCode(summary[i].nationality)
    ensures forall i, j :: 0 <= i < j < |summary| ==> summary[i].nationality != summary[j].nationality
  {
    var all := Distinct(nationalities);
    seq(|all|, i requires 0 <= i < |all| =>
      NationalityEntry(all[i], all[i], Count(nationalities, all[i]), countryCode(all[i])))
  }

  function SumCounts<C>(summary: seq<NationalityEntry<C>>): nat
    decreases |summary|
  {
    if summary == [] then 0
    else SumCounts(summary[..|summary| - 1]) + summary[|summary| - 1].count
  }

  /** Every nationality of the input has a row, and the rows follow first appearance. */
  lemma SummaryListsEveryNationalityInOrder<C>(nationalities: seq<string>, countryCode: string -> C)
    ensures forall n :: n in nationalities ==>
      exists i :: 0 <= i < |Summary(nationalities, countryCode)| && Summary(nationalities, countryCode)[i].nationality == n
    ensures forall i, j :: 0 <= i < j < |Summary(nationalities, countryCode)| ==>
      FirstIndex(nationalities, Summary(nationalities, countryCode)[i].nationality)
        < FirstIndex(nationalities, Summary(nationalities, countryCode)[j].nationality)
  {
    var all := Distinct(nationalities);
    var summary := Summary(nationalities, countryCode);
    DistinctInFirstAppearanceOrder(nationalities);
    forall n | n in nationalities
      ensures exists i :: 0 <= i < |summary| && summary[i].nationality == n
    {
      assert n in all;
      var i :| 0 <= i < |all| && all[i] == n;
      assert summary[i].nationality == n;
    }
  }

  lemma {:induction false} SumCountsMatches<C>(summary: seq<NationalityEntry<C>>, keys: seq<string>, nationalities: seq<string>)
    requires |summary| == |keys|
    requires forall i :: 0 <= i < |keys| ==> summary[i].count == Count(nationalities, keys[i])
    ensures SumCounts(summary) == SumOfCounts(keys, nationalities)
    decreases |keys|
  {
    if keys != [] {
      SumCountsMatches(summary[..|summary| - 1], keys[..|keys| - 1], nationalities);
    }
  }

  /** The counts of the tally add up to the number of records. */
  lemma SummaryCountsSumToRecords<C>(nationalities: seq<string>, countryCode: string -> C)
    ensures SumCounts(Summary(nationalities, countryCode)) == |nationalities|
  {
    var all := Distinct(nationalities);
    SumCountsMatches(Summary(nationalities, countryCode), all, nationalities);
    DistinctCountsSum(nationalities);
  }
}
