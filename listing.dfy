/** getAllCountries: optional region and currency filters, then an optional GDP sort. */
module Listing {
  import opened Wrappers
  import opened Text
  import opened Entity
  import opened Ordering
  import opened Subsequences

  /** The two fields a request can filter on. */
  datatype Field = RegionField | CurrencyField

  /** The request value equals the record's field ignoring case; a null field never matches. */
  predicate FieldMatches(c: Country, f: Field, value: string)
    ensures f == RegionField && c.region.None? ==> !FieldMatches(c, f, value)
    ensures f == RegionField && c.region == Some(value) ==> FieldMatches(c, f, value)
    ensures f == CurrencyField && value == c.currencyCode ==> FieldMatches(c, f, value)
    ensures FieldMatches(c, f, value) ==>
              |value| == |if f == RegionField then c.region.value else c.currencyCode|
  {
    match f
    case RegionField => c.region.Some? && EqualsIgnoreCase(value, c.region.value)
    case CurrencyField => EqualsIgnoreCase(value, c.currencyCode)
  }

  /** One filter stage: the records matching the value, in store order. */
  function Where(rows: seq<Country>, f: Field, value: string): (r: seq<Country>)
    ensures IsSubsequence(r, rows)
    ensures forall c :: multiset(r)[c] == if FieldMatches(c, f, value) then multiset(rows)[c] else 0
  {
    if rows == [] then []
    else
      assert rows == [rows[0]] + rows[1..];
      var rest := Where(rows[1..], f, value);
      if FieldMatches(rows[0], f, value) then
        assert ([rows[0]] + rest)[1..] == rest;
        [rows[0]] + rest
      else
        rest
  }

  /** A request parameter filters only when it is present and non-empty. */
  predicate Active(p: Option<string>)
  {
    p.Some? && p.value != ""
  }

  /** A record survives the filters: it matches every active parameter. */
  predicate Passes(c: Country, region: Option<string>, currency: Option<string>)
  {
    (Active(region) ==> FieldMatches(c, RegionField, region.value)) &&
    (Active(currency) ==> FieldMatches(c, CurrencyField, currency.value))
  }

  /**
   * The two filtering stages of getAllCountries, region first. The result is an order-preserving
   * subsequence of the store that holds every record passing the active filters, as often as the
   * store does, and nothing else: the intersection when both are given, the whole store when neither is.
   */
  function Filtered(rows: seq<Country>, region: Option<string>, currency: Option<string>): (r: seq<Country>)
    ensures IsSubsequence(r, rows)
    ensures forall c :: multiset(r)[c] == if Passes(c, region, currency) then multiset(rows)[c] else 0
    ensures !Active(region) && !Active(currency) ==> r == rows
  {
    var byRegion := if Active(region) then Where(rows, RegionField, region.value) else rows;
    assert IsSubsequence(byRegion, rows) by {
      if !Active(region) { SubsequenceReflexive(rows); }
    }
    if Active(currency) then
      var both := Where(byRegion, CurrencyField, currency.value);
      SubsequenceTransitive(both, byRegion, rows);
      both
    else
      byRegion
  }

  /** The sort keyword, lower-cased; anything else (or no keyword) means no sorting. */
  function SortDirection(sort: Option<string>): (d: Option<Direction>)
    ensures d == Some(GdpAsc) <==> sort.Some? && Lower(sort.value) == "gdp_asc"
    ensures d == Some(GdpDesc) <==> sort.Some? && Lower(sort.value) == "gdp_desc"
  {
    match sort
    case None => None
    case Some(s) =>
      var key := Lower(s);
      if key == "gdp_asc" then Some(GdpAsc)
      else if key == "gdp_desc" then Some(GdpDesc)
      else None
  }

  /**
   * getAllCountries over a snapshot of the store. The result is a permutation of the filtered list;
   * without a recognised keyword it is that list unchanged; with one it is ordered by the comparator
   * (gdp_asc: non-decreasing, nulls last; gdp_desc: non-increasing, nulls FIRST, because the
   * reversed comparator also reverses nullsLast) and records of equal GDP keep their filtered order.
   */
  function GetAllCountries(rows: seq<Country>, region: Option<string>, currency: Option<string>,
                           sort: Option<string>): (r: seq<Country>)
    ensures multiset(r) == multiset(Filtered(rows, region, currency))
    ensures SortDirection(sort).None? ==> r == Filtered(rows, region, currency)
    ensures SortDirection(sort).Some? ==> Sorted(SortDirection(sort).value, r)
    ensures forall gdp :: WithGdp(r, gdp) == WithGdp(Filtered(rows, region, currency), gdp)
  {
    var filtered := Filtered(rows, region, currency);
    match SortDirection(sort)
    case None => filtered
    case Some(dir) =>
      SortSorted(dir, filtered);
      assert forall gdp :: WithGdp(Sort(dir, filtered), gdp) == WithGdp(filtered, gdp) by {
        forall gdp ensures WithGdp(Sort(dir, filtered), gdp) == WithGdp(filtered, gdp) {
          SortIsStable(dir, filtered, gdp);
        }
      }
      Sort(dir, filtered)
  }

  /** gdp_asc puts every record with a GDP before every record without, in non-decreasing order. */
  lemma AscendingNullsLast(rows: seq<Country>, region: Option<string>, currency: Option<string>, sort: Option<string>)
    requires SortDirection(sort) == Some(GdpAsc)
    ensures var r := GetAllCountries(rows, region, currency, sort);
            forall i, j :: 0 <= i < j < |r| ==>
              (r[i].estimatedGdp.None? ==> r[j].estimatedGdp.None?) &&
              (r[i].estimatedGdp.Some? && r[j].estimatedGdp.Some? ==> r[i].estimatedGdp.value <= r[j].estimatedGdp.value)
  {
  }

  /** gdp_desc puts every record without a GDP before every record with one, then non-increasing. */
  lemma DescendingNullsFirst(rows: seq<Country>, region: Option<string>, currency: Option<string>, sort: Option<string>)
    requires SortDirection(sort) == Some(GdpDesc)
    ensures var r := GetAllCountries(rows, region, currency, sort);
            forall i, j :: 0 <= i < j < |r| ==>
              (r[j].estimatedGdp.None? ==> r[i].estimatedGdp.None?) &&
              (r[i].estimatedGdp.Some? && r[j].estimatedGdp.Some? ==> r[j].estimatedGdp.value <= r[i].estimatedGdp.value)
  {
  }

  /** The keyword is matched after lower-casing: "GDP_ASC" sorts ascending, "GDP_Desc" descending. */
  lemma KeywordIgnoresCase()
    ensures SortDirection(Some("GDP_ASC")) == Some(GdpAsc)
    ensures SortDirection(Some("GDP_Desc")) == Some(GdpDesc)
    ensures SortDirection(Some("gdp")) == None && SortDirection(Some("")) == None
  {
  }
}
