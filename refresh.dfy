/**
 * refreshCountries: extract each upstream descriptor, enrich it with its exchange rate,
 * skip it when invalid, upsert it by case-insensitive name; then rank the whole store for the summary.
 */
module Refresh {
  import opened Wrappers
  import opened Text
  import opened Entity
  import opened Repository
  import opened Ordering
  import opened Subsequences

  /** One element of a descriptor's "currencies" array; `code` is None when the field is missing. */
  datatype CurrencyNode = CurrencyNode(code: Option<string>)

  /**
   * One parsed element of the countries payload. A None field is a missing or null JSON field;
   * `currencies` is None when the field is missing or not an array.
   */
  datatype Descriptor = Descriptor(
    name: Option<string>,
    population: Option<int>,
    capital: Option<string>,
    region: Option<string>,
    flag: Option<string>,
    currencies: Option<seq<CurrencyNode>>)

  /** The locals the loop body computes for one descriptor before validating it. */
  datatype Fields = Fields(
    name: Option<string>,
    population: int,
    capital: Option<string>,
    region: Option<string>,
    flag: Option<string>,
    currencyCode: Option<string>,
    exchangeRate: Option<real>,
    estimatedGdp: Option<real>)

  /** The store's rows together with the next identity value it will assign. */
  datatype Table = Table(rows: seq<Country>, nextId: int)

  /** The exchange-rate payload has no zero rate (the GDP formula divides by it). */
  predicate NonZeroRates(rates: map<string, real>)
  {
    forall code :: code in rates ==> rates[code] != 0.0
  }

  /** ThreadLocalRandom.nextDouble(1000, 2000) has produced `u`. */
  predicate IsMultiplier(u: real)
  {
    1000.0 <= u < 2000.0
  }

  /** asLong(0): a missing population reads as zero. */
  function PopulationOf(d: Descriptor): int
  {
    match d.population
    case None => 0
    case Some(p) => p
  }

  /** asText() on the first currency's "code": a missing code reads as the empty string. */
  function CodeText(n: CurrencyNode): string
  {
    match n.code
    case None => ""
    case Some(code) => code
  }

  /** The estimated GDP: population times the random multiplier, divided by the exchange rate, over the reals. */
  function EstimatedGdp(population: int, u: real, rate: real): real
    requires rate != 0.0
  {
    (population as real * u) / rate
  }

  /**
   * The extraction and enrichment of one descriptor, with `u` the random multiplier drawn for it.
   * The currency code is the first currency's code whenever the list is non-empty; the rate and
   * the GDP are set together exactly when that code is a key of the rate map; without a currency
   * list the GDP keeps its initial value 0.0.
   */
  function Extract(d: Descriptor, rates: map<string, real>, u: real): (e: Fields)
    requires NonZeroRates(rates)
    ensures e.name == d.name && e.population == PopulationOf(d)
    ensures e.capital == d.capital && e.region == d.region && e.flag == d.flag
    ensures e.currencyCode.Some? <==> d.currencies.Some? && |d.currencies.value| > 0
    ensures e.currencyCode.Some? ==> e.currencyCode.value == CodeText(d.currencies.value[0])
    ensures e.exchangeRate.Some? <==> e.currencyCode.Some? && e.currencyCode.value in rates
    ensures e.currencyCode.Some? ==> (e.exchangeRate.None? <==> e.estimatedGdp.None?)
    ensures e.currencyCode.None? ==> e.estimatedGdp == Some(0.0)
    ensures e.exchangeRate.Some? ==>
              e.exchangeRate.value == rates[e.currencyCode.value] &&
              e.estimatedGdp == Some(EstimatedGdp(e.population, u, e.exchangeRate.value))
  {
    var population := PopulationOf(d);
    if d.currencies.Some? && |d.currencies.value| > 0 then
      var code := CodeText(d.currencies.value[0]);
      if code in rates then
        var rate := rates[code];
        Fields(d.name, population, d.capital, d.region, d.flag, Some(code), Some(rate), Some(EstimatedGdp(population, u, rate)))
      else
        Fields(d.name, population, d.capital, d.region, d.flag, Some(code), None, None)
    else
      Fields(d.name, population, d.capital, d.region, d.flag, None, None, Some(0.0))
  }

  /** The loop's validity test: only a null name, a zero population or no currency code is rejected. */
  predicate Accepted(e: Fields)
  {
    e.name.Some? && e.population != 0 && e.currencyCode.Some?
  }

  /** The builder branch: a new record with the next identity value and a fresh timestamp. */
  function NewRecord(id: int, e: Fields, now: Timestamp): (r: Country)
    requires Accepted(e)
    ensures r.id == id && r.name == e.name.value && r.lastRefreshedAt == Some(now)
    ensures NameIs(r, e.name.value)
    ensures (e.exchangeRate.None? <==> e.estimatedGdp.None?) ==> StoredRecord(r)
  {
    Country(id, e.name.value, e.capital, e.region, e.population, e.currencyCode.value,
            e.exchangeRate, e.estimatedGdp, e.flag, Some(now))
  }

  /** The setter branch: every mutable field overwritten; id and name are not touched. */
  function Overwritten(c: Country, e: Fields, now: Timestamp): (r: Country)
    requires Accepted(e)
    ensures r.id == c.id && r.name == c.name && r.lastRefreshedAt == Some(now)
    ensures (e.exchangeRate.None? <==> e.estimatedGdp.None?) ==> StoredRecord(r)
  {
    c.(capital := e.capital, region := e.region, population := e.population,
       currencyCode := e.currencyCode.value, exchangeRate := e.exchangeRate,
       estimatedGdp := e.estimatedGdp, flagUrl := e.flag, lastRefreshedAt := Some(now))
  }

  /** Look the name up ignoring case, then overwrite the match in place or append a new record. */
  function Upsert(t: Table, e: Fields, now: Timestamp): (t': Table)
    requires Accepted(e)
    ensures FindIndexByName(t.rows, e.name.value).Some? ==>
              |t'.rows| == |t.rows| && t'.nextId == t.nextId
    ensures FindIndexByName(t.rows, e.name.value).None? ==>
              t'.rows == t.rows + [NewRecord(t.nextId, e, now)] && t'.nextId == t.nextId + 1
  {
    match FindIndexByName(t.rows, e.name.value)
    case Some(k) => Table(t.rows[k := Overwritten(t.rows[k], e, now)], t.nextId)
    case None => Table(t.rows + [NewRecord(t.nextId, e, now)], t.nextId + 1)
  }

  /** One iteration of the refresh loop: it never removes a record and adds at most one. */
  function Step(t: Table, d: Descriptor, rates: map<string, real>, u: real, now: Timestamp): (t': Table)
    requires NonZeroRates(rates)
    ensures |t.rows| <= |t'.rows| <= |t.rows| + 1
  {
    var e := Extract(d, rates, u);
    if Accepted(e) then Upsert(t, e, now) else t
  }

  /**
   * The first n iterations of the refresh loop; descriptor i uses multiplier us[i] and time clock[i].
   * A refresh never removes a record and adds at most one per descriptor.
   */
  function Processed(t: Table, ds: seq<Descriptor>, rates: map<string, real>,
                     us: seq<real>, clock: seq<Timestamp>, n: nat): (t': Table)
    requires NonZeroRates(rates)
    requires n <= |ds| && n <= |us| && n <= |clock|
    ensures |t.rows| <= |t'.rows| <= |t.rows| + n
  {
    if n == 0 then t
    else Step(Processed(t, ds, rates, us, clock, n - 1), ds[n - 1], rates, us[n - 1], clock[n - 1])
  }

  /** What every record the refresh writes satisfies: a non-zero population and GDP null exactly when the rate is. */
  predicate StoredRecord(c: Country)
  {
    c.population != 0 && (c.exchangeRate.None? <==> c.estimatedGdp.None?)
  }

  /** The store's invariant: unique names, unique identities below nextId, and well-formed records. */
  predicate WellFormed(t: Table)
  {
    && UniqueNames(t.rows)
    && (forall i :: 0 <= i < |t.rows| ==> t.rows[i].id < t.nextId && StoredRecord(t.rows[i]))
    && (forall i, j :: 0 <= i < j < |t.rows| ==> t.rows[i].id != t.rows[j].id)
  }

  // ---------------------------------------------------------------------------
  // Validation and enrichment
  // ---------------------------------------------------------------------------

  /**
   * A descriptor is skipped exactly when its name is null, its population reads as zero, or its
   * currency list is missing or empty; an empty name and a negative population are accepted.
   * A skipped descriptor leaves the store as it was.
   */
  lemma SkipPolicy(t: Table, d: Descriptor, rates: map<string, real>, u: real, now: Timestamp)
    requires NonZeroRates(rates)
    ensures Accepted(Extract(d, rates, u)) <==>
              d.name.Some? && PopulationOf(d) != 0 && d.currencies.Some? && |d.currencies.value| > 0
    ensures !Accepted(Extract(d, rates, u)) ==> Step(t, d, rates, u, now) == t
  {
  }

  /**
   * For an accepted descriptor whose rate is known, the GDP lies between
   * population * 1000 / rate and population * 2000 / rate (positive population and rate).
   */
  lemma GdpBounds(d: Descriptor, rates: map<string, real>, u: real)
    requires NonZeroRates(rates) && IsMultiplier(u)
    requires PopulationOf(d) > 0
    requires Extract(d, rates, u).exchangeRate.Some? && Extract(d, rates, u).exchangeRate.value > 0.0
    ensures var e := Extract(d, rates, u);
            var p := e.population as real;
            var rate := e.exchangeRate.value;
            p * 1000.0 / rate <= e.estimatedGdp.value < p * 2000.0 / rate
  {
    var e := Extract(d, rates, u);
    var p := e.population as real;
    var rate := e.exchangeRate.value;
    assert p * 1000.0 <= p * u < p * 2000.0;
    DivideMonotone(p * 1000.0, p * u, rate);
    DivideStrictMonotone(p * u, p * 2000.0, rate);
  }

  lemma DivideMonotone(a: real, b: real, c: real)
    requires a <= b && c > 0.0
    ensures a / c <= b / c
  {
  }

  lemma DivideStrictMonotone(a: real, b: real, c: real)
    requires a < b && c > 0.0
    ensures a / c < b / c
  {
  }

  /** A country of one million people whose currency trades at 2.0 gets a GDP in [5e8, 1e9). */
  lemma ExampleEnrichment(u: real)
    requires IsMultiplier(u)
    ensures var d := Descriptor(Some("Wakanda"), Some(1000000), None, None, None, Some([CurrencyNode(Some("WKD"))]));
            var e := Extract(d, map["WKD" := 2.0], u);
            && Accepted(e)
            && e.currencyCode == Some("WKD") && e.exchangeRate == Some(2.0)
            && 500000000.0 <= e.estimatedGdp.value < 1000000000.0
  {
  }

  // ---------------------------------------------------------------------------
  // Upsert
  // ---------------------------------------------------------------------------

  /**
   * After an accepted descriptor is upserted: exactly one record matches its name; an existing match
   * is updated in place with its id and name kept; otherwise a new record is appended; no other record
   * changes; and the store's invariant still holds.
   */
  lemma {:induction false} UpsertSpec(t: Table, e: Fields, now: Timestamp)
    requires WellFormed(t) && Accepted(e)
    requires e.exchangeRate.None? <==> e.estimatedGdp.None?
    ensures var t' := Upsert(t, e, now);
            var name := e.name.value;
            && WellFormed(t')
            && FindIndexByName(t'.rows, name).Some?
            && (forall j :: 0 <= j < |t'.rows| && NameIs(t'.rows[j], name) ==> j == FindIndexByName(t'.rows, name).value)
    ensures var t' := Upsert(t, e, now);
            match FindIndexByName(t.rows, e.name.value)
            case Some(k) =>
              && |t'.rows| == |t.rows|
              && t'.rows[k] == Overwritten(t.rows[k], e, now)
              && t'.rows[k].id == t.rows[k].id && t'.rows[k].name == t.rows[k].name
              && (forall j :: 0 <= j < |t.rows| && j != k ==> t'.rows[j] == t.rows[j])
            case None =>
              && t'.rows == t.rows + [NewRecord(t.nextId, e, now)]
  {
    var t' := Upsert(t, e, now);
    var name := e.name.value;
    match FindIndexByName(t.rows, name)
    case Some(k) =>
      OverwriteUnique(t.rows, k, Overwritten(t.rows[k], e, now));
      UniqueMatch(t'.rows, name, k);
    case None =>
      var n := |t.rows|;
      AppendUnique(t.rows, NewRecord(t.nextId, e, now));
      assert t'.rows[n] == NewRecord(t.nextId, e, now);
      UniqueMatch(t'.rows, name, n);
  }

  /** Replacing a record by one with the same folded name keeps the names unique. */
  lemma OverwriteUnique(rows: seq<Country>, k: nat, c: Country)
    requires UniqueNames(rows) && k < |rows| && c.name == rows[k].name
    ensures UniqueNames(rows[k := c])
  {
    var rows' := rows[k := c];
    forall i, j | 0 <= i < j < |rows'| ensures Lower(rows'[i].name) != Lower(rows'[j].name) {
      assert rows'[i].name == rows[i].name && rows'[j].name == rows[j].name;
    }
  }

  /** Appending a record whose name matches none of the stored ones keeps the names unique. */
  lemma AppendUnique(rows: seq<Country>, c: Country)
    requires UniqueNames(rows)
    requires forall i :: 0 <= i < |rows| ==> !NameIs(rows[i], c.name)
    ensures UniqueNames(rows + [c])
  {
    var rows' := rows + [c];
    forall i, j | 0 <= i < j < |rows'| ensures Lower(rows'[i].name) != Lower(rows'[j].name) {
      if j == |rows| {
        assert !NameIs(rows[i], c.name);
      }
    }
  }

  /** One loop iteration keeps the store's invariant. */
  lemma StepWellFormed(t: Table, d: Descriptor, rates: map<string, real>, u: real, now: Timestamp)
    requires NonZeroRates(rates) && WellFormed(t)
    ensures WellFormed(Step(t, d, rates, u, now))
  {
    var e := Extract(d, rates, u);
    if Accepted(e) {
      UpsertSpec(t, e, now);
    }
  }

  /** The whole loop keeps the store's invariant. */
  lemma {:induction false} ProcessedWellFormed(t: Table, ds: seq<Descriptor>, rates: map<string, real>,
                                               us: seq<real>, clock: seq<Timestamp>, n: nat)
    requires NonZeroRates(rates) && WellFormed(t)
    requires n <= |ds| && n <= |us| && n <= |clock|
    ensures WellFormed(Processed(t, ds, rates, us, clock, n))
  {
    if n > 0 {
      ProcessedWellFormed(t, ds, rates, us, clock, n - 1);
      StepWellFormed(Processed(t, ds, rates, us, clock, n - 1), ds[n - 1], rates, us[n - 1], clock[n - 1]);
    }
  }

  // ---------------------------------------------------------------------------
  // Refreshing twice
  // ---------------------------------------------------------------------------

  /** The folded names of the descriptors among the first n that are accepted. */
  function AcceptedNames(ds: seq<Descriptor>, rates: map<string, real>, us: seq<real>, n: nat): set<string>
    requires NonZeroRates(rates)
    requires n <= |ds| && n <= |us|
  {
    if n == 0 then {}
    else
      var e := Extract(ds[n - 1], rates, us[n - 1]);
      AcceptedNames(ds, rates, us, n - 1) + (if Accepted(e) then {Lower(e.name.value)} else {})
  }

  /** An upsert adds its folded name to the store's names, and adds a record exactly when the name was new. */
  lemma UpsertNames(t: Table, e: Fields, now: Timestamp)
    requires Accepted(e)
    ensures Names(Upsert(t, e, now).rows) == Names(t.rows) + {Lower(e.name.value)}
    ensures |Upsert(t, e, now).rows| == |t.rows| + (if Lower(e.name.value) in Names(t.rows) then 0 else 1)
  {
    var name := e.name.value;
    FoundIffNamed(t.rows, name);
    var t' := Upsert(t, e, now);
    match FindIndexByName(t.rows, name)
    case Some(k) =>
      var c := Overwritten(t.rows[k], e, now);
      forall x | x in Names(t'.rows) ensures x in Names(t.rows) {
        var y :| y in t'.rows && Lower(y.name) == x;
        var j :| 0 <= j < |t'.rows| && t'.rows[j] == y;
        assert Lower(t.rows[j].name) == x;
      }
      forall x | x in Names(t.rows) ensures x in Names(t'.rows) {
        var y :| y in t.rows && Lower(y.name) == x;
        var j :| 0 <= j < |t.rows| && t.rows[j] == y;
        assert Lower(t'.rows[j].name) == x;
      }
    case None =>
      assert NewRecord(t.nextId, e, now) in t'.rows;
      forall x | x in Names(t'.rows) ensures x in Names(t.rows) + {Lower(name)} {
        var y :| y in t'.rows && Lower(y.name) == x;
        if y != NewRecord(t.nextId, e, now) {
          assert y in t.rows;
        }
      }
  }

  /**
   * After a run, the store's names are the old ones plus the accepted descriptors' names; when every
   * accepted name was already stored, the run adds no record.
   */
  lemma {:induction false} ProcessedNames(t: Table, ds: seq<Descriptor>, rates: map<string, real>,
                                          us: seq<real>, clock: seq<Timestamp>, n: nat)
    requires NonZeroRates(rates)
    requires n <= |ds| && n <= |us| && n <= |clock|
    ensures Names(Processed(t, ds, rates, us, clock, n).rows) == Names(t.rows) + AcceptedNames(ds, rates, us, n)
    ensures AcceptedNames(ds, rates, us, n) <= Names(t.rows) ==>
              |Processed(t, ds, rates, us, clock, n).rows| == |t.rows|
  {
    if n > 0 {
      ProcessedNames(t, ds, rates, us, clock, n - 1);
      var prev := Processed(t, ds, rates, us, clock, n - 1);
      var e := Extract(ds[n - 1], rates, us[n - 1]);
      if Accepted(e) {
        UpsertNames(prev, e, clock[n - 1]);
      }
    }
  }

  /** Whether a descriptor is accepted does not depend on the multiplier drawn for it. */
  lemma {:induction false} AcceptedNamesIgnoreDraws(ds: seq<Descriptor>, rates: map<string, real>, us: seq<real>, vs: seq<real>, n: nat)
    requires NonZeroRates(rates)
    requires n <= |ds| && n <= |us| && n <= |vs|
    ensures AcceptedNames(ds, rates, us, n) == AcceptedNames(ds, rates, vs, n)
  {
    if n > 0 {
      AcceptedNamesIgnoreDraws(ds, rates, us, vs, n - 1);
    }
  }

  /**
   * Upsert idempotence by name: running the refresh a second time over the same descriptors,
   * with any other multipliers and times, adds no record and keeps the same names.
   */
  lemma RefreshTwice(t: Table, ds: seq<Descriptor>, rates: map<string, real>,
                     us: seq<real>, clock: seq<Timestamp>, vs: seq<real>, clock2: seq<Timestamp>)
    requires NonZeroRates(rates)
    requires |ds| <= |us| && |ds| <= |clock| && |ds| <= |vs| && |ds| <= |clock2|
    ensures var once := Processed(t, ds, rates, us, clock, |ds|);
            var twice := Processed(once, ds, rates, vs, clock2, |ds|);
            |twice.rows| == |once.rows| && Names(twice.rows) == Names(once.rows)
  {
    var once := Processed(t, ds, rates, us, clock, |ds|);
    ProcessedNames(t, ds, rates, us, clock, |ds|);
    AcceptedNamesIgnoreDraws(ds, rates, us, vs, |ds|);
    ProcessedNames(once, ds, rates, vs, clock2, |ds|);
  }

  // ---------------------------------------------------------------------------
  // Top five
  // ---------------------------------------------------------------------------

  /** The summary's first stage: keep the records whose estimated GDP is not null, in store order. */
  function Valued(rows: seq<Country>): (r: seq<Country>)
    ensures IsSubsequence(r, rows)
    ensures forall c :: multiset(r)[c] == if c.estimatedGdp.Some? then multiset(rows)[c] else 0
  {
    if rows == [] then []
    else
      assert rows == [rows[0]] + rows[1..];
      var rest := Valued(rows[1..]);
      if rows[0].estimatedGdp.Some? then
        assert ([rows[0]] + rest)[1..] == rest;
        [rows[0]] + rest
      else
        rest
  }

  function Min(a: int, b: int): int
  {
    if a <= b then a else b
  }

  /** The ranking the summary draws from: every record with a GDP, sorted by GDP descending. */
  function Ranked(rows: seq<Country>): seq<Country>
  {
    Sort(GdpDesc, Valued(rows))
  }

  /**
   * Non-null GDP records of the whole store, sorted by GDP descending, at most five:
   * min(5, |records with a GDP|) of them, each with a GDP and taken from the store.
   */
  function TopFive(rows: seq<Country>): (top: seq<Country>)
    ensures |top| == Min(5, |Valued(rows)|)
    ensures multiset(top) <= multiset(Valued(rows))
    ensures forall c :: c in top ==> c in rows && c.estimatedGdp.Some?
  {
    var ranked := Ranked(rows);
    var k := Min(5, |ranked|);
    assert ranked == ranked[..k] + ranked[k..];
    assert multiset(ranked) == multiset(ranked[..k]) + multiset(ranked[k..]);
    assert forall c :: c in ranked[..k] ==> c in rows && c.estimatedGdp.Some? by {
      forall c | c in ranked[..k] ensures c in rows && c.estimatedGdp.Some? {
        assert c in multiset(ranked);
        assert multiset(Valued(rows))[c] > 0;
      }
    }
    ranked[..k]
  }

  /**
   * The ranking is a permutation of the records with a GDP, each of its elements has one,
   * and it is in descending comparator order.
   */
  lemma RankedFacts(rows: seq<Country>)
    ensures var ranked := Ranked(rows);
            && multiset(ranked) == multiset(Valued(rows))
            && Sorted(GdpDesc, ranked)
            && (forall j :: 0 <= j < |ranked| ==> ranked[j].estimatedGdp.Some?)
            && TopFive(rows) == ranked[..Min(5, |ranked|)]
  {
    var ranked := Ranked(rows);
    SortSorted(GdpDesc, Valued(rows));
    forall j | 0 <= j < |ranked| ensures ranked[j].estimatedGdp.Some? {
      assert ranked[j] in multiset(Valued(rows));
    }
  }

  /** The selection is non-increasing by GDP. */
  lemma TopFiveDescending(rows: seq<Country>)
    ensures var top := TopFive(rows);
            forall i, j :: 0 <= i < j < |top| ==>
              top[i].estimatedGdp.Some? && top[j].estimatedGdp.Some? &&
              top[j].estimatedGdp.value <= top[i].estimatedGdp.value
  {
    var ranked := Ranked(rows);
    var top := TopFive(rows);
    RankedFacts(rows);
    forall i, j | 0 <= i < j < |top|
      ensures top[i].estimatedGdp.Some? && top[j].estimatedGdp.Some? &&
              top[j].estimatedGdp.value <= top[i].estimatedGdp.value
    {
      assert top[i] == ranked[i] && top[j] == ranked[j];
      assert Precedes(GdpDesc, ranked[i], ranked[j]);
    }
  }

  /**
   * In a descending ranking of records that all have a GDP, nothing outside a prefix of k
   * (k > 0 unless the ranking is empty) beats the prefix's last element.
   */
  lemma PrefixCutoff(ranked: seq<Country>, top: seq<Country>, k: nat)
    requires Sorted(GdpDesc, ranked) && k <= |ranked| && (k == 0 ==> ranked == [])
    requires forall j :: 0 <= j < |ranked| ==> ranked[j].estimatedGdp.Some?
    requires top == ranked[..k]
    ensures forall c :: c in multiset(ranked) - multiset(top) ==>
              |top| > 0 && top[|top| - 1].estimatedGdp.Some? &&
              c.estimatedGdp.Some? && c.estimatedGdp.value <= top[|top| - 1].estimatedGdp.value
  {
    assert ranked == top + ranked[k..];
    assert multiset(ranked) - multiset(top) == multiset(ranked[k..]);
    forall c | c in multiset(ranked[k..])
      ensures |top| > 0 && top[|top| - 1].estimatedGdp.Some? &&
              c.estimatedGdp.Some? && c.estimatedGdp.value <= top[|top| - 1].estimatedGdp.value
    {
      var j :| k <= j < |ranked| && ranked[j] == c;
      assert top[k - 1] == ranked[k - 1];
      assert Precedes(GdpDesc, ranked[k - 1], ranked[j]);
    }
  }

  /** No non-null record left out of the selection has a GDP above the smallest one selected. */
  lemma TopFiveCutoff(rows: seq<Country>)
    ensures var top := TopFive(rows);
            forall c :: c in multiset(Valued(rows)) - multiset(top) ==>
              |top| > 0 && top[|top| - 1].estimatedGdp.Some? &&
              c.estimatedGdp.Some? && c.estimatedGdp.value <= top[|top| - 1].estimatedGdp.value
  {
    RankedFacts(rows);
    PrefixCutoff(Ranked(rows), TopFive(rows), Min(5, |Ranked(rows)|));
  }
}
