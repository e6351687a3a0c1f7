/** The country service: the record store and the two operations that change it. */
module Service {
  import opened Wrappers
  import opened Entity
  import opened Repository
  import opened Refresh
  import Lookup

  /** What the refresh hands to the summary image: the store's size and its top five by GDP. */
  datatype RefreshSummary = RefreshSummary(totalCountries: nat, topFive: seq<Country>)

  /** Removing one record keeps the store's invariant. */
  lemma RemoveWellFormed(t: Table, k: nat)
    requires WellFormed(t) && k < |t.rows|
    ensures WellFormed(Table(t.rows[..k] + t.rows[k + 1..], t.nextId))
  {
  }

  class CountryService {
    /** The countries table, in the order findAll returns it. */
    var rows: seq<Country>
    /** The identity value the next inserted record receives. */
    var nextId: int

    ghost predicate Valid()
      reads this
    {
      WellFormed(Table(rows, nextId))
    }

    function Snapshot(): Table
      reads this
    {
      Table(rows, nextId)
    }

    /** An empty store; identities start at 1. */
    constructor ()
      ensures Valid() && rows == [] && nextId == 1
    {
      rows := [];
      nextId := 1;
    }

    /**
     * refreshCountries. `countries` and `rates` are the parsed payloads of the two fetches (None when
     * a fetch returned nothing); `multipliers[i]` is the random draw and `clock[i]` the time for
     * descriptor i. A missing payload fails with UpstreamUnavailable before anything is written;
     * otherwise every descriptor is processed in order and the summary covers the whole store.
     */
    method RefreshCountries(countries: Option<seq<Descriptor>>, rates: Option<map<string, real>>,
                            multipliers: seq<real>, clock: seq<Timestamp>)
      returns (r: Result<RefreshSummary>)
      requires Valid()
      requires rates.Some? ==> NonZeroRates(rates.value)
      requires countries.Some? ==> |countries.value| <= |multipliers| && |countries.value| <= |clock|
      requires forall i :: 0 <= i < |multipliers| ==> IsMultiplier(multipliers[i])
      modifies this
      ensures Valid()
      ensures countries.None? || rates.None? ==>
                r == Err(UpstreamUnavailable) && rows == old(rows) && nextId == old(nextId)
      ensures countries.Some? && rates.Some? ==>
                && Snapshot() == Processed(old(Snapshot()), countries.value, rates.value,
                                           multipliers, clock, |countries.value|)
                && r == Ok(RefreshSummary(|rows|, TopFive(rows)))
    {
      if countries.None? {
        return Err(UpstreamUnavailable);
      }
      if rates.None? {
        return Err(UpstreamUnavailable);
      }
      var nodes := countries.value;
      var exchangeRates := rates.value;
      var i := 0;
      while i < |nodes|
        invariant 0 <= i <= |nodes|
        invariant Valid()
        invariant Snapshot() == Processed(old(Snapshot()), nodes, exchangeRates, multipliers, clock, i)
      {
        var node := nodes[i];
        var name := node.name;
        var population := PopulationOf(node);
        var currencyCode: Option<string> := None;
        var exchangeRate: Option<real> := None;
        var estimatedGdp: Option<real> := Some(0.0);
        if node.currencies.Some? && |node.currencies.value| > 0 {
          currencyCode := Some(CodeText(node.currencies.value[0]));
          if currencyCode.value in exchangeRates {
            exchangeRate := Some(exchangeRates[currencyCode.value]);
            estimatedGdp := Some(EstimatedGdp(population, multipliers[i], exchangeRate.value));
          } else {
            exchangeRate := None;
            estimatedGdp := None;
          }
        }
        var fields := Fields(name, population, node.capital, node.region, node.flag,
                             currencyCode, exchangeRate, estimatedGdp);
        assert fields == Extract(node, exchangeRates, multipliers[i]);
        ghost var before := Snapshot();
        assert Processed(old(Snapshot()), nodes, exchangeRates, multipliers, clock, i + 1)
            == Step(before, node, exchangeRates, multipliers[i], clock[i]);
        if name.None? || population == 0 || currencyCode.None? {
          i := i + 1;
          continue;
        }
        assert Accepted(fields);
        StepWellFormed(before, node, exchangeRates, multipliers[i], clock[i]);
        Save(fields, clock[i]);
        i := i + 1;
      }
      r := Ok(RefreshSummary(|rows|, TopFive(rows)));
    }

    /**
     * The upsert of one accepted descriptor: findByNameIgnoreCase, then either the setters on the
     * match or the builder for a new record, then save.
     */
    method Save(fields: Fields, now: Timestamp)
      requires Accepted(fields)
      modifies this
      ensures Snapshot() == Upsert(old(Snapshot()), fields, now)
    {
      var existing := FindIndexByName(rows, fields.name.value);
      if existing.Some? {
        var k := existing.value;
        rows := rows[k := Overwritten(rows[k], fields, now)];
      } else {
        rows := rows + [NewRecord(nextId, fields, now)];
        nextId := nextId + 1;
      }
    }

    /** deleteCountryByName: NotFound with the store unchanged, or the matching record removed. */
    method DeleteCountryByName(name: string) returns (r: Result<()>)
      requires Valid()
      modifies this
      ensures Valid() && nextId == old(nextId)
      ensures Lookup.DeletedByName(old(rows), name).Err? ==> r == Err(NotFound) && rows == old(rows)
      ensures Lookup.DeletedByName(old(rows), name).Ok? ==>
                r == Ok(()) && rows == Lookup.DeletedByName(old(rows), name).value
    {
      var found := FindIndexByName(rows, name);
      if found.None? {
        return Err(NotFound);
      }
      var k := found.value;
      RemoveWellFormed(Snapshot(), k);
      rows := rows[..k] + rows[k + 1..];
      r := Ok(());
    }
  }
}
