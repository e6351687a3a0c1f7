# Country currency and exchange store, modelled in Dafny

The service keeps a table of country records: name, capital, region, population, currency code,
exchange rate, estimated GDP, flag URL and refresh time. A **refresh** reads a list of country
descriptors and a map of USD exchange rates. It enriches each descriptor with the rate of its first
currency, computes an estimated GDP as `population * U / rate` with a random `U` in [1000, 2000),
skips invalid descriptors, and upserts the rest by case-insensitive name. It then ranks the whole
table for a summary holding the total count and the top five records by GDP. Read requests list
the table with optional region and currency filters and an optional GDP sort, look a country up or
delete it by name, and report a status (record count and latest refresh time).

Layout (one module per concern of `CountryService` and its collaborators):

- `wrappers.dfy` (`Wrappers`): `Option` for Java's nullable references, `Result`, and the errors `UpstreamUnavailable` and `NotFound`.
- `text.dfy` (`Text`): the single lower-casing function behind every case-insensitive comparison.
- `entity.dfy` (`Entity`): the `Country` record, field for field as `CountryEntity`.
- `repository.dfy` (`Repository`): `findByNameIgnoreCase` as a lookup over the rows, and the name-uniqueness invariant.
- `ordering.dfy` (`Ordering`): the two GDP comparators and a stable insertion sort. It is proved sorted, a permutation and stable, so it computes what Java's stable sort computes.
- `refresh.dfy` (`Refresh`): descriptor extraction and enrichment, validation, upsert, the loop as a function of its inputs, the store invariant, and the top-five selection.
- `subsequences.dfy` (`Subsequences`): the order-preserving subsequence relation used for filters that keep store order.
- `listing.dfy` (`Listing`): `getAllCountries`.
- `lookup.dfy` (`Lookup`): `getCountryByName`, and the store that `deleteCountryByName` leaves.
- `status.dfy` (`StatusReport`): `getStatus`.
- `service.dfy` (`Service`): class `CountryService`. It holds the rows and the next identity value. Its method `RefreshCountries` runs the per-descriptor loop imperatively and is proved equal to `Refresh.Processed`; each accepted descriptor goes through the method `Save`, the lookup and save of the upsert. Its method `DeleteCountryByName` removes a record. Both keep the invariant `Refresh.WellFormed`.

The read operations are functions of the store's rows, the snapshot that `findAll` returns.

The random multiplier and `LocalDateTime.now()` are parameters of `RefreshCountries`. Descriptor
`i` uses `multipliers[i]` and `clock[i]`, and every multiplier must lie in [1000, 2000). Each fetch
result is an optional payload; `None` stands for a null response.

Behaviour of the code that a reader might not expect, and that the model follows:

- Only a null name is rejected, not an empty one. An empty name is stored, and so is a negative population.
- Under `gdp_desc`, records without a GDP come first, because the `nullsLast` comparator is reversed.
- A currency entry without a `code` field yields the code `""`. Such a record is stored with the code `""`. Its rate and GDP are null unless `""` is a key of the rate map.

## Model

| member | source | states |
|---|---|---|
| Repository.FindIndexByName | src/main/java/com/hng/countryCurrencyAndExchangeApi/repository/CountryRepository.java:9 | the position of the first record whose name matches ignoring case; None exactly when no record matches |
| Repository.UniqueMatch | src/main/java/com/hng/countryCurrencyAndExchangeApi/service/CountryService.java:81-84 | with unique names, the lookup returns the one and only matching record |
| Repository.FoundIffNamed | src/main/java/com/hng/countryCurrencyAndExchangeApi/service/CountryService.java:81-84 | a name is found exactly when its lower-cased form is among the stored names |
| Ordering.PrecedesIsTotalPreorder | src/main/java/com/hng/countryCurrencyAndExchangeApi/service/CountryService.java:192-201 | both GDP comparators are reflexive, total and transitive, and tie exactly on equal GDP values |
| Ordering.Insert | src/main/java/com/hng/countryCurrencyAndExchangeApi/service/CountryService.java:192-201 | inserting adds exactly one copy of the element (multiset) |
| Ordering.Sort | src/main/java/com/hng/countryCurrencyAndExchangeApi/service/CountryService.java:192-201 | sorting returns a permutation of its input |
| Ordering.InsertSorted | src/main/java/com/hng/countryCurrencyAndExchangeApi/service/CountryService.java:192-201 | inserting into a sorted list keeps it sorted |
| Ordering.SortSorted | src/main/java/com/hng/countryCurrencyAndExchangeApi/service/CountryService.java:192-201 | the sorted list is in comparator order at every pair of positions |
| Ordering.InsertKeepsTies | src/main/java/com/hng/countryCurrencyAndExchangeApi/service/CountryService.java:192-201 | insertion keeps the relative order of the records of every GDP value |
| Ordering.SortIsStable | src/main/java/com/hng/countryCurrencyAndExchangeApi/service/CountryService.java:192-201 | records of equal GDP keep their input order, as in Java's stable sort |
| Refresh.Extract | src/main/java/com/hng/countryCurrencyAndExchangeApi/service/CountryService.java:50-72 | name, population (0 if missing), capital, region and flag are taken as given; the code is the first currency's code ("" if missing) exactly when the list is non-empty; rate and GDP are set together exactly when the code is a rate key; GDP = population * U / rate; without a currency list the GDP stays 0.0 |
| Refresh.SkipPolicy | src/main/java/com/hng/countryCurrencyAndExchangeApi/service/CountryService.java:50-78 | the validation predicate `Accepted` (line 75) rejects a descriptor exactly for a null name, a zero population or a missing/empty currency list (empty name and negative population pass); a skipped descriptor leaves the store unchanged |
| Refresh.GdpBounds | src/main/java/com/hng/countryCurrencyAndExchangeApi/service/CountryService.java:64-67 | with positive population and rate, population*1000/rate <= GDP < population*2000/rate |
| Refresh.ExampleEnrichment | src/main/java/com/hng/countryCurrencyAndExchangeApi/service/CountryService.java:61-67 | "Wakanda", 1 000 000 people, rate 2.0 for "WKD": accepted, code "WKD", rate 2.0, GDP in [5e8, 1e9) |
| Refresh.NewRecord | src/main/java/com/hng/countryCurrencyAndExchangeApi/service/CountryService.java:95-105 | the built record has the given identity, exactly the descriptor's name (so it matches that name ignoring case) and the current time; with GDP null exactly when the rate is, it satisfies the stored-record invariant |
| Refresh.Overwritten | src/main/java/com/hng/countryCurrencyAndExchangeApi/service/CountryService.java:85-93 | the setters keep the record's id and name and set the current time; with GDP null exactly when the rate is, the result satisfies the stored-record invariant |
| Refresh.Upsert | src/main/java/com/hng/countryCurrencyAndExchangeApi/service/CountryService.java:81-108 | a matching name keeps the row count and identity counter; otherwise the new record is appended with the next identity |
| Refresh.UpsertSpec | src/main/java/com/hng/countryCurrencyAndExchangeApi/service/CountryService.java:81-108 | afterwards exactly one record matches the name; an existing one is overwritten in capital, region, population, code, rate, GDP, flag and time with id and name kept; otherwise one record is appended; no other record changes; the invariant (unique names, unique ids, GDP null iff rate null, population non-zero) still holds |
| Refresh.OverwriteUnique | src/main/java/com/hng/countryCurrencyAndExchangeApi/service/CountryService.java:84-93 | overwriting a record with one of the same name keeps names unique |
| Refresh.AppendUnique | src/main/java/com/hng/countryCurrencyAndExchangeApi/service/CountryService.java:94-108 | appending a record whose name matches no stored one keeps names unique |
| Refresh.Step | src/main/java/com/hng/countryCurrencyAndExchangeApi/service/CountryService.java:50-108 | one loop iteration never removes a record and adds at most one |
| Refresh.Processed | src/main/java/com/hng/countryCurrencyAndExchangeApi/service/CountryService.java:49-109 | the loop over n descriptors never removes a record and adds at most n |
| Refresh.StepWellFormed | src/main/java/com/hng/countryCurrencyAndExchangeApi/service/CountryService.java:49-109 | one loop iteration keeps the store invariant |
| Refresh.ProcessedWellFormed | src/main/java/com/hng/countryCurrencyAndExchangeApi/service/CountryService.java:49-109 | the whole loop keeps the store invariant |
| Refresh.UpsertNames | src/main/java/com/hng/countryCurrencyAndExchangeApi/service/CountryService.java:81-108 | an upsert adds its name to the stored names and adds a record exactly when the name was new |
| Refresh.ProcessedNames | src/main/java/com/hng/countryCurrencyAndExchangeApi/service/CountryService.java:49-109 | after the loop the stored names are the old ones plus the accepted names; if all were present, no record is added |
| Refresh.AcceptedNamesIgnoreDraws | src/main/java/com/hng/countryCurrencyAndExchangeApi/service/CountryService.java:66-78 | which descriptors are accepted does not depend on the random multipliers |
| Refresh.RefreshTwice | src/main/java/com/hng/countryCurrencyAndExchangeApi/service/CountryService.java:49-109 | refreshing twice with the same descriptors adds no record and keeps the same names |
| Refresh.Valued | src/main/java/com/hng/countryCurrencyAndExchangeApi/service/CountryService.java:117-118 | keeps exactly the records with a non-null GDP, each as often as in the store, in store order (a subsequence) |
| Refresh.TopFive | src/main/java/com/hng/countryCurrencyAndExchangeApi/service/CountryService.java:113-121 | the selection has min(5, non-null count) records, all with a GDP and taken from the whole store, and is contained in the non-null records as a multiset |
| Refresh.RankedFacts | src/main/java/com/hng/countryCurrencyAndExchangeApi/service/CountryService.java:117-120 | the ranking is a permutation of the non-null records, each with a GDP, in descending comparator order; the selection is its first min(5, length) records |
| Refresh.TopFiveDescending | src/main/java/com/hng/countryCurrencyAndExchangeApi/service/CountryService.java:119 | the selection is non-increasing by GDP |
| Refresh.PrefixCutoff | src/main/java/com/hng/countryCurrencyAndExchangeApi/service/CountryService.java:119-120 | in a descending ranking whose records all have a GDP, nothing outside the first k beats the k-th record, and a non-empty ranking has a non-empty prefix |
| Refresh.TopFiveCutoff | src/main/java/com/hng/countryCurrencyAndExchangeApi/service/CountryService.java:113-121 | no non-null record left out of the selection has a GDP above the smallest one selected |
| Listing.Where | src/main/java/com/hng/countryCurrencyAndExchangeApi/service/CountryService.java:177-187 | one filter stage is an order-preserving subsequence holding exactly the matching records (null fields never match) |
| Text.Lower | src/main/java/com/hng/countryCurrencyAndExchangeApi/service/CountryService.java:191 | the result has the input's length and no capital letter; every non-capital character is kept and every capital becomes a small letter |
| Text.LowerIdempotent | src/main/java/com/hng/countryCurrencyAndExchangeApi/service/CountryService.java:191 | lower-casing an already lower-cased string changes nothing |
| Text.EqualsIgnoreCaseIsEquivalence | src/main/java/com/hng/countryCurrencyAndExchangeApi/service/CountryService.java:179-185 | equality ignoring case is reflexive, symmetric and transitive |
| Text.EqualsIgnoreCase | src/main/java/com/hng/countryCurrencyAndExchangeApi/service/CountryService.java:179-185 | case-insensitive equality holds for equal strings and only between strings of equal length |
| Listing.FieldMatches | src/main/java/com/hng/countryCurrencyAndExchangeApi/service/CountryService.java:179-185 | a null region never matches; a record matches its own region and its own currency code; a match has the length of the field |
| Subsequences.SubsequenceReflexive | src/main/java/com/hng/countryCurrencyAndExchangeApi/service/CountryService.java:177-187 | the store is a subsequence of itself, the result when no filter applies |
| Subsequences.SubsequenceTransitive | src/main/java/com/hng/countryCurrencyAndExchangeApi/service/CountryService.java:177-187 | filtering a filtered list stays a subsequence of the store |
| Listing.Filtered | src/main/java/com/hng/countryCurrencyAndExchangeApi/service/CountryService.java:177-187 | the filtered list is a subsequence of the store holding exactly the records that match every non-empty parameter ignoring case: the intersection of both filters, or the whole store when neither is given |
| Listing.SortDirection | src/main/java/com/hng/countryCurrencyAndExchangeApi/service/CountryService.java:190-202 | "gdp_asc" and "gdp_desc" are recognised in any letter case; anything else means no sort |
| Listing.KeywordIgnoresCase | src/main/java/com/hng/countryCurrencyAndExchangeApi/service/CountryService.java:191 | "GDP_ASC" and "GDP_Desc" are recognised; "gdp" and "" are not |
| Listing.GetAllCountries | src/main/java/com/hng/countryCurrencyAndExchangeApi/service/CountryService.java:173-205 | a permutation of the filtered list; unchanged without a recognised keyword; otherwise sorted by the comparator with equal GDPs kept in filtered order |
| Listing.AscendingNullsLast | src/main/java/com/hng/countryCurrencyAndExchangeApi/service/CountryService.java:192-195 | gdp_asc: non-decreasing, records without GDP last |
| Listing.DescendingNullsFirst | src/main/java/com/hng/countryCurrencyAndExchangeApi/service/CountryService.java:197-201 | gdp_desc: non-increasing, records without GDP first |
| Lookup.GetCountryByName | src/main/java/com/hng/countryCurrencyAndExchangeApi/service/CountryService.java:209-212 | NotFound exactly when no name matches ignoring case; otherwise a stored matching record, the only one when names are unique |
| Lookup.DeletedByName | src/main/java/com/hng/countryCurrencyAndExchangeApi/service/CountryService.java:214-218 | NotFound exactly when no name matches; otherwise the store with one matching record removed and the rest in order |
| Lookup.DeleteThenGet | src/main/java/com/hng/countryCurrencyAndExchangeApi/service/CountryService.java:209-218 | after a deletion the store is one shorter, names stay unique, and looking the name up fails with NotFound |
| StatusReport.LatestRefresh | src/main/java/com/hng/countryCurrencyAndExchangeApi/service/CountryService.java:223-227 | the maximum of the non-null refresh times, and one of them; None exactly when all are null |
| StatusReport.GetStatus | src/main/java/com/hng/countryCurrencyAndExchangeApi/service/CountryService.java:220-233 | total = store size; last refresh = the maximum non-null time, absent exactly when the store is empty or no record has a time |
| Service.RemoveWellFormed | src/main/java/com/hng/countryCurrencyAndExchangeApi/service/CountryService.java:217 | removing a record keeps the store invariant |
| Service.CountryService.constructor | src/main/java/com/hng/countryCurrencyAndExchangeApi/service/CountryService.java:22-28 | the service starts with an empty store that satisfies the invariant, identity counter 1 |
| Service.CountryService.Save | src/main/java/com/hng/countryCurrencyAndExchangeApi/service/CountryService.java:81-108 | the lookup followed by the setters or the builder and the save leaves exactly the store `Refresh.Upsert` describes |
| Service.CountryService.RefreshCountries | src/main/java/com/hng/countryCurrencyAndExchangeApi/service/CountryService.java:33-121 | a missing payload gives UpstreamUnavailable with the store untouched; otherwise the new store is the loop's result over every descriptor, the invariant holds, and the summary is (store size, top five) |
| Service.CountryService.DeleteCountryByName | src/main/java/com/hng/countryCurrencyAndExchangeApi/service/CountryService.java:214-218 | NotFound with the store unchanged, or the store without the matching record; the invariant holds |

## Left out

- HTTP fetching and JSON parsing (`CountryService.java` lines 37-46) are not modelled. The inputs are already-parsed optional payloads. Jackson quirks are not modelled either: a non-array countries payload, a JSON `null` code read as the text "null", non-numeric populations.
- The summary image is not modelled: drawing, `String.format("%,.2f")`, the cache directory and the PNG file (lines 122-164). The refresh returns the data the image shows, the count and the top five, instead of the message string.
- Service.CountryService.RefreshCountries: "UpstreamUnavailable with the store untouched" covers only a missing payload. In the code, an `IOException` from `ImageIO.write` (line 162) is caught by the same handler (lines 166-167) and also becomes "External data source unavailable", which the controller answers with 503. By then every upsert of lines 49-109 has been saved, because the method is not transactional. Since the image is not modelled, this failure after the writes is not modelled either. A `RuntimeException` thrown while drawing would reach the 500 handler instead; it is not modelled.
- `findAll` is taken to return the records in insertion order, with an overwritten record keeping its position. JPA gives `findAll` no defined order. The subsequence claims of `Listing.Filtered` and `Refresh.Valued` and the stability claim of `Listing.GetAllCountries` rest on this choice.
- Repository.FindIndexByName: returns the first match when several names match. `findByNameIgnoreCase` would throw in that case, because it returns an `Optional`. This cannot happen under `Refresh.WellFormed` starting from an empty store, which both state-changing methods keep.
- `ThreadLocalRandom` and `LocalDateTime.now()` are not modelled. They become the `multipliers` and `clock` parameters.
- Service.CountryService.RefreshCountries: requires that no exchange rate is 0.0. Java's double division would give an infinite GDP there, and the model uses reals, not IEEE doubles, for rates and GDP. The same goes for rounding, NaN and signed zero in `Double.compare`.
- Text.Lower: folds only the ASCII letters A-Z. Java's `toLowerCase`/`equalsIgnoreCase` and SQL's `upper` fold all of Unicode.
- Population is an unbounded integer. The 64-bit `Long` range is not modelled.
- `currencyCode` is a non-null string in the model. The database column is nullable, but the refresh never stores a null code.
- The store starts empty. The persistent database, JPA transactions, the identity generator beyond a counter, and concurrent refreshes are not modelled.
- The controller (HTTP status mapping, the empty-list 404, reading the cached image) and the application bootstrap are not part of this model.
