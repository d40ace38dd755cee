# CurrencyConverter core in Dafny

This project models `CurrencyManager`, the core of a small C# currency converter. The manager
keeps a table of currencies in a database. Each row holds an identity id, a three-letter code
and an exchange rate in units of that currency per US dollar. The manager converts amounts
between two currencies through their dollar rates. A rate comes either from that table or from
a remote quote service.

The model has two parts.

- **Rate registry.** The Entity Framework table becomes an in-memory sequence of `Currency`
  rows plus the identity counter (seeded at 1, step 1). `Registry` holds this as a value
  (`Store`) with the transitions `Add`, `Remove` and `Update`. `Manager.CurrencyManager` is a
  class over the same state. Its `AddCurrency`, `RemoveCurrency` and `UpdateCurrency` change
  the rows in place and are proved to perform those transitions. The record invariant is
  proved to hold after every successful change:
  - every code is 3 upper-case characters;
  - every rate is at least 0;
  - no two rows share a code or an id;
  - every id is below the counter.

  Adding upper-cases the code. Every lookup (`GetCurrencyByCurrencyCode`, and through it
  remove, update and the database rate) compares the code exactly as given. So a lower-case
  code is stored upper-cased but can never be found, removed or updated.
- **Rate resolution and conversion.** `GetCurrencyExchangeRate` reads the rate of the row
  with the code, or asks the remote source. `ConvertCurrency` works in this order:
  - it refuses a negative amount before any lookup;
  - it resolves the `from` rate, then the `to` rate, from the same source, and stops at the
    first failure;
  - it computes `amount * toRate / fromRate` and rounds it to cents with `Math.Round`'s
    default ties-to-even rule.

  A zero `fromRate` makes the `double` quotient infinite, or NaN when `toRate` is zero as
  well. `Convert.ToDecimal` then raises
  `OverflowException`, modelled as `DecimalOverflow`. An overflowing quotient or product
  raises the same error.

Thrown exceptions become `Err`/`Fail` values of `Currencies.Error`. A missing row (C# `null`)
becomes `None`. The remote quote service becomes a parameter `remote: string -> Option<real>`.
`Scenarios` replays the console program on concrete states: it seeds five currencies, runs
its conversions, and runs its remove/add/update sequence on ARS.

The model follows the code, including:
- a zero `fromRate` raises `OverflowException`, not a distinct invalid-rate error;
- adding returns nothing, not the new id;
- a lookup that finds nothing yields `null`, modelled as `None`;
- rounding ties go to the even cent, not away from zero;
- there is no cancellation.

## Model

| member | source | states |
|---|---|---|
| Text.ToUpper | CurrencyConverter/CurrencyManager.cs:89-91 | upper-casing keeps the length, maps each character on its own, and yields upper-case text |
| Text.ToUpperOfUpperCase | CurrencyConverter/CurrencyManager.cs:89-91 | upper-case text is left unchanged by upper-casing |
| Text.ToUpperIdempotent | CurrencyConverter/CurrencyManager.cs:89-91 | upper-casing twice equals upper-casing once |
| Currencies.Currency | CurrencyConverter/CurrencyManager.cs:166-174 | a row is an id, a code and a rate; the code length and rate range attributes are the record invariant `Registry.Valid` |
| Currencies.IndexOfCode | CurrencyConverter/CurrencyManager.cs:63 | yields the first position whose code equals the argument exactly, or nothing exactly when no row has it |
| Currencies.IndexOfId | CurrencyConverter/CurrencyManager.cs:56 | yields the first position with the id, or nothing exactly when no row has it |
| Currencies.GetCurrencyByCurrencyCode | CurrencyConverter/CurrencyManager.cs:59-65 | yields a row of the table with exactly that code; nothing (null) exactly when no row has it |
| Currencies.GetCurrencyById | CurrencyConverter/CurrencyManager.cs:52-58 | yields a row of the table with that id; nothing exactly when no row has it |
| Registry.Valid | CurrencyConverter/CurrencyManager.cs:166-174 | every row has a 3-character upper-case code and a rate of at least 0, ids below the counter, and no two rows share a code or an id |
| Registry.Add | CurrencyConverter/CurrencyManager.cs:75-100 | succeeds exactly when the code has 3 characters, the rate is at least 0 and no row has the upper-cased code; then one row is appended after the unchanged old rows, the upper-cased code is present and the counter advances by one |
| Registry.Remove | CurrencyConverter/CurrencyManager.cs:103-120 | succeeds exactly when a row has the code as given, failing otherwise with the unknown-code error; then the rows left plus the found row are the old rows as a multiset, and the counter is unchanged |
| Registry.Update | CurrencyConverter/CurrencyManager.cs:123-147 | succeeds exactly when the rate is at least 0 and a row has the code as given; then every row keeps its position, id and code, the counter is unchanged, and the code looks up with the new rate |
| Registry.EmptyIsValid | CurrencyConverter/Migrations/20200606064944_CreateBankDB.cs:13-14 | a fresh table has no rows, a counter at 1, and meets the invariant |
| Registry.LookupsFindTheRow | CurrencyConverter/CurrencyManager.cs:52-65 | in a valid table, lookup by a row's code and lookup by its id both return that row |
| Registry.AddValidatesFirst | CurrencyConverter/CurrencyManager.cs:77-85 | a length other than 3 fails first; then a negative rate fails; a rate of exactly 0 passes the rate check |
| Registry.AddDuplicateIsCaseInsensitive | CurrencyConverter/CurrencyManager.cs:89-98 | in a valid table a well-formed add fails, with the duplicate error, exactly when a stored code upper-cases to the new code's upper-case form |
| Registry.AddPreservesValid | CurrencyConverter/CurrencyManager.cs:170-174 | a successful add keeps the record invariant: 3-character upper-case codes, rates at least 0, unique codes and ids |
| Registry.AddThenGet | CurrencyConverter/CurrencyManager.cs:89-98 | a successful add appends exactly one row after the unchanged old rows; looking up the upper-cased code finds the new id, code and rate; every other code looks up as before |
| Registry.RemovedIdNotReused | CurrencyConverter/Migrations/20200606064944_CreateBankDB.cs:13-14 | a row added after a removal never gets the removed row's id |
| Registry.RemovedRows | CurrencyConverter/CurrencyManager.cs:111 | removal drops exactly the found row and keeps the others in order |
| Registry.RemoveSpec | CurrencyConverter/CurrencyManager.cs:105-118 | removal fails with the unknown-code error exactly when no row has the code as given; on success, that code is gone, the counter is unchanged, and the rows left are exactly the old rows with another code |
| Registry.RemovePreservesValid | CurrencyConverter/CurrencyManager.cs:105-118 | a successful removal keeps the record invariant |
| Registry.UpdateSpec | CurrencyConverter/CurrencyManager.cs:125-145 | a negative rate fails first, then a code with no row; otherwise every row keeps its id and code, the row with the code gets the new rate, and all other rates stay the same |
| Registry.UpdatePreservesValid | CurrencyConverter/CurrencyManager.cs:125-145 | a successful update keeps the record invariant |
| Registry.UpdateThenGet | CurrencyConverter/CurrencyManager.cs:132-140 | after an update, looking up the code finds the same row with the new rate |
| Registry.UpdateIdempotent | CurrencyConverter/CurrencyManager.cs:132-140 | the same update applied twice gives the same store as applying it once |
| Registry.SameCodesSameIndex | CurrencyConverter/CurrencyManager.cs:63 | the exact lookup depends only on the rows' codes, so changing rates never moves it |
| Registry.LowerCaseCodeNeverFound | CurrencyConverter/CurrencyManager.cs:63 | in a valid table a code with a lower-case letter is never found, so removing it and updating it (at a rate of at least 0) fail |
| Manager.CurrencyManager.constructor | CurrencyConverter/Migrations/20200606064944_CreateBankDB.cs:9-21 | a new manager starts on an empty valid table with its counter at 1 |
| Manager.CurrencyManager.AddCurrency | CurrencyConverter/CurrencyManager.cs:75-100 | returns the outcome of the add and leaves exactly the add's new state, or the old state on failure; keeps the invariant |
| Manager.CurrencyManager.RemoveCurrency | CurrencyConverter/CurrencyManager.cs:103-120 | returns the outcome of the removal and leaves exactly its new state, or the old state on failure; keeps the invariant |
| Manager.CurrencyManager.UpdateCurrency | CurrencyConverter/CurrencyManager.cs:123-147 | returns the outcome of the update and leaves exactly its new state, or the old state on failure; keeps the invariant |
| Manager.CurrencyManager.GetAllCurrencies | CurrencyConverter/CurrencyManager.cs:66-72 | returns every row in the store's order; each has a 3-character upper-case code and a rate of at least 0 |
| Conversion.Round2 | CurrencyConverter/CurrencyManager.cs:33 | the result is a whole number of cents within half a cent of the input; on a tie it is the even cent |
| Conversion.Round2Unique | CurrencyConverter/CurrencyManager.cs:33 | any whole number of cents less than half a cent from the input is the rounded value |
| Conversion.Round2OfCents | CurrencyConverter/CurrencyManager.cs:33 | rounding an amount that is already whole cents leaves it unchanged |
| Conversion.Round2Idempotent | CurrencyConverter/CurrencyManager.cs:33 | rounding twice equals rounding once |
| Conversion.Round2Monotone | CurrencyConverter/CurrencyManager.cs:33 | rounding never reverses the order of two amounts |
| Conversion.GetCurrencyExchangeRate | CurrencyConverter/CurrencyManager.cs:37-49 | with useAPI, succeeds exactly when the remote source gives a rate, and returns that rate; otherwise succeeds exactly when a row has the code, returns that row's rate, and fails with no default rate when no row has it |
| Conversion.ConvertCurrency | CurrencyConverter/CurrencyManager.cs:18-34 | a negative amount fails whatever the rates; every result is a whole number of cents |
| Conversion.ConvertAtRates | CurrencyConverter/CurrencyManager.cs:30-33 | succeeds exactly when fromRate is nonzero and both toRate / fromRate and its product with the amount fit a decimal; its only failure is the decimal overflow; a result lies within half a cent of amount * toRate / fromRate, in whole cents |
| Conversion.DatabaseRateOfRow | CurrencyConverter/CurrencyManager.cs:47 | in a valid table the database rate of a stored code is the rate of its row |
| Conversion.DatabaseRateNonNegative | CurrencyConverter/CurrencyManager.cs:173-174 | a database rate read from a valid table is at least 0 |
| Conversion.RemoteRateIgnoresTable | CurrencyConverter/CurrencyManager.cs:39-44 | the remote path gives the same result whatever the table holds |
| Conversion.ConvertPropagatesLookupFailure | CurrencyConverter/CurrencyManager.cs:26-27 | a failed `from` lookup aborts the conversion with that lookup's error; otherwise a failed `to` lookup aborts it with its error |
| Conversion.ConvertResult | CurrencyConverter/CurrencyManager.cs:20-33 | a successful conversion had a non-negative amount and two resolved rates, and is `ConvertAtRates` of those rates |
| Conversion.ConvertAtRatesOfRates | CurrencyConverter/CurrencyManager.cs:20-33 | with a non-negative amount and both rates resolved, a conversion is `ConvertAtRates` of those rates |
| Conversion.ConvertAtResolvedRates | CurrencyConverter/CurrencyManager.cs:20-33 | with a non-negative amount and both rates resolved, a conversion succeeds exactly when fromRate is nonzero and the quotient and product fit a decimal, and then equals amount * toRate / fromRate rounded to cents |
| Conversion.ConvertSameCode | CurrencyConverter/CurrencyManager.cs:26-33 | converting a code to itself at a nonzero rate, from either source, gives the amount rounded to cents |
| Conversion.ConvertMonotone | CurrencyConverter/CurrencyManager.cs:26-33 | from the database of a valid table, a larger amount never converts to less |
| Conversion.ConvertAtRatesMonotone | CurrencyConverter/CurrencyManager.cs:30-33 | at rates of at least 0, a larger amount never converts to less |
| Scenarios.AddAll | CurrencyConverter/Program.cs:38-53 | a successful run of adds appends one row per entry, in order, with consecutive ids, the upper-cased code and the rate, after the unchanged old rows, and advances the counter by the number of entries |
| Scenarios.AddAllPreservesValid | CurrencyConverter/Program.cs:38-53 | any run of successful adds from a valid table ends in a valid table |
| Scenarios.SeedSteps | CurrencyConverter/Program.cs:46-50 | each of the five seeding adds appends its row with the next id |
| Scenarios.SeedStore | CurrencyConverter/Program.cs:46-50 | seeding an empty table stores USD, ARS, EUR, PHP and BRL with ids 1 to 5, and the result is valid |
| Scenarios.SeedConversionArsToUsd | CurrencyConverter/Program.cs:18 | on the seeded table 7000 ARS converts to 100.72 USD |
| Scenarios.SeedConversionUsdToPhp | CurrencyConverter/Program.cs:20 | on the seeded table 1 USD converts to 43.12 PHP |
| Scenarios.SeedConversionUsdToEur | CurrencyConverter/CurrencyManager.cs:18-34 | on the seeded table 100 USD converts to 89.00 EUR from the database |
| Scenarios.CrudSteps | CurrencyConverter/Program.cs:23-25 | removing ARS, adding it at 69.17 and updating it to 69.20 gives the expected store at each step |
| Scenarios.ProgramCrud | CurrencyConverter/Program.cs:23-28 | after the console program's remove/add/update on ARS, ARS has rate 69.20 under the new id 6, and EUR still has rate 0.89 |
| Scenarios.LowerCaseCodeExample | CurrencyConverter/CurrencyManager.cs:89-91 | adding "ars" stores "ARS"; then looking up "ars" finds nothing, removing "ars" fails, and adding "Ars" is a duplicate |

## Left out

- The remote quote service is a parameter of the model. The HTTP GET to the exchange-rate API,
  its URL building and the dynamic JSON decoding are not modelled. A failed call or a missing
  code both become `RemoteRateMissing`.
- Entity Framework and SQL Server are not modelled: the connection string, the per-call
  contexts, `SaveChanges` and migrations. Each CRUD call is one atomic step on the in-memory
  table. `RemoveCurrency` looks the code up twice; the model assumes nothing runs in between.
- The database collation is not modelled. Codes compare as ordinal text, as the C# expressions
  read.
- Text.ToUpper: maps only the ASCII letters a–z. Culture-specific case mappings of `String.ToUpper`
  (accented letters, the Turkish dotted i) are not modelled.
- Conversion.ConvertCurrency: rates and amounts are exact reals. The model leaves out the
  rounding of the `double` division and `Convert.ToDecimal`'s rounding to 15 significant
  digits, so results are not claimed bit-exact. NaN and infinite rates cannot be stored or
  given by the remote source in the model.
- Conversion.ConvertSameCode: the two remote lookups of one conversion are one function
  `remote`, so both see the same quote. In the source they are two HTTP calls, and the quote
  can change between them.
- Conversion.ConvertAtRates: the decimal range is checked on the exact quotient and product. A
  value within a hair of the range limit might round differently in the source.
- Registry.Add: the length check counts characters (Unicode scalar values). C#'s
  `String.Length` counts UTF-16 code units, so a code such as "a" followed by U+1F600 has
  length 3 in the source but is refused here with `InvalidCodeLength`.
- Manager.CurrencyManager.AddCurrency: rates are exact reals. The source's `exchangeRate < 0`
  test (CurrencyManager.cs line 82) lets NaN and +∞ through to `SaveChanges`, where SQL
  Server, whose `float` holds neither, refuses them; the model has neither value.
- Manager.CurrencyManager.UpdateCurrency: as for adding, the `exchangeRate < 0` test
  (CurrencyManager.cs line 125) lets NaN and +∞ through to `SaveChanges`, which SQL Server
  refuses; the model has neither value.
- Null strings are not modelled. In the source, `AddCurrency(null, …)` raises
  `NullReferenceException`.
- The identity column is a plain counter. SQL Server's identity gaps and reseeding are not
  modelled. `CurrencyId` is a 32-bit `int` (CurrencyManager.cs line 168), but the counter is
  unbounded, so an insert past 2^31 - 1, which SQL Server refuses, succeeds in the model.
- The two "not found" messages ("Cannot remove a null", "Cannot update a null") become one
  error, `UnknownCode`. Likewise the add and update "ExchangeRate" messages become one error,
  `NegativeRate`.
- `Currency.ToString` (display formatting) and the console entry point `Program.Main`
  (printing, `ReadKey`) are not modelled. The remote-rate conversions in `Program.Main` depend
  on live quotes and are not replayed.
- There is no cancellation, timeout or retry. The source has none.
