/**
 * Concrete runs of the core: the five currencies the console program seeds an empty database
 * with, its conversions against them, its remove/add/update sequence on ARS, and what the
 * exact-text lookups do with a lower-case code.
 */
module Scenarios {
  import opened Wrappers
  import Text
  import opened Currencies
  import opened Registry
  import opened Conversion
  import Manager

  /**
   * Adds the entries one after the other, stopping at the first failure; a run that succeeds
   * appends one row per entry, in order and with consecutive ids, after the rows already there.
   */
  function AddAll(s: Store, entries: seq<(string, real)>): (r: Result<Store, Error>)
    ensures r.Ok? ==> && r.value.nextId == s.nextId + |entries|
                      && |r.value.records| == |s.records| + |entries|
                      && r.value.records[..|s.records|] == s.records
                      && (forall k :: 0 <= k < |entries| ==>
                            r.value.records[|s.records| + k]
                              == Currency(s.nextId + k, Text.ToUpper(entries[k].0), entries[k].1))
    decreases |entries|
  {
    if entries == [] then Ok(s)
    else
      var next :- Add(s, entries[0].0, entries[0].1);
      AddAll(next, entries[1..])
  }

  /** Any run of adds from a valid table ends in a valid table. */
  lemma {:induction false} AddAllPreservesValid(s: Store, entries: seq<(string, real)>)
    requires Valid(s) && AddAll(s, entries).Ok?
    ensures Valid(AddAll(s, entries).value)
    decreases |entries|
  {
    if entries != [] {
      AddPreservesValid(s, entries[0].0, entries[0].1);
      AddAllPreservesValid(Add(s, entries[0].0, entries[0].1).value, entries[1..]);
    }
  }

  const SeedEntries: seq<(string, real)> :=
    [("USD", 1.0), ("ARS", 69.50), ("EUR", 0.89), ("PHP", 43.1232), ("BRL", 4.82)]

  const Usd := Currency(1, "USD", 1.0)
  const Ars := Currency(2, "ARS", 69.50)
  const Eur := Currency(3, "EUR", 0.89)
  const Php := Currency(4, "PHP", 43.1232)
  const Brl := Currency(5, "BRL", 4.82)

  /** The table the console program seeds an empty database with. */
  const SeedRecords: seq<Currency> := [Usd, Ars, Eur, Php, Brl]

  /** Adding a code already in upper case that no row has appends exactly one row. */
  lemma AddFresh(s: Store, code: string, rate: real)
    requires |code| == 3 && Text.IsUpperCase(code) && rate >= 0.0
    requires forall i :: 0 <= i < |s.records| ==> s.records[i].code != code
    ensures Add(s, code, rate) == Ok(Store(s.records + [Currency(s.nextId, code, rate)], s.nextId + 1))
  {
    Text.ToUpperOfUpperCase(code);
  }

  /** The exact lookup of a code finds the first row that has it. */
  lemma IndexOfCodeAt(t: seq<Currency>, i: nat)
    requires i < |t| && forall j :: 0 <= j < i ==> t[j].code != t[i].code
    ensures IndexOfCode(t, t[i].code) == Some(i)
  {
  }

  /** The five seeding adds, one at a time. */
  lemma SeedSteps()
    ensures Add(Empty, "USD", 1.0) == Ok(Store([Usd], 2))
    ensures Add(Store([Usd], 2), "ARS", 69.50) == Ok(Store([Usd, Ars], 3))
    ensures Add(Store([Usd, Ars], 3), "EUR", 0.89) == Ok(Store([Usd, Ars, Eur], 4))
    ensures Add(Store([Usd, Ars, Eur], 4), "PHP", 43.1232) == Ok(Store([Usd, Ars, Eur, Php], 5))
    ensures Add(Store([Usd, Ars, Eur, Php], 5), "BRL", 4.82) == Ok(Store(SeedRecords, 6))
  {
    SeedUsd();
    SeedArs();
    SeedEur();
    SeedPhp();
    SeedBrl();
  }

  lemma SeedUsd()
    ensures Add(Empty, "USD", 1.0) == Ok(Store([Usd], 2))
  {
    AddFresh(Empty, "USD", 1.0);
    assert [] + [Usd] == [Usd];
  }

  lemma SeedArs()
    ensures Add(Store([Usd], 2), "ARS", 69.50) == Ok(Store([Usd, Ars], 3))
  {
    AddFresh(Store([Usd], 2), "ARS", 69.50);
    assert [Usd] + [Ars] == [Usd, Ars];
  }

  lemma SeedEur()
    ensures Add(Store([Usd, Ars], 3), "EUR", 0.89) == Ok(Store([Usd, Ars, Eur], 4))
  {
    AddFresh(Store([Usd, Ars], 3), "EUR", 0.89);
    assert [Usd, Ars] + [Eur] == [Usd, Ars, Eur];
  }

  lemma SeedPhp()
    ensures Add(Store([Usd, Ars, Eur], 4), "PHP", 43.1232) == Ok(Store([Usd, Ars, Eur, Php], 5))
  {
    AddFresh(Store([Usd, Ars, Eur], 4), "PHP", 43.1232);
    assert [Usd, Ars, Eur] + [Php] == [Usd, Ars, Eur, Php];
  }

  lemma SeedBrl()
    ensures Add(Store([Usd, Ars, Eur, Php], 5), "BRL", 4.82) == Ok(Store(SeedRecords, 6))
  {
    AddFresh(Store([Usd, Ars, Eur, Php], 5), "BRL", 4.82);
    assert [Usd, Ars, Eur, Php] + [Brl] == SeedRecords;
  }

  /** Seeding an empty database stores the five rows with ids 1 to 5, and the table is valid. */
  lemma SeedStore()
    ensures AddAll(Empty, SeedEntries) == Ok(Store(SeedRecords, 6))
    ensures Valid(Store(SeedRecords, 6))
  {
    SeedSteps();
    assert SeedEntries[1..] == [("ARS", 69.50), ("EUR", 0.89), ("PHP", 43.1232), ("BRL", 4.82)];
    assert SeedEntries[1..][1..] == [("EUR", 0.89), ("PHP", 43.1232), ("BRL", 4.82)];
    assert SeedEntries[1..][1..][1..] == [("PHP", 43.1232), ("BRL", 4.82)];
    assert SeedEntries[1..][1..][1..][1..] == [("BRL", 4.82)];
    assert AddAll(Store(SeedRecords, 6), []) == Ok(Store(SeedRecords, 6));
    AddAllPreservesValid(Empty, SeedEntries);
  }

  /** 7000 ARS is 100.72 USD on the seeded table. */
  lemma SeedConversionArsToUsd(remote: string -> Option<real>)
    ensures ConvertCurrency(SeedRecords, remote, "ARS", "USD", 7000.0, false) == Ok(100.72)
  {
    SeedStore();
    DatabaseRateOfRow(Store(SeedRecords, 6), remote, 1);
    DatabaseRateOfRow(Store(SeedRecords, 6), remote, 0);
    assert ConvertAtRates(69.50, 1.0, 7000.0) == Ok(Round2(1.0 / 69.50 * 7000.0));
    Round2Unique(1.0 / 69.50 * 7000.0, 100.72);
  }

  /** 1 USD is 43.12 PHP on the seeded table. */
  lemma SeedConversionUsdToPhp(remote: string -> Option<real>)
    ensures ConvertCurrency(SeedRecords, remote, "USD", "PHP", 1.0, false) == Ok(43.12)
  {
    SeedStore();
    DatabaseRateOfRow(Store(SeedRecords, 6), remote, 0);
    DatabaseRateOfRow(Store(SeedRecords, 6), remote, 3);
    assert ConvertAtRates(1.0, 43.1232, 1.0) == Ok(Round2(43.1232 / 1.0 * 1.0));
    Round2Unique(43.1232 / 1.0 * 1.0, 43.12);
  }

  /** 100 USD is 89.00 EUR on the seeded table. */
  lemma SeedConversionUsdToEur(remote: string -> Option<real>)
    ensures ConvertCurrency(SeedRecords, remote, "USD", "EUR", 100.0, false) == Ok(89.00)
  {
    SeedStore();
    DatabaseRateOfRow(Store(SeedRecords, 6), remote, 0);
    DatabaseRateOfRow(Store(SeedRecords, 6), remote, 2);
    assert ConvertAtRates(1.0, 0.89, 100.0) == Ok(Round2(0.89 / 1.0 * 100.0));
    Round2Unique(0.89 / 1.0 * 100.0, 89.00);
  }

  /**
   * The console program's CRUD sequence on the seeded table: removing ARS, adding it back at
   * 69.17 and updating it to 69.20 leaves ARS at 69.20 under a new id, and EUR untouched.
   */
  method ProgramCrud() returns (ars: Option<Currency>, eur: Option<Currency>)
    ensures ars == Some(Currency(6, "ARS", 69.20))
    ensures eur == Some(Currency(3, "EUR", 0.89))
  {
    var m := new Manager.CurrencyManager();
    SeedSteps();
    var o := m.AddCurrency("USD", 1.0);
    o := m.AddCurrency("ARS", 69.50);
    o := m.AddCurrency("EUR", 0.89);
    o := m.AddCurrency("PHP", 43.1232);
    o := m.AddCurrency("BRL", 4.82);
    CrudSteps();
    o := m.RemoveCurrency("ARS");
    o := m.AddCurrency("ARS", 69.17);
    o := m.UpdateCurrency("ARS", 69.20);
    ars := GetCurrencyByCurrencyCode(m.records, "ARS");
    eur := GetCurrencyByCurrencyCode(m.records, "EUR");
  }

  const AfterRemove: seq<Currency> :=
    [Currency(1, "USD", 1.0), Currency(3, "EUR", 0.89), Currency(4, "PHP", 43.1232), Currency(5, "BRL", 4.82)]

  /** Remove ARS, add it back at 69.17, update it to 69.20, and look ARS and EUR up. */
  lemma CrudSteps()
    ensures Remove(Store(SeedRecords, 6), "ARS") == Ok(Store(AfterRemove, 6))
    ensures Add(Store(AfterRemove, 6), "ARS", 69.17) == Ok(Store(AfterRemove + [Currency(6, "ARS", 69.17)], 7))
    ensures Update(Store(AfterRemove + [Currency(6, "ARS", 69.17)], 7), "ARS", 69.20)
              == Ok(Store(AfterRemove + [Currency(6, "ARS", 69.20)], 7))
    ensures GetCurrencyByCurrencyCode(AfterRemove + [Currency(6, "ARS", 69.20)], "ARS") == Some(Currency(6, "ARS", 69.20))
    ensures GetCurrencyByCurrencyCode(AfterRemove + [Currency(6, "ARS", 69.20)], "EUR") == Some(Currency(3, "EUR", 0.89))
  {
    IndexOfCodeAt(SeedRecords, 1);
    assert SeedRecords[..1] + SeedRecords[2..] == AfterRemove;
    AddFresh(Store(AfterRemove, 6), "ARS", 69.17);
    var readded := AfterRemove + [Currency(6, "ARS", 69.17)];
    IndexOfCodeAt(readded, 4);
    assert readded[4 := readded[4].(rate := 69.20)] == AfterRemove + [Currency(6, "ARS", 69.20)];
    IndexOfCodeAt(AfterRemove + [Currency(6, "ARS", 69.20)], 4);
    IndexOfCodeAt(AfterRemove + [Currency(6, "ARS", 69.20)], 1);
  }

  /**
   * Adding "ars" stores "ARS"; afterwards the exact lookup of "ars" finds nothing, so removing
   * "ars" fails, while adding "Ars" is refused as a duplicate.
   */
  lemma LowerCaseCodeExample()
    ensures Add(Empty, "ars", 69.5) == Ok(Store([Currency(1, "ARS", 69.5)], 2))
    ensures GetCurrencyByCurrencyCode([Currency(1, "ARS", 69.5)], "ars") == None
    ensures GetCurrencyByCurrencyCode([Currency(1, "ARS", 69.5)], "ARS") == Some(Currency(1, "ARS", 69.5))
    ensures Remove(Store([Currency(1, "ARS", 69.5)], 2), "ars") == Err(UnknownCode)
    ensures Add(Store([Currency(1, "ARS", 69.5)], 2), "Ars", 1.0) == Err(DuplicateCode)
  {
    var upper := Text.ToUpper("ars");
    assert upper[0] == 'A' && upper[1] == 'R' && upper[2] == 'S';
    assert upper == "ARS";
    var mixed := Text.ToUpper("Ars");
    assert mixed[0] == 'A' && mixed[1] == 'R' && mixed[2] == 'S';
    assert mixed == "ARS";
    assert [] + [Currency(1, "ARS", 69.5)] == [Currency(1, "ARS", 69.5)];
  }
}
