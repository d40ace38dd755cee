/**
 * The Currency table as the program changes it: `AddCurrency`, `RemoveCurrency` and
 * `UpdateCurrency` check their input and then change the rows in place. Each method is proved
 * to perform the transition of the same name in `Registry` and to keep the table's invariant.
 */
module Manager {
  import opened Wrappers
  import opened Text
  import opened Currencies
  import Registry

  class CurrencyManager {
    /** The rows of the Currency table, in the store's order. */
    var records: seq<Currency>
    /** The value the identity column hands out next. */
    var nextId: int

    ghost function State(): Registry.Store
      reads this
    {
      Registry.Store(records, nextId)
    }

    ghost predicate Valid()
      reads this
    {
      Registry.Valid(State())
    }

    /** A manager over a freshly created, empty table. */
    constructor ()
      ensures Valid() && State() == Registry.Empty
    {
      records := [];
      nextId := 1;
    }

    method AddCurrency(code: string, rate: real) returns (outcome: Outcome<Error>)
      requires Valid()
      modifies this
      ensures Valid()
      ensures outcome == Registry.Add(old(State()), code, rate).ToOutcome()
      ensures State() == Registry.Add(old(State()), code, rate).GetOr(old(State()))
    {
      if |code| != 3 {
        return Fail(InvalidCodeLength);
      }
      if rate < 0.0 {
        return Fail(NegativeRate);
      }
      var upper := ToUpper(code);
      if HasCode(records, upper) {
        return Fail(DuplicateCode);
      }
      Registry.AddPreservesValid(State(), code, rate);
      records := records + [Currency(nextId, upper, rate)];
      nextId := nextId + 1;
      return Pass;
    }

    method RemoveCurrency(code: string) returns (outcome: Outcome<Error>)
      requires Valid()
      modifies this
      ensures Valid()
      ensures outcome == Registry.Remove(old(State()), code).ToOutcome()
      ensures State() == Registry.Remove(old(State()), code).GetOr(old(State()))
    {
      var found := IndexOfCode(records, code);
      if found.None? {
        return Fail(UnknownCode);
      }
      var i := found.value;
      Registry.RemovePreservesValid(State(), code);
      records := records[..i] + records[i + 1..];
      return Pass;
    }

    method UpdateCurrency(code: string, rate: real) returns (outcome: Outcome<Error>)
      requires Valid()
      modifies this
      ensures Valid()
      ensures outcome == Registry.Update(old(State()), code, rate).ToOutcome()
      ensures State() == Registry.Update(old(State()), code, rate).GetOr(old(State()))
    {
      if rate < 0.0 {
        return Fail(NegativeRate);
      }
      var found := IndexOfCode(records, code);
      if found.None? {
        return Fail(UnknownCode);
      }
      var i := found.value;
      var currency := records[i];
      currency := currency.(rate := rate);
      Registry.UpdatePreservesValid(State(), code, rate);
      records := records[i := currency];
      return Pass;
    }

    /** `GetAllCurrencies`: every row of the table, in the store's order; all of them valid. */
    method GetAllCurrencies() returns (all: seq<Currency>)
      requires Valid()
      ensures all == records
      ensures forall i :: 0 <= i < |all| ==> |all[i].code| == 3 && IsUpperCase(all[i].code) && all[i].rate >= 0.0
    {
      all := records;
    }
  }
}
