/**
 * The `Currency` record and the read side of the Currency table: lookups by code and by id.
 * A table is the sequence of its rows in the store's own order.
 */
module Currencies {
  import opened Wrappers

  /**
   * One row of the Currency table: the identity-column id, the currency code and the
   * exchange rate, in units of this currency per US dollar (a `double` in the source).
   */
  datatype Currency = Currency(id: int, code: string, rate: real)

  /** The exceptions the core raises, one per distinct failure of the source. */
  datatype Error =
    | InvalidCodeLength   // ArgumentException: the code is not 3 characters long
    | NegativeRate        // ArgumentException: a rate below 0 on add or update
    | DuplicateCode       // ArgumentException: the upper-cased code is already stored
    | UnknownCode         // ArgumentException: remove or update of a code with no row
    | NegativeAmount      // ArgumentException: a conversion of an amount below 0
    | RateNotFound        // NullReferenceException: the database has no row for the code
    | RemoteRateMissing   // the remote quote gave no rate for the code (or the call failed)
    | DecimalOverflow     // OverflowException: a quotient or product outside the decimal range

  /** Some row of `table` has exactly the code `code`. */
  predicate HasCode(table: seq<Currency>, code: string) {
    exists i :: 0 <= i < |table| && table[i].code == code
  }

  /** Some row of `table` has the id `id`. */
  predicate HasId(table: seq<Currency>, id: int) {
    exists i :: 0 <= i < |table| && table[i].id == id
  }

  /** The position of the first row whose code equals `code` exactly (no case folding). */
  function IndexOfCode(table: seq<Currency>, code: string): (r: Option<nat>)
    ensures r.None? <==> !HasCode(table, code)
    ensures r.Some? ==> r.value < |table| && table[r.value].code == code
    ensures r.Some? ==> forall j :: 0 <= j < r.value ==> table[j].code != code
  {
    if table == [] then None
    else if table[0].code == code then Some(0)
    else
      match IndexOfCode(table[1..], code)
      case None =>
        assert forall i :: 1 <= i < |table| ==> table[i] == table[1..][i - 1];
        None
      case Some(i) => Some(i + 1)
  }

  /** The position of the first row whose id is `id`. */
  function IndexOfId(table: seq<Currency>, id: int): (r: Option<nat>)
    ensures r.None? <==> !HasId(table, id)
    ensures r.Some? ==> r.value < |table| && table[r.value].id == id
    ensures r.Some? ==> forall j :: 0 <= j < r.value ==> table[j].id != id
  {
    if table == [] then None
    else if table[0].id == id then Some(0)
    else
      match IndexOfId(table[1..], id)
      case None =>
        assert forall i :: 1 <= i < |table| ==> table[i] == table[1..][i - 1];
        None
      case Some(i) => Some(i + 1)
  }

  /**
   * `GetCurrencyByCurrencyCode`: the first row whose code equals `code` as given,
   * or nothing (the source's `FirstOrDefault` null) when no row has it.
   */
  function GetCurrencyByCurrencyCode(table: seq<Currency>, code: string): (r: Option<Currency>)
    ensures r.None? <==> !HasCode(table, code)
    ensures r.Some? ==> r.value in table && r.value.code == code
  {
    match IndexOfCode(table, code)
    case None => None
    case Some(i) => Some(table[i])
  }

  /** `GetCurrencyById`: the row with primary key `id`, or nothing. */
  function GetCurrencyById(table: seq<Currency>, id: int): (r: Option<Currency>)
    ensures r.None? <==> !HasId(table, id)
    ensures r.Some? ==> r.value in table && r.value.id == id
  {
    match IndexOfId(table, id)
    case None => None
    case Some(i) => Some(table[i])
  }
}
