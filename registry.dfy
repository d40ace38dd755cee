/**
 * The write side of the Currency table as a value: the rows plus the identity counter, the
 * three checked changes (`AddCurrency`, `RemoveCurrency`, `UpdateCurrency`) as transitions
 * from one store to the next, and the record invariant they keep.
 */
module Registry {
  import opened Wrappers
  import opened Text
  import opened Currencies

  /** The table's rows and the next value its identity column will hand out. */
  datatype Store = Store(records: seq<Currency>, nextId: int)

  /** A fresh database: no rows, identity column seeded at 1 with increment 1. */
  const Empty := Store([], 1)

  /** A stored row: a 3-character upper-case code and a rate of at least 0. */
  ghost predicate ValidRecord(c: Currency) {
    |c.code| == 3 && IsUpperCase(c.code) && c.rate >= 0.0
  }

  /**
   * The invariant of the table: every row is valid and carries an id the identity column has
   * already handed out, and no two rows share a code or an id.
   */
  ghost predicate Valid(s: Store) {
    && 1 <= s.nextId
    && (forall i :: 0 <= i < |s.records| ==> ValidRecord(s.records[i]) && 1 <= s.records[i].id < s.nextId)
    && (forall i, j :: 0 <= i < j < |s.records| ==>
          s.records[i].code != s.records[j].code && s.records[i].id != s.records[j].id)
  }

  /** The ids present in the table. */
  ghost function Ids(s: Store): set<int> {
    set i | 0 <= i < |s.records| :: s.records[i].id
  }

  /**
   * `AddCurrency`: the length of the code as given is checked first, then the rate; then the
   * code is upper-cased, and a row with exactly that code makes the call fail; otherwise one
   * row with the next id, the upper-cased code and the rate is appended.
   */
  function Add(s: Store, code: string, rate: real): (r: Result<Store, Error>)
    ensures r.Ok? <==> |code| == 3 && rate >= 0.0 && !HasCode(s.records, ToUpper(code))
    ensures r.Ok? ==> && r.value.nextId == s.nextId + 1
                      && |r.value.records| == |s.records| + 1
                      && r.value.records[..|s.records|] == s.records
                      && HasCode(r.value.records, ToUpper(code))
  {
    if |code| != 3 then Err(InvalidCodeLength)
    else if rate < 0.0 then Err(NegativeRate)
    else if HasCode(s.records, ToUpper(code)) then Err(DuplicateCode)
    else
      var records := s.records + [Currency(s.nextId, ToUpper(code), rate)];
      assert records[|s.records|].code == ToUpper(code);
      Ok(Store(records, s.nextId + 1))
  }

  /** `RemoveCurrency`: deletes the row found by an exact lookup of `code`, or fails. */
  function Remove(s: Store, code: string): (r: Result<Store, Error>)
    ensures r.Ok? <==> HasCode(s.records, code)
    ensures r.Err? ==> r.error == UnknownCode
    ensures r.Ok? ==> && r.value.nextId == s.nextId
                      && multiset(r.value.records) + multiset{GetCurrencyByCurrencyCode(s.records, code).value}
                           == multiset(s.records)
  {
    match IndexOfCode(s.records, code)
    case None => Err(UnknownCode)
    case Some(i) =>
      assert s.records == s.records[..i] + [s.records[i]] + s.records[i + 1..];
      Ok(s.(records := s.records[..i] + s.records[i + 1..]))
  }

  /**
   * `UpdateCurrency`: the rate is checked first; then the row found by an exact lookup of
   * `code` gets the new rate, or the call fails when there is none.
   */
  function Update(s: Store, code: string, rate: real): (r: Result<Store, Error>)
    ensures r.Ok? <==> rate >= 0.0 && HasCode(s.records, code)
    ensures r.Ok? ==> && r.value.nextId == s.nextId
                      && |r.value.records| == |s.records|
                      && (forall j :: 0 <= j < |s.records| ==>
                            r.value.records[j].id == s.records[j].id
                            && r.value.records[j].code == s.records[j].code)
                      && GetCurrencyByCurrencyCode(r.value.records, code).value.rate == rate
  {
    if rate < 0.0 then Err(NegativeRate)
    else
      match IndexOfCode(s.records, code)
      case None => Err(UnknownCode)
      case Some(i) => Ok(s.(records := s.records[i := s.records[i].(rate := rate)]))
  }

  lemma EmptyIsValid()
    ensures Valid(Empty) && Empty.records == []
  {
  }

  /** With unique codes and ids, each lookup finds the one row that has the key. */
  lemma LookupsFindTheRow(s: Store, i: int)
    requires Valid(s) && 0 <= i < |s.records|
    ensures GetCurrencyByCurrencyCode(s.records, s.records[i].code) == Some(s.records[i])
    ensures GetCurrencyById(s.records, s.records[i].id) == Some(s.records[i])
  {
    var k := IndexOfCode(s.records, s.records[i].code);
    assert k.Some?;
    assert s.records[k.value].code == s.records[i].code;
    var m := IndexOfId(s.records, s.records[i].id);
    assert m.Some?;
    assert s.records[m.value].id == s.records[i].id;
  }

  /** The checks of `AddCurrency`, in the order the source makes them. */
  lemma AddValidatesFirst(s: Store, code: string, rate: real)
    ensures |code| != 3 ==> Add(s, code, rate) == Err(InvalidCodeLength)
    ensures |code| == 3 && rate < 0.0 ==> Add(s, code, rate) == Err(NegativeRate)
    ensures |code| == 3 && rate == 0.0 ==> Add(s, code, rate) != Err(NegativeRate)
  {
  }

  /**
   * In a valid table the duplicate check is case-insensitive: a well-formed add fails exactly
   * when some stored code upper-cases to the same text as the new one.
   */
  lemma AddDuplicateIsCaseInsensitive(s: Store, code: string, rate: real)
    requires Valid(s)
    requires |code| == 3 && rate >= 0.0
    ensures Add(s, code, rate).Err? <==>
              exists i :: 0 <= i < |s.records| && ToUpper(s.records[i].code) == ToUpper(code)
    ensures Add(s, code, rate).Err? ==> Add(s, code, rate).error == DuplicateCode
  {
    forall i | 0 <= i < |s.records|
      ensures ToUpper(s.records[i].code) == s.records[i].code
    {
      ToUpperOfUpperCase(s.records[i].code);
    }
  }

  lemma AddPreservesValid(s: Store, code: string, rate: real)
    requires Valid(s) && Add(s, code, rate).Ok?
    ensures Valid(Add(s, code, rate).value)
  {
    var s' := Add(s, code, rate).value;
    var n := |s.records|;
    forall i, j | 0 <= i < j < |s'.records|
      ensures s'.records[i].code != s'.records[j].code && s'.records[i].id != s'.records[j].id
    {
      if j == n {
        assert s'.records[i] == s.records[i];
        assert !HasCode(s.records, ToUpper(code));
      }
    }
  }

  /**
   * After a successful add, an exact lookup of the upper-cased code finds the new row with the
   * given rate, the earlier rows are kept as they were, and every other code looks up as before.
   */
  lemma AddThenGet(s: Store, code: string, rate: real, other: string)
    requires Add(s, code, rate).Ok?
    requires other != ToUpper(code)
    ensures var s' := Add(s, code, rate).value;
      && s'.records[..|s.records|] == s.records
      && |s'.records| == |s.records| + 1
      && GetCurrencyByCurrencyCode(s'.records, ToUpper(code)) == Some(Currency(s.nextId, ToUpper(code), rate))
      && GetCurrencyByCurrencyCode(s'.records, other) == GetCurrencyByCurrencyCode(s.records, other)
  {
    var s' := Add(s, code, rate).value;
    var n := |s.records|;
    assert s'.records[..n] == s.records;
    var k := IndexOfCode(s'.records, ToUpper(code));
    assert s'.records[n].code == ToUpper(code);
    assert k.Some?;
    assert !HasCode(s.records, ToUpper(code));
    PrefixLookup(s.records, s'.records, other);
  }

  /** An exact lookup of a code is not changed by appending rows that do not have it. */
  lemma PrefixLookup(t: seq<Currency>, u: seq<Currency>, code: string)
    requires |t| <= |u| && u[..|t|] == t
    requires forall i :: |t| <= i < |u| ==> u[i].code != code
    ensures GetCurrencyByCurrencyCode(u, code) == GetCurrencyByCurrencyCode(t, code)
  {
    assert forall i :: 0 <= i < |t| ==> t[i] == u[i];
  }

  /** Ids are never reused: a row added after a removal never takes the removed row's id. */
  lemma RemovedIdNotReused(s: Store, gone: string, code: string, rate: real)
    requires Valid(s) && Remove(s, gone).Ok?
    requires Add(Remove(s, gone).value, code, rate).Ok?
    ensures GetCurrencyByCurrencyCode(s.records, gone).value.id
              !in Ids(Add(Remove(s, gone).value, code, rate).value)
  {
    var s1 := Remove(s, gone).value;
    var s2 := Add(s1, code, rate).value;
    var i := IndexOfCode(s.records, gone).value;
    var id := s.records[i].id;
    assert s1.nextId == s.nextId;
    forall j | 0 <= j < |s2.records|
      ensures s2.records[j].id != id
    {
      if j < |s1.records| {
        if j < i {
          assert s2.records[j] == s.records[j];
        } else {
          assert s2.records[j] == s.records[j + 1];
        }
      }
    }
  }

  /** The rows left by removing the row at `i`, each with its position before the removal. */
  lemma RemovedRows(s: Store, code: string)
    requires Remove(s, code).Ok?
    ensures var i := IndexOfCode(s.records, code).value;
      var rest := Remove(s, code).value.records;
      && |rest| == |s.records| - 1
      && (forall j :: 0 <= j < i ==> rest[j] == s.records[j])
      && (forall j :: i <= j < |rest| ==> rest[j] == s.records[j + 1])
  {
  }

  /**
   * `RemoveCurrency` fails, changing nothing, exactly when no row has the code as given;
   * otherwise the code is gone and every other row is kept.
   */
  lemma RemoveSpec(s: Store, code: string)
    requires Valid(s)
    ensures Remove(s, code).Ok? <==> HasCode(s.records, code)
    ensures Remove(s, code).Err? ==> Remove(s, code).error == UnknownCode
    ensures Remove(s, code).Ok? ==>
      var s' := Remove(s, code).value;
      && s'.nextId == s.nextId
      && |s'.records| == |s.records| - 1
      && !HasCode(s'.records, code)
      && forall c :: c in s'.records <==> c in s.records && c.code != code
  {
    if Remove(s, code).Ok? {
      var s' := Remove(s, code).value;
      var i := IndexOfCode(s.records, code).value;
      RemovedRows(s, code);
      assert forall j :: 0 <= j < |s.records| && j != i ==> s.records[j].code != code;
      forall c | c in s.records && c.code != code
        ensures c in s'.records
      {
        var j :| 0 <= j < |s.records| && s.records[j] == c;
        assert s'.records[if j < i then j else j - 1] == c;
      }
    }
  }

  lemma RemovePreservesValid(s: Store, code: string)
    requires Valid(s) && Remove(s, code).Ok?
    ensures Valid(Remove(s, code).value)
  {
    RemovedRows(s, code);
  }

  /**
   * `UpdateCurrency` fails, changing nothing, on a negative rate or on a code no row has as
   * given; otherwise the rows keep their ids, codes and order, the row with the code gets the
   * new rate and every other row keeps its rate.
   */
  lemma UpdateSpec(s: Store, code: string, rate: real)
    requires Valid(s)
    ensures Update(s, code, rate).Ok? <==> rate >= 0.0 && HasCode(s.records, code)
    ensures rate < 0.0 ==> Update(s, code, rate) == Err(NegativeRate)
    ensures rate >= 0.0 && !HasCode(s.records, code) ==> Update(s, code, rate) == Err(UnknownCode)
    ensures Update(s, code, rate).Ok? ==>
      var s' := Update(s, code, rate).value;
      && s'.nextId == s.nextId
      && |s'.records| == |s.records|
      && forall i :: 0 <= i < |s.records| ==>
           && s'.records[i].id == s.records[i].id
           && s'.records[i].code == s.records[i].code
           && s'.records[i].rate == (if s.records[i].code == code then rate else s.records[i].rate)
  {
  }

  lemma UpdatePreservesValid(s: Store, code: string, rate: real)
    requires Valid(s) && Update(s, code, rate).Ok?
    ensures Valid(Update(s, code, rate).value)
  {
  }

  /** After a successful update, looking the code up finds its row with the new rate. */
  lemma UpdateThenGet(s: Store, code: string, rate: real)
    requires Valid(s) && Update(s, code, rate).Ok?
    ensures GetCurrencyByCurrencyCode(Update(s, code, rate).value.records, code)
              == Some(GetCurrencyByCurrencyCode(s.records, code).value.(rate := rate))
  {
    var s' := Update(s, code, rate).value;
    SameCodesSameIndex(s.records, s'.records, code);
  }

  /** Applying the same update twice leaves the store as applying it once. */
  lemma UpdateIdempotent(s: Store, code: string, rate: real)
    requires Update(s, code, rate).Ok?
    ensures Update(Update(s, code, rate).value, code, rate) == Update(s, code, rate)
  {
    var s' := Update(s, code, rate).value;
    var i := IndexOfCode(s.records, code).value;
    SameCodesSameIndex(s.records, s'.records, code);
    assert s'.records[i].(rate := rate) == s'.records[i];
    assert s'.records[i := s'.records[i]] == s'.records;
  }

  /** An exact lookup of a code depends on the rows' codes only. */
  lemma SameCodesSameIndex(t: seq<Currency>, u: seq<Currency>, code: string)
    requires |t| == |u| && forall i :: 0 <= i < |t| ==> t[i].code == u[i].code
    ensures IndexOfCode(t, code) == IndexOfCode(u, code)
  {
  }

  /**
   * Stored codes are upper case, so a code with a lower-case letter is never found: removing
   * or updating it fails, even though adding it would have stored its upper-case form.
   */
  lemma LowerCaseCodeNeverFound(s: Store, code: string, rate: real)
    requires Valid(s) && !IsUpperCase(code)
    ensures GetCurrencyByCurrencyCode(s.records, code) == None
    ensures Remove(s, code) == Err(UnknownCode)
    ensures rate >= 0.0 ==> Update(s, code, rate) == Err(UnknownCode)
  {
    var k :| 0 <= k < |code| && IsLowerLetter(code[k]);
    forall i | 0 <= i < |s.records|
      ensures s.records[i].code != code
    {
      assert ValidRecord(s.records[i]);
      if |s.records[i].code| == |code| {
        assert !IsLowerLetter(s.records[i].code[k]);
      }
    }
  }
}
