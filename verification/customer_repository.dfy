/** `CustomerRepository`: customers and their many-to-many list of countries,
    which is resolved from a list of country ids against the committed
    countries table. */
module CustomerRepository {
  import opened Wrappers
  import opened Entities
  import opened Store
  import Query

  predicate HasCustomer(db: Db, customerId: Guid)
  {
    exists i :: 0 <= i < |db.customers.rows| && db.customers.rows[i].customerId == customerId
  }

  /** `Countries.Where(c => countryIds.Contains(c.CountryId))`. */
  function CountriesWithIds(db: Db, countryIds: seq<Guid>): (r: seq<Country>)
    ensures forall k :: 0 <= k < |r| ==> r[k] in db.countries.rows && r[k].countryId in countryIds
    ensures forall k :: 0 <= k < |db.countries.rows| && db.countries.rows[k].countryId in countryIds ==>
              db.countries.rows[k] in r
  {
    Query.Where(db.countries.rows, (c: Country) => c.countryId in countryIds)
  }

  /** `countryIds.Distinct().Count()`. */
  function DistinctCount(ids: seq<Guid>): nat
  {
    |set id | id in ids|
  }

  /** The check both Add and Update make: as many countries found as distinct ids asked for. */
  predicate CountriesResolve(db: Db, countryIds: seq<Guid>)
  {
    |CountriesWithIds(db, countryIds)| == DistinctCount(countryIds)
  }

  /** The row the context tracks when `customer` is added: EF generates the
      key when it is still `Guid.Empty`, and keeps a key the caller set. */
  function WithKey(customer: Customer, generatedKey: Guid): Customer
  {
    if customer.customerId == EmptyGuid then customer.(customerId := generatedKey) else customer
  }

  /** Null when the ids do not resolve, with nothing tracked; otherwise the
      customer carries the countries found, in table order, and its key. */
  function AddCustomer(db: Db, customer: Customer, countryIds: seq<Guid>, generatedKey: Guid, fault: bool): (r: Step<Option<Customer>>)
    requires generatedKey != EmptyGuid
    ensures r.value.None? <==> !CountriesResolve(db, countryIds)
    ensures r.value.None? ==> r.db == db
    ensures r.value.Some? ==> r.value.value.customerId != EmptyGuid
    ensures r.value.Some? && customer.customerId != EmptyGuid ==> r.value.value.customerId == customer.customerId
    ensures r.value.Some? && customer.customerId == EmptyGuid ==> r.value.value.customerId == generatedKey
    ensures r.value.Some? ==>
              && r.value.value.(countries := customer.countries, customerId := customer.customerId) == customer
              && r.value.value.countries.Some?
              && var cs := r.value.value.countries.value;
                 && (forall k :: 0 <= k < |cs| ==> cs[k] in db.countries.rows && cs[k].countryId in countryIds)
                 && (forall k :: 0 <= k < |db.countries.rows| && db.countries.rows[k].countryId in countryIds ==>
                       db.countries.rows[k] in cs)
    ensures r.value.Some? ==> Wrote(db, r.db, fault)
    ensures r.value.Some? && db.uow.IsUnitOfWorkStarted() ==>
              r.db == db.(customers := Stage(db.customers, Added(r.value.value)))
    ensures r.value.Some? && Immediate(db, fault) && db.customers.pending == [] ==>
              r.db.customers.rows == db.customers.rows + [r.value.value]
  {
    if !CountriesResolve(db, countryIds) then Step(db, None)
    else
      var stored := WithKey(customer, generatedKey).(countries := Some(CountriesWithIds(db, countryIds)));
      CommitSingle(db.customers, Added(stored), CustomerKey);
      Step(AutoSave(db.(customers := Stage(db.customers, Added(stored))), fault), Some(stored))
  }

  function GetCustomer(db: Db, customerId: Guid): (r: Option<Customer>)
    ensures r.None? <==> !HasCustomer(db, customerId)
    ensures r.Some? ==> r.value in db.customers.rows && r.value.customerId == customerId
  {
    Query.First(db.customers.rows, (c: Customer) => c.customerId == customerId)
  }

  /** FirstName, LastName and Email are written onto the tracked customer BEFORE
      the country ids are checked, so a failed check returns null with that
      modification still tracked (and nothing saved). On success the country
      list is replaced by the countries found. */
  function UpdateCustomer(db: Db, customer: Customer, countryIds: seq<Guid>, fault: bool): (r: Step<Option<Customer>>)
    ensures !HasCustomer(db, customer.customerId) ==> r.value.None? && r.db == db
    ensures HasCustomer(db, customer.customerId) && !CountriesResolve(db, countryIds) ==>
              && r.value.None?
              && r.db == db.(customers := Stage(db.customers, Modified(GetCustomer(db, customer.customerId).value.(
                                 firstName := customer.firstName, lastName := customer.lastName, email := customer.email))))
    ensures r.value.Some? <==> HasCustomer(db, customer.customerId) && CountriesResolve(db, countryIds)
    ensures r.value.Some? ==>
              && r.value.value.customerId == customer.customerId
              && r.value.value.firstName == customer.firstName
              && r.value.value.lastName == customer.lastName
              && r.value.value.email == customer.email
              && r.value.value.countries == Some(CountriesWithIds(db, countryIds))
    ensures r.value.Some? ==> Wrote(db, r.db, fault)
    ensures r.value.Some? && Immediate(db, fault) && db.customers.pending == [] ==>
              Replaced(db.customers.rows, r.db.customers.rows, r.value.value, CustomerKey)
  {
    match GetCustomer(db, customer.customerId)
    case None => Step(db, None)
    case Some(stored) =>
      var renamed := stored.(firstName := customer.firstName, lastName := customer.lastName, email := customer.email);
      if !CountriesResolve(db, countryIds) then
        Step(db.(customers := Stage(db.customers, Modified(renamed))), None)
      else
        var updated := renamed.(countries := Some(CountriesWithIds(db, countryIds)));
        CommitSingle(db.customers, Modified(updated), CustomerKey);
        Step(AutoSave(db.(customers := Stage(db.customers, Modified(updated))), fault), Some(updated))
  }

  function DeleteCustomer(db: Db, customerId: Guid, fault: bool): (r: Step<bool>)
    ensures r.value <==> HasCustomer(db, customerId)
    ensures !r.value ==> r.db == db
    ensures r.value ==> Wrote(db, r.db, fault)
    ensures r.value && Immediate(db, fault) && db.customers.pending == [] ==>
              Removed(db.customers.rows, r.db.customers.rows, customerId, CustomerKey)
  {
    match GetCustomer(db, customerId)
    case None => Step(db, false)
    case Some(stored) =>
      CommitSingle(db.customers, Deleted(stored), CustomerKey);
      RemoveKeyMeaning(db.customers.rows, customerId, CustomerKey);
      Step(AutoSave(db.(customers := Stage(db.customers, Deleted(stored))), fault), true)
  }

  // ---- What the count check means --------------------------------------

  /** The database enforces one row per CountryId. */
  predicate CountryKeysUnique(rows: seq<Country>)
  {
    forall i, j :: 0 <= i < j < |rows| ==> rows[i].countryId != rows[j].countryId
  }

  function CountryIdSet(rows: seq<Country>): set<Guid>
  {
    set i | 0 <= i < |rows| :: rows[i].countryId
  }

  /** With unique keys, the filter finds one row per requested id that exists. */
  lemma {:induction false} WhereCount(rows: seq<Country>, ids: seq<Guid>)
    requires CountryKeysUnique(rows)
    ensures |Query.Where(rows, (c: Country) => c.countryId in ids)| == |CountryIdSet(rows) * (set id | id in ids)|
    decreases |rows|
  {
    var p := (c: Country) => c.countryId in ids;
    var s := set id | id in ids;
    if |rows| > 0 {
      var tail := rows[1..];
      assert CountryKeysUnique(tail) by {
        forall i, j | 0 <= i < j < |tail| ensures tail[i].countryId != tail[j].countryId {
          assert tail[i] == rows[i + 1] && tail[j] == rows[j + 1];
        }
      }
      WhereCount(tail, ids);
      CountryIdSetCons(rows);
      var x := rows[0].countryId;
      if p(rows[0]) {
        assert Query.Where(rows, p) == [rows[0]] + Query.Where(tail, p);
        assert CountryIdSet(rows) * s == {x} + CountryIdSet(tail) * s;
        assert x !in CountryIdSet(tail) * s;
      } else {
        assert Query.Where(rows, p) == Query.Where(tail, p);
        assert CountryIdSet(rows) * s == CountryIdSet(tail) * s;
      }
    } else {
      assert CountryIdSet(rows) == {};
    }
  }

  /** The key set of a non-empty table is its head's key plus the tail's, and
      with unique keys the head's key is not among the tail's. */
  lemma CountryIdSetCons(rows: seq<Country>)
    requires |rows| > 0 && CountryKeysUnique(rows)
    ensures CountryIdSet(rows) == {rows[0].countryId} + CountryIdSet(rows[1..])
    ensures rows[0].countryId !in CountryIdSet(rows[1..])
  {
    var tail := rows[1..];
    forall x | x in CountryIdSet(rows) ensures x in {rows[0].countryId} + CountryIdSet(tail) {
      var i :| 0 <= i < |rows| && rows[i].countryId == x;
      if i > 0 { assert tail[i - 1] == rows[i]; }
    }
    forall x | x in CountryIdSet(tail) ensures x in CountryIdSet(rows) {
      var i :| 0 <= i < |tail| && tail[i].countryId == x;
      assert rows[i + 1] == tail[i];
    }
    forall i | 0 <= i < |tail| ensures tail[i].countryId != rows[0].countryId {
      assert rows[i + 1] == tail[i];
    }
  }

  /** A subset as large as its superset is the superset. */
  lemma SubsetOfSameSize<T>(a: set<T>, b: set<T>)
    requires a <= b && |a| == |b|
    ensures a == b
  {
    if a != b {
      var x :| x in b && x !in a;
      assert a <= b - {x};
      assert |b - {x}| == |b| - 1;
      SubsetCard(a, b - {x});
    }
  }

  lemma {:induction false} SubsetCard<T>(a: set<T>, b: set<T>)
    requires a <= b
    ensures |a| <= |b|
    decreases |b|
  {
    if a != {} {
      var x :| x in a;
      SubsetCard(a - {x}, b - {x});
    }
  }

  /** With unique country keys, the ids resolve exactly when every requested id
      names an existing country, duplicates in the request notwithstanding. */
  lemma CountriesResolveIffAllExist(db: Db, countryIds: seq<Guid>)
    requires CountryKeysUnique(db.countries.rows)
    ensures CountriesResolve(db, countryIds) <==>
              forall k :: 0 <= k < |countryIds| ==> countryIds[k] in CountryIdSet(db.countries.rows)
  {
    var keys := CountryIdSet(db.countries.rows);
    var s := set id | id in countryIds;
    WhereCount(db.countries.rows, countryIds);
    if CountriesResolve(db, countryIds) {
      SubsetOfSameSize(keys * s, s);
      forall k | 0 <= k < |countryIds| ensures countryIds[k] in keys {
        assert countryIds[k] in s;
      }
    }
    if forall k :: 0 <= k < |countryIds| ==> countryIds[k] in keys {
      assert keys * s == s;
    }
  }
}
