/** `CountryRepository`: countries addressed by CountryId. */
module CountryRepository {
  import opened Wrappers
  import opened Entities
  import opened Store
  import Query

  predicate HasCountry(db: Db, countryId: Guid)
  {
    exists i :: 0 <= i < |db.countries.rows| && db.countries.rows[i].countryId == countryId
  }

  /** Returns the tracked entity; EF fills in a `Guid.Empty` key. */
  function AddCountry(db: Db, country: Country, generatedKey: Guid, fault: bool): (r: Step<Option<Country>>)
    requires generatedKey != EmptyGuid
    ensures r.value.Some?
    ensures r.value.value.countryId != EmptyGuid
    ensures r.value.value.name == country.name
    ensures country.countryId != EmptyGuid ==> r.value.value == country
    ensures country.countryId == EmptyGuid ==> r.value.value.countryId == generatedKey
    ensures Wrote(db, r.db, fault)
    ensures Immediate(db, fault) && db.countries.pending == [] ==> r.db.countries.rows == db.countries.rows + [r.value.value]
  {
    var stored := if country.countryId == EmptyGuid then country.(countryId := generatedKey) else country;
    CommitSingle(db.countries, Added(stored), CountryKey);
    Step(AutoSave(db.(countries := Stage(db.countries, Added(stored))), fault), Some(stored))
  }

  function GetCountry(db: Db, countryId: Guid): (r: Option<Country>)
    ensures r.None? <==> !HasCountry(db, countryId)
    ensures r.Some? ==> r.value in db.countries.rows && r.value.countryId == countryId
  {
    Query.First(db.countries.rows, (c: Country) => c.countryId == countryId)
  }

  /** Only the Name is copied onto the stored country. */
  function UpdateCountry(db: Db, country: Country, fault: bool): (r: Step<Option<Country>>)
    ensures r.value.None? <==> !HasCountry(db, country.countryId)
    ensures r.value.None? ==> r.db == db
    ensures r.value.Some? ==> r.value.value == country
    ensures r.value.Some? ==> Wrote(db, r.db, fault)
    ensures r.value.Some? && Immediate(db, fault) && db.countries.pending == [] ==>
              Replaced(db.countries.rows, r.db.countries.rows, country, CountryKey)
  {
    match GetCountry(db, country.countryId)
    case None => Step(db, None)
    case Some(stored) =>
      var updated := stored.(name := country.name);
      CommitSingle(db.countries, Modified(updated), CountryKey);
      Step(AutoSave(db.(countries := Stage(db.countries, Modified(updated))), fault), Some(updated))
  }

  function DeleteCountry(db: Db, countryId: Guid, fault: bool): (r: Step<bool>)
    ensures r.value <==> HasCountry(db, countryId)
    ensures !r.value ==> r.db == db
    ensures r.value ==> Wrote(db, r.db, fault)
    ensures r.value && Immediate(db, fault) && db.countries.pending == [] ==>
              Removed(db.countries.rows, r.db.countries.rows, countryId, CountryKey)
  {
    match GetCountry(db, countryId)
    case None => Step(db, false)
    case Some(stored) =>
      CommitSingle(db.countries, Deleted(stored), CountryKey);
      RemoveKeyMeaning(db.countries.rows, countryId, CountryKey);
      Step(AutoSave(db.(countries := Stage(db.countries, Deleted(stored))), fault), true)
  }
}
