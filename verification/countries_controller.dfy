/** `CountriesController`: the shared ladder with the country's texts. */
module CountriesController {
  import opened Wrappers
  import opened Entities
  import opened Http
  import Dto
  import Crud = CrudController

  type Call = Crud.Call<Dto.CountryUpdateRequest, Dto.CountryAddRequest>

  const Texts := Crud.Texts(
    "GetCountry", "countryId", "Country ID mismatch.", "Failed to update the country.",
    "Country data is missing.", "An error occurred while saving the country.", "Failed to delete the country.")

  function CountryIdOf(c: Dto.CountryResponse): Guid { c.countryId }

  function GetCountry(countryId: Guid, found: Option<Dto.CountryResponse>): (d: Decision<Dto.CountryResponse, Call>)
    ensures d.calls == [Crud.Get(countryId)]
    ensures d.result == NotFound(None) <==> found.None?
    ensures found.Some? ==> d.result == Ok(found.value)
  {
    Crud.GetOne(countryId, found)
  }

  function PutCountry(countryId: Guid, body: Dto.CountryUpdateRequest, existing: Option<Dto.CountryResponse>,
                       updated: Outcome<Option<Dto.CountryResponse>>)
    : (d: Decision<Dto.CountryResponse, Call>)
    ensures d.calls <= [Crud.Get(countryId), Crud.Update(body)]
    ensures d.result == BadRequest(Some("Country ID mismatch.")) <==> countryId != body.countryId
    ensures d.calls == [] <==> countryId != body.countryId
    ensures d.result == NotFound(None) <==> countryId == body.countryId && existing.None?
    ensures countryId == body.countryId && existing.None? ==> d.calls == [Crud.Get(countryId)]
    ensures countryId == body.countryId && existing.Some? ==> d.calls == [Crud.Get(countryId), Crud.Update(body)]
    ensures d.result == Conflict("A concurrency conflict occurred.") <==>
              countryId == body.countryId && existing.Some? && updated.ConcurrencyConflict?
    ensures d.result == Problem("Failed to update the country.") <==>
              countryId == body.countryId && existing.Some? && updated == Completed(None)
    ensures d.result.CreatedAt? <==>
              countryId == body.countryId && existing.Some? && updated.Completed? && updated.value.Some?
    ensures d.result.CreatedAt? ==>
              d.result == CreatedAt("GetCountry", [RouteValue("countryId", updated.value.value.countryId)], updated.value.value)
  {
    Crud.Put(Texts, countryId, body.countryId, body, existing, updated, CountryIdOf)
  }

  function PostCountry(body: Option<Dto.CountryAddRequest>, added: Option<Dto.CountryResponse>)
    : (d: Decision<Dto.CountryResponse, Call>)
    ensures d.result == BadRequest(Some("Country data is missing.")) <==> body.None?
    ensures d.calls == [] <==> body.None?
    ensures body.Some? ==> d.calls == [Crud.Add(body.value)]
    ensures d.result == Problem("An error occurred while saving the country.") <==> body.Some? && added.None?
    ensures d.result.CreatedAt? <==> body.Some? && added.Some?
    ensures d.result.CreatedAt? ==>
              d.result == CreatedAt("GetCountry", [RouteValue("countryId", added.value.countryId)], added.value)
  {
    Crud.Post(Texts, body, added, CountryIdOf)
  }

  function DeleteCountry(countryId: Guid, existing: Option<Dto.CountryResponse>, deleted: bool): (d: Decision<Empty, Call>)
    ensures d.calls <= [Crud.Get(countryId), Crud.Delete(countryId)]
    ensures d.result == NotFound(None) <==> existing.None?
    ensures Crud.Delete(countryId) in d.calls <==> existing.Some?
    ensures existing.None? ==> d.calls == [Crud.Get(countryId)]
    ensures existing.Some? ==> d.calls == [Crud.Get(countryId), Crud.Delete(countryId)]
    ensures d.result == Problem("Failed to delete the country.") <==> existing.Some? && !deleted
    ensures d.result == NoContent <==> existing.Some? && deleted
  {
    Crud.Remove(Texts, countryId, existing, deleted)
  }
}
