/** `CustomersController`: the shared ladder with the customer's texts. */
module CustomersController {
  import opened Wrappers
  import opened Entities
  import opened Http
  import Dto
  import Crud = CrudController

  type Call = Crud.Call<Dto.CustomerUpdateRequest, Dto.CustomerAddRequest>

  const Texts := Crud.Texts(
    "GetCustomer", "customerId", "Customer ID mismatch.", "Failed to update the customer.",
    "Customer data is missing.", "An error occurred while saving the customer.", "Failed to delete the customer.")

  function CustomerIdOf(c: Dto.CustomerResponse): Guid { c.customerId }

  function GetCustomer(customerId: Guid, found: Option<Dto.CustomerResponse>): (d: Decision<Dto.CustomerResponse, Call>)
    ensures d.calls == [Crud.Get(customerId)]
    ensures d.result == NotFound(None) <==> found.None?
    ensures found.Some? ==> d.result == Ok(found.value)
  {
    Crud.GetOne(customerId, found)
  }

  function PutCustomer(customerId: Guid, body: Dto.CustomerUpdateRequest, existing: Option<Dto.CustomerResponse>,
                       updated: Outcome<Option<Dto.CustomerResponse>>)
    : (d: Decision<Dto.CustomerResponse, Call>)
    ensures d.calls <= [Crud.Get(customerId), Crud.Update(body)]
    ensures d.result == BadRequest(Some("Customer ID mismatch.")) <==> customerId != body.customerId
    ensures d.calls == [] <==> customerId != body.customerId
    ensures d.result == NotFound(None) <==> customerId == body.customerId && existing.None?
    ensures customerId == body.customerId && existing.None? ==> d.calls == [Crud.Get(customerId)]
    ensures customerId == body.customerId && existing.Some? ==> d.calls == [Crud.Get(customerId), Crud.Update(body)]
    ensures d.result == Conflict("A concurrency conflict occurred.") <==>
              customerId == body.customerId && existing.Some? && updated.ConcurrencyConflict?
    ensures d.result == Problem("Failed to update the customer.") <==>
              customerId == body.customerId && existing.Some? && updated == Completed(None)
    ensures d.result.CreatedAt? <==>
              customerId == body.customerId && existing.Some? && updated.Completed? && updated.value.Some?
    ensures d.result.CreatedAt? ==>
              d.result == CreatedAt("GetCustomer", [RouteValue("customerId", updated.value.value.customerId)], updated.value.value)
  {
    Crud.Put(Texts, customerId, body.customerId, body, existing, updated, CustomerIdOf)
  }

  function PostCustomer(body: Option<Dto.CustomerAddRequest>, added: Option<Dto.CustomerResponse>)
    : (d: Decision<Dto.CustomerResponse, Call>)
    ensures d.result == BadRequest(Some("Customer data is missing.")) <==> body.None?
    ensures d.calls == [] <==> body.None?
    ensures body.Some? ==> d.calls == [Crud.Add(body.value)]
    ensures d.result == Problem("An error occurred while saving the customer.") <==> body.Some? && added.None?
    ensures d.result.CreatedAt? <==> body.Some? && added.Some?
    ensures d.result.CreatedAt? ==>
              d.result == CreatedAt("GetCustomer", [RouteValue("customerId", added.value.customerId)], added.value)
  {
    Crud.Post(Texts, body, added, CustomerIdOf)
  }

  function DeleteCustomer(customerId: Guid, existing: Option<Dto.CustomerResponse>, deleted: bool): (d: Decision<Empty, Call>)
    ensures d.calls <= [Crud.Get(customerId), Crud.Delete(customerId)]
    ensures d.result == NotFound(None) <==> existing.None?
    ensures Crud.Delete(customerId) in d.calls <==> existing.Some?
    ensures existing.None? ==> d.calls == [Crud.Get(customerId)]
    ensures existing.Some? ==> d.calls == [Crud.Get(customerId), Crud.Delete(customerId)]
    ensures d.result == Problem("Failed to delete the customer.") <==> existing.Some? && !deleted
    ensures d.result == NoContent <==> existing.Some? && deleted
  {
    Crud.Remove(Texts, customerId, existing, deleted)
  }
}
