/** The ladder `CustomersController` and `CountriesController` share, word
    for word up to the entity's name: get by id, put with a route/body id
    check, post with a null check, delete after a lookup. */
module CrudController {
  import opened Wrappers
  import opened Entities
  import opened Http

  /** Service calls, for an update request `U` and an add request `A`. */
  datatype Call<U, A> = Get(id: Guid) | Update(update: U) | Add(add: A) | Delete(id: Guid)

  /** The entity-specific action name, route key and messages. */
  datatype Texts = Texts(
    getAction: string,
    routeKey: string,
    idMismatch: string,
    updateFailed: string,
    dataMissing: string,
    saveFailed: string,
    deleteFailed: string)

  const ConcurrencyMessage := "A concurrency conflict occurred."

  function GetOne<R, U, A>(id: Guid, found: Option<R>): (d: Decision<R, Call<U, A>>)
    ensures d.calls == [Get(id)]
    ensures d.result == NotFound(None) <==> found.None?
    ensures found.Some? ==> d.result == Ok(found.value)
  {
    Decision(if found.None? then NotFound(None) else Ok(found.value), [Get(id)])
  }

  /** Id mismatch, then the lookup (a bare NotFound), then the update. */
  function Put<R, U, A>(t: Texts, id: Guid, bodyId: Guid, body: U, existing: Option<R>,
                        updated: Outcome<Option<R>>, idOf: R -> Guid)
    : (d: Decision<R, Call<U, A>>)
    ensures d.calls <= [Get(id), Update(body)]
    ensures d.result == BadRequest(Some(t.idMismatch)) <==> id != bodyId
    ensures d.calls == [] <==> id != bodyId
    ensures d.result == NotFound(None) <==> id == bodyId && existing.None?
    ensures Update(body) in d.calls <==> id == bodyId && existing.Some?
    ensures id == bodyId && existing.None? ==> d.calls == [Get(id)]
    ensures id == bodyId && existing.Some? ==> d.calls == [Get(id), Update(body)]
    ensures d.result == Conflict(ConcurrencyMessage) <==> id == bodyId && existing.Some? && updated.ConcurrencyConflict?
    ensures d.result == Problem(t.updateFailed) <==> id == bodyId && existing.Some? && updated == Completed(None)
    ensures d.result.CreatedAt? <==> id == bodyId && existing.Some? && updated.Completed? && updated.value.Some?
    ensures d.result.CreatedAt? ==>
              d.result == CreatedAt(t.getAction, [RouteValue(t.routeKey, idOf(updated.value.value))], updated.value.value)
  {
    if id != bodyId then Decision(BadRequest(Some(t.idMismatch)), [])
    else if existing.None? then Decision(NotFound(None), [Get(id)])
    else
      var calls := [Get(id), Update(body)];
      match updated
      case ConcurrencyConflict => Decision(Conflict(ConcurrencyMessage), calls)
      case Completed(None) => Decision(Problem(t.updateFailed), calls)
      case Completed(Some(u)) => Decision(CreatedAt(t.getAction, [RouteValue(t.routeKey, idOf(u))], u), calls)
  }

  function Post<R, U, A>(t: Texts, body: Option<A>, added: Option<R>, idOf: R -> Guid): (d: Decision<R, Call<U, A>>)
    ensures d.result == BadRequest(Some(t.dataMissing)) <==> body.None?
    ensures d.calls == [] <==> body.None?
    ensures body.Some? ==> d.calls == [Add(body.value)]
    ensures d.result == Problem(t.saveFailed) <==> body.Some? && added.None?
    ensures d.result.CreatedAt? <==> body.Some? && added.Some?
    ensures d.result.CreatedAt? ==> d.result == CreatedAt(t.getAction, [RouteValue(t.routeKey, idOf(added.value))], added.value)
  {
    if body.None? then Decision(BadRequest(Some(t.dataMissing)), [])
    else if added.None? then Decision(Problem(t.saveFailed), [Add(body.value)])
    else Decision(CreatedAt(t.getAction, [RouteValue(t.routeKey, idOf(added.value))], added.value), [Add(body.value)])
  }

  function Remove<R, U, A>(t: Texts, id: Guid, existing: Option<R>, deleted: bool): (d: Decision<Empty, Call<U, A>>)
    ensures d.calls <= [Get(id), Delete(id)]
    ensures d.result == NotFound(None) <==> existing.None?
    ensures Delete(id) in d.calls <==> existing.Some?
    ensures existing.None? ==> d.calls == [Get(id)]
    ensures existing.Some? ==> d.calls == [Get(id), Delete(id)]
    ensures d.result == Problem(t.deleteFailed) <==> existing.Some? && !deleted
    ensures d.result == NoContent <==> existing.Some? && deleted
  {
    if existing.None? then Decision(NotFound(None), [Get(id)])
    else if !deleted then Decision(Problem(t.deleteFailed), [Get(id), Delete(id)])
    else Decision(NoContent, [Get(id), Delete(id)])
  }
}
