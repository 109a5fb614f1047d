/** `OrdersController`: each action as a decision over the results its service
    calls would return. A result is consulted only if the call is made. */
module OrdersController {
  import opened Wrappers
  import opened Entities
  import opened Http
  import Dto

  datatype Call =
    | GetOrder(orderId: Guid)
    | GetCustomer(customerId: Guid)
    | UpdateOrder(update: Dto.OrderUpdateRequest)
    | AddOrder(add: Dto.OrderAddRequest)
    | DeleteOrder(orderId: Guid)
    | CreateOrders(requests: seq<Dto.OrderAddRequest>)

  const OrderIdMismatch := "Order ID mismatch."
  const OrderIdNotFound := "Order Id not found"
  const CustomerIdNotFound := "Customer Id not found"
  const UpdateFailed := "Failed to update the order."
  const ConcurrencyMessage := "A concurrency conflict occurred."
  const OrderDataMissing := "Order data is missing."
  const SaveFailed := "An error occurred while saving the order."
  const DeleteFailed := "Failed to delete the order."
  const EmptyBatch := "The list of order add requests cannot be empty"

  function GetOrder(orderId: Guid, found: Option<Dto.OrderResponse>): (d: Decision<Dto.OrderResponse, Call>)
    ensures d.calls == [Call.GetOrder(orderId)]
    ensures d.result == NotFound(None) <==> found.None?
    ensures found.Some? ==> d.result == Ok(found.value)
  {
    Decision(if found.None? then NotFound(None) else Ok(found.value), [Call.GetOrder(orderId)])
  }

  /** Route/body id check, then the order, then the customer, then the update. */
  function PutOrder(orderId: Guid, body: Dto.OrderUpdateRequest, existing: Option<Dto.OrderResponse>,
                    customer: Option<Dto.CustomerResponse>, updated: Outcome<Option<Dto.OrderResponse>>)
    : (d: Decision<Dto.OrderResponse, Call>)
    ensures d.calls <= [Call.GetOrder(orderId), Call.GetCustomer(body.customerId), Call.UpdateOrder(body)]
    ensures d.result == BadRequest(Some(OrderIdMismatch)) <==> orderId != body.orderId
    ensures d.calls == [] <==> orderId != body.orderId
    ensures d.result == NotFound(Some(OrderIdNotFound)) <==> orderId == body.orderId && existing.None?
    ensures d.result == NotFound(Some(CustomerIdNotFound)) <==> orderId == body.orderId && existing.Some? && customer.None?
    ensures Call.UpdateOrder(body) in d.calls <==> orderId == body.orderId && existing.Some? && customer.Some?
    ensures d.result == NotFound(Some(OrderIdNotFound)) ==> d.calls == [Call.GetOrder(orderId)]
    ensures d.result == NotFound(Some(CustomerIdNotFound)) ==> d.calls == [Call.GetOrder(orderId), Call.GetCustomer(body.customerId)]
    ensures Call.UpdateOrder(body) in d.calls ==>
              d.calls == [Call.GetOrder(orderId), Call.GetCustomer(body.customerId), Call.UpdateOrder(body)]
    ensures d.result == Conflict(ConcurrencyMessage) <==> Call.UpdateOrder(body) in d.calls && updated.ConcurrencyConflict?
    ensures d.result == Problem(UpdateFailed) <==> Call.UpdateOrder(body) in d.calls && updated == Completed(None)
    ensures d.result.CreatedAt? <==> Call.UpdateOrder(body) in d.calls && updated.Completed? && updated.value.Some?
    ensures d.result.CreatedAt? ==>
              d.result == CreatedAt("GetOrder", [RouteValue("orderId", updated.value.value.orderId)], updated.value.value)
  {
    if orderId != body.orderId then Decision(BadRequest(Some(OrderIdMismatch)), [])
    else if existing.None? then Decision(NotFound(Some(OrderIdNotFound)), [Call.GetOrder(orderId)])
    else if customer.None? then
      Decision(NotFound(Some(CustomerIdNotFound)), [Call.GetOrder(orderId), Call.GetCustomer(body.customerId)])
    else
      var calls := [Call.GetOrder(orderId), Call.GetCustomer(body.customerId), Call.UpdateOrder(body)];
      match updated
      case ConcurrencyConflict => Decision(Conflict(ConcurrencyMessage), calls)
      case Completed(None) => Decision(Problem(UpdateFailed), calls)
      case Completed(Some(u)) => Decision(CreatedAt("GetOrder", [RouteValue("orderId", u.orderId)], u), calls)
  }

  function PostOrder(body: Option<Dto.OrderAddRequest>, added: Option<Dto.OrderResponse>): (d: Decision<Dto.OrderResponse, Call>)
    ensures d.result == BadRequest(Some(OrderDataMissing)) <==> body.None?
    ensures d.calls == [] <==> body.None?
    ensures body.Some? ==> d.calls == [Call.AddOrder(body.value)]
    ensures d.result == Problem(SaveFailed) <==> body.Some? && added.None?
    ensures d.result.CreatedAt? <==> body.Some? && added.Some?
    ensures d.result.CreatedAt? ==> d.result == CreatedAt("GetOrder", [RouteValue("orderId", added.value.orderId)], added.value)
  {
    if body.None? then Decision(BadRequest(Some(OrderDataMissing)), [])
    else if added.None? then Decision(Problem(SaveFailed), [Call.AddOrder(body.value)])
    else Decision(CreatedAt("GetOrder", [RouteValue("orderId", added.value.orderId)], added.value), [Call.AddOrder(body.value)])
  }

  function DeleteOrder(orderId: Guid, existing: Option<Dto.OrderResponse>, deleted: bool): (d: Decision<Empty, Call>)
    ensures d.calls <= [Call.GetOrder(orderId), Call.DeleteOrder(orderId)]
    ensures d.result == NotFound(None) <==> existing.None?
    ensures Call.DeleteOrder(orderId) in d.calls <==> existing.Some?
    ensures existing.None? ==> d.calls == [Call.GetOrder(orderId)]
    ensures existing.Some? ==> d.calls == [Call.GetOrder(orderId), Call.DeleteOrder(orderId)]
    ensures d.result == Problem(DeleteFailed) <==> existing.Some? && !deleted
    ensures d.result == NoContent <==> existing.Some? && deleted
  {
    if existing.None? then Decision(NotFound(None), [Call.GetOrder(orderId)])
    else if !deleted then Decision(Problem(DeleteFailed), [Call.GetOrder(orderId), Call.DeleteOrder(orderId)])
    else Decision(NoContent, [Call.GetOrder(orderId), Call.DeleteOrder(orderId)])
  }

  /** No null check on the batch result; an exception from the final save escapes. */
  function BatchOrders(requests: seq<Dto.OrderAddRequest>, created: Try<seq<Dto.OrderResponse>>)
    : (d: Decision<seq<Dto.OrderResponse>, Call>)
    ensures d.result == BadRequest(Some(EmptyBatch)) <==> |requests| == 0
    ensures d.calls == [] <==> |requests| == 0
    ensures |requests| > 0 ==> d.calls == [Call.CreateOrders(requests)]
    ensures d.result.CreatedAt? <==> |requests| > 0 && created.Returned?
    ensures d.result.CreatedAt? ==> d.result == CreatedAt("GetOrders", [], created.value)
    ensures d.result == Unhandled <==> |requests| > 0 && created.Thrown?
  {
    if |requests| == 0 then Decision(BadRequest(Some(EmptyBatch)), [])
    else match created
      case Thrown => Decision(Unhandled, [Call.CreateOrders(requests)])
      case Returned(xs) => Decision(CreatedAt("GetOrders", [], xs), [Call.CreateOrders(requests)])
  }
}
