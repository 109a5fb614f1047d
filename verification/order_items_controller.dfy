/** `OrderItemsController`: each action as a decision over the results its
    service calls would return. */
module OrderItemsController {
  import opened Wrappers
  import opened Entities
  import opened Http
  import Dto

  datatype Call =
    | GetOrder(orderId: Guid)
    | GetOrderItems(orderId: Guid)
    | GetOrderItem(orderId: Guid, orderItemId: Guid)
    | UpdateOrderItem(orderId: Guid, update: Dto.OrderItemUpdateRequest)
    | AddOrderItem(add: Dto.OrderItemAddRequest)
    | DeleteOrderItem(orderId: Guid, orderItemId: Guid)
    | CreateOrderItems(requests: seq<Dto.OrderItemAddRequest>)

  const UnknownOrder := "OrderId does not match with any Order Id from Order Database."
  const OrderDataMissing := "Order data is missing."
  const ItemIdMismatch := "orderItemId does not match"
  const OrderIdNotFound := "Order Id not found"
  const ItemIdNotFound := "Order Item Id not found"
  const SaveFailed := "An error occurred while saving the order."
  const RouteBodyMismatch := "Order Id from Route does not match with any Order Id from Body."
  const DeleteFailed := "An error occurred while deleting the order."
  const BatchRouteMismatch := "Order Id from Route does not match with all Order Ids from Body."
  const ItemsDataMissing := "Order Items data is missing."
  const BatchUnknownOrder := "Order Id does not match with any Order Id from Order Database."

  /** An empty id is rejected with a bare BadRequest; the item list is not null-checked. */
  function GetOrderItemsFromOrderId(orderId: Guid, order: Option<Dto.OrderResponse>, items: seq<Dto.OrderItemResponse>)
    : (d: Decision<seq<Dto.OrderItemResponse>, Call>)
    ensures d.calls <= [Call.GetOrder(orderId), Call.GetOrderItems(orderId)]
    ensures d.result == BadRequest(None) <==> orderId == EmptyGuid
    ensures d.calls == [] <==> orderId == EmptyGuid
    ensures d.result == BadRequest(Some(UnknownOrder)) <==> orderId != EmptyGuid && order.None?
    ensures d.result.Ok? <==> orderId != EmptyGuid && order.Some?
    ensures d.result == BadRequest(Some(UnknownOrder)) ==> d.calls == [Call.GetOrder(orderId)]
    ensures d.result.Ok? ==> d.calls == [Call.GetOrder(orderId), Call.GetOrderItems(orderId)]
    ensures d.result.Ok? ==> d.result.body == items
  {
    if orderId == EmptyGuid then Decision(BadRequest(None), [])
    else if order.None? then Decision(BadRequest(Some(UnknownOrder)), [Call.GetOrder(orderId)])
    else Decision(Ok(items), [Call.GetOrder(orderId), Call.GetOrderItems(orderId)])
  }

  function GetOrderItem(orderId: Guid, orderItemId: Guid, order: Option<Dto.OrderResponse>, item: Option<Dto.OrderItemResponse>)
    : (d: Decision<Dto.OrderItemResponse, Call>)
    ensures d.calls <= [Call.GetOrder(orderId), Call.GetOrderItem(orderId, orderItemId)]
    ensures d.result == BadRequest(None) <==> orderId == EmptyGuid || orderItemId == EmptyGuid
    ensures d.calls == [] <==> orderId == EmptyGuid || orderItemId == EmptyGuid
    ensures d.result == BadRequest(Some(UnknownOrder)) <==> orderId != EmptyGuid && orderItemId != EmptyGuid && order.None?
    ensures d.result == NotFound(None) <==> orderId != EmptyGuid && orderItemId != EmptyGuid && order.Some? && item.None?
    ensures d.result.Ok? <==> orderId != EmptyGuid && orderItemId != EmptyGuid && order.Some? && item.Some?
    ensures d.result == BadRequest(Some(UnknownOrder)) ==> d.calls == [Call.GetOrder(orderId)]
    ensures d.result == NotFound(None) || d.result.Ok? ==>
              d.calls == [Call.GetOrder(orderId), Call.GetOrderItem(orderId, orderItemId)]
    ensures d.result.Ok? ==> d.result.body == item.value
  {
    if orderId == EmptyGuid || orderItemId == EmptyGuid then Decision(BadRequest(None), [])
    else if order.None? then Decision(BadRequest(Some(UnknownOrder)), [Call.GetOrder(orderId)])
    else if item.None? then Decision(NotFound(None), [Call.GetOrder(orderId), Call.GetOrderItem(orderId, orderItemId)])
    else Decision(Ok(item.value), [Call.GetOrder(orderId), Call.GetOrderItem(orderId, orderItemId)])
  }

  /** Null body, then the item-id mismatch, then the order, then the item,
      then the update. The created route names the OrderId twice. */
  function PutOrderItem(orderId: Guid, orderItemId: Guid, body: Option<Dto.OrderItemUpdateRequest>,
                        order: Option<Dto.OrderResponse>, item: Option<Dto.OrderItemResponse>,
                        updated: Option<Dto.OrderItemResponse>)
    : (d: Decision<Dto.OrderItemResponse, Call>)
    ensures body.Some? ==>
              d.calls <= [Call.GetOrder(orderId), Call.GetOrderItem(orderId, orderItemId), Call.UpdateOrderItem(orderId, body.value)]
    ensures d.result == BadRequest(Some(OrderDataMissing)) <==> body.None?
    ensures d.result == BadRequest(Some(ItemIdMismatch)) <==> body.Some? && body.value.orderItemId != orderItemId
    ensures d.calls == [] <==> body.None? || body.value.orderItemId != orderItemId
    ensures d.result == NotFound(Some(OrderIdNotFound)) <==>
              body.Some? && body.value.orderItemId == orderItemId && order.None?
    ensures d.result == NotFound(Some(ItemIdNotFound)) <==>
              body.Some? && body.value.orderItemId == orderItemId && order.Some? && item.None?
    ensures d.result == NotFound(Some(OrderIdNotFound)) ==> d.calls == [Call.GetOrder(orderId)]
    ensures d.result == NotFound(Some(ItemIdNotFound)) ==>
              d.calls == [Call.GetOrder(orderId), Call.GetOrderItem(orderId, orderItemId)]
    ensures (exists u :: Call.UpdateOrderItem(orderId, u) in d.calls) <==>
              body.Some? && body.value.orderItemId == orderItemId && order.Some? && item.Some?
    ensures d.result == Problem(SaveFailed) <==>
              body.Some? && body.value.orderItemId == orderItemId && order.Some? && item.Some? && updated.None?
    ensures d.result.CreatedAt? <==>
              body.Some? && body.value.orderItemId == orderItemId && order.Some? && item.Some? && updated.Some?
    ensures body.Some? && (d.result == Problem(SaveFailed) || d.result.CreatedAt?) ==>
              d.calls == [Call.GetOrder(orderId), Call.GetOrderItem(orderId, orderItemId), Call.UpdateOrderItem(orderId, body.value)]
    ensures d.result.CreatedAt? ==>
              d.result == CreatedAt("GetOrderItem",
                                    [RouteValue("orderId", updated.value.orderId), RouteValue("orderItemId", updated.value.orderId)],
                                    updated.value)
  {
    if body.None? then Decision(BadRequest(Some(OrderDataMissing)), [])
    else if orderItemId != body.value.orderItemId then Decision(BadRequest(Some(ItemIdMismatch)), [])
    else if order.None? then Decision(NotFound(Some(OrderIdNotFound)), [Call.GetOrder(orderId)])
    else if item.None? then
      Decision(NotFound(Some(ItemIdNotFound)), [Call.GetOrder(orderId), Call.GetOrderItem(orderId, orderItemId)])
    else
      var calls := [Call.GetOrder(orderId), Call.GetOrderItem(orderId, orderItemId), Call.UpdateOrderItem(orderId, body.value)];
      if updated.None? then Decision(Problem(SaveFailed), calls)
      else
        var u := updated.value;
        Decision(CreatedAt("GetOrderItem", [RouteValue("orderId", u.orderId), RouteValue("orderItemId", u.orderId)], u), calls)
  }

  /** Null body, then the route/body OrderId mismatch, then the order, then the add. */
  function PostOrderItem(orderId: Guid, body: Option<Dto.OrderItemAddRequest>, order: Option<Dto.OrderResponse>,
                         added: Option<Dto.OrderItemResponse>)
    : (d: Decision<Dto.OrderItemResponse, Call>)
    ensures body.Some? ==> d.calls <= [Call.GetOrder(body.value.orderId), Call.AddOrderItem(body.value)]
    ensures d.result == BadRequest(Some(OrderDataMissing)) <==> body.None?
    ensures d.result == BadRequest(Some(RouteBodyMismatch)) <==> body.Some? && body.value.orderId != orderId
    ensures d.calls == [] <==> body.None? || body.value.orderId != orderId
    ensures d.result == BadRequest(Some(UnknownOrder)) <==> body.Some? && body.value.orderId == orderId && order.None?
    ensures body.Some? && d.result == BadRequest(Some(UnknownOrder)) ==> d.calls == [Call.GetOrder(orderId)]
    ensures body.Some? ==> (Call.AddOrderItem(body.value) in d.calls <==> body.value.orderId == orderId && order.Some?)
    ensures d.result == Problem(SaveFailed) <==> body.Some? && body.value.orderId == orderId && order.Some? && added.None?
    ensures d.result.CreatedAt? <==> body.Some? && body.value.orderId == orderId && order.Some? && added.Some?
    ensures body.Some? && Call.AddOrderItem(body.value) in d.calls ==>
              d.calls == [Call.GetOrder(orderId), Call.AddOrderItem(body.value)]
    ensures d.result.CreatedAt? ==>
              d.result == CreatedAt("GetOrderItem",
                                    [RouteValue("orderId", added.value.orderId), RouteValue("orderItemId", added.value.orderItemId)],
                                    added.value)
  {
    if body.None? then Decision(BadRequest(Some(OrderDataMissing)), [])
    else if orderId != body.value.orderId then Decision(BadRequest(Some(RouteBodyMismatch)), [])
    else if order.None? then Decision(BadRequest(Some(UnknownOrder)), [Call.GetOrder(body.value.orderId)])
    else
      var calls := [Call.GetOrder(body.value.orderId), Call.AddOrderItem(body.value)];
      if added.None? then Decision(Problem(SaveFailed), calls)
      else
        var a := added.value;
        Decision(CreatedAt("GetOrderItem", [RouteValue("orderId", a.orderId), RouteValue("orderItemId", a.orderItemId)], a), calls)
  }

  /** The order itself is not looked up: only the item is. */
  function DeleteOrderItem(orderId: Guid, orderItemId: Guid, item: Option<Dto.OrderItemResponse>, deleted: bool)
    : (d: Decision<Empty, Call>)
    ensures d.calls <= [Call.GetOrderItem(orderId, orderItemId), Call.DeleteOrderItem(orderId, orderItemId)]
    ensures Call.GetOrder(orderId) !in d.calls
    ensures d.result == NotFound(None) <==> item.None?
    ensures Call.DeleteOrderItem(orderId, orderItemId) in d.calls <==> item.Some?
    ensures item.None? ==> d.calls == [Call.GetOrderItem(orderId, orderItemId)]
    ensures item.Some? ==> d.calls == [Call.GetOrderItem(orderId, orderItemId), Call.DeleteOrderItem(orderId, orderItemId)]
    ensures d.result == Problem(DeleteFailed) <==> item.Some? && !deleted
    ensures d.result == NoContent <==> item.Some? && deleted
  {
    if item.None? then Decision(NotFound(None), [Call.GetOrderItem(orderId, orderItemId)])
    else
      var calls := [Call.GetOrderItem(orderId, orderItemId), Call.DeleteOrderItem(orderId, orderItemId)];
      if !deleted then Decision(Problem(DeleteFailed), calls) else Decision(NoContent, calls)
  }

  /** Every body OrderId must equal the route id, checked BEFORE emptiness; then
      the order; then the batch, whose result is null-checked although the
      batch service never returns null, and whose exception escapes. */
  function BatchOrderItems(orderId: Guid, requests: seq<Dto.OrderItemAddRequest>, order: Option<Dto.OrderResponse>,
                           created: Try<Option<seq<Dto.OrderItemResponse>>>)
    : (d: Decision<seq<Dto.OrderItemResponse>, Call>)
    ensures d.calls <= [Call.GetOrder(orderId), Call.CreateOrderItems(requests)]
    ensures d.result == BadRequest(Some(BatchRouteMismatch)) <==> exists k :: 0 <= k < |requests| && requests[k].orderId != orderId
    ensures d.result == BadRequest(Some(ItemsDataMissing)) <==> |requests| == 0
    ensures d.calls == [] <==> |requests| == 0 || exists k :: 0 <= k < |requests| && requests[k].orderId != orderId
    ensures d.result == BadRequest(Some(BatchUnknownOrder)) <==>
              |requests| > 0 && (forall k :: 0 <= k < |requests| ==> requests[k].orderId == orderId) && order.None?
    ensures Call.CreateOrderItems(requests) in d.calls <==>
              |requests| > 0 && (forall k :: 0 <= k < |requests| ==> requests[k].orderId == orderId) && order.Some?
    ensures d.result == BadRequest(Some(BatchUnknownOrder)) ==> d.calls == [Call.GetOrder(orderId)]
    ensures Call.CreateOrderItems(requests) in d.calls ==> d.calls == [Call.GetOrder(orderId), Call.CreateOrderItems(requests)]
    ensures d.result == Unhandled <==> Call.CreateOrderItems(requests) in d.calls && created.Thrown?
    ensures d.result == Problem(SaveFailed) <==> Call.CreateOrderItems(requests) in d.calls && created == Returned(None)
    ensures d.result.CreatedAt? <==> Call.CreateOrderItems(requests) in d.calls && created.Returned? && created.value.Some?
    ensures d.result.CreatedAt? ==>
              d.result == CreatedAt("GetOrderItemsFromOrderId", [RouteValue("orderId", orderId)], created.value.value)
  {
    if exists k :: 0 <= k < |requests| && requests[k].orderId != orderId then Decision(BadRequest(Some(BatchRouteMismatch)), [])
    else if |requests| == 0 then Decision(BadRequest(Some(ItemsDataMissing)), [])
    else if order.None? then Decision(BadRequest(Some(BatchUnknownOrder)), [Call.GetOrder(orderId)])
    else
      var calls := [Call.GetOrder(orderId), Call.CreateOrderItems(requests)];
      match created
      case Thrown => Decision(Unhandled, calls)
      case Returned(None) => Decision(Problem(SaveFailed), calls)
      case Returned(Some(xs)) => Decision(CreatedAt("GetOrderItemsFromOrderId", [RouteValue("orderId", orderId)], xs), calls)
  }
}
