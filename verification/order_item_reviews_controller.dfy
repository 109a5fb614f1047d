/** `OrderItemReviewsController`: each action as a decision over the results
    its service calls would return. */
module OrderItemReviewsController {
  import opened Wrappers
  import opened Entities
  import opened Http
  import Dto

  datatype Call =
    | GetOrder(orderId: Guid)
    | GetOrderItem(orderId: Guid, orderItemId: Guid)
    | GetReview(orderId: Guid, orderItemId: Guid)
    | AddReview(customerId: Guid, add: Dto.OrderItemReviewRequest)
    | UpdateReview(customerId: Guid, update: Dto.OrderItemReviewRequest)
    | DeleteReview(orderId: Guid, orderItemId: Guid)

  const InvalidIds := "Invalid orderId or orderItemId"
  const OrderNotFound := "Order not found"
  const ReviewNotFound := "Review not found"
  const ReviewDataMissing := "Review data is missing"
  const ItemIdMismatch := "OrderItemId in body does not match route"
  const ReviewItemNotFound := "Review item not found"
  const ReviewExists := "Review already exists for this order item"
  const CreateFailed := "Error creating review"
  const UpdateDataMissing := "Update data is missing"
  const ItemNotFound := "Order item not found"
  const ItemReviewNotFound := "Order item review not found"
  const UpdateFailed := "Error updating review"
  /** Spelled without the space, as the delete action writes it. */
  const DeleteOrderNotFound := "Ordernot found"
  const DeleteFailed := "Error deleting order item review"

  /** Empty ids, then the order, then the review; the item is never looked up. */
  function GetOrderItemReview(orderId: Guid, orderItemId: Guid, order: Option<Dto.OrderResponse>,
                              review: Option<Dto.OrderItemReviewResponse>)
    : (d: Decision<Dto.OrderItemReviewResponse, Call>)
    ensures d.calls <= [Call.GetOrder(orderId), Call.GetReview(orderId, orderItemId)]
    ensures Call.GetOrderItem(orderId, orderItemId) !in d.calls
    ensures d.result == BadRequest(Some(InvalidIds)) <==> orderId == EmptyGuid || orderItemId == EmptyGuid
    ensures d.calls == [] <==> orderId == EmptyGuid || orderItemId == EmptyGuid
    ensures d.result == NotFound(Some(OrderNotFound)) <==> orderId != EmptyGuid && orderItemId != EmptyGuid && order.None?
    ensures d.result == NotFound(Some(ReviewNotFound)) <==>
              orderId != EmptyGuid && orderItemId != EmptyGuid && order.Some? && review.None?
    ensures d.result.Ok? <==> orderId != EmptyGuid && orderItemId != EmptyGuid && order.Some? && review.Some?
    ensures d.result == NotFound(Some(OrderNotFound)) ==> d.calls == [Call.GetOrder(orderId)]
    ensures d.result == NotFound(Some(ReviewNotFound)) || d.result.Ok? ==>
              d.calls == [Call.GetOrder(orderId), Call.GetReview(orderId, orderItemId)]
    ensures d.result.Ok? ==> d.result.body == review.value
  {
    if orderId == EmptyGuid || orderItemId == EmptyGuid then Decision(BadRequest(Some(InvalidIds)), [])
    else if order.None? then Decision(NotFound(Some(OrderNotFound)), [Call.GetOrder(orderId)])
    else if review.None? then
      Decision(NotFound(Some(ReviewNotFound)), [Call.GetOrder(orderId), Call.GetReview(orderId, orderItemId)])
    else Decision(Ok(review.value), [Call.GetOrder(orderId), Call.GetReview(orderId, orderItemId)])
  }

  /** The body and route checks pass and the order and item both exist. */
  predicate ItemChecksPass(orderItemId: Guid, body: Option<Dto.OrderItemReviewRequest>,
                             order: Option<Dto.OrderResponse>, item: Option<Dto.OrderItemResponse>)
  {
    body.Some? && body.value.orderItemId == orderItemId && order.Some? && item.Some?
  }

  /** Null body, mismatch, order, item, an existing review (Conflict), then the
      add under the order's CustomerId. */
  function CreateReview(orderId: Guid, orderItemId: Guid, body: Option<Dto.OrderItemReviewRequest>,
                        order: Option<Dto.OrderResponse>, item: Option<Dto.OrderItemResponse>,
                        existing: Option<Dto.OrderItemReviewResponse>, created: Option<Dto.OrderItemReviewResponse>)
    : (d: Decision<Dto.OrderItemReviewResponse, Call>)
    ensures body.Some? && order.Some? ==>
              d.calls <= [Call.GetOrder(orderId), Call.GetOrderItem(orderId, orderItemId), Call.GetReview(orderId, orderItemId),
                          Call.AddReview(order.value.customerId, body.value)]
    ensures d.result == BadRequest(Some(ReviewDataMissing)) <==> body.None?
    ensures d.result == BadRequest(Some(ItemIdMismatch)) <==> body.Some? && body.value.orderItemId != orderItemId
    ensures d.calls == [] <==> body.None? || body.value.orderItemId != orderItemId
    ensures d.result == NotFound(Some(OrderNotFound)) <==> body.Some? && body.value.orderItemId == orderItemId && order.None?
    ensures d.result == NotFound(Some(ReviewItemNotFound)) <==>
              body.Some? && body.value.orderItemId == orderItemId && order.Some? && item.None?
    ensures d.result == NotFound(Some(OrderNotFound)) ==> d.calls == [Call.GetOrder(orderId)]
    ensures d.result == NotFound(Some(ReviewItemNotFound)) ==>
              d.calls == [Call.GetOrder(orderId), Call.GetOrderItem(orderId, orderItemId)]
    ensures d.result == Conflict(ReviewExists) ==>
              d.calls == [Call.GetOrder(orderId), Call.GetOrderItem(orderId, orderItemId), Call.GetReview(orderId, orderItemId)]
    ensures ItemChecksPass(orderItemId, body, order, item) && existing.None? ==>
              d.calls == [Call.GetOrder(orderId), Call.GetOrderItem(orderId, orderItemId), Call.GetReview(orderId, orderItemId),
                          Call.AddReview(order.value.customerId, body.value)]
    ensures d.result == Conflict(ReviewExists) <==> ItemChecksPass(orderItemId, body, order, item) && existing.Some?
    ensures (exists c, a :: Call.AddReview(c, a) in d.calls) <==> ItemChecksPass(orderItemId, body, order, item) && existing.None?
    ensures ItemChecksPass(orderItemId, body, order, item) && existing.None? ==>
              Call.AddReview(order.value.customerId, body.value) in d.calls
    ensures d.result == Problem(CreateFailed) <==> ItemChecksPass(orderItemId, body, order, item) && existing.None? && created.None?
    ensures d.result.CreatedAt? <==> ItemChecksPass(orderItemId, body, order, item) && existing.None? && created.Some?
    ensures d.result.CreatedAt? ==>
              d.result == CreatedAt("GetOrderItemReview",
                                    [RouteValue("orderId", orderId), RouteValue("orderItemId", orderItemId)], created.value)
  {
    if body.None? then Decision(BadRequest(Some(ReviewDataMissing)), [])
    else if body.value.orderItemId != orderItemId then Decision(BadRequest(Some(ItemIdMismatch)), [])
    else if order.None? then Decision(NotFound(Some(OrderNotFound)), [Call.GetOrder(orderId)])
    else if item.None? then
      Decision(NotFound(Some(ReviewItemNotFound)), [Call.GetOrder(orderId), Call.GetOrderItem(orderId, orderItemId)])
    else
      var looked := [Call.GetOrder(orderId), Call.GetOrderItem(orderId, orderItemId), Call.GetReview(orderId, orderItemId)];
      if existing.Some? then Decision(Conflict(ReviewExists), looked)
      else
        var calls := looked + [Call.AddReview(order.value.customerId, body.value)];
        if created.None? then Decision(Problem(CreateFailed), calls)
        else Decision(CreatedAt("GetOrderItemReview", [RouteValue("orderId", orderId), RouteValue("orderItemId", orderItemId)],
                                created.value), calls)
  }

  /** Null body, mismatch, order, item, review, then the update under the
      order's CustomerId. */
  function UpdateOrderItemReview(orderId: Guid, orderItemId: Guid, body: Option<Dto.OrderItemReviewRequest>,
                                 order: Option<Dto.OrderResponse>, item: Option<Dto.OrderItemResponse>,
                                 review: Option<Dto.OrderItemReviewResponse>, updated: Option<Dto.OrderItemReviewResponse>)
    : (d: Decision<Dto.OrderItemReviewResponse, Call>)
    ensures body.Some? && order.Some? ==>
              d.calls <= [Call.GetOrder(orderId), Call.GetOrderItem(orderId, orderItemId), Call.GetReview(orderId, orderItemId),
                          Call.UpdateReview(order.value.customerId, body.value)]
    ensures d.result == BadRequest(Some(UpdateDataMissing)) <==> body.None?
    ensures d.result == BadRequest(Some(ItemIdMismatch)) <==> body.Some? && body.value.orderItemId != orderItemId
    ensures d.calls == [] <==> body.None? || body.value.orderItemId != orderItemId
    ensures d.result == NotFound(Some(OrderNotFound)) <==> body.Some? && body.value.orderItemId == orderItemId && order.None?
    ensures d.result == NotFound(Some(ItemNotFound)) <==>
              body.Some? && body.value.orderItemId == orderItemId && order.Some? && item.None?
    ensures d.result == NotFound(Some(ItemReviewNotFound)) <==> ItemChecksPass(orderItemId, body, order, item) && review.None?
    ensures d.result == NotFound(Some(OrderNotFound)) ==> d.calls == [Call.GetOrder(orderId)]
    ensures d.result == NotFound(Some(ItemNotFound)) ==>
              d.calls == [Call.GetOrder(orderId), Call.GetOrderItem(orderId, orderItemId)]
    ensures d.result == NotFound(Some(ItemReviewNotFound)) ==>
              d.calls == [Call.GetOrder(orderId), Call.GetOrderItem(orderId, orderItemId), Call.GetReview(orderId, orderItemId)]
    ensures ItemChecksPass(orderItemId, body, order, item) && review.Some? ==>
              d.calls == [Call.GetOrder(orderId), Call.GetOrderItem(orderId, orderItemId), Call.GetReview(orderId, orderItemId),
                          Call.UpdateReview(order.value.customerId, body.value)]
    ensures (exists c, u :: Call.UpdateReview(c, u) in d.calls) <==> ItemChecksPass(orderItemId, body, order, item) && review.Some?
    ensures d.result == Problem(UpdateFailed) <==> ItemChecksPass(orderItemId, body, order, item) && review.Some? && updated.None?
    ensures d.result.Ok? <==> ItemChecksPass(orderItemId, body, order, item) && review.Some? && updated.Some?
    ensures d.result.Ok? ==> d.result.body == updated.value
  {
    if body.None? then Decision(BadRequest(Some(UpdateDataMissing)), [])
    else if body.value.orderItemId != orderItemId then Decision(BadRequest(Some(ItemIdMismatch)), [])
    else if order.None? then Decision(NotFound(Some(OrderNotFound)), [Call.GetOrder(orderId)])
    else if item.None? then
      Decision(NotFound(Some(ItemNotFound)), [Call.GetOrder(orderId), Call.GetOrderItem(orderId, orderItemId)])
    else
      var looked := [Call.GetOrder(orderId), Call.GetOrderItem(orderId, orderItemId), Call.GetReview(orderId, orderItemId)];
      if review.None? then Decision(NotFound(Some(ItemReviewNotFound)), looked)
      else
        var calls := looked + [Call.UpdateReview(order.value.customerId, body.value)];
        if updated.None? then Decision(Problem(UpdateFailed), calls) else Decision(Ok(updated.value), calls)
  }

  /** No empty-id check: order, item, review, then the delete. */
  function DeleteReview(orderId: Guid, orderItemId: Guid, order: Option<Dto.OrderResponse>,
                        item: Option<Dto.OrderItemResponse>, review: Option<Dto.OrderItemReviewResponse>, deleted: bool)
    : (d: Decision<Empty, Call>)
    ensures d.calls <= [Call.GetOrder(orderId), Call.GetOrderItem(orderId, orderItemId), Call.GetReview(orderId, orderItemId),
                        Call.DeleteReview(orderId, orderItemId)]
    ensures |d.calls| >= 1
    ensures d.result == NotFound(Some(DeleteOrderNotFound)) <==> order.None?
    ensures d.result == NotFound(Some(ItemNotFound)) <==> order.Some? && item.None?
    ensures d.result == NotFound(Some(ItemReviewNotFound)) <==> order.Some? && item.Some? && review.None?
    ensures Call.DeleteReview(orderId, orderItemId) in d.calls <==> order.Some? && item.Some? && review.Some?
    ensures order.None? ==> d.calls == [Call.GetOrder(orderId)]
    ensures order.Some? && item.None? ==> d.calls == [Call.GetOrder(orderId), Call.GetOrderItem(orderId, orderItemId)]
    ensures order.Some? && item.Some? && review.None? ==>
              d.calls == [Call.GetOrder(orderId), Call.GetOrderItem(orderId, orderItemId), Call.GetReview(orderId, orderItemId)]
    ensures d.result == Problem(DeleteFailed) <==> order.Some? && item.Some? && review.Some? && !deleted
    ensures d.result == NoContent <==> order.Some? && item.Some? && review.Some? && deleted
  {
    var all := [Call.GetOrder(orderId), Call.GetOrderItem(orderId, orderItemId), Call.GetReview(orderId, orderItemId),
                Call.DeleteReview(orderId, orderItemId)];
    if order.None? then Decision(NotFound(Some(DeleteOrderNotFound)), all[..1])
    else if item.None? then Decision(NotFound(Some(ItemNotFound)), all[..2])
    else if review.None? then Decision(NotFound(Some(ItemReviewNotFound)), all[..3])
    else if !deleted then Decision(Problem(DeleteFailed), all)
    else Decision(NoContent, all)
  }
}
