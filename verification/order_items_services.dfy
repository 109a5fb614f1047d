/** `OrderItemsBatchService.CreateOrderItems` and
    `OrderItemsUpdaterService.UpdateOrderItem`. The keys EF generates for new
    items are parameters. */
module OrderItemsServices {
  import opened Wrappers
  import opened Entities
  import opened Store
  import OrderItemRepository
  import OrderItemReviewRepository
  import Dto

  /** The item a batch stages for `req`: the converted request under the generated key. */
  function BatchItem(req: Dto.OrderItemAddRequest, key: Guid): (item: OrderItem)
    ensures item.orderItemId == key
    ensures item.(orderItemId := EmptyGuid) == Dto.AddRequestToOrderItem(req)
  {
    Dto.AddRequestToOrderItem(req).(orderItemId := key)
  }

  function BatchItems(requests: seq<Dto.OrderItemAddRequest>, keys: seq<Guid>): (b: seq<OrderItem>)
    requires |keys| == |requests|
    ensures |b| == |requests|
  {
    seq(|requests|, k requires 0 <= k < |requests| => BatchItem(requests[k], keys[k]))
  }

  /** One pass of the batch loop: convert the request and add it. With the unit
      of work started the repository does not save. */
  function ItemStep(cur: Db, req: Dto.OrderItemAddRequest, key: Guid): (r: Step<Option<OrderItem>>)
    requires cur.uow.IsUnitOfWorkStarted() && key != EmptyGuid
    ensures r.value == Some(BatchItem(req, key))
    ensures r.db == cur.(items := Stage(cur.items, Added(r.value.value)))
  {
    OrderItemRepository.AddOrderItem(cur, Dto.AddRequestToOrderItem(req), key, false)
  }

  /** Writing a context whose only tracked items are `added` appends them. */
  lemma CommitStagedItems(db: Db, cur: Db, added: seq<OrderItem>)
    requires cur.items.rows == db.items.rows
    requires cur.items.pending == db.items.pending + Adds(added)
    ensures db.items.pending == [] ==> CommitAll(cur).items.rows == db.items.rows + added
  {
    if db.items.pending == [] {
      assert cur.items.pending == Adds(added);
      ApplyAdds(db.items.rows, added, ItemKey);
    }
  }

  /** Starts the unit of work, adds one item per request in order, then
      writes them all with one `SaveChangesAsync`, whose exception propagates.
      A freshly added item has no review attached. */
  method CreateOrderItems(db: Db, requests: seq<Dto.OrderItemAddRequest>, keys: seq<Guid>, fault: bool)
    returns (db': Db, result: Try<seq<Dto.OrderItemResponse>>)
    requires |keys| == |requests|
    requires forall k :: 0 <= k < |keys| ==> keys[k] != EmptyGuid
    ensures db'.uow.IsUnitOfWorkStarted()
    ensures result.Thrown? <==> fault
    ensures fault ==> SameCommitted(db, db')
    ensures !fault ==> NoPending(db')
    ensures result.Returned? ==> |result.value| == |requests|
    ensures result.Returned? ==> forall i :: 0 <= i < |requests| ==>
              Dto.ResponseItem(result.value[i]) == BatchItems(requests, keys)[i] && result.value[i].review.None?
    ensures !fault && db.items.pending == [] ==> db'.items.rows == db.items.rows + BatchItems(requests, keys)
  {
    var cur := StartUnitOfWork(db);
    var added: seq<OrderItem> := [];
    var k := 0;
    while k < |requests|
      invariant 0 <= k <= |requests|
      invariant cur.uow.IsUnitOfWorkStarted()
      invariant SameCommitted(db, cur)
      invariant cur.items.pending == db.items.pending + Adds(added)
      invariant added == BatchItems(requests, keys)[..k]
    {
      var step := ItemStep(cur, requests[k], keys[k]);
      cur := step.db;
      if step.value.Some? {
        added := added + [step.value.value];
      }
      assert Adds(added) == Adds(added[..k]) + [Added(step.value.value)];
      k := k + 1;
    }
    assert added == BatchItems(requests, keys);
    var saved := SaveChangesAsync(cur, fault);
    db' := saved.db;
    if saved.value.Thrown? {
      result := Thrown;
    } else {
      result := Returned(seq(|added|, i requires 0 <= i < |added| => Dto.ToOrderItemResponse(added[i], None)));
      CommitStagedItems(db, cur, added);
    }
  }

  /** The item sent for update takes its OrderId from the route; the response
      is built from the stored item, with the review its navigation resolves to. */
  function UpdateOrderItem(db: Db, orderId: Guid, req: Dto.OrderItemUpdateRequest, fault: bool): (r: Step<Option<Dto.OrderItemResponse>>)
    ensures r.value.None? <==> !OrderItemRepository.HasItem(db, orderId, req.orderItemId)
    ensures r.value.None? ==> r.db == db
    ensures r.value.Some? ==> Dto.ResponseItem(r.value.value) == Dto.UpdateRequestToOrderItem(req).(orderId := orderId)
    ensures r.value.Some? ==> Dto.ResponseReview(r.value.value) == OrderItemReviewRepository.ReviewOfItem(db, req.orderItemId)
    ensures r.value.Some? ==> Wrote(db, r.db, fault)
    ensures r.value.Some? && Immediate(db, fault) && db.items.pending == [] ==>
              Replaced(db.items.rows, r.db.items.rows, Dto.ResponseItem(r.value.value), ItemKey)
  {
    var item := Dto.UpdateRequestToOrderItem(req).(orderId := orderId);
    var step := OrderItemRepository.UpdateOrderItem(db, item, fault);
    Step(step.db, if step.value.None? then None
                  else Some(Dto.ToOrderItemResponse(step.value.value, OrderItemReviewRepository.ReviewOfItem(db, step.value.value.orderItemId))))
  }
}
