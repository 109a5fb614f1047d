/** `OrderItemRepository`: order items addressed by the pair (OrderId, OrderItemId). */
module OrderItemRepository {
  import opened Wrappers
  import opened Entities
  import opened Store
  import Query

  predicate HasItem(db: Db, orderId: Guid, orderItemId: Guid)
  {
    exists i :: 0 <= i < |db.items.rows| && db.items.rows[i].orderId == orderId && db.items.rows[i].orderItemId == orderItemId
  }

  /** The row the context tracks when `item` is added: EF generates the key
      when it is still `Guid.Empty`, and keeps a key the caller set. */
  function WithKey(item: OrderItem, generatedKey: Guid): OrderItem
  {
    if item.orderItemId == EmptyGuid then item.(orderItemId := generatedKey) else item
  }

  /** Returns the tracked entity, whose key has been filled in. */
  function AddOrderItem(db: Db, item: OrderItem, generatedKey: Guid, fault: bool): (r: Step<Option<OrderItem>>)
    requires generatedKey != EmptyGuid
    ensures r.value.Some?
    ensures r.value.value.orderItemId != EmptyGuid
    ensures item.orderItemId != EmptyGuid ==> r.value.value == item
    ensures item.orderItemId == EmptyGuid ==> r.value.value.orderItemId == generatedKey
    ensures r.value.value.(orderItemId := item.orderItemId) == item
    ensures Wrote(db, r.db, fault)
    ensures db.uow.IsUnitOfWorkStarted() ==> r.db == db.(items := Stage(db.items, Added(r.value.value)))
    ensures Immediate(db, fault) && db.items.pending == [] ==> r.db.items.rows == db.items.rows + [r.value.value]
  {
    var stored := WithKey(item, generatedKey);
    CommitSingle(db.items, Added(stored), ItemKey);
    Step(AutoSave(db.(items := Stage(db.items, Added(stored))), fault), Some(stored))
  }

  /** The item must belong to the given order as well as carry the given id. */
  function GetOrderItem(db: Db, orderId: Guid, orderItemId: Guid): (r: Option<OrderItem>)
    ensures r.None? <==> !HasItem(db, orderId, orderItemId)
    ensures r.Some? ==> r.value in db.items.rows && r.value.orderId == orderId && r.value.orderItemId == orderItemId
  {
    Query.First(db.items.rows, (i: OrderItem) => i.orderItemId == orderItemId && i.orderId == orderId)
  }

  /** Every committed item of the order, in table order; empty for an unknown order. */
  function GetOrderItemsFromOrderID(db: Db, orderId: Guid): (r: seq<OrderItem>)
    ensures forall k :: 0 <= k < |r| ==> r[k] in db.items.rows && r[k].orderId == orderId
    ensures forall k :: 0 <= k < |db.items.rows| && db.items.rows[k].orderId == orderId ==> db.items.rows[k] in r
  {
    Query.Where(db.items.rows, (i: OrderItem) => i.orderId == orderId)
  }

  /** Copies ProductName, Quantity, UnitPrice and TotalPrice as given; the
      total is not recomputed here. */
  function UpdateOrderItem(db: Db, item: OrderItem, fault: bool): (r: Step<Option<OrderItem>>)
    ensures r.value.None? <==> !HasItem(db, item.orderId, item.orderItemId)
    ensures r.value.None? ==> r.db == db
    ensures r.value.Some? ==> r.value.value == item
    ensures r.value.Some? ==> Wrote(db, r.db, fault)
    ensures r.value.Some? && Immediate(db, fault) && db.items.pending == [] ==>
              Replaced(db.items.rows, r.db.items.rows, item, ItemKey)
  {
    match GetOrderItem(db, item.orderId, item.orderItemId)
    case None => Step(db, None)
    case Some(stored) =>
      var updated := stored.(productName := item.productName, quantity := item.quantity,
                             unitPrice := item.unitPrice, totalPrice := item.totalPrice);
      CommitSingle(db.items, Modified(updated), ItemKey);
      Step(AutoSave(db.(items := Stage(db.items, Modified(updated))), fault), Some(updated))
  }

  function DeleteOrderItem(db: Db, orderId: Guid, orderItemId: Guid, fault: bool): (r: Step<bool>)
    ensures r.value <==> HasItem(db, orderId, orderItemId)
    ensures !r.value ==> r.db == db
    ensures r.value ==> Wrote(db, r.db, fault)
    ensures r.value && Immediate(db, fault) && db.items.pending == [] ==>
              Removed(db.items.rows, r.db.items.rows, orderItemId, ItemKey)
  {
    match GetOrderItem(db, orderId, orderItemId)
    case None => Step(db, false)
    case Some(stored) =>
      CommitSingle(db.items, Deleted(stored), ItemKey);
      RemoveKeyMeaning(db.items.rows, orderItemId, ItemKey);
      Step(AutoSave(db.(items := Stage(db.items, Deleted(stored))), fault), true)
  }
}
