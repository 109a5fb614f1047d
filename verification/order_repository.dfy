/** `OrderRepository`: order CRUD over the shared context and the per-year
    sequence query. Every write saves at once unless a unit of work is started. */
module OrderRepository {
  import opened Wrappers
  import opened Int32
  import opened Entities
  import opened Store
  import Query
  import OrderNumbers

  predicate HasOrder(db: Db, orderId: Guid)
  {
    exists i :: 0 <= i < |db.orders.rows| && db.orders.rows[i].orderId == orderId
  }

  function GetOrder(db: Db, orderId: Guid): (r: Option<Order>)
    ensures r.None? <==> !HasOrder(db, orderId)
    ensures r.Some? ==> r.value in db.orders.rows && r.value.orderId == orderId
  {
    Query.First(db.orders.rows, (o: Order) => o.orderId == orderId)
  }

  /** The row the context tracks when `order` is added: EF generates the key
      when it is still `Guid.Empty`, and keeps a key the caller set. */
  function WithKey(order: Order, generatedKey: Guid): Order
  {
    if order.orderId == EmptyGuid then order.(orderId := generatedKey) else order
  }

  /** Stages the order and returns the tracked entity, whose key has been filled in. */
  function AddOrder(db: Db, order: Order, generatedKey: Guid, fault: bool): (r: Step<Option<Order>>)
    requires generatedKey != EmptyGuid
    ensures r.value.Some?
    ensures r.value.value.orderId != EmptyGuid
    ensures order.orderId != EmptyGuid ==> r.value.value == order
    ensures order.orderId == EmptyGuid ==> r.value.value.orderId == generatedKey
    ensures r.value.value.(orderId := order.orderId) == order
    ensures Wrote(db, r.db, fault)
    ensures db.uow.IsUnitOfWorkStarted() ==> r.db == db.(orders := Stage(db.orders, Added(r.value.value)))
    ensures Immediate(db, fault) && db.orders.pending == [] ==> r.db.orders.rows == db.orders.rows + [r.value.value]
  {
    var stored := WithKey(order, generatedKey);
    var staged := db.(orders := Stage(db.orders, Added(stored)));
    CommitSingle(db.orders, Added(stored), OrderKey);
    Step(AutoSave(staged, fault), Some(stored))
  }

  /** True exactly when the order exists; the outcome of the save is ignored. */
  function DeleteOrder(db: Db, orderId: Guid, fault: bool): (r: Step<bool>)
    ensures r.value <==> HasOrder(db, orderId)
    ensures !r.value ==> r.db == db
    ensures r.value ==> Wrote(db, r.db, fault)
    ensures r.value && Immediate(db, fault) && db.orders.pending == [] ==>
              Removed(db.orders.rows, r.db.orders.rows, orderId, OrderKey)
  {
    match GetOrder(db, orderId)
    case None => Step(db, false)
    case Some(order) =>
      var staged := db.(orders := Stage(db.orders, Deleted(order)));
      CommitSingle(db.orders, Deleted(order), OrderKey);
      RemoveKeyMeaning(db.orders.rows, orderId, OrderKey);
      Step(AutoSave(staged, fault), true)
  }

  /** Copies OrderDate, TotalAmount and CustomerId onto the stored order. */
  function UpdateOrder(db: Db, order: Order, fault: bool): (r: Step<Option<Order>>)
    ensures r.value.None? <==> !HasOrder(db, order.orderId)
    ensures r.value.None? ==> r.db == db
    ensures r.value.Some? ==>
              var stored := GetOrder(db, order.orderId).value;
              && r.value.value.orderId == stored.orderId == order.orderId
              && r.value.value.orderNumber == stored.orderNumber
              && r.value.value.orderDate == order.orderDate
              && r.value.value.totalAmount == order.totalAmount
              && r.value.value.customerId == order.customerId
    ensures r.value.Some? ==> Wrote(db, r.db, fault)
    ensures r.value.Some? && Immediate(db, fault) && db.orders.pending == [] ==>
              Replaced(db.orders.rows, r.db.orders.rows, r.value.value, OrderKey)
  {
    match GetOrder(db, order.orderId)
    case None => Step(db, None)
    case Some(stored) =>
      var updated := stored.(orderDate := order.orderDate, totalAmount := order.totalAmount, customerId := order.customerId);
      var staged := db.(orders := Stage(db.orders, Modified(updated)));
      CommitSingle(db.orders, Modified(updated), OrderKey);
      Step(AutoSave(staged, fault), Some(updated))
  }

  /** `GetNextOrderSequenceForYear(year)`: one more than the largest suffix among
      the committed orders of `year`, with malformed numbers counting as 0, in
      unchecked `int` arithmetic. What that means is `NextSequenceForYearMeaning`. */
  function GetNextOrderSequenceForYear(db: Db, year: int): I32
  {
    OrderNumbers.NextSequence(db.orders.rows, year)
  }

  /** The sequence query's answer: 1 for a year with no considered orders; barring
      overflow, above every considered suffix yet one more than some considered
      suffix (or 1), and at least 1 once a malformed number is considered; at
      `int.MaxValue` it wraps to `int.MinValue`. */
  lemma NextSequenceForYearMeaning(db: Db, year: int)
    ensures var r := GetNextOrderSequenceForYear(db, year);
      && ((forall k :: 0 <= k < |db.orders.rows| ==> !OrderNumbers.Considered(db.orders.rows[k], year)) ==> r == 1)
      && (OrderNumbers.NoOverflow(db.orders.rows, year) ==>
            forall k :: 0 <= k < |db.orders.rows| && OrderNumbers.Considered(db.orders.rows[k], year) ==>
              OrderNumbers.Suffix(db.orders.rows[k].orderNumber) < r)
      && (OrderNumbers.NoOverflow(db.orders.rows, year) ==>
            r == 1 || exists k :: 0 <= k < |db.orders.rows| && OrderNumbers.Considered(db.orders.rows[k], year)
                               && OrderNumbers.Suffix(db.orders.rows[k].orderNumber) == r - 1)
      && (OrderNumbers.NoOverflow(db.orders.rows, year) ==>
            forall k :: (0 <= k < |db.orders.rows| && OrderNumbers.Considered(db.orders.rows[k], year)
                         && !OrderNumbers.WellFormed(db.orders.rows[k].orderNumber)) ==> r >= 1)
      && (!OrderNumbers.NoOverflow(db.orders.rows, year) ==> r == Min)
  {
    var orders := db.orders.rows;
    if forall k :: 0 <= k < |orders| ==> !OrderNumbers.Considered(orders[k], year) {
      OrderNumbers.NextSequenceWhenNoneConsidered(orders, year);
    }
    if OrderNumbers.NoOverflow(orders, year) {
      OrderNumbers.NextSequenceExceedsAll(orders, year);
      OrderNumbers.NextSequenceIsTight(orders, year);
    } else {
      OrderNumbers.NextSequenceWrapsAtMax(orders, year);
    }
  }
}
