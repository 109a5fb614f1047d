/** `OrderItemReviewRepository`: at most one review per order item, keyed by
    the item's OrderItemId. The reviewed item's order is reached through the
    committed items table. */
module OrderItemReviewRepository {
  import opened Wrappers
  import opened Entities
  import opened Store
  import Query
  import UnitOfWork

  /** `review.OrderItem.OrderId == orderId`: the reviewed item belongs to the order. */
  predicate ItemOfOrder(db: Db, orderItemId: Guid, orderId: Guid)
  {
    exists i :: 0 <= i < |db.items.rows| && db.items.rows[i].orderItemId == orderItemId && db.items.rows[i].orderId == orderId
  }

  predicate HasReview(db: Db, orderItemId: Guid)
  {
    exists k :: 0 <= k < |db.reviews.rows| && db.reviews.rows[k].orderItemId == orderItemId
  }

  /** The review an item's OrderItemReview navigation resolves to. */
  function ReviewOfItem(db: Db, orderItemId: Guid): (r: Option<OrderItemReview>)
    ensures r.None? <==> !HasReview(db, orderItemId)
    ensures r.Some? ==> r.value in db.reviews.rows && r.value.orderItemId == orderItemId
  {
    Query.First(db.reviews.rows, (v: OrderItemReview) => v.orderItemId == orderItemId)
  }

  function AddOrderItemReview(db: Db, review: OrderItemReview, fault: bool): (r: Step<Option<OrderItemReview>>)
    ensures r.value == Some(review)
    ensures Wrote(db, r.db, fault)
    ensures db.uow.IsUnitOfWorkStarted() ==> r.db == db.(reviews := Stage(db.reviews, Added(review)))
    ensures Immediate(db, fault) && db.reviews.pending == [] ==> r.db.reviews.rows == db.reviews.rows + [review]
  {
    CommitSingle(db.reviews, Added(review), ReviewKey);
    Step(AutoSave(db.(reviews := Stage(db.reviews, Added(review))), fault), Some(review))
  }

  /** The review must be for the item AND the item must belong to the order. */
  function DeleteOrderItemReview(db: Db, orderId: Guid, orderItemId: Guid, fault: bool): (r: Step<bool>)
    ensures r.value <==> HasReview(db, orderItemId) && ItemOfOrder(db, orderItemId, orderId)
    ensures !r.value ==> r.db == db
    ensures r.value ==> Wrote(db, r.db, fault)
    ensures r.value && Immediate(db, fault) && db.reviews.pending == [] ==>
              Removed(db.reviews.rows, r.db.reviews.rows, orderItemId, ReviewKey)
  {
    match Query.First(db.reviews.rows, (v: OrderItemReview) => v.orderItemId == orderItemId && ItemOfOrder(db, v.orderItemId, orderId))
    case None => Step(db, false)
    case Some(stored) =>
      CommitSingle(db.reviews, Deleted(stored), ReviewKey);
      RemoveKeyMeaning(db.reviews.rows, orderItemId, ReviewKey);
      Step(AutoSave(db.(reviews := Stage(db.reviews, Deleted(stored))), fault), true)
  }

  /** The filter is a disjunction: the first review that is for the item OR whose
      item belongs to the order. */
  function GetOrderItemReview(db: Db, orderId: Guid, orderItemId: Guid): (r: Option<OrderItemReview>)
    ensures r.None? <==> forall k :: 0 <= k < |db.reviews.rows| ==>
              db.reviews.rows[k].orderItemId != orderItemId && !ItemOfOrder(db, db.reviews.rows[k].orderItemId, orderId)
    ensures r.Some? ==> r.value in db.reviews.rows
    ensures r.Some? ==> r.value.orderItemId == orderItemId || ItemOfOrder(db, r.value.orderItemId, orderId)
  {
    Query.First(db.reviews.rows, (v: OrderItemReview) => v.orderItemId == orderItemId || ItemOfOrder(db, v.orderItemId, orderId))
  }

  /** Looked up by OrderItemId alone; Score, ReviewTitle and ReviewDescription
      are copied, the stored CustomerId is kept. */
  function UpdateOrderItemReview(db: Db, review: OrderItemReview, fault: bool): (r: Step<Option<OrderItemReview>>)
    ensures r.value.None? <==> !HasReview(db, review.orderItemId)
    ensures r.value.None? ==> r.db == db
    ensures r.value.Some? ==>
              && r.value.value.orderItemId == review.orderItemId
              && r.value.value.score == review.score
              && r.value.value.reviewTitle == review.reviewTitle
              && r.value.value.reviewDescription == review.reviewDescription
              && exists k :: 0 <= k < |db.reviews.rows| && db.reviews.rows[k].orderItemId == review.orderItemId
                          && db.reviews.rows[k].customerId == r.value.value.customerId
    ensures r.value.Some? ==> Wrote(db, r.db, fault)
    ensures r.value.Some? && Immediate(db, fault) && db.reviews.pending == [] ==>
              Replaced(db.reviews.rows, r.db.reviews.rows, r.value.value, ReviewKey)
  {
    match Query.First(db.reviews.rows, (v: OrderItemReview) => v.orderItemId == review.orderItemId)
    case None => Step(db, None)
    case Some(stored) =>
      var updated := stored.(score := review.score, reviewTitle := review.reviewTitle,
                             reviewDescription := review.reviewDescription);
      CommitSingle(db.reviews, Modified(updated), ReviewKey);
      Step(AutoSave(db.(reviews := Stage(db.reviews, Modified(updated))), fault), Some(updated))
  }

  /** Because of the disjunction, asking for one item can return the review of
      another item of the same order that comes first in the table. */
  lemma GetMayReturnSiblingReview()
    ensures var item1 := OrderItem(Guid(1), Guid(10), "a", 1, 1, 1);
            var item2 := OrderItem(Guid(2), Guid(10), "b", 1, 1, 1);
            var review1 := OrderItemReview(Guid(1), Guid(7), 5, "t", "d");
            var review2 := OrderItemReview(Guid(2), Guid(7), 1, "t", "d");
            var db := Db(Table([], []), Table([item1, item2], []), Table([review1, review2], []),
                         Table([], []), Table([], []), UnitOfWork.New());
            GetOrderItemReview(db, Guid(10), Guid(2)) == Some(review1)
  {
    var item1 := OrderItem(Guid(1), Guid(10), "a", 1, 1, 1);
    var item2 := OrderItem(Guid(2), Guid(10), "b", 1, 1, 1);
    var db := Db(Table([], []), Table([item1, item2], []), Table([OrderItemReview(Guid(1), Guid(7), 5, "t", "d"), OrderItemReview(Guid(2), Guid(7), 1, "t", "d")], []),
                 Table([], []), Table([], []), UnitOfWork.New());
    assert db.items.rows[0] == item1;
  }
}
