/** `OrderItemReviewsAdderService` and `OrderItemReviewsUpdaterService`: both
    stamp the review with the caller's CustomerId before handing it on. */
module ReviewServices {
  import opened Wrappers
  import opened Entities
  import opened Store
  import OrderItemReviewRepository
  import Dto

  function ResponseReview(v: Dto.OrderItemReviewResponse): OrderItemReview
  {
    OrderItemReview(v.orderItemId, v.customerId, v.score, v.reviewTitle, v.reviewDescription)
  }

  /** The stored review carries `customerId`, whatever the request held. */
  function AddOrderItemReview(db: Db, customerId: Guid, req: Dto.OrderItemReviewRequest, fault: bool): (r: Step<Option<Dto.OrderItemReviewResponse>>)
    ensures r.value.Some?
    ensures r.value.value.customerId == customerId
    ensures r.value.value.orderItemId == req.orderItemId && r.value.value.score == req.score
    ensures r.value.value.reviewTitle == req.reviewTitle && r.value.value.reviewDescription == req.reviewDescription
    ensures Wrote(db, r.db, fault)
    ensures Immediate(db, fault) && db.reviews.pending == [] ==>
              r.db.reviews.rows == db.reviews.rows + [ResponseReview(r.value.value)]
  {
    var review := Dto.ToOrderItemReview(req).(customerId := customerId);
    var step := OrderItemReviewRepository.AddOrderItemReview(db, review, fault);
    Step(step.db, if step.value.None? then None else Some(Dto.ToOrderItemReviewResponse(step.value.value)))
  }

  /** The review handed on carries `customerId`, but the repository does not
      copy it, so the response reports the CustomerId already stored. */
  function UpdateOrderItemReview(db: Db, customerId: Guid, req: Dto.OrderItemReviewRequest, fault: bool): (r: Step<Option<Dto.OrderItemReviewResponse>>)
    ensures r.value.None? <==> !OrderItemReviewRepository.HasReview(db, req.orderItemId)
    ensures r.value.None? ==> r.db == db
    ensures r.value.Some? ==>
              && r.value.value.orderItemId == req.orderItemId && r.value.value.score == req.score
              && r.value.value.reviewTitle == req.reviewTitle && r.value.value.reviewDescription == req.reviewDescription
    ensures r.value.Some? ==>
              exists k :: 0 <= k < |db.reviews.rows| && db.reviews.rows[k].orderItemId == req.orderItemId
                       && db.reviews.rows[k].customerId == r.value.value.customerId
    ensures r.value.Some? ==> Wrote(db, r.db, fault)
  {
    var review := Dto.ToOrderItemReview(req).(customerId := customerId);
    var step := OrderItemReviewRepository.UpdateOrderItemReview(db, review, fault);
    Step(step.db, if step.value.None? then None else Some(Dto.ToOrderItemReviewResponse(step.value.value)))
  }

  /** The CustomerId passed to the update has no effect on anything. */
  lemma UpdateIgnoresCustomerId(db: Db, c1: Guid, c2: Guid, req: Dto.OrderItemReviewRequest, fault: bool)
    ensures UpdateOrderItemReview(db, c1, req, fault) == UpdateOrderItemReview(db, c2, req, fault)
  {
  }
}
