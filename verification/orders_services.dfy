/** `OrdersAdderService.AddOrder` and `OrdersBatchService.CreateOrders`: new
    orders numbered `"{year}_{sequence}"` from the per-year sequence query.
    The current time and the fresh OrderIds are parameters. */
module OrdersServices {
  import opened Wrappers
  import opened Int32
  import opened Entities
  import opened Store
  import OrderRepository
  import OrderNumbers
  import Dto

  /** The order built for `req` with key `id` and the given sequence number. */
  function NewOrder(req: Dto.OrderAddRequest, now: DateTime, id: Guid, sequence: I32): Order
  {
    Dto.AddRequestToOrder(req, now).(orderId := id, orderNumber := OrderNumbers.Format(now.year, sequence))
  }

  /** `Guid.NewGuid()` yields a version-4 GUID, which is never all zeros. */
  predicate FreshIds(ids: seq<Guid>)
  {
    forall k :: 0 <= k < |ids| ==> ids[k] != EmptyGuid
  }

  /** Numbers the order with the repository's next sequence for the current
      year and adds it; the repository never returns null, so neither does this.
      The OrderId is set before the add, so EF's key generator is not consulted. */
  function AddOrder(db: Db, req: Dto.OrderAddRequest, now: DateTime, freshId: Guid, fault: bool): (r: Step<Option<Dto.OrderResponse>>)
    requires freshId != EmptyGuid
    ensures r.value.Some?
    ensures var o := Dto.ResponseOrder(r.value.value);
            && o.orderId == freshId && o.customerId == req.customerId
            && o.totalAmount == req.totalAmount && o.orderDate == now
            && o.orderNumber == OrderNumbers.Format(now.year, OrderRepository.GetNextOrderSequenceForYear(db, now.year))
    ensures OrderNumbers.NoOverflow(db.orders.rows, now.year) ==>
              forall k :: 0 <= k < |db.orders.rows| && OrderNumbers.Considered(db.orders.rows[k], now.year) ==>
                OrderNumbers.Suffix(db.orders.rows[k].orderNumber) < OrderNumbers.Suffix(r.value.value.orderNumber)
    ensures Wrote(db, r.db, fault)
    ensures Immediate(db, fault) && db.orders.pending == [] ==>
              r.db.orders.rows == db.orders.rows + [Dto.ResponseOrder(r.value.value)]
  {
    var next := OrderRepository.GetNextOrderSequenceForYear(db, now.year);
    var order := NewOrder(req, now, freshId, next);
    OrderNumbers.SuffixOfFormat(now.year, next);
    OrderRepository.NextSequenceForYearMeaning(db, now.year);
    var step := OrderRepository.AddOrder(db, order, freshId, fault);
    Step(step.db, if step.value.None? then None else Some(Dto.ToOrderResponse(step.value.value)))
  }

  /** Once an add has been written, the next add in the same year gets a
      strictly larger sequence, barring overflow. */
  lemma CommittedAddRaisesNext(db: Db, req: Dto.OrderAddRequest, now: DateTime, freshId: Guid)
    requires freshId != EmptyGuid
    requires !db.uow.IsUnitOfWorkStarted() && db.orders.pending == []
    requires OrderNumbers.MaxSuffix(db.orders.rows, now.year) + 2 <= Max
    ensures OrderRepository.GetNextOrderSequenceForYear(AddOrder(db, req, now, freshId, false).db, now.year)
              > OrderRepository.GetNextOrderSequenceForYear(db, now.year)
  {
    var next := OrderRepository.GetNextOrderSequenceForYear(db, now.year);
    var o := Dto.ResponseOrder(AddOrder(db, req, now, freshId, false).value.value);
    OrderNumbers.SuffixOfFormat(now.year, next);
    OrderNumbers.MaxSuffixAfterAppend(db.orders.rows, o, now.year);
    OrderNumbers.NextSequenceAfterCommit(db.orders.rows, o, now.year, next);
  }

  /** Two successive adds in one year, the first written, get different numbers. */
  lemma SuccessiveAddsDistinct(db: Db, req1: Dto.OrderAddRequest, req2: Dto.OrderAddRequest, now: DateTime, id1: Guid, id2: Guid)
    requires id1 != EmptyGuid && id2 != EmptyGuid
    requires !db.uow.IsUnitOfWorkStarted() && db.orders.pending == []
    requires OrderNumbers.MaxSuffix(db.orders.rows, now.year) + 2 <= Max
    ensures AddOrder(AddOrder(db, req1, now, id1, false).db, req2, now, id2, fault := false).value.value.orderNumber
              != AddOrder(db, req1, now, id1, false).value.value.orderNumber
  {
    var db1 := AddOrder(db, req1, now, id1, false).db;
    CommittedAddRaisesNext(db, req1, now, id1);
    OrderNumbers.FormatInjective(now.year, OrderRepository.GetNextOrderSequenceForYear(db, now.year),
                                 OrderRepository.GetNextOrderSequenceForYear(db1, now.year));
  }

  // ---- Batches -------------------------------------------------------------

  /** The sequence the batch gives its `i`-th order: the committed next
      sequence plus the position, with unchecked Int32 addition. */
  function BatchSequence(rows: seq<Order>, year: int, i: nat): I32
  {
    Wrap(OrderNumbers.NextSequence(rows, year) + i)
  }

  function BatchOrder(rows: seq<Order>, req: Dto.OrderAddRequest, now: DateTime, id: Guid, i: nat): Order
  {
    NewOrder(req, now, id, BatchSequence(rows, now.year, i))
  }

  /** Every order a batch over committed `rows` adds, in request order. */
  function Batch(rows: seq<Order>, requests: seq<Dto.OrderAddRequest>, now: DateTime, ids: seq<Guid>): (b: seq<Order>)
    requires |ids| == |requests|
    ensures |b| == |requests|
  {
    seq(|requests|, k requires 0 <= k < |requests| => BatchOrder(rows, requests[k], now, ids[k], k))
  }

  /** One pass of the batch loop for the request at position `counter`: re-run
      the sequence query, number the order, add it. With the unit of work
      started the repository does not save, so a save's outcome plays no part. */
  function BatchStep(cur: Db, req: Dto.OrderAddRequest, now: DateTime, id: Guid, counter: nat): (r: Step<Option<Order>>)
    requires cur.uow.IsUnitOfWorkStarted() && id != EmptyGuid
    ensures r.value == Some(BatchOrder(cur.orders.rows, req, now, id, counter))
    ensures r.db == cur.(orders := Stage(cur.orders, Added(BatchOrder(cur.orders.rows, req, now, id, counter))))
  {
    OrderRepository.AddOrder(cur, NewOrder(req, now, id, QueriedSequence(cur, now.year, counter)), id, false)
  }

  /** `nextSequence + counter` with `nextSequence` from the repository's query:
      the committed next sequence plus the position, whatever was staged. */
  function QueriedSequence(cur: Db, year: int, counter: nat): (s: I32)
    ensures s == BatchSequence(cur.orders.rows, year, counter)
  {
    var next := OrderRepository.GetNextOrderSequenceForYear(cur, year);
    Wrap(next + counter)
  }

  /** The loop of `CreateOrders`: one `BatchStep` per request, nothing written. */
  method StageOrders(db: Db, requests: seq<Dto.OrderAddRequest>, now: DateTime, ids: seq<Guid>)
    returns (cur: Db, added: seq<Order>)
    requires |ids| == |requests| && FreshIds(ids)
    requires db.uow.IsUnitOfWorkStarted()
    ensures cur.uow.IsUnitOfWorkStarted() && cur.uow == db.uow
    ensures SameCommitted(db, cur)
    ensures cur.orders.pending == db.orders.pending + Adds(added)
    ensures added == Batch(db.orders.rows, requests, now, ids)
  {
    cur := db;
    added := [];
    var counter := 0;
    while counter < |requests|
      invariant 0 <= counter <= |requests|
      invariant cur.uow == db.uow
      invariant SameCommitted(db, cur)
      invariant cur.orders.pending == db.orders.pending + Adds(added)
      invariant added == Batch(db.orders.rows, requests, now, ids)[..counter]
    {
      var step := BatchStep(cur, requests[counter], now, ids[counter], counter);
      cur := step.db;
      if step.value.Some? {
        AddsSnoc(added, step.value.value);
        BatchPrefix(db.orders.rows, requests, now, ids, counter);
        added := added + [step.value.value];
      }
      counter := counter + 1;
    }
  }

  lemma BatchPrefix(rows: seq<Order>, requests: seq<Dto.OrderAddRequest>, now: DateTime, ids: seq<Guid>, n: nat)
    requires |ids| == |requests| && n < |requests|
    ensures Batch(rows, requests, now, ids)[..n + 1]
         == Batch(rows, requests, now, ids)[..n] + [BatchOrder(rows, requests[n], now, ids[n], n)]
  {
    var b := Batch(rows, requests, now, ids);
    var c := b[..n] + [BatchOrder(rows, requests[n], now, ids[n], n)];
    forall i | 0 <= i <= n ensures b[..n + 1][i] == c[i] {
      if i == n { assert c[i] == b[n]; }
    }
  }

  lemma AddsSnoc<V>(vs: seq<V>, v: V)
    ensures Adds(vs + [v]) == Adds(vs) + [Added(v)]
  {
  }

  /** Starts the unit of work, stages one numbered order per request (each
      pass re-runs the sequence query, which sees only committed rows), then
      writes them all with one `SaveChangesAsync`, whose exception propagates. */
  method CreateOrders(db: Db, requests: seq<Dto.OrderAddRequest>, now: DateTime, ids: seq<Guid>, fault: bool)
    returns (db': Db, result: Try<seq<Dto.OrderResponse>>)
    requires |ids| == |requests| && FreshIds(ids)
    ensures db'.uow.IsUnitOfWorkStarted()
    ensures result.Thrown? <==> fault
    ensures fault ==> SameCommitted(db, db')
    ensures !fault ==> NoPending(db')
    ensures result.Returned? ==> |result.value| == |requests|
    ensures result.Returned? ==> forall i :: 0 <= i < |requests| ==>
              Dto.ResponseOrder(result.value[i]) == Batch(db.orders.rows, requests, now, ids)[i]
    ensures !fault && db.orders.pending == [] ==> db'.orders.rows == db.orders.rows + Batch(db.orders.rows, requests, now, ids)
  {
    var started := StartUnitOfWork(db);
    var cur, added := StageOrders(started, requests, now, ids);
    var saved := SaveChangesAsync(cur, fault);
    db' := saved.db;
    if saved.value.Thrown? {
      result := Thrown;
    } else {
      result := Returned(seq(|added|, k requires 0 <= k < |added| => Dto.ToOrderResponse(added[k])));
      CommitStagedOrders(started, cur, added);
    }
  }

  /** Writing a context whose only tracked orders are `added` appends them. */
  lemma CommitStagedOrders(db: Db, cur: Db, added: seq<Order>)
    requires cur.orders.rows == db.orders.rows
    requires cur.orders.pending == db.orders.pending + Adds(added)
    ensures db.orders.pending == [] ==> CommitAll(cur).orders.rows == db.orders.rows + added
  {
    if db.orders.pending == [] {
      assert cur.orders.pending == Adds(added);
      ApplyAdds(db.orders.rows, added, OrderKey);
    }
  }

  /** Within a batch that does not run past `int.MaxValue`, the numbers are
      pairwise distinct. */
  lemma BatchNumbersDistinct(rows: seq<Order>, year: int, i: nat, j: nat)
    requires i < j && OrderNumbers.NextSequence(rows, year) + j <= Max
    ensures OrderNumbers.Format(year, BatchSequence(rows, year, i)) != OrderNumbers.Format(year, BatchSequence(rows, year, j))
  {
    OrderNumbers.FormatInjective(year, BatchSequence(rows, year, i), BatchSequence(rows, year, j));
  }

  /** Barring overflow, each batch number reads back as its sequence and that
      sequence exceeds every committed suffix of the year. */
  lemma BatchNumbersExceedCommitted(rows: seq<Order>, year: int, i: nat)
    requires OrderNumbers.NoOverflow(rows, year) && OrderNumbers.NextSequence(rows, year) + i <= Max
    ensures OrderNumbers.Suffix(OrderNumbers.Format(year, BatchSequence(rows, year, i))) == BatchSequence(rows, year, i)
    ensures forall k :: 0 <= k < |rows| && OrderNumbers.Considered(rows[k], year) ==>
              OrderNumbers.Suffix(rows[k].orderNumber) < BatchSequence(rows, year, i)
  {
    OrderNumbers.SuffixOfFormat(year, BatchSequence(rows, year, i));
    OrderNumbers.NextSequenceExceedsAll(rows, year);
  }
}
