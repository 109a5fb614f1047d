/** The database context shared by every repository of one request: the
    committed rows of each table, the changes tracked but not yet written, and
    the request's unit-of-work manager. Queries read committed rows only. */
module Store {
  import opened Wrappers
  import opened Entities
  import UnitOfWork
  import Query

  /** A change the context tracks but has not written yet. */
  datatype Change<V> = Added(row: V) | Modified(row: V) | Deleted(row: V)

  /** One table: committed rows in database order, staged changes in the order made. */
  datatype Table<V> = Table(rows: seq<V>, pending: seq<Change<V>>)

  /** UPDATE ... WHERE key = key(v). */
  function Replace<V>(rows: seq<V>, v: V, key: V -> Guid): (r: seq<V>)
    ensures |r| == |rows|
    ensures forall i :: 0 <= i < |rows| ==> r[i] == if key(rows[i]) == key(v) then v else rows[i]
  {
    seq(|rows|, i requires 0 <= i < |rows| => if key(rows[i]) == key(v) then v else rows[i])
  }

  /** DELETE ... WHERE key = k. */
  function RemoveKey<V>(rows: seq<V>, k: Guid, key: V -> Guid): seq<V>
  {
    Query.Where(rows, (r: V) => key(r) != k)
  }

  function Apply<V>(rows: seq<V>, c: Change<V>, key: V -> Guid): seq<V>
  {
    match c
    case Added(v) => rows + [v]
    case Modified(v) => Replace(rows, v, key)
    case Deleted(v) => RemoveKey(rows, key(v), key)
  }

  function ApplyAll<V>(rows: seq<V>, cs: seq<Change<V>>, key: V -> Guid): seq<V>
    decreases |cs|
  {
    if |cs| == 0 then rows else ApplyAll(Apply(rows, cs[0], key), cs[1..], key)
  }

  function Stage<V>(t: Table<V>, c: Change<V>): Table<V>
  {
    t.(pending := t.pending + [c])
  }

  function Commit<V>(t: Table<V>, key: V -> Guid): Table<V>
  {
    Table(ApplyAll(t.rows, t.pending, key), [])
  }

  function OrderKey(o: Order): Guid { o.orderId }
  function ItemKey(i: OrderItem): Guid { i.orderItemId }
  function ReviewKey(r: OrderItemReview): Guid { r.orderItemId }
  function CustomerKey(c: Customer): Guid { c.customerId }
  function CountryKey(c: Country): Guid { c.countryId }

  datatype Db = Db(
    orders: Table<Order>,
    items: Table<OrderItem>,
    reviews: Table<OrderItemReview>,
    customers: Table<Customer>,
    countries: Table<Country>,
    uow: UnitOfWork.Manager)

  /** The result of an operation on the context together with the context after it. */
  datatype Step<T> = Step(db: Db, value: T)

  /** The number of tracked changes: the row count `SaveChangesAsync` reports. */
  function PendingCount(db: Db): nat
  {
    |db.orders.pending| + |db.items.pending| + |db.reviews.pending|
      + |db.customers.pending| + |db.countries.pending|
  }

  predicate NoPending(db: Db)
  {
    PendingCount(db) == 0
  }

  predicate SameCommitted(a: Db, b: Db)
  {
    && a.orders.rows == b.orders.rows
    && a.items.rows == b.items.rows
    && a.reviews.rows == b.reviews.rows
    && a.customers.rows == b.customers.rows
    && a.countries.rows == b.countries.rows
  }

  /** Writes every tracked change of every table in one round trip. */
  function CommitAll(db: Db): (r: Db)
    ensures NoPending(r) && r.uow == db.uow
  {
    Db(Commit(db.orders, OrderKey), Commit(db.items, ItemKey), Commit(db.reviews, ReviewKey),
       Commit(db.customers, CustomerKey), Commit(db.countries, CountryKey), db.uow)
  }

  /** Committing a table whose only staged change is `c` applies exactly `c`. */
  lemma CommitSingle<V>(t: Table<V>, c: Change<V>, key: V -> Guid)
    ensures t.pending == [] ==> Commit(Stage(t, c), key).rows == Apply(t.rows, c, key)
  {
    if t.pending != [] { return; }
    var cs := Stage(t, c).pending;
    assert cs == [c];
    assert ApplyAll(t.rows, cs, key) == ApplyAll(Apply(t.rows, c, key), cs[1..], key);
    assert cs[1..] == [];
  }

  /** The changes a run of adds stages, in order. */
  function Adds<V>(vs: seq<V>): (cs: seq<Change<V>>)
    ensures |cs| == |vs|
    ensures forall k :: 0 <= k < |vs| ==> cs[k] == Added(vs[k])
  {
    seq(|vs|, k requires 0 <= k < |vs| => Added(vs[k]))
  }

  /** Writing a run of adds appends the rows in the order they were added. */
  lemma {:induction false} ApplyAdds<V>(rows: seq<V>, vs: seq<V>, key: V -> Guid)
    ensures ApplyAll(rows, Adds(vs), key) == rows + vs
    decreases |vs|
  {
    if |vs| > 0 {
      assert Adds(vs)[1..] == Adds(vs[1..]);
      ApplyAdds(rows + [vs[0]], vs[1..], key);
      assert rows + [vs[0]] + vs[1..] == rows + vs;
    } else {
      assert rows + vs == rows;
    }
  }

  /** `u` is `rows` with every row keyed like `v` replaced by `v`, in place. */
  ghost predicate Replaced<V>(rows: seq<V>, u: seq<V>, v: V, key: V -> Guid)
  {
    |u| == |rows| && forall i :: 0 <= i < |rows| ==> u[i] == if key(rows[i]) == key(v) then v else rows[i]
  }

  /** `u` keeps exactly the rows of `rows` not keyed `k`. */
  ghost predicate Removed<V>(rows: seq<V>, u: seq<V>, k: Guid, key: V -> Guid)
  {
    && (forall i :: 0 <= i < |u| ==> key(u[i]) != k && u[i] in rows)
    && (forall i :: 0 <= i < |rows| && key(rows[i]) != k ==> rows[i] in u)
  }

  lemma RemoveKeyMeaning<V>(rows: seq<V>, k: Guid, key: V -> Guid)
    ensures Removed(rows, RemoveKey(rows, k, key), k, key)
  {
  }

  /** How a repository write that staged one change leaves the context: with a
      unit of work started, nothing is written and the change stays tracked;
      otherwise everything tracked is written, unless the save fails. */
  predicate Wrote(db: Db, r: Db, fault: bool)
  {
    && r.uow == db.uow
    && (db.uow.IsUnitOfWorkStarted() ==> SameCommitted(db, r) && PendingCount(r) == PendingCount(db) + 1)
    && (!db.uow.IsUnitOfWorkStarted() && fault ==> SameCommitted(db, r))
    && (!db.uow.IsUnitOfWorkStarted() && !fault ==> NoPending(r))
  }

  /** Whether this write committed a table that had nothing tracked before it. */
  predicate Immediate(db: Db, fault: bool)
  {
    !db.uow.IsUnitOfWorkStarted() && !fault
  }

  /** A repository's `Save()`: `SaveChangesAsync` inside a try block; any exception
      (`fault`) gives false with nothing written, otherwise the result is whether
      more than zero rows were written. */
  function Save(db: Db, fault: bool): (r: Step<bool>)
    ensures r.value <==> !fault && PendingCount(db) > 0
    ensures fault ==> r.db == db
    ensures !fault ==> NoPending(r.db) && r.db == CommitAll(db)
  {
    if fault then Step(db, false)
    else Step(CommitAll(db), PendingCount(db) > 0)
  }

  /** `UnitOfWorkManager.SaveChangesAsync`: writes everything tracked and reports
      the row count; an exception propagates. The flag is left as it was. */
  function SaveChangesAsync(db: Db, fault: bool): (r: Step<Try<nat>>)
    ensures r.db.uow == db.uow
    ensures r.value.Thrown? <==> fault
    ensures fault ==> r.db == db
    ensures !fault ==> NoPending(r.db) && r.db == CommitAll(db) && r.value.value == PendingCount(db)
  {
    if fault then Step(db, Thrown)
    else Step(CommitAll(db), Returned(PendingCount(db)))
  }

  function StartUnitOfWork(db: Db): (r: Db)
    ensures r.uow.IsUnitOfWorkStarted()
    ensures SameCommitted(db, r) && PendingCount(r) == PendingCount(db)
  {
    db.(uow := UnitOfWork.StartUnitOfWork(db.uow))
  }

  /** What every repository write does after staging: save at once unless a unit
      of work has been started, ignoring the outcome of the save. */
  function AutoSave(db: Db, fault: bool): (r: Db)
    ensures r.uow == db.uow
    ensures db.uow.IsUnitOfWorkStarted() ==> r == db
    ensures !db.uow.IsUnitOfWorkStarted() && fault ==> r == db
    ensures !db.uow.IsUnitOfWorkStarted() && !fault ==> r == CommitAll(db)
  {
    if db.uow.IsUnitOfWorkStarted() then db else Save(db, fault).db
  }
}
