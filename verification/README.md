# Orders Web API — a Dafny model of its core

The system is an ASP.NET Core CRUD API over orders, order items, item reviews,
customers and countries, layered as controllers → services → repositories →
an EF Core `DbContext`. This project models the parts of it with behaviour
worth stating exactly:

- **Per-year order numbers.** `OrderRepository.GetNextOrderSequenceForYear`
  reads the committed orders of a year whose number starts with `"{year}_"`.
  It splits each number on `_`; a number whose second piece is an `int`
  contributes that value, anything else contributes 0. The result is the
  maximum plus one, in unchecked `int` arithmetic. The single-order adder and
  the batch service build `"{year}_{sequence}"` numbers from it
  (`order_numbers.dfy`, `orders_services.dfy`). `int.ToString` and
  `int.TryParse` are modelled in `decimal.dfy`; `string.Split` is in `text.dfy`.
- **The unit-of-work gate.** `UnitOfWorkManager` holds one flag. Every
  repository write saves at once only while the flag is false; nothing resets
  it (`unit_of_work.dfy`).
  - The database context (`store.dfy`) is the committed rows of each table,
    the changes tracked but not yet written, and the flag.
  - Queries read committed rows only, so during a batch every iteration's
    sequence query sees the same committed maximum.
- **Repositories** (`*_repository.dfy`): add, get, update and delete. These
  use keyed lookups, an update that copies a fixed subset of fields, a review
  getter whose filter is an `||`, and a customer country-id check that
  compares the number of countries found with the number of distinct ids.
- **Services** with logic: order numbering, the two batch services, the
  item updater's route `OrderId` override, and the review adder's and
  updater's `CustomerId` handling.
- **DTO conversions** with derived fields. `TotalPrice = Quantity * UnitPrice`
  wraps like C# `int` (`int32.dfy`). The item response carries an optional
  review, and the customer response null-coalesces its country names
  (`dto.dfy`).
- **Controllers** as pure decision functions. Each takes the route and body
  values and the results its service calls would return. It returns the HTTP
  result together with the exact list of service calls made, in order, for
  every outcome (`http.dfy`, `*_controller.dfy`).
  - The customers and countries controllers share one generic ladder
    (`crud_controller.dfy`), instantiated with each one's action name, route
    key and messages.

`DateTime.UtcNow`, `Guid.NewGuid`, EF Core's client-side key generation and
the success or failure of a save are parameters of the operations that use
them (`now`, `freshId`/`ids`, `generatedKey`/`keys`, `fault`). EF fills in a
Guid key only while it is `Guid.Empty`; `Guid.NewGuid()` never returns that
value, so the order services require non-empty fresh ids.

## Model

| member | source | states |
|---|---|---|
| UnitOfWork.New | UnitOfWork/UnitOfWorkManager.cs:19 | A fresh manager reports that no unit of work has started. |
| UnitOfWork.StartUnitOfWork | UnitOfWork/UnitOfWorkManager.cs:21-24 | After `StartUnitOfWork` the manager reports started. |
| UnitOfWork.StartIdempotent | UnitOfWork/UnitOfWorkManager.cs:21-24 | Starting twice is the same as starting once. |
| UnitOfWork.StaysStarted | UnitOfWork/UnitOfWorkManager.cs:19-31 | Once started, the flag stays set whatever is called afterwards (start, query or save): nothing resets it. |
| UnitOfWork.StartedIffStartCalled | UnitOfWork/UnitOfWorkManager.cs:19-31 | From a fresh manager, the flag is set after a run of calls exactly when `StartUnitOfWork` was among them. |
| Store.SaveChangesAsync | UnitOfWork/UnitOfWorkManager.cs:28-31 | Saving leaves the flag alone. An exception propagates with nothing written. Otherwise every tracked change of every table is written, nothing stays tracked, and the count of written changes is returned. |
| Store.Save | Repositories/OrderRepository.cs:85-96 | A repository's `Save` is true exactly when the save did not throw and more than zero changes were written; a throw is swallowed and leaves the context as it was. |
| Store.ApplyAdds | UnitOfWork/UnitOfWorkManager.cs:28-31 | Writing a run of staged adds appends the rows in the order they were added. |
| Store.RemoveKeyMeaning | Repositories/OrderItemRepository.cs:72-84 | Deleting by key keeps exactly the rows with a different key and no others. |
| OrderNumbers.SuffixOfFormat | Services/OrdersServices/OrdersAdderService.cs:33-36 | A number formatted as `"{year}_{n}"` splits into two pieces and parses back to `n`. |
| OrderNumbers.FormatIsConsidered | Repositories/OrderRepository.cs:100-103 | An order dated in `year` and numbered `"{year}_{n}"` passes the sequence query's filter. |
| OrderNumbers.FormatInjective | Services/OrdersServices/OrdersBatchService.cs:32-34 | Different sequences give different order numbers within one year. |
| OrderNumbers.MalformedContributesZero | Repositories/OrderRepository.cs:106-110 | A number that does not split into two pieces with an `int` second piece contributes 0. |
| OrderNumbers.NextSequenceWhenNoneConsidered | Repositories/OrderRepository.cs:111-114 | With no considered number the next sequence is 1. |
| OrderNumbers.NextSequenceExceedsAll | Repositories/OrderRepository.cs:111-114 | Barring overflow, the next sequence is the maximum plus one and exceeds every considered contribution. |
| OrderNumbers.NextSequenceIsTight | Repositories/OrderRepository.cs:111-114 | Barring overflow, the next sequence is 1 or exactly one more than some considered contribution. |
| OrderNumbers.NextSequenceWithMalformed | Repositories/OrderRepository.cs:109-114 | A malformed considered number makes the next sequence at least 1. |
| OrderNumbers.NextSequenceWrapsAtMax | Repositories/OrderRepository.cs:111-114 | When the maximum is `int.MaxValue`, the unchecked increment gives `int.MinValue`. |
| OrderNumbers.NextSequenceAfterCommit | Services/OrdersServices/OrdersAdderService.cs:34-36 | Once an order numbered `"{year}_{n}"` is committed in `year`, the next sequence for that year is above `n`, barring overflow. |
| OrderNumbers.MaxSuffixAfterAppend | Repositories/OrderRepository.cs:100-114 | Committing one more order raises the maximum to at most that order's own contribution (or 0). |
| OrderNumbers.Suffixes | Repositories/OrderRepository.cs:100-110 | Every considered order's contribution is listed, and every listed value comes from a considered order. |
| OrderNumbers.MaxOrDefault | Repositories/OrderRepository.cs:111-114 | `DefaultIfEmpty(0).Max()`: 0 for no values, otherwise one of the values and no smaller than any of them. |
| Decimal.ParseShow | Repositories/OrderRepository.cs:106-110 | `int.TryParse` of the text `int.ToString` prints gives the same `int` back. |
| Decimal.ShowInjective | Services/OrdersServices/OrdersBatchService.cs:34 | Distinct `int`s print as distinct texts. |
| Text.SplitPair | Repositories/OrderRepository.cs:106-108 | Splitting `a + "_" + b` on `_`, where neither piece contains `_`, gives exactly `[a, b]`. |
| OrderRepository.NextSequenceForYearMeaning | Repositories/OrderRepository.cs:98-115 | The query's answer: 1 for a year with nothing considered. Barring overflow, it exceeds every considered suffix, is 1 or one more than some considered suffix, and is at least 1 once a malformed number is considered. At the `int` maximum it wraps to `int.MinValue`. |
| OrderRepository.AddOrder | Repositories/OrderRepository.cs:21-32 | Returns the tracked order: its argument unchanged when the OrderId is set, otherwise with EF's generated key and nothing else changed. It saves exactly when no unit of work has started: with a started one the only change is that order's staged add; otherwise it is appended to the committed rows. |
| OrderRepository.GetOrder | Repositories/OrderRepository.cs:50-55 | Null exactly when no committed order has the id; otherwise a committed order with that id. |
| OrderRepository.UpdateOrder | Repositories/OrderRepository.cs:62-83 | Null, with nothing changed, when the id is unknown. Otherwise it copies only OrderDate, TotalAmount and CustomerId onto the stored order, keeping its OrderId and OrderNumber, and writes that row in place. |
| OrderRepository.DeleteOrder | Repositories/OrderRepository.cs:34-48 | True exactly when the order existed, whatever the save did; a missing order changes nothing; otherwise only rows with that id are removed. |
| OrdersServices.AddOrder | Services/OrdersServices/OrdersAdderService.cs:25-46 | Never null. The order gets the fresh id (a `Guid.NewGuid()` result, so never empty), the request's customer and amount, the current time, and the number `"{year}_{next}"` for the repository's sequence. Barring overflow its suffix exceeds every committed suffix of the year. It is appended when saved. |
| OrdersServices.CommittedAddRaisesNext | Services/OrdersServices/OrdersAdderService.cs:34-36 | After a committed add, the next add in the same year sees a strictly larger sequence, provided the committed maximum is at least two below `int.MaxValue`, so that neither increment wraps. |
| OrdersServices.SuccessiveAddsDistinct | Services/OrdersServices/OrdersAdderService.cs:33-36 | Two successive adds in one year, the first committed, get different order numbers under the same bound. |
| OrdersServices.BatchStep | Services/OrdersServices/OrdersBatchService.cs:27-35 | One loop pass re-runs the sequence query and numbers the request with the committed next sequence plus its position. It only stages the order under its fresh id, because the unit of work is started. |
| OrdersServices.StageOrders | Services/OrdersServices/OrdersBatchService.cs:25-41 | The loop stages exactly one numbered order per request, in request order, and writes nothing. |
| OrdersServices.CreateOrders | Services/OrdersServices/OrdersBatchService.cs:19-46 | Starts the unit of work and saves once after the loop; a throwing save propagates with nothing written. Otherwise the responses are the numbered orders, one per request in order (none for no requests), appended to the committed rows. |
| OrdersServices.BatchNumbersDistinct | Services/OrdersServices/OrdersBatchService.cs:32-34 | Within a batch that stays below `int.MaxValue`, the orders' numbers are pairwise distinct. |
| OrdersServices.BatchNumbersExceedCommitted | Services/OrdersServices/OrdersBatchService.cs:32-34 | Barring overflow, each batch number parses back to its sequence, and that sequence exceeds every committed suffix of the year. |
| Dto.ToOrderResponse | ServiceContracts/DTO/OrderDTO/OrderResponse.cs:17-28 | The response carries the order's five fields: reading them back gives the order. |
| Dto.TotalPrice | ServiceContracts/DTO/OrderItemDTO/OrderItemAddRequest.cs:23 | The price is congruent to `Quantity * UnitPrice` modulo 2^32 and equals it when the product fits in an `int`. |
| Dto.TotalPricePositive | ServiceContracts/DTO/OrderItemDTO/OrderItemAddRequest.cs:23 | A quantity and price of at least 1 whose product fits give a price of at least 1. |
| Dto.TotalPriceWraps | ServiceContracts/DTO/OrderItemDTO/OrderItemAddRequest.cs:23 | Products past `int.MaxValue` wrap: 65536·65536 gives 0, and 46341·46341 gives a negative price. |
| Dto.AddRequestToOrderItem | ServiceContracts/DTO/OrderItemDTO/OrderItemAddRequest.cs:15-25 | Copies ProductName, OrderId, Quantity and UnitPrice, leaves OrderItemId unset, and derives TotalPrice with `int` wrap-around. |
| Dto.UpdateRequestToOrderItem | ServiceContracts/DTO/OrderItemDTO/OrderItemUpdateRequest.cs:15-25 | Copies OrderItemId, ProductName, Quantity and UnitPrice, leaves OrderId unset, and derives TotalPrice with `int` wrap-around. |
| Dto.ToOrderItemResponse | ServiceContracts/DTO/OrderItemDTO/OrderItemResponse.cs:28-43 | The item's six fields read back unchanged, including TotalPrice as stored. The review is null exactly when the item has none, and otherwise is that review's own mapping. |
| Dto.Names | ServiceContracts/DTO/CustomersDTO/CustomerResponse.cs:34-35 | One name per country, each that country's Name, in the same order. |
| Dto.ToCustomerResponse | ServiceContracts/DTO/CustomersDTO/CustomerResponse.cs:26-38 | Copies id, names and email. A null country collection gives an empty list; otherwise the country names in order, as many as there are countries. |
| OrderItemRepository.AddOrderItem | Repositories/OrderItemRepository.cs:21-32 | Returns the item, with a generated key when its key was empty and everything else unchanged. It stages the item and saves exactly when no unit of work has started, appending it to the committed rows. |
| OrderItemRepository.GetOrderItem | Repositories/OrderItemRepository.cs:34-40 | Null unless an item matches both OrderItemId and OrderId; otherwise such an item. |
| OrderItemRepository.GetOrderItemsFromOrderID | Repositories/OrderItemRepository.cs:42-47 | Exactly the committed items of that order: every result belongs to it and every item of it is in the result. |
| OrderItemRepository.UpdateOrderItem | Repositories/OrderItemRepository.cs:49-70 | Null, with nothing changed, unless the (OrderId, OrderItemId) pair exists. Otherwise the stored item takes the given name, quantity, price and TotalPrice as given, and that row is written in place. |
| OrderItemRepository.DeleteOrderItem | Repositories/OrderItemRepository.cs:72-85 | True exactly when the pair existed; a missing pair changes nothing; otherwise only that item's rows are removed. |
| OrderItemsServices.BatchItem | Services/OrderItemsServices/OrderItemsBatchService.cs:33-34 | The staged item is the request's conversion, with TotalPrice derived, under the generated key. |
| OrderItemsServices.CreateOrderItems | Services/OrderItemsServices/OrderItemsBatchService.cs:25-45 | Starts the unit of work, adds one item per request in order, and saves once; a throwing save propagates with nothing written. Otherwise it returns one response per request in order, with no review (none for no requests), and the items are appended to the committed rows. |
| OrderItemsServices.UpdateOrderItem | Services/OrderItemsServices/OrderItemsUpdaterService.cs:27-36 | Sends the converted request with the route's OrderId. It is null, with nothing changed, when that pair does not exist. Otherwise the response is the updated item, with TotalPrice derived from the request, and the item's committed review. |
| OrderItemReviewRepository.ReviewOfItem | ServiceContracts/DTO/OrderItemDTO/OrderItemResponse.cs:38-40 | The item's review navigation: null exactly when no committed review belongs to the item. |
| OrderItemReviewRepository.AddOrderItemReview | Repositories/OrderItemReviewRepository.cs:24-34 | Returns its argument. With a unit of work started the only change is its staged add; otherwise it saves, appending the review. |
| OrderItemReviewRepository.GetOrderItemReview | Repositories/OrderItemReviewRepository.cs:53-59 | Non-null exactly when some review has the item id or belongs to an item of the order; the result satisfies one of the two. |
| OrderItemReviewRepository.GetMayReturnSiblingReview | Repositories/OrderItemReviewRepository.cs:55-56 | Because the filter is an either-or, asking for item 2's review of an order returns item 1's review. |
| OrderItemReviewRepository.UpdateOrderItemReview | Repositories/OrderItemReviewRepository.cs:66-87 | Looks up by item id only and is null when that item has no review. Otherwise it copies Score, ReviewTitle and ReviewDescription and keeps the stored CustomerId. |
| OrderItemReviewRepository.DeleteOrderItemReview | Repositories/OrderItemReviewRepository.cs:36-51 | True exactly when a review of the item exists and the item belongs to the order; otherwise nothing changes; on success only that review is removed. |
| ReviewServices.AddOrderItemReview | Services/OrderItemsReviewsServices/OrderItemReviewsAdderService.cs:19-32 | The stored review takes the `customerId` argument, whatever the request held, and its item id, score, title and description from the request. |
| ReviewServices.UpdateOrderItemReview | Services/OrderItemsReviewsServices/OrderItemReviewsUpdaterService.cs:24-34 | Null when the item has no review. Otherwise the response has the request's score, title and description and the previously stored CustomerId. |
| ReviewServices.UpdateIgnoresCustomerId | Services/OrderItemsReviewsServices/OrderItemReviewsUpdaterService.cs:28-33 | The `customerId` argument has no effect on the outcome. |
| CountryRepository.AddCountry | Repositories/CountryRepository.cs:25-36 | Returns the country, keyed by the generated key when its key was empty. It saves exactly when no unit of work has started, appending it. |
| CountryRepository.GetCountry | Repositories/CountryRepository.cs:59-64 | The committed country with that id, or null exactly when there is none. |
| CountryRepository.UpdateCountry | Repositories/CountryRepository.cs:66-83 | Null, with nothing changed, for an unknown id; otherwise only the Name changes and the row is written in place. |
| CountryRepository.DeleteCountry | Repositories/CountryRepository.cs:38-52 | True exactly when the country existed; otherwise nothing changes; on success only that country is removed. |
| CustomerRepository.CountriesWithIds | Repositories/CustomerRepository.cs:28-31 | The countries found are exactly the committed ones whose id was requested. |
| CustomerRepository.AddCustomer | Repositories/CustomerRepository.cs:25-49 | Null, with nothing staged, exactly when the found count differs from the distinct-id count. Otherwise the customer gets exactly the found countries and, when its CustomerId is empty, EF's generated key. With a unit of work started the only change is its staged add; otherwise it is saved and appended. |
| CustomerRepository.GetCustomer | Repositories/CustomerRepository.cs:67-74 | The committed customer with that id, or null exactly when there is none. |
| CustomerRepository.UpdateCustomer | Repositories/CustomerRepository.cs:82-112 | Null with nothing changed for an unknown customer. On bad country ids it is null, and the only change is a tracked, unsaved modification of the stored customer carrying the new names and email. Otherwise names and email are copied, the countries are replaced wholesale by the found ones, and the row is written in place. |
| CustomerRepository.DeleteCustomer | Repositories/CustomerRepository.cs:51-65 | True exactly when the customer existed; otherwise nothing changes; on success only that customer is removed. |
| CustomerRepository.WhereCount | Repositories/CustomerRepository.cs:28-33 | With unique country keys, the number found is the number of distinct requested ids that exist. |
| CustomerRepository.CountriesResolveIffAllExist | Repositories/CustomerRepository.cs:28-36 | With unique country keys, the check passes exactly when every requested id names a country. Duplicates are tolerated and an empty list passes. |
| OrdersController.GetOrder | Orders.WebAPI/Controllers/OrdersController.cs:51-63 | NotFound exactly when the service yields null; otherwise Ok with the order. |
| OrdersController.PutOrder | Orders.WebAPI/Controllers/OrdersController.cs:68-105 | "Order ID mismatch." before any call. Then the order ("Order Id not found"), then the customer ("Customer Id not found"). Only then the update: Conflict on a concurrency exception, Problem on null, otherwise Created at GetOrder. |
| OrdersController.PostOrder | Orders.WebAPI/Controllers/OrdersController.cs:110-127 | A null body is a BadRequest with no call; a null add result is a Problem; otherwise Created at GetOrder with the new id. |
| OrdersController.DeleteOrder | Orders.WebAPI/Controllers/OrdersController.cs:131-148 | A missing order is NotFound without calling the deleter; a false delete is a Problem; otherwise NoContent. |
| OrdersController.BatchOrders | Orders.WebAPI/Controllers/OrdersController.cs:152-164 | An empty list is a BadRequest with no call. Otherwise the batch service's result is returned as Created with no null check; its exception is unhandled. |
| OrderItemsController.GetOrderItemsFromOrderId | Orders.WebAPI/Controllers/OrderItemsController.cs:42-59 | An empty id is a bare BadRequest, a missing order a BadRequest with a message; otherwise Ok with the items. |
| OrderItemsController.GetOrderItem | Orders.WebAPI/Controllers/OrderItemsController.cs:63-86 | Either id empty gives BadRequest, a missing order BadRequest, and a missing item NotFound; otherwise Ok. |
| OrderItemsController.PutOrderItem | Orders.WebAPI/Controllers/OrderItemsController.cs:90-124 | Checks in order: null body, item-id mismatch, missing order, missing item, null update. Created uses the OrderId for both route values. |
| OrderItemsController.PostOrderItem | Orders.WebAPI/Controllers/OrderItemsController.cs:128-156 | Checks in order: null body, route/body OrderId mismatch, missing order (BadRequest), null add (Problem); otherwise Created. The add is called exactly when the ids match and the order exists. |
| OrderItemsController.DeleteOrderItem | Orders.WebAPI/Controllers/OrderItemsController.cs:160-178 | Never looks up the order; a missing item is NotFound, a false delete a Problem, otherwise NoContent. |
| OrderItemsController.BatchOrderItems | Orders.WebAPI/Controllers/OrderItemsController.cs:182-211 | Checks in order: any body OrderId differing from the route (before emptiness), empty list, missing order, then the service: exception unhandled, null a Problem, otherwise Created. |
| OrderItemReviewsController.GetOrderItemReview | Orders.WebAPI/Controllers/OrderItemReviewsController.cs:37-53 | Empty ids give BadRequest, then "Order not found", then "Review not found"; the item is never looked up. |
| OrderItemReviewsController.CreateReview | Orders.WebAPI/Controllers/OrderItemReviewsController.cs:57-84 | Checks in order: null body, item-id mismatch, missing order, missing item. An existing review is a Conflict. The adder is called with the order's CustomerId; null is a Problem. |
| OrderItemReviewsController.UpdateOrderItemReview | Orders.WebAPI/Controllers/OrderItemReviewsController.cs:88-115 | Checks in order: null, mismatch, order, item, review, then null update (Problem); success is Ok with the updated review. |
| OrderItemReviewsController.DeleteReview | Orders.WebAPI/Controllers/OrderItemReviewsController.cs:119-140 | No empty-id check. Then the order ("Ordernot found"), item, review, and a false delete (Problem); otherwise NoContent. |
| CrudController.Put | Orders.WebAPI/Controllers/CustomersController.cs:55-84 | The shared put ladder: id mismatch before any call, then a bare NotFound, then Conflict on a concurrency exception, Problem on null, otherwise Created at the get action with the entity's id. |
| CustomersController.GetCustomer | Orders.WebAPI/Controllers/CustomersController.cs:39-51 | NotFound exactly when the service yields null; otherwise the customer. |
| CustomersController.PutCustomer | Orders.WebAPI/Controllers/CustomersController.cs:55-84 | "Customer ID mismatch." before any lookup, then NotFound, then "A concurrency conflict occurred." or "Failed to update the customer.", otherwise Created at GetCustomer. |
| CustomersController.PostCustomer | Orders.WebAPI/Controllers/CustomersController.cs:89-106 | "Customer data is missing." with no call for a null body, otherwise exactly one call to the adder with the body; "An error occurred while saving the customer." on a null result; otherwise Created at GetCustomer. |
| CustomersController.DeleteCustomer | Orders.WebAPI/Controllers/CustomersController.cs:110-127 | NotFound without calling the deleter; "Failed to delete the customer." on a false delete; otherwise NoContent. |
| CountriesController.GetCountry | Orders.WebAPI/Controllers/CountriesController.cs:39-51 | NotFound exactly when the service yields null; otherwise the country. |
| CountriesController.PutCountry | Orders.WebAPI/Controllers/CountriesController.cs:55-84 | "Country ID mismatch." before any lookup, then NotFound, then "A concurrency conflict occurred." or "Failed to update the country.", otherwise Created at GetCountry. |
| CountriesController.PostCountry | Orders.WebAPI/Controllers/CountriesController.cs:89-106 | "Country data is missing." with no call for a null body, otherwise exactly one call to the adder with the body; "An error occurred while saving the country." on a null result; otherwise Created at GetCountry. |
| CountriesController.DeleteCountry | Orders.WebAPI/Controllers/CountriesController.cs:110-127 | NotFound without calling the deleter; "Failed to delete the country." on a false delete; otherwise NoContent. |

## Left out

- Async/await, logging and the HTTP pipeline: every operation is sequential, and a controller's service results are its inputs.
- Concurrency across requests, including the race between reading the maximum sequence and inserting. A sequential model cannot state it, and the code has no locking.
- Cascade deletes and foreign-key constraints: the mapping and the migration disagree about them, and nothing here depends on them.
- DataAnnotations (`[Range]`, `[MaxLength]`, `[Required]`): nothing on the modelled paths enforces them.
- The list endpoints (`GetOrders`, `GetCustomers`, `GetCountries`, `GetOrderItemReviews`) and the services that only convert and forward (getters, deleters, the order updater, the customer and country services). They add nothing beyond the repository model.
- EF Core change tracking is one staged change per write, applied when the context saves. Identity resolution is not modelled: queries read committed rows, not entities modified but unsaved in the same request. The review navigation of an item is the committed review with its id, so a batch-created item carries none.
- The clock is read once per service call (`now`); the batch service reads `DateTime.UtcNow` again on every iteration, and a year boundary crossed mid-batch is not modelled.
- `int.TryParse`: culture-specific signs, trailing NUL characters and non-ASCII digits are not modelled; the invariant culture's white space, an optional sign and ASCII digits are.
- A null `OrderNumber` on an update request's conversion is modelled as the empty string.
- OrdersServices.CreateOrders: the loop counter is an unbounded `nat`, so its own wrap-around past 2^31 requests is not modelled; the sum `nextSequence + counter` does wrap.
- OrdersServices.CreateOrders: the row-level outcome (`rows + batch`) is stated for a context with nothing tracked beforehand, which is how the service is entered; the same holds for every repository write's committed-rows clause.
- CustomerRepository.CountriesResolveIffAllExist: assumes the country keys are unique, which the database's primary key guarantees and the code relies on.
- OrderItemReviewRepository.UpdateOrderItemReview: states that the kept CustomerId is that of some committed review of the item. That is the first match, and with unique keys the only one.
- Concurrency exceptions of an update are an input of the put ladders (`Outcome`), not derived from the store.
