/** The request and response shapes the services exchange with the
    controllers, and their conversions to and from entities. */
module Dto {
  import opened Wrappers
  import opened Int32
  import opened Entities

  // ---- Orders ------------------------------------------------------------

  datatype OrderAddRequest = OrderAddRequest(totalAmount: I32, customerId: Guid)

  datatype OrderUpdateRequest = OrderUpdateRequest(orderId: Guid, customerId: Guid, totalAmount: I32)

  datatype OrderResponse = OrderResponse(
    orderId: Guid,
    orderNumber: string,
    customerId: Guid,
    orderDate: DateTime,
    totalAmount: I32)

  /** `OrderAddRequest.ToOrder()`, stamped with the current time; the key and the
      number are filled in by the service (a null number is written as ""). */
  function AddRequestToOrder(r: OrderAddRequest, now: DateTime): Order
  {
    Order(EmptyGuid, "", r.customerId, now, r.totalAmount)
  }

  function UpdateRequestToOrder(r: OrderUpdateRequest, now: DateTime): Order
  {
    Order(r.orderId, "", r.customerId, now, r.totalAmount)
  }

  /** The order a response was made from, read back from its fields. */
  function ResponseOrder(r: OrderResponse): Order
  {
    Order(r.orderId, r.orderNumber, r.customerId, r.orderDate, r.totalAmount)
  }

  function ToOrderResponse(o: Order): (r: OrderResponse)
    ensures ResponseOrder(r) == o
  {
    OrderResponse(o.orderId, o.orderNumber, o.customerId, o.orderDate, o.totalAmount)
  }

  // ---- Order items -------------------------------------------------------

  datatype OrderItemAddRequest = OrderItemAddRequest(
    productName: string,
    quantity: I32,
    orderId: Guid,
    unitPrice: I32)

  datatype OrderItemUpdateRequest = OrderItemUpdateRequest(
    orderItemId: Guid,
    productName: string,
    quantity: I32,
    unitPrice: I32)

  /** `Quantity * UnitPrice` in an unchecked C# context: the product reduced
      into the Int32 range. */
  function TotalPrice(quantity: I32, unitPrice: I32): (r: I32)
    ensures (r - quantity * unitPrice) % Modulus == 0
    ensures Min <= quantity * unitPrice <= Max ==> r == quantity * unitPrice
  {
    Wrap(quantity * unitPrice)
  }

  /** `OrderItemAddRequest.ToOrderItem()`: the key is left at `Guid.Empty`. */
  function AddRequestToOrderItem(r: OrderItemAddRequest): (item: OrderItem)
    ensures item.orderItemId == EmptyGuid
    ensures item.orderId == r.orderId && item.productName == r.productName
    ensures item.quantity == r.quantity && item.unitPrice == r.unitPrice
    ensures (item.totalPrice - r.quantity * r.unitPrice) % Modulus == 0
    ensures Min <= r.quantity * r.unitPrice <= Max ==> item.totalPrice == r.quantity * r.unitPrice
  {
    OrderItem(EmptyGuid, r.orderId, r.productName, r.quantity, r.unitPrice, TotalPrice(r.quantity, r.unitPrice))
  }

  /** `OrderItemUpdateRequest.ToOrderItem()`: the OrderId is left at `Guid.Empty`. */
  function UpdateRequestToOrderItem(r: OrderItemUpdateRequest): (item: OrderItem)
    ensures item.orderId == EmptyGuid
    ensures item.orderItemId == r.orderItemId && item.productName == r.productName
    ensures item.quantity == r.quantity && item.unitPrice == r.unitPrice
    ensures (item.totalPrice - r.quantity * r.unitPrice) % Modulus == 0
    ensures Min <= r.quantity * r.unitPrice <= Max ==> item.totalPrice == r.quantity * r.unitPrice
  {
    OrderItem(r.orderItemId, EmptyGuid, r.productName, r.quantity, r.unitPrice, TotalPrice(r.quantity, r.unitPrice))
  }

  /** Positive quantity and price whose product fits give a positive total. */
  lemma TotalPricePositive(quantity: I32, unitPrice: I32)
    requires quantity >= 1 && unitPrice >= 1 && quantity * unitPrice <= Max
    ensures TotalPrice(quantity, unitPrice) >= 1
  {
    assert quantity * unitPrice >= 1 by {
      assert quantity * unitPrice >= 1 * unitPrice;
    }
  }

  /** Past `int.MaxValue` the total wraps: 65536 * 65536 is 0, and
      46341 * 46341 turns negative. */
  lemma TotalPriceWraps()
    ensures TotalPrice(65536, 65536) == 0
    ensures TotalPrice(46341, 46341) == -2147479015
  {
  }

  // ---- Reviews -----------------------------------------------------------

  /** The add and the update request have the same shape. */
  datatype OrderItemReviewRequest = OrderItemReviewRequest(
    orderItemId: Guid,
    score: I32,
    reviewTitle: string,
    reviewDescription: string)

  datatype OrderItemReviewResponse = OrderItemReviewResponse(
    orderItemId: Guid,
    customerId: Guid,
    score: I32,
    reviewTitle: string,
    reviewDescription: string)

  /** `ToOrderItemReview()`: the CustomerId is left at `Guid.Empty`. */
  function ToOrderItemReview(r: OrderItemReviewRequest): OrderItemReview
  {
    OrderItemReview(r.orderItemId, EmptyGuid, r.score, r.reviewTitle, r.reviewDescription)
  }

  function ToOrderItemReviewResponse(v: OrderItemReview): OrderItemReviewResponse
  {
    OrderItemReviewResponse(v.orderItemId, v.customerId, v.score, v.reviewTitle, v.reviewDescription)
  }

  datatype OrderItemResponse = OrderItemResponse(
    orderItemId: Guid,
    orderId: Guid,
    productName: string,
    quantity: I32,
    unitPrice: I32,
    totalPrice: I32,
    review: Option<OrderItemReviewResponse>)

  /** The entity a response was made from, read back from its fields. */
  function ResponseItem(r: OrderItemResponse): OrderItem
  {
    OrderItem(r.orderItemId, r.orderId, r.productName, r.quantity, r.unitPrice, r.totalPrice)
  }

  function ResponseReview(r: OrderItemResponse): Option<OrderItemReview>
  {
    match r.review
    case None => None
    case Some(v) => Some(OrderItemReview(v.orderItemId, v.customerId, v.score, v.reviewTitle, v.reviewDescription))
  }

  /** `ToOrderItemResponse()`: `review` is the item's OrderItemReview navigation. */
  function ToOrderItemResponse(item: OrderItem, review: Option<OrderItemReview>): (r: OrderItemResponse)
    ensures ResponseItem(r) == item
    ensures ResponseReview(r) == review
    ensures r.review.None? <==> review.None?
    ensures r.totalPrice == item.totalPrice
  {
    OrderItemResponse(item.orderItemId, item.orderId, item.productName, item.quantity, item.unitPrice, item.totalPrice,
                      if review.Some? then Some(ToOrderItemReviewResponse(review.value)) else None)
  }

  // ---- Customers and countries ------------------------------------------

  datatype CustomerAddRequest = CustomerAddRequest(
    firstName: string,
    lastName: string,
    email: string,
    countryIds: seq<Guid>)

  datatype CustomerUpdateRequest = CustomerUpdateRequest(
    customerId: Guid,
    firstName: string,
    lastName: string,
    email: string,
    countryIds: seq<Guid>)

  datatype CustomerResponse = CustomerResponse(
    customerId: Guid,
    firstName: string,
    lastName: string,
    email: string,
    countryNames: seq<string>)

  function AddRequestToCustomer(r: CustomerAddRequest): Customer
  {
    Customer(EmptyGuid, r.firstName, r.lastName, r.email, None)
  }

  function UpdateRequestToCustomer(r: CustomerUpdateRequest): Customer
  {
    Customer(r.customerId, r.firstName, r.lastName, r.email, None)
  }

  /** `Select(c => c.Name)`. */
  function Names(countries: seq<Country>): (names: seq<string>)
    ensures |names| == |countries|
    ensures forall i :: 0 <= i < |countries| ==> names[i] == countries[i].name
  {
    if |countries| == 0 then [] else [countries[0].name] + Names(countries[1..])
  }

  /** A null country list gives an empty list of names. */
  function ToCustomerResponse(c: Customer): (r: CustomerResponse)
    ensures r.customerId == c.customerId && r.firstName == c.firstName
    ensures r.lastName == c.lastName && r.email == c.email
    ensures c.countries.None? ==> r.countryNames == []
    ensures c.countries.Some? ==> |r.countryNames| == |c.countries.value|
    ensures c.countries.Some? ==> forall i :: 0 <= i < |c.countries.value| ==> r.countryNames[i] == c.countries.value[i].name
  {
    CustomerResponse(c.customerId, c.firstName, c.lastName, c.email,
                     if c.countries.Some? then Names(c.countries.value) else [])
  }

  datatype CountryAddRequest = CountryAddRequest(name: string)

  datatype CountryUpdateRequest = CountryUpdateRequest(countryId: Guid, name: string)

  datatype CountryResponse = CountryResponse(countryId: Guid, name: string)

  function AddRequestToCountry(r: CountryAddRequest): Country
  {
    Country(EmptyGuid, r.name)
  }

  function UpdateRequestToCountry(r: CountryUpdateRequest): Country
  {
    Country(r.countryId, r.name)
  }

  function ToCountryResponse(c: Country): CountryResponse
  {
    CountryResponse(c.countryId, c.name)
  }
}
