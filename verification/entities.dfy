/** The persisted entities: Order, OrderItem, OrderItemReview, Customer, Country.
    Navigation collections (Order.Items, Customer.Orders, Country.Customers) are
    not carried; relationships are followed through the foreign-key fields. */
module Entities {
  import opened Wrappers
  import opened Int32

  /** A `System.Guid`: an opaque identifier compared only for equality. */
  datatype Guid = Guid(bits: nat)

  /** `Guid.Empty`, the all-zero identifier. */
  const EmptyGuid: Guid := Guid(0)

  /** The years a `System.DateTime` can carry. */
  type Year = y: int | 1 <= y <= 9999 witness 1

  /** A `System.DateTime`: only its `Year` is observed; `instant` stands for the rest. */
  datatype DateTime = DateTime(year: Year, instant: nat)

  datatype Order = Order(
    orderId: Guid,
    orderNumber: string,
    customerId: Guid,
    orderDate: DateTime,
    totalAmount: I32)

  datatype OrderItem = OrderItem(
    orderItemId: Guid,
    orderId: Guid,
    productName: string,
    quantity: I32,
    unitPrice: I32,
    totalPrice: I32)

  /** Keyed by the OrderItemId of the item it reviews (one review per item). */
  datatype OrderItemReview = OrderItemReview(
    orderItemId: Guid,
    customerId: Guid,
    score: I32,
    reviewTitle: string,
    reviewDescription: string)

  datatype Country = Country(countryId: Guid, name: string)

  /** `countries` is the many-to-many navigation list; `None` is a null list. */
  datatype Customer = Customer(
    customerId: Guid,
    firstName: string,
    lastName: string,
    email: string,
    countries: Option<seq<Country>>)
}
