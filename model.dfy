/** The documents the cart manager handles: catalog products (copied, never
    written back) and the shopping carts that hold snapshots of them.
    Every entity is a value with field-wise structural equality, which is
    what Lombok's @Data gives the Java classes. */
module Model {

  /** java.util.UUID: 128 bits, held as its most and least significant halves. */
  datatype Uuid = Uuid(mostSigBits: bv64, leastSigBits: bv64)

  /** A java.time.LocalDateTime, as a count of nanoseconds on one local clock. */
  type Timestamp = int

  /** One minute in Timestamp units. */
  const OneMinute: int := 60 * 1_000_000_000

  /** java.math.BigDecimal as an opaque value. BigDecimal.equals compares the
      unscaled value and the scale, so 10.0 and 10.00 are different prices. */
  datatype Decimal = Decimal(unscaledValue: int, scale: int)

  /** A product category (an enum constant, identified by its ordinal). */
  datatype Category = Category(ordinal: nat)

  /** A Java int. */
  newtype Int32 = x: int | -0x8000_0000 <= x < 0x8000_0000

  datatype Manufacturer = Manufacturer(id: Uuid, name: string, address: string, contact: string)

  datatype Review = Review(reviewerName: string, comment: string, rating: Int32, reviewDate: Timestamp)

  datatype Product = Product(
    id: Uuid,
    name: string,
    description: string,
    price: Decimal,
    manufacturer: Manufacturer,
    categories: seq<Category>,
    createdAt: Timestamp,
    updatedAt: Timestamp,
    reviews: seq<Review>)

  /** A stored cart: its key, its product snapshots in list order, and the
      time it was created. */
  datatype ShoppingCart = ShoppingCart(id: Uuid, products: seq<Product>, insertDateTime: Timestamp)
}
