/**
 The catalog's domain entity and the primitive types it is built from.
 */
module Entities {

  /** A 128-bit globally unique identifier (C# `Guid`). */
  newtype Guid = x: int | 0 <= x < 0x1_0000_0000_0000_0000_0000_0000_0000_0000

  /** An instant (C# `DateTimeOffset`), as a count of ticks since the epoch in UTC. */
  datatype Timestamp = Timestamp(utcTicks: int)

  /**
   A price (C# `decimal`). Prices are only copied, never computed with, so an
   unbounded integer stands in for the decimal; there is no sign restriction,
   because the service validates nothing.
   */
  type Price = int

  /** A catalog item as the repository stores it. */
  datatype Item = Item(
    Id: Guid,
    Name: string,
    Description: string,
    Price: Price,
    CreatedDate: Timestamp
  )
}
