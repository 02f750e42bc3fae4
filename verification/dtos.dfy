/**
 The wire shapes of the items API: what a client reads, and what it may send
 on create and on update.
 */
module Dtos {
  import opened Entities

  /** What a client reads: every field of the item, including the server-assigned ones. */
  datatype ItemDto = ItemDto(
    Id: Guid,
    Name: string,
    Description: string,
    Price: Price,
    CreatedDate: Timestamp
  )

  /** The body of a create request: no id and no timestamp, both are assigned by the server. */
  datatype CreateItemDto = CreateItemDto(Name: string, Description: string, Price: Price)

  /** The body of an update request: only the name and the price can change. */
  datatype UpdateItemDto = UpdateItemDto(Name: string, Price: Price)
}
