/**
 The entity-to-DTO mapper. `AsDto` is a total, field-for-field copy; `FromDto`
 is its inverse, so no information is lost or invented on the way out.
 */
module Extensions {
  import opened Entities
  import opened Dtos

  /** True iff the DTO agrees with the item member by member. */
  predicate SameMembers(d: ItemDto, item: Item) {
    && d.Id == item.Id
    && d.Name == item.Name
    && d.Description == item.Description
    && d.Price == item.Price
    && d.CreatedDate == item.CreatedDate
  }

  /** The item a read DTO describes. */
  function FromDto(d: ItemDto): (item: Item)
    ensures SameMembers(d, item)
  {
    Item(d.Id, d.Name, d.Description, d.Price, d.CreatedDate)
  }

  /** Maps a stored item to the shape a client reads. */
  function AsDto(item: Item): (d: ItemDto)
    ensures SameMembers(d, item)
    ensures FromDto(d) == item
  {
    ItemDto(item.Id, item.Name, item.Description, item.Price, item.CreatedDate)
  }

  /** Maps a sequence of items element-wise, keeping length and order. */
  function AsDtos(items: seq<Item>): (ds: seq<ItemDto>)
    ensures |ds| == |items|
    ensures forall i :: 0 <= i < |ds| ==> FromDto(ds[i]) == items[i]
  {
    seq(|items|, i requires 0 <= i < |items| => AsDto(items[i]))
  }

  /** Mapping a concatenation maps each part. */
  lemma AsDtosAppend(a: seq<Item>, b: seq<Item>)
    ensures AsDtos(a + b) == AsDtos(a) + AsDtos(b)
  {
  }

  /** Reading a DTO back and mapping it again gives the same DTO. */
  lemma AsDtoFromDto(d: ItemDto)
    ensures AsDto(FromDto(d)) == d
  {
  }

  /** Items that differ in any field map to different DTOs. */
  lemma AsDtoInjective(a: Item, b: Item)
    ensures AsDto(a) == AsDto(b) <==> a == b
  {
  }

  /** Agreeing member by member is the same as being the item's DTO. */
  lemma SameMembersIsAsDto(d: ItemDto, item: Item)
    ensures SameMembers(d, item) <==> d == AsDto(item)
  {
  }
}
