/**
 The items controller: the five HTTP actions of the catalog API, each a pure
 transition from (store, request inputs) to (action result, new store). The
 controller talks to storage only through the `Repository` operations and
 hands out DTOs, never the stored items themselves.
 */
module ItemsController {
  import opened Wrappers
  import opened Entities
  import opened Dtos
  import opened Extensions
  import Repository

  /** The outcomes an action can answer with. */
  datatype ActionResult =
    | Ok(value: ItemDto)                    // 200 with one item
    | OkList(values: seq<ItemDto>)          // 200 with the list of items
    | CreatedAt(routeId: Guid, value: ItemDto) // 201, locating the new item through GetItem
    | NoContent                             // 204
    | NotFound                              // 404

  /** What an action answers and the store it leaves behind. */
  datatype Step = Step(result: ActionResult, store: Repository.Store)

  /** GET /items: every stored item as a DTO, in the repository's order. */
  function GetItems(st: Repository.Store): (r: Step)
    requires Repository.Valid(st)
    ensures r.store == st
    ensures r.result.OkList?
    ensures |r.result.values| == |st.items|
    ensures forall i :: 0 <= i < |r.result.values| ==>
              FromDto(r.result.values[i]) == Repository.GetItems(st)[i]
    ensures forall d :: d in r.result.values ==> FromDto(d) in st.items.Values
    ensures forall item :: item in st.items.Values ==> AsDto(item) in r.result.values
  {
    var items := Repository.GetItems(st);
    var dtos := AsDtos(items);
    assert forall item :: item in st.items.Values ==> AsDto(item) in dtos by {
      forall item | item in st.items.Values
        ensures AsDto(item) in dtos
      {
        var i :| 0 <= i < |items| && items[i] == item;
        AsDtoFromDto(dtos[i]);
      }
    }
    Step(OkList(dtos), st)
  }

  /** GET /items/{id}: the stored item as a DTO, or NotFound. */
  function GetItem(st: Repository.Store, id: Guid): (r: Step)
    requires Repository.Valid(st)
    ensures r.store == st
    ensures r.result.NotFound? <==> id !in st.items
    ensures id in st.items ==> r.result.Ok? && SameMembers(r.result.value, st.items[id])
    ensures r.result.Ok? ==> r.result.value.Id == id
  {
    match Repository.GetItem(st, id)
    case None => Step(NotFound, st)
    case Some(item) => Step(Ok(AsDto(item)), st)
  }

  /**
   POST /items. The id the server generates and the current UTC instant are
   inputs here; the id must not be stored yet, as a fresh Guid is not.
   */
  function CreateItem(st: Repository.Store, request: CreateItemDto, newId: Guid, now: Timestamp): (r: Step)
    requires Repository.Valid(st)
    requires newId !in st.items
    ensures Repository.Valid(r.store)
    ensures newId in r.store.items
    ensures r.store.items[newId].Id == newId
    ensures r.store.items[newId].Name == request.Name
    ensures r.store.items[newId].Description == request.Description
    ensures r.store.items[newId].Price == request.Price
    ensures r.store.items[newId].CreatedDate == now
    ensures forall id :: id != newId ==> Repository.GetItem(r.store, id) == Repository.GetItem(st, id)
    ensures r.store.items.Keys == st.items.Keys + {newId}
    ensures |r.store.items| == |st.items| + 1
    ensures r.store.order == st.order + [newId]
    ensures r.result.CreatedAt? && r.result.routeId == newId
    ensures SameMembers(r.result.value, r.store.items[newId])
  {
    var item := Item(newId, request.Name, request.Description, request.Price, now);
    var st' := Repository.CreateItem(st, item);
    Step(CreatedAt(item.Id, AsDto(item)), st')
  }

  /**
   PUT /items/{id}: overwrites the name and the price of a stored item; its id,
   description and creation date stay as they were.
   */
  function UpdateItem(st: Repository.Store, id: Guid, request: UpdateItemDto): (r: Step)
    requires Repository.Valid(st)
    ensures Repository.Valid(r.store)
    ensures r.result.NotFound? <==> id !in st.items
    ensures id !in st.items ==> r.store == st
    ensures id in st.items ==>
              && r.result.NoContent?
              && id in r.store.items
              && r.store.items[id].Id == id
              && r.store.items[id].Name == request.Name
              && r.store.items[id].Price == request.Price
              && r.store.items[id].Description == st.items[id].Description
              && r.store.items[id].CreatedDate == st.items[id].CreatedDate
    ensures forall other :: other != id ==> Repository.GetItem(r.store, other) == Repository.GetItem(st, other)
    ensures r.store.items.Keys == st.items.Keys && r.store.order == st.order
  {
    match Repository.GetItem(st, id)
    case None => Step(NotFound, st)
    case Some(existing) =>
      var updated := existing.(Name := request.Name, Price := request.Price);
      Step(NoContent, Repository.UpdateItem(st, updated))
  }

  /** DELETE /items/{id}: removes a stored item, or answers NotFound. */
  function DeleteItem(st: Repository.Store, id: Guid): (r: Step)
    requires Repository.Valid(st)
    ensures Repository.Valid(r.store)
    ensures r.result.NotFound? <==> id !in st.items
    ensures id !in st.items ==> r.store == st
    ensures id in st.items ==> r.result.NoContent? && |r.store.items| == |st.items| - 1
    ensures r.store.items.Keys == st.items.Keys - {id}
    ensures forall other :: other in r.store.items ==> r.store.items[other] == st.items[other]
    ensures forall k :: 0 <= k < |st.order| && st.order[k] == id ==>
              r.store.order == st.order[..k] + st.order[k + 1..]
  {
    match Repository.GetItem(st, id)
    case None => Step(NotFound, st)
    case Some(_) => Step(NoContent, Repository.DeleteItem(st, id))
  }
}
