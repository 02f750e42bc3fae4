# Catalog items API — a Dafny model

This project models the behavioural core of the Catalog service: the items
controller's five CRUD actions (list, get, create, update, delete) and the
`AsDto` mapper from the stored `Item` entity to the `ItemDto` a client reads.

The repository behind the controller is modelled as an immutable value: a
finite map from `Guid` to `Item`, together with the sequence in which the
repository enumerates its items. The repository interface returns a plain
`IEnumerable<Item>` and promises no order; the model fixes one, insertion
order, so that statements about the list can name positions. Each controller action is
a pure function from (store, request inputs) to a `Step` holding the action
result (`Ok`, `OkList`, `CreatedAt`, `NoContent`, `NotFound`) and the store
after the action. The asynchronous `Task` wrapping is dropped.

Files and modules:

- `entities.dfy` (`Entities`): `Guid` (128-bit), `Timestamp`, `Price`, `Item`.
- `dtos.dfy` (`Dtos`): `ItemDto`, `CreateItemDto`, `UpdateItemDto`.
- `wrappers.dfy` (`Wrappers`): `Option`, standing for a nullable lookup result.
- `extensions.dfy` (`Extensions`): `AsDto`, its inverse `FromDto`, and the
  element-wise `AsDtos` used by the list action.
- `repository.dfy` (`Repository`): the store, its invariant `Valid` (the
  enumeration lists each stored id once; every item is stored under its own
  id) and the five repository operations of `IItemsRepository`.
- `items_controller.dfy` (`ItemsController`): the five actions.
- `catalog_properties.dfy` (`CatalogProperties`): properties that relate
  several actions (read after write, undo, idempotence, a run of creations).

Modelling decisions:

- The controller actions and `AsDto` validate nothing: the C# copies the
  request's name, description and price into the item, and the item's fields
  into the DTO, as they are. The model copies them the same way, so a negative
  price or an empty name passes through create, update and `AsDto` unchanged.
- The C# create action stores the item under `Guid.NewGuid()` at
  `DateTimeOffset.UtcNow` and never checks for a duplicate id. The model's
  create takes the new id and the instant as inputs, with the precondition
  that the id is not stored yet.
- The C# update and delete actions look the id up first and answer NotFound
  before calling the repository when it is absent. The model's repository
  update and delete therefore only matter for stored ids; for an absent id
  they leave the store unchanged.
- `Repositories/IItemsRepository.cs` declares `GetItemAsync` as returning an
  untyped `Task`, while the controller treats its result as a nullable `Item`.
  The model follows the controller and returns `Option<Item>`.

## Model

| member | source | states |
|---|---|---|
| Extensions.AsDto | Catalog.Api/Extensions/Extensions.cs:8-11 | The DTO agrees with the item in Id, Name, Description, Price and CreatedDate, with no rounding or validation, and `FromDto` recovers the item exactly, so the mapping is total and injective |
| Extensions.FromDto | Catalog.Api/Extensions/Extensions.cs:10 | The inverse of the mapper: the item it builds agrees with the DTO member by member |
| Extensions.AsDtoFromDto | Catalog.Api/Extensions/Extensions.cs:10 | Round trip in the other direction: mapping back an item read from a DTO gives the same DTO |
| Extensions.AsDtoInjective | Catalog.Api/Extensions/Extensions.cs:8-11 | Two items have equal DTOs exactly when they are equal |
| Extensions.SameMembersIsAsDto | Catalog.UnitTests/ItemsControllerTests.cs:56-59 | Comparing a DTO with an item member by member, as the unit test does, is the same as the DTO being that item's `AsDto` |
| Extensions.AsDtos | Catalog.Api/Controllers/ItemsController.cs:27-28 | Mapping a sequence of items keeps its length and order, and each DTO reads back to the item at the same position |
| Extensions.AsDtosAppend | Catalog.Api/Controllers/ItemsController.cs:27-28 | Mapping a concatenation of item sequences is the concatenation of the mapped parts |
| Repository.Without | Repositories/IItemsRepository.cs:11 | Removing an id from the enumeration keeps every other id, keeps it repetition-free and shortens it by one when the id was there |
| Repository.GetItem | Repositories/IItemsRepository.cs:7 | Lookup is absent exactly when no item is stored under the id; a found item carries that id |
| Repository.GetItems | Repositories/IItemsRepository.cs:8 | The snapshot lists every stored item exactly once: as many items as stored, their ids are the enumeration order, each equal to the stored copy |
| Repository.CreateItem | Repositories/IItemsRepository.cs:9 | Inserting an item with a fresh id keeps the invariant, makes it findable, changes no other id, grows the store by one and appends it to the enumeration |
| Repository.UpdateItem | Repositories/IItemsRepository.cs:10 | Replacing the item with the given id keeps the invariant, the set of ids and the enumeration, and changes no other id |
| Repository.WithoutAt | Repositories/IItemsRepository.cs:11 | Removing an id that occurs once cuts exactly its position out of the enumeration; the ids before and after it keep their order |
| Repository.DeleteItem | Repositories/IItemsRepository.cs:11 | Deleting keeps the invariant, removes exactly that id, changes no other, and cuts the id's position out of the enumeration with the rest in order |
| ItemsController.GetItems | Catalog.Api/Controllers/ItemsController.cs:24-33 | The list has one DTO per stored item, in repository order, each reading back to the stored item, every stored item appears, and the store is not changed |
| ItemsController.GetItem | Catalog.Api/Controllers/ItemsController.cs:35-46 | NotFound exactly when the id is not stored; otherwise Ok with a DTO equal member by member to the stored item; the store is never changed |
| ItemsController.CreateItem | Catalog.Api/Controllers/ItemsController.cs:48-63 | Stores an item with the given fresh id and time and the request's name, description and price verbatim; no other id changes; answers Created with the new id and a DTO equal to the stored item |
| ItemsController.UpdateItem | Catalog.Api/Controllers/ItemsController.cs:65-82 | NotFound and an unchanged store exactly when the id is absent; otherwise NoContent, name and price from the request, id, description and creation date kept, no other id changed, same size |
| ItemsController.DeleteItem | Catalog.Api/Controllers/ItemsController.cs:84-98 | NotFound and an unchanged store exactly when the id is absent; otherwise NoContent and exactly that key removed, every remaining item unchanged and listed in the same relative order |
| CatalogProperties.GetAfterCreate | Catalog.Api/Controllers/ItemsController.cs:49-62 | After a create, a get of the new id answers Ok with the very DTO the create answered with, carrying the new id, the request's fields and the creation time |
| CatalogProperties.ListAfterCreate | Catalog.Api/Controllers/ItemsController.cs:25-62 | After a create, the list is the previous list with the new item's DTO appended |
| CatalogProperties.DeleteUndoesCreate | Catalog.Api/Controllers/ItemsController.cs:49-97 | Deleting the id a create has just added answers NoContent and restores the previous store exactly |
| CatalogProperties.WithoutAppendFresh | Repositories/IItemsRepository.cs:9-11 | Removing an id appended to an enumeration that lacked it gives back the enumeration |
| CatalogProperties.DeleteTwice | Catalog.Api/Controllers/ItemsController.cs:86-97 | A delete of a stored id answers NoContent; a get and a second delete of that id then answer NotFound, the second delete changing nothing |
| CatalogProperties.GetAfterUpdate | Catalog.Api/Controllers/ItemsController.cs:67-81 | After an update of a stored id, a get answers the new name and price with the old id, description and creation date |
| CatalogProperties.UpdateIdempotent | Catalog.Api/Controllers/ItemsController.cs:67-81 | Repeating an update with the same request gives the same answer and the same store as doing it once |
| CatalogProperties.CreateAll | Catalog.Api/Controllers/ItemsController.cs:49-62 | A run of creations with distinct fresh ids keeps the invariant and every item stored before, stores the i-th request's name, description and price under the i-th id with the i-th time, grows the store by the number of creations and appends the ids to the enumeration in order |
| CatalogProperties.ListAfterCreates | Catalog.Api/Controllers/ItemsController.cs:25-62 | Creating k items with distinct ids in an empty catalog, the list holds exactly k DTOs, the i-th carrying the i-th id, the i-th request's name, description and price, and the i-th creation time |

## Left out

- CatalogProperties.ListAfterCreate: "appended at the end" holds for the model's insertion-order enumeration; the program's `IEnumerable<Item>` promises no order, so only the multiset of listed DTOs is promised by the C#.
- CatalogProperties.ListAfterCreates: "the i-th DTO is the i-th creation" holds for the model's insertion-order enumeration; the program promises no order, only that the created items are listed.
- CatalogProperties.DeleteUndoesCreate: the exact restore includes the model's enumeration order; for the program only the stored items are promised to return to what they were.
- Request-body validation: with `[ApiController]` the framework answers 400 before an action runs when the request DTOs carry validation annotations; the DTO types are not part of this model, and the model has no 400 outcome.
- In-place mutation on update: the C# update action changes the fetched entity object's name and price and then passes it to the repository; the model builds an updated copy. The two agree because the model is sequential and nothing else observes the fetched object.
- Asynchrony, the `Task` wrapping and cancellation: every action is a sequential pure function.
- The check-then-act race between the existence check and the update or delete under concurrent requests: the model is sequential.
- `Guid.NewGuid()` and `DateTimeOffset.UtcNow`: both are inputs of the create action; randomness and the clock are not modelled.
- Logging in the list action: it has no effect on results.
- The `{id:int}` route constraint on the get action's `Guid` parameter: a routing detail of the web framework.
- C# `null` strings for name and description: strings are modelled as non-null character sequences.
- Price as C# `decimal`: modelled as an unbounded integer, since prices are only copied.
- Both `Program.cs` files (dependency injection, Swagger, HTTPS redirection, health checks, serializer registration): framework and I/O plumbing with no item logic.
- `Controllers/ItemsController.cs` and `Entities/IInMemItemsRepository.cs`: an early shell with no actions and an interface with no behaviour.
- The MongoDB and in-memory repository implementations are not part of this model; the repository is the abstract store described above.
- Storage failures (an unreachable database): the abstract store cannot fail.
