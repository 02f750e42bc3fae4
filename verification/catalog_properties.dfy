/**
 Properties that relate several actions of the items controller: what a read
 sees after a write, which writes undo or repeat each other, and what a whole
 run of creations leaves in the catalog.
 */
module CatalogProperties {
  import opened Entities
  import opened Dtos
  import opened Extensions
  import Repository
  import Controller = ItemsController

  /** After a create, reading the new id gives back exactly the DTO the create answered with. */
  lemma GetAfterCreate(st: Repository.Store, request: CreateItemDto, newId: Guid, now: Timestamp)
    requires Repository.Valid(st)
    requires newId !in st.items
    ensures var created := Controller.CreateItem(st, request, newId, now);
            var read := Controller.GetItem(created.store, newId);
            && read.result == Controller.Ok(created.result.value)
            && read.result.value == ItemDto(newId, request.Name, request.Description, request.Price, now)
  {
  }

  /** After a create, the list is the old list with the new item's DTO appended. */
  lemma ListAfterCreate(st: Repository.Store, request: CreateItemDto, newId: Guid, now: Timestamp)
    requires Repository.Valid(st)
    requires newId !in st.items
    ensures var created := Controller.CreateItem(st, request, newId, now);
            Controller.GetItems(created.store).result.values
              == Controller.GetItems(st).result.values + [created.result.value]
  {
    var created := Controller.CreateItem(st, request, newId, now);
    var item := created.store.items[newId];
    assert Controller.GetItems(st).result.values == AsDtos(Repository.GetItems(st));
    assert Controller.GetItems(created.store).result.values == AsDtos(Repository.GetItems(created.store));
    assert Repository.GetItems(created.store) == Repository.GetItems(st) + [item];
    AsDtosAppend(Repository.GetItems(st), [item]);
    SameMembersIsAsDto(created.result.value, item);
    assert AsDtos([item]) == [created.result.value];
  }

  /** Deleting the item a create has just added gives back the store as it was before. */
  lemma DeleteUndoesCreate(st: Repository.Store, request: CreateItemDto, newId: Guid, now: Timestamp)
    requires Repository.Valid(st)
    requires newId !in st.items
    ensures var created := Controller.CreateItem(st, request, newId, now);
            Controller.DeleteItem(created.store, newId) == Controller.Step(Controller.NoContent, st)
  {
    var created := Controller.CreateItem(st, request, newId, now);
    WithoutAppendFresh(st.order, newId);
    assert created.store.items - {newId} == st.items;
  }

  /** Taking out an id appended to a sequence that did not hold it gives back the sequence. */
  lemma {:induction false} WithoutAppendFresh(s: seq<Guid>, id: Guid)
    requires id !in s
    ensures Repository.Without(s + [id], id) == s
  {
    if |s| == 0 {
      assert s + [id] == [id];
      assert [id][1..] == [];
    } else {
      assert (s + [id])[1..] == s[1..] + [id];
      WithoutAppendFresh(s[1..], id);
      assert s == [s[0]] + s[1..];
    }
  }

  /** A delete of a stored item succeeds once; a second delete of the same id is NotFound and changes nothing. */
  lemma DeleteTwice(st: Repository.Store, id: Guid)
    requires Repository.Valid(st)
    requires id in st.items
    ensures var first := Controller.DeleteItem(st, id);
            var second := Controller.DeleteItem(first.store, id);
            && first.result == Controller.NoContent
            && second.result == Controller.NotFound
            && second.store == first.store
            && Controller.GetItem(first.store, id).result == Controller.NotFound
  {
  }

  /** After an update, a read of the same id sees the new name and price and the old rest. */
  lemma GetAfterUpdate(st: Repository.Store, id: Guid, request: UpdateItemDto)
    requires Repository.Valid(st)
    requires id in st.items
    ensures var old_ := st.items[id];
            var read := Controller.GetItem(Controller.UpdateItem(st, id, request).store, id);
            read.result == Controller.Ok(ItemDto(id, request.Name, old_.Description, request.Price, old_.CreatedDate))
  {
  }

  /** Repeating an update changes nothing more than doing it once. */
  lemma UpdateIdempotent(st: Repository.Store, id: Guid, request: UpdateItemDto)
    requires Repository.Valid(st)
    ensures var once := Controller.UpdateItem(st, id, request);
            Controller.UpdateItem(once.store, id, request) == once
  {
  }

  /**
   A client run of creations: the i-th request is created under the i-th
   fresh id at the i-th instant.
   */
  function CreateAll(st: Repository.Store, requests: seq<CreateItemDto>, ids: seq<Guid>, times: seq<Timestamp>)
    : (r: Repository.Store)
    requires Repository.Valid(st)
    requires |ids| == |requests| == |times|
    requires Repository.NoDuplicates(ids)
    requires forall i :: 0 <= i < |ids| ==> ids[i] !in st.items
    ensures Repository.Valid(r)
    ensures |r.items| == |st.items| + |ids|
    ensures r.order == st.order + ids
    ensures forall id :: id in st.items ==> id in r.items && r.items[id] == st.items[id]
    ensures forall i :: 0 <= i < |ids| ==>
              && ids[i] in r.items
              && r.items[ids[i]] == Item(ids[i], requests[i].Name, requests[i].Description, requests[i].Price, times[i])
    decreases |ids|
  {
    if |ids| == 0 then st
    else
      var step := Controller.CreateItem(st, requests[0], ids[0], times[0]);
      assert step.store.items.Keys == st.items.Keys + {ids[0]};
      assert forall i :: 0 <= i < |ids[1..]| ==> ids[1..][i] !in step.store.items by {
        forall i | 0 <= i < |ids[1..]|
          ensures ids[1..][i] !in step.store.items
        {
          assert ids[1..][i] == ids[i + 1] != ids[0];
        }
      }
      var r := CreateAll(step.store, requests[1..], ids[1..], times[1..]);
      SplitFirst(st.order, ids);
      assert forall id :: id in st.items ==> id in step.store.items && step.store.items[id] == st.items[id] by {
        forall id | id in st.items
          ensures id in step.store.items && step.store.items[id] == st.items[id]
        {
          assert Repository.GetItem(step.store, id) == Repository.GetItem(st, id);
        }
      }
      CreateAllStep(st.items, step.store.items, r.items, requests, ids, times);
      r
  }

  /**
   One step of `CreateAll`: if the first creation keeps the old items and adds
   the first request, and the rest of the run keeps those and adds the rest,
   then the whole run keeps the old items and adds every request.
   */
  lemma CreateAllStep(before: map<Guid, Item>, mid: map<Guid, Item>, after: map<Guid, Item>,
                      requests: seq<CreateItemDto>, ids: seq<Guid>, times: seq<Timestamp>)
    requires 0 < |ids| == |requests| == |times|
    requires forall id :: id in before ==> id in mid && mid[id] == before[id]
    requires ids[0] in mid
    requires mid[ids[0]] == Item(ids[0], requests[0].Name, requests[0].Description, requests[0].Price, times[0])
    requires forall id :: id in mid ==> id in after && after[id] == mid[id]
    requires forall i :: 0 <= i < |ids[1..]| ==>
               && ids[1..][i] in after
               && after[ids[1..][i]] == Item(ids[1..][i], requests[1..][i].Name, requests[1..][i].Description,
                                             requests[1..][i].Price, times[1..][i])
    ensures forall id :: id in before ==> id in after && after[id] == before[id]
    ensures forall i :: 0 <= i < |ids| ==>
              && ids[i] in after
              && after[ids[i]] == Item(ids[i], requests[i].Name, requests[i].Description, requests[i].Price, times[i])
  {
    forall i | 0 < i < |ids|
      ensures ids[i] in after
      ensures after[ids[i]] == Item(ids[i], requests[i].Name, requests[i].Description, requests[i].Price, times[i])
    {
      assert ids[1..][i - 1] == ids[i] && requests[1..][i - 1] == requests[i] && times[1..][i - 1] == times[i];
    }
  }

  /** Appending the first id of a run and then the rest appends the whole run. */
  lemma SplitFirst(order: seq<Guid>, ids: seq<Guid>)
    requires |ids| > 0
    ensures order + [ids[0]] + ids[1..] == order + ids
  {
    assert ids == [ids[0]] + ids[1..];
  }

  /**
   Creating k items with distinct ids in an empty catalog and deleting none,
   the list holds exactly k items: the i-th is the DTO of the i-th request,
   under the i-th id with the i-th creation time.
   */
  lemma ListAfterCreates(requests: seq<CreateItemDto>, ids: seq<Guid>, times: seq<Timestamp>)
    requires |ids| == |requests| == |times|
    requires Repository.NoDuplicates(ids)
    ensures var listed := Controller.GetItems(CreateAll(Repository.Empty, requests, ids, times)).result.values;
            && |listed| == |ids|
            && forall i :: 0 <= i < |listed| ==>
                 listed[i] == ItemDto(ids[i], requests[i].Name, requests[i].Description, requests[i].Price, times[i])
  {
  }
}
