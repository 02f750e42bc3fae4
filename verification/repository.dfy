/**
 The item repository (the `IItemsRepository` capability set) over an abstract
 store: a finite map from id to item, together with the order in which the
 repository enumerates its items. Every operation is a pure function from the
 old store to the answer or the new store.
 */
module Repository {
  import opened Wrappers
  import opened Entities

  /**
   The repository's state. `items` holds the canonical copy of each item by id;
   `order` is the sequence in which `GetItems` returns them (insertion order).
   */
  datatype Store = Store(items: map<Guid, Item>, order: seq<Guid>)

  /** The store before anything has been created. */
  const Empty: Store := Store(map[], [])

  ghost predicate NoDuplicates(s: seq<Guid>) {
    forall i, j :: 0 <= i < j < |s| ==> s[i] != s[j]
  }

  /**
   The repository invariant: the enumeration order lists every stored id
   exactly once, and every item is stored under its own id.
   */
  ghost predicate Valid(st: Store) {
    && NoDuplicates(st.order)
    && (forall id :: id in st.order <==> id in st.items)
    && (forall id :: id in st.items ==> st.items[id].Id == id)
  }

  /** The ids of the items in a sequence, in order. */
  function Ids(items: seq<Item>): (r: seq<Guid>)
    ensures |r| == |items|
    ensures forall i :: 0 <= i < |items| ==> r[i] == items[i].Id
  {
    seq(|items|, i requires 0 <= i < |items| => items[i].Id)
  }

  /** `s` with every occurrence of `id` taken out; `WithoutAt` shows the rest keeps its order. */
  function Without(s: seq<Guid>, id: Guid): (r: seq<Guid>)
    ensures forall x :: x in r <==> x in s && x != id
    ensures id !in s ==> r == s
    ensures NoDuplicates(s) ==> NoDuplicates(r)
    ensures NoDuplicates(s) && id in s ==> |r| == |s| - 1
  {
    if |s| == 0 then []
    else if s[0] == id then Without(s[1..], id)
    else
      var rest := Without(s[1..], id);
      assert NoDuplicates(s) ==> NoDuplicates([s[0]] + rest) by {
        if NoDuplicates(s) {
          assert s[0] !in s[1..] && NoDuplicates(s[1..]);
          forall i, j | 0 <= i < j < |[s[0]] + rest|
            ensures ([s[0]] + rest)[i] != ([s[0]] + rest)[j]
          {
            if i == 0 {
              assert ([s[0]] + rest)[j] == rest[j - 1];
            }
          }
        }
      }
      [s[0]] + rest
  }

  /**
   Taking out an id that occurs once, at position k, is cutting position k out:
   the ids before and after it keep their order.
   */
  lemma {:induction false} WithoutAt(s: seq<Guid>, k: int)
    requires NoDuplicates(s)
    requires 0 <= k < |s|
    ensures Without(s, s[k]) == s[..k] + s[k + 1..]
  {
    if k == 0 {
      assert s[0] !in s[1..];
      assert s[..0] + s[1..] == s[1..];
    } else {
      var t := s[1..];
      assert NoDuplicates(t);
      assert t[k - 1] == s[k] != s[0];
      WithoutAt(t, k - 1);
      assert t[..k - 1] + t[k..] == s[1..k] + s[k + 1..];
      assert s[..k] == [s[0]] + s[1..k];
    }
  }

  /** A sequence without repetitions has as many distinct elements as it is long. */
  lemma {:induction false} DistinctCardinality(s: seq<Guid>)
    requires NoDuplicates(s)
    ensures |set x | x in s| == |s|
  {
    if |s| > 0 {
      DistinctCardinality(s[1..]);
      assert (set x | x in s) == (set x | x in s[1..]) + {s[0]};
      assert s[0] !in s[1..];
    }
  }

  /** A valid store enumerates exactly as many ids as it holds items. */
  lemma OrderCoversItems(st: Store)
    requires Valid(st)
    ensures |st.order| == |st.items|
  {
    DistinctCardinality(st.order);
    assert (set x | x in st.order) == st.items.Keys;
  }

  /** `GetItemAsync`: the stored item with this id, or `None` when there is none. */
  function GetItem(st: Store, id: Guid): (r: Option<Item>)
    requires Valid(st)
    ensures r.None? <==> id !in st.items
    ensures r.Some? ==> r.value.Id == id && r.value == st.items[id]
  {
    if id in st.items then Some(st.items[id]) else None
  }

  /** `GetItemsAsync`: a snapshot of every stored item, each exactly once, in enumeration order. */
  function GetItems(st: Store): (r: seq<Item>)
    requires Valid(st)
    ensures |r| == |st.items|
    ensures Ids(r) == st.order
    ensures forall i :: 0 <= i < |r| ==> r[i] == st.items[r[i].Id]
  {
    OrderCoversItems(st);
    seq(|st.order|, i requires 0 <= i < |st.order| => st.items[st.order[i]])
  }

  /**
   `CreateItemAsync`: stores a new item under its own id, which the caller has
   freshly generated, and appends it to the enumeration.
   */
  function CreateItem(st: Store, item: Item): (r: Store)
    requires Valid(st)
    requires item.Id !in st.items
    ensures Valid(r)
    ensures GetItem(r, item.Id) == Some(item)
    ensures forall id :: id != item.Id ==> GetItem(r, id) == GetItem(st, id)
    ensures |r.items| == |st.items| + 1
    ensures r.order == st.order + [item.Id]
    ensures GetItems(r) == GetItems(st) + [item]
  {
    var r := Store(st.items[item.Id := item], st.order + [item.Id]);
    assert NoDuplicates(r.order) by {
      forall i, j | 0 <= i < j < |r.order|
        ensures r.order[i] != r.order[j]
      {
        if j == |st.order| {
          assert r.order[i] in st.order;
        }
      }
    }
    r
  }

  /**
   `UpdateItemAsync`: replaces the stored item that has the given item's id.
   The controller only calls it for a stored id; for any other id the store is
   left as it is.
   */
  function UpdateItem(st: Store, item: Item): (r: Store)
    requires Valid(st)
    ensures Valid(r)
    ensures item.Id in st.items ==> GetItem(r, item.Id) == Some(item)
    ensures item.Id !in st.items ==> r == st
    ensures forall id :: id != item.Id ==> GetItem(r, id) == GetItem(st, id)
    ensures r.items.Keys == st.items.Keys
    ensures r.order == st.order
  {
    if item.Id in st.items then st.(items := st.items[item.Id := item]) else st
  }

  /**
   `DeleteItemAsync`: removes the item with this id from the store and from the
   enumeration. The controller only calls it for a stored id; for any other id
   the store is left as it is.
   */
  function DeleteItem(st: Store, id: Guid): (r: Store)
    requires Valid(st)
    ensures Valid(r)
    ensures GetItem(r, id) == None
    ensures id !in st.items ==> r == st
    ensures forall other :: other != id ==> GetItem(r, other) == GetItem(st, other)
    ensures r.items.Keys == st.items.Keys - {id}
    ensures forall k :: 0 <= k < |st.order| && st.order[k] == id ==>
              r.order == st.order[..k] + st.order[k + 1..]
  {
    var r := Store(st.items - {id}, Without(st.order, id));
    assert forall k :: 0 <= k < |st.order| && st.order[k] == id ==>
             r.order == st.order[..k] + st.order[k + 1..] by {
      forall k | 0 <= k < |st.order| && st.order[k] == id
        ensures r.order == st.order[..k] + st.order[k + 1..]
      {
        WithoutAt(st.order, k);
      }
    }
    r
  }
}
