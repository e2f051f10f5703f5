/**
 * The wish store of app/routes/wishes.py: an ordered list of wishes and the counter that
 * numbers them, with create, get, update, delete and the list query.
 */
module Wishes {
  import opened Wrappers
  import opened Errors
  import opened WishModel
  import opened WishQuery

  const DeletedMessage: string := "Wish deleted"

  /**
   * `list_wishes` sorts with Python's `<`, which refuses to compare a number with a
   * string: sorting by price needs every selected wish priced, or none.
   */
  predicate Comparable(s: seq<Wish>, f: SortField)
  {
    || f == ByTitle
    || (forall k :: 0 <= k < |s| ==> KeyOf(s[k], f).Number?)
    || (forall k :: 0 <= k < |s| ==> KeyOf(s[k], f).Text?)
  }

  /**
   * With a price maximum given, every selected wish has a non-zero price, so the keys of a
   * price sort are all numbers: a list filtered by price can always be sorted.
   */
  lemma PricedSelectionComparable(ws: seq<Wish>, maxPrice: Option<int>, category: Option<string>, f: SortField)
    ensures maxPrice.Some? ==> Comparable(Selected(ws, maxPrice, category), f)
  {
    var r := Selected(ws, maxPrice, category);
    if maxPrice.Some? {
      forall k | 0 <= k < |r| ensures KeyOf(r[k], ByPrice).Number? {
        SelectedMembers(ws, maxPrice, category, r[k]);
      }
    }
  }

  class WishStore {
    /** `_DB_WISHES`, in insertion order. */
    var wishes: seq<Wish>
    /** `_ID_COUNTER`: the id the next created wish gets. */
    var nextId: int
    /** Every id ever handed out, deleted or not. */
    ghost var issued: set<int>

    /**
     * The counter starts at 1 and only grows, the ids handed out are exactly 1 .. nextId - 1,
     * and the stored wishes carry handed-out ids in strictly increasing order.
     */
    ghost predicate Valid()
      reads this
    {
      && nextId >= 1
      && (forall n :: n in issued <==> 1 <= n < nextId)
      && IdsIncreasing(wishes)
      && forall k :: 0 <= k < |wishes| ==> wishes[k].id in issued
    }

    constructor ()
      ensures Valid()
      ensures wishes == [] && nextId == 1 && issued == {}
    {
      wishes := [];
      nextId := 1;
      issued := {};
    }

    /**
     * `create_wish`: the new wish gets the counter's value as id, the counter moves up by
     * one and the wish is appended. Its id was never handed out before and is above every
     * stored id.
     */
    method Create(input: WishData) returns (w: Wish)
      requires Valid()
      modifies this
      ensures Valid()
      ensures w == Wish(old(nextId), input)
      ensures nextId == old(nextId) + 1
      ensures wishes == old(wishes) + [w]
      ensures w.id !in old(issued) && issued == old(issued) + {w.id}
      ensures forall k :: 0 <= k < |old(wishes)| ==> old(wishes)[k].id < w.id
    {
      w := Wish(nextId, input);
      issued := issued + {nextId};
      nextId := nextId + 1;
      wishes := wishes + [w];
    }

    /** `get_wish`: the first wish with the id, or "Wish not found" (404). */
    method Get(id: int) returns (r: Result<Wish, HttpException>)
      ensures match Find(wishes, id)
        case Some(i) => r == Success(wishes[i])
        case None => r == Failure(WishNotFound)
    {
      var i := 0;
      while i < |wishes|
        invariant 0 <= i <= |wishes|
        invariant forall k :: 0 <= k < i ==> wishes[k].id != id
      {
        if wishes[i].id == id {
          return Success(wishes[i]);
        }
        i := i + 1;
      }
      return Failure(WishNotFound);
    }

    /**
     * `update_wish`: every field of the first wish with the id is replaced by the input;
     * its id and position stay and no other wish changes. Without such a wish the store is
     * unchanged and the result is "Wish not found".
     */
    method Update(id: int, input: WishData) returns (r: Result<Wish, HttpException>)
      requires Valid()
      modifies this
      ensures Valid()
      ensures nextId == old(nextId) && issued == old(issued)
      ensures match Find(old(wishes), id)
        case Some(i) => wishes == old(wishes)[i := Wish(id, input)] && r == Success(Wish(id, input))
        case None => wishes == old(wishes) && r == Failure(WishNotFound)
    {
      var i := 0;
      while i < |wishes|
        invariant 0 <= i <= |wishes|
        invariant forall k :: 0 <= k < i ==> wishes[k].id != id
        invariant wishes == old(wishes) && nextId == old(nextId) && issued == old(issued)
      {
        if wishes[i].id == id {
          wishes := wishes[i := Wish(id, input)];
          return Success(wishes[i]);
        }
        i := i + 1;
      }
      return Failure(WishNotFound);
    }

    /**
     * `delete_wish`: the first wish with the id is removed and the others keep their order;
     * the counter is untouched, and no wish with that id remains, so deleting it again fails.
     * Without such a wish the store is unchanged and the result is "Wish not found".
     */
    method Delete(id: int) returns (r: Result<string, HttpException>)
      requires Valid()
      modifies this
      ensures Valid()
      ensures nextId == old(nextId) && issued == old(issued)
      ensures match Find(old(wishes), id)
        case Some(i) => wishes == old(wishes)[..i] + old(wishes)[i + 1..] && r == Success(DeletedMessage)
        case None => wishes == old(wishes) && r == Failure(WishNotFound)
      ensures Find(wishes, id).None?
    {
      var i := 0;
      while i < |wishes|
        invariant 0 <= i <= |wishes|
        invariant forall k :: 0 <= k < i ==> wishes[k].id != id
        invariant wishes == old(wishes) && nextId == old(nextId) && issued == old(issued)
      {
        if wishes[i].id == id {
          RemoveAt(wishes, i);
          wishes := wishes[..i] + wishes[i + 1..];
          return Success(DeletedMessage);
        }
        i := i + 1;
      }
      return Failure(WishNotFound);
    }

    /**
     * `list_wishes`: the wishes that pass the given filters, in insertion order, or, with a
     * sort field, those same wishes sorted by it, equal keys keeping their order. The store
     * is not changed.
     */
    method List(maxPrice: Option<int>, category: Option<string>, sortBy: Option<SortField>)
      returns (r: seq<Wish>)
      requires sortBy.Some? ==> Comparable(Selected(wishes, maxPrice, category), sortBy.value)
      ensures sortBy.None? ==> r == Selected(wishes, maxPrice, category)
      ensures multiset(r) == multiset(Selected(wishes, maxPrice, category))
      ensures sortBy.Some? ==> Sorted(r, sortBy.value)
      ensures sortBy.Some? ==> StablePermutation(r, Selected(wishes, maxPrice, category), sortBy.value)
    {
      var ws := wishes;
      if maxPrice.Some? {
        ws := Filter(ws, PriceBelow(maxPrice.value));
      }
      if category.Some? && category.value != "" {
        ws := Filter(ws, CategoryIs(category.value));
      }
      if sortBy.Some? {
        var a := new Wish[|ws|](k requires 0 <= k < |ws| => ws[k]);
        assert a[..] == ws;
        SortInPlace(a, sortBy.value);
        InsertionSortCorrect(ws, sortBy.value);
        ws := a[..];
      }
      r := ws;
    }
  }

  /** Deleting and recreating never reuses an id: create, delete, create gives ids 1 and 2. */
  method CreateDeleteCreate(input: WishData) returns (first: Wish, second: Wish, again: Result<string, HttpException>)
    ensures first.id == 1 && second.id == 2
    ensures again == Failure(WishNotFound)
  {
    var store := new WishStore();
    first := store.Create(input);
    var deleted := store.Delete(first.id);
    assert deleted == Success(DeletedMessage);
    second := store.Create(input);
    again := store.Delete(first.id);
  }
}
