/**
 * The demo item store of app/main.py: a list of items, each numbered by its position,
 * with a create that checks the name's length and a lookup by id.
 */
module Items {
  import opened Wrappers
  import opened Errors

  datatype Item = Item(id: int, name: string)

  const MaxNameLength: nat := 100

  const NameValidationError: ApiError := MakeApiError("validation_error", "name must be 1..100 chars", 422)
  const ItemNotFound: ApiError := MakeApiError("not_found", "item not found", 404)

  class ItemStore {
    var items: seq<Item>

    /** Items are only ever appended, so the item at position k has id k + 1. */
    ghost predicate Valid()
      reads this
    {
      forall k :: 0 <= k < |items| ==> items[k].id == k + 1
    }

    constructor ()
      ensures Valid() && items == []
    {
      items := [];
    }

    /**
     * `create_item`: an empty name or one longer than 100 characters is rejected with
     * "validation_error" (422) and the store is unchanged; otherwise one item, numbered one
     * more than the store's size, is appended and returned.
     */
    method CreateItem(name: string) returns (r: Result<Item, ApiError>)
      requires Valid()
      modifies this
      ensures Valid()
      ensures (name == "" || |name| > MaxNameLength) ==>
                r == Failure(NameValidationError) && items == old(items)
      ensures 1 <= |name| <= MaxNameLength ==>
                r == Success(Item(|old(items)| + 1, name)) && items == old(items) + [r.value]
    {
      if name == "" || |name| > MaxNameLength {
        return Failure(NameValidationError);
      }
      var item := Item(|items| + 1, name);
      items := items + [item];
      return Success(item);
    }

    /**
     * `get_item`: the first item with the given id, or "not_found" (404). Because ids follow
     * positions, the lookup succeeds exactly for the ids 1 .. the store's size.
     */
    method GetItem(id: int) returns (r: Result<Item, ApiError>)
      ensures r.Success? ==> exists k :: 0 <= k < |items| && items[k] == r.value && r.value.id == id &&
                                         forall m :: 0 <= m < k ==> items[m].id != id
      ensures r.Failure? ==> r.error == ItemNotFound && forall k :: 0 <= k < |items| ==> items[k].id != id
      ensures Valid() ==> (r.Success? <==> 1 <= id <= |items|)
      ensures Valid() && r.Success? ==> r.value == items[id - 1]
    {
      var i := 0;
      while i < |items|
        invariant 0 <= i <= |items|
        invariant forall m :: 0 <= m < i ==> items[m].id != id
      {
        if items[i].id == id {
          return Success(items[i]);
        }
        i := i + 1;
      }
      assert Valid() && 1 <= id <= |items| ==> items[id - 1].id == id;
      return Failure(ItemNotFound);
    }
  }

  /** The error bodies the two item endpoints produce once the API error handler has run. */
  lemma ItemErrorResponses()
    ensures ApiErrorHandler(NameValidationError) ==
              ErrorResponse(422, ErrorBody("validation_error", "name must be 1..100 chars"))
    ensures ApiErrorHandler(ItemNotFound) == ErrorResponse(404, ErrorBody("not_found", "item not found"))
  {
  }
}
