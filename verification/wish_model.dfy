/**
 * The wish record of app/routes/wishes.py and the lookup by id that the store's
 * get, update and delete share.
 */
module WishModel {
  import opened Wrappers
  import opened Errors

  /**
   * The fields a client sends (`WishCreate`): everything but the id. A price is a whole
   * number of cents; `None` is a field left out or sent as null.
   */
  datatype WishData = WishData(
    title: string,
    link: Option<string>,
    price: Option<int>,
    notes: Option<string>,
    category: Option<string>)

  /** A stored wish: the id the store assigned and the client's fields. */
  datatype Wish = Wish(id: int, data: WishData)

  /** The one error of the wish endpoints: 404 with the detail "Wish not found". */
  const WishNotFound: HttpException := HttpException(404, TextDetail("Wish not found"))

  /** The error body a missing wish produces once the HTTP exception handler has run. */
  lemma WishNotFoundResponse()
    ensures HttpExceptionHandler(WishNotFound) == ErrorResponse(404, ErrorBody("http_error", "Wish not found"))
  {
  }

  /** The position of the first wish with the given id, scanning in insertion order. */
  function Find(ws: seq<Wish>, id: int): (r: Option<nat>)
    ensures r.Some? ==> r.value < |ws| && ws[r.value].id == id
    ensures r.Some? ==> forall k :: 0 <= k < r.value ==> ws[k].id != id
    ensures r.None? <==> forall k :: 0 <= k < |ws| ==> ws[k].id != id
  {
    if ws == [] then None
    else if ws[0].id == id then Some(0)
    else match Find(ws[1..], id)
      case Some(i) => Some(i + 1)
      case None => None
  }

  /** Ids strictly increase along the list, so no two wishes share one. */
  ghost predicate IdsIncreasing(ws: seq<Wish>)
  {
    forall i, j :: 0 <= i < j < |ws| ==> ws[i].id < ws[j].id
  }

  /** With increasing ids, every wish is found exactly at its own position. */
  lemma FindsOwnPosition(ws: seq<Wish>, i: nat)
    requires IdsIncreasing(ws) && i < |ws|
    ensures Find(ws, ws[i].id) == Some(i)
  {
  }

  /** A wish appended with an id above every stored one is found at the end (create then get). */
  lemma FindAppended(ws: seq<Wish>, w: Wish)
    requires forall k :: 0 <= k < |ws| ==> ws[k].id < w.id
    ensures Find(ws + [w], w.id) == Some(|ws|)
    ensures forall k :: 0 <= k < |ws| ==> Find(ws + [w], ws[k].id) == Find(ws, ws[k].id)
  {
    var r := ws + [w];
    assert r[|ws|].id == w.id;
    forall k | 0 <= k < |ws| ensures Find(r, ws[k].id) == Find(ws, ws[k].id) {
      FindPrefix(ws, [w], ws[k].id, k);
    }
  }

  /** Appending does not change where an id already present is first found. */
  lemma {:induction false} FindPrefix(a: seq<Wish>, b: seq<Wish>, id: int, k: nat)
    requires k < |a| && a[k].id == id
    ensures Find(a + b, id) == Find(a, id)
  {
    if a[0].id != id {
      assert (a + b)[1..] == a[1..] + b;
      FindPrefix(a[1..], b, id, k - 1);
    }
  }

  /**
   * Removing the wish at position i keeps ids increasing and leaves no wish with its id,
   * so a second delete of the same id finds nothing.
   */
  lemma RemoveAt(ws: seq<Wish>, i: nat)
    requires IdsIncreasing(ws) && i < |ws|
    ensures IdsIncreasing(ws[..i] + ws[i + 1..])
    ensures Find(ws[..i] + ws[i + 1..], ws[i].id) == None
  {
  }
}
