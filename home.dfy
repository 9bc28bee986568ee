/** The home page's favorite toggle: which request a click on the heart issues
    and how the favorites list changes with the server's answer. The session
    token is present or not; the HTTP outcome of a request is an input. */
module HomePage {
  import opened FavoriteList

  /** A listing as the server returns it. */
  datatype Property = Property(
    id: int,
    title: string,
    location: string,
    price: int,
    surface: int,
    images: seq<string>)

  /** The ids of the favorites response, in order: `data.map((p) => p.id)`.
      Seeding keeps the length and puts each record's id at its own index. */
  function Ids(data: seq<Property>): (r: seq<int>)
    ensures |r| == |data|
    ensures forall k :: 0 <= k < |data| ==> r[k] == data[k].id
  {
    if data == [] then [] else [data[0].id] + Ids(data[1..])
  }

  /** Records with distinct ids seed a list without duplicates. */
  lemma SeedNoDuplicates(data: seq<Property>)
    requires forall i, j :: 0 <= i < j < |data| ==> data[i].id != data[j].id
    ensures NoDuplicates(Ids(data))
  {
  }

  datatype Verb = Post | Delete

  /** The request a toggle issues: none, or a verb on the favorite endpoint
      of one property. */
  datatype Request = NoRequest | Send(verb: Verb, propertyId: int)

  /** Which request a click on the heart of property `id` issues: nothing
      without a token, DELETE when the id is already a favorite, POST otherwise. */
  function ChooseRequest(favorites: seq<int>, hasToken: bool, id: int): (req: Request)
    ensures req == NoRequest <==> !hasToken
    ensures req.Send? ==> req.propertyId == id
    ensures req.Send? ==> (req.verb == Delete <==> id in favorites)
  {
    if !hasToken then NoRequest
    else Send(if id in favorites then Delete else Post, id)
  }

  /** The favorites list after the answer to `req` arrives; `ok` is the
      response's `ok` flag. */
  function Apply(favorites: seq<int>, req: Request, ok: bool): (r: seq<int>)
    ensures !ok || req == NoRequest ==> r == favorites
    ensures ok && req.Send? && req.verb == Delete ==> req.propertyId !in r
    ensures ok && req.Send? && req.verb == Post ==> req.propertyId in r
    ensures forall x :: (req == NoRequest || x != req.propertyId) ==> (x in r <==> x in favorites)
  {
    match req
    case NoRequest => favorites
    case Send(verb, id) =>
      if !ok then favorites
      else if verb == Delete then Without(favorites, id)
      else favorites + [id]
  }

  /** The list that one toggle of `id` leaves behind: unchanged without a
      token or an ok answer; otherwise `id` changes membership and no other
      id does. */
  function Toggled(favorites: seq<int>, hasToken: bool, id: int, ok: bool): (r: seq<int>)
    ensures !hasToken || !ok ==> r == favorites
    ensures hasToken && ok ==> (id in r <==> id !in favorites)
    ensures forall x :: x != id ==> (x in r <==> x in favorites)
  {
    Apply(favorites, ChooseRequest(favorites, hasToken, id), ok)
  }

  /** A successful toggle removes every occurrence of a present id, keeping the
      other ids and their order, and appends an absent id at the end. A kept
      id at position `p` moves to the number of kept ids before it. */
  lemma ToggleSuccessShape(favorites: seq<int>, id: int)
    ensures var r := Toggled(favorites, true, id, true);
      && (id in favorites ==>
            && (forall x :: multiset(r)[x] == if x == id then 0 else multiset(favorites)[x])
            && (forall p :: 0 <= p < |favorites| && favorites[p] != id ==>
                  |Without(favorites[..p], id)| < |r| && r[|Without(favorites[..p], id)|] == favorites[p])
            && (forall p, q :: 0 <= p < q < |favorites| && favorites[p] != id ==>
                  |Without(favorites[..p], id)| < |Without(favorites[..q], id)|))
      && (id !in favorites ==> |r| == |favorites| + 1 && r[..|favorites|] == favorites && r[|favorites|] == id)
  {
    if id in favorites {
      WithoutCounts(favorites, id);
      forall p | 0 <= p < |favorites| && favorites[p] != id
        ensures |Without(favorites[..p], id)| < |Without(favorites, id)|
        ensures Without(favorites, id)[|Without(favorites[..p], id)|] == favorites[p]
      {
        WithoutAt(favorites, id, p);
      }
      forall p, q | 0 <= p < q < |favorites| && favorites[p] != id
        ensures |Without(favorites[..p], id)| < |Without(favorites[..q], id)|
      {
        WithoutPrefixGrows(favorites, id, p, q);
      }
    }
  }

  /** A toggle never introduces a duplicate: it only appends an absent id. */
  lemma TogglePreservesNoDuplicates(favorites: seq<int>, hasToken: bool, id: int, ok: bool)
    requires NoDuplicates(favorites)
    ensures NoDuplicates(Toggled(favorites, hasToken, id, ok))
  {
    if hasToken && ok {
      if id in favorites {
        WithoutKeepsNoDuplicates(favorites, id);
      } else {
        AppendNoDuplicates(favorites, id);
      }
    }
  }

  /** Favoriting an absent id and then unfavoriting it, both answered ok,
      gives back the original list. */
  lemma AddThenRemoveRestores(favorites: seq<int>, id: int)
    requires id !in favorites
    ensures Toggled(favorites, true, id, true) == favorites + [id]
    ensures Toggled(favorites + [id], true, id, true) == favorites
  {
    WithoutConcat(favorites, [id], id);
    WithoutSingleton(id, id);
    assert favorites + [] == favorites;
  }

  /** Unfavoriting a present id and then favoriting it again keeps the same
      set of favorites, with `id` moved to the end. */
  lemma RemoveThenAddSameSet(favorites: seq<int>, id: int)
    requires id in favorites
    ensures var r := Toggled(Toggled(favorites, true, id, true), true, id, true);
      (set x | x in r) == (set x | x in favorites) && r[|r| - 1] == id
  {
  }

  /** The home page component's favorite state. `hasToken` is whether the
      session cookie held a token when the page was loaded. */
  class Home {
    const hasToken: bool
    var favorites: seq<int>

    /** The page mounts with an empty favorites list. */
    constructor (hasToken: bool)
      ensures this.hasToken == hasToken && favorites == []
    {
      this.hasToken := hasToken;
      favorites := [];
    }

    /** Mount effect: with a token the favorites response `data` replaces the
        list by its ids; without one no request goes out. */
    method LoadFavorites(data: seq<Property>)
      modifies this`favorites
      ensures favorites == if hasToken then Ids(data) else old(favorites)
    {
      if hasToken {
        favorites := Ids(data);
      }
    }

    /** A click on the heart of property `id`; `responseOk` is the `ok` flag of
        the server's answer to the request returned. */
    method ToggleFavorite(id: int, responseOk: bool) returns (req: Request)
      modifies this`favorites
      ensures req == ChooseRequest(old(favorites), hasToken, id)
      ensures favorites == Apply(old(favorites), req, responseOk)
      ensures NoDuplicates(old(favorites)) ==> NoDuplicates(favorites)
    {
      if !hasToken {
        return NoRequest;
      }
      var isFav := id in favorites;
      req := Send(if isFav then Delete else Post, id);
      if responseOk {
        favorites := if isFav then Without(favorites, id) else favorites + [id];
      }
      if NoDuplicates(old(favorites)) {
        TogglePreservesNoDuplicates(old(favorites), hasToken, id, responseOk);
      }
    }
  }

  /** Two clicks on property 5 of a logged-in page with no favorites: the
      first is answered ok, the second with an error status. */
  method ClickTwice() returns (first: Request, second: Request, after: seq<int>)
    ensures first == Send(Post, 5) && second == Send(Delete, 5) && after == [5]
  {
    var home := new Home(true);
    first := home.ToggleFavorite(5, true);
    assert home.favorites == [5];
    second := home.ToggleFavorite(5, false);
    after := home.favorites;
  }
}
