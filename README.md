# Favorite toggle of the OhMyHome home page

This project models the one piece of logic in the OhMyHome listing front end
that is more than fetching and rendering: the home page's list of favorited
property ids.

- On mount, if a session token is present, the page loads the user's
  favorites. It keeps the `id` of each returned property, in order.
- A click on a listing's heart toggles that property. Without a token nothing
  happens. Otherwise the page sends `DELETE` when the id is already a
  favorite and `POST` when it is not. It changes the list only when the
  response is ok: it removes every occurrence of the id, or appends the id at
  the end.

Two files:

- `favorites.dfy`, module `FavoriteList`: pure operations on the list.
  `Without` is the `filter` that removes an id. `NoDuplicates` is the
  "no id twice" invariant. Lemmas give the order and counts that `Without`
  keeps and show that neither update creates a duplicate.
- `home.dfy`, module `HomePage`:
  - the `Property` record and the seeding function `Ids`;
  - `ChooseRequest`, the request a click issues;
  - `Apply`, the list after the response arrives;
  - lemmas about one toggle and about two toggles in a row;
  - class `Home`, the component state: a constant `hasToken` and a mutable
    `favorites` field. Its methods `LoadFavorites` and `ToggleFavorite` are
    proved against `Ids`, `ChooseRequest` and `Apply`;
  - `ClickTwice`, a client that replays two clicks on property 5 through the
    class.

What the environment provides is an input to the model:

- The token cookie becomes the boolean `hasToken`. The source reads it once,
  when the module loads, so it is a `const` set by the constructor.
- The response's `ok` flag becomes the parameter `responseOk`.
- The decoded favorites response becomes the parameter `data`.

How the page treats the favorites list (src/app/page.tsx:51-66):

- The list is not updated optimistically. It changes only after an ok
  response.
- No notice is shown when there is no token or the request fails. The toggle
  simply returns.
- A transport failure makes `await fetch` throw before the list is touched.
  Its effect on the state is that of `responseOk == false`.
- Favorites are a list, not a set. The list may hold duplicates if the server
  sends them. Removal drops every copy of the id.

## Model

| member | source | states |
|---|---|---|
| `FavoriteList.Without` | src/app/page.tsx:64 | the filtered list holds exactly the ids of the old list other than `id`, is no longer than it, and is the old list itself when `id` is absent |
| `FavoriteList.WithoutConcat` | src/app/page.tsx:64 | filtering distributes over concatenation, so the kept ids stay in their original order |
| `FavoriteList.WithoutSingleton` | src/app/page.tsx:64 | a one-element list loses its element exactly when it is `id` |
| `FavoriteList.WithoutAt` | src/app/page.tsx:64 | a kept id at position p of the old list sits in the filtered list at the index equal to the number of kept ids before p |
| `FavoriteList.WithoutPrefixGrows` | src/app/page.tsx:64 | for p < q with the id at p kept, fewer ids are kept before p than before q, so kept ids, repeated ones included, keep their relative positions |
| `FavoriteList.WithoutCounts` | src/app/page.tsx:64 | after filtering, `id` occurs zero times and every other id as often as before |
| `FavoriteList.WithoutKeepsNoDuplicates` | src/app/page.tsx:64 | filtering a list without duplicates gives a list without duplicates |
| `FavoriteList.AppendNoDuplicates` | src/app/page.tsx:64 | appending `id` to a list without duplicates keeps it duplicate-free if and only if `id` was absent |
| `HomePage.Ids` | src/app/page.tsx:46 | seeding gives a list as long as the response, with each record's `id` at that record's index |
| `HomePage.SeedNoDuplicates` | src/app/page.tsx:46 | a response whose records have distinct ids seeds a list without duplicates |
| `HomePage.ChooseRequest` | src/app/page.tsx:50-60 | no request exactly when there is no token; otherwise a request on property `id`, which is `DELETE` exactly when `id` is in the list and `POST` otherwise |
| `HomePage.Apply` | src/app/page.tsx:62-66 | without a request or an ok response the list is unchanged; an ok `DELETE` leaves the id absent, an ok `POST` leaves it present; no other id changes membership |
| `HomePage.Toggled` | src/app/page.tsx:50-66 | with no token or a response that is not ok, a toggle leaves the list as it was; after a successful toggle `id` is a member exactly when it was not before; no other id ever changes membership |
| `HomePage.ToggleSuccessShape` | src/app/page.tsx:53-65 | a successful toggle of a present id removes all its occurrences, keeps every other id's count, and moves each kept id at position p to the index equal to the number of kept ids before p, which grows strictly with p; of an absent id, it keeps the old list as a prefix and puts `id` last |
| `HomePage.TogglePreservesNoDuplicates` | src/app/page.tsx:53-65 | whatever the token and the response, a toggle of a list without duplicates gives a list without duplicates |
| `HomePage.AddThenRemoveRestores` | src/app/page.tsx:53-65 | favoriting an absent id appends it, and unfavoriting it then gives back the original list |
| `HomePage.RemoveThenAddSameSet` | src/app/page.tsx:53-65 | unfavoriting a present id and favoriting it again gives the same set of ids, with `id` last |
| `HomePage.Home.constructor` | src/app/page.tsx:28 | the page starts with an empty favorites list and the token flag it was given |
| `HomePage.Home.LoadFavorites` | src/app/page.tsx:39-47 | with a token the list becomes the ids of the response; without one it is unchanged |
| `HomePage.Home.ToggleFavorite` | src/app/page.tsx:50-67 | the request returned is `ChooseRequest` of the old list, the new list is `Apply` of the old list to that request and `responseOk`, and a list without duplicates stays so |
| `HomePage.ClickTwice` | src/app/page.tsx:50-67 | from an empty list, an ok click on 5 sends `POST` and gives `[5]`; a second click answered with an error sends `DELETE` and leaves `[5]` |

## Left out

- All `fetch` calls: URLs, the `Authorization` header, JSON decoding (src/app/page.tsx:32-46, 55-60). This is network I/O. The response is reduced to its `ok` flag, and the favorites response to the decoded records.
- The property listing fetch and the `properties` and `loading` state (src/app/page.tsx:26-27, 32-37). These only feed rendering.
- `HomePage.Home.LoadFavorites` models only a favorites load whose body decodes to a list of records. Line 45 does not check `res.ok`. An error response (a stale token, say) or a body that is not an array makes `res.json()` reject or `data.map` throw at line 46, so `setFavorites` never runs and the list stays as it was. The model's counterpart is not calling `LoadFavorites`. A click before the load resolves reads the initial empty list and sends `POST`. If its answer lands first, the load overwrites the result. If the load lands first, line 64 appends `id` to the loaded list, which then holds `id` twice when the server already had it.
- Cookie access (src/app/page.tsx:14). This is external storage; token presence is the boolean `hasToken`.
- The async gap between reading `favorites` when the click happens (line 53) and updating through `prev` (line 63). This is React scheduling. Toggles are modelled as atomic and sequential, so both read the same list. Without that assumption, two clicks on an absent heart before a re-render both read the stale list at line 53 and both send `POST`. Line 64 then appends `id` twice. The same happens when a click reads the empty list before the favorites load and its ok answer arrives after the load. So `HomePage.TogglePreservesNoDuplicates` holds only for the model's atomic toggles and atomic loads.
- Rendering, the filled or outlined heart icon (line 97), `router.push` navigation and price formatting with `toLocaleString` (src/app/page.tsx:69-118). These are UI and locale formatting.
- JavaScript numbers are IEEE doubles. Ids, prices and surfaces are modelled as unbounded `int`. Only ids are compared, and only for equality.
- src/app/login/page.tsx, src/app/favorites/page.tsx, src/app/properties/[id]/page.tsx and src/app/layout.tsx. They only fetch, store or render, and have no logic of their own.
