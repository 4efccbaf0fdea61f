# In-memory resource store and its HTTP handlers

This project models the core of a small Go HTTP service that keeps two
resource collections, users and posts, in memory. Each collection is a map
from id string to record, guarded by a mutex. Each has two handlers:

- the collection endpoint `/<collection>`, where GET lists every record,
  POST decodes a record from the body, stamps it with an id made from the
  clock, and stores it, and any other method is answered 405;
- the single-item endpoint `/<collection>/<id>`, which splits the URL on
  `/`, requires exactly three parts and looks up the third.

The Go source repeats the same code for `User` (server.go:27-136) and for
`Posts` (server.go:140-248). The model writes it once, generic over the
record's non-`Id` fields: `Record<F>(id, fields)`. `Resources` instantiates
it with the users' and posts' field sets.

Modules:

- `Text`: Go's `strings.Split` on a one-character separator (`Split`), its
  inverse `Join`, and the uniqueness of the split (`SplitUnique`).
- `Decimal`: `fmt.Sprintf("%d", n)` on an `int64` (`FormatInt`), its
  inverse `ParseInt`, and injectivity.
- `Store`: the record type, the map, `NewStore`, `Insert`, and the
  unordered snapshot `Snapshot` taken by GET.
- `Handler`: the handlers as pure functions from a store and an abstract
  request to a `Handled(response, store)` pair: `Post`, `GetById`, and the
  method dispatch `Serve`. Also lemmas that relate them.
- `Resources`: the `User` and `Posts` instances and two concrete scenarios.

The store invariant `WellKeyed`, meaning every record sits under its own
`Id`, holds of a new store and is kept by every handler.

Three behaviours of the handlers worth noting:

- A successful POST sets no status and writes no body, so Go answers with
  an empty 200.
- The single-item handler splits `r.URL.String()`, so the query string
  stays part of the key: `/users/k?x=1` has three parts and looks up
  `k?x=1`.
- The single-item handler never checks the method or the second part of
  the path. Any URL with three parts is looked up.

## Model

| member | source | states |
|---|---|---|
| Store.NewStore | server.go:132-136 | a freshly built handler's store has no entries, so it is trivially well keyed |
| Store.Insert | server.go:126-128 | after storing under `id`, the key set is the old one plus `id`; the entry at `id` carries `id` and the posted fields; every other entry is unchanged; the size grows by one exactly when `id` was new; well-keyedness is kept |
| Store.Snapshot | server.go:55-64 | the listed sequence is as long as the store, contains every entry's record, and has one element per map entry, in some order of distinct keys covering the whole key set, each element being that key's record |
| Store.SnapshotIsValues | server.go:59-63 | on a well-keyed store, the multiset of listed records equals the map's values, each exactly once |
| Handler.Serve | server.go:39-52 | GET answers 200 with a snapshot as long as the store and leaves it unchanged; POST behaves as `Post`; any other method answers 405 "method not allowed" and leaves the store unchanged; well-keyedness is kept |
| Handler.Post | server.go:102-130 | a body-read failure answers 500 and a decode failure answers 400, each with the error text and the store unchanged; on success the answer is an empty 200, the key set gains the generated id, that entry is the posted record stamped with the id, and every other entry is kept |
| Handler.GetById | server.go:76-100 | never changes the store; answers 200 exactly when the URL splits on `/` into three parts whose third is a key, with the stored record as body; every other answer is an empty 404; on a well-keyed store the returned record's id is the requested key |
| Handler.GetByIdLooksUpKey | server.go:77-89 | for `/<collection>/<key>` with no `/` inside either part, the answer is 200 with the key's record when present and an empty 404 when absent |
| Handler.NestedPathNotFound | server.go:77-81 | a URL with a fourth part, such as `/users/a/b` or a trailing slash, answers an empty 404 whatever the store holds, so `a/b` is never looked up |
| Handler.IdFor | server.go:126 | the id generated from a clock reading never contains `/`, so it can always be addressed through the single-item endpoint |
| Handler.IdsCollideIffClocksEqual | server.go:126 | two generated ids are equal exactly when the two clock readings are equal |
| Handler.PostThenGet | server.go:126-128 | after a successful POST, GET of `/<collection>/<generated id>` answers 200 with the posted fields under the generated id |
| Handler.PostThenList | server.go:55-64 | after a successful POST on a well-keyed store, any listing of the new store holds the posted fields under the generated id exactly once |
| Handler.SameClockOverwrites | server.go:126-128 | two POSTs with the same clock reading collide: the second record replaces the first and the store gains one entry, not two |
| Handler.DistinctClocksKeepEveryRecord | server.go:126-128 | a run of successful POSTs with pairwise distinct clock readings and untaken ids grows the store by exactly one entry per POST, every posted record is found under its id, and earlier entries are kept |
| Text.Split | server.go:77 | the pieces contain no separator, join back to the URL, and number one more than the separators in it |
| Text.SplitUnique | server.go:77 | any cutting of a string into separator-free pieces that joins back to it is the split |
| Decimal.Digits | server.go:126 | the decimal digits of a natural number are non-empty, all digits, with a leading zero only for zero |
| Decimal.FormatInt | server.go:126 | `%d` output is a leading minus sign exactly for negative numbers, followed by a non-empty run of digits that starts with `0` only for zero |
| Decimal.FormatRoundTrip | server.go:126 | reading back the `%d` output of any integer gives that integer |
| Decimal.FormatIntInjective | server.go:126 | two integers have the same `%d` output exactly when they are equal |
| Resources.PostedUserIsFound | server.go:118-128 | a user `{"Name":"Ada",...}` posted to an empty store is its only entry, and `/users/<generated id>` answers 200 with that user and the generated id |
| Resources.NestedPostPathNotFound | server.go:189-193 | `/posts/a/b` answers an empty 404 whatever the posts store holds |

The posts handlers (server.go:152-248) are line-for-line copies of the
users handlers cited above. The same members model them, instantiated
with `PostFields`.

## Left out

- JSON encoding and decoding are not modelled. A request body arrives as
  `ReadFailed`, `Malformed` or `Decoded(record)`, and a response carries
  the records that would be encoded.
- The 500 answer after a `json.Marshal` failure in both GET handlers is
  not modelled, and neither is the second `WriteHeader` that follows it.
  Marshalling a struct of string fields cannot fail, so that path is dead.
- The `content-type: application/json` header on GET answers is not
  modelled.
- `ioutil.ReadAll` and `Body.Close` are reduced to the `ReadFailed` case
  of the body.
- `time.Now().UnixNano()` is a parameter `clock` of the POST handlers.
  Distinct calls may see the same reading; `SameClockOverwrites` states
  what then happens.
- The mutex and all concurrency are not modelled, including the unlocked
  `len(h.store)` read before the lock in the GET handlers. Each handler
  call is one atomic step. `DistinctClocksKeepEveryRecord` is about a
  sequential run of POSTs, not concurrent ones.
- `main` is not modelled: route registration, `ListenAndServe` and the
  MongoDB connection, which is never used and sits after the blocking
  listen. Which URLs reach which handler, including the router's path
  cleaning and redirects, is therefore outside the model. `GetById` takes
  the URL text as given.
- Go strings are byte sequences; the model uses `seq<char>`. Splitting on
  the ASCII `/` gives the same pieces either way.
