# Origin allow-list of the minimum-order-surcharge backend

This project models the cross-origin policy of the backend's `server.js`.
The backend stores `Shop` documents whose schema holds a single `shop` field,
the shop's domain; nothing in `server.js` makes these documents unique, so the
model allows repeated listings. For every incoming request, the CORS
middleware re-reads all shop documents and turns each into the origin
`https://<shop>`. The origin callback it hands to the `cors` package then
accepts the request when it declares no origin or declares one of those
origins. It rejects every other request with the error `Nicht erlaubte Domain`.

Files:

- `js_values.dfy` (module `JsValues`): the JavaScript semantics the policy
  relies on. These are `undefined`-or-string values, a schema `String` field
  that may also read as `null` or `undefined`, template-literal interpolation,
  truthiness, `Array.prototype.includes` and `Array.prototype.map`.
- `origin_policy.dfy` (module `OriginPolicy`): the derivation of the allowed
  origins (`AllowedOrigins`), the origin callback (`OriginCallback`), the
  per-request decision (`Decide`), and the lemmas about them.
- `shop_store.dfy` (module `ShopStore`): the shop collection as mutable state
  (`ShopCollection`). `AddShop` stores a shop. `HandleRequest` recomputes the
  list on every call, as the middleware does.

Points where the model follows the code's JavaScript semantics rather than a
looser reading of "no declared origin":

- The guard is `!origin`, defined by `JsValues.IsFalsy`. An origin header
  that is present but empty is therefore falsy and is allowed, just like a
  missing header (`MissingOriginAllowed`).
- A document whose `shop` field is missing or `null` still yields an origin,
  through interpolation: `https://undefined` or `https://null`
  (`FieldlessShopAdmitsLiteralOrigin`). Such a document admits the same
  origin as one holding the string `"undefined"` or `"null"`
  (`InterpolateCollisions`).
- Matching is exact string equality. No normalisation is done for case,
  trailing slashes, ports or scheme (`PlainHttpRejected`,
  `TrailingSlashRejected`).

The code gives no fail-closed behaviour when the store cannot be reached. The
`await` at server.js:27 would reject, and what happens then is up to the
framework. The model does not invent a policy for that case.

The decision is a Dafny function of the request's origin and the store's
current contents, so equal inputs give equal verdicts by construction.
`DecideIgnoresStoreOrder` shows more: only the set of stored shops matters,
not the order in which the store lists them.

## Model

| member | source | states |
|---|---|---|
| `JsValues.InterpolateCollisions` | server.js:23 | two field values interpolate to the same text exactly when they are equal, or are the string `"null"` and a null field, or the string `"undefined"` and a missing field |
| `JsValues.Includes` | server.js:30 | `includes` on the list of origins is true exactly when the origin is an element of the list (exact string equality) |
| `JsValues.Map` | server.js:23 | `map` yields one result per element, and result `i` is the function applied to element `i` |
| `OriginPolicy.Origin` | server.js:23 | the origin derived from one shop document starts with `"https://"`, and the rest of it is the interpolated `shop` field |
| `OriginPolicy.AllowedOrigins` | server.js:21-24 | the derived list has exactly one entry per stored shop, in the same order, and entry `i` is `"https://"` followed by the interpolated `shop` field of document `i` |
| `OriginPolicy.ShopOf` | server.js:23 | (specification only) an origin has a stripped domain exactly when it starts with `"https://"`, and it is then that prefix followed by the domain |
| `OriginPolicy.OriginCallback` | server.js:29-35 | the callback allows exactly when the origin is undefined, is empty, or is an element of the allowed list, and otherwise rejects with `Nicht erlaubte Domain` |
| `OriginPolicy.Decide` | server.js:26-37 | the per-request step allows exactly when the origin is falsy or equals the derived origin of some stored shop, and otherwise rejects with `Nicht erlaubte Domain` |
| `OriginPolicy.StripRoundTrip` | server.js:23 | stripping the prefix from the origin derived from a shop gives back the interpolated shop text |
| `OriginPolicy.PrefixedOriginIsDerived` | server.js:23 | a prefixed origin is the one derived from the record holding its stripped domain, and from no other domain text |
| `OriginPolicy.AllowedOriginsShape` | server.js:21-24 | every derived origin starts with `"https://"`, and stripping it gives the stored shop text at the same index |
| `OriginPolicy.DecideCharacterized` | server.js:26-37 | (corollary of `Decide`'s contract) for a present origin, the per-request decision allows exactly when the origin is empty or equals the derived origin of some stored shop, and otherwise rejects with `Nicht erlaubte Domain` |
| `OriginPolicy.MissingOriginAllowed` | server.js:30-31 | a request with no origin, or an empty one, is allowed whatever the store holds, the empty store included |
| `OriginPolicy.FieldlessShopAdmitsLiteralOrigin` | server.js:19-23 | a stored document with an undefined or null `shop` field makes the literal origin `https://undefined` or `https://null` allowed |
| `OriginPolicy.RegisteredOriginAllowed` | server.js:23-31 | the origin derived from any stored shop is allowed |
| `OriginPolicy.EmptyStoreRejects` | server.js:22-33 | with no shop stored, every non-empty origin is rejected with `Nicht erlaubte Domain` |
| `OriginPolicy.PlainHttpRejected` | server.js:30-33 | `"http://" + domain` is rejected for every domain and every store content |
| `OriginPolicy.TrailingSlashRejected` | server.js:30-33 | `"https://" + domain + "/"` is rejected unless some record holds exactly `domain + "/"` |
| `OriginPolicy.AddShopMonotone` | server.js:26-27 | adding a shop never turns an allowed origin into a rejected one, and the added shop's origin is allowed on the next decision |
| `OriginPolicy.DecideIgnoresStoreOrder` | server.js:22-30 | two store listings that hold the same shops give the same verdict for every origin |
| `ShopStore.ShopCollection.AddShop` | server.js:26-27 | appends the shop document, keeps every previously allowed origin allowed, and allows `"https://" + domain` from then on |
| `ShopStore.ShopCollection.HandleRequest` | server.js:26-37 | recomputes the allowed list from the current documents and returns the verdict `Decide` gives for the request's origin and those documents; the store is unchanged |

## Left out

- MongoDB connection and the `Shop.find` query (server.js:13-16, 22): persistent-store I/O. The query's result is the input `seq<Shop>`, or the `docs` field of `ShopCollection`.
- Store failures: a rejected `await` at server.js:27 is not modelled, because the code defines no handling for it.
- How the `cors` package turns the callback's verdict into response headers or an error passed to `next` (server.js:28, 36): third-party library code. Only the verdict is modelled.
- Async/await and concurrency between requests (server.js:26-27): each request is one sequential step.
- Insertion of shop documents happens outside `server.js`. `ShopCollection.AddShop` stands for it and appends at the end. The store's real listing order is not specified, and `DecideIgnoresStoreOrder` shows that order does not affect any verdict.
- Express JSON parsing, session setup, the `/` route and `app.listen` (server.js:39-54): framework wiring and I/O.
- Environment variables and `dotenv` (server.js:7, 10, 42): configuration plumbing.
- Values that Mongoose would cast to a string when a document is read (numbers, for instance) are represented by their string form in `Text`.
