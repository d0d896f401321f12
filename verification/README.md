# Gadget shop server: a Dafny model of its request logic

The gadget shop server is an Express application over two MongoDB collections: `products` and `users`. This project models its request logic over an in-memory stand-in for those collections. Each collection is a sequence of documents in storage order. The model covers:

- `GET /all-porducts`, the product listing. It builds a query document from the optional `title`, `category` and `brand` parameters, sorts by price in the direction `sort` asks for, and cuts out page `page` of `limit` products. It also counts every match and lists the distinct brands and categories of the whole catalogue.
- `PATCH /wishlist/add` and `PATCH /wishlist/remove`. These run `updateOne` with `$addToSet` or `$pull` on the wishlist of the user with the given email.
- `GET /wishlist/:userId`, which returns the products whose id is on the user's wishlist.
- `POST /users`, which creates a user unless the email is already registered.
- The `verifySeller` middleware, which lets only users whose role is `"seller"` through.
- The header handling of the `verifyJWT` middleware. The token library is a parameter.

Modules:

- `Common`: `Option`, duplicate-freedom and occurrence counts.
- `Text`: the ASCII case fold, substring search, and `split`/`join` on one separator.
- `Auth`: `verifyJWT`.
- `Catalogue`: the listing.
- `CatalogueExample`: a worked listing of five phones.
- `Accounts`: user documents, lookup, the array operators, `verifySeller` and the wishlist read.
- `Users`: the class `UserCollection`, whose methods change the user collection in place.

Prices and ids are unbounded integers. A product id and a user id are each a `nat` standing for an `ObjectId`.

MongoDB applies a cursor's `sort` before its `skip` and `limit`, whatever order the calls are chained in at `index.js:162-166`. So the page is stated as: select the matches, sort them by price, skip `(page - 1) * limit`, take `limit`. A wishlist update whose email matches nobody is reported as zero matched and zero modified documents, not as an error, because that is what `updateOne` does.

## Model

| member | source | states |
|---|---|---|
| Catalogue.FilterOf | index.js:140-154 | a product satisfies the query document exactly when it matches every parameter that is present and non-empty: title and category by case-insensitive substring, brand by equality; each field is set exactly when its parameter is truthy |
| Catalogue.NoParametersMatchAll | index.js:140-154 | with no truthy title, category or brand, every product matches |
| Text.ContainsIgnoreCaseMeaning | index.js:143 | the case-insensitive pattern matches exactly when the folded pattern occurs at some index of the folded text |
| Text.SubstringMatches | index.js:143 | a pattern that literally occurs in the text matches it |
| Text.FoldInvariant | index.js:143 | the match gives the same answer whatever the case of text and pattern |
| Text.LowerIdempotent | index.js:143 | folding case twice is folding once |
| Text.Search | index.js:143 | returns the first index at or after `from` where the pattern occurs, or none when it occurs nowhere there |
| Catalogue.Select | index.js:162-163 | the selection holds exactly the catalogue products that match, and is no longer than the catalogue |
| Catalogue.SelectAppend | index.js:162-163 | selection keeps storage order: selecting from `a + b` is selecting from `a` then from `b` |
| Catalogue.SelectAllMatching | index.js:162-163 | when every product matches, the selection is the whole catalogue |
| Catalogue.CountMatching | index.js:169 | the count never exceeds the catalogue size |
| Catalogue.CountIsSelectionSize | index.js:169 | `countDocuments(query)` equals the number of products `find(query)` returns before paging |
| Catalogue.CountAllWithoutFilter | index.js:169 | the empty query document counts the whole catalogue |
| Catalogue.SortOption | index.js:156 | the direction is ascending exactly when `sort` is `"asc"`; any other or absent value is descending |
| Catalogue.Insert | index.js:166 | inserting into an ordered sequence keeps it ordered and adds exactly that product |
| Catalogue.SortByPrice | index.js:166 | the result is ordered by price in the direction and is a permutation of the input |
| Catalogue.Window | index.js:164-165 | `skip(n).limit(m)` keeps `min(m, len - n)` items (none past the end), or every item after the first `n` when `m` is 0, the i-th being item `n + i` |
| Catalogue.WindowOrdered | index.js:164-166 | a window of an ordered sequence is ordered |
| Catalogue.WindowMembers | index.js:164-165 | a window holds only items of its sequence |
| Catalogue.OffsetIsProduct | index.js:164 | the number of items before page `page` is `(page - 1) * limit` |
| Catalogue.WindowsJoin | index.js:164-165 | adjacent windows with positive limits concatenate into the window spanning both |
| Catalogue.SortedMatchesIgnorePaging | index.js:162-166 | the sorted matches depend only on the filter parameters and `sort`, not on `page` or `limit` |
| Catalogue.ConsecutivePages | index.js:159-167 | with a positive limit and the fixed tie order of `SortByPrice`, two consecutive pages of one query follow each other in the sorted matches with no gap and no overlap |
| Catalogue.NoLimitListsAll | index.js:160-165 | `limit=0` places no limit: the page is every sorted match |
| Catalogue.Distinct | index.js:175-176 | `[...new Set(xs)]` holds exactly the values of `xs`, each once |
| Catalogue.DistinctFirstOccurrenceOrder | index.js:175-176 | the distinct values appear in the order of their first occurrence |
| Catalogue.AllProducts | index.js:138-183 | the handler builds the query one field at a time and returns the specified listing: every listed product is in the catalogue and requested, at most `limit` are listed when `limit` is positive and every match when it is 0, they are ordered in the sort direction, and the total is the number of matches |
| Catalogue.ListingProductsRequested | index.js:140-167 | every product on the page is a catalogue product that satisfies the requested filter |
| Catalogue.ListingPageOrdered | index.js:156-166 | the page is ordered by price, ascending exactly when `sort` is `"asc"` |
| Catalogue.ListingPageWindow | index.js:159-167 | the page is the sorted matches after skipping `(page - 1) * limit`; with a positive limit it is at most `limit` long, and full whenever enough matches remain |
| Catalogue.TotalIgnoresPaging | index.js:169 | `totalProducts` is the number of matches and does not depend on `sort`, `page` or `limit` |
| Catalogue.BrandFacet | index.js:171-175 | `brands` holds every brand of the catalogue, only those, and none twice |
| Catalogue.CategoryFacet | index.js:171-176 | `categories` holds every category of the catalogue, only those, and none twice |
| Catalogue.FacetsIgnoreQuery | index.js:171-176 | the facets are those of the whole catalogue, whatever the query |
| CatalogueExample.PhonesAllMatch | index.js:149 | every phone of the example matches the category pattern `"phone"` |
| CatalogueExample.CheapestTwoFirst | index.js:166 | in ascending order, a unique cheapest product and the only other product at or below the second price open the sorted sequence |
| CatalogueExample.PhonesSortedPrefix | index.js:166 | the phones priced 100 and 150 open the ascending order |
| CatalogueExample.PhoneListing | index.js:138-183 | five phones priced 100, 300, 200, 400, 150, category `"phone"`, `sort=asc`, page 1, limit 2 list the phones priced 100 and 150, with total 5 |
| Text.Split | index.js:29 | `split(" ")` gives at least one piece, no piece holds the separator, and joining the pieces gives back the string |
| Text.SplitJoin | index.js:29 | splitting the join of separator-free pieces gives back those pieces |
| Auth.BearerToken | index.js:24-29 | a missing or empty header gives no token; otherwise the token is the second space-separated piece, found after a space-free scheme and one space; with no space in the header there is no second piece |
| Auth.BearerRoundTrip | index.js:29 | the header `"<scheme> <token>"` with space-free parts yields exactly `token` |
| Auth.NoSpaceNoToken | index.js:29 | a non-empty header without a space has no second piece |
| Auth.VerifyRequest | index.js:23-38 | "No token" exactly when the header is missing or empty; the request passes exactly when there is a non-empty token and the library accepts it, with the email the library decodes; otherwise "Invalid token!", including a missing or empty second piece, which the library rejects without decoding |
| Auth.EmptyTokenInvalid | index.js:29-34 | `Bearer ` and `Bearer` are "Invalid token!" whatever the library would decide |
| Accounts.FindUser | index.js:44-45 | `findOne` returns the first user with the key, or nothing exactly when no user has it |
| Accounts.FoundByEmailIsUnique | index.js:204-206 | with unique emails, the user found by email is the only one with that email |
| Accounts.AddToSet | index.js:101-106 | `$addToSet` leaves the product in the wishlist, adds nothing else, changes nothing when the product is already there, keeps the existing entries in front, and keeps a duplicate-free wishlist duplicate-free |
| Accounts.AddToSetOnce | index.js:101-106 | after `$addToSet` on a duplicate-free wishlist the product occurs exactly once |
| Accounts.AddToSetIdempotent | index.js:106 | adding the same product twice is adding it once |
| Accounts.Pull | index.js:118-123 | `$pull` removes the product and nothing else, and changes nothing when it is absent |
| Accounts.PullLength | index.js:123 | `$pull` shortens the wishlist by exactly the number of occurrences of the product |
| Accounts.PullNoDuplicates | index.js:118-123 | `$pull` keeps a duplicate-free wishlist duplicate-free |
| Accounts.PullAppend | index.js:123 | `$pull` keeps the relative order of what remains: it distributes over concatenation |
| Accounts.PullKeepsOthers | index.js:123 | every other product occurs as often after `$pull` as before |
| Accounts.PullIdempotent | index.js:123 | pulling twice is pulling once |
| Accounts.PullUndoesAdd | index.js:101-123 | removing a product just added to a wishlist that lacked it restores the wishlist |
| Accounts.SellerGateAsWritten | index.js:42-50 | the gate as written throws exactly when no user has the email, and otherwise answers Forbidden or Allowed |
| Accounts.SellerGateThrowsOnMissingUser | index.js:45-46 | a token for an unregistered email makes the gate as written throw, where the corrected gate answers "no such user" |
| Accounts.SellerGate | index.js:42-50 | the corrected gate answers "no such user" exactly when no user has the email, and otherwise agrees with the gate as written |
| Accounts.SellerGateMeaning | index.js:42-50 | with unique emails the gate opens exactly for a registered user whose role is `"seller"` |
| Accounts.WithIds | index.js:82-87 | `find({ _id: { $in: ids } })` returns exactly the products whose id is on the list |
| Accounts.WithIdsAppend | index.js:82-87 | the `$in` read returns the matching products once each, in storage order: it distributes over concatenation |
| Accounts.GetWishlist | index.js:73-92 | "user not found!" exactly when no user has the id; otherwise exactly the catalogue products whose id is on that user's wishlist |
| Accounts.EmptyWishlistReadsEmpty | index.js:85 | an empty or absent wishlist reads as no products |
| Users.UserCollection.constructor | index.js:64 | an empty collection satisfies the invariant; the stored collection the source opens may hold anything that does, and every method's contract holds for any valid state |
| Users.UserCollection.AddToWishlist | index.js:96-109 | an unknown email changes nothing and reports 0 matched; otherwise only the found user's wishlist becomes `$addToSet` of it, reporting 1 matched and 1 modified exactly when the product was absent; afterwards the product occurs exactly once on the wishlist of the user with that email; the invariant is kept |
| Users.UserCollection.RemoveFromWishlist | index.js:113-126 | an unknown email changes nothing and reports 0 matched; otherwise only the found user's wishlist becomes `$pull` of it, reporting 1 modified exactly when the product was present; afterwards the product is on no wishlist of a user with that email; the invariant is kept |
| Users.UserCollection.Register | index.js:201-212 | a registered email reports "already exist" and leaves the collection unchanged; a new one appends exactly one user with a fresh id, that email and role and no wishlist; emails stay unique and the email is registered afterwards |
| Users.RegisterTwice | index.js:201-212 | registering one email twice creates it once and then reports "already exist", leaving one user |
| Users.AddTwice | index.js:96-109 | adding one product twice leaves it on the wishlist once, and the second update modifies nothing |

## Left out

- Express, `cors`, `dotenv`, `app.listen`, `GET /` and the reply plumbing (`res.send`, `res.json`) are framework I/O. The handlers' results are the methods' return values. The status arguments passed to `res.send` at index.js:207 and index.js:211 are not a valid use of that call and have no counterpart.
- The `MongoClient` connection, its error handling and the `async`/`await` sequencing are a network client. The collections are in-memory sequences.
- Signing and verifying JSON Web Tokens (index.js:32-38 and `POST /authentication` at index.js:222-226) are cryptography inside a library. `Auth.VerifyRequest` takes the library's verdict as the function `verify`. Expiry and the secret are part of that function.
- `$regex` is modelled as a case-insensitive substring match with an ASCII case fold. A pattern holding regular-expression metacharacters is matched literally, which is not what MongoDB does. Non-ASCII case folding is not modelled.
- Catalogue.AllProducts: requires `page >= 1`. With a positive limit, a page of 0 or below gives a negative skip, which MongoDB rejects with an error; that error path is not modelled. With `limit=0`, a page of 0 or below gives a skip of zero (`-1 * 0` is `-0`), so the source lists every match; the model leaves that case out as well. `limit=0` is modelled as MongoDB reads it, as no limit. A negative limit, which MongoDB reads as a single batch of that many documents, is not modelled, because a limit is a `nat` here. `NaN` from absent or non-numeric `page` or `limit` text is not modelled either.
- Catalogue.ConsecutivePages: requires a positive limit. It also rests on the fixed tie order of `Catalogue.SortByPrice`: equal prices keep storage order in every request. MongoDB leaves the order of ties unspecified, and two requests with different skips may order ties differently, so in the source products of equal price can repeat on two pages or be missing from both. The lemma does not cover that.
- Catalogue.SortByPrice: products of equal price keep storage order. MongoDB leaves the order of ties unspecified, so the model fixes one of the orders MongoDB may return.
- Users.UserCollection.Register: the existence check and the insert are one step here. Two concurrent registrations of one email can both insert in the source; concurrency is not modelled.
- Users.UserCollection.Register: index.js:210 inserts `req.body` exactly as the client sent it. The model stores a new user as its email, the role given, a fresh id chosen by the collection and an empty wishlist. A client-chosen `_id` (which may clash with an existing one), a client-supplied wishlist (which may hold duplicates) and any other body fields are outside the model. The role is taken as the client gives it, as in the source, so a client may register itself as "seller"; the model does not restrict that either. The unique ids and duplicate-free wishlists of `Accounts.TableInvariant` rest on this replacement and do not hold of the source's collection in general. A body without an email is not modelled either.
- `ObjectId` parsing of ids, and its failure on malformed text, is not modelled. Ids are `nat`.
- `POST /add-porduct` (index.js:187-191) inserts an arbitrary request body, and `GET /user/:email` (index.js:194-198) is a single `findOne`. Neither is modelled beyond `Accounts.FindUser` and the seller gate that guards the insert.
- Users.UserCollection.AddToWishlist: the wishlist field of a user is always present. An absent field is the empty wishlist, which `$addToSet` and `$pull` treat the same way.

## Findings

| source | as written | input that shows it | evidently intended | confidence | as-written member | corrected member |
|---|---|---|---|---|---|---|
| index.js:45-46 | `verifySeller` reads `user.role` from the result of `findOne` without checking that a user was found | a valid token whose email belongs to no user, for example an empty user collection and email `a@x.com` | answer that the user does not exist, as the wishlist read does for an unknown id | high, not executed | Accounts.SellerGateAsWritten | Accounts.SellerGate |
