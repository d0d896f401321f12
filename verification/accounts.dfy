/**
 * The user records and the pure operations on them: lookup by email or id,
 * the array operators `$addToSet` and `$pull` applied to a wishlist, the
 * seller role gate `verifySeller`, and the wishlist read of
 * `GET /wishlist/:userId`.
 */
module Accounts {
  import opened Common
  import opened Catalogue

  type UserId = nat

  /** A user document; an absent `wishlist` field is the empty sequence. */
  datatype User = User(id: UserId, email: string, role: string, wishlist: seq<ProductId>)

  /** The role value that `verifySeller` lets through. */
  const SellerRole: string := "seller"

  /** The field a `findOne` query matches on. */
  datatype Key = ByEmail(email: string) | ById(id: UserId)

  predicate HasKey(u: User, key: Key) {
    match key
    case ByEmail(e) => u.email == e
    case ById(i) => u.id == i
  }

  /** `findOne(query)`: the position of the first user matching `key`, if any. */
  function FindUser(users: seq<User>, key: Key): (r: Option<nat>)
    ensures r.Some? ==> r.value < |users| && HasKey(users[r.value], key)
    ensures r.Some? ==> forall j :: 0 <= j < r.value ==> !HasKey(users[j], key)
    ensures r.None? <==> forall j :: 0 <= j < |users| ==> !HasKey(users[j], key)
  {
    if users == [] then None
    else if HasKey(users[0], key) then Some(0)
    else
      match FindUser(users[1..], key)
      case None => None
      case Some(i) => Some(i + 1)
  }

  /** No two users share an email. */
  predicate EmailsUnique(users: seq<User>) {
    forall i, j :: 0 <= i < j < |users| ==> users[i].email != users[j].email
  }

  /**
   * What the user collection keeps: unique emails, ids below the next one
   * to hand out (so ids are fresh), unique ids, and wishlists that hold each
   * product at most once.
   */
  predicate TableInvariant(users: seq<User>, nextId: nat) {
    EmailsUnique(users) &&
    (forall i, j :: 0 <= i < j < |users| ==> users[i].id != users[j].id) &&
    (forall i :: 0 <= i < |users| ==> users[i].id < nextId && NoDuplicates(users[i].wishlist))
  }

  /** With unique emails, the user found by email is the only one with that email. */
  lemma FoundByEmailIsUnique(users: seq<User>, email: string)
    requires EmailsUnique(users)
    requires FindUser(users, ByEmail(email)).Some?
    ensures forall j :: 0 <= j < |users| && users[j].email == email ==> j == FindUser(users, ByEmail(email)).value
  {
  }

  /** `$addToSet`: append `p` unless it is already present. */
  function AddToSet(w: seq<ProductId>, p: ProductId): (r: seq<ProductId>)
    ensures p in r
    ensures forall x :: x in r <==> x in w || x == p
    ensures p in w ==> r == w
    ensures |w| <= |r| && r[..|w|] == w
    ensures NoDuplicates(w) ==> NoDuplicates(r)
  {
    if p in w then w else w + [p]
  }

  /** After `$addToSet` on a duplicate-free wishlist the product occurs exactly once. */
  lemma AddToSetOnce(w: seq<ProductId>, p: ProductId)
    requires NoDuplicates(w)
    ensures Occurrences(AddToSet(w, p), p) == 1
  {
    OccursOnce(AddToSet(w, p), p);
  }

  /** Adding the same product twice is adding it once. */
  lemma AddToSetIdempotent(w: seq<ProductId>, p: ProductId)
    ensures AddToSet(AddToSet(w, p), p) == AddToSet(w, p)
  {
  }

  /** `$pull`: remove every occurrence of `p`, keeping the rest in order. */
  function Pull(w: seq<ProductId>, p: ProductId): (r: seq<ProductId>)
    ensures forall x :: x in r <==> x in w && x != p
    ensures p !in w ==> r == w
  {
    if w == [] then []
    else
      var rest := Pull(w[1..], p);
      assert w == [w[0]] + w[1..];
      if w[0] == p then rest else [w[0]] + rest
  }

  /** `$pull` shortens the wishlist by the number of occurrences it removes. */
  lemma {:induction false} PullLength(w: seq<ProductId>, p: ProductId)
    ensures |Pull(w, p)| == |w| - Occurrences(w, p)
  {
    if w != [] {
      PullLength(w[1..], p);
    }
  }

  /** `$pull` keeps a duplicate-free wishlist duplicate-free. */
  lemma {:induction false} PullNoDuplicates(w: seq<ProductId>, p: ProductId)
    requires NoDuplicates(w)
    ensures NoDuplicates(Pull(w, p))
  {
    if w != [] {
      assert w == [w[0]] + w[1..];
      assert NoDuplicates(w[1..]);
      PullNoDuplicates(w[1..], p);
      assert w[0] !in w[1..];
    }
  }

  /** `$pull` keeps the relative order of what it leaves: it distributes over concatenation. */
  lemma {:induction false} PullAppend(a: seq<ProductId>, b: seq<ProductId>, p: ProductId)
    ensures Pull(a + b, p) == Pull(a, p) + Pull(b, p)
  {
    if a == [] {
      assert a + b == b;
    } else {
      assert (a + b)[0] == a[0];
      assert (a + b)[1..] == a[1..] + b;
      PullAppend(a[1..], b, p);
    }
  }

  /** `$pull` leaves every other product's number of occurrences as it was. */
  lemma {:induction false} PullKeepsOthers(w: seq<ProductId>, p: ProductId, x: ProductId)
    requires x != p
    ensures Occurrences(Pull(w, p), x) == Occurrences(w, x)
  {
    if w != [] {
      PullKeepsOthers(w[1..], p, x);
      if w[0] != p {
        assert ([w[0]] + Pull(w[1..], p))[1..] == Pull(w[1..], p);
      }
    }
  }

  /** Pulling twice is pulling once. */
  lemma PullIdempotent(w: seq<ProductId>, p: ProductId)
    ensures Pull(Pull(w, p), p) == Pull(w, p)
  {
  }

  /** Removing a product just added to a wishlist that lacked it restores the wishlist. */
  lemma PullUndoesAdd(w: seq<ProductId>, p: ProductId)
    requires p !in w
    ensures Pull(AddToSet(w, p), p) == w
  {
    PullAppend(w, [p], p);
    assert Pull([p], p) == [];
  }

  /** Outcome of `verifySeller`. */
  datatype Gate = Allowed | Forbidden | NoSuchUser

  /**
   * `verifySeller` as written: `user.role` on a missing user throws, which
   * the model shows as `None`.
   */
  function SellerGateAsWritten(users: seq<User>, email: string): (r: Option<Gate>)
    ensures r.None? <==> FindUser(users, ByEmail(email)).None?
    ensures r.Some? ==> r.value != NoSuchUser
  {
    match FindUser(users, ByEmail(email))
    case None => None
    case Some(i) => Some(if users[i].role != SellerRole then Forbidden else Allowed)
  }

  /** A request whose token names an unregistered email makes `verifySeller` throw. */
  lemma SellerGateThrowsOnMissingUser()
    ensures SellerGateAsWritten([], "a@x.com") == None
    ensures SellerGate([], "a@x.com") == NoSuchUser
  {
  }

  /** `verifySeller` with the missing-user case answered instead of thrown. */
  function SellerGate(users: seq<User>, email: string): (g: Gate)
    ensures g == NoSuchUser <==> forall j :: 0 <= j < |users| ==> users[j].email != email
    ensures FindUser(users, ByEmail(email)).Some? ==> SellerGateAsWritten(users, email) == Some(g)
  {
    match FindUser(users, ByEmail(email))
    case None => NoSuchUser
    case Some(i) => if users[i].role != SellerRole then Forbidden else Allowed
  }

  /** With unique emails, the gate opens exactly for a registered user whose role is "seller". */
  lemma SellerGateMeaning(users: seq<User>, email: string)
    requires EmailsUnique(users)
    ensures SellerGate(users, email) == Allowed <==>
      exists j :: 0 <= j < |users| && users[j].email == email && users[j].role == SellerRole
  {
    if SellerGate(users, email) != NoSuchUser {
      FoundByEmailIsUnique(users, email);
    }
  }

  /** The products whose id is in `ids`, in storage order (`find({ _id: { $in: ids } })`). */
  function WithIds(products: seq<Product>, ids: seq<ProductId>): (r: seq<Product>)
    ensures forall p :: p in r <==> p in products && p.id in ids
    ensures |r| <= |products|
  {
    if products == [] then []
    else (if products[0].id in ids then [products[0]] else []) + WithIds(products[1..], ids)
  }

  /** The `$in` read keeps storage order: it distributes over concatenation. */
  lemma {:induction false} WithIdsAppend(a: seq<Product>, b: seq<Product>, ids: seq<ProductId>)
    ensures WithIds(a + b, ids) == WithIds(a, ids) + WithIds(b, ids)
  {
    if a == [] {
      assert a + b == b;
    } else {
      assert (a + b)[0] == a[0];
      assert (a + b)[1..] == a[1..] + b;
      WithIdsAppend(a[1..], b, ids);
    }
  }

  /** `items` are exactly the catalogue products whose id is in `ids`. */
  ghost predicate WishlistRead(items: seq<Product>, products: seq<Product>, ids: seq<ProductId>) {
    forall p :: p in items <==> p in products && p.id in ids
  }

  /** `GET /wishlist/:userId`: `None` is the "user not found!" reply. */
  function GetWishlist(users: seq<User>, products: seq<Product>, userId: UserId): (r: Option<seq<Product>>)
    ensures r.None? <==> forall j :: 0 <= j < |users| ==> users[j].id != userId
    ensures r.Some? ==>
              exists j :: 0 <= j < |users| && users[j].id == userId && WishlistRead(r.value, products, users[j].wishlist)
  {
    match FindUser(users, ById(userId))
    case None => None
    case Some(i) => Some(WithIds(products, users[i].wishlist))
  }

  /** An empty wishlist reads as no products. */
  lemma {:induction false} EmptyWishlistReadsEmpty(products: seq<Product>)
    ensures WithIds(products, []) == []
  {
    if products != [] {
      EmptyWishlistReadsEmpty(products[1..]);
    }
  }
}
