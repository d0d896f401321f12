/**
 * The user collection and the handlers that change it in place:
 * `PATCH /wishlist/add` (`updateOne` with `$addToSet`),
 * `PATCH /wishlist/remove` (`updateOne` with `$pull`) and `POST /users`
 * (`findOne` then `insertOne`). Documents are kept in insertion order; ids
 * are handed out by the collection.
 */
module Users {
  import opened Common
  import opened Catalogue
  import opened Accounts

  /** What `updateOne` reports: documents matched by the filter and documents changed. */
  datatype UpdateResult = UpdateResult(matchedCount: nat, modifiedCount: nat)

  /** What `POST /users` reports. */
  datatype Registration = AlreadyExists | Created(insertedId: UserId)

  class UserCollection {
    var users: seq<User>
    var nextId: nat

    ghost predicate Valid()
      reads this
    {
      TableInvariant(users, nextId)
    }

    constructor ()
      ensures Valid() && users == [] && nextId == 0
    {
      users := [];
      nextId := 0;
    }

    /**
     * `updateOne({ email }, { $addToSet: { wishlist: productId } })`: the
     * user with that email gets the product appended unless it is already
     * there; nobody else changes, and an unknown email changes nothing.
     */
    method AddToWishlist(email: string, productId: ProductId) returns (result: UpdateResult)
      requires Valid()
      modifies this
      ensures Valid() && nextId == old(nextId)
      ensures match FindUser(old(users), ByEmail(email))
              case None => users == old(users) && result == UpdateResult(0, 0)
              case Some(i) =>
                users == old(users)[i := old(users)[i].(wishlist := AddToSet(old(users)[i].wishlist, productId))] &&
                result == UpdateResult(1, if productId in old(users)[i].wishlist then 0 else 1)
      ensures forall j :: 0 <= j < |users| && users[j].email == email ==> Occurrences(users[j].wishlist, productId) == 1
    {
      var found := FindUser(users, ByEmail(email));
      if found.None? {
        return UpdateResult(0, 0);
      }
      var i := found.value;
      var user := users[i];
      FoundByEmailIsUnique(users, email);
      AddToSetOnce(user.wishlist, productId);
      if productId in user.wishlist {
        result := UpdateResult(1, 0);
      } else {
        users := users[i := user.(wishlist := user.wishlist + [productId])];
        result := UpdateResult(1, 1);
      }
    }

    /**
     * `updateOne({ email }, { $pull: { wishlist: productId } })`: every
     * occurrence of the product leaves that user's wishlist; nobody else
     * changes, and an unknown email changes nothing.
     */
    method RemoveFromWishlist(email: string, productId: ProductId) returns (result: UpdateResult)
      requires Valid()
      modifies this
      ensures Valid() && nextId == old(nextId)
      ensures match FindUser(old(users), ByEmail(email))
              case None => users == old(users) && result == UpdateResult(0, 0)
              case Some(i) =>
                users == old(users)[i := old(users)[i].(wishlist := Pull(old(users)[i].wishlist, productId))] &&
                result == UpdateResult(1, if productId in old(users)[i].wishlist then 1 else 0)
      ensures forall j :: 0 <= j < |users| && users[j].email == email ==> productId !in users[j].wishlist
    {
      var found := FindUser(users, ByEmail(email));
      if found.None? {
        return UpdateResult(0, 0);
      }
      var i := found.value;
      var user := users[i];
      FoundByEmailIsUnique(users, email);
      PullNoDuplicates(user.wishlist, productId);
      users := users[i := user.(wishlist := Pull(user.wishlist, productId))];
      result := UpdateResult(1, if productId in user.wishlist then 1 else 0);
    }

    /**
     * `POST /users`: a registered email leaves the collection as it is and
     * is reported; a new one is inserted with a fresh id and no wishlist.
     */
    method Register(email: string, role: string) returns (outcome: Registration)
      requires Valid()
      modifies this
      ensures Valid()
      ensures FindUser(old(users), ByEmail(email)).Some? ==>
                outcome == AlreadyExists && users == old(users) && nextId == old(nextId)
      ensures FindUser(old(users), ByEmail(email)).None? ==>
                outcome == Created(old(nextId)) &&
                users == old(users) + [User(old(nextId), email, role, [])] &&
                nextId == old(nextId) + 1
      ensures exists j :: 0 <= j < |users| && users[j].email == email
    {
      var existing := FindUser(users, ByEmail(email));
      if existing.Some? {
        return AlreadyExists;
      }
      var user := User(nextId, email, role, []);
      users := users + [user];
      outcome := Created(nextId);
      nextId := nextId + 1;
      assert users[|users| - 1].email == email;
    }
  }

  /** Registering one email twice: the second call reports it and the collection holds one user. */
  method RegisterTwice() returns (first: Registration, second: Registration, count: nat)
    ensures first == Created(0) && second == AlreadyExists && count == 1
  {
    var c := new UserCollection();
    first := c.Register("a@x.com", "seller");
    second := c.Register("a@x.com", "user");
    count := |c.users|;
  }

  /** Adding product 7 twice to an empty wishlist leaves it holding product 7 once. */
  method AddTwice() returns (once: seq<ProductId>, twice: seq<ProductId>, second: UpdateResult)
    ensures once == [7] && twice == [7] && second == UpdateResult(1, 0)
  {
    var c := new UserCollection();
    var _ := c.Register("a@x.com", "user");
    var _ := c.AddToWishlist("a@x.com", 7);
    once := c.users[0].wishlist;
    second := c.AddToWishlist("a@x.com", 7);
    twice := c.users[0].wishlist;
  }
}
