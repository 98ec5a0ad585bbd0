/**
 * The database behind the server, as an object whose three tables the
 * request handlers update in place. Each method is one request handled in
 * one transaction: it either commits all of its change or none of it.
 */
module Service {
  import opened Domain
  import DomainProperties

  class Store {
    var users: map<UserId, ApiKey>
    var friendships: set<(UserId, UserId)>
    var clips: map<(UserId, Bucket), Content>

    /** The rows currently committed. */
    function Snapshot(): Tables
      reads this
    {
      Tables(users, friendships, clips)
    }

    ghost predicate Valid()
      reads this
    {
      Domain.Valid(Snapshot())
    }

    /** Creates the three tables, empty. */
    constructor ()
      ensures Valid()
      ensures Snapshot() == EmptyTables
    {
      users, friendships, clips := map[], {}, map[];
    }

    /** PUT /clip/{bucket}: authenticate, then update the caller's clip in
        place when the row exists and insert it when it does not. */
    method PutClip(apiKey: ApiKey, bucket: Bucket, content: Content) returns (r: Response)
      requires Valid()
      modifies this
      ensures Valid()
      ensures (r, Snapshot()) == Serve(old(Snapshot()), apiKey, PutClipRequest(bucket, content))
      ensures r.Err? ==> r == Err(Unauthorized) && Snapshot() == old(Snapshot())
      ensures r.Ok? ==> users == old(users) && friendships == old(friendships)
    {
      ghost var before := Snapshot();
      var current := CurrentUser(Snapshot(), apiKey);
      if current.Err? {
        return Err(current.status);
      }
      // One map update both replaces the content of an existing row and adds
      // a missing one.
      clips := clips[(current.value, bucket) := content];
      r := Ok(Success);
      DomainProperties.ServePreservesValid(before, apiKey, PutClipRequest(bucket, content));
    }

    /** GET /clip/{owner}/{bucket}: authenticate, then read the committed
        tables. Nothing is written. */
    method GetClip(apiKey: ApiKey, owner: UserId, bucket: Bucket) returns (r: Response)
      requires UniqueKeys(users)
      ensures r == Serve(Snapshot(), apiKey, GetClipRequest(owner, bucket)).0
      ensures r.Ok? <==> apiKey in users.Values &&
                         MayRead(Snapshot(), CurrentUser(Snapshot(), apiKey).value, owner) &&
                         (owner, bucket) in clips
    {
      var current := CurrentUser(Snapshot(), apiKey);
      if current.Err? {
        return Err(current.status);
      }
      r := Domain.GetClip(Snapshot(), current.value, owner, bucket);
    }

    /** POST /users/add/{friendId}: authenticate, refuse oneself, refuse an
        unknown id, then insert the directed edge, which the commit refuses
        when the same edge is already stored. */
    method AddFriend(apiKey: ApiKey, friendId: UserId) returns (r: Response)
      requires Valid()
      modifies this
      ensures Valid()
      ensures (r, Snapshot()) == Serve(old(Snapshot()), apiKey, AddFriendRequest(friendId))
      ensures r.Err? ==> Snapshot() == old(Snapshot())
      ensures users == old(users) && clips == old(clips)
    {
      ghost var before := Snapshot();
      var current := CurrentUser(Snapshot(), apiKey);
      if current.Err? {
        return Err(current.status);
      }
      var user := current.value;
      if friendId == user {
        return Err(BadRequest);
      }
      if friendId !in users {
        return Err(NotFound);
      }
      var edge := (user, friendId);
      if edge in friendships {
        return Err(IntegrityError);
      }
      friendships := friendships + {edge};
      r := Ok(Success);
      DomainProperties.ServePreservesValid(before, apiKey, AddFriendRequest(friendId));
    }

    /** The store side of registration: insert the user row with the key the
        client generated; a duplicate id or key makes the commit fail. */
    method Register(userId: UserId, apiKey: ApiKey) returns (r: Response)
      requires Valid()
      modifies this
      ensures Valid()
      ensures (r, Snapshot()) == Domain.Register(old(Snapshot()), userId, apiKey)
      ensures r.Ok? ==> CurrentUser(Snapshot(), apiKey) == Ok(userId)
      ensures friendships == old(friendships) && clips == old(clips)
    {
      ghost var before := Snapshot();
      if userId in users || apiKey in users.Values {
        return Err(IntegrityError);
      }
      users := users[userId := apiKey];
      r := Ok(Success);
      DomainProperties.RegisterThenAuthenticate(before, userId, apiKey);
      DomainProperties.RegisterPreservesValid(before, userId, apiKey);
    }
  }
}
