/**
 * Properties of the server's domain logic: authentication, the clip round
 * trip, overwrite and frame, the read-authorization rule and its precedence
 * over the clip lookup, the effects of adding a friend and of registering,
 * and the invariant every request keeps.
 */
module DomainProperties {
  import opened Domain

  // ----- Authentication -----

  /** A key resolves to exactly the user whose api_key equals it. */
  lemma AuthenticatesKeyOwner(t: Tables, apiKey: ApiKey, user: UserId)
    requires UniqueKeys(t.users)
    ensures CurrentUser(t, apiKey) == Ok(user) <==> user in t.users && t.users[user] == apiKey
  {
    if user in t.users && t.users[user] == apiKey {
      var r := CurrentUser(t, apiKey);
      assert r.value == user;
    }
  }

  /** Every endpoint answers 401 exactly when the key belongs to nobody, and
      then no handler runs: the tables are left as they were. */
  lemma UnknownKeyIsUnauthorized(t: Tables, apiKey: ApiKey, request: Request)
    requires UniqueKeys(t.users)
    ensures Serve(t, apiKey, request).0 == Err(Unauthorized) <==> apiKey !in t.users.Values
    ensures Serve(t, apiKey, request).0.Err? && Serve(t, apiKey, request).0.status.Code() == 401 <==>
            apiKey !in t.users.Values
    ensures apiKey !in t.users.Values ==> Serve(t, apiKey, request).1 == t
  {
  }

  // ----- Clips -----

  /** After an owner puts content into a bucket, the owner reads exactly that
      content back, with no friendship needed. */
  lemma PutThenGetOwn(t: Tables, owner: UserId, bucket: Bucket, content: Content)
    ensures GetClip(PutClip(t, owner, bucket, content), owner, owner, bucket) == Ok(ClipContent(content))
  {
  }

  /** The same round trip through the endpoints, with one API key. */
  lemma ServePutThenGet(t: Tables, apiKey: ApiKey, bucket: Bucket, content: Content)
    requires UniqueKeys(t.users)
    requires apiKey in t.users.Values
    ensures var owner := CurrentUser(t, apiKey).value;
            var (put, t') := Serve(t, apiKey, PutClipRequest(bucket, content));
            put == Ok(Success) &&
            UniqueKeys(t'.users) &&
            Serve(t', apiKey, GetClipRequest(owner, bucket)).0 == Ok(ClipContent(content))
  {
    var owner := CurrentUser(t, apiKey).value;
    var t' := PutClip(t, owner, bucket, content);
    assert t'.users == t.users;
    assert CurrentUser(t', apiKey) == Ok(owner) by {
      AuthenticatesKeyOwner(t', apiKey, owner);
    }
  }

  /** A second put to the same (owner, bucket) replaces the content: the
      tables are as if only the second put had happened. */
  lemma PutOverwrites(t: Tables, owner: UserId, bucket: Bucket, first: Content, second: Content)
    ensures PutClip(PutClip(t, owner, bucket, first), owner, bucket, second) == PutClip(t, owner, bucket, second)
  {
  }

  /** A put changes the one clip at (owner, bucket) and nothing else. */
  lemma PutFrame(t: Tables, owner: UserId, bucket: Bucket, content: Content)
    ensures var t' := PutClip(t, owner, bucket, content);
            && t'.users == t.users
            && t'.friendships == t.friendships
            && t'.clips.Keys == t.clips.Keys + {(owner, bucket)}
            && forall key :: key in t.clips && key != (owner, bucket) ==> t'.clips[key] == t.clips[key]
  {
  }

  /** Reading a clip never changes the tables. */
  lemma GetLeavesTablesUnchanged(t: Tables, apiKey: ApiKey, owner: UserId, bucket: Bucket)
    requires UniqueKeys(t.users)
    ensures Serve(t, apiKey, GetClipRequest(owner, bucket)).1 == t
  {
  }

  // ----- Authorization -----

  /** Without a friendship edge in either direction another user's clip is
      forbidden (403), whatever the clips table holds, so whether or not the
      clip exists, and whether or not the owner is registered: 403 takes
      precedence over 404. */
  lemma ForbiddenBeforeNotFound(t: Tables, requester: UserId, owner: UserId, bucket: Bucket,
                                clips: map<(UserId, Bucket), Content>)
    requires requester != owner
    requires (requester, owner) !in t.friendships && (owner, requester) !in t.friendships
    ensures GetClip(t.(clips := clips), requester, owner, bucket) == Err(Forbidden)
    ensures GetClip(t.(clips := clips), requester, owner, bucket).status.Code() == 403
  {
  }

  /** An authorized requester gets 404 exactly when there is no clip. */
  lemma AuthorizedMissingIsNotFound(t: Tables, requester: UserId, owner: UserId, bucket: Bucket)
    requires MayRead(t, requester, owner)
    ensures GetClip(t, requester, owner, bucket) == Err(NotFound) <==> (owner, bucket) !in t.clips
  {
  }

  // ----- Friendships -----

  /** The outcome of adding a friend: 400 for oneself, 404 for an
      unregistered id, a refused commit for an edge already stored, and
      otherwise exactly the one directed edge (user, friendId) is added.
      Every failure leaves the tables unchanged. */
  lemma AddFriendOutcome(t: Tables, user: UserId, friendId: UserId)
    ensures var (r, t') := AddFriend(t, user, friendId);
            && (r == Err(BadRequest) <==> friendId == user)
            && (r == Err(NotFound) <==> friendId != user && friendId !in t.users)
            && (r == Err(IntegrityError) <==> friendId != user && friendId in t.users && (user, friendId) in t.friendships)
            && (r.Ok? <==> friendId != user && friendId in t.users && (user, friendId) !in t.friendships)
            && (r.Err? ==> t' == t && r.status.Code() in {400, 404, 500})
            && (r.Ok? ==> r.value == Success && t' == t.(friendships := t.friendships + {(user, friendId)}))
  {
  }

  /** Adding B as A's friend stores only the edge (A, B), yet afterwards A
      reads B's clips and B reads A's. */
  lemma AddFriendGrantsBothDirections(t: Tables, a: UserId, b: UserId, bucket: Bucket)
    requires AddFriend(t, a, b).0.Ok?
    ensures var t' := AddFriend(t, a, b).1;
            && (b, a) !in t'.friendships - t.friendships
            && MayRead(t', a, b) && MayRead(t', b, a)
            && ((b, bucket) in t.clips ==> GetClip(t', a, b, bucket) == Ok(ClipContent(t.clips[(b, bucket)])))
            && ((a, bucket) in t.clips ==> GetClip(t', b, a, bucket) == Ok(ClipContent(t.clips[(a, bucket)])))
  {
    var t' := AddFriend(t, a, b).1;
    assert (a, b) in t'.friendships;
    assert a != b;
  }

  // ----- Registration -----

  /** A registration succeeds exactly when id and key are both new; the new
      key then resolves to the new user and every old key to its old user. */
  lemma RegisterThenAuthenticate(t: Tables, userId: UserId, apiKey: ApiKey)
    requires UniqueKeys(t.users)
    ensures var (r, t') := Register(t, userId, apiKey);
            && (r.Ok? <==> userId !in t.users && apiKey !in t.users.Values)
            && (r.Err? ==> r.status == IntegrityError && t' == t)
            && UniqueKeys(t'.users)
            && (r.Ok? ==> CurrentUser(t', apiKey) == Ok(userId))
            && (forall key :: key in t.users.Values ==> CurrentUser(t', key) == CurrentUser(t, key))
  {
    var (r, t') := Register(t, userId, apiKey);
    if r.Ok? {
      AuthenticatesKeyOwner(t', apiKey, userId);
      forall key | key in t.users.Values
        ensures CurrentUser(t', key) == CurrentUser(t, key)
      {
        var owner := CurrentUser(t, key).value;
        AuthenticatesKeyOwner(t', key, owner);
      }
    }
  }

  /** Registration keeps the tables valid. */
  lemma RegisterPreservesValid(t: Tables, userId: UserId, apiKey: ApiKey)
    requires Valid(t)
    ensures Valid(Register(t, userId, apiKey).1)
  {
    RegisterThenAuthenticate(t, userId, apiKey);
  }

  // ----- The invariant -----

  /** Every request keeps the tables valid: keys stay unique, every
      friendship endpoint and every clip owner stays a registered user, and no
      user becomes their own friend. */
  lemma ServePreservesValid(t: Tables, apiKey: ApiKey, request: Request)
    requires Valid(t)
    ensures Valid(Serve(t, apiKey, request).1)
  {
    match CurrentUser(t, apiKey)
    case Err(_) =>
    case Ok(user) =>
      assert user in t.users;
  }
}
