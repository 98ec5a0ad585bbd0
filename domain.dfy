/**
 * The server's domain logic: the three tables of the clip store, the API-key
 * lookup that guards every endpoint, and the three endpoint handlers, with the
 * SQL session and the HTTP framework taken away. Every handler is one atomic
 * step from a snapshot of the tables to a response and the next snapshot.
 */
module Domain {

  type UserId = string
  type ApiKey = string
  type Bucket = string
  type Content = string

  /** The failures a request can end in. */
  datatype Status =
    | BadRequest       // a user tried to add themselves as a friend
    | Unauthorized     // the presented API key belongs to nobody
    | Forbidden        // neither the owner nor a friend in either direction
    | NotFound         // unknown friend id, or no clip under (owner, bucket)
    | IntegrityError   // the store refused a duplicate key when committing
  {
    /** The HTTP status code the server answers with. An integrity error is an
        uncaught exception, which the framework turns into a server error. */
    function Code(): int {
      match this
      case BadRequest => 400
      case Unauthorized => 401
      case Forbidden => 403
      case NotFound => 404
      case IntegrityError => 500
    }
  }

  datatype Result<T> = Ok(value: T) | Err(status: Status)

  /** The JSON bodies of successful responses. */
  datatype Reply = Success | ClipContent(content: Content)

  type Response = Result<Reply>

  /** Snapshot of the three tables.
      users:       primary key id, column api_key
      friendships: composite primary key (user_id, friend_id)
      clips:       composite primary key (owner_id, bucket), column content */
  datatype Tables = Tables(
    users: map<UserId, ApiKey>,
    friendships: set<(UserId, UserId)>,
    clips: map<(UserId, Bucket), Content>)

  /** The tables as the schema creates them. */
  const EmptyTables := Tables(map[], {}, map[])

  /** The unique constraint on users.api_key. */
  predicate UniqueKeys(users: map<UserId, ApiKey>) {
    forall a, b :: a in users && b in users && users[a] == users[b] ==> a == b
  }

  /** What the store holds at every commit: API keys are unique, every
      friendship endpoint and every clip owner is a registered user, and
      nobody is their own friend. */
  predicate Valid(t: Tables) {
    && UniqueKeys(t.users)
    && (forall edge :: edge in t.friendships ==> edge.0 in t.users && edge.1 in t.users && edge.0 != edge.1)
    && (forall key :: key in t.clips ==> key.0 in t.users)
  }

  /** Resolves an API key to the user whose api_key equals it, or 401. */
  function CurrentUser(t: Tables, apiKey: ApiKey): (r: Result<UserId>)
    requires UniqueKeys(t.users)
    ensures r.Ok? <==> apiKey in t.users.Values
    ensures r.Ok? ==> r.value in t.users && t.users[r.value] == apiKey
    ensures r.Err? ==> r.status == Unauthorized
  {
    if apiKey in t.users.Values then
      var id :| id in t.users && t.users[id] == apiKey;
      Ok(id)
    else
      Err(Unauthorized)
  }

  /** The read-authorization rule: the owner, or a friendship edge in either
      direction between requester and owner. */
  predicate MayRead(t: Tables, requester: UserId, owner: UserId) {
    requester == owner || (requester, owner) in t.friendships || (owner, requester) in t.friendships
  }

  /** GET /clip/{owner}/{bucket} for an authenticated requester. The
      authorization check comes before the clip lookup. */
  function GetClip(t: Tables, requester: UserId, owner: UserId, bucket: Bucket): (r: Response)
    ensures r == Err(Forbidden) <==> !MayRead(t, requester, owner)
    ensures r == Err(NotFound) <==> MayRead(t, requester, owner) && (owner, bucket) !in t.clips
    ensures r.Ok? <==> MayRead(t, requester, owner) && (owner, bucket) in t.clips
    ensures r.Ok? ==> r.value == ClipContent(t.clips[(owner, bucket)])
  {
    var friendship := (requester, owner) in t.friendships || (owner, requester) in t.friendships;
    if !friendship && requester != owner then
      Err(Forbidden)
    else if (owner, bucket) !in t.clips then
      Err(NotFound)
    else
      Ok(ClipContent(t.clips[(owner, bucket)]))
  }

  /** PUT /clip/{bucket} for an authenticated owner: the tables after the
      upsert of the owner's clip. */
  function PutClip(t: Tables, owner: UserId, bucket: Bucket, content: Content): Tables {
    t.(clips := t.clips[(owner, bucket) := content])
  }

  /** POST /users/add/{friendId} for an authenticated user: self-check, then
      existence check, then insertion of the one directed edge, which the
      composite primary key refuses when it is already there. */
  function AddFriend(t: Tables, user: UserId, friendId: UserId): (Response, Tables) {
    if friendId == user then
      (Err(BadRequest), t)
    else if friendId !in t.users then
      (Err(NotFound), t)
    else if (user, friendId) in t.friendships then
      (Err(IntegrityError), t)
    else
      (Ok(Success), t.(friendships := t.friendships + {(user, friendId)}))
  }

  /** The store side of registration: insert a user whose id and api_key are
      both new; either duplicate makes the commit fail. */
  function Register(t: Tables, userId: UserId, apiKey: ApiKey): (Response, Tables) {
    if userId in t.users || apiKey in t.users.Values then
      (Err(IntegrityError), t)
    else
      (Ok(Success), t.(users := t.users[userId := apiKey]))
  }

  /** The three endpoints. */
  datatype Request =
    | PutClipRequest(bucket: Bucket, content: Content)
    | GetClipRequest(owner: UserId, bucket: Bucket)
    | AddFriendRequest(friendId: UserId)

  /** One request with the API key from its header: the key is resolved
      first, and only a resolved user reaches the handler. */
  function Serve(t: Tables, apiKey: ApiKey, request: Request): (Response, Tables)
    requires UniqueKeys(t.users)
  {
    match CurrentUser(t, apiKey)
    case Err(status) => (Err(status), t)
    case Ok(user) =>
      match request
      case PutClipRequest(bucket, content) => (Ok(Success), PutClip(t, user, bucket, content))
      case GetClipRequest(owner, bucket) => (GetClip(t, user, owner, bucket), t)
      case AddFriendRequest(friendId) => AddFriend(t, user, friendId)
  }
}
