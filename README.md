# noclip core in Dafny

noclip shares clipboards between machines. A small HTTP server keeps three
tables: users with their API keys, directed friendship edges, and clips
stored per (owner, bucket). A command-line client registers users and keeps
its user id and API key in a `key=value` configuration file. This project
models two parts of `main.py`:

- **The server's domain logic** (`domain.dfy`, `domain_props.dfy`,
  `store.dfy`). The tables are a value `Domain.Tables` of two maps and a set.
  The API-key lookup is `Domain.CurrentUser`. The handlers for
  `PUT /clip/{bucket}`, `GET /clip/{owner}/{bucket}` and
  `POST /users/add/{friend_id}`, plus the insert of a new user row done by
  `register`, are pure functions from one snapshot to a response and the
  next snapshot. `Domain.Serve` puts authentication in front of them. The
  class `Service.Store` holds the three tables as fields. Its methods change
  them in place, and each method is proved equal to the specification
  function on the old snapshot. `DomainProperties` proves:
  - authentication and 401;
  - the put/get round trip, overwrite and frame;
  - the read rule and why 403 comes before 404;
  - every outcome of adding a friend;
  - registration;
  - the invariant that every request keeps the tables valid: unique keys,
    registered endpoints and owners, no self-friendship.
- **The configuration file format** (`config.dfy`). `Config.LoadConfig`
  and `Config.SaveConfig` are the loops of `load_config` and `save_config`
  over the file's text. Each is proved equal to a recursive function
  (`Load`, `Serialize`). The lemmas about those functions cover:
  - the round trip `load(save(d)) == d` under the conditions that make it
    hold;
  - that a repeated key keeps its last value;
  - which keys a loaded dictionary has;
  - that a line without `=` makes loading fail.

  A Python dictionary is modelled as a list of entries with distinct keys.
  This keeps its insertion order: assigning an existing key keeps the key's
  place, and a new key goes at the end.

Three behaviours of the code are modelled as the code has them:

- There is no "already friends" answer. Adding the same edge twice reaches
  the insert, and the composite primary key makes the commit fail. That
  failure is an uncaught exception, shown here as `IntegrityError` (HTTP
  500), and it leaves the tables unchanged.
- Only the exact edge is checked. When B already stored the edge (B, A), A
  can still add (A, B).
- The identifier collision at registration is the same kind of failure.

The `Valid` invariant is proved from the handlers' own checks. SQLite does
not enforce foreign keys unless asked to, and the code never asks.

## Model

| member | source | states |
|---|---|---|
| Domain.CurrentUser | main.py:56-60 | a key resolves iff some user's api_key equals it, to a user whose api_key is that key; otherwise 401 |
| Domain.GetClip | main.py:76-90 | 403 iff neither owner nor a friend in either direction; 404 iff readable but no clip; otherwise exactly the stored content |
| Domain.UniqueKeys | main.py:28 | the unique constraint on users.api_key: no two users share a key; assumed by `CurrentUser` and kept by every request (specified by RegisterThenAuthenticate and ServePreservesValid) |
| Domain.Valid | main.py:25-39 | what the committed tables hold: unique keys, friendship endpoints and clip owners registered, no self-edge (kept by ServePreservesValid, RegisterPreservesValid and the Store methods) |
| Domain.MayRead | main.py:79-84 | the read rule: requester is the owner, or an edge exists in either direction (specified by GetClip's contract and AddFriendGrantsBothDirections) |
| Domain.PutClip | main.py:65-74 | the upsert of the owner's clip; specified by PutThenGetOwn, PutOverwrites and PutFrame |
| Domain.AddFriend | main.py:92-104 | self-check, existence check, then the one-edge insert; specified by AddFriendOutcome and AddFriendGrantsBothDirections |
| Domain.Register | main.py:143-146 | the insert of the user row, refused on a duplicate id or key; specified by RegisterThenAuthenticate and RegisterPreservesValid |
| Domain.Serve | main.py:56-60 | the key lookup in front of every handler; specified by UnknownKeyIsUnauthorized, ServePutThenGet, GetLeavesTablesUnchanged and ServePreservesValid |
| DomainProperties.AuthenticatesKeyOwner | main.py:56-60 | with unique api_keys, a key resolves to user u iff u's api_key is that key |
| DomainProperties.UnknownKeyIsUnauthorized | main.py:56-60 | every endpoint answers 401 (status code 401) iff the key belongs to nobody, and then the tables are unchanged |
| DomainProperties.PutThenGetOwn | main.py:65-74 | after the owner puts c into bucket b, the owner reads exactly c from b, with no friendship needed |
| DomainProperties.ServePutThenGet | main.py:65-90 | through the endpoints with one API key: the put succeeds and the following get of (caller, bucket) returns the content put |
| DomainProperties.PutOverwrites | main.py:67-73 | a second put to the same (owner, bucket) leaves the tables as if only the second had happened |
| DomainProperties.PutFrame | main.py:67-73 | a put touches only the clip at (owner, bucket): users, friendships and every other clip are unchanged |
| DomainProperties.GetLeavesTablesUnchanged | main.py:76-90 | a get never changes the tables |
| DomainProperties.ForbiddenBeforeNotFound | main.py:79-85 | without an edge in either direction, another user's clip is 403 whatever the clips table holds, so whether or not the clip exists, and whether or not the owner is registered |
| DomainProperties.AuthorizedMissingIsNotFound | main.py:87-89 | for an authorized requester, 404 iff there is no clip at (owner, bucket) |
| DomainProperties.AddFriendOutcome | main.py:92-104 | 400 iff self; 404 iff unregistered; commit refused iff the edge is already stored; otherwise exactly the one edge (user, friend) is added; every failure leaves the tables unchanged and answers 400, 404 or 500 |
| DomainProperties.AddFriendGrantsBothDirections | main.py:79-82 | after A adds B, only (A, B) is new, yet A reads B's existing clips and B reads A's |
| DomainProperties.RegisterThenAuthenticate | main.py:143-146 | the insert succeeds iff id and key are both new; failure leaves the tables unchanged; keys stay unique; the new key resolves to the new user and every old key to its old user |
| DomainProperties.RegisterPreservesValid | main.py:143-146 | inserting a user keeps the tables valid |
| DomainProperties.ServePreservesValid | main.py:25-39 | every request keeps api_keys unique, every friendship endpoint and clip owner registered, and no self-friendship |
| Service.Store.constructor | main.py:41 | creates the three tables empty, and they are valid |
| Service.Store.PutClip | main.py:65-74 | the in-place update or insert equals the put endpoint on the old snapshot; an error is 401 and changes nothing; users and friendships are untouched |
| Service.Store.GetClip | main.py:76-90 | the answer equals the get endpoint on the current tables, and succeeds iff the key is known, the caller may read the owner and the clip exists |
| Service.Store.AddFriend | main.py:92-104 | the checks and insert equal the add-friend endpoint on the old snapshot; errors change nothing; users and clips are untouched |
| Service.Store.Register | main.py:143-146 | the insert equals the registration function on the old snapshot; on success the new key authenticates as the new user |
| Config.IsSpace | main.py:117 | the characters `str.strip()` removes (those of `str.isspace`); used by Strip and Savable |
| Config.Lines | main.py:116 | no line it yields contains a line break; the lines themselves are pinned down by LinesOfFirstLine and LinesOfLastLine |
| Config.LinesOfFirstLine | main.py:116 | a text that starts with a line ended by `\n`, by `\r\n`, or by a `\r` not followed by `\n` reads as that line followed by the lines of the rest |
| Config.LinesOfLastLine | main.py:116 | a non-empty last line without a line end is still read as a line |
| Config.Strip | main.py:117 | the stripped text has no whitespace at either end, and text already without such whitespace is returned unchanged |
| Config.StripRemovesOnlySpace | main.py:117 | stripping removes a whitespace prefix and a whitespace suffix and nothing else |
| Config.ParseLine | main.py:117 | `line.strip().split("=", 1)` unpacked into key and value; specified by ParseLineFailsWithoutSeparator and ParseLineSplitsAtFirstSeparator |
| Config.ParseLineFailsWithoutSeparator | main.py:117 | a line fails to unpack into key and value iff its stripped text has no `=` |
| Config.ParseLineSplitsAtFirstSeparator | main.py:117 | a line that parses is its stripped text split at the first `=`: stripped text = key + "=" + value, with no `=` in the key |
| Config.Lookup | main.py:118 | a key is found iff it is in the dictionary |
| Config.LookupFindsEntry | main.py:118 | with distinct keys, looking up k gives v iff (k, v) is an entry |
| Config.Assign | main.py:118 | `config[key] = value` keeps keys distinct, makes key map to value, and appends a key that was not there |
| Config.AssignFrame | main.py:118 | `config[key] = value` leaves every other key's value alone, and an existing key keeps its position so the key order is unchanged |
| Config.Collect | main.py:114-119 | the dictionary built from the parsed lines has distinct keys |
| Config.CollectSucceeds | main.py:116-118 | the dictionary is built iff every line parsed |
| Config.CollectFailsAt | main.py:117 | one line that fails to parse makes the whole load fail |
| Config.Load | main.py:110-119 | the result of `load_config` on the file: specified by LoadConfig, LoadSaveRoundTrip, LastValueWins, LoadedKeys and ParseLinesFailsWithoutSeparator |
| Config.LoadConfig | main.py:110-119 | the loop returns the same result as the load function: empty for a missing file, failure on a line without `=`, otherwise the assigned entries |
| Config.Serialize | main.py:121-125 | the text `save_config` writes; specified by SaveConfig, SerializeAppend, LinesOfSerialized and LoadSaveRoundTrip |
| Config.SaveConfig | main.py:121-125 | the loop writes exactly one `key=value\n` per entry, in order |
| Config.SerializeAppend | main.py:124-125 | writing one more entry appends its line to the text |
| Config.ParseSavedLine | main.py:117 | a savable entry's written line parses back to the same key and value |
| Config.LinesOfSerialized | main.py:115-116 | reading the saved text line by line gives back exactly one line per entry |
| Config.CollectDistinctEntries | main.py:114-118 | assigning entries with distinct keys in order rebuilds the same dictionary |
| Config.LoadSaveRoundTrip | main.py:110-125 | loading what was saved gives back the same dictionary, in the same order, when its entries are savable |
| Config.LastValueWins | main.py:116-118 | when a key appears on several lines, its value is the one on the last such line |
| Config.AssignKeys | main.py:118 | after an assignment the keys are the old keys plus the assigned one |
| Config.LoadedKeys | main.py:114-118 | a loaded dictionary has a key iff some line parsed to that key |
| Config.ParseLinesFailsWithoutSeparator | main.py:114-118 | loading fails iff one of the lines has no `=` once stripped, so a blank line is enough |

## Left out

- FastAPI routing, `Depends` injection, pydantic bodies and the `X-API-Key` header extraction are left out. The header value is a plain string argument. A missing header is rejected by the framework before any handler runs.
- The SQLAlchemy engine, sessions, `commit` and `close` are left out. Each request is one atomic step on in-memory maps and a set. There is at most one clip per (owner, bucket) and one edge per (user, friend) because the tables are a map and a set.
- The duplicate friendship insert ends in an uncaught database exception, which the server turns into a 500. It is modelled as the `IntegrityError` status and leaves the tables unchanged.
- The CLI commands `register`, `add_friend`, `put` and `get` are not modelled as commands. They use click, httpx, pyperclip and the environment lookup of the server URL. Only the store-side insert of `register` is kept.
- In `register`, the configuration is saved before the row is inserted, so a failed insert still leaves a saved configuration. The model has only the insert.
- `secrets.token_urlsafe` randomness is out: the API key is a parameter of registration.
- File-system access is out: checking that the file exists, creating the directory, opening, reading and writing. The file's text is a parameter or a result, and a missing file is `None`.
- The file's character encoding is not modelled, nor the translation of `\n` to the platform's line separator on writing. Text is a sequence of characters, and reading recognises `\n`, `\r` and `\r\n`.
- The `ValueError` from a line without `=` is modelled as `None`. It is not modelled as an exception that reaches the calling command.
- `uvicorn` startup and `sys.argv` dispatch are out.
- Concurrent requests are out. Last-writer-wins between two puts to the same key is outside a sequential model.
