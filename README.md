# moviplay user service — a verified Dafny model

This project models the core of the moviplay user micro-service. The service
keeps users, who can be found by any of five identifiers (username, email,
phone number, Google ID, Apple ID). Each user has up to five viewing profiles.
The model has four parts:

- **`StoreSpec`** (`store_spec.dfy`): the abstract store. The `users` table is a
  map from id to five identifier strings, where `""` means "no value". The
  `profiles` table is a map from id to profile row. Each store operation is one
  atomic step on these maps:
  - identity resolution (`Resolve`) matches, then collides, merges or creates;
  - `CreateProfile` checks the limit of five, then name uniqueness, then inserts;
  - `UpdateProfile` does a partial update with a rename check;
  - deletion.

  The lemmas state what each step promises and which invariants it keeps: at
  most five profiles per user, unique profile names per user, and no two users
  sharing an identifier value.
- **`SqlStore.Database`** (`database.dfy`): the PostgreSQL store as a class. Its
  tables are maps of rows. A NULL column is `None`. Ids come from counters that
  start at 1, and `created_at` is a creation counter. Every method is proved
  against `StoreSpec`, through a view of its rows, and keeps the class invariant:
  - ids come from the sequence;
  - no empty string is stored;
  - identifier columns are unique;
  - profile rows are keyed by their id;
  - creation stamps are distinct;
  - the per-user profile invariants hold;
  - `profiles.user_id` references `users.id`.

  The statements of each multi-statement transaction run in a method over the
  table values (`ResolveUserTx`, `CreateProfileTx`, `UpdateProfileTx`). The
  class method runs that transaction and stores the tables it returns.
  `list_profiles` is proved to return exactly the user's profiles in strictly
  ascending creation order.
- **`MockStore.MockDatabase`** (`mock_database.dfy`): the in-memory store the
  tests use, as a class with two maps and two id counters. Its loops are
  modelled as written:
  - the scan over all users for matches;
  - the scan over a user's profiles for a name;
  - the scan over all profiles for a rename clash.

  Each operation is proved equal to the same `StoreSpec` step. The mock
  stores `""` instead of NULL, returns profiles in no particular order and
  has no foreign key. Its seeding helpers `add_user` and `add_profile` keep
  each id counter above every id seeded.
- **`Service`** (`user_service.dfy`): the decision logic of the gRPC handlers:
  - the identifier presence check;
  - the empty-string-to-`None` mapping;
  - name trimming with Python's whitespace set, and the 1–50 rule;
  - the create-profile defaults;
  - the `update_mask` selection of update arguments;
  - the id-positivity checks;
  - the mapping of store outcomes to gRPC status codes and reasons;
  - the output defaults of `_to_profile_proto`.

  Each handler is a function of the request and of the store's outcome. Lemmas
  join the handlers to `StoreSpec` end to end.

The model makes three behaviours of the source explicit:
- With the PostgreSQL store, creating a profile for a user id that has no row
  violates the foreign key. The handler maps that error to `INTERNAL`. With the
  in-memory store, the same call succeeds.
- An `UpdateProfile` with an empty mask sends `is_kids`, `avatar`, `language`
  and `maturity_level` whatever their values. A request that leaves them at
  their proto defaults resets the row to `false` and empty strings, and the
  empty language and maturity level then read back as `"uz"` and `"all"`
  (`Service.EmptyMaskResetsDefaults`).
- `CreateUser` answers with the request's identifiers, not with the merged
  identifiers now stored.

## Model

| member | source | states |
|---|---|---|
| Common.Normalized | db/database.py:61-65 | Each identifier is non-empty exactly when its argument is truthy, and then it carries the argument's value. |
| StoreSpec.MatchSet | db/database.py:70-77 | The match set is a subset of the user ids. It holds every user with a field equal to a non-empty supplied value, and only such users. |
| StoreSpec.Merge | db/database.py:89-98 | Each field with a non-empty supplied value takes that value, and each field supplied empty keeps the stored one. |
| StoreSpec.Resolve | db/database.py:54-107 | A collision leaves the users table as it was. An id it returns on success names a row of the resulting table. |
| StoreSpec.TwoDistinctIff | db/database.py:80 | More than one distinct id matches iff two different ids are in the set. |
| StoreSpec.ResolveOutcome | db/database.py:79-107 | A collision happens iff two distinct users both match. A user is created iff no field of any user matches. A merge targets the one user that every field match points to. |
| StoreSpec.ResolveEffect | db/database.py:86-107 | A collision writes nothing and names the whole match set, which has at least two ids. A creation inserts the request under the next id. A merge keeps the set of user ids. It replaces each field by the supplied value when that value is non-empty, keeps the field otherwise, and leaves every other user unchanged. |
| StoreSpec.ResolvePreservesUniqueIds | db/database.py:86-106 | If no two users share a non-empty value in the same field, the same holds after resolution. A merge or insert never copies a value another user holds. |
| StoreSpec.ResolvedUserOwnsRequest | db/database.py:86-107 | After a merge or creation, the resolved user holds every supplied value, so merging the request again changes nothing. No other user matches any supplied value. |
| StoreSpec.ResolveConverges | db/database.py:54-107 | Resolving a request with at least one identifier a second time returns the same user and changes nothing. |
| StoreSpec.SplitIdentifiersCollide | db/database.py:79-84 | Two supplied identifiers held by two different users give a collision that names both and writes nothing. |
| StoreSpec.EmptyRequestCreatesBlankUser | db/database.py:101-106 | A request with no identifier matches nobody and inserts an all-empty user. |
| StoreSpec.OwnedBy | db/database.py:142-145 | The counted set is exactly the ids of the user's profiles. |
| StoreSpec.CreateProfile | db/database.py:139-168 | The limit error occurs iff the user has at least 5 profiles. The name error occurs iff the user is below the limit and has a profile with that name. The creation succeeds iff the user is below the limit and does not hold the name, and then the result is the new row with preferences `"[]"`. |
| StoreSpec.CreateAddsOne | db/database.py:161-168 | A successful creation adds exactly one id to that user's profiles and changes no other user's profiles. |
| StoreSpec.CreatePreservesProfilesOk | db/database.py:141-168 | Creation keeps rows keyed by id, at most five profiles per user and unique names per user. |
| StoreSpec.FifthProfileThenLimit | db/database.py:142-149 | A user with four profiles can add a fifth under an unused name. Every later creation for that user fails with the limit error and count 5. |
| StoreSpec.SameNameOtherUserAllowed | db/database.py:151-158 | Names are unique per user only. After one user gets a profile with some name, another user below the limit who does not hold that name can still create a profile with it. |
| StoreSpec.UpdateProfile | db/database.py:200-270 | The result is `None` iff the id is absent. It is a name error iff a rename hits a sibling's name, excluding the profile's own id. Otherwise every field given is replaced and every field not given is kept, along with the id and owner. |
| StoreSpec.RenameClashes | db/database.py:211-219 | A rename clashes iff the new name differs from the current one and another profile of the same user, with a different id, already has it. |
| StoreSpec.ApplyPatch | db/database.py:226-249 | The id and the owner never change, an empty patch changes nothing, and each field given in the patch takes the given value. |
| StoreSpec.UpdateKeepingNameSucceeds | db/database.py:210-258 | Keeping the current name skips the clash check. An update with no field returns the current row and writes nothing. |
| StoreSpec.UpdatePreservesProfilesOk | db/database.py:210-270 | An update keeps the three profile invariants. |
| StoreSpec.DeletePreservesProfilesOk | db/database.py:272-279 | A deletion keeps the three profile invariants. |
| SqlStore.RowMatches | db/database.py:70-77 | The SQL `WHERE` clause on a row with NULLs equals the abstract match on its view, so NULL never matches. |
| SqlStore.MergeRow | db/database.py:89-98 | The `COALESCE(NULLIF(..))` update has the abstract merge as its view and stores no empty string. |
| SqlStore.InsertRow | db/database.py:102-106 | The inserted row's view is the request. A column is NULL exactly when its value is empty. |
| SqlStore.EarliestExists | db/database.py:118 | Every non-empty set of rows has one with the smallest creation stamp. |
| SqlStore.RowMatchSetIs | db/database.py:70-77 | The ids the match query selects are exactly the abstract match set of the table's view. |
| SqlStore.MergeKeepsUserRowsValid | db/database.py:86-99 | The merging UPDATE of the single match gives the abstract merged table. It keeps ids, no empty strings and unique identifier columns. |
| SqlStore.InsertKeepsUserRowsValid | db/database.py:101-107 | The INSERT under the next id gives the abstract created table. It keeps the constraints with the sequence advanced by one. |
| SqlStore.ReferToGrown | db/database.py:86-107 | A users table that only gains rows keeps every profile's reference valid. |
| SqlStore.ResolveUserTx | db/database.py:54-107 | The reply and the new table are those of `StoreSpec.Resolve` on the old table. A failure writes nothing. A new user gets the next id and the INSERT row. The table's constraints are kept and no row disappears. |
| SqlStore.ProfileQueriesAgree | db/database.py:142-155 | The COUNT counts exactly the user's profiles. The name query finds a row iff the name is held, without and with `id != $3`. |
| SqlStore.CreateKeepsRowsValid | db/database.py:161-168 | Once both checks pass and the user exists, the abstract creation succeeds with this row. The INSERT keeps the table's constraints and references. |
| SqlStore.CreateProfileTx | db/database.py:139-168 | The result is the abstract creation result, except that an unknown user gives a foreign-key violation. A new row gets the next id and the current stamp. A failure writes no row. The id sequence still advances on a foreign-key violation, because the INSERT draws the id before the key is checked; other failures leave it alone. Constraints and references are kept. |
| SqlStore.SetColumns | db/database.py:221-251 | The row after the SET list is the abstract patched row. The list is non-empty iff some field is given. |
| SqlStore.UpdateKeepsRowsValid | db/database.py:210-270 | Without a rename clash, the abstract update returns the patched row. Writing it under the same id and stamp keeps the constraints and references. |
| SqlStore.UpdateProfileTx | db/database.py:200-270 | The result and the new rows are those of the abstract update. An empty update, a clash and a missing id write nothing. Ids and stamps are kept. |
| SqlStore.RemoveKeepsRowsValid | db/database.py:272-279 | A delete keeps the table's constraints and references. |
| SqlStore.AppendEarliest | db/database.py:118 | Appending the earliest unlisted row keeps the list in ascending order, before every row still unlisted. |
| SqlStore.OrderByCreation | db/database.py:113-121 | The result lists exactly the given ids, each as its current row, in strictly ascending `created_at`. |
| SqlStore.Database.constructor | db/database.py:24-26 | A new store has empty tables and both id sequences at 1, and it is valid. `__init__` itself only records the URL, so the empty tables stand for a freshly created schema. |
| SqlStore.Database.CreateOrUpdateUser | db/database.py:54-107 | The reply and the new users table are those of `StoreSpec.Resolve` on the normalised arguments. A failure writes nothing. A merge into an existing user leaves the id sequence alone. A new user gets the next id, with NULL for each absent field. All table invariants are kept. |
| SqlStore.Database.GetUser | db/database.py:46-52 | Returns the row iff the id exists, and the row's view is the stored user. |
| SqlStore.Database.ListProfiles | db/database.py:111-121 | Returns exactly the user's profiles, ascending by creation stamp. |
| SqlStore.Database.CreateProfile | db/database.py:123-168 | The result is the abstract creation result, except that an unknown user gives a foreign-key violation. The rows change by the abstract effect. A new row gets the next id and the current stamp, every other row keeps its own, and the clock moves on by one, so a later creation is stamped after an earlier one. A failure writes no row, and only a foreign-key violation advances the id sequence. All invariants are kept. |
| SqlStore.Database.GetProfile | db/database.py:170-179 | Returns the row iff the id exists. |
| SqlStore.Database.UpdateProfile | db/database.py:181-270 | The result and the new rows are those of the abstract update. An empty update, a failure and a missing id write nothing. Ids and stamps are kept. |
| SqlStore.Database.DeleteProfile | db/database.py:272-279 | Returns true iff the id existed. It removes only that row and touches no user. |
| MockStore.MatchesByArgs | tests/conftest.py:67-77 | The five `value and stored == value` tests OR-ed together equal the abstract match on the normalised request. |
| MockStore.NextAfterSeed | tests/conftest.py:131-135 | A generated id advances the counter by one. An explicit id raises the counter above it and never lowers it. |
| MockStore.SeededProfile | tests/conftest.py:252-263 | An omitted seed field takes its default: user 1, `"Profile"`, `false`, `""`, `"uz"`, `"all"` or `"[]"`. |
| MockStore.ListStep | tests/conftest.py:152 | Visiting one more dictionary entry keeps the listed profiles equal to the user's visited profiles, each once. |
| MockStore.NameTakenByOther | tests/conftest.py:216-219 | The scan finds a match iff some profile of the user other than this one has the name. |
| MockStore.MatchingUsers | tests/conftest.py:66-77 | The scan collects exactly the abstract match set of the normalised request. |
| MockStore.ApplyFields | tests/conftest.py:221-232 | The record after the attribute updates is the abstract patched row. |
| MockStore.MockDatabase.constructor | tests/conftest.py:45-50 | Starts with empty dictionaries and both counters at 1. |
| MockStore.MockDatabase.CreateOrUpdateUser | tests/conftest.py:54-101 | The reply and the new users are those of `StoreSpec.Resolve`. A new user gets the old counter, which then grows by one. Otherwise the counter is unchanged. |
| MockStore.MockDatabase.UpdateUser | tests/conftest.py:103-122 | Exactly the fields with a truthy argument are overwritten, as in the abstract merge. |
| MockStore.MockDatabase.GetUser | tests/conftest.py:124-127 | Returns the record iff the id exists. |
| MockStore.MockDatabase.AddUser | tests/conftest.py:129-145 | Stores the user under the given or the next id, with omitted identifiers as `""`. The counter stays above every stored id. |
| MockStore.MockDatabase.ListProfiles | tests/conftest.py:149-152 | Returns each of the user's profiles exactly once, as stored. |
| MockStore.MockDatabase.CreateProfile | tests/conftest.py:154-191 | The result and the new dictionary are those of the abstract creation, with the id taken from the counter. The counter grows only on success. The profile invariants are kept when they held. |
| MockStore.MockDatabase.GetProfile | tests/conftest.py:193-196 | Returns the record iff the id exists. |
| MockStore.MockDatabase.UpdateProfile | tests/conftest.py:198-234 | The result and the new dictionary are those of the abstract update. The profile invariants are kept when they held. |
| MockStore.MockDatabase.DeleteProfile | tests/conftest.py:236-242 | Returns true iff the key was present, and removes only that key. |
| MockStore.MockDatabase.AddProfile | tests/conftest.py:244-264 | Stores the seeded profile under the given or the next id. The counter stays above every stored id. |
| Service.HasIdentifierIff | services/user_service.py:27-33 | The presence check passes iff some identifier is non-empty, that is, iff the request is not all-empty. |
| Common.NoneIfEmpty | services/user_service.py:43-47 | An empty string becomes `None` (the service's `value if value else None`, and the store's `NULLIF($k, '')`), and every other string is kept. Reading it back with `or ""` restores the string. |
| Service.ToStoreArgs | services/user_service.py:42-48 | An argument is `None` iff the request field is empty. Every other argument is truthy, and normalising the arguments gives back the request. |
| Service.CreateUser | services/user_service.py:23-89 | A request with no identifier gets `INVALID_ARGUMENT` before the store is called. Success echoes the request's identifiers with the store's id. A collision gives `INVALID_ARGUMENT`/`IDENTITY_CONFLICT`, and any other store error gives `INTERNAL`. |
| Service.AcceptedRequestIsNotBlank | services/user_service.py:27-48 | An accepted request never reaches the store as all-empty identifiers. |
| Service.CreateUserAgainstStore | services/user_service.py:42-64 | Against the abstract store: the answer is `IDENTITY_CONFLICT` iff two distinct users match. A request that matches nobody creates a user under the next id. |
| Service.GetUser | services/user_service.py:91-119 | A non-positive id gives `INVALID_ID`, and a missing user gives `USER_NOT_FOUND`. Otherwise the reply has the id and each absent identifier as `""`. |
| Service.LStrip | services/user_service.py:201 | The result is the longest suffix that does not start with whitespace. Everything removed is whitespace. |
| Service.IsSpaceChars | services/user_service.py:201 | The whitespace test holds of exactly the 29 characters for which Python's `str.isspace()` is true. |
| Service.RStrip | services/user_service.py:201 | The result is the longest prefix that does not end with whitespace. Everything removed is whitespace. |
| Service.Strip | services/user_service.py:201 | The result is a contiguous slice of the input. Everything before and after the slice is whitespace, and the slice neither starts nor ends with whitespace. |
| Service.StripIdempotent | services/user_service.py:201 | Trimming twice gives the same result as trimming once. |
| Service.WhitespaceNameRejected | services/user_service.py:201-209 | A whitespace-only name trims to `""` and is rejected. |
| Service.TrimmedNameRule | services/user_service.py:201-209 | A name without surrounding whitespace is kept as it is. It is accepted iff its length is 1 to 50. |
| Service.LetterRunRule | services/user_service.py:202 | A run of n letters is accepted iff 1 ≤ n ≤ 50, so 50 letters pass and 51 fail. |
| Service.ValidNameIff | services/user_service.py:202 | The handler's rejection test (empty, shorter than 1 or longer than 50) fails exactly for the names the rule accepts. |
| Service.ToProfileMessage | services/user_service.py:440-457 | Copies the row. An empty language becomes `"uz"`, an empty maturity level `"all"` and empty preferences `"[]"`, so those three are never empty on output. |
| Service.ListProfiles | services/user_service.py:147-161 | A non-positive id gives `INVALID_ID`. Otherwise each stored row is converted, in the store's order. |
| Service.CreateProfileArgs | services/user_service.py:211-218 | The store gets the trimmed name. An empty language becomes `"uz"` and an empty maturity level `"all"`. |
| Service.CreateProfileCheck | services/user_service.py:190-209 | The result is `INVALID_ID` iff the id is non-positive. It is `INVALID_ARGUMENT` iff the id is positive and the trimmed name fails the rule. Otherwise the call proceeds. |
| Service.CreateProfile | services/user_service.py:188-260 | The checks come first. Then the limit maps to `FAILED_PRECONDITION`, a name clash to `ALREADY_EXISTS`, and a foreign-key violation to `INTERNAL`. Success converts the row. |
| Service.CreateProfileAgainstStore | services/user_service.py:211-236 | Against the abstract store, a full user always gets `PROFILE_LIMIT_REACHED`. Below the limit, a taken trimmed name gets `PROFILE_NAME_EXISTS`, and a name the user does not hold gets a success. Success returns the trimmed name with preferences `"[]"`. |
| Service.GetProfile | services/user_service.py:262-282 | A non-positive id gives `INVALID_ID`, and a missing row gives `PROFILE_NOT_FOUND`. Otherwise the row is converted. |
| Service.UpdateArgs | services/user_service.py:308-346 | A non-positive id gives `INVALID_ID`. A field is sent iff the mask is empty or names it. Beyond that, a name is sent only when non-empty, trimmed and valid, and it is `INVALID_ARGUMENT` otherwise. Preferences are sent only when non-empty. |
| Service.SelectedIff | services/user_service.py:320-324 | A field is taken iff the request's mask list is empty (the handler's `None`) or one of its entries is that field. |
| Service.UpdateKwargs | services/user_service.py:319-346 | Building the arguments field by field gives exactly `UpdateArgs`. |
| Service.MaskedUpdateTouchesOnlyNamed | services/user_service.py:320-348 | With the mask `["name"]`, a successful update changes at most the name. |
| Service.UpdateProfileReply | services/user_service.py:348-366 | A missing row gives `PROFILE_NOT_FOUND`. A rename clash gives `ALREADY_EXISTS`, and any other store error gives `INTERNAL`. Otherwise the row is converted. |
| Service.EmptyMaskResetsDefaults | services/user_service.py:337-344 | An empty mask with default request values sends `false` and empty strings for four fields, and those read back as `"uz"`/`"all"`. |
| Service.DeleteProfile | services/user_service.py:392-412 | A non-positive id gives `INVALID_ID`. `false` from the store gives `PROFILE_NOT_FOUND` and `true` gives success. |

## Left out

- Connection handling: the connection pool, `connect`/`close` and transaction scoping. Each store method is one atomic step on the maps.
- Concurrency: concurrent callers and isolation levels are not modelled. A race between two identity resolutions, or two profile creations, is outside the model.
- `Database.create_user` (db/database.py:38-44): not modelled. The service never calls it.
- Schema: the table definitions are not part of this model. The store relies on three assumptions about them:
  - the foreign key from `profiles.user_id` to `users.id`, checked when the INSERT runs, after the id is drawn;
  - ids start at 1, so `if existing:` on a found id is true;
  - `now()` stamps of separately created profiles are distinct.
- Timestamps: `created_at` is a creation counter, and `updated_at` is dropped.
- Preferences: their JSON content is an opaque string. An invalid JSON text, which the `::jsonb` cast would reject, is not modelled.
- SqlStore.UpdateProfileTx: the stored preferences are the text that was sent. PostgreSQL stores `$k::jsonb` and reads back `preferences::text`, a normalised rendering (`{"a":1}` comes back as `{"a": 1}`), so the text read back can differ from the text sent. The same holds for `StoreSpec.UpdateProfile` as a description of the SQL store.
- Transient faults: connection loss and query cancellation, with their `UNAVAILABLE` and `DEADLINE_EXCEEDED` statuses, are not among the store outcomes the handlers take.
- Status details: only the code and the reason are modelled. The human-readable message and the field violations are not.
- Fault injection: `MockDatabase.should_raise` is not modelled.
- Code outside the core: `utils/grpc_errors.py`, `server.py` and `create_proto.py` are not part of this model.
- SqlStore.Database.ListProfiles: the `ORDER BY` is realised by repeatedly taking the row with the smallest stamp.
- MockStore.MockDatabase.ListProfiles: Python's dictionary insertion order is not modelled. The result is proved to hold each of the user's profiles exactly once, in some order.
- MockStore.MockDatabase.UpdateProfile: the double changes the stored dictionary in place and returns that same object. The model writes the new record back and returns a copy, so later aliasing of the returned dictionary is not modelled.
- MockStore.MockDatabase.CreateProfile: the double stores the new dictionary and returns that same object. The model returns a copy of the stored record, so later aliasing of the returned dictionary is not modelled.
- MockStore.MockDatabase.AddUser: an identifier passed explicitly as `None` is stored as `""`, where Python would store `None`. Both read back as `""`.
- MockStore.MockDatabase.AddProfile: a field passed explicitly as `None` is read as omitted and gets its default, where `kwargs.get` would store `None`.
- Service: request ids are unbounded integers. The int64 range of the proto fields is not modelled.
