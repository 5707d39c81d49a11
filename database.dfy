/** The PostgreSQL store (class Database): the `users` and `profiles` tables
    as maps from id to row, with NULL columns as None, the two id sequences as
    counters, and `created_at` as a creation counter. Each method is one
    transaction, so one atomic step on the maps. */
module SqlStore {
  import opened Common
  import StoreSpec

  /** A `users` row's identifier columns, NULL as None: the same five
      nullable strings as the keyword arguments of create_or_update_user. */
  type UserRow = IdArgs

  /** COALESCE(a, b) on two nullable values. */
  function Coalesce(a: Option<string>, b: Option<string>): Option<string> {
    if a.Some? then a else b
  }

  /** No identifier column holds the empty string: every write goes through NULLIF. */
  predicate NoEmptyStored(row: UserRow) {
    && row.username != Some("") && row.email != Some("") && row.phone != Some("")
    && row.googleId != Some("") && row.appleId != Some("")
  }

  /** One row against the match query's WHERE clause: `$k <> '' AND column = $k`
      for each of the five columns, OR-ed; `NULL = $k` is never true. */
  predicate RowMatches(row: UserRow, req: Ids)
    ensures RowMatches(row, req) == StoreSpec.Matches(Normalized(row), req)
  {
    || (req.googleId != "" && row.googleId == Some(req.googleId))
    || (req.appleId != "" && row.appleId == Some(req.appleId))
    || (req.email != "" && row.email == Some(req.email))
    || (req.phone != "" && row.phone == Some(req.phone))
    || (req.username != "" && row.username == Some(req.username))
  }

  /** The UPDATE's SET list, `column = COALESCE(NULLIF($k, ''), column)`. */
  function MergeRow(row: UserRow, req: Ids): (r: UserRow)
    ensures Normalized(r) == StoreSpec.Merge(Normalized(row), req)
    ensures NoEmptyStored(row) ==> NoEmptyStored(r)
  {
    IdArgs(Coalesce(NoneIfEmpty(req.username), row.username),
           Coalesce(NoneIfEmpty(req.email), row.email),
           Coalesce(NoneIfEmpty(req.phone), row.phone),
           Coalesce(NoneIfEmpty(req.googleId), row.googleId),
           Coalesce(NoneIfEmpty(req.appleId), row.appleId))
  }

  /** The INSERT's VALUES list, `NULLIF($k, '')`: absent identifiers are stored as NULL. */
  function InsertRow(req: Ids): (r: UserRow)
    ensures Normalized(r) == req
    ensures forall f :: ArgOf(r, f).None? <==> req.Get(f) == ""
    ensures NoEmptyStored(r)
  {
    IdArgs(NoneIfEmpty(req.username), NoneIfEmpty(req.email), NoneIfEmpty(req.phone), NoneIfEmpty(req.googleId), NoneIfEmpty(req.appleId))
  }

  /** A `profiles` row: the returned columns and its creation stamp. */
  datatype ProfileRow = ProfileRow(profile: Profile, createdAt: nat)

  /** Among `ids`, some row was created no later than any other. */
  lemma {:induction false} EarliestExists(ids: set<int>, rows: map<int, ProfileRow>)
    requires ids != {} && ids <= rows.Keys
    ensures exists e :: e in ids && forall x :: x in ids ==> rows[e].createdAt <= rows[x].createdAt
    decreases |ids|
  {
    NonEmptyHasElement(ids);
    var x :| x in ids;
    if ids == {x} {
      assert forall y :: y in ids ==> rows[x].createdAt <= rows[y].createdAt;
    } else {
      EarliestExists(ids - {x}, rows);
      var e :| e in ids - {x} && forall y :: y in ids - {x} ==> rows[e].createdAt <= rows[y].createdAt;
      if rows[x].createdAt <= rows[e].createdAt {
        assert forall y :: y in ids ==> rows[x].createdAt <= rows[y].createdAt;
      } else {
        assert forall y :: y in ids ==> rows[e].createdAt <= rows[y].createdAt;
      }
    }
  }

  /** The users table as identifier sets. */
  function UsersView(users: map<int, UserRow>): map<int, Ids> {
    map id | id in users :: Normalized(users[id])
  }

  /** The profiles table without creation stamps. */
  function ProfilesView(rows: map<int, ProfileRow>): map<int, Profile> {
    map id | id in rows :: rows[id].profile
  }

  lemma UsersViewWrite(users: map<int, UserRow>, id: int, row: UserRow)
    ensures UsersView(users[id := row]) == UsersView(users)[id := Normalized(row)]
  {
  }

  lemma ProfilesViewWrite(rows: map<int, ProfileRow>, id: int, row: ProfileRow)
    ensures ProfilesView(rows[id := row]) == ProfilesView(rows)[id := row.profile]
  {
  }

  lemma ProfilesViewRemove(rows: map<int, ProfileRow>, id: int)
    ensures ProfilesView(rows - {id}) == ProfilesView(rows) - {id}
  {
  }

  /** The users table's constraints: ids from the sequence, no empty string
      stored (every write goes through NULLIF), each identifier column unique. */
  ghost predicate UserRowsValid(users: map<int, UserRow>, next: int) {
    && 1 <= next
    && (forall id :: id in users ==> 1 <= id < next && NoEmptyStored(users[id]))
    && StoreSpec.UniqueIds(UsersView(users))
  }

  /** The match query selects exactly the abstract match set. */
  lemma RowMatchSetIs(users: map<int, UserRow>, req: Ids)
    ensures (set id | id in users && RowMatches(users[id], req)) == StoreSpec.MatchSet(UsersView(users), req)
  {
  }

  /** The merging UPDATE refines the abstract merge and keeps the table valid. */
  lemma MergeKeepsUserRowsValid(users: map<int, UserRow>, next: int, id: int, req: Ids)
    requires UserRowsValid(users, next)
    requires StoreSpec.Resolve(UsersView(users), req, next).outcome == StoreSpec.Merged(id)
    ensures id in users
    ensures UsersView(users[id := MergeRow(users[id], req)]) == StoreSpec.Resolve(UsersView(users), req, next).users
    ensures UserRowsValid(users[id := MergeRow(users[id], req)], next)
  {
    StoreSpec.ResolveEffect(UsersView(users), req, next);
    StoreSpec.ResolvePreservesUniqueIds(UsersView(users), req, next);
    UsersViewWrite(users, id, MergeRow(users[id], req));
  }

  /** The INSERT under the next id refines the abstract creation and keeps the table valid. */
  lemma InsertKeepsUserRowsValid(users: map<int, UserRow>, next: int, req: Ids)
    requires UserRowsValid(users, next)
    requires StoreSpec.Resolve(UsersView(users), req, next).outcome.Created?
    ensures next !in users
    ensures UsersView(users[next := InsertRow(req)]) == StoreSpec.Resolve(UsersView(users), req, next).users
    ensures UserRowsValid(users[next := InsertRow(req)], next + 1)
  {
    StoreSpec.ResolveEffect(UsersView(users), req, next);
    StoreSpec.ResolvePreservesUniqueIds(UsersView(users), req, next);
    UsersViewWrite(users, next, InsertRow(req));
  }

  /** A users table that only gained rows still has every referenced user. */
  lemma ReferToGrown(rows: map<int, ProfileRow>, users: map<int, UserRow>, grown: map<int, UserRow>)
    requires RowsReferTo(rows, users) && users.Keys <= grown.Keys
    ensures RowsReferTo(rows, grown)
  {
  }

  /** The profiles table's constraints: ids from the sequence and equal to
      the row's own id, stamps below the clock and pairwise distinct, and the
      per-user invariants of the abstract store. */
  ghost predicate RowsValid(rows: map<int, ProfileRow>, next: int, clk: nat) {
    && 1 <= next
    && (forall id :: id in rows ==> 1 <= id < next && rows[id].profile.id == id)
    && (forall id :: id in rows ==> rows[id].createdAt < clk)
    && (forall a, b :: a in rows && b in rows && a != b ==> rows[a].createdAt != rows[b].createdAt)
    && StoreSpec.ProfilesOk(ProfilesView(rows))
  }

  /** Every profile's user_id has a users row. */
  ghost predicate RowsReferTo(rows: map<int, ProfileRow>, users: map<int, UserRow>) {
    forall id :: id in rows ==> rows[id].profile.userId in users
  }

  /** The two SELECTs of the profile checks compute the abstract ones: the
      counted rows are the user's profiles, and the name query (without or
      with `id != $3`) finds a row iff the name is held. */
  lemma ProfileQueriesAgree(rows: map<int, ProfileRow>, uid: int, name: string, self: int)
    ensures (set id | id in rows && rows[id].profile.userId == uid) == StoreSpec.OwnedBy(ProfilesView(rows), uid)
    ensures (exists id | id in rows :: rows[id].profile.userId == uid && rows[id].profile.name == name)
            <==> StoreSpec.NameHeld(ProfilesView(rows), uid, name, None)
    ensures (exists id | id in rows :: rows[id].profile.userId == uid && rows[id].profile.name == name && id != self)
            <==> StoreSpec.NameHeld(ProfilesView(rows), uid, name, Some(self))
  {
    var view := ProfilesView(rows);
    if exists id | id in rows :: rows[id].profile.userId == uid && rows[id].profile.name == name {
      var w :| w in rows && rows[w].profile.userId == uid && rows[w].profile.name == name;
      assert view[w] == rows[w].profile;
    }
    if exists id | id in rows :: rows[id].profile.userId == uid && rows[id].profile.name == name && id != self {
      var w :| w in rows && rows[w].profile.userId == uid && rows[w].profile.name == name && w != self;
      assert view[w] == rows[w].profile && Some(self) != Some(w);
    }
    if StoreSpec.NameHeld(view, uid, name, None) {
      var w :| w in view && view[w].userId == uid && view[w].name == name;
      assert rows[w].profile == view[w];
    }
    if StoreSpec.NameHeld(view, uid, name, Some(self)) {
      var w :| w in view && view[w].userId == uid && view[w].name == name && Some(self) != Some(w);
      assert rows[w].profile == view[w] && w != self;
    }
  }

  /** The INSERT of create_profile, once both checks have passed and the user
      exists: the new row is the abstract creation's result under the next id
      and the current stamp, and the table keeps its constraints and its
      references. */
  lemma CreateKeepsRowsValid(rows: map<int, ProfileRow>, users: map<int, UserRow>, next: int, clk: nat,
                             uid: int, np: NewProfile)
    requires RowsValid(rows, next, clk) && RowsReferTo(rows, users) && uid in users
    requires |StoreSpec.OwnedBy(ProfilesView(rows), uid)| < MaxProfilesPerUser
    requires !StoreSpec.NameHeld(ProfilesView(rows), uid, np.name, None)
    ensures next !in rows && next !in ProfilesView(rows)
    ensures var p := Profile(next, uid, np.name, np.isKids, np.avatar, np.language, np.maturityLevel, "[]");
            var after := rows[next := ProfileRow(p, clk)];
            && StoreSpec.CreateProfile(ProfilesView(rows), uid, np, next) == Success(p)
            && ProfilesView(after) == ProfilesView(rows)[next := p]
            && RowsValid(after, next + 1, clk + 1) && RowsReferTo(after, users)
  {
    var p := Profile(next, uid, np.name, np.isKids, np.avatar, np.language, np.maturityLevel, "[]");
    StoreSpec.CreatePreservesProfilesOk(ProfilesView(rows), uid, np, next);
    ProfilesViewWrite(rows, next, ProfileRow(p, clk));
  }

  /** The UPDATE of update_profile, once the rename check has passed: the
      row becomes the abstract update's result with its id and stamp kept,
      and the table keeps its constraints and its references. */
  lemma UpdateKeepsRowsValid(rows: map<int, ProfileRow>, users: map<int, UserRow>, next: int, clk: nat,
                             id: int, patch: Patch)
    requires RowsValid(rows, next, clk) && RowsReferTo(rows, users)
    requires id in rows
    requires !StoreSpec.RenameClashes(ProfilesView(rows), id, patch)
    ensures var p := StoreSpec.ApplyPatch(rows[id].profile, patch);
            var after := rows[id := ProfileRow(p, rows[id].createdAt)];
            && StoreSpec.UpdateProfile(ProfilesView(rows), id, patch) == Success(Some(p))
            && ProfilesView(after) == ProfilesView(rows)[id := p]
            && RowsValid(after, next, clk) && RowsReferTo(after, users)
  {
    var p := StoreSpec.ApplyPatch(rows[id].profile, patch);
    StoreSpec.UpdatePreservesProfilesOk(ProfilesView(rows), id, patch);
    ProfilesViewWrite(rows, id, ProfileRow(p, rows[id].createdAt));
  }

  /** DELETE of one row keeps the table valid. */
  lemma RemoveKeepsRowsValid(rows: map<int, ProfileRow>, users: map<int, UserRow>, next: int, clk: nat, id: int)
    requires RowsValid(rows, next, clk) && RowsReferTo(rows, users)
    ensures ProfilesView(rows - {id}) == ProfilesView(rows) - {id}
    ensures RowsValid(rows - {id}, next, clk) && RowsReferTo(rows - {id}, users)
  {
    ProfilesViewRemove(rows, id);
    StoreSpec.DeletePreservesProfilesOk(ProfilesView(rows), id);
  }

  /** Each listed profile is the current row, in strictly ascending creation order. */
  ghost predicate CreationOrdered(ps: seq<Profile>, rows: map<int, ProfileRow>) {
    && (forall i :: 0 <= i < |ps| ==> ps[i].id in rows && ps[i] == rows[ps[i].id].profile)
    && (forall i, j :: 0 <= i < j < |ps| ==> rows[ps[i].id].createdAt < rows[ps[j].id].createdAt)
  }

  lemma MoveElement(done: set<int>, remaining: set<int>, x: int)
    requires x in remaining
    ensures (done + {x}) + (remaining - {x}) == done + remaining
  {
  }

  /** Appending the earliest of the rows not yet listed keeps the list
      ordered and still before every row left. */
  lemma AppendEarliest(r: seq<Profile>, rows: map<int, ProfileRow>, remaining: set<int>, next: int)
    requires CreationOrdered(r, rows)
    requires next in remaining && remaining <= rows.Keys && rows[next].profile.id == next
    requires forall x :: x in remaining ==> rows[next].createdAt <= rows[x].createdAt
    requires forall a, b :: a in remaining && b in remaining && a != b ==> rows[a].createdAt != rows[b].createdAt
    requires forall i, x :: 0 <= i < |r| && x in remaining ==> rows[r[i].id].createdAt < rows[x].createdAt
    ensures CreationOrdered(r + [rows[next].profile], rows)
    ensures forall i, x :: 0 <= i < |r| + 1 && x in remaining - {next} ==>
              rows[(r + [rows[next].profile])[i].id].createdAt < rows[x].createdAt
  {
    var p := rows[next].profile;
    var r' := r + [p];
    assert r'[|r|] == p;
    forall i, j | 0 <= i < j < |r'| ensures rows[r'[i].id].createdAt < rows[r'[j].id].createdAt {
      if j == |r| {
        assert r'[i] == r[i];
      } else {
        assert r'[i] == r[i] && r'[j] == r[j];
      }
    }
    forall i | 0 <= i < |r'| ensures r'[i].id in rows && r'[i] == rows[r'[i].id].profile {
      if i < |r| { assert r'[i] == r[i]; }
    }
    forall i, x | 0 <= i < |r'| && x in remaining - {next} ensures rows[r'[i].id].createdAt < rows[x].createdAt {
      if i < |r| {
        assert r'[i] == r[i];
      }
    }
  }

  /** The rows with the given ids, sorted by creation stamp (the ORDER BY). */
  method OrderByCreation(rows: map<int, ProfileRow>, ids: set<int>) returns (r: seq<Profile>)
    requires ids <= rows.Keys
    requires forall k :: k in ids ==> rows[k].profile.id == k
    requires forall a, b :: a in ids && b in ids && a != b ==> rows[a].createdAt != rows[b].createdAt
    ensures StoreSpec.IdsOf(r) == ids
    ensures CreationOrdered(r, rows)
  {
    var remaining := ids;
    r := [];
    while remaining != {}
      invariant remaining <= ids
      invariant StoreSpec.IdsOf(r) + remaining == ids
      invariant CreationOrdered(r, rows)
      invariant forall i, x :: 0 <= i < |r| && x in remaining ==> rows[r[i].id].createdAt < rows[x].createdAt
      decreases |remaining|
    {
      EarliestExists(remaining, rows);
      var next :| next in remaining && forall x :: x in remaining ==> rows[next].createdAt <= rows[x].createdAt;
      var p := rows[next].profile;
      assert p.id == next;
      StoreSpec.IdsOfAppend(r, p);
      var r' := r + [p];
      var remaining' := remaining - {next};
      MoveElement(StoreSpec.IdsOf(r), remaining, next);
      assert StoreSpec.IdsOf(r') + remaining' == ids;
      AppendEarliest(r, rows, remaining, next);
      r, remaining := r', remaining';
    }
  }

  /** The UPDATE's SET list: each given column is assigned, the others keep
      their value, and `changed` says whether the list is non-empty. */
  method SetColumns(current: Profile, patch: Patch) returns (row: Profile, changed: bool)
    ensures row == StoreSpec.ApplyPatch(current, patch)
    ensures changed <==> patch != EmptyPatch
  {
    row, changed := current, false;
    if patch.name.Some? {
      row, changed := row.(name := patch.name.value), true;
    }
    if patch.isKids.Some? {
      row, changed := row.(isKids := patch.isKids.value), true;
    }
    if patch.avatar.Some? {
      row, changed := row.(avatar := patch.avatar.value), true;
    }
    if patch.language.Some? {
      row, changed := row.(language := patch.language.value), true;
    }
    if patch.maturityLevel.Some? {
      row, changed := row.(maturityLevel := patch.maturityLevel.value), true;
    }
    if patch.preferences.Some? {
      row, changed := row.(preferences := patch.preferences.value), true;
    }
  }

  /** The transaction of create_or_update_user on the users table and its
      sequence: the match query, then the collision error, the merging
      UPDATE of the one match, or the INSERT under the next id. */
  method ResolveUserTx(users: map<int, UserRow>, next: int, req: Ids)
    returns (r: Result<int, StoreError>, after: map<int, UserRow>, next': int)
    requires UserRowsValid(users, next)
    ensures UserRowsValid(after, next') && users.Keys <= after.Keys
    ensures var res := StoreSpec.Resolve(UsersView(users), req, next);
            r == StoreSpec.Reply(res.outcome) && UsersView(after) == res.users
    ensures r.Failure? ==> after == users && next' == next
    ensures r.Success? && r.value in users ==> next' == next && after.Keys == users.Keys
    ensures r.Success? && r.value !in users ==>
              r.value == next && next' == next + 1 && after == users[next := InsertRow(req)]
  {
    ghost var res := StoreSpec.Resolve(UsersView(users), req, next);
    RowMatchSetIs(users, req);
    var rows := set id | id in users && RowMatches(users[id], req);
    if |rows| > 1 {
      r, after, next' := Failure(IdentityCollision(rows)), users, next;
      return;
    }
    if rows != {} {
      NonEmptyHasElement(rows);
      var id :| id in rows;
      StoreSpec.SingletonIs(rows, id);
      assert res.outcome == StoreSpec.Merged(id);
      MergeKeepsUserRowsValid(users, next, id, req);
      r, after, next' := Success(id), users[id := MergeRow(users[id], req)], next;
      return;
    }
    InsertKeepsUserRowsValid(users, next, req);
    r, after, next' := Success(next), users[next := InsertRow(req)], next + 1;
  }

  /** The transaction of create_profile: the COUNT against the limit, the
      name query, then the INSERT under the next id stamped with the clock,
      which the foreign key rejects when the user has no row. */
  method CreateProfileTx(rows: map<int, ProfileRow>, users: map<int, UserRow>, next: int, clk: nat,
                         userId: int, np: NewProfile)
    returns (r: Result<Profile, StoreError>, after: map<int, ProfileRow>, next': int, clk': nat)
    requires RowsValid(rows, next, clk) && RowsReferTo(rows, users)
    ensures RowsValid(after, next', clk') && RowsReferTo(after, users)
    ensures next !in ProfilesView(rows)
    ensures var spec := StoreSpec.CreateProfile(ProfilesView(rows), userId, np, next);
            r == if spec.Success? && userId !in users then Failure(ForeignKeyViolation(userId)) else spec
    ensures ProfilesView(after) == StoreSpec.AfterCreate(ProfilesView(rows), r)
    ensures r.Success? ==> next' == next + 1 && clk' == clk + 1 && after == rows[next := ProfileRow(r.value, clk)]
    ensures r.Failure? ==> after == rows && clk' == clk
    ensures r.Failure? ==> next' == if r.error.ForeignKeyViolation? then next + 1 else next
  {
    after, next', clk' := rows, next, clk;
    ProfileQueriesAgree(rows, userId, np.name, 0);
    var count := |set id | id in rows && rows[id].profile.userId == userId|;
    if count >= MaxProfilesPerUser {
      r := Failure(ProfileLimit(userId, count));
      return;
    }
    var existing := exists id | id in rows :: rows[id].profile.userId == userId && rows[id].profile.name == np.name;
    if existing {
      r := Failure(ProfileNameExists(userId, np.name));
      return;
    }
    if userId !in users {
      // The INSERT has already drawn its id from the sequence when the
      // foreign key rejects the row, and a sequence is not rolled back.
      r, next' := Failure(ForeignKeyViolation(userId)), next + 1;
      return;
    }
    var p := Profile(next, userId, np.name, np.isKids, np.avatar, np.language, np.maturityLevel, "[]");
    CreateKeepsRowsValid(rows, users, next, clk, userId, np);
    r, after, next', clk' := Success(p), rows[next := ProfileRow(p, clk)], next + 1, clk + 1;
  }

  /** The transaction of update_profile: load the row, check a rename
      against the siblings, then run the UPDATE with the given columns, or
      write nothing when none is given. */
  method UpdateProfileTx(rows: map<int, ProfileRow>, users: map<int, UserRow>, next: int, clk: nat,
                         profileId: int, patch: Patch)
    returns (r: Result<Option<Profile>, StoreError>, after: map<int, ProfileRow>)
    requires RowsValid(rows, next, clk) && RowsReferTo(rows, users)
    ensures RowsValid(after, next, clk) && RowsReferTo(after, users)
    ensures r == StoreSpec.UpdateProfile(ProfilesView(rows), profileId, patch)
    ensures ProfilesView(after) == StoreSpec.AfterUpdate(ProfilesView(rows), profileId, r)
    ensures patch == EmptyPatch || r.Failure? || r == Success(None) ==> after == rows
    ensures after.Keys == rows.Keys
    ensures forall k :: k in after ==> after[k].createdAt == rows[k].createdAt
  {
    after := rows;
    if profileId !in rows {
      r := Success(None);
      return;
    }
    var current := rows[profileId].profile;
    if patch.name.Some? && patch.name.value != current.name {
      ProfileQueriesAgree(rows, current.userId, patch.name.value, profileId);
      var existing := exists id | id in rows ::
                        rows[id].profile.userId == current.userId
                        && rows[id].profile.name == patch.name.value
                        && id != profileId;
      if existing {
        r := Failure(ProfileNameExists(current.userId, patch.name.value));
        return;
      }
    }
    var row, changed := SetColumns(current, patch);
    if !changed {
      StoreSpec.UpdateKeepingNameSucceeds(ProfilesView(rows), profileId, patch);
      r := Success(Some(current));
      return;
    }
    UpdateKeepsRowsValid(rows, users, next, clk, profileId, patch);
    after := rows[profileId := ProfileRow(row, rows[profileId].createdAt)];
    r := Success(Some(row));
  }

  class Database {
    var users: map<int, UserRow>
    var profiles: map<int, ProfileRow>
    /** The next values of the two id sequences (SERIAL columns start at 1). */
    var userSeq: int
    var profileSeq: int
    /** The next creation stamp; stands in for now() in `created_at`. */
    var clock: nat

    ghost function Users(): map<int, Ids>
      reads this`users
    {
      UsersView(users)
    }

    ghost function Profiles(): map<int, Profile>
      reads this`profiles
    {
      ProfilesView(profiles)
    }

    /** The users table's constraints: ids from the sequence, no empty
        string stored, each identifier column unique. */
    ghost predicate UsersValid()
      reads this`users, this`userSeq
    {
      UserRowsValid(users, userSeq)
    }

    /** The profiles table's constraints and the per-user invariants. */
    ghost predicate ProfilesValid()
      reads this`profiles, this`profileSeq, this`clock
    {
      RowsValid(profiles, profileSeq, clock)
    }

    /** profiles.user_id references users.id. */
    ghost predicate ForeignKeyHolds()
      reads this`users, this`profiles
    {
      RowsReferTo(profiles, users)
    }

    ghost predicate Valid()
      reads this
    {
      UsersValid() && ProfilesValid() && ForeignKeyHolds()
    }

    constructor ()
      ensures Valid()
      ensures users == map[] && profiles == map[]
      ensures userSeq == 1 && profileSeq == 1
    {
      users, profiles := map[], map[];
      userSeq, profileSeq, clock := 1, 1, 0;
    }

    /** create_or_update_user: match by any supplied identifier, then fail,
        merge into the one match, or insert a new row. */
    method CreateOrUpdateUser(args: IdArgs) returns (r: Result<int, StoreError>)
      requires Valid()
      modifies this`users, this`userSeq
      ensures Valid()
      ensures var res := StoreSpec.Resolve(old(Users()), Normalized(args), old(userSeq));
              r == StoreSpec.Reply(res.outcome) && Users() == res.users
      ensures r.Failure? ==> users == old(users) && userSeq == old(userSeq)
      ensures r.Success? && r.value in old(users) ==> userSeq == old(userSeq)
      ensures r.Success? && r.value !in old(users) ==>
                && r.value == old(userSeq) && userSeq == old(userSeq) + 1
                && r.value in users && users[r.value] == InsertRow(Normalized(args))
    {
      var after, next;
      r, after, next := ResolveUserTx(users, userSeq, Normalized(args));
      ReferToGrown(profiles, users, after);
      users, userSeq := after, next;
    }

    /** get_user: the row with that id, if any. */
    method GetUser(userId: int) returns (r: Option<UserRow>)
      requires Valid()
      ensures r.Some? <==> userId in Users()
      ensures r.Some? ==> r.value == users[userId] && Normalized(r.value) == Users()[userId]
    {
      r := if userId in users then Some(users[userId]) else None;
    }

    /** list_profiles: the user's profiles, ORDER BY created_at ASC. */
    method ListProfiles(userId: int) returns (r: seq<Profile>)
      requires Valid()
      ensures StoreSpec.IdsOf(r) == StoreSpec.OwnedBy(Profiles(), userId)
      ensures CreationOrdered(r, profiles)
    {
      var owned := set id | id in profiles && profiles[id].profile.userId == userId;
      assert owned == StoreSpec.OwnedBy(Profiles(), userId);
      r := OrderByCreation(profiles, owned);
    }

    /** create_profile: the limit check, then the name check, then the insert. */
    method CreateProfile(userId: int, np: NewProfile) returns (r: Result<Profile, StoreError>)
      requires Valid()
      modifies this`profiles, this`profileSeq, this`clock
      ensures Valid()
      ensures var spec := StoreSpec.CreateProfile(old(Profiles()), userId, np, old(profileSeq));
              r == if spec.Success? && userId !in old(users) then Failure(ForeignKeyViolation(userId)) else spec
      ensures Profiles() == StoreSpec.AfterCreate(old(Profiles()), r)
      ensures r.Success? ==> profileSeq == old(profileSeq) + 1 && r.value.id in profiles && profiles[r.value.id].createdAt == old(clock)
      ensures r.Success? ==> profiles == old(profiles)[r.value.id := ProfileRow(r.value, old(clock))] && clock == old(clock) + 1
      ensures r.Failure? ==> profiles == old(profiles) && clock == old(clock)
      ensures r.Failure? ==>
                profileSeq == if r.error.ForeignKeyViolation? then old(profileSeq) + 1 else old(profileSeq)
    {
      r, profiles, profileSeq, clock := CreateProfileTx(profiles, users, profileSeq, clock, userId, np);
    }

    /** get_profile: the row with that id, if any. */
    method GetProfile(profileId: int) returns (r: Option<Profile>)
      requires Valid()
      ensures r.Some? <==> profileId in Profiles()
      ensures r.Some? ==> r.value == Profiles()[profileId] && r.value.id == profileId
    {
      r := if profileId in profiles then Some(profiles[profileId].profile) else None;
    }

    /** update_profile: load, check a rename against the siblings, then write
        the given columns (or nothing when no column is given). */
    method UpdateProfile(profileId: int, patch: Patch) returns (r: Result<Option<Profile>, StoreError>)
      requires Valid()
      modifies this`profiles
      ensures Valid()
      ensures r == StoreSpec.UpdateProfile(old(Profiles()), profileId, patch)
      ensures Profiles() == StoreSpec.AfterUpdate(old(Profiles()), profileId, r)
      ensures patch == EmptyPatch || r.Failure? || r == Success(None) ==> profiles == old(profiles)
      ensures profiles.Keys == old(profiles).Keys
      ensures forall k :: k in profiles ==> profiles[k].createdAt == old(profiles)[k].createdAt
    {
      r, profiles := UpdateProfileTx(profiles, users, profileSeq, clock, profileId, patch);
    }

    /** delete_profile: true iff the DELETE removed exactly one row. */
    method DeleteProfile(profileId: int) returns (deleted: bool)
      requires Valid()
      modifies this`profiles
      ensures Valid()
      ensures deleted <==> profileId in old(Profiles())
      ensures Profiles() == old(Profiles()) - {profileId}
      ensures profiles == old(profiles) - {profileId}
      ensures users == old(users) && userSeq == old(userSeq) && profileSeq == old(profileSeq) && clock == old(clock)
    {
      ghost var before := Profiles();
      var removed := if profileId in profiles then 1 else 0;
      RemoveKeepsRowsValid(profiles, users, profileSeq, clock, profileId);
      profiles := profiles - {profileId};
      deleted := removed == 1;
    }
  }
}
