/** The abstract store both implementations refine: the `users` table as a map
    from id to identifier set ("" = no value recorded) and the `profiles` table
    as a map from id to profile row. Each operation is one atomic step on these
    maps; the lemmas state the invariants the operations keep. */
module StoreSpec {
  import opened Common

  // ================= Identity resolution =================

  /** Field `f` of the stored user equals the value supplied for it, and that
      value is not empty. An empty supplied value never matches, and neither
      does a stored field without a value. */
  predicate FieldMatch(u: Ids, req: Ids, f: Field) {
    req.Get(f) != "" && u.Get(f) == req.Get(f)
  }

  /** The five equality tests OR-ed together. */
  predicate Matches(u: Ids, req: Ids) {
    || FieldMatch(u, req, GoogleId)
    || FieldMatch(u, req, AppleId)
    || FieldMatch(u, req, Email)
    || FieldMatch(u, req, Phone)
    || FieldMatch(u, req, Username)
  }

  /** The distinct ids of the users that hold at least one supplied value. */
  function MatchSet(users: map<int, Ids>, req: Ids): (m: set<int>)
    ensures m <= users.Keys
    ensures forall id, f :: id in users && FieldMatch(users[id], req, f) ==> id in m
    ensures forall id :: id in m ==> exists f :: FieldMatch(users[id], req, f)
  {
    set id | id in users && Matches(users[id], req)
  }

  /** The merge: a supplied (non-empty) value overwrites, an absent one keeps. */
  function Merge(u: Ids, req: Ids): (r: Ids)
    ensures forall f :: req.Get(f) != "" ==> r.Get(f) == req.Get(f)
    ensures forall f :: req.Get(f) == "" ==> r.Get(f) == u.Get(f)
  {
    Ids(if req.username != "" then req.username else u.username,
        if req.email != "" then req.email else u.email,
        if req.phone != "" then req.phone else u.phone,
        if req.googleId != "" then req.googleId else u.googleId,
        if req.appleId != "" then req.appleId else u.appleId)
  }

  datatype Resolution = Collision(userIds: set<int>) | Merged(id: int) | Created(id: int)

  datatype Resolved = Resolved(outcome: Resolution, users: map<int, Ids>)

  /** What the caller of create_or_update_user sees. */
  function Reply(r: Resolution): Result<int, StoreError> {
    match r
    case Collision(ids) => Failure(IdentityCollision(ids))
    case Merged(id) => Success(id)
    case Created(id) => Success(id)
  }

  lemma TwoDistinctIff(m: set<int>)
    ensures |m| >= 2 <==> exists a, b :: a in m && b in m && a != b
  {
    if |m| >= 2 {
      NonEmptyHasElement(m);
      var a :| a in m;
      assert |m - {a}| == |m| - 1;
      NonEmptyHasElement(m - {a});
      var b :| b in m - {a};
    }
    if exists a, b :: a in m && b in m && a != b {
      var a, b :| a in m && b in m && a != b;
      assert {a, b} <= m;
      assert |{a, b}| == 2;
      SubsetCard({a, b}, m);
    }
  }

  lemma SingletonIs(m: set<int>, id: int)
    requires |m| == 1 && id in m
    ensures m == {id}
  {
    assert |m - {id}| == 0;
  }

  lemma {:induction false} SubsetCard(a: set<int>, b: set<int>)
    requires a <= b
    ensures |a| <= |b|
    decreases |b|
  {
    if b != {} {
      NonEmptyHasElement(b);
      var x :| x in b;
      SubsetCard(a - {x}, b - {x});
    }
  }

  /** One resolution step: more than one distinct matching user is a
      collision and changes nothing; exactly one is merged into; none makes a
      new user under `newId`. */
  ghost function Resolve(users: map<int, Ids>, req: Ids, newId: int): (r: Resolved)
    requires newId !in users
    ensures r.outcome.Collision? ==> r.users == users
    ensures Reply(r.outcome).Success? ==> Reply(r.outcome).value in r.users
  {
    var m := MatchSet(users, req);
    if |m| > 1 then Resolved(Collision(m), users)
    else if |m| == 1 then
      NonEmptyHasElement(m);
      var id :| id in m;
      Resolved(Merged(id), users[id := Merge(users[id], req)])
    else Resolved(Created(newId), users[newId := req])
  }

  /** Which of the three outcomes a request gets, in terms of who holds the
      supplied values: a collision iff two different users each hold one, a
      creation iff nobody holds any, and otherwise a merge into the one user
      that holds them all. */
  lemma ResolveOutcome(users: map<int, Ids>, req: Ids, newId: int)
    requires newId !in users
    ensures var r := Resolve(users, req, newId).outcome;
            && (r.Collision? <==>
                  exists a, b :: a in users && b in users && a != b && Matches(users[a], req) && Matches(users[b], req))
            && (r.Created? <==> forall a, f :: a in users ==> !FieldMatch(users[a], req, f))
            && (r.Merged? ==>
                  && r.id in users
                  && (exists f :: FieldMatch(users[r.id], req, f))
                  && (forall b, f :: b in users && FieldMatch(users[b], req, f) ==> b == r.id))
  {
    var m := MatchSet(users, req);
    var r := Resolve(users, req, newId).outcome;
    TwoDistinctIff(m);
    if r.Merged? {
      SingletonIs(m, r.id);
    }
    if r.Created? {
      assert m == {};
    } else {
      assert m != {};
      NonEmptyHasElement(m);
      var x :| x in m;
      assert exists f :: FieldMatch(users[x], req, f);
    }
  }

  /** What each outcome does to the users table: a collision writes nothing;
      a merge gives the matched user every supplied value and keeps its other
      fields; a creation adds exactly the request under the new id; no other
      user changes. */
  lemma ResolveEffect(users: map<int, Ids>, req: Ids, newId: int)
    requires newId !in users
    ensures var r := Resolve(users, req, newId);
            && (r.outcome.Collision? ==> r.users == users && r.outcome.userIds == MatchSet(users, req)
                                         && |r.outcome.userIds| >= 2)
            && (r.outcome.Created? ==> r.outcome.id == newId && r.users == users[newId := req])
            && (r.outcome.Merged? ==>
                  && r.users.Keys == users.Keys
                  && (forall f :: r.users[r.outcome.id].Get(f) ==
                                    if req.Get(f) != "" then req.Get(f) else users[r.outcome.id].Get(f))
                  && (forall x :: x in users && x != r.outcome.id ==> r.users[x] == users[x]))
  {
    var r := Resolve(users, req, newId);
    if r.outcome.Merged? {
      var id := r.outcome.id;
      forall f ensures r.users[id].Get(f) == if req.Get(f) != "" then req.Get(f) else users[id].Get(f) {
        match f
        case Username => case Email => case Phone => case GoogleId => case AppleId =>
      }
    }
  }

  /** The store's per-field uniqueness constraint: no two users share a
      non-empty value in the same identifier field. */
  ghost predicate UniqueIds(users: map<int, Ids>) {
    forall a, b, f :: a in users && b in users && users[a].Get(f) != "" && users[a].Get(f) == users[b].Get(f) ==> a == b
  }

  /** Resolution never copies into a user a value another user holds, so the
      uniqueness constraint on the identifier columns can never fire. */
  lemma ResolvePreservesUniqueIds(users: map<int, Ids>, req: Ids, newId: int)
    requires newId !in users
    requires UniqueIds(users)
    ensures UniqueIds(Resolve(users, req, newId).users)
  {
    var r := Resolve(users, req, newId);
    ResolveOutcome(users, req, newId);
    ResolveEffect(users, req, newId);
    var u := r.users;
    forall a, b, f | a in u && b in u && u[a].Get(f) != "" && u[a].Get(f) == u[b].Get(f)
      ensures a == b
    {
      match r.outcome
      case Collision(_) =>
      case Merged(id) =>
        if a != b && (a == id || b == id) {
          var other := if a == id then b else a;
          if req.Get(f) != "" {
            assert FieldMatch(users[other], req, f);
          }
        }
      case Created(id) =>
        if a != b && (a == id || b == id) {
          var other := if a == id then b else a;
          assert FieldMatch(users[other], req, f);
        }
    }
  }

  /** After a non-colliding resolution the resolved user holds every supplied
      value and no other user holds any of them. */
  lemma ResolvedUserOwnsRequest(users: map<int, Ids>, req: Ids, newId: int)
    requires newId !in users
    requires !Resolve(users, req, newId).outcome.Collision?
    ensures var first := Resolve(users, req, newId);
            && first.outcome.id in first.users
            && Merge(first.users[first.outcome.id], req) == first.users[first.outcome.id]
            && (forall b, f :: b in first.users && FieldMatch(first.users[b], req, f) ==> b == first.outcome.id)
  {
    var first := Resolve(users, req, newId);
    ResolveOutcome(users, req, newId);
    ResolveEffect(users, req, newId);
    var id := first.outcome.id;
    var u1 := first.users;
    forall f ensures u1[id].Get(f) == if req.Get(f) != "" then req.Get(f) else u1[id].Get(f) {
      if first.outcome.Created? {
        assert u1[id] == req;
      }
    }
    assert Merge(u1[id], req) == u1[id] by {
      assert u1[id].Get(Username) == Merge(u1[id], req).Get(Username);
      assert u1[id].Get(Email) == Merge(u1[id], req).Get(Email);
      assert u1[id].Get(Phone) == Merge(u1[id], req).Get(Phone);
      assert u1[id].Get(GoogleId) == Merge(u1[id], req).Get(GoogleId);
      assert u1[id].Get(AppleId) == Merge(u1[id], req).Get(AppleId);
    }
  }

  /** Idempotent convergence: once a request with at least one supplied value
      has been resolved, resolving it again returns the same user and changes
      nothing. */
  lemma ResolveConverges(users: map<int, Ids>, req: Ids, newId: int, newId2: int)
    requires newId !in users
    requires req != NoIds
    requires !Resolve(users, req, newId).outcome.Collision?
    requires newId2 !in Resolve(users, req, newId).users
    ensures var first := Resolve(users, req, newId);
            Resolve(first.users, req, newId2) == Resolved(Merged(first.outcome.id), first.users)
  {
    var first := Resolve(users, req, newId);
    ResolvedUserOwnsRequest(users, req, newId);
    var id := first.outcome.id;
    var u1 := first.users;
    var f0 :| req.Get(f0) != "" by {
      if req.username != "" { assert req.Get(Username) != ""; }
      else if req.email != "" { assert req.Get(Email) != ""; }
      else if req.phone != "" { assert req.Get(Phone) != ""; }
      else if req.googleId != "" { assert req.Get(GoogleId) != ""; }
      else { assert req.Get(AppleId) != ""; }
    }
    assert u1[id].Get(f0) == Merge(u1[id], req).Get(f0);
    assert FieldMatch(u1[id], req, f0);
    var m := MatchSet(u1, req);
    forall x | x in m ensures x == id {
      var f :| FieldMatch(u1[x], req, f);
    }
    assert m == {id};
  }

  /** Two identifiers held by two different users cannot be resolved: the
      outcome is a collision naming both and nothing changes. */
  lemma SplitIdentifiersCollide(users: map<int, Ids>, req: Ids, newId: int, a: int, b: int, fa: Field, fb: Field)
    requires newId !in users
    requires a in users && b in users && a != b
    requires FieldMatch(users[a], req, fa) && FieldMatch(users[b], req, fb)
    ensures var r := Resolve(users, req, newId);
            r.outcome.Collision? && {a, b} <= r.outcome.userIds && r.users == users
  {
    var r := Resolve(users, req, newId);
    ResolveOutcome(users, req, newId);
    ResolveEffect(users, req, newId);
    assert Matches(users[a], req) by { assert FieldMatch(users[a], req, fa); }
    assert Matches(users[b], req) by { assert FieldMatch(users[b], req, fb); }
    assert a in MatchSet(users, req) && b in MatchSet(users, req);
  }

  /** Without the caller's presence check, a request with no identifier
      always creates a new, empty user. */
  lemma EmptyRequestCreatesBlankUser(users: map<int, Ids>, newId: int)
    requires newId !in users
    ensures Resolve(users, NoIds, newId) == Resolved(Created(newId), users[newId := NoIds])
  {
    assert forall a, f :: a in users ==> !FieldMatch(users[a], NoIds, f);
  }

  // ================= Profiles =================

  /** The ids of the profiles owned by `uid` (WHERE user_id = uid). */
  function OwnedBy(profiles: map<int, Profile>, uid: int): (s: set<int>)
    ensures s <= profiles.Keys
    ensures forall id :: id in profiles && profiles[id].userId == uid ==> id in s
    ensures forall id :: id in s ==> profiles[id].userId == uid
  {
    set id | id in profiles && profiles[id].userId == uid
  }

  /** The ids of a list of profiles. */
  function IdsOf(ps: seq<Profile>): set<int> {
    set i | 0 <= i < |ps| :: ps[i].id
  }

  lemma IdsOfAppend(ps: seq<Profile>, p: Profile)
    ensures IdsOf(ps + [p]) == IdsOf(ps) + {p.id}
  {
    var qs := ps + [p];
    assert qs[|ps|] == p;
    forall x | x in IdsOf(ps) ensures x in IdsOf(qs) {
      var i :| 0 <= i < |ps| && ps[i].id == x;
      assert qs[i] == ps[i];
    }
  }

  /** Some profile of `uid` other than `except` is named `name`. */
  predicate NameHeld(profiles: map<int, Profile>, uid: int, name: string, except: Option<int>) {
    exists id :: id in profiles && profiles[id].userId == uid && profiles[id].name == name && except != Some(id)
  }

  ghost predicate KeyedById(profiles: map<int, Profile>) {
    forall id :: id in profiles ==> profiles[id].id == id
  }

  ghost predicate WithinLimit(profiles: map<int, Profile>) {
    forall uid :: |OwnedBy(profiles, uid)| <= MaxProfilesPerUser
  }

  ghost predicate NamesUnique(profiles: map<int, Profile>) {
    forall a, b :: a in profiles && b in profiles && a != b && profiles[a].userId == profiles[b].userId
                   ==> profiles[a].name != profiles[b].name
  }

  /** The profile invariants: at most five profiles per user, and no two
      profiles of one user with the same name. */
  ghost predicate ProfilesOk(profiles: map<int, Profile>) {
    KeyedById(profiles) && WithinLimit(profiles) && NamesUnique(profiles)
  }

  /** create_profile: the limit is checked first, then the name, then one row
      with preferences "[]" is inserted. */
  function CreateProfile(profiles: map<int, Profile>, uid: int, np: NewProfile, newId: int): (r: Result<Profile, StoreError>)
    requires newId !in profiles
    ensures r == Failure(ProfileLimit(uid, |OwnedBy(profiles, uid)|)) <==>
              |OwnedBy(profiles, uid)| >= MaxProfilesPerUser
    ensures r == Failure(ProfileNameExists(uid, np.name)) <==>
              |OwnedBy(profiles, uid)| < MaxProfilesPerUser && NameHeld(profiles, uid, np.name, None)
    ensures r.Success? <==>
              |OwnedBy(profiles, uid)| < MaxProfilesPerUser && !NameHeld(profiles, uid, np.name, None)
    ensures r.Success? ==>
              r.value == Profile(newId, uid, np.name, np.isKids, np.avatar, np.language, np.maturityLevel, "[]")
    ensures r.Failure? ==> r.error.ProfileLimit? || r.error.ProfileNameExists?
  {
    var count := |OwnedBy(profiles, uid)|;
    if count >= MaxProfilesPerUser then Failure(ProfileLimit(uid, count))
    else if NameHeld(profiles, uid, np.name, None) then Failure(ProfileNameExists(uid, np.name))
    else Success(Profile(newId, uid, np.name, np.isKids, np.avatar, np.language, np.maturityLevel, "[]"))
  }

  function AfterCreate(profiles: map<int, Profile>, r: Result<Profile, StoreError>): map<int, Profile> {
    if r.Success? then profiles[r.value.id := r.value] else profiles
  }

  lemma OwnedByInsert(profiles: map<int, Profile>, p: Profile, uid: int)
    requires p.id !in profiles
    ensures OwnedBy(profiles[p.id := p], uid) ==
              if p.userId == uid then OwnedBy(profiles, uid) + {p.id} else OwnedBy(profiles, uid)
  {
  }

  /** A successful creation adds exactly one profile to that user's set and
      leaves every other user's set as it was. */
  lemma CreateAddsOne(profiles: map<int, Profile>, uid: int, np: NewProfile, newId: int, other: int)
    requires newId !in profiles
    requires CreateProfile(profiles, uid, np, newId).Success?
    ensures var after := AfterCreate(profiles, CreateProfile(profiles, uid, np, newId));
            && |OwnedBy(after, uid)| == |OwnedBy(profiles, uid)| + 1
            && (other != uid ==> OwnedBy(after, other) == OwnedBy(profiles, other))
  {
    var p := CreateProfile(profiles, uid, np, newId).value;
    OwnedByInsert(profiles, p, uid);
    OwnedByInsert(profiles, p, other);
  }

  lemma CreatePreservesProfilesOk(profiles: map<int, Profile>, uid: int, np: NewProfile, newId: int)
    requires newId !in profiles
    requires ProfilesOk(profiles)
    ensures ProfilesOk(AfterCreate(profiles, CreateProfile(profiles, uid, np, newId)))
  {
    var r := CreateProfile(profiles, uid, np, newId);
    if r.Success? {
      var after := AfterCreate(profiles, r);
      forall u ensures |OwnedBy(after, u)| <= MaxProfilesPerUser {
        OwnedByInsert(profiles, r.value, u);
      }
      forall a, b | a in after && b in after && a != b && after[a].userId == after[b].userId
        ensures after[a].name != after[b].name
      {
        if a == newId { assert !NameHeld(profiles, uid, np.name, None); assert profiles[b].userId == uid; }
        if b == newId { assert !NameHeld(profiles, uid, np.name, None); assert profiles[a].userId == uid; }
      }
    }
  }

  /** A user with four profiles can create a fifth under an unused name;
      after that every further creation for that user hits the limit. */
  lemma FifthProfileThenLimit(profiles: map<int, Profile>, uid: int, np: NewProfile, np2: NewProfile, newId: int, newId2: int)
    requires newId !in profiles && newId2 !in profiles && newId2 != newId
    requires |OwnedBy(profiles, uid)| == 4
    requires !NameHeld(profiles, uid, np.name, None)
    ensures CreateProfile(profiles, uid, np, newId).Success?
    ensures var after := AfterCreate(profiles, CreateProfile(profiles, uid, np, newId));
            CreateProfile(after, uid, np2, newId2) == Failure(ProfileLimit(uid, 5))
  {
    CreateAddsOne(profiles, uid, np, newId, uid);
  }

  /** Names are unique per user only: a name just given to one user's new
      profile stays free for another user below the limit who does not hold it. */
  lemma SameNameOtherUserAllowed(profiles: map<int, Profile>, uid: int, other: int, np: NewProfile,
                                 newId: int, newId2: int)
    requires newId !in profiles && newId2 !in profiles && newId2 != newId
    requires other != uid
    requires CreateProfile(profiles, uid, np, newId).Success?
    requires |OwnedBy(profiles, other)| < MaxProfilesPerUser && !NameHeld(profiles, other, np.name, None)
    ensures var after := AfterCreate(profiles, CreateProfile(profiles, uid, np, newId));
            && NameHeld(after, uid, np.name, None)
            && CreateProfile(after, other, np, newId2).Success?
  {
    var after := AfterCreate(profiles, CreateProfile(profiles, uid, np, newId));
    CreateAddsOne(profiles, uid, np, newId, other);
    assert after[newId].userId == uid && after[newId].name == np.name;
  }

  /** update_profile's effect on a row: each given field replaces the old one. */
  function ApplyPatch(p: Profile, patch: Patch): (r: Profile)
    ensures r.id == p.id && r.userId == p.userId
    ensures patch == EmptyPatch ==> r == p
    ensures && (patch.name.Some? ==> r.name == patch.name.value)
            && (patch.isKids.Some? ==> r.isKids == patch.isKids.value)
            && (patch.avatar.Some? ==> r.avatar == patch.avatar.value)
            && (patch.language.Some? ==> r.language == patch.language.value)
            && (patch.maturityLevel.Some? ==> r.maturityLevel == patch.maturityLevel.value)
            && (patch.preferences.Some? ==> r.preferences == patch.preferences.value)
  {
    Profile(p.id, p.userId,
            if patch.name.Some? then patch.name.value else p.name,
            if patch.isKids.Some? then patch.isKids.value else p.isKids,
            if patch.avatar.Some? then patch.avatar.value else p.avatar,
            if patch.language.Some? then patch.language.value else p.language,
            if patch.maturityLevel.Some? then patch.maturityLevel.value else p.maturityLevel,
            if patch.preferences.Some? then patch.preferences.value else p.preferences)
  }

  /** The rename check: a new name must not be held by a sibling profile of
      the same user; the profile's own id is excluded. */
  predicate RenameClashes(profiles: map<int, Profile>, id: int, patch: Patch)
    requires id in profiles
    ensures RenameClashes(profiles, id, patch) <==>
              && patch.name.Some? && patch.name.value != profiles[id].name
              && exists other :: other in profiles && other != id && profiles[other].userId == profiles[id].userId
                                 && profiles[other].name == patch.name.value
  {
    patch.name.Some? && patch.name.value != profiles[id].name
    && NameHeld(profiles, profiles[id].userId, patch.name.value, Some(id))
  }

  /** update_profile: Success(None) for an unknown id, a name clash error with
      no write, or the row with only the given fields replaced. */
  function UpdateProfile(profiles: map<int, Profile>, id: int, patch: Patch): (r: Result<Option<Profile>, StoreError>)
    ensures r == Success(None) <==> id !in profiles
    ensures r.Failure? <==> id in profiles && RenameClashes(profiles, id, patch)
    ensures r.Failure? ==> r.error == ProfileNameExists(profiles[id].userId, patch.name.value)
    ensures r.Success? && r.value.Some? ==>
              var p := r.value.value;
              && p.id == profiles[id].id && p.userId == profiles[id].userId
              && (patch.name.None? ==> p.name == profiles[id].name)
              && (patch.isKids.None? ==> p.isKids == profiles[id].isKids)
              && (patch.avatar.None? ==> p.avatar == profiles[id].avatar)
              && (patch.language.None? ==> p.language == profiles[id].language)
              && (patch.maturityLevel.None? ==> p.maturityLevel == profiles[id].maturityLevel)
              && (patch.preferences.None? ==> p.preferences == profiles[id].preferences)
              && (patch.name.Some? ==> p.name == patch.name.value)
              && (patch.isKids.Some? ==> p.isKids == patch.isKids.value)
              && (patch.avatar.Some? ==> p.avatar == patch.avatar.value)
              && (patch.language.Some? ==> p.language == patch.language.value)
              && (patch.maturityLevel.Some? ==> p.maturityLevel == patch.maturityLevel.value)
              && (patch.preferences.Some? ==> p.preferences == patch.preferences.value)
  {
    if id !in profiles then Success(None)
    else if RenameClashes(profiles, id, patch) then
      Failure(ProfileNameExists(profiles[id].userId, patch.name.value))
    else Success(Some(ApplyPatch(profiles[id], patch)))
  }

  function AfterUpdate(profiles: map<int, Profile>, id: int, r: Result<Option<Profile>, StoreError>): map<int, Profile> {
    if r.Success? && r.value.Some? then profiles[id := r.value.value] else profiles
  }

  /** Keeping the current name skips the clash check, and an empty update
      returns the row unchanged and writes nothing. */
  lemma UpdateKeepingNameSucceeds(profiles: map<int, Profile>, id: int, patch: Patch)
    requires id in profiles
    requires patch.name.None? || patch.name == Some(profiles[id].name)
    ensures UpdateProfile(profiles, id, patch).Success?
    ensures patch == EmptyPatch ==>
              UpdateProfile(profiles, id, patch) == Success(Some(profiles[id])) &&
              AfterUpdate(profiles, id, UpdateProfile(profiles, id, patch)) == profiles
  {
    if patch == EmptyPatch {
      assert ApplyPatch(profiles[id], patch) == profiles[id];
    }
  }

  lemma UpdatePreservesProfilesOk(profiles: map<int, Profile>, id: int, patch: Patch)
    requires ProfilesOk(profiles)
    ensures ProfilesOk(AfterUpdate(profiles, id, UpdateProfile(profiles, id, patch)))
  {
    var r := UpdateProfile(profiles, id, patch);
    if r.Success? && r.value.Some? {
      var after := AfterUpdate(profiles, id, r);
      forall u ensures |OwnedBy(after, u)| <= MaxProfilesPerUser {
        assert OwnedBy(after, u) == OwnedBy(profiles, u);
      }
      forall a, b | a in after && b in after && a != b && after[a].userId == after[b].userId
        ensures after[a].name != after[b].name
      {
        if a == id && patch.name.Some? && patch.name.value != profiles[id].name {
          assert !NameHeld(profiles, profiles[id].userId, patch.name.value, Some(id));
          assert profiles[b].userId == profiles[id].userId;
        }
        if b == id && patch.name.Some? && patch.name.value != profiles[id].name {
          assert !NameHeld(profiles, profiles[id].userId, patch.name.value, Some(id));
          assert profiles[a].userId == profiles[id].userId;
        }
      }
    }
  }

  /** Deleting a profile removes exactly that row. */
  lemma DeletePreservesProfilesOk(profiles: map<int, Profile>, id: int)
    requires ProfilesOk(profiles)
    ensures ProfilesOk(profiles - {id})
  {
    var after := profiles - {id};
    forall u ensures |OwnedBy(after, u)| <= MaxProfilesPerUser {
      SubsetCard(OwnedBy(after, u), OwnedBy(profiles, u));
    }
  }
}
