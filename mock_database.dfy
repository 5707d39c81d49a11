/** The in-memory test double of the store: two dictionaries keyed by id and
    two id counters. Every operation is tied to the same abstract operation
    as the PostgreSQL store, except that the double has no foreign key and
    lists profiles in dictionary order rather than by creation time. The
    seeding helpers overwrite entries freely, so the double itself does not
    keep the per-user profile invariants; its operations preserve them when
    they hold. */
module MockStore {
  import opened Common
  import StoreSpec

  /** The keyword arguments of add_profile; an omitted one takes its default. */
  datatype ProfileSeed = ProfileSeed(id: Option<int>, userId: Option<int>, name: Option<string>,
                                     isKids: Option<bool>, avatar: Option<string>,
                                     language: Option<string>, maturityLevel: Option<string>,
                                     preferences: Option<string>)

  /** The row add_profile stores under `id`. */
  function SeededProfile(id: int, seed: ProfileSeed): (p: Profile)
    ensures p.id == id
    ensures p.userId == Or(seed.userId, 1) && p.name == Or(seed.name, "Profile")
    ensures p.isKids == Or(seed.isKids, false) && p.avatar == Or(seed.avatar, "")
    ensures p.language == Or(seed.language, "uz") && p.maturityLevel == Or(seed.maturityLevel, "all")
    ensures p.preferences == Or(seed.preferences, "[]")
  {
    Profile(id, Or(seed.userId, 1), Or(seed.name, "Profile"), Or(seed.isKids, false),
            Or(seed.avatar, ""), Or(seed.language, "uz"), Or(seed.maturityLevel, "all"),
            Or(seed.preferences, "[]"))
  }

  /** The counter after a seeding call: advanced by one when the id was
      generated, raised past an explicit id otherwise. */
  function NextAfterSeed(next: int, id: Option<int>): (n: int)
    ensures id.None? ==> n == next + 1
    ensures id.Some? ==> n > id.value && n >= next && (n == next || n == id.value + 1)
  {
    if id.None? then next + 1 else if next >= id.value + 1 then next else id.value + 1
  }

  /** Moving one id out of the unvisited set adds it to the visited part of
      `owned` exactly when it is owned. */
  lemma TakeOne(owned: set<int>, remaining: set<int>, x: int)
    requires x in remaining
    ensures x in owned ==> owned - (remaining - {x}) == (owned - remaining) + {x}
    ensures x !in owned ==> owned - (remaining - {x}) == owned - remaining
  {
  }

  /** The five `value and stored == value` tests agree with the abstract match
      on the normalised request. */
  lemma MatchesByArgs(u: Ids, args: IdArgs)
    ensures StoreSpec.Matches(u, Normalized(args)) <==>
              || (Truthy(args.googleId) && u.googleId == args.googleId.value)
              || (Truthy(args.appleId) && u.appleId == args.appleId.value)
              || (Truthy(args.email) && u.email == args.email.value)
              || (Truthy(args.phone) && u.phone == args.phone.value)
              || (Truthy(args.username) && u.username == args.username.value)
  {
  }

  /** The loop state of list_profiles: `r` holds, once each, the owned
      profiles among the ids already visited. */
  ghost predicate ListedSoFar(r: seq<Profile>, rows: map<int, Profile>, uid: int, remaining: set<int>) {
    && StoreSpec.IdsOf(r) == StoreSpec.OwnedBy(rows, uid) - remaining
    && |r| == |StoreSpec.IdsOf(r)|
    && (forall i :: 0 <= i < |r| ==> r[i].id in rows && r[i] == rows[r[i].id])
  }

  /** Visiting one more id keeps the loop state. */
  lemma ListStep(r: seq<Profile>, rows: map<int, Profile>, uid: int, remaining: set<int>, x: int)
    requires x in remaining && remaining <= rows.Keys && rows[x].id == x
    requires ListedSoFar(r, rows, uid, remaining)
    ensures ListedSoFar(if rows[x].userId == uid then r + [rows[x]] else r, rows, uid, remaining - {x})
  {
    var owned := StoreSpec.OwnedBy(rows, uid);
    TakeOne(owned, remaining, x);
    if rows[x].userId == uid {
      var p := rows[x];
      var r' := r + [p];
      assert x in owned && x !in StoreSpec.IdsOf(r);
      StoreSpec.IdsOfAppend(r, p);
      assert StoreSpec.IdsOf(r') == owned - (remaining - {x});
      assert |StoreSpec.IdsOf(r')| == |StoreSpec.IdsOf(r)| + 1;
      assert r'[|r|] == p;
      forall i | 0 <= i < |r'| ensures r'[i].id in rows && r'[i] == rows[r'[i].id] {
        if i < |r| {
          assert r'[i] == r[i];
        }
      }
    } else {
      assert x !in owned;
    }
  }

  /** The scan of create_or_update_user: the ids of the users for which one
      of the five `value and stored == value` tests holds. */
  method MatchingUsers(all: map<int, Ids>, args: IdArgs) returns (matching: set<int>)
    ensures matching == StoreSpec.MatchSet(all, Normalized(args))
  {
    var req := Normalized(args);
    matching := {};
    var remaining := all.Keys;
    while remaining != {}
      invariant remaining <= all.Keys
      invariant forall id :: id in matching <==> id in all && id !in remaining && StoreSpec.Matches(all[id], req)
      decreases |remaining|
    {
      NonEmptyHasElement(remaining);
      var uid :| uid in remaining;
      var user := all[uid];
      if Truthy(args.googleId) && user.googleId == args.googleId.value {
        matching := matching + {uid};
      }
      if Truthy(args.appleId) && user.appleId == args.appleId.value {
        matching := matching + {uid};
      }
      if Truthy(args.email) && user.email == args.email.value {
        matching := matching + {uid};
      }
      if Truthy(args.phone) && user.phone == args.phone.value {
        matching := matching + {uid};
      }
      if Truthy(args.username) && user.username == args.username.value {
        matching := matching + {uid};
      }
      MatchesByArgs(user, args);
      remaining := remaining - {uid};
    }
    forall id ensures id in matching <==> id in StoreSpec.MatchSet(all, req) {
    }
  }

  /** The attribute updates of update_profile: each given field is set, the
      others keep their value. */
  method ApplyFields(profile: Profile, patch: Patch) returns (p: Profile)
    ensures p == StoreSpec.ApplyPatch(profile, patch)
  {
    p := profile;
    if patch.name.Some? {
      p := p.(name := patch.name.value);
    }
    if patch.isKids.Some? {
      p := p.(isKids := patch.isKids.value);
    }
    if patch.avatar.Some? {
      p := p.(avatar := patch.avatar.value);
    }
    if patch.language.Some? {
      p := p.(language := patch.language.value);
    }
    if patch.maturityLevel.Some? {
      p := p.(maturityLevel := patch.maturityLevel.value);
    }
    if patch.preferences.Some? {
      p := p.(preferences := patch.preferences.value);
    }
  }

  /** The sibling scan of update_profile: some profile of `uid` other than
      `self` is already named `name`. */
  method NameTakenByOther(rows: map<int, Profile>, uid: int, name: string, self: int) returns (taken: bool)
    requires StoreSpec.KeyedById(rows)
    ensures taken == StoreSpec.NameHeld(rows, uid, name, Some(self))
  {
    var remaining := rows.Keys;
    while remaining != {}
      invariant remaining <= rows.Keys
      invariant forall k :: k in rows && k !in remaining ==>
                  !(rows[k].userId == uid && rows[k].name == name && k != self)
      decreases |remaining|
    {
      NonEmptyHasElement(remaining);
      var k :| k in remaining;
      var p := rows[k];
      if p.userId == uid && p.name == name && p.id != self {
        return true;
      }
      remaining := remaining - {k};
    }
    return false;
  }

  class MockDatabase {
    var users: map<int, Ids>
    var profiles: map<int, Profile>
    var nextUserId: int
    var nextProfileId: int

    /** Every stored id is below its counter, and a profile's own id is its key. */
    ghost predicate Valid()
      reads this
    {
      && (forall id :: id in users ==> id < nextUserId)
      && (forall id :: id in profiles ==> id < nextProfileId && profiles[id].id == id)
    }

    constructor ()
      ensures Valid()
      ensures users == map[] && profiles == map[] && nextUserId == 1 && nextProfileId == 1
    {
      users, profiles := map[], map[];
      nextUserId, nextProfileId := 1, 1;
    }

    /** create_or_update_user: scan every user for the five truthy
        comparisons, then fail, merge into the single match, or insert. */
    method CreateOrUpdateUser(args: IdArgs) returns (r: Result<int, StoreError>)
      requires Valid()
      modifies this`users, this`nextUserId
      ensures Valid()
      ensures var res := StoreSpec.Resolve(old(users), Normalized(args), old(nextUserId));
              r == StoreSpec.Reply(res.outcome) && users == res.users
      ensures r.Success? && r.value !in old(users) ==> r.value == old(nextUserId) && nextUserId == old(nextUserId) + 1
      ensures (r.Success? && r.value in old(users)) || r.Failure? ==> nextUserId == old(nextUserId)
    {
      var req := Normalized(args);
      ghost var res := StoreSpec.Resolve(users, req, nextUserId);
      var matching := MatchingUsers(users, args);
      if |matching| > 1 {
        r := Failure(IdentityCollision(matching));
        return;
      }
      if matching != {} {
        NonEmptyHasElement(matching);
        var uid :| uid in matching;
        StoreSpec.SingletonIs(matching, uid);
        assert res.outcome == StoreSpec.Merged(uid);
        UpdateUser(uid, args);
        r := Success(uid);
        return;
      }
      var uid := nextUserId;
      nextUserId := nextUserId + 1;
      users := users[uid := req];
      r := Success(uid);
    }

    /** _update_user: overwrite each field whose argument is truthy. */
    method UpdateUser(userId: int, args: IdArgs)
      requires userId in users
      modifies this`users
      ensures users == old(users)[userId := StoreSpec.Merge(old(users)[userId], Normalized(args))]
    {
      var user := users[userId];
      if Truthy(args.username) {
        user := user.(username := args.username.value);
      }
      if Truthy(args.email) {
        user := user.(email := args.email.value);
      }
      if Truthy(args.phone) {
        user := user.(phone := args.phone.value);
      }
      if Truthy(args.googleId) {
        user := user.(googleId := args.googleId.value);
      }
      if Truthy(args.appleId) {
        user := user.(appleId := args.appleId.value);
      }
      users := users[userId := user];
    }

    /** get_user: the stored record, if any. */
    method GetUser(userId: int) returns (r: Option<Ids>)
      ensures r.Some? <==> userId in users
      ensures r.Some? ==> r.value == users[userId]
    {
      r := if userId in users then Some(users[userId]) else None;
    }

    /** add_user: seed a user under a given or the next id; omitted
        identifiers are stored as "". An existing entry is overwritten. */
    method AddUser(id: Option<int>, args: IdArgs) returns (userId: int)
      requires Valid()
      modifies this`users, this`nextUserId
      ensures Valid()
      ensures userId == if id.Some? then id.value else old(nextUserId)
      ensures nextUserId == NextAfterSeed(old(nextUserId), id)
      ensures users == old(users)[userId := Normalized(args)]
    {
      userId := if id.Some? then id.value else nextUserId;
      nextUserId := NextAfterSeed(nextUserId, id);
      users := users[userId := Normalized(args)];
    }

    /** list_profiles: every profile of the user, each once, as stored. */
    method ListProfiles(userId: int) returns (r: seq<Profile>)
      requires Valid()
      ensures StoreSpec.IdsOf(r) == StoreSpec.OwnedBy(profiles, userId)
      ensures |r| == |StoreSpec.OwnedBy(profiles, userId)|
      ensures forall i :: 0 <= i < |r| ==> r[i].id in profiles && r[i] == profiles[r[i].id]
    {
      var all := profiles;
      var remaining := all.Keys;
      r := [];
      while remaining != {}
        invariant remaining <= all.Keys
        invariant ListedSoFar(r, all, userId, remaining)
        decreases |remaining|
      {
        NonEmptyHasElement(remaining);
        var pid :| pid in remaining;
        var p := all[pid];
        ListStep(r, all, userId, remaining, pid);
        if p.userId == userId {
          r := r + [p];
        }
        remaining := remaining - {pid};
      }
    }

    /** create_profile: count the user's profiles, scan them for the name,
        then insert under the next id with preferences "[]". */
    method CreateProfile(userId: int, np: NewProfile) returns (r: Result<Profile, StoreError>)
      requires Valid()
      modifies this`profiles, this`nextProfileId
      ensures Valid()
      ensures old(nextProfileId) !in old(profiles)
      ensures r == StoreSpec.CreateProfile(old(profiles), userId, np, old(nextProfileId))
      ensures profiles == StoreSpec.AfterCreate(old(profiles), r)
      ensures nextProfileId == if r.Success? then old(nextProfileId) + 1 else old(nextProfileId)
      ensures StoreSpec.ProfilesOk(old(profiles)) ==> StoreSpec.ProfilesOk(profiles)
    {
      if StoreSpec.ProfilesOk(profiles) {
        StoreSpec.CreatePreservesProfilesOk(profiles, userId, np, nextProfileId);
      }
      var userProfiles := ListProfiles(userId);
      if |userProfiles| >= MaxProfilesPerUser {
        r := Failure(ProfileLimit(userId, |userProfiles|));
        return;
      }
      for i := 0 to |userProfiles|
        invariant forall j :: 0 <= j < i ==> userProfiles[j].name != np.name
      {
        if userProfiles[i].name == np.name {
          assert profiles[userProfiles[i].id] == userProfiles[i];
          r := Failure(ProfileNameExists(userId, np.name));
          return;
        }
      }
      forall id | id in profiles && profiles[id].userId == userId ensures profiles[id].name != np.name {
        assert id in StoreSpec.IdsOf(userProfiles);
        var j :| 0 <= j < |userProfiles| && userProfiles[j].id == id;
      }
      var pid := nextProfileId;
      nextProfileId := nextProfileId + 1;
      var profile := Profile(pid, userId, np.name, np.isKids, np.avatar, np.language, np.maturityLevel, "[]");
      profiles := profiles[pid := profile];
      r := Success(profile);
    }

    /** get_profile: the stored record, if any. */
    method GetProfile(profileId: int) returns (r: Option<Profile>)
      ensures r.Some? <==> profileId in profiles
      ensures r.Some? ==> r.value == profiles[profileId]
    {
      r := if profileId in profiles then Some(profiles[profileId]) else None;
    }

    /** update_profile: scan the other profiles for a rename clash, then set
        each given field; the record is written back even when none is. */
    method UpdateProfile(profileId: int, patch: Patch) returns (r: Result<Option<Profile>, StoreError>)
      requires Valid()
      modifies this`profiles
      ensures Valid()
      ensures r == StoreSpec.UpdateProfile(old(profiles), profileId, patch)
      ensures profiles == StoreSpec.AfterUpdate(old(profiles), profileId, r)
      ensures StoreSpec.ProfilesOk(old(profiles)) ==> StoreSpec.ProfilesOk(profiles)
    {
      if StoreSpec.ProfilesOk(profiles) {
        StoreSpec.UpdatePreservesProfilesOk(profiles, profileId, patch);
      }
      if profileId !in profiles {
        r := Success(None);
        return;
      }
      var all := profiles;
      var profile := all[profileId];
      if patch.name.Some? && patch.name.value != profile.name {
        var taken := NameTakenByOther(all, profile.userId, patch.name.value, profileId);
        if taken {
          r := Failure(ProfileNameExists(profile.userId, patch.name.value));
          return;
        }
      }
      profile := ApplyFields(profile, patch);
      profiles := profiles[profileId := profile];
      r := Success(Some(profile));
    }

    /** delete_profile: true iff the id was present, and it is gone after. */
    method DeleteProfile(profileId: int) returns (deleted: bool)
      requires Valid()
      modifies this`profiles
      ensures Valid()
      ensures deleted <==> profileId in old(profiles)
      ensures profiles == old(profiles) - {profileId}
      ensures StoreSpec.ProfilesOk(old(profiles)) ==> StoreSpec.ProfilesOk(profiles)
    {
      if StoreSpec.ProfilesOk(profiles) {
        StoreSpec.DeletePreservesProfilesOk(profiles, profileId);
      }
      if profileId in profiles {
        profiles := profiles - {profileId};
        deleted := true;
        return;
      }
      deleted := false;
    }

    /** add_profile: seed a profile under a given or the next id, filling in
        the defaults. An existing entry is overwritten. */
    method AddProfile(seed: ProfileSeed) returns (profileId: int)
      requires Valid()
      modifies this`profiles, this`nextProfileId
      ensures Valid()
      ensures profileId == if seed.id.Some? then seed.id.value else old(nextProfileId)
      ensures nextProfileId == NextAfterSeed(old(nextProfileId), seed.id)
      ensures profiles == old(profiles)[profileId := SeededProfile(profileId, seed)]
    {
      profileId := if seed.id.Some? then seed.id.value else nextProfileId;
      nextProfileId := NextAfterSeed(nextProfileId, seed.id);
      profiles := profiles[profileId := SeededProfile(profileId, seed)];
    }
  }
}
