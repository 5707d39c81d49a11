/** The gRPC façade's decision logic: request validation, the mapping from
    request fields to store arguments, the mapping from store outcomes to
    status codes, and the defaults applied on output. Each handler is a
    function of the request and of what the store returned; the store call
    itself is one of the two store models. */
module Service {
  import opened Common
  import StoreSpec

  /** The gRPC status codes the handlers produce. */
  datatype Code = InvalidArgument | NotFound | AlreadyExists | FailedPrecondition | Internal

  /** An aborted call: the status code and the machine-readable reason. */
  datatype Status = Status(code: Code, reason: string)

  const BadArgument: Status := Status(InvalidArgument, "INVALID_ARGUMENT")
  const BadId: Status := Status(InvalidArgument, "INVALID_ID")
  const IdentityConflict: Status := Status(InvalidArgument, "IDENTITY_CONFLICT")
  const UserNotFound: Status := Status(NotFound, "USER_NOT_FOUND")
  const ProfileNotFound: Status := Status(NotFound, "PROFILE_NOT_FOUND")
  const NameTaken: Status := Status(AlreadyExists, "PROFILE_NAME_EXISTS")
  const LimitReached: Status := Status(FailedPrecondition, "PROFILE_LIMIT_REACHED")
  const InternalError: Status := Status(Internal, "INTERNAL_ERROR")

  /** UserResponse: the user id and the five identifiers. */
  datatype UserResponse = UserResponse(userId: int, ids: Ids)

  /** The Profile message (timestamps are not modelled). */
  datatype ProfileMessage = ProfileMessage(id: int, userId: int, name: string, isKids: bool, avatar: string,
                                           language: string, maturityLevel: string, preferencesJson: string)

  /** CreateProfileRequest. */
  datatype CreateProfileRequest = CreateProfileRequest(userId: int, name: string, isKids: bool, avatar: string,
                                                       language: string, maturityLevel: string)

  /** UpdateProfileRequest: the field mask and the candidate values. */
  datatype UpdateProfileRequest = UpdateProfileRequest(profileId: int, updateMask: seq<string>, name: string,
                                                       isKids: bool, avatar: string, language: string,
                                                       maturityLevel: string, preferences: string)

  // ================= Users =================

  /** At least one of the five request identifiers is non-empty. */
  predicate HasIdentifier(req: Ids) {
    req.username != "" || req.email != "" || req.phone != "" || req.googleId != "" || req.appleId != ""
  }

  lemma HasIdentifierIff(req: Ids)
    ensures HasIdentifier(req) <==> req != NoIds
    ensures HasIdentifier(req) <==> exists f :: req.Get(f) != ""
  {
    if HasIdentifier(req) {
      if req.username != "" { assert req.Get(Username) != ""; }
      else if req.email != "" { assert req.Get(Email) != ""; }
      else if req.phone != "" { assert req.Get(Phone) != ""; }
      else if req.googleId != "" { assert req.Get(GoogleId) != ""; }
      else { assert req.Get(AppleId) != ""; }
    }
  }

  /** The keyword arguments CreateUser passes to create_or_update_user. */
  function ToStoreArgs(req: Ids): (a: IdArgs)
    ensures forall f :: ArgOf(a, f).None? <==> req.Get(f) == ""
    ensures forall f :: ArgOf(a, f).Some? ==> Truthy(ArgOf(a, f))
    ensures Normalized(a) == req
  {
    IdArgs(NoneIfEmpty(req.username), NoneIfEmpty(req.email), NoneIfEmpty(req.phone),
           NoneIfEmpty(req.googleId), NoneIfEmpty(req.appleId))
  }

  /** CreateUser: reject a request with no identifier before any store call;
      otherwise echo the request's identifiers with the id the store
      returned. Only an identity collision is a client error. */
  function CreateUser(req: Ids, stored: Result<int, StoreError>): (r: Result<UserResponse, Status>)
    ensures !HasIdentifier(req) ==> r == Failure(BadArgument)
    ensures HasIdentifier(req) && stored.Success? ==> r == Success(UserResponse(stored.value, req))
    ensures HasIdentifier(req) && stored.Failure? ==>
              r.Failure? && (r.error == IdentityConflict <==> stored.error.IdentityCollision?)
              && (r.error != IdentityConflict ==> r.error == InternalError)
  {
    if !HasIdentifier(req) then Failure(BadArgument)
    else match stored
      case Success(id) => Success(UserResponse(id, req))
      case Failure(IdentityCollision(_)) => Failure(IdentityConflict)
      case Failure(_) => Failure(InternalError)
  }

  /** A request the façade accepts never reaches the store as the all-empty
      identifier set, so the store never inserts a user with no identifier. */
  lemma AcceptedRequestIsNotBlank(req: Ids, stored: Result<int, StoreError>)
    requires CreateUser(req, stored).Success?
    ensures Normalized(ToStoreArgs(req)) != NoIds
  {
    HasIdentifierIff(req);
  }

  /** End to end against the abstract store: a request whose identifiers
      belong to two users is answered with IDENTITY_CONFLICT, and one whose
      identifiers belong to nobody creates a user under the next id. */
  lemma CreateUserAgainstStore(users: map<int, Ids>, req: Ids, newId: int)
    requires newId !in users && HasIdentifier(req)
    ensures var res := StoreSpec.Resolve(users, Normalized(ToStoreArgs(req)), newId);
            var r := CreateUser(req, StoreSpec.Reply(res.outcome));
            && (r == Failure(IdentityConflict) <==>
                  exists a, b :: a in users && b in users && a != b
                                 && StoreSpec.Matches(users[a], req) && StoreSpec.Matches(users[b], req))
            && ((forall a, f :: a in users ==> !StoreSpec.FieldMatch(users[a], req, f)) ==>
                  r == Success(UserResponse(newId, req)) && res.users == users[newId := req])
  {
    StoreSpec.ResolveOutcome(users, req, newId);
    StoreSpec.ResolveEffect(users, req, newId);
  }

  /** GetUser: reject a non-positive id, report a missing row, and show an
      absent (NULL or empty) identifier as "". */
  function GetUser(userId: int, stored: Option<IdArgs>): (r: Result<UserResponse, Status>)
    ensures userId <= 0 ==> r == Failure(BadId)
    ensures userId > 0 && stored.None? ==> r == Failure(UserNotFound)
    ensures userId > 0 && stored.Some? ==>
              && r.Success? && r.value.userId == userId
              && (forall f :: r.value.ids.Get(f) == OrEmpty(ArgOf(stored.value, f)))
  {
    if userId <= 0 then Failure(BadId)
    else if stored.None? then Failure(UserNotFound)
    else Success(UserResponse(userId, Normalized(stored.value)))
  }

  // ================= Profile names =================

  /** str.isspace() for one character: the ASCII whitespace and separator
      controls, NEL, NBSP and the Unicode space separators. */
  predicate IsSpace(c: char) {
    || c == ' ' || c == '\t' || c == '\n' || c == '\r' || c == '\U{000B}' || c == '\U{000C}'
    || ('\U{001C}' <= c <= '\U{001F}')
    || c == '\U{0085}' || c == '\U{00A0}' || c == '\U{1680}'
    || ('\U{2000}' <= c <= '\U{200A}')
    || c == '\U{2028}' || c == '\U{2029}' || c == '\U{202F}' || c == '\U{205F}' || c == '\U{3000}'
  }

  /** The characters str.isspace() accepts, one by one. */
  const PythonWhitespace: set<char> := {
    ' ', '\t', '\n', '\r', '\U{000B}', '\U{000C}', '\U{001C}', '\U{001D}', '\U{001E}', '\U{001F}',
    '\U{0085}', '\U{00A0}', '\U{1680}', '\U{2000}', '\U{2001}', '\U{2002}', '\U{2003}', '\U{2004}',
    '\U{2005}', '\U{2006}', '\U{2007}', '\U{2008}', '\U{2009}', '\U{200A}', '\U{2028}', '\U{2029}',
    '\U{202F}', '\U{205F}', '\U{3000}'
  }

  /** IsSpace, with its two ranges, holds of exactly those 29 characters. */
  lemma IsSpaceChars(c: char)
    ensures IsSpace(c) <==> c in PythonWhitespace
  {
  }

  /** Every character of `s` from `i` up to `j` is whitespace. */
  predicate AllSpace(s: string, i: int, j: int) {
    forall k :: i <= k < j && 0 <= k < |s| ==> IsSpace(s[k])
  }

  /** Leading whitespace removed: the longest suffix not starting with a space. */
  function LStrip(s: string): (r: string)
    ensures |r| <= |s| && r == s[|s| - |r|..]
    ensures AllSpace(s, 0, |s| - |r|)
    ensures r == [] || !IsSpace(r[0])
    decreases |s|
  {
    if |s| > 0 && IsSpace(s[0]) then LStrip(s[1..]) else s
  }

  /** Trailing whitespace removed: the longest prefix not ending with a space. */
  function RStrip(s: string): (r: string)
    ensures |r| <= |s| && r == s[..|r|]
    ensures AllSpace(s, |r|, |s|)
    ensures r == [] || !IsSpace(r[|r| - 1])
    decreases |s|
  {
    if |s| > 0 && IsSpace(s[|s| - 1]) then RStrip(s[..|s| - 1]) else s
  }

  /** str.strip(): the input with its leading and trailing whitespace, and
      nothing else, removed. */
  function Strip(s: string): (r: string)
    ensures |r| <= |s|
    ensures r == [] || (!IsSpace(r[0]) && !IsSpace(r[|r| - 1]))
    ensures exists i, j :: 0 <= i <= j <= |s| && r == s[i..j] && AllSpace(s, 0, i) && AllSpace(s, j, |s|)
  {
    var l := LStrip(s);
    var m := RStrip(l);
    InnerSlice(s, l, m);
    m
  }

  /** Cutting whitespace off the front of `s` (leaving `l`) and then off the
      back of `l` (leaving `m`) leaves a slice of `s` with only whitespace
      outside it. */
  lemma InnerSlice(s: string, l: string, m: string)
    requires |l| <= |s| && l == s[|s| - |l|..]
    requires AllSpace(s, 0, |s| - |l|)
    requires |m| <= |l| && m == l[..|m|]
    requires AllSpace(l, |m|, |l|)
    ensures m == s[|s| - |l|..|s| - |l| + |m|]
    ensures AllSpace(s, |s| - |l| + |m|, |s|)
  {
    var i := |s| - |l|;
    forall k | i + |m| <= k < |s| ensures IsSpace(s[k]) {
      assert s[k] == l[k - i];
    }
  }

  /** A trimmed name is accepted iff it has 1 to 50 characters. */
  predicate ValidName(trimmed: string) {
    1 <= |trimmed| <= 50
  }

  /** The handler's rejection test `not name or len(name) < 1 or len(name) > 50`
      fails exactly for the names ValidName accepts. */
  lemma ValidNameIff(trimmed: string)
    ensures !ValidName(trimmed) <==> trimmed == "" || |trimmed| < 1 || |trimmed| > 50
  {
  }

  /** Stripping an already stripped string changes nothing. */
  lemma StripIdempotent(s: string)
    ensures Strip(Strip(s)) == Strip(s)
  {
    var t := Strip(s);
    if t != [] {
      assert LStrip(t) == t;
      assert RStrip(t) == t;
    }
  }

  /** A name made of whitespace only trims to "" and is rejected. */
  lemma WhitespaceNameRejected(s: string)
    requires forall i :: 0 <= i < |s| ==> IsSpace(s[i])
    ensures Strip(s) == ""
    ensures !ValidName(Strip(s))
  {
  }

  /** A name without surrounding whitespace is kept as it is, and accepted
      iff its length is between 1 and 50. */
  lemma TrimmedNameRule(s: string)
    requires s == [] || (!IsSpace(s[0]) && !IsSpace(s[|s| - 1]))
    ensures Strip(s) == s
    ensures ValidName(Strip(s)) <==> 1 <= |s| <= 50
  {
    assert LStrip(s) == s;
    assert RStrip(s) == s;
  }

  function Repeat(c: char, n: nat): (r: string)
    ensures |r| == n && forall i :: 0 <= i < n ==> r[i] == c
  {
    if n == 0 then [] else [c] + Repeat(c, n - 1)
  }

  /** A run of n letters passes the name rule iff 1 <= n <= 50: fifty
      letters are accepted and fifty-one rejected. */
  lemma LetterRunRule(n: nat)
    ensures ValidName(Strip(Repeat('x', n))) <==> 1 <= n <= 50
  {
    var s := Repeat('x', n);
    if n > 0 {
      assert s[0] == 'x' && s[n - 1] == 'x';
    }
    TrimmedNameRule(s);
  }

  // ================= Profiles =================

  /** _to_profile_proto: an empty avatar stays "", an empty language becomes
      "uz", an empty maturity level "all" and empty preferences "[]". */
  function ToProfileMessage(p: Profile): (m: ProfileMessage)
    ensures m.id == p.id && m.userId == p.userId && m.name == p.name && m.isKids == p.isKids
    ensures m.avatar == p.avatar
    ensures m.language == (if p.language == "" then "uz" else p.language)
    ensures m.maturityLevel == (if p.maturityLevel == "" then "all" else p.maturityLevel)
    ensures m.preferencesJson == (if p.preferences == "" then "[]" else p.preferences)
    ensures m.language != "" && m.maturityLevel != "" && m.preferencesJson != ""
  {
    ProfileMessage(p.id, p.userId, p.name, p.isKids, p.avatar,
                   if p.language == "" then "uz" else p.language,
                   if p.maturityLevel == "" then "all" else p.maturityLevel,
                   if p.preferences == "" then "[]" else p.preferences)
  }

  /** ListProfiles: reject a non-positive id; otherwise convert each row, in
      the store's order. */
  function ListProfiles(userId: int, stored: seq<Profile>): (r: Result<seq<ProfileMessage>, Status>)
    ensures userId <= 0 ==> r == Failure(BadId)
    ensures userId > 0 ==>
              && r.Success? && |r.value| == |stored|
              && (forall i :: 0 <= i < |stored| ==> r.value[i] == ToProfileMessage(stored[i]))
  {
    if userId <= 0 then Failure(BadId)
    else Success(seq(|stored|, i requires 0 <= i < |stored| => ToProfileMessage(stored[i])))
  }

  /** The create_profile arguments: the trimmed name and the input defaults. */
  function CreateProfileArgs(req: CreateProfileRequest): (np: NewProfile)
    ensures np.name == Strip(req.name) && np.isKids == req.isKids
    ensures np.avatar == req.avatar
    ensures np.language == (if req.language == "" then "uz" else req.language)
    ensures np.maturityLevel == (if req.maturityLevel == "" then "all" else req.maturityLevel)
  {
    NewProfile(Strip(req.name), req.isKids, req.avatar,
               if req.language == "" then "uz" else req.language,
               if req.maturityLevel == "" then "all" else req.maturityLevel)
  }

  /** The checks CreateProfile makes before calling the store. */
  function CreateProfileCheck(req: CreateProfileRequest): (r: Option<Status>)
    ensures r == Some(BadId) <==> req.userId <= 0
    ensures r == Some(BadArgument) <==> req.userId > 0 && !ValidName(Strip(req.name))
    ensures r.None? <==> req.userId > 0 && ValidName(Strip(req.name))
  {
    if req.userId <= 0 then Some(BadId)
    else if !ValidName(Strip(req.name)) then Some(BadArgument)
    else None
  }

  /** CreateProfile: the checks, then the store's outcome for
      CreateProfileArgs(req). The limit and the name clash are client errors;
      anything else the store raises (the foreign-key violation for an unknown
      user) is an internal error. */
  function CreateProfile(req: CreateProfileRequest, stored: Result<Profile, StoreError>): (r: Result<ProfileMessage, Status>)
    ensures CreateProfileCheck(req).Some? ==> r == Failure(CreateProfileCheck(req).value)
    ensures CreateProfileCheck(req).None? ==>
              && (stored.Success? ==> r == Success(ToProfileMessage(stored.value)))
              && (stored.Failure? && stored.error.ProfileLimit? ==> r == Failure(LimitReached))
              && (stored.Failure? && stored.error.ProfileNameExists? ==> r == Failure(NameTaken))
              && (stored.Failure? && stored.error.ForeignKeyViolation? ==> r == Failure(InternalError))
  {
    var check := CreateProfileCheck(req);
    if check.Some? then Failure(check.value)
    else match stored
      case Success(p) => Success(ToProfileMessage(p))
      case Failure(ProfileLimit(_, _)) => Failure(LimitReached)
      case Failure(ProfileNameExists(_, _)) => Failure(NameTaken)
      case Failure(_) => Failure(InternalError)
  }

  /** End to end against the abstract store: a user who already has five
      profiles always gets FAILED_PRECONDITION, whatever the name; a user
      below the limit who already has that trimmed name gets ALREADY_EXISTS,
      and one who does not gets the new profile. */
  lemma CreateProfileAgainstStore(profiles: map<int, Profile>, req: CreateProfileRequest, newId: int)
    requires newId !in profiles
    requires CreateProfileCheck(req).None?
    ensures var np := CreateProfileArgs(req);
            var r := CreateProfile(req, StoreSpec.CreateProfile(profiles, req.userId, np, newId));
            && (|StoreSpec.OwnedBy(profiles, req.userId)| >= MaxProfilesPerUser ==> r == Failure(LimitReached))
            && ((|StoreSpec.OwnedBy(profiles, req.userId)| < MaxProfilesPerUser
                 && StoreSpec.NameHeld(profiles, req.userId, Strip(req.name), None)) ==> r == Failure(NameTaken))
            && ((|StoreSpec.OwnedBy(profiles, req.userId)| < MaxProfilesPerUser
                 && !StoreSpec.NameHeld(profiles, req.userId, Strip(req.name), None)) ==> r.Success?)
            && (r.Success? ==> r.value.name == Strip(req.name) && r.value.preferencesJson == "[]"
                                && r.value.id == newId && r.value.userId == req.userId)
  {
  }

  /** GetProfile: reject a non-positive id, report a missing row. */
  function GetProfile(profileId: int, stored: Option<Profile>): (r: Result<ProfileMessage, Status>)
    ensures profileId <= 0 ==> r == Failure(BadId)
    ensures profileId > 0 && stored.None? ==> r == Failure(ProfileNotFound)
    ensures profileId > 0 && stored.Some? ==> r == Success(ToProfileMessage(stored.value))
  {
    if profileId <= 0 then Failure(BadId)
    else if stored.None? then Failure(ProfileNotFound)
    else Success(ToProfileMessage(stored.value))
  }

  /** A field takes part in the update when the mask is empty or names it. */
  predicate Selected(mask: seq<string>, field: string) {
    |mask| == 0 || field in mask
  }

  /** `update_mask is None or field in update_mask`, where the mask is None
      exactly when the request's list is empty: the field is taken iff the
      list is empty or some entry of it is that field. */
  lemma SelectedIff(mask: seq<string>, field: string)
    ensures Selected(mask, field) <==> mask == [] || exists i :: 0 <= i < |mask| && mask[i] == field
  {
  }

  /** The checks and the update_mask handling of UpdateProfile: a
      non-positive id is rejected; a field is sent iff selected, except that
      an empty name is never sent and a non-empty one is trimmed and must
      pass the name rule; empty preferences are sent as "no change". */
  function UpdateArgs(req: UpdateProfileRequest): (r: Result<Patch, Status>)
    ensures req.profileId <= 0 ==> r == Failure(BadId)
    ensures req.profileId > 0 ==>
              (r.Failure? <==> Selected(req.updateMask, "name") && req.name != "" && !ValidName(Strip(req.name)))
    ensures req.profileId > 0 && r.Failure? ==> r.error == BadArgument
    ensures r.Success? ==>
              && (r.value.name.Some? <==> Selected(req.updateMask, "name") && req.name != "")
              && (r.value.name.Some? ==> r.value.name.value == Strip(req.name) && ValidName(r.value.name.value))
              && (r.value.isKids.Some? <==> Selected(req.updateMask, "is_kids"))
              && (r.value.isKids.Some? ==> r.value.isKids.value == req.isKids)
              && (r.value.avatar.Some? <==> Selected(req.updateMask, "avatar"))
              && (r.value.avatar.Some? ==> r.value.avatar.value == req.avatar)
              && (r.value.language.Some? <==> Selected(req.updateMask, "language"))
              && (r.value.language.Some? ==> r.value.language.value == req.language)
              && (r.value.maturityLevel.Some? <==> Selected(req.updateMask, "maturity_level"))
              && (r.value.maturityLevel.Some? ==> r.value.maturityLevel.value == req.maturityLevel)
              && (r.value.preferences.Some? <==> Selected(req.updateMask, "preferences") && req.preferences != "")
              && (r.value.preferences.Some? ==> r.value.preferences.value == req.preferences)
  {
    if req.profileId <= 0 then Failure(BadId)
    else if Selected(req.updateMask, "name") && req.name != "" && !ValidName(Strip(req.name)) then Failure(BadArgument)
    else Success(Patch(
      if Selected(req.updateMask, "name") && req.name != "" then Some(Strip(req.name)) else None,
      if Selected(req.updateMask, "is_kids") then Some(req.isKids) else None,
      if Selected(req.updateMask, "avatar") then Some(req.avatar) else None,
      if Selected(req.updateMask, "language") then Some(req.language) else None,
      if Selected(req.updateMask, "maturity_level") then Some(req.maturityLevel) else None,
      if Selected(req.updateMask, "preferences") then NoneIfEmpty(req.preferences) else None))
  }

  /** The handler's own construction of the keyword arguments, one field
      after the other, aborting on a bad id or a bad name. */
  method UpdateKwargs(req: UpdateProfileRequest) returns (r: Result<Patch, Status>)
    ensures r == UpdateArgs(req)
  {
    if req.profileId <= 0 {
      return Failure(BadId);
    }
    var kwargs := EmptyPatch;
    if Selected(req.updateMask, "name") {
      if req.name != "" {
        var name := Strip(req.name);
        if |name| < 1 || |name| > 50 {
          return Failure(BadArgument);
        }
        kwargs := kwargs.(name := Some(name));
      }
    }
    if Selected(req.updateMask, "is_kids") {
      kwargs := kwargs.(isKids := Some(req.isKids));
    }
    if Selected(req.updateMask, "avatar") {
      kwargs := kwargs.(avatar := Some(req.avatar));
    }
    if Selected(req.updateMask, "language") {
      kwargs := kwargs.(language := Some(req.language));
    }
    if Selected(req.updateMask, "maturity_level") {
      kwargs := kwargs.(maturityLevel := Some(req.maturityLevel));
    }
    if Selected(req.updateMask, "preferences") {
      kwargs := kwargs.(preferences := NoneIfEmpty(req.preferences));
    }
    return Success(kwargs);
  }

  /** A mask naming only some fields sends no other field, so an update of
      the name alone leaves every other column of the row as it was. */
  lemma MaskedUpdateTouchesOnlyNamed(profiles: map<int, Profile>, req: UpdateProfileRequest)
    requires req.profileId in profiles
    requires UpdateArgs(req).Success?
    requires req.updateMask == ["name"]
    ensures var r := StoreSpec.UpdateProfile(profiles, req.profileId, UpdateArgs(req).value);
            var cur := profiles[req.profileId];
            r.Success? ==> r.value.Some? && r.value.value == cur.(name := if req.name != "" then Strip(req.name) else cur.name)
  {
  }

  /** UpdateProfile after a successful kwargs build: a rename clash is a
      client error, a missing row is NOT_FOUND, and the updated row is
      returned converted. */
  function UpdateProfileReply(stored: Result<Option<Profile>, StoreError>): (r: Result<ProfileMessage, Status>)
    ensures stored == Success(None) ==> r == Failure(ProfileNotFound)
    ensures stored.Success? && stored.value.Some? ==> r == Success(ToProfileMessage(stored.value.value))
    ensures stored.Failure? ==> r.Failure? && (r.error == NameTaken <==> stored.error.ProfileNameExists?)
    ensures stored.Failure? && !stored.error.ProfileNameExists? ==> r == Failure(InternalError)
  {
    match stored
    case Success(None) => Failure(ProfileNotFound)
    case Success(Some(p)) => Success(ToProfileMessage(p))
    case Failure(ProfileNameExists(_, _)) => Failure(NameTaken)
    case Failure(_) => Failure(InternalError)
  }

  /** With an empty mask, an update whose request leaves is_kids, avatar,
      language and maturity level at their proto defaults still sends them,
      so the stored row is reset to false and empty strings; the empty
      language and maturity level then read back as "uz" and "all". */
  lemma EmptyMaskResetsDefaults(profiles: map<int, Profile>, req: UpdateProfileRequest)
    requires |req.updateMask| == 0
    requires req.name == "" && !req.isKids && req.avatar == "" && req.language == "" && req.maturityLevel == ""
    requires req.preferences == ""
    requires req.profileId in profiles && req.profileId > 0
    ensures UpdateArgs(req) == Success(Patch(None, Some(false), Some(""), Some(""), Some(""), None))
    ensures var r := StoreSpec.UpdateProfile(profiles, req.profileId, UpdateArgs(req).value);
            && r.Success? && r.value.Some?
            && r.value.value.isKids == false && r.value.value.avatar == ""
            && r.value.value.language == "" && r.value.value.maturityLevel == ""
            && r.value.value.name == profiles[req.profileId].name
            && r.value.value.preferences == profiles[req.profileId].preferences
            && ToProfileMessage(r.value.value).language == "uz"
            && ToProfileMessage(r.value.value).maturityLevel == "all"
  {
  }

  /** DeleteProfile: reject a non-positive id; `false` from the store is
      NOT_FOUND and `true` is success. */
  function DeleteProfile(profileId: int, deleted: bool): (r: Result<bool, Status>)
    ensures profileId <= 0 ==> r == Failure(BadId)
    ensures profileId > 0 ==> (r == Success(true) <==> deleted) && (r == Failure(ProfileNotFound) <==> !deleted)
  {
    if profileId <= 0 then Failure(BadId)
    else if !deleted then Failure(ProfileNotFound)
    else Success(true)
  }
}
