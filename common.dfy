/** Values shared by the two stores and the service façade: identifier sets,
    profile records, partial updates and the store's error kinds. */
module Common {

  datatype Option<+T> = None | Some(value: T)

  datatype Result<+T, +E> = Success(value: T) | Failure(error: E)

  /** A non-empty set has an element to pick with `:|`. */
  lemma NonEmptyHasElement(s: set<int>)
    requires s != {}
    ensures exists x :: x in s
  {
    if forall x :: x !in s { assert false; }
  }

  /** The per-user profile limit, MAX_PROFILES_PER_USER. */
  const MaxProfilesPerUser: nat := 5

  /** The five alternate identifiers a user can be found by. */
  datatype Field = Username | Email | Phone | GoogleId | AppleId

  /** Five identifier values after normalisation: "" means "not supplied"
      in a request and "no value recorded" in a stored user. */
  datatype Ids = Ids(username: string, email: string, phone: string, googleId: string, appleId: string)
  {
    function Get(f: Field): string {
      match f
      case Username => username
      case Email => email
      case Phone => phone
      case GoogleId => googleId
      case AppleId => appleId
    }
  }

  /** The all-absent identifier set. */
  const NoIds: Ids := Ids("", "", "", "", "")

  /** Five identifiers each `str | None`: the arguments of
      create_or_update_user, or a users row as read back. */
  datatype IdArgs = IdArgs(username: Option<string>, email: Option<string>, phone: Option<string>,
                           googleId: Option<string>, appleId: Option<string>)

  /** The value, or `default` when there is none. */
  function Or<T>(o: Option<T>, default: T): (r: T)
    ensures o.Some? ==> r == o.value
    ensures o.None? ==> r == default
  {
    if o.Some? then o.value else default
  }

  /** Python's `value or ""` on a `str | None`. */
  function OrEmpty(o: Option<string>): (r: string)
    ensures o.Some? ==> r == o.value
    ensures o.None? ==> r == ""
  {
    Or(o, "")
  }

  /** The empty string as "no value": SQL's `NULLIF(v, '')` and Python's
      `v if v else None` alike. */
  function NoneIfEmpty(s: string): (r: Option<string>)
    ensures r.None? <==> s == ""
    ensures OrEmpty(r) == s
  {
    if s == "" then None else Some(s)
  }

  /** Python truthiness of a `str | None`. */
  predicate Truthy(o: Option<string>) {
    o.Some? && o.value != ""
  }

  /** The normalisation both stores apply first: absent arguments become "". */
  function Normalized(a: IdArgs): (r: Ids)
    ensures forall f :: (r.Get(f) != "") == Truthy(ArgOf(a, f))
    ensures forall f :: Truthy(ArgOf(a, f)) ==> r.Get(f) == ArgOf(a, f).value
  {
    Ids(OrEmpty(a.username), OrEmpty(a.email), OrEmpty(a.phone), OrEmpty(a.googleId), OrEmpty(a.appleId))
  }

  function ArgOf(a: IdArgs, f: Field): Option<string> {
    match f
    case Username => a.username
    case Email => a.email
    case Phone => a.phone
    case GoogleId => a.googleId
    case AppleId => a.appleId
  }

  /** A profile row as the stores return it (timestamps are not modelled). */
  datatype Profile = Profile(id: int, userId: int, name: string, isKids: bool, avatar: string,
                             language: string, maturityLevel: string, preferences: string)

  /** The attributes create_profile takes besides the owning user. */
  datatype NewProfile = NewProfile(name: string, isKids: bool, avatar: string, language: string,
                                   maturityLevel: string)

  /** The keyword arguments of update_profile: None leaves the column alone. */
  datatype Patch = Patch(name: Option<string>, isKids: Option<bool>, avatar: Option<string>,
                         language: Option<string>, maturityLevel: Option<string>,
                         preferences: Option<string>)

  const EmptyPatch: Patch := Patch(None, None, None, None, None, None)

  /** The store's error outcomes: the three exception classes of the database
      layer, and the foreign-key violation PostgreSQL raises when a profile is
      inserted for a user id that has no row. */
  datatype StoreError =
    | IdentityCollision(userIds: set<int>)
    | ProfileLimit(userId: int, count: nat)
    | ProfileNameExists(userId: int, name: string)
    | ForeignKeyViolation(userId: int)
}
