/** The two Mongoose schemas: record shapes, the values their setters store
    and the invariants their validators keep. */
module Schema {
  import opened Base
  import opened Text

  /** Ids are ObjectIds in their string form; the store assigns them. */
  type UserId = string
  type EventId = string

  /** Dates are opaque ordered timestamps. */
  type Date = int

  // ----- Event (server/src/models/Event.js) -----

  /** `createdBy` is `owner`. `attendees` is a plain array of user references:
      the schema itself does not make it duplicate-free. */
  datatype Event = Event(
    title: string,
    description: Option<string>,
    date: Date,
    location: Option<string>,
    owner: UserId,
    attendees: seq<UserId>)

  /** An optional string field, put through its `trim: true` setter. */
  function TrimField(field: Option<string>): (r: Option<string>)
    ensures r.None? <==> field.None?
    ensures r.Some? ==> IsTrimmed(r.value)
  {
    match field
    case None => None
    case Some(s) => Some(Trim(s))
  }

  predicate FieldTrimmed(field: Option<string>) {
    field.None? || IsTrimmed(field.value)
  }

  /** The `required` validators a save runs: the title must be a non-empty
      string (date and owner are always present in this model). */
  predicate EventPassesValidation(e: Event) {
    e.title != ""
  }

  /** What every stored event satisfies: validated, and every string field
      trimmed by its setter. */
  predicate ValidEvent(e: Event) {
    && EventPassesValidation(e)
    && IsTrimmed(e.title)
    && FieldTrimmed(e.description)
    && FieldTrimmed(e.location)
  }

  type EventStore = map<EventId, Event>

  predicate ValidEvents(store: EventStore) {
    forall id | id in store :: ValidEvent(store[id])
  }

  // ----- User (server/src/models/User.js) -----

  datatype User = User(name: string, email: string, passwordHash: string)

  /** A user as every default query returns it: `passwordHash` is declared
      `select: false`, so the projection has no field for it. */
  datatype PublicUser = PublicUser(id: UserId, name: string, email: string)

  function Project(id: UserId, u: User): PublicUser {
    PublicUser(id, u.name, u.email)
  }

  /** The projection never depends on the password hash: two users that
      differ only in their hash look the same to every client. */
  lemma ProjectHidesHash(id: UserId, u: User, v: User)
    ensures u.name == v.name && u.email == v.email ==> Project(id, u) == Project(id, v)
    ensures forall h :: Project(id, u.(passwordHash := h)) == Project(id, u)
  {
  }

  predicate IsNormalizedEmail(s: string) {
    IsTrimmed(s) && IsLower(s)
  }

  /** The `lowercase: true` and `trim: true` setters of `email`; Mongoose runs
      them both when a user is written and when a query filters on `email`. */
  function NormalizeEmail(s: string): (r: string)
    ensures IsNormalizedEmail(r)
  {
    LowerTrimCommute(s);
    LowerAt(Trim(s));
    Lower(Trim(s))
  }

  /** Normalising is a projection: it fixes exactly the normalised emails, so
      normalising an email already stored leaves it unchanged. */
  lemma NormalizeEmailFixes(s: string)
    ensures NormalizeEmail(s) == s <==> IsNormalizedEmail(s)
    ensures NormalizeEmail(NormalizeEmail(s)) == NormalizeEmail(s)
  {
    TrimFixesTrimmed(s);
    LowerFixesLower(s);
    var n := NormalizeEmail(s);
    TrimFixesTrimmed(n);
    LowerFixesLower(n);
  }

  /** The `required` validators: name, email and hash are non-empty strings. */
  predicate UserPassesValidation(u: User) {
    u.name != "" && u.email != "" && u.passwordHash != ""
  }

  predicate ValidUser(u: User) {
    && UserPassesValidation(u)
    && IsTrimmed(u.name)
    && IsNormalizedEmail(u.email)
  }

  type UserStore = map<UserId, User>

  /** The unique index on `email`. */
  predicate UniqueEmails(users: UserStore) {
    forall a, b | a in users && b in users && users[a].email == users[b].email :: a == b
  }

  predicate ValidUsers(users: UserStore) {
    && (forall id | id in users :: ValidUser(users[id]))
    && UniqueEmails(users)
  }

  /** `User.findOne({ email })` finds someone. */
  predicate EmailTaken(users: UserStore, email: string) {
    exists id | id in users :: users[id].email == email
  }
}
