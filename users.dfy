/**
 * The user collection the route handlers read and write. A Mongoose query
 * becomes a scan of an in-memory sequence of records; `findOne` returns the
 * first record that matches its filter.
 */
module Users {
  import opened Wrappers

  type UserId = nat

  /** Milliseconds since the epoch (`Date.now()`). */
  type Timestamp = int

  datatype Message = Message(content: string, createdAt: Timestamp)

  datatype User = User(
    id: UserId,
    username: string,
    email: string,
    passwordHash: string,
    isVerified: bool,
    verifyCode: string,
    verifyCodeExpiry: Timestamp,
    isAcceptingMessage: bool,
    messages: seq<Message>)

  /** The filters the handlers pass to `findOne` / `findById`. */
  datatype Query =
    | VerifiedUsername(username: string)  // { username, isVerified: true }
    | ByEmail(email: string)              // { email }
    | ByUsername(username: string)        // { username }
    | ById(id: UserId)                    // findById(id)

  predicate Matches(q: Query, u: User)
  {
    match q
    case VerifiedUsername(name) => u.username == name && u.isVerified
    case ByEmail(e) => u.email == e
    case ByUsername(name) => u.username == name
    case ById(id) => u.id == id
  }

  /** Index of the first record matching `q`, or None when no record does. */
  function FindOne(users: seq<User>, q: Query): (r: Option<nat>)
    ensures r.Some? ==> r.value < |users| && Matches(q, users[r.value])
    ensures r.Some? ==> forall j :: 0 <= j < r.value ==> !Matches(q, users[j])
    ensures r.None? <==> forall j :: 0 <= j < |users| ==> !Matches(q, users[j])
    decreases |users|
  {
    if |users| == 0 then None
    else if Matches(q, users[0]) then Some(0)
    else
      match FindOne(users[1..], q)
      case None => None
      case Some(k) => Some(k + 1)
  }

  /** An id no record of `users` carries: one past the largest. */
  function FreshId(users: seq<User>): (id: UserId)
    ensures forall j :: 0 <= j < |users| ==> users[j].id < id
    decreases |users|
  {
    if |users| == 0 then 0
    else
      var rest := FreshId(users[1..]);
      if users[0].id < rest then rest else users[0].id + 1
  }

  // ---------------------------------------------------------------------
  // Invariants of the collection

  ghost predicate UniqueIds(users: seq<User>)
  {
    forall i, j :: 0 <= i < j < |users| ==> users[i].id != users[j].id
  }

  ghost predicate UniqueEmails(users: seq<User>)
  {
    forall i, j :: 0 <= i < j < |users| ==> users[i].email != users[j].email
  }

  /**
   * A verified record is the first record carrying its username: no earlier
   * record, verified or not, has the same name.
   */
  ghost predicate VerifiedNamesFirst(users: seq<User>)
  {
    forall i, j :: 0 <= i < j < |users| && users[j].isVerified ==> users[i].username != users[j].username
  }

  /** What every handler keeps true of the collection. */
  ghost predicate Consistent(users: seq<User>)
  {
    UniqueIds(users) && UniqueEmails(users) && VerifiedNamesFirst(users)
  }

  /** The invariant gives what the sign-up policy promises: at most one verified owner per username. */
  lemma VerifiedUsernamesUnique(users: seq<User>, i: nat, j: nat)
    requires Consistent(users)
    requires i < |users| && j < |users| && users[i].isVerified && users[j].isVerified
    requires users[i].username == users[j].username
    ensures i == j
  {
  }

  /**
   * How the collection may change from one request to the next: no record
   * disappears or moves, ids and emails stay, `isVerified` never goes back to
   * false, and a verified record keeps its username and password.
   */
  ghost predicate Evolves(before: seq<User>, after: seq<User>)
  {
    && |before| <= |after|
    && forall i :: 0 <= i < |before| ==>
      && after[i].id == before[i].id
      && after[i].email == before[i].email
      && (before[i].isVerified ==> after[i].isVerified)
      && (before[i].isVerified ==> after[i].username == before[i].username && after[i].passwordHash == before[i].passwordHash)
  }

  /** The stored collection, updated in place by the handlers through `Save` and `Insert`. */
  class UserStore {
    var users: seq<User>

    ghost predicate Valid()
      reads this
    {
      Consistent(users)
    }

    constructor ()
      ensures Valid() && users == []
    {
      users := [];
    }

    /** `doc.save()` on a document loaded from position `i`: the stored record becomes `u`. */
    method Save(i: nat, u: User)
      requires i < |users|
      modifies this
      ensures users == old(users)[i := u]
    {
      users := users[i := u];
    }

    /** `new UserModel({...}).save()`: the record is added after all others. */
    method Insert(u: User)
      modifies this
      ensures users == old(users) + [u]
    {
      users := users + [u];
    }
  }
}
