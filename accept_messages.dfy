/**
 * /api/accept-messages: the signed-in user reads (GET) or sets (POST) the
 * flag that decides whether anonymous senders may write to them. The
 * session is passed in as the id of the signed-in user, or None.
 */
module AcceptMessages {
  import opened Wrappers
  import opened Users
  import opened Http

  const NotAuthenticated := "Not Authenticated"
  const UpdateFailed := "Message acceptance status updated failed"
  const UpdateSucceeded := "Message acceptance status updated success"
  const UserIdNotFound := "User with that id not found"

  /** How a boolean reads inside a template string. */
  function BoolText(b: bool): (r: string)
    ensures r == "true" <==> b
    ensures r == "false" <==> !b
  {
    if b then "true" else "false"
  }

  /**
   * GET: the stored flag of the signed-in user. A read: it takes the
   * collection and returns a reply, and changes nothing.
   */
  function Get(users: seq<User>, session: Option<UserId>): (r: Response)
    ensures session.None? ==> r == Json(401, StatusOutcome(false, NotAuthenticated))
    ensures session.Some? && (forall k :: 0 <= k < |users| ==> users[k].id != session.value) ==>
      r == Json(404, Outcome(false, UserIdNotFound))
    ensures session.Some? && (exists k :: 0 <= k < |users| && users[k].id == session.value) ==> r.status == 200
    ensures r.status == 200 ==> (session.Some? && r.body.AcceptanceFlag? && r.body.success &&
      exists k :: 0 <= k < |users| && users[k].id == session.value && r.body.isAcceptingMessage == users[k].isAcceptingMessage)
  {
    match session
    case None => Json(401, StatusOutcome(false, NotAuthenticated))
    case Some(userId) =>
      match FindOne(users, ById(userId))
      case None => Json(404, Outcome(false, UserIdNotFound))
      case Some(k) => Json(200, AcceptanceFlag(true, users[k].isAcceptingMessage))
  }

  /** With unique ids, GET reports exactly the flag of the record carrying the session's id. */
  lemma GetReportsStoredFlag(users: seq<User>, k: nat)
    requires UniqueIds(users) && k < |users|
    ensures Get(users, Some(users[k].id)) == Json(200, AcceptanceFlag(true, users[k].isAcceptingMessage))
  {
    assert Matches(ById(users[k].id), users[k]);
  }

  /**
   * POST: `findByIdAndUpdate(id, { isAcceptingMessage }, { new: true })`.
   * The reply to a missing session uses the key `status`, not `success`.
   */
  method Post(store: UserStore, session: Option<UserId>, acceptMessages: bool) returns (resp: Response)
    requires store.Valid()
    modifies store
    ensures store.Valid() && Evolves(old(store.users), store.users)
    ensures session.None? ==>
      store.users == old(store.users) && resp == Json(401, StatusOutcome(false, NotAuthenticated))
    ensures session.Some? && FindOne(old(store.users), ById(session.value)).None? ==>
      store.users == old(store.users) && resp == Json(401, Outcome(false, UpdateFailed))
    ensures session.Some? && FindOne(old(store.users), ById(session.value)).Some? ==>
      var i := FindOne(old(store.users), ById(session.value)).value;
      && store.users == old(store.users)[i := old(store.users)[i].(isAcceptingMessage := acceptMessages)]
      && resp == Json(200, UpdatedUser(true, UpdateSucceeded + BoolText(acceptMessages), store.users[i]))
      // Idempotent: when the flag already had the value, nothing changes.
      && (old(store.users)[i].isAcceptingMessage == acceptMessages ==> store.users == old(store.users))
      // A GET after this POST reads back the value just written.
      && Get(store.users, session) == Json(200, AcceptanceFlag(true, acceptMessages))
  {
    if session.None? {
      return Json(401, StatusOutcome(false, NotAuthenticated));
    }
    var userId := session.value;
    var found := FindOne(store.users, ById(userId));
    if found.None? {
      return Json(401, Outcome(false, UpdateFailed));
    }
    var i := found.value;
    store.Save(i, store.users[i].(isAcceptingMessage := acceptMessages));
    var updatedUser := store.users[i];
    GetReportsStoredFlag(store.users, i);
    return Json(200, UpdatedUser(true, UpdateSucceeded + BoolText(acceptMessages), updatedUser));
  }
}
