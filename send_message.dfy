/**
 * POST /api/send-message: an anonymous sender appends a message to the
 * first user with the given username, provided that user accepts messages.
 * The handler builds a "Message not found" reply for an unknown recipient
 * but never returns it, so an unknown recipient is answered like one that
 * does not accept messages; a delivered message is answered with status 404.
 */
module SendMessage {
  import opened Wrappers
  import opened Users
  import opened Http

  const MessageNotFound := "Message not found"
  const NotAccepting := "User is not accepting message"
  const MessageSent := "Message sent Successfully"

  /** The handler. `now` is the clock when the message is built; `content` is stored as given. */
  method Post(store: UserStore, username: string, content: string, now: Timestamp) returns (resp: Response)
    requires store.Valid()
    modifies store
    ensures store.Valid() && Evolves(old(store.users), store.users)
    ensures var found := FindOne(old(store.users), ByUsername(username));
      found.None? || !old(store.users)[found.value].isAcceptingMessage ==>
        store.users == old(store.users) && resp == Json(404, Outcome(false, NotAccepting))
    ensures var found := FindOne(old(store.users), ByUsername(username));
      found.Some? && old(store.users)[found.value].isAcceptingMessage ==>
        var i := found.value;
        && |store.users| == |old(store.users)|
        && (forall k :: 0 <= k < |store.users| && k != i ==> store.users[k] == old(store.users)[k])
        && store.users[i] == old(store.users)[i].(messages := store.users[i].messages)
        && store.users[i].messages == old(store.users)[i].messages + [Message(content, now)]
        && resp == Json(404, Outcome(true, MessageSent))
    ensures resp.status == 404 && resp.body.Outcome? && resp.body.message != MessageNotFound
  {
    var found := FindOne(store.users, ByUsername(username));
    if found.None? {
      // The source builds this reply and drops it (there is no `return`).
      var dropped := Json(404, Outcome(false, MessageNotFound));
    }
    // `!user?.isAcceptingMessage` is true for a missing user as well.
    if found.None? || !store.users[found.value].isAcceptingMessage {
      return Json(404, Outcome(false, NotAccepting));
    }
    var i := found.value;
    var user := store.users[i];
    var newMessage := Message(content, now);
    user := user.(messages := user.messages + [newMessage]);
    store.Save(i, user);
    return Json(404, Outcome(true, MessageSent));
  }
}
