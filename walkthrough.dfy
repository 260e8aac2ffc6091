/**
 * A client of the handlers' contracts: one account's life from sign-up to a
 * refused message, proved from the specifications alone.
 */
module Walkthrough {
  import opened Wrappers
  import opened Users
  import opened Http
  import SignUp
  import VerifyCode
  import SendMessage
  import AcceptMessages

  method AliceJourney(hashed: string, now: Timestamp, draw: real)
    requires 0.0 <= draw < 1.0
  {
    var store := new UserStore();
    var r := SignUp.Post(store, Passed, "alice", "a@x.com", hashed, now, draw, true, "");
    assert r.status == 201;
    assert |store.users| == 1 && !store.users[0].isVerified;
    var code := store.users[0].verifyCode;
    assert |code| == 6;

    // A wrong code before expiry is refused and changes nothing.
    assert FindOne(store.users, ByUsername("alice")) == Some(0);
    r := VerifyCode.Post(store, "alice", "12345", now + 1);
    assert r == Json(400, Outcome(false, VerifyCode.IncorrectCode));
    assert !store.users[0].isVerified;

    // The stored code before expiry verifies the account.
    r := VerifyCode.Post(store, "alice", code, now + 1);
    assert r.status == 200 && store.users[0].isVerified;

    // Alice accepts messages from the start: the first one is stored.
    assert FindOne(store.users, ByUsername("alice")) == Some(0);
    r := SendMessage.Post(store, "alice", "hi", now + 2);
    assert r.body == Outcome(true, SendMessage.MessageSent);
    assert |store.users[0].messages| == 1;

    // Alice turns acceptance off; the next message is refused.
    var id := store.users[0].id;
    assert FindOne(store.users, ById(id)) == Some(0);
    r := AcceptMessages.Post(store, Some(id), false);
    assert r.status == 200 && !store.users[0].isAcceptingMessage;
    assert FindOne(store.users, ByUsername("alice")) == Some(0);
    r := SendMessage.Post(store, "alice", "again", now + 3);
    assert r.body == Outcome(false, SendMessage.NotAccepting);
    assert |store.users[0].messages| == 1;
  }
}
