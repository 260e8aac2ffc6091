/**
 * POST /api/verify-code: the submitted code verifies the account of the
 * first user with the given username when it equals the stored code and the
 * stored expiry is still in the future. An expired code is reported as
 * expired even when it matches.
 */
module VerifyCode {
  import opened Wrappers
  import opened Users
  import opened Http

  const AccountVerified := "Account verified successully"
  const CodeExpired := "Verification Code has expired please signup again to get a new code"
  const IncorrectCode := "InCorrect Verification Code"
  const UserNotFound := "User Not found"

  datatype Verdict = Accepted | Expired | Incorrect

  /** The code/expiry decision for a stored record. */
  function Judge(stored: User, code: string, now: Timestamp): (v: Verdict)
    ensures v == Accepted <==> stored.verifyCode == code && stored.verifyCodeExpiry > now
    ensures v == Expired <==> stored.verifyCodeExpiry <= now
    ensures v == Incorrect <==> stored.verifyCodeExpiry > now && stored.verifyCode != code
  {
    var isCodeValid := stored.verifyCode == code;
    var isCodeNotExpired := stored.verifyCodeExpiry > now;
    if isCodeValid && isCodeNotExpired then Accepted
    else if !isCodeNotExpired then Expired
    else Incorrect
  }

  /**
   * The handler. `username` is taken as already URL-decoded; `now` is the
   * clock at the expiry comparison.
   */
  method Post(store: UserStore, username: string, code: string, now: Timestamp) returns (resp: Response)
    requires store.Valid()
    modifies store
    ensures store.Valid() && Evolves(old(store.users), store.users)
    ensures FindOne(old(store.users), ByUsername(username)).None? ==>
      store.users == old(store.users) && resp == Json(500, Outcome(false, UserNotFound))
    ensures FindOne(old(store.users), ByUsername(username)).Some? ==>
      var i := FindOne(old(store.users), ByUsername(username)).value;
      match Judge(old(store.users)[i], code, now)
      case Accepted =>
        store.users == old(store.users)[i := old(store.users)[i].(isVerified := true)] &&
        resp == Json(200, Outcome(true, AccountVerified))
      case Expired =>
        store.users == old(store.users) && resp == Json(400, Outcome(false, CodeExpired))
      case Incorrect =>
        store.users == old(store.users) && resp == Json(400, Outcome(false, IncorrectCode))
    // A record ends up verified exactly when it was already, or it is the looked-up
    // record and the code matched before its expiry.
    ensures |store.users| == |old(store.users)|
    ensures forall k :: 0 <= k < |store.users| ==>
      (store.users[k].isVerified <==>
        old(store.users)[k].isVerified ||
        (FindOne(old(store.users), ByUsername(username)) == Some(k) &&
         old(store.users)[k].verifyCode == code && old(store.users)[k].verifyCodeExpiry > now))
  {
    var found := FindOne(store.users, ByUsername(username));
    if found.None? {
      return Json(500, Outcome(false, UserNotFound));
    }
    var i := found.value;
    var user := store.users[i];
    var isCodeValid := user.verifyCode == code;
    var isCodeNotExpired := user.verifyCodeExpiry > now;
    if isCodeValid && isCodeNotExpired {
      user := user.(isVerified := true);
      store.Save(i, user);
      return Json(200, Outcome(true, AccountVerified));
    } else if !isCodeNotExpired {
      return Json(400, Outcome(false, CodeExpired));
    } else {
      return Json(400, Outcome(false, IncorrectCode));
    }
  }
}
