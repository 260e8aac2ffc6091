/**
 * GET /api/check-username-unique: validates the `username` query parameter
 * and reports whether a verified user already holds it. Unverified records
 * with that username do not make it taken. Nothing is written.
 */
module CheckUsernameUnique {
  import opened Wrappers
  import opened Users
  import opened Http
  import opened Strings
  import SignUp

  const AlreadyTaken := "Username is already taken"
  const IsUnique := "Username is unique"
  const InvalidQuery := "Invalid query parameters"

  predicate UsernameChar(c: char)
  {
    'a' <= c <= 'z' || 'A' <= c <= 'Z' || '0' <= c <= '9' || c == '_'
  }

  /** The documented username rule: 2 to 20 characters from [a-zA-Z0-9_]. */
  predicate UsernameRule(u: string)
  {
    2 <= |u| <= 20 && forall i :: 0 <= i < |u| ==> UsernameChar(u[i])
  }

  /**
   * The handler. `username` is the query parameter (None when absent) and
   * `schemaMessages` the messages the schema reports for a rejected name.
   */
  function Get(users: seq<User>, username: Option<string>, schemaMessages: seq<string>): (r: Response)
    ensures r.status == 200 <==>
      username.Some? && UsernameRule(username.value) &&
      forall k :: 0 <= k < |users| ==> !(users[k].username == username.value && users[k].isVerified)
    ensures r.status == 200 ==> r == Json(200, Outcome(true, IsUnique))
    ensures username.None? || !UsernameRule(username.value) ==>
      r == Json(400, Outcome(false, if |schemaMessages| > 0 then Join(schemaMessages, ",") else InvalidQuery))
    ensures (username.Some? && UsernameRule(username.value) &&
      exists k :: 0 <= k < |users| && users[k].username == username.value && users[k].isVerified) ==>
      r == Json(400, Outcome(false, AlreadyTaken))
  {
    if username.None? || !UsernameRule(username.value) then
      var usernameErrors := schemaMessages;
      Json(400, Outcome(false, if |usernameErrors| > 0 then Join(usernameErrors, ",") else InvalidQuery))
    else if FindOne(users, VerifiedUsername(username.value)).Some? then
      Json(400, Outcome(false, AlreadyTaken))
    else
      Json(200, Outcome(true, IsUnique))
  }

  /**
   * For a name that passes validation, this endpoint calls it taken exactly
   * when sign-up would refuse it with "Username already exists".
   */
  lemma TakenIffSignUpRefuses(users: seq<User>, username: string, email: string, schemaMessages: seq<string>)
    requires UsernameRule(username)
    ensures Get(users, Some(username), schemaMessages).body == Outcome(false, AlreadyTaken) <==>
      SignUp.Decide(users, username, email) == SignUp.UsernameTaken
  {
  }
}
