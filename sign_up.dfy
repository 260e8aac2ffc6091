/**
 * POST /api/sign-up: registration and re-registration. A verified owner of
 * the username or of the email blocks the request; an unverified record with
 * the email is taken over; otherwise a new record is created. Every accepted
 * request stores a fresh six-digit code valid for one hour and then mails it.
 */
module SignUp {
  import opened Wrappers
  import opened Users
  import opened Http
  import opened Strings

  const CodeLifetimeMs: int := 3600000

  const UsernameExists := "Username already exists"
  const EmailExists := "User with this email already exists"
  const Registered := "User registered successfully. Please check your email for verification code."

  /** `Math.floor(100000 + draw * 900000)` for a draw of `Math.random()`. */
  function CodeNumber(draw: real): (n: int)
    requires 0.0 <= draw < 1.0
    ensures 100000 <= n <= 999999
  {
    (100000.0 + draw * 900000.0).Floor
  }

  /** The code's text (`toString()`): six decimal digits, the first not '0', denoting the drawn number. */
  function IssueCode(draw: real): (code: string)
    requires 0.0 <= draw < 1.0
    ensures |code| == 6 && IsDecimal(code) && code[0] != '0'
    ensures DecimalValue(code) == CodeNumber(draw)
  {
    var n := CodeNumber(draw);
    assert Pow10(5) == 100000 && Pow10(6) == 1000000;
    DecimalLength(n, 6);
    DecimalRoundTrip(n);
    NatToDecimal(n)
  }

  /** Which of the four registration paths a request takes. */
  datatype Decision = UsernameTaken | EmailTaken | Reregister(index: nat) | Create

  /**
   * The registration policy. The username check comes first; the email
   * check only runs when no verified user holds the username.
   */
  function Decide(users: seq<User>, username: string, email: string): (d: Decision)
    ensures d.UsernameTaken? <==>
      exists i :: 0 <= i < |users| && users[i].username == username && users[i].isVerified
    ensures d.EmailTaken? <==> (!d.UsernameTaken? &&
      exists i :: 0 <= i < |users| && users[i].email == email && users[i].isVerified &&
        forall j :: 0 <= j < i ==> users[j].email != email)
    ensures d.Reregister? ==> d.index < |users| && users[d.index].email == email && !users[d.index].isVerified
    ensures d.Reregister? ==> forall j :: 0 <= j < d.index ==> users[j].email != email
    ensures d.Create? <==> !d.UsernameTaken? && forall i :: 0 <= i < |users| ==> users[i].email != email
  {
    if FindOne(users, VerifiedUsername(username)).Some? then UsernameTaken
    else
      match FindOne(users, ByEmail(email))
      case Some(i) => if users[i].isVerified then EmailTaken else Reregister(i)
      case None => Create
  }

  /**
   * The handler. `validation` is the outcome of the request-body schema,
   * `hashedPassword` the bcrypt hash of the submitted password, `now` the
   * clock, `draw` the value of `Math.random()`, and `emailSent` /
   * `mailerMessage` the result of sending the verification email.
   */
  method Post(store: UserStore, validation: Validation, username: string, email: string,
              hashedPassword: string, now: Timestamp, draw: real,
              emailSent: bool, mailerMessage: string) returns (resp: Response)
    requires store.Valid() && 0.0 <= draw < 1.0
    modifies store
    ensures store.Valid() && Evolves(old(store.users), store.users)
    ensures validation.Failed? ==>
      store.users == old(store.users) && resp == Json(400, FieldErrors(false, validation.issues))
    ensures validation.Passed? && Decide(old(store.users), username, email).UsernameTaken? ==>
      store.users == old(store.users) && resp == Json(400, Outcome(false, UsernameExists))
    ensures validation.Passed? && Decide(old(store.users), username, email).EmailTaken? ==>
      store.users == old(store.users) && resp == Json(400, Outcome(false, EmailExists))
    ensures validation.Passed? && Decide(old(store.users), username, email).Reregister? ==>
      var i := Decide(old(store.users), username, email).index;
      store.users == old(store.users)[i := old(store.users)[i].(
        username := username,
        passwordHash := hashedPassword,
        verifyCode := IssueCode(draw),
        verifyCodeExpiry := now + CodeLifetimeMs)]
    ensures validation.Passed? && Decide(old(store.users), username, email).Create? ==>
      store.users == old(store.users) + [User(FreshId(old(store.users)), username, email, hashedPassword,
        false, IssueCode(draw), now + CodeLifetimeMs, true, [])]
    ensures validation.Passed? && (Decide(old(store.users), username, email).Reregister? || Decide(old(store.users), username, email).Create?) ==>
      resp == if emailSent then Json(201, Outcome(true, Registered)) else Json(500, Outcome(false, mailerMessage))
  {
    if validation.Failed? {
      return Json(400, FieldErrors(false, validation.issues));
    }
    if FindOne(store.users, VerifiedUsername(username)).Some? {
      return Json(400, Outcome(false, UsernameExists));
    }
    var existing := FindOne(store.users, ByEmail(email));
    var verifyCode := IssueCode(draw);
    if existing.Some? {
      var i := existing.value;
      if store.users[i].isVerified {
        return Json(400, Outcome(false, EmailExists));
      }
      var user := store.users[i];
      user := user.(username := username);
      user := user.(passwordHash := hashedPassword);
      user := user.(verifyCode := verifyCode);
      user := user.(verifyCodeExpiry := now + CodeLifetimeMs);
      ghost var before := store.users;
      store.Save(i, user);
      forall a, b | 0 <= a < b < |store.users| && store.users[b].isVerified
        ensures store.users[a].username != store.users[b].username
      {
        if a == i {
          assert !Matches(VerifiedUsername(username), before[b]);
        }
      }
    } else {
      var expiryDate := now + CodeLifetimeMs;
      var newUser := User(FreshId(store.users), username, email, hashedPassword, false, verifyCode, expiryDate, true, []);
      store.Insert(newUser);
    }
    if !emailSent {
      return Json(500, Outcome(false, mailerMessage));
    }
    return Json(201, Outcome(true, Registered));
  }
}
