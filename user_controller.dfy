/**
 * Sign-up, login and logout. The session is an object whose `user` field the
 * handlers assign; bcrypt is passed in as the two functions the handlers call.
 */
module UserController {
  import opened Schema
  import opened Tables
  import opened Store

  /** The request's session; `user` is None until a login or sign-up sets it. */
  class Session {
    var user: Option<SessionUser>

    constructor ()
      ensures user == None
    {
      user := None;
    }
  }

  /**
   * bcrypt as the handlers see it: `hash` is what `bcrypt.hash(password, 10)`
   * returned, `compare` is `bcrypt.compare(password, digest)`.
   */
  datatype Bcrypt = Bcrypt(hash: string -> string, compare: (string, string) -> bool)

  /** A digest made from a password matches that password. */
  ghost predicate Sound(bcrypt: Bcrypt)
  {
    forall password :: bcrypt.compare(password, bcrypt.hash(password))
  }

  /**
   * `signUp`: 400 when the two passwords differ, 409 when the username is
   * taken; otherwise one new user and the session logged in as that user.
   */
  method SignUp(db: Database, session: Session, username: string, email: string,
                password: string, passwordConfirmation: string, bcrypt: Bcrypt, now: Timestamp)
    returns (resp: Response)
    requires db.Valid()
    modifies db`users, db`nextUserId, session
    ensures db.Valid()
    ensures password != passwordConfirmation ==>
      resp == Fail(BadRequest, PasswordsDoNotMatch) && unchanged(db) && unchanged(session)
    ensures password == passwordConfirmation && HasUsername(old(db.users), username) ==>
      resp == Fail(Conflict, UsernameExists) && unchanged(db) && unchanged(session)
    ensures password == passwordConfirmation && !HasUsername(old(db.users), username) ==>
      && resp == Redirect(QuestionList)
      && old(db.nextUserId) !in old(db.users)
      && db.users == old(db.users)[old(db.nextUserId) := User(username, email, bcrypt.hash(password), now)]
      && db.nextUserId == old(db.nextUserId) + 1
      && session.user == Some(SessionUser(old(db.nextUserId), username, email))
    ensures old(db.OwnersExist()) ==> db.OwnersExist()
  {
    if password != passwordConfirmation {
      return Fail(BadRequest, PasswordsDoNotMatch);
    }
    var passwordDigest := bcrypt.hash(password);
    if HasUsername(db.users, username) {
      return Fail(Conflict, UsernameExists);
    }
    var id := db.InsertUser(username, email, passwordDigest, now);
    session.user := Some(SessionUser(id, username, email));
    resp := Redirect(QuestionList);
  }

  /**
   * `login`: looks the user up by email and checks the password. An unknown
   * email and a wrong password give the same 401 and leave the session as it
   * was. The query has no ORDER BY, so when several users share the email
   * the row it returns is any one of them; `found` names it.
   */
  method Login(db: Database, session: Session, email: string, password: string, bcrypt: Bcrypt)
    returns (resp: Response, ghost found: Option<UserId>)
    modifies session
    ensures found.None? <==> !HasEmail(db.users, email)
    ensures found.Some? ==> found.value in db.users && db.users[found.value].email == email
    ensures resp.Redirect? <==>
      found.Some? && bcrypt.compare(password, db.users[found.value].passwordDigest)
    ensures resp.Redirect? ==>
      && resp == Redirect(QuestionList)
      && session.user == Some(SessionUser(found.value, db.users[found.value].username, email))
    ensures !resp.Redirect? ==> resp == Fail(Unauthorized, InvalidCredentials) && unchanged(session)
  {
    if !HasEmail(db.users, email) {
      return Fail(Unauthorized, InvalidCredentials), None;
    }
    var id :| id in db.users && db.users[id].email == email;
    found := Some(id);
    var user := db.users[id];
    var passwordMatch := bcrypt.compare(password, user.passwordDigest);
    if passwordMatch {
      session.user := Some(SessionUser(id, user.username, user.email));
      resp := Redirect(QuestionList);
    } else {
      resp := Fail(Unauthorized, InvalidCredentials);
    }
  }

  /**
   * `logout`: destroys the session and redirects home; when the session store
   * reports an error (`destroyFailed`) the answer is 500 and the stored
   * session keeps its user. The route sits behind the logged-in guard, so a
   * user is in the session.
   */
  method Logout(session: Session, destroyFailed: bool) returns (resp: Response)
    requires session.user.Some?
    modifies session
    ensures !destroyFailed ==> resp == Redirect(Home) && session.user == None
    ensures destroyFailed ==> resp == Fail(ServerError, ServerErrorMessage) && unchanged(session)
  {
    if destroyFailed {
      resp := Fail(ServerError, ServerErrorMessage);
    } else {
      session.user := None;
      resp := Redirect(Home);
    }
  }

  /**
   * A sign-up followed by a login with the same email and password logs in
   * as the new user, provided bcrypt's compare accepts its own hash and no
   * earlier user has that email.
   */
  method SignUpThenLogin(db: Database, session: Session, username: string, email: string,
                         password: string, bcrypt: Bcrypt, now: Timestamp)
    returns (signedUp: Response, loggedIn: Response)
    requires db.Valid() && Sound(bcrypt)
    requires !HasUsername(db.users, username) && !HasEmail(db.users, email)
    modifies db`users, db`nextUserId, session
    ensures db.Valid()
    ensures signedUp == Redirect(QuestionList) && loggedIn == Redirect(QuestionList)
    ensures session.user == Some(SessionUser(old(db.nextUserId), username, email))
  {
    signedUp := SignUp(db, session, username, email, password, password, bcrypt, now);
    ghost var id := old(db.nextUserId);
    assert forall i :: i in db.users && db.users[i].email == email ==> i == id;
    assert bcrypt.compare(password, db.users[id].passwordDigest);
    ghost var found;
    loggedIn, found := Login(db, session, email, password, bcrypt);
  }
}
