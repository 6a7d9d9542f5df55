/**
 * Two request sequences run against a fresh database, with the outcome of
 * every request stated. Both users sign up first, so every question and
 * answer has an owner with a `users` row.
 */
module Scenarios {
  import opened Schema
  import opened Tables
  import opened Store
  import opened QuestionController
  import opened UserController

  /** Signs up "alice" and then "bob" on a fresh database; the principals are what each sign-up put in the session. */
  method SignUpTwo(bcrypt: Bcrypt, now: Timestamp) returns (db: Database, a: SessionUser, b: SessionUser)
    ensures fresh(db) && db.Valid() && db.Referential() && db.OwnersExist()
    ensures db.questions == map[] && db.answers == map[]
    ensures db.nextQuestionId == 1 && db.nextAnswerId == 1
    ensures a.id == 1 && b.id == 2 && a.id in db.users && b.id in db.users
  {
    db := new Database();
    var session := new Session();
    var _ := SignUp(db, session, "alice", "alice@example.com", "secret", "secret", bcrypt, now);
    a := session.user.value;
    assert db.users == map[1 := User("alice", "alice@example.com", bcrypt.hash("secret"), now)];
    assert !HasUsername(db.users, "bob");
    var _ := SignUp(db, session, "bob", "bob@example.com", "hunter2", "hunter2", bcrypt, now);
    b := session.user.value;
  }

  /**
   * A asks question 1, B answers it, A deletes the question: afterwards the
   * question is gone (404) and so is B's answer (404 when B deletes it).
   */
  method CascadeScenario(bcrypt: Bcrypt, now: Timestamp)
    returns (asked: Response, answered: Response, deleted: Response, viewed: Response, answerDeleted: Response)
    ensures asked == Redirect(QuestionList)
    ensures answered == Redirect(QuestionPage(1))
    ensures deleted == Redirect(QuestionList)
    ensures viewed == Fail(NotFound, QuestionNotFound)
    ensures answerDeleted == Fail(NotFound, AnswerNotFound)
  {
    var db, a, b := SignUpTwo(bcrypt, now);
    asked := CreateQuestion(db, a, "Q1", "body1", now);
    answered := CreateAnswer(db, b, 1, "answer text", now);
    assert db.answers == map[1 := Answer(1, b.id, "answer text", now)];
    ghost var mq, ma;
    deleted, mq, ma := DeleteQuestion(db, a, 1);
    viewed := GetQuestion(db, b, 1);
    answerDeleted := DeleteAnswer(db, b, 1);
  }

  /**
   * A asks question 1; B's edit of it is refused with the same 404 as a
   * missing question and changes nothing, while B's delete of it is refused
   * with 403.
   */
  method NotOwnerScenario(bcrypt: Bcrypt, now: Timestamp)
    returns (edited: Response, deleted: Response, title: string, body: string)
    ensures edited == Fail(NotFound, QuestionNotFoundOrNotOwner)
    ensures deleted == Fail(Forbidden, OnlyQuestionOwnerMayDelete)
    ensures title == "Q2" && body == "body2"
  {
    var db, a, b := SignUpTwo(bcrypt, now);
    var _ := CreateQuestion(db, a, "Q2", "body2", now);
    edited := EditQuestion(db, b, 1, "x", "y");
    ghost var mq, ma;
    deleted, mq, ma := DeleteQuestion(db, b, 1);
    title, body := db.questions[1].title, db.questions[1].body;
  }
}
