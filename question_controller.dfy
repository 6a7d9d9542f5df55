/**
 * The question and answer handlers. Every route reaches them only through
 * the logged-in guard, so each takes the session's user as `principal`.
 * Reads are functions of the database; writes are methods that issue the
 * handler's SQL statements in order.
 */
module QuestionController {
  import opened Schema
  import opened Tables
  import opened Store

  /**
   * `getAllQuestions`: every question whose owner has a `users` row (the
   * query's inner join drops the others), newest first, whoever owns it.
   */
  ghost function GetAllQuestions(db: Database): (r: Response)
    reads db
    ensures r.Render? && r.page.QuestionsView?
    ensures ListsExactly(r.page.rows, QuestionsWithOwner(db.questions, db.users))
    ensures NewestFirst(r.page.rows)
    ensures db.OwnersExist() ==> ListsExactly(r.page.rows, db.questions)
  {
    JoinsDropNothing(db.users, db.questions, db.answers);
    Render(QuestionsView(ListNewestFirst(QuestionsWithOwner(db.questions, db.users))))
  }

  /**
   * `getQuestion`: the question with its answers, or 404 when there is none.
   * Both queries join `users`, so a question or answer whose owner has no
   * row is dropped, and a dropped question is a 404 too. The answers are a
   * map: the query has no ORDER BY.
   */
  function GetQuestion(db: Database, principal: SessionUser, id: QuestionId): (r: Response)
    reads db
    ensures r == Fail(NotFound, QuestionNotFound) <==>
      id !in db.questions || db.questions[id].userId !in db.users
    ensures id in db.questions && db.questions[id].userId in db.users ==>
      && r.Render? && r.page.QuestionDetailsView?
      && r.page.id == id && r.page.question == db.questions[id]
      && r.page.currentUser == principal
      && (forall a :: a in r.page.answers <==>
            a in db.answers && db.answers[a].questionId == id && db.answers[a].userId in db.users)
      && (forall a :: a in r.page.answers ==> r.page.answers[a] == db.answers[a])
    ensures db.OwnersExist() ==>
      && (r == Fail(NotFound, QuestionNotFound) <==> id !in db.questions)
      && (id in db.questions ==>
            forall a :: a in r.page.answers <==> a in db.answers && db.answers[a].questionId == id)
  {
    var questions := QuestionsWithOwner(db.questions, db.users);
    var answers := AnswersOf(AnswersWithOwner(db.answers, db.users), id);
    if id !in questions then Fail(NotFound, QuestionNotFound)
    else Render(QuestionDetailsView(id, questions[id], answers, principal))
  }

  /**
   * `getEditQuestionForm`: one query filters on both id and owner, so an
   * absent question and another user's question give the same 404.
   */
  function GetEditQuestionForm(db: Database, principal: SessionUser, id: QuestionId): (r: Response)
    reads db
    ensures r.Render? <==> id in db.questions && db.questions[id].userId == principal.id
    ensures r.Render? ==> r.page == EditQuestionView(id, db.questions[id])
    ensures !r.Render? ==> r == Fail(NotFound, QuestionNotFoundOrNotOwner)
  {
    if id in db.questions && db.questions[id].userId == principal.id then
      Render(EditQuestionView(id, db.questions[id]))
    else
      Fail(NotFound, QuestionNotFoundOrNotOwner)
  }

  /** `createQuestion`: one new question owned by the principal; no check on title or body. */
  method CreateQuestion(db: Database, principal: SessionUser, title: string, body: string, now: Timestamp)
    returns (resp: Response)
    requires db.Valid()
    modifies db`questions, db`nextQuestionId
    ensures db.Valid()
    ensures resp == Redirect(QuestionList)
    ensures old(db.nextQuestionId) !in old(db.questions)
    ensures db.questions == old(db.questions)[old(db.nextQuestionId) := Question(principal.id, title, body, now)]
    ensures db.nextQuestionId == old(db.nextQuestionId) + 1
    ensures old(db.Referential()) ==> db.Referential()
    ensures old(db.OwnersExist()) && principal.id in db.users ==> db.OwnersExist()
  {
    var _ := db.InsertQuestion(principal.id, title, body, now);
    resp := Redirect(QuestionList);
  }

  /**
   * `createAnswer`: inserts the answer without checking that the question
   * exists, so references stay valid exactly when it does.
   */
  method CreateAnswer(db: Database, principal: SessionUser, questionId: QuestionId, answerText: string, now: Timestamp)
    returns (resp: Response)
    requires db.Valid()
    modifies db`answers, db`nextAnswerId
    ensures db.Valid()
    ensures resp == Redirect(QuestionPage(questionId))
    ensures old(db.nextAnswerId) !in old(db.answers)
    ensures db.answers == old(db.answers)[old(db.nextAnswerId) := Answer(questionId, principal.id, answerText, now)]
    ensures db.nextAnswerId == old(db.nextAnswerId) + 1
    ensures db.Referential() <==> old(db.Referential()) && questionId in old(db.questions)
    ensures old(db.OwnersExist()) && principal.id in db.users ==> db.OwnersExist()
  {
    ghost var before := db.answers;
    var id := db.InsertAnswer(questionId, principal.id, answerText, now);
    assert db.answers[id].questionId == questionId;
    assert forall a :: a in before ==> a in db.answers && db.answers[a] == before[a];
    resp := Redirect(QuestionPage(questionId));
  }

  /**
   * `deleteQuestion`: 404 when the question is absent, 403 when the principal
   * does not own it, and otherwise two statements: the question's answers
   * go first, then the question. `midQuestions`/`midAnswers` are the tables
   * between the two statements.
   */
  method DeleteQuestion(db: Database, principal: SessionUser, id: QuestionId)
    returns (resp: Response, ghost midQuestions: map<QuestionId, Question>, ghost midAnswers: map<AnswerId, Answer>)
    requires db.Valid()
    modifies db`questions, db`answers
    ensures db.Valid()
    ensures id !in old(db.questions) ==> resp == Fail(NotFound, QuestionNotFound) && unchanged(db)
    ensures id in old(db.questions) && old(db.questions)[id].userId != principal.id ==>
      resp == Fail(Forbidden, OnlyQuestionOwnerMayDelete) && unchanged(db)
    ensures id in old(db.questions) && old(db.questions)[id].userId == principal.id ==>
      && resp == Redirect(QuestionList)
      && midQuestions == old(db.questions) && id in midQuestions
      && midAnswers == WithoutAnswersOf(old(db.answers), id) && AnswersOf(midAnswers, id) == map[]
      && db.questions == old(db.questions) - {id}
      && db.answers == midAnswers
    ensures old(db.Referential()) ==> db.Referential()
    ensures old(db.OwnersExist()) ==> db.OwnersExist()
  {
    midQuestions, midAnswers := db.questions, db.answers;
    if id !in db.questions {
      return Fail(NotFound, QuestionNotFound), midQuestions, midAnswers;
    }
    var question := db.questions[id];
    if question.userId == principal.id {
      ghost var before := db.answers;
      db.DeleteAnswersOfQuestion(id);
      midQuestions, midAnswers := db.questions, db.answers;
      if Tables.Referential(midQuestions, before) {
        CascadeKeepsReferential(midQuestions, before, id);
      }
      db.DeleteQuestionById(id);
      resp := Redirect(QuestionList);
    } else {
      resp := Fail(Forbidden, OnlyQuestionOwnerMayDelete);
    }
  }

  /**
   * Deleting a question a second time, after the first deletion succeeded,
   * answers 404 and changes nothing further.
   */
  method DeleteQuestionTwice(db: Database, principal: SessionUser, id: QuestionId)
    returns (first: Response, second: Response)
    requires db.Valid()
    modifies db`questions, db`answers
    ensures db.Valid()
    ensures first.Redirect? ==> second == Fail(NotFound, QuestionNotFound)
    ensures first.Redirect? ==>
      db.questions == old(db.questions) - {id} && db.answers == WithoutAnswersOf(old(db.answers), id)
    ensures !first.Redirect? ==> first == second && unchanged(db)
  {
    ghost var m1, m2;
    first, m1, m2 := DeleteQuestion(db, principal, id);
    second, m1, m2 := DeleteQuestion(db, principal, id);
  }

  /**
   * `editQuestion`: one UPDATE filtered on id and owner. Success changes the
   * title and body only; an absent question and another user's question both
   * give 404 and change nothing.
   */
  method EditQuestion(db: Database, principal: SessionUser, id: QuestionId, title: string, body: string)
    returns (resp: Response)
    requires db.Valid()
    modifies db`questions
    ensures db.Valid()
    ensures resp.Redirect? <==> id in old(db.questions) && old(db.questions)[id].userId == principal.id
    ensures resp.Redirect? ==>
      && resp == Redirect(QuestionPage(id))
      && db.questions.Keys == old(db.questions).Keys
      && db.questions[id].title == title && db.questions[id].body == body
      && db.questions[id].userId == old(db.questions)[id].userId
      && db.questions[id].createdAt == old(db.questions)[id].createdAt
      && (forall k :: k in db.questions && k != id ==> db.questions[k] == old(db.questions)[k])
    ensures !resp.Redirect? ==> resp == Fail(NotFound, QuestionNotFoundOrNotOwner) && db.questions == old(db.questions)
    ensures old(db.Referential()) ==> db.Referential()
    ensures old(db.OwnersExist()) ==> db.OwnersExist()
  {
    var question := db.UpdateOwnedQuestion(id, principal.id, title, body);
    if question.None? {
      resp := Fail(NotFound, QuestionNotFoundOrNotOwner);
      return;
    }
    resp := Redirect(QuestionPage(id));
  }

  /**
   * `deleteAnswer`: 404 when the answer is absent, 403 when the principal does
   * not own it, and otherwise that one answer is deleted and the response
   * redirects to the answer's question, which is left as it was.
   */
  method DeleteAnswer(db: Database, principal: SessionUser, answerId: AnswerId)
    returns (resp: Response)
    requires db.Valid()
    modifies db`answers
    ensures db.Valid()
    ensures answerId !in old(db.answers) ==> resp == Fail(NotFound, AnswerNotFound) && unchanged(db)
    ensures answerId in old(db.answers) && old(db.answers)[answerId].userId != principal.id ==>
      resp == Fail(Forbidden, OnlyAnswerOwnerMayDelete) && unchanged(db)
    ensures answerId in old(db.answers) && old(db.answers)[answerId].userId == principal.id ==>
      && resp == Redirect(QuestionPage(old(db.answers)[answerId].questionId))
      && db.answers == old(db.answers) - {answerId}
    ensures old(db.Referential()) ==> db.Referential()
    ensures old(db.OwnersExist()) ==> db.OwnersExist()
  {
    if answerId !in db.answers {
      return Fail(NotFound, AnswerNotFound);
    }
    var answer := db.answers[answerId];
    if answer.userId == principal.id {
      db.DeleteAnswerById(answerId);
      resp := Redirect(QuestionPage(answer.questionId));
    } else {
      resp := Fail(Forbidden, OnlyAnswerOwnerMayDelete);
    }
  }
}
