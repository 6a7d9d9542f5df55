/**
 * The PostgreSQL database the controllers query, as three tables held in
 * maps and the three SERIAL sequences that hand out their ids. Each method
 * is one of the statements with which the controllers write a table; it
 * changes its own table and nothing else. Reads are map lookups.
 */
module Store {
  import opened Schema
  import opened Tables

  class Database {
    var users: map<UserId, User>
    var questions: map<QuestionId, Question>
    var answers: map<AnswerId, Answer>

    // The next value of each table's id sequence.
    var nextUserId: nat
    var nextQuestionId: nat
    var nextAnswerId: nat

    /** Ids handed out so far are below their sequence, and no username is taken twice. */
    ghost predicate Valid()
      reads this
    {
      && (forall id :: id in users ==> id < nextUserId)
      && (forall id :: id in questions ==> id < nextQuestionId)
      && (forall id :: id in answers ==> id < nextAnswerId)
      && UsernamesUnique(users)
    }

    /** Every answer belongs to a question that exists. */
    predicate Referential()
      reads this
    {
      Tables.Referential(questions, answers)
    }

    /** Every question and answer is owned by a user that has a row. */
    predicate OwnersExist()
      reads this
    {
      Tables.OwnersExist(users, questions, answers)
    }

    /** An empty database; SERIAL sequences start at 1. */
    constructor ()
      ensures Valid() && Referential() && OwnersExist()
      ensures users == map[] && questions == map[] && answers == map[]
      ensures nextUserId == 1 && nextQuestionId == 1 && nextAnswerId == 1
    {
      users, questions, answers := map[], map[], map[];
      nextUserId, nextQuestionId, nextAnswerId := 1, 1, 1;
    }

    /** `INSERT INTO users (username, email, password_digest, created_at) ... RETURNING id` */
    method InsertUser(username: string, email: string, passwordDigest: string, now: Timestamp) returns (id: UserId)
      requires Valid()
      requires !HasUsername(users, username)
      modifies this`users, this`nextUserId
      ensures Valid()
      ensures id == old(nextUserId) && id !in old(users)
      ensures users == old(users)[id := User(username, email, passwordDigest, now)]
      ensures nextUserId == id + 1
    {
      id := nextUserId;
      InsertKeepsUsernamesUnique(users, id, User(username, email, passwordDigest, now));
      users := users[id := User(username, email, passwordDigest, now)];
      nextUserId := nextUserId + 1;
    }

    /** `INSERT INTO questions (user_id, title, body, created_at) VALUES ($1, $2, $3, NOW())` */
    method InsertQuestion(userId: UserId, title: string, body: string, now: Timestamp) returns (id: QuestionId)
      requires Valid()
      modifies this`questions, this`nextQuestionId
      ensures Valid()
      ensures id == old(nextQuestionId) && id !in old(questions)
      ensures questions == old(questions)[id := Question(userId, title, body, now)]
      ensures nextQuestionId == id + 1
    {
      id := nextQuestionId;
      questions := questions[id := Question(userId, title, body, now)];
      nextQuestionId := nextQuestionId + 1;
    }

    /** `INSERT INTO answers (question_id, user_id, answer_text, created_at) VALUES ($1, $2, $3, NOW())` */
    method InsertAnswer(questionId: QuestionId, userId: UserId, answerText: string, now: Timestamp) returns (id: AnswerId)
      requires Valid()
      modifies this`answers, this`nextAnswerId
      ensures Valid()
      ensures id == old(nextAnswerId) && id !in old(answers)
      ensures answers == old(answers)[id := Answer(questionId, userId, answerText, now)]
      ensures nextAnswerId == id + 1
    {
      id := nextAnswerId;
      answers := answers[id := Answer(questionId, userId, answerText, now)];
      nextAnswerId := nextAnswerId + 1;
    }

    /**
     * `UPDATE questions SET title = $1, body = $2 WHERE id = $3 AND user_id = $4 RETURNING *`:
     * the updated row, or None when no row has that id and owner.
     */
    method UpdateOwnedQuestion(id: QuestionId, userId: UserId, title: string, body: string) returns (row: Option<Question>)
      requires Valid()
      modifies this`questions
      ensures Valid()
      ensures row.Some? <==> id in old(questions) && old(questions)[id].userId == userId
      ensures row.Some? ==> row.value == old(questions)[id].(title := title, body := body)
                            && questions == old(questions)[id := row.value]
      ensures row.None? ==> questions == old(questions)
    {
      if id in questions && questions[id].userId == userId {
        row := Some(questions[id].(title := title, body := body));
        questions := questions[id := row.value];
      } else {
        row := None;
      }
    }

    /** `DELETE FROM answers WHERE question_id = $1` */
    method DeleteAnswersOfQuestion(questionId: QuestionId)
      requires Valid()
      modifies this`answers
      ensures Valid()
      ensures answers == WithoutAnswersOf(old(answers), questionId)
    {
      answers := WithoutAnswersOf(answers, questionId);
    }

    /** `DELETE FROM questions WHERE id = $1` */
    method DeleteQuestionById(id: QuestionId)
      requires Valid()
      modifies this`questions
      ensures Valid()
      ensures questions == old(questions) - {id}
    {
      questions := questions - {id};
    }

    /** `DELETE FROM answers WHERE id = $1` */
    method DeleteAnswerById(id: AnswerId)
      requires Valid()
      modifies this`answers
      ensures Valid()
      ensures answers == old(answers) - {id}
    {
      answers := answers - {id};
    }
  }
}
