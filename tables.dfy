/**
 * Pure functions over the tables: what the controllers' SELECT and DELETE
 * statements select or keep, the newest-first listing of questions, and the
 * invariants of the tables as a whole.
 */
module Tables {
  import opened Schema

  /** Rows of `answers` whose `question_id` is `qid` (`WHERE answers.question_id = $1`). */
  function AnswersOf(answers: map<AnswerId, Answer>, qid: QuestionId): (r: map<AnswerId, Answer>)
    ensures forall a :: a in r <==> a in answers && answers[a].questionId == qid
    ensures forall a :: a in r ==> r[a] == answers[a]
  {
    map a | a in answers && answers[a].questionId == qid :: answers[a]
  }

  /** The `answers` table after `DELETE FROM answers WHERE question_id = $1`. */
  function WithoutAnswersOf(answers: map<AnswerId, Answer>, qid: QuestionId): (r: map<AnswerId, Answer>)
    ensures AnswersOf(r, qid) == map[]
    ensures forall a :: a in r <==> a in answers && answers[a].questionId != qid
    ensures forall a :: a in r ==> r[a] == answers[a]
    ensures forall q :: q != qid ==> AnswersOf(r, q) == AnswersOf(answers, q)
  {
    map a | a in answers && answers[a].questionId != qid :: answers[a]
  }

  /** Running the answer deletion a second time removes nothing more. */
  lemma WithoutAnswersOfIdempotent(answers: map<AnswerId, Answer>, qid: QuestionId)
    ensures WithoutAnswersOf(WithoutAnswersOf(answers, qid), qid) == WithoutAnswersOf(answers, qid)
  {
  }

  /** Every answer references a question that exists. */
  predicate Referential(questions: map<QuestionId, Question>, answers: map<AnswerId, Answer>)
  {
    forall a :: a in answers ==> answers[a].questionId in questions
  }

  /** The deletion of a question's answers followed by the deletion of the question keeps every answer's reference valid. */
  lemma CascadeKeepsReferential(questions: map<QuestionId, Question>, answers: map<AnswerId, Answer>, qid: QuestionId)
    requires Referential(questions, answers)
    ensures Referential(questions, WithoutAnswersOf(answers, qid))
    ensures Referential(questions - {qid}, WithoutAnswersOf(answers, qid))
  {
  }

  /** Deleting a question while answers to it remain leaves those answers dangling. */
  lemma DeletingQuestionAloneBreaksReferential(questions: map<QuestionId, Question>, answers: map<AnswerId, Answer>, qid: QuestionId)
    requires AnswersOf(answers, qid) != map[]
    ensures !Referential(questions - {qid}, answers)
  {
  }

  /** Every question's and every answer's owner has a row in `users`. */
  predicate OwnersExist(users: map<UserId, User>, questions: map<QuestionId, Question>, answers: map<AnswerId, Answer>)
  {
    && (forall q :: q in questions ==> questions[q].userId in users)
    && (forall a :: a in answers ==> answers[a].userId in users)
  }

  /** The questions that survive `JOIN users ON questions.user_id = users.id`. */
  function QuestionsWithOwner(questions: map<QuestionId, Question>, users: map<UserId, User>): (r: map<QuestionId, Question>)
    ensures forall q :: q in r <==> q in questions && questions[q].userId in users
    ensures forall q :: q in r ==> r[q] == questions[q]
  {
    map q | q in questions && questions[q].userId in users :: questions[q]
  }

  /** The answers that survive `JOIN users ON answers.user_id = users.id`. */
  function AnswersWithOwner(answers: map<AnswerId, Answer>, users: map<UserId, User>): (r: map<AnswerId, Answer>)
    ensures forall a :: a in r <==> a in answers && answers[a].userId in users
    ensures forall a :: a in r ==> r[a] == answers[a]
  {
    map a | a in answers && answers[a].userId in users :: answers[a]
  }

  /** When every owner exists, the joins drop no row. */
  lemma JoinsDropNothing(users: map<UserId, User>, questions: map<QuestionId, Question>, answers: map<AnswerId, Answer>)
    ensures OwnersExist(users, questions, answers) ==>
      QuestionsWithOwner(questions, users) == questions && AnswersWithOwner(answers, users) == answers
  {
  }

  /** No two users share a username. */
  predicate UsernamesUnique(users: map<UserId, User>)
  {
    forall i, j :: i in users && j in users && users[i].username == users[j].username ==> i == j
  }

  predicate HasUsername(users: map<UserId, User>, username: string)
  {
    exists i :: i in users && users[i].username == username
  }

  predicate HasEmail(users: map<UserId, User>, email: string)
  {
    exists i :: i in users && users[i].email == email
  }

  /** Inserting a user whose username is not taken keeps usernames unique. */
  lemma InsertKeepsUsernamesUnique(users: map<UserId, User>, id: UserId, user: User)
    requires UsernamesUnique(users)
    requires id !in users
    requires !HasUsername(users, user.username)
    ensures UsernamesUnique(users[id := user])
  {
  }

  /** `k` holds a question no older than any other in `questions`. */
  predicate IsNewest(questions: map<QuestionId, Question>, k: QuestionId)
  {
    k in questions && forall j :: j in questions ==> questions[j].createdAt <= questions[k].createdAt
  }

  /** A non-empty table has a newest question. */
  lemma {:induction false} NewestExists(questions: map<QuestionId, Question>)
    requires |questions| > 0
    ensures exists k :: IsNewest(questions, k)
    decreases |questions|
  {
    var k0 :| k0 in questions;
    var rest := questions - {k0};
    assert rest.Keys == questions.Keys - {k0};
    assert forall j :: j in questions ==> j == k0 || j in rest;
    if |rest| == 0 {
      assert IsNewest(questions, k0);
    } else {
      NewestExists(rest);
      var k1 :| IsNewest(rest, k1);
      if questions[k0].createdAt <= questions[k1].createdAt {
        assert IsNewest(questions, k1);
      } else {
        assert IsNewest(questions, k0);
      }
    }
  }

  /** Each row of the listing is an entry of the table, each entry a row, and no entry is listed twice. */
  predicate ListsExactly(rows: seq<(QuestionId, Question)>, questions: map<QuestionId, Question>)
  {
    && |rows| == |questions|
    && (forall i :: 0 <= i < |rows| ==> rows[i].0 in questions && questions[rows[i].0] == rows[i].1)
    && (forall k :: k in questions ==> (k, questions[k]) in rows)
  }

  /** Rows are in descending `created_at` order (`ORDER BY questions.created_at DESC`). */
  predicate NewestFirst(rows: seq<(QuestionId, Question)>)
  {
    forall i, j :: 0 <= i < j < |rows| ==> rows[i].1.createdAt >= rows[j].1.createdAt
  }

  /**
   * One listing of the whole `questions` table, newest first. Rows with equal
   * `created_at` may come in any order: the database promises none, and the
   * choice made here is arbitrary.
   */
  ghost function ListNewestFirst(questions: map<QuestionId, Question>): (rows: seq<(QuestionId, Question)>)
    ensures ListsExactly(rows, questions)
    ensures NewestFirst(rows)
    decreases |questions|
  {
    if |questions| == 0 then []
    else
      NewestExists(questions);
      var k :| IsNewest(questions, k);
      var rest := questions - {k};
      var rows := ListNewestFirst(rest);
      PrependNewest(questions, k, rows);
      [(k, questions[k])] + rows
  }

  /** Putting the newest question in front of a newest-first listing of the others lists the whole table newest first. */
  lemma PrependNewest(questions: map<QuestionId, Question>, k: QuestionId, rows: seq<(QuestionId, Question)>)
    requires IsNewest(questions, k)
    requires ListsExactly(rows, questions - {k}) && NewestFirst(rows)
    ensures ListsExactly([(k, questions[k])] + rows, questions)
    ensures NewestFirst([(k, questions[k])] + rows)
  {
    var rest := questions - {k};
    assert rest.Keys == questions.Keys - {k};
    assert |rest| == |questions| - 1;
    var all := [(k, questions[k])] + rows;
    forall i | 0 <= i < |all|
      ensures all[i].0 in questions && questions[all[i].0] == all[i].1
    {
      if i > 0 {
        assert all[i] == rows[i - 1];
      }
    }
    forall j | j in questions
      ensures (j, questions[j]) in all
    {
      if j != k {
        assert j in rest;
      }
    }
  }
}
