# Question/answer forum: ownership and resource lifecycle

A model of the controllers of a small Express/PostgreSQL forum. Users sign
up, log in and log out. Logged-in users post questions, answer questions,
and edit or delete only what they posted. Deleting a question deletes its
answers first.

The database is the class `Store.Database`. It holds the `users`,
`questions` and `answers` tables as maps from id to row, plus the three
SERIAL sequences that hand out ids. Each statement with which the
controllers write a table (INSERT, UPDATE, DELETE) is one method of that
class, and each states exactly how its table changes. Its frame names the
one table (and sequence) it may touch. The SELECTs are map lookups in the
handlers, or the functions `Tables.AnswersOf`, `Tables.QuestionsWithOwner`,
`Tables.AnswersWithOwner`, `Tables.HasUsername` and `Tables.HasEmail`.

The handlers are in two modules:
- `QuestionController`: the read-only handlers are functions of the
  database. The writing handlers are methods that issue the handler's
  statements in order.
- `UserController`: `Session` is an object whose `user` field the handlers
  assign.

Every handler returns a `Response`: a redirect, a page to render, or a
failing status with its message. Read-only queries are functions;
`getAllQuestions` is a ghost function because it picks among equally old
questions without fixing an order.

Invariants:
- `Database.Valid()`: every id is below its sequence, and no two users
  share a username. Every statement and handler keeps it.
- `Database.Referential()`: every answer references an existing question.
  Every handler keeps it, except `createAnswer` on a missing question;
  that handler's contract says exactly when it holds afterwards.
- `Database.OwnersExist()`: every question's and answer's owner has a
  `users` row. Users are never deleted, so every handler keeps it, the two
  creating handlers provided the principal has a row (which it does when it
  came from a login or sign-up).

The listing and the question page join `users` with an inner join, so a
question or answer whose owner has no `users` row is dropped, and a
dropped question gives the 404 of `getQuestion`. The model computes these
joins; `Tables.JoinsDropNothing` shows they drop nothing while
`OwnersExist()` holds.

Behaviour of the code a reader might not expect, modelled as written:
- `createQuestion` does not reject a blank title.
- `createAnswer` does not check that the question exists.
- `editQuestion` and `getEditQuestionForm` answer 404 (not 403) to a user
  who does not own the question.
- The answers of `getQuestion` are unordered (the query has no ORDER BY).
- `signUp` requires the password confirmation to match.

## Model

| member | source | states |
|---|---|---|
| Tables.ListNewestFirst | controllers/question_controller.js:7-12 | the listing holds every question of the table exactly once, and `created_at` never increases along it |
| QuestionController.GetAllQuestions | controllers/question_controller.js:5-19 | renders, newest first and with no filter on who asks, exactly the questions whose owner has a `users` row; all questions when every owner exists |
| Tables.QuestionsWithOwner | controllers/question_controller.js:8-10 | keeps exactly the questions whose owner has a `users` row, unchanged |
| Tables.AnswersWithOwner | controllers/question_controller.js:59-61 | keeps exactly the answers whose owner has a `users` row, unchanged |
| Tables.JoinsDropNothing | controllers/question_controller.js:50-63 | when every owner has a `users` row, both joins keep every row |
| QuestionController.CreateQuestion | controllers/question_controller.js:29-43 | adds exactly one question under a fresh id, owned by the principal, with the given title and body; other questions and all answers and users unchanged; redirects to `/questions` |
| Store.Database.InsertQuestion | controllers/question_controller.js:34-37 | the new row gets the next sequence id, which no row had before; nothing else in the table changes |
| Tables.AnswersOf | controllers/question_controller.js:58-63 | holds exactly the answers whose `question_id` is the given id, with their rows unchanged |
| QuestionController.GetQuestion | controllers/question_controller.js:47-89 | 404 "Question not found" iff no question has the id or its owner has no `users` row; otherwise the question and exactly the answers with that `question_id` whose owner has a row; when every owner exists, 404 iff the id is absent and the answers are all of that question's; reads only |
| QuestionController.CreateAnswer | controllers/question_controller.js:100-115 | inserts one answer owned by the principal even if the question is absent; references stay valid iff they were valid and the question exists; redirects to the question |
| Store.Database.InsertAnswer | controllers/question_controller.js:106-109 | the new answer gets the next sequence id, which no answer had before; nothing else in the table changes |
| QuestionController.DeleteQuestion | controllers/question_controller.js:119-148 | 404 when absent, then 403 for a non-owner, both with no change; for the owner, between the two statements the question is still present with no answers; afterwards the question is gone, only its answers are removed, and references stay valid |
| Store.Database.DeleteAnswersOfQuestion | controllers/question_controller.js:136 | the answers table loses exactly the answers of the question |
| Store.Database.DeleteQuestionById | controllers/question_controller.js:139 | the questions table loses exactly that id |
| Tables.WithoutAnswersOf | controllers/question_controller.js:136 | no answer of the question remains; every answer of another question is kept unchanged; nothing is added |
| Tables.WithoutAnswersOfIdempotent | controllers/question_controller.js:136 | deleting a question's answers a second time changes nothing |
| Tables.CascadeKeepsReferential | controllers/question_controller.js:134-140 | if every answer referenced an existing question, it still does after the answer deletion and after the question deletion |
| Tables.DeletingQuestionAloneBreaksReferential | controllers/question_controller.js:136-139 | deleting a question that still has answers, without the first statement, leaves dangling answers |
| QuestionController.DeleteQuestionTwice | controllers/question_controller.js:125-140 | after a successful delete, a second delete of the same id gives 404, and the two together change the tables as one delete |
| QuestionController.GetEditQuestionForm | controllers/question_controller.js:152-171 | renders the question iff it exists and the principal owns it; otherwise the single 404 message |
| QuestionController.EditQuestion | controllers/question_controller.js:175-195 | succeeds iff the question exists and the principal owns it; then only its title and body change, owner and `created_at` kept, other questions and all answers unchanged; otherwise 404 and no change |
| Store.Database.UpdateOwnedQuestion | controllers/question_controller.js:182 | returns the updated row iff a row has that id and owner; then only that row's title and body change |
| QuestionController.DeleteAnswer | controllers/question_controller.js:199-222 | 404 when absent, then 403 for a non-owner, both with no change; for the owner, exactly that answer is removed, the questions are unchanged, and the redirect goes to the answer's question |
| Store.Database.DeleteAnswerById | controllers/question_controller.js:213 | the answers table loses exactly that id |
| UserController.SignUp | controllers/user_controller.js:51-85 | 400 on mismatched passwords, then 409 on a taken username, both with no change to users or session; otherwise one new user with the given username and email and the bcrypt digest, and the session holds that user's id, username and email; owners keep existing |
| Store.Database.InsertUser | controllers/user_controller.js:69-72 | the new user gets the next sequence id, and usernames stay unique |
| Tables.InsertKeepsUsernamesUnique | controllers/user_controller.js:63-72 | inserting a user whose username is not taken keeps usernames unique |
| UserController.Login | controllers/user_controller.js:12-41 | unknown email or failed compare gives the same 401 message and leaves the session alone; success sets the session to exactly the found user's id, username and email; the users table is never written |
| UserController.Logout | controllers/user_controller.js:89-98 | for a logged-in session, a successful destroy clears the session and redirects to `/`; a failed destroy gives 500 |
| UserController.SignUpThenLogin | controllers/user_controller.js:12-85 | when bcrypt's compare accepts its own hash and the email is new, a login right after sign-up logs in as the new user |
| Scenarios.CascadeScenario | controllers/question_controller.js:100-148 | with both users signed up first, after the owner deletes a question that another user answered, viewing the question and deleting the answer both give 404 |
| Scenarios.NotOwnerScenario | controllers/question_controller.js:119-195 | with both users signed up first, another user's edit gets the same 404 as a missing question and leaves title and body unchanged; another user's delete gets 403 |

## Left out

- Routing, the logged-in guard and the session store's configuration. Every question handler takes the session's user as a parameter, and `Logout` requires a user in the session; both stand for "the guard let the request through". The guard itself throws, instead of redirecting, when no user is in the session (an error answer from Express); that case is not modelled.
- The pg connection pool and all SQL execution: tables are in-memory maps and each statement is one atomic map update.
- The `catch` paths that answer 500 when a query throws, and `console.error`. In particular, a foreign-key or NOT NULL constraint of the real schema (not available) would turn some inserts into 500s; the model inserts unconditionally.
- Concurrency between requests. Each handler runs to completion alone, so the race between `signUp`'s username check and its insert, and the window between the two deletes of `deleteQuestion`, are not explored. The intermediate state of that window is stated.
- bcrypt: `hash` and `compare` are functions passed in. The salt is not modelled; `hash` stands for the digest that call produced.
- `NOW()` is the `now` parameter; time zones and clock behaviour are not modelled.
- The `username` column the JOINs add to each row for display (the joins' filtering of rows without an owner is modelled), date formatting with `toLocaleDateString`, and every `res.render` of a form (`getNewQuestionForm`, `getNewAnswerForm`, `getLoginForm`, `getSignupForm`).
- Request parameters arrive as strings and are coerced by PostgreSQL; ids are natural numbers here.
- UserController.Logout: on a failed destroy the session keeps its user. The model does not follow express-session in detaching the session object from the request before the store reports the error.
- QuestionController.GetAllQuestions: rows with equal `created_at` come in one arbitrary order, since the database fixes none; the contract states only the descending order and that every question is listed once.
- UserController.Login: when several users share an email, the query returns any one of them; the contract names the one chosen rather than fixing which.
