/**
 * The rows of the forum's three tables (`users`, `questions`, `answers`), the
 * value the session keeps about the logged-in user, and the responses the
 * controllers send back.
 *
 * A row does not carry its own id: every table is a map from id to row, so an
 * id is unique by construction and a lookup by id is a map lookup.
 */
module Schema {

  type UserId = nat
  type QuestionId = nat
  type AnswerId = nat

  /** A value of the database clock, as `NOW()` returns it. */
  type Timestamp = nat

  datatype Option<T> = None | Some(value: T)

  /** A row of `users`; `passwordDigest` is what bcrypt produced at sign-up. */
  datatype User = User(username: string, email: string, passwordDigest: string, createdAt: Timestamp)

  /** A row of `questions`, owned by the user `userId`. */
  datatype Question = Question(userId: UserId, title: string, body: string, createdAt: Timestamp)

  /** A row of `answers`, owned by `userId` and attached to the question `questionId`. */
  datatype Answer = Answer(questionId: QuestionId, userId: UserId, answerText: string, createdAt: Timestamp)

  /** What a successful login or sign-up stores in `session.user`. */
  datatype SessionUser = SessionUser(id: UserId, username: string, email: string)

  /** The failing HTTP statuses the controllers send: 400, 401, 403, 404, 409 and 500. */
  datatype Status = BadRequest | Unauthorized | Forbidden | NotFound | Conflict | ServerError

  /** The targets of the controllers' redirects: `/`, `/questions` and `/questions/:id`. */
  datatype Location = Home | QuestionList | QuestionPage(id: QuestionId)

  /** The data handed to a view; the view itself is not modelled. */
  datatype Page =
    | QuestionsView(rows: seq<(QuestionId, Question)>)
    | QuestionDetailsView(id: QuestionId, question: Question, answers: map<AnswerId, Answer>, currentUser: SessionUser)
    | EditQuestionView(id: QuestionId, question: Question)

  datatype Response =
    | Redirect(to: Location)
    | Render(page: Page)
    | Fail(status: Status, message: string)

  // The messages sent with each failing status.
  const PasswordsDoNotMatch := "Passwords do not match"
  const UsernameExists := "Username already exists"
  const InvalidCredentials := "Invalid email or password"
  const ServerErrorMessage := "Server error"
  const QuestionNotFound := "Question not found"
  const QuestionNotFoundOrNotOwner := "Question not found or you are not authorized to edit this question"
  const OnlyQuestionOwnerMayDelete := "Only the user who posted this can delete it"
  const AnswerNotFound := "Answer not found"
  const OnlyAnswerOwnerMayDelete := "Only the user who posted this answer can delete it"
}
