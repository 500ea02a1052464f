/** The records the trivia service stores and the shape of its replies. */
module TriviaModel {

  /** A row of the questions table. */
  datatype Question = Question(id: int, question: string, answer: string, category: int, difficulty: int)

  /** A row of the categories table. */
  datatype Category = Category(id: int, kind: string)

  datatype Option<T> = None | Some(value: T)

  /** The errors a handler raises with `abort`. */
  datatype HttpError = BadRequest | NotFound | Unprocessable {
    function Code(): int {
      match this
      case BadRequest => 400
      case NotFound => 404
      case Unprocessable => 422
    }
  }

  /** What a request handler ends in: a JSON body, an aborted request, or falling off the
      end of the view function (it returns None, which Flask answers with a 500). */
  datatype Reply<T> = Ok(body: T) | Err(error: HttpError) | NoReturn

  /** The body of the search and category replies. */
  datatype PageBody = PageBody(questions: seq<Question>, totalQuestions: nat, currentCategory: string)

  /** The body of the delete and create replies. */
  datatype MutationBody =
    | Deleted(deleted: int, questions: seq<Question>, totalQuestions: nat)
    | Created(created: int, questions: seq<Question>, totalQuestions: nat)

  /** Questions listed in ascending, hence distinct, id order: what `order_by(Question.id)` yields. */
  ghost predicate SortedById(qs: seq<Question>) {
    forall i, j :: 0 <= i < j < |qs| ==> qs[i].id < qs[j].id
  }

  /** Category ids are the table's primary key. */
  ghost predicate UniqueCategoryIds(cs: seq<Category>) {
    forall i, j :: 0 <= i < j < |cs| ==> cs[i].id != cs[j].id
  }

  /** The ids of a list of questions, as a set. */
  ghost function Ids(qs: seq<Question>): set<int> {
    set q | q in qs :: q.id
  }
}
