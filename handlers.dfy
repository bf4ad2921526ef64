/** The request handlers of the trivia backend, over the two tables held in
    memory: the read-only handlers as functions of the table contents, the quiz
    as a method (its scan is a loop), and the two handlers that change the
    questions table as methods of `Store`. */
module Handlers {
  import opened Sequences
  import opened Pagination
  import opened Entities
  import opened Search
  import opened Quiz

  /** One key of a JSON request body. `body.get(key)` is None both when the key
      is missing and when its value is null. */
  datatype Field<T> = Missing | Null | Given(value: T)

  /** The `page` query parameter: absent, or present with its text and the
      integer that text converts to, if it converts. */
  datatype PageArg = NoPage | PageParam(raw: string, asInt: Option<int>)

  /** The page number read from the query: the integer given, and 1 when the
      parameter is absent or its text is not an integer. */
  function PageNumber(page: PageArg): (n: int)
    ensures page.PageParam? && page.asInt.Some? ==> n == page.asInt.value
    ensures page.NoPage? || page.asInt.None? ==> n == 1
  {
    if page.PageParam? && page.asInt.Some? then page.asInt.value else 1
  }

  /** A success body; `QuestionList` is the listing of `GET /questions` and of
      `GET /categories/<id>/questions`. */
  datatype Response =
    | QuestionList(questions: seq<Question>, totalQuestions: nat,
                   currentCategory: Option<Category>, categories: seq<Category>)
    | SearchResults(questions: seq<Question>, totalQuestions: nat)
    | Deleted(deleted: QuestionId, questions: seq<Question>, totalQuestions: nat)
    | Created(created: QuestionId, questions: seq<Question>, totalQuestions: nat)
    | OneQuestion(question: Question)
    | QuizQuestion(next: Option<Question>)

  /** The HTTP status a handler answers with. */
  function StatusOf(r: Result<Response>): int
  {
    match r
    case Ok(resp) => if resp.Created? then 201 else 200
    case Err(e) => e.Code()
  }

  // ----- GET /questions -----

  /** `retrieve_questions`: the whole table in id order when no (or an empty)
      `page` parameter is given, one page of it otherwise; the total is always
      the size of the whole table. */
  function RetrieveQuestions(rows: seq<Question>, cats: seq<Category>, page: PageArg): (r: Response)
    ensures r.QuestionList? && r.currentCategory.None? && r.categories == cats
    ensures r.totalQuestions == |rows|
    ensures page.NoPage? || page.raw == [] ==> r.questions == rows
    ensures page.PageParam? && page.raw != [] ==> r.questions == Paginate(rows, PageNumber(page))
    ensures forall i :: 0 <= i < |r.questions| ==> r.questions[i] in rows
  {
    var shown := if page.PageParam? && |page.raw| > 0 then Paginate(rows, PageNumber(page)) else rows;
    QuestionList(shown, |rows|, None, cats)
  }

  /** The page far past the end asked for by `GET /questions?page=999` is empty
      while the total still counts the whole table. */
  lemma PageBeyondTableIsEmpty(rows: seq<Question>, cats: seq<Category>)
    requires |rows| <= 9980
    ensures RetrieveQuestions(rows, cats, PageParam("999", Some(999))).questions == []
    ensures RetrieveQuestions(rows, cats, PageParam("999", Some(999))).totalQuestions == |rows|
  {
  }

  // ----- GET /questions/<id> -----

  /** `get_question_by_Id`: the question with that id, or 404. */
  function GetQuestion(rows: seq<Question>, id: QuestionId): (r: Result<Response>)
    ensures r.Err? <==> id !in IdsOf(rows)
    ensures r.Err? ==> r.error == NotFound
    ensures r.Ok? ==> r.value.OneQuestion? && r.value.question in rows && r.value.question.id == id
  {
    match FindQuestion(rows, id)
    case None => Err(NotFound)
    case Some(q) => Ok(OneQuestion(q))
  }

  /** In a table of serial ids, every id below 1 (the negative ids the route's
      `<int:...>` converter refuses, and 0) is not found. */
  lemma RefusedIdNotFound(rows: seq<Question>, id: QuestionId)
    requires IdsPositive(rows) && id < 1
    ensures GetQuestion(rows, id) == Err(NotFound)
  {
  }

  // ----- GET /categories/<id>/questions -----

  /** Selects the questions of one category. */
  function InCategory(id: CategoryId): Question -> bool
  {
    (q: Question) => q.category == id
  }

  /** `get_questions_by_category`: 404 for an id below 1 or without a category;
      otherwise a page of that category's questions, their total count, the
      category itself and all categories. */
  function QuestionsByCategory(rows: seq<Question>, cats: seq<Category>, id: CategoryId, page: PageArg)
    : (r: Result<Response>)
    ensures r.Err? <==> id < 1 || forall i :: 0 <= i < |cats| ==> cats[i].id != id
    ensures r.Err? ==> r.error == NotFound
    ensures r.Ok? ==> r.value.QuestionList? && r.value.categories == cats
    ensures r.Ok? ==> r.value.currentCategory.Some? && r.value.currentCategory.value in cats &&
                      r.value.currentCategory.value.id == id
    ensures r.Ok? ==> r.value.totalQuestions == |Filter(rows, InCategory(id))|
    ensures r.Ok? ==> r.value.questions == Paginate(Filter(rows, InCategory(id)), PageNumber(page))
    ensures r.Ok? ==> forall i :: 0 <= i < |r.value.questions| ==>
                        r.value.questions[i] in rows && r.value.questions[i].category == id
  {
    var matching := Filter(rows, InCategory(id));
    var category := FindCategory(cats, id);
    if id < 1 || category.None? then Err(NotFound)
    else Ok(QuestionList(Paginate(matching, PageNumber(page)), |matching|, category, cats))
  }

  // ----- POST /questions: search or create -----

  /** The body of `POST /questions`; `otherKeys` are the keys besides these five. */
  datatype PostBody = PostBody(search: Field<string>, question: Field<string>, answer: Field<string>,
                               category: Field<CategoryId>, difficulty: Field<int>,
                               otherKeys: set<string>)
  {
    /** The body is the empty JSON object. */
    predicate IsEmpty()
    {
      search.Missing? && question.Missing? && answer.Missing? && category.Missing? &&
      difficulty.Missing? && otherKeys == {}
    }
  }

  /** The four columns of a question to be added. */
  datatype NewQuestion = NewQuestion(question: string, answer: string, category: CategoryId, difficulty: int)
  {
    function WithId(id: QuestionId): Question
    {
      Question(id, question, answer, category, difficulty)
    }
  }

  /** What `create_question` decides to do with a body. */
  datatype PostAction = Reject(error: ErrorKind) | SearchFor(term: string) | Add(fields: NewQuestion)

  /** The dispatch of `create_question`: an empty body is refused; a non-null
      `search` key makes it a search; otherwise it adds a question when all four
      columns are non-null and is refused when any is missing or null. */
  function ClassifyPost(body: PostBody): (r: PostAction)
    ensures r.Reject? ==> r.error == Unprocessable
    ensures body.IsEmpty() ==> r.Reject?
    ensures r.SearchFor? <==> !body.IsEmpty() && body.search.Given?
    ensures r.SearchFor? ==> r.term == body.search.value
    ensures r.Add? <==> !body.search.Given? && body.question.Given? && body.answer.Given? &&
                        body.category.Given? && body.difficulty.Given?
    ensures r.Add? ==> r.fields == NewQuestion(body.question.value, body.answer.value,
                                               body.category.value, body.difficulty.value)
  {
    if body.IsEmpty() then Reject(Unprocessable)
    else if body.search.Given? then SearchFor(body.search.value)
    else if !body.question.Given? || !body.answer.Given? || !body.category.Given? || !body.difficulty.Given?
    then Reject(Unprocessable)
    else Add(NewQuestion(body.question.value, body.answer.value, body.category.value, body.difficulty.value))
  }

  /** Selects the questions whose text contains the search key. */
  function MatchingTerm(key: string): Question -> bool
  {
    (q: Question) => MatchesTerm(q.question, key)
  }

  /** The search branch of `create_question`: a page of the questions whose
      text contains the lower-cased term, ignoring case, and the number of all
      of them. */
  function SearchQuestions(rows: seq<Question>, term: string, page: PageArg): (r: Response)
    ensures r.SearchResults?
    ensures r.totalQuestions == |Filter(rows, MatchingTerm(SearchKey(term)))|
    ensures r.questions == Paginate(Filter(rows, MatchingTerm(SearchKey(term))), PageNumber(page))
    ensures forall i :: 0 <= i < |r.questions| ==>
              r.questions[i] in rows && MatchesTerm(r.questions[i].question, SearchKey(term))
  {
    var found := Filter(rows, MatchingTerm(SearchKey(term)));
    SearchResults(Paginate(found, PageNumber(page)), |found|)
  }

  // ----- POST /quizzes -----

  /** The `quiz_category` object of a quiz request. */
  datatype QuizCategoryArg = QuizCategoryArg(id: Field<CategoryId>)

  datatype QuizBody = QuizBody(quizCategory: Field<QuizCategoryArg>, previousQuestions: Field<seq<QuestionId>>)

  /** A validated quiz request; `category` is None when the category id is null. */
  datatype QuizQuery = QuizQuery(category: Option<CategoryId>, previous: seq<QuestionId>)

  /** The checks at the top of `play_quiz`: both keys must be present and
      non-null (422 otherwise), and reading the `id` of a category object that
      has none fails (500, since no handler catches the error). */
  function ParseQuiz(body: QuizBody): (r: Result<QuizQuery>)
    ensures !body.quizCategory.Given? || !body.previousQuestions.Given? ==> r == Err(Unprocessable)
    ensures body.quizCategory.Given? && body.previousQuestions.Given? ==>
              (r.Err? <==> body.quizCategory.value.id.Missing?)
    ensures body.quizCategory.Given? && body.previousQuestions.Given? && r.Err? ==> r.error == Internal
    ensures r.Ok? ==> r.value.previous == body.previousQuestions.value
    ensures r.Ok? ==> (r.value.category.Some? <==> body.quizCategory.value.id.Given?)
    ensures r.Ok? && r.value.category.Some? ==> r.value.category.value == body.quizCategory.value.id.value
  {
    if !body.quizCategory.Given? || !body.previousQuestions.Given? then Err(Unprocessable)
    else
      match body.quizCategory.value.id
      case Missing => Err(Internal)
      case Null => Ok(QuizQuery(None, body.previousQuestions.value))
      case Given(c) => Ok(QuizQuery(Some(c), body.previousQuestions.value))
  }

  /** The questions a quiz draws from: all of them for category 0, those of the
      category otherwise, and none for a null category (no stored question has
      a null category). */
  function QuizCandidates(rows: seq<Question>, category: Option<CategoryId>): (r: seq<Question>)
    ensures forall q :: q in r <==> q in rows && category.Some? && (category.value == 0 || q.category == category.value)
  {
    match category
    case None => []
    case Some(c) => if c == 0 then rows else Filter(rows, InCategory(c))
  }

  /** `shuffled` is the candidate list in the random order the store returned it. */
  predicate ShuffledCandidates(rows: seq<Question>, body: QuizBody, shuffled: seq<Question>)
  {
    ParseQuiz(body).Ok? ==> multiset(shuffled) == multiset(QuizCandidates(rows, ParseQuiz(body).value.category))
  }

  /** `play_quiz`: for every order of the candidates, the answer is the first
      candidate in that order not yet asked, and null exactly when every
      candidate has been asked (or there are none). */
  method PlayQuiz(rows: seq<Question>, body: QuizBody, shuffled: seq<Question>) returns (r: Result<Response>)
    requires ShuffledCandidates(rows, body, shuffled)
    ensures ParseQuiz(body).Err? ==> r == Err(ParseQuiz(body).error)
    ensures ParseQuiz(body).Ok? ==> r.Ok? && r.value.QuizQuestion?
    ensures r.Ok? && ParseQuiz(body).Ok? ==>
      var query := ParseQuiz(body).value;
      && (r.value.next.None? <==> forall q :: q in QuizCandidates(rows, query.category) ==> q.id in query.previous)
      && (r.value.next.Some? ==> r.value.next.value in QuizCandidates(rows, query.category) &&
                                  IsFirstUnasked(shuffled, query.previous, r.value.next.value))
      && (query.previous == [] && shuffled != [] ==> r.value.next == Some(shuffled[0]))
  {
    var parsed := ParseQuiz(body);
    if parsed.Err? {
      return Err(parsed.error);
    }
    var query := parsed.value;
    ghost var candidates := QuizCandidates(rows, query.category);
    assert forall q :: q in shuffled <==> q in candidates by {
      assert forall q :: q in shuffled <==> q in multiset(shuffled);
      assert forall q :: q in candidates <==> q in multiset(candidates);
    }
    var picked := PickUnasked(shuffled, query.previous);
    if picked.Some? {
      assert picked.value in shuffled;
    } else {
      forall q | q in candidates ensures q.id in query.previous {
        var j :| 0 <= j < |shuffled| && shuffled[j] == q;
      }
    }
    r := Ok(QuizQuestion(picked));
  }

  /** The questions table, with the id the store will give the next inserted
      row; `categories` is read only. */
  class Store {
    var questions: seq<Question>
    var nextId: QuestionId
    const categories: seq<Category>

    /** Rows in ascending id order, every id a serial id (1 or more), and every
        id below the next one handed out. */
    ghost predicate Valid()
      reads this
    {
      IdsAscending(questions) && IdsPositive(questions) && 1 <= nextId &&
      forall q :: q in questions ==> q.id < nextId
    }

    constructor (questions: seq<Question>, categories: seq<Category>)
      requires IdsAscending(questions) && IdsPositive(questions)
      ensures Valid() && this.questions == questions && this.categories == categories
    {
      this.questions := questions;
      this.categories := categories;
      nextId := if questions == [] then 1 else questions[|questions| - 1].id + 1;
      new;
      forall q | q in questions ensures q.id < nextId {
        var i :| 0 <= i < |questions| && questions[i] == q;
        assert i == |questions| - 1 || questions[i].id < questions[|questions| - 1].id;
      }
    }

    /** The store's insert: appends a row under the next serial id, which is
        larger than every id in the table, and advances the counter past it, so
        no id is handed out twice. */
    method Insert(fields: NewQuestion) returns (id: QuestionId)
      requires Valid()
      modifies this
      ensures Valid()
      ensures id == old(nextId) && nextId == old(nextId) + 1
      ensures forall q :: q in old(questions) ==> q.id < id
      ensures id !in IdsOf(old(questions))
      ensures questions == old(questions) + [fields.WithId(id)]
    {
      id := nextId;
      questions := questions + [fields.WithId(id)];
      nextId := nextId + 1;
    }

    /** The store's delete: removes the row with that id and no other. */
    method Delete(id: QuestionId)
      requires Valid() && id in IdsOf(questions)
      modifies this
      ensures Valid() && nextId == old(nextId)
      ensures questions == Filter(old(questions), HasOtherId(id))
      ensures |questions| == |old(questions)| - 1 && id !in IdsOf(questions)
    {
      RemoveIdShrinksByOne(questions, id);
      questions := Filter(questions, HasOtherId(id));
    }

    /** `delete_question_by_Id`: 404 and nothing changed for an unknown id;
        otherwise the row is gone, a lookup of the id now gives 404, and the
        answer reports the id, a page of what is left and the new total. */
    method DeleteQuestion(id: QuestionId, page: PageArg) returns (r: Result<Response>)
      requires Valid()
      modifies this
      ensures Valid() && nextId == old(nextId)
      ensures id !in IdsOf(old(questions)) ==> r == Err(NotFound) && questions == old(questions)
      ensures id in IdsOf(old(questions)) ==>
        && questions == Filter(old(questions), HasOtherId(id))
        && |questions| == |old(questions)| - 1
        && GetQuestion(questions, id) == Err(NotFound)
        && r == Ok(Deleted(id, Paginate(questions, PageNumber(page)), |questions|))
    {
      var found := FindQuestion(questions, id);
      if found.None? {
        return Err(NotFound);
      }
      Delete(id);
      r := Ok(Deleted(found.value.id, Paginate(questions, PageNumber(page)), |questions|));
    }

    /** `create_question`: a refused body changes nothing and gives 422; a search
        changes nothing; an addition appends exactly one row under the next
        serial id, larger than every id in the table, answers 201 with that id, a page of the table and a total
        one larger, and a lookup of the id then finds the row as sent. */
    method CreateQuestion(body: PostBody, page: PageArg) returns (r: Result<Response>)
      requires Valid()
      modifies this
      ensures Valid()
      ensures ClassifyPost(body).Reject? ==>
        r == Err(Unprocessable) && StatusOf(r) == 422 && questions == old(questions) && nextId == old(nextId)
      ensures ClassifyPost(body).SearchFor? ==>
        && r == Ok(SearchQuestions(old(questions), ClassifyPost(body).term, page))
        && questions == old(questions) && nextId == old(nextId)
      ensures ClassifyPost(body).Add? ==>
        var added := ClassifyPost(body).fields;
        && r.Ok? && r.value.Created? && StatusOf(r) == 201
        && r.value.created == old(nextId) && nextId == old(nextId) + 1
        && (forall q :: q in old(questions) ==> q.id < r.value.created)
        && questions == old(questions) + [added.WithId(r.value.created)]
        && r.value.totalQuestions == |old(questions)| + 1
        && r.value.questions == Paginate(questions, PageNumber(page))
        && GetQuestion(questions, r.value.created) == Ok(OneQuestion(added.WithId(r.value.created)))
    {
      match ClassifyPost(body)
      case Reject(e) =>
        r := Err(e);
      case SearchFor(term) =>
        r := Ok(SearchQuestions(questions, term, page));
      case Add(fields) =>
        var id := Insert(fields);
        FindInserted(old(questions), fields.WithId(id));
        r := Ok(Created(id, Paginate(questions, PageNumber(page)), |questions|));
    }
  }
}
