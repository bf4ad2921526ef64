/** The two tables of the trivia backend, held in memory, and the lookups the
    request handlers make on them. */
module Entities {
  import opened Sequences

  datatype Option<T> = None | Some(value: T)

  type QuestionId = int

  type CategoryId = int

  /** A row of the questions table. */
  datatype Question = Question(id: QuestionId, question: string, answer: string,
                               category: CategoryId, difficulty: int)

  /** A row of the categories table; `kind` is the column called `type`. */
  datatype Category = Category(id: CategoryId, kind: string)

  /** The three error responses of the backend. */
  datatype ErrorKind = NotFound | Unprocessable | Internal
  {
    function Code(): int
    {
      match this
      case NotFound => 404
      case Unprocessable => 422
      case Internal => 500
    }
  }

  datatype Result<T> = Ok(value: T) | Err(error: ErrorKind)

  function IdsOf(rows: seq<Question>): set<QuestionId>
  {
    set q | q in rows :: q.id
  }

  /** The order of a listing ordered by id: ids strictly ascending, hence also unique. */
  predicate IdsAscending(rows: seq<Question>)
  {
    forall i, j :: 0 <= i < j < |rows| ==> rows[i].id < rows[j].id
  }

  /** Every id is a serial id: the store numbers rows from 1. */
  predicate IdsPositive(rows: seq<Question>)
  {
    forall q :: q in rows ==> q.id >= 1
  }

  /** The primary-key lookup of a question: the row with that id, if any. */
  function FindQuestion(rows: seq<Question>, id: QuestionId): (r: Option<Question>)
    ensures r.Some? <==> id in IdsOf(rows)
    ensures r.Some? ==> r.value in rows && r.value.id == id
  {
    if rows == [] then None
    else if rows[0].id == id then Some(rows[0])
    else
      assert IdsOf(rows) == {rows[0].id} + IdsOf(rows[1..]) by {
        assert forall q :: q in rows <==> q == rows[0] || q in rows[1..];
      }
      FindQuestion(rows[1..], id)
  }

  /** The primary-key lookup of a category: the one with that id, if any. */
  function FindCategory(cats: seq<Category>, id: CategoryId): (r: Option<Category>)
    ensures r.Some? <==> exists i :: 0 <= i < |cats| && cats[i].id == id
    ensures r.Some? ==> r.value in cats && r.value.id == id
  {
    if cats == [] then None
    else if cats[0].id == id then Some(cats[0])
    else
      var r := FindCategory(cats[1..], id);
      assert forall i :: 1 <= i < |cats| ==> cats[i] == cats[1..][i - 1];
      assert r.Some? ==> r.value in cats;
      r
  }

  /** Selects the rows whose id differs from `id`. */
  function HasOtherId(id: QuestionId): Question -> bool
  {
    (q: Question) => q.id != id
  }

  /** Removing a present id from an ascending table removes exactly one row,
      leaves the others in order and makes the id absent. */
  lemma {:induction false} RemoveIdShrinksByOne(rows: seq<Question>, id: QuestionId)
    requires IdsAscending(rows) && id in IdsOf(rows)
    ensures |Filter(rows, HasOtherId(id))| == |rows| - 1
    ensures id !in IdsOf(Filter(rows, HasOtherId(id)))
    ensures IdsAscending(Filter(rows, HasOtherId(id)))
  {
    var p := HasOtherId(id);
    var rest := Filter(rows[1..], p);
    assert Filter(rows, p) == (if p(rows[0]) then [rows[0]] else []) + rest;
    FilterAscending(rows, p);
    if rows[0].id == id {
      forall j | 0 <= j < |rows[1..]| ensures p(rows[1..][j]) {
        assert rows[1..][j] == rows[j + 1];
      }
      FilterKeepsAll(rows[1..], p);
    } else {
      var q :| q in rows && q.id == id;
      assert q in rows[1..];
      RemoveIdShrinksByOne(rows[1..], id);
    }
  }

  /** Filtering keeps ids ascending, since it keeps rows in their order. */
  lemma {:induction false} FilterAscending(rows: seq<Question>, p: Question -> bool)
    requires IdsAscending(rows)
    ensures IdsAscending(Filter(rows, p))
  {
    if rows != [] {
      FilterAscending(rows[1..], p);
      var rest := Filter(rows[1..], p);
      forall j | 0 <= j < |rest| ensures rows[0].id < rest[j].id {
        assert rest[j] in rows[1..];
      }
    }
  }

  /** A row added under an id not yet in the table is what a lookup of that id
      then finds. */
  lemma FindInserted(rows: seq<Question>, q: Question)
    requires q.id !in IdsOf(rows)
    ensures FindQuestion(rows + [q], q.id) == Some(q)
  {
  }

  /** Adding a row does not change what a lookup of any other id finds. */
  lemma {:induction false} FindOther(rows: seq<Question>, q: Question, id: QuestionId)
    requires id != q.id
    ensures FindQuestion(rows + [q], id) == FindQuestion(rows, id)
  {
    if rows != [] {
      assert (rows + [q])[1..] == rows[1..] + [q];
      FindOther(rows[1..], q, id);
    }
  }
}
