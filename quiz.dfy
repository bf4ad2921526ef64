/** Choosing the next quiz question: the scan of `play_quiz` over the candidate
    questions, in the order the store returned them, for the first one whose id
    the player has not been asked yet. */
module Quiz {
  import opened Sequences
  import opened Entities

  /** Selects the questions whose id is not among the previous ones. */
  function NotAsked(previous: seq<QuestionId>): Question -> bool
  {
    (q: Question) => q.id !in previous
  }

  /** `q` sits at some index `k` of `order`, has not been asked, and every
      question before it has. */
  ghost predicate IsFirstUnasked(order: seq<Question>, previous: seq<QuestionId>, q: Question)
  {
    exists k :: 0 <= k < |order| && order[k] == q && q.id !in previous &&
                forall j :: 0 <= j < k ==> order[j].id in previous
  }

  /** The loop of `play_quiz`: collect the candidates not yet asked into
      `available`, then answer with its first element, or with none. */
  method PickUnasked(candidates: seq<Question>, previous: seq<QuestionId>) returns (picked: Option<Question>)
    ensures picked.None? <==> forall j :: 0 <= j < |candidates| ==> candidates[j].id in previous
    ensures picked.Some? ==> IsFirstUnasked(candidates, previous, picked.value)
    ensures previous == [] && candidates != [] ==> picked == Some(candidates[0])
  {
    var available: seq<Question> := [];
    var i := 0;
    while i < |candidates|
      invariant 0 <= i <= |candidates|
      invariant available == Filter(candidates[..i], NotAsked(previous))
    {
      var q := candidates[i];
      if |previous| == 0 {
        available := available + [q];
      } else if |previous| >= 0 {
        var found := q.id !in previous;
        if found {
          available := available + [q];
        }
      }
      FilterAppend(candidates[..i], q, NotAsked(previous));
      assert candidates[..i + 1] == candidates[..i] + [q];
      i := i + 1;
    }
    assert candidates[..i] == candidates;
    if |available| > 0 {
      FilterFirst(candidates, NotAsked(previous));
      picked := Some(available[0]);
    } else {
      picked := None;
      forall j | 0 <= j < |candidates| ensures candidates[j].id in previous {
        assert candidates[j] !in available;
      }
    }
  }

  /** The candidates not yet asked. */
  function Unasked(candidates: seq<Question>, previous: seq<QuestionId>): seq<Question>
  {
    Filter(candidates, NotAsked(previous))
  }

  /** Adding one more id to the asked list never lets a question back in. */
  lemma {:induction false} AskingNeverGrowsPool(candidates: seq<Question>, previous: seq<QuestionId>, id: QuestionId)
    ensures |Unasked(candidates, previous + [id])| <= |Unasked(candidates, previous)|
  {
    if candidates != [] {
      AskingNeverGrowsPool(candidates[1..], previous, id);
    }
  }

  /** Answering a question and adding its id to `previous_questions`, as the
      client does between calls, shrinks the pool of unasked candidates, so a
      quiz over a fixed candidate list ends after at most that many rounds. */
  lemma {:induction false} AskingShrinksPool(candidates: seq<Question>, previous: seq<QuestionId>, q: Question)
    requires q in candidates && q.id !in previous
    ensures |Unasked(candidates, previous + [q.id])| < |Unasked(candidates, previous)|
  {
    var c := candidates[0];
    assert NotAsked(previous)(c) ==> c.id in previous + [q.id] || NotAsked(previous + [q.id])(c);
    if c == q {
      AskingNeverGrowsPool(candidates[1..], previous, q.id);
    } else {
      assert q in candidates[1..];
      AskingShrinksPool(candidates[1..], previous, q);
    }
  }
}
