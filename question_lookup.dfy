/** The single-question lookups of the detail and results pages. */
module Lookups {
  import opened PollModels
  import IndexQuery

  /** `Question.objects.get(pk=id)` on a table: the first question with that
      primary key, or not-found. The results page and the vote handler look
      a question up this way. */
  function QuestionById(qs: seq<Question>, id: int): (r: Lookup<Question>)
    ensures r.Found? ==> r.value in qs && r.value.id == id
    ensures r.NotFound? <==> !HasQuestion(qs, id)
  {
    if qs == [] then NotFound
    else if qs[0].id == id then Found(qs[0])
    else
      assert qs == [qs[0]] + qs[1..];
      QuestionById(qs[1..], id)
  }

  /** In a table with unique primary keys, looking up the key of a row finds
      that row. */
  lemma {:induction false} QuestionByIdFindsRow(qs: seq<Question>, q: Question)
    requires UniqueQuestionIds(qs)
    requires q in qs
    ensures QuestionById(qs, q.id) == Found(q)
  {
    if qs[0] != q {
      assert qs == [qs[0]] + qs[1..];
      if qs[0].id == q.id {
        SameIdSameQuestion(qs, qs[0], q);
      }
      assert UniqueQuestionIds(qs[1..]) by {
        forall i, j | 0 <= i < j < |qs[1..]| ensures qs[1..][i].id != qs[1..][j].id {
          assert qs[1..][i] == qs[i + 1] && qs[1..][j] == qs[j + 1];
        }
      }
      QuestionByIdFindsRow(qs[1..], q);
    }
  }

  /** `ResultsView`: any existing question, published or not. */
  function ResultsLookup(qs: seq<Question>, id: int): (r: Lookup<Question>)
    requires UniqueQuestionIds(qs)
    ensures forall q :: r == Found(q) <==> q in qs && q.id == id
  {
    var r := QuestionById(qs, id);
    forall q | q in qs && q.id == id ensures r == Found(q) {
      QuestionByIdFindsRow(qs, q);
    }
    r
  }

  /** `DetailView`: the lookup runs on the published questions only, so an
      unpublished or missing question is not-found. */
  function DetailLookup(qs: seq<Question>, now: int, id: int): (r: Lookup<Question>)
    requires UniqueQuestionIds(qs)
    ensures forall q :: r == Found(q) <==> q in qs && q.id == id && IsPublished(q, now)
    ensures r.NotFound? <==> forall q :: q in qs && q.id == id ==> !IsPublished(q, now)
  {
    var published := IndexQuery.Published(qs, now);
    var r := QuestionById(published, id);
    forall q | q in qs && q.id == id && IsPublished(q, now) ensures r == Found(q) {
      if r.Found? {
        SameIdSameQuestion(qs, r.value, q);
      }
    }
    r
  }

  /** The detail page of a question is found exactly when its results page
      is found and the question is published; both then show the same row. */
  lemma DetailIsPublishedResults(qs: seq<Question>, now: int, id: int)
    requires UniqueQuestionIds(qs)
    ensures DetailLookup(qs, now, id) ==
              match ResultsLookup(qs, id)
              case Found(q) => if IsPublished(q, now) then Found(q) else NotFound
              case NotFound => NotFound
  {
    var d := DetailLookup(qs, now, id);
    var res := ResultsLookup(qs, id);
    if res.Found? {
      if d.Found? {
        SameIdSameQuestion(qs, d.value, res.value);
      }
    }
  }
}
