/** The two persisted entities of the polls application and the queries
    over a table of choices that every view shares. */
module PollModels {

  /** A poll prompt. `pubDate` is the publication time, as an integer
      timestamp; a question is visible once `pubDate <= now`. */
  datatype Question = Question(id: int, questionText: string, pubDate: int)

  /** One answer to the question whose primary key is `questionId`,
      with its vote counter. */
  datatype Choice = Choice(id: int, questionId: int, choiceText: string, votes: nat)

  /** A request field that may be absent. */
  datatype Option<T> = None | Some(value: T)

  /** The result of a lookup by primary key: the row, or a not-found condition. */
  datatype Lookup<T> = NotFound | Found(value: T)

  predicate IsPublished(q: Question, now: int) {
    q.pubDate <= now
  }

  /** Primary keys are unique within the question table. */
  predicate UniqueQuestionIds(qs: seq<Question>) {
    forall i, j :: 0 <= i < j < |qs| ==> qs[i].id != qs[j].id
  }

  /** Primary keys are unique within the choice table. */
  predicate UniqueChoiceIds(cs: seq<Choice>) {
    forall i, j :: 0 <= i < j < |cs| ==> cs[i].id != cs[j].id
  }

  predicate HasQuestion(qs: seq<Question>, id: int) {
    exists q :: q in qs && q.id == id
  }

  /** Two rows of a table with unique primary keys and the same key are one row. */
  lemma SameIdSameQuestion(qs: seq<Question>, p: Question, q: Question)
    requires UniqueQuestionIds(qs)
    requires p in qs && q in qs && p.id == q.id
    ensures p == q
  {
    var i :| 0 <= i < |qs| && qs[i] == p;
    var j :| 0 <= j < |qs| && qs[j] == q;
  }

  /** `question.choice_set.all()`: the choices whose foreign key is
      `questionId`, in the table's own order. */
  function ChoicesOf(cs: seq<Choice>, questionId: int): (r: seq<Choice>)
    ensures |r| <= |cs|
    ensures forall c :: c in r <==> c in cs && c.questionId == questionId
    ensures forall c :: multiset(r)[c] == if c.questionId == questionId then multiset(cs)[c] else 0
  {
    if cs == [] then []
    else
      assert cs == [cs[0]] + cs[1..];
      if cs[0].questionId == questionId then [cs[0]] + ChoicesOf(cs[1..], questionId)
    else ChoicesOf(cs[1..], questionId)
  }

  /** When every choice of a table belongs to one question, the question's
      choices are the whole table, in order. */
  lemma {:induction false} ChoicesOfOwnTable(cs: seq<Choice>, questionId: int)
    requires forall c :: c in cs ==> c.questionId == questionId
    ensures ChoicesOf(cs, questionId) == cs
  {
    if cs != [] {
      assert cs[0] in cs;
      assert forall c :: c in cs[1..] ==> c in cs;
      ChoicesOfOwnTable(cs[1..], questionId);
    }
  }
}
