/** The index page: the latest published questions, newest first. */
module IndexQuery {
  import opened PollModels

  /** The index shows at most this many questions. */
  const LatestCount: nat := 5

  /** The message the index shows when no question is published. */
  const NoPollsMessage := "No polls are available."

  /** Questions in non-increasing order of publication time. */
  predicate NewestFirst(s: seq<Question>) {
    forall i, j :: 0 <= i < j < |s| ==> s[i].pubDate >= s[j].pubDate
  }

  /** `filter(pub_date__lte=now)`: the published questions, in table order. */
  function Published(qs: seq<Question>, now: int): (r: seq<Question>)
    ensures forall q :: q in r <==> q in qs && IsPublished(q, now)
    ensures multiset(r) <= multiset(qs)
  {
    if qs == [] then []
    else
      assert qs == [qs[0]] + qs[1..];
      if IsPublished(qs[0], now) then [qs[0]] + Published(qs[1..], now)
      else Published(qs[1..], now)
  }

  /** Places `q` into a newest-first sequence, ahead of every question
      published at the same time or earlier. */
  function InsertByDate(q: Question, s: seq<Question>): (r: seq<Question>)
    requires NewestFirst(s)
    ensures NewestFirst(r)
    ensures forall x :: x in r <==> x == q || x in s
    ensures multiset(r) == multiset{q} + multiset(s)
  {
    if s == [] || q.pubDate >= s[0].pubDate then [q] + s
    else
      var rest := InsertByDate(q, s[1..]);
      PrependNewest(s[0], rest);
      assert s == [s[0]] + s[1..];
      [s[0]] + rest
  }

  /** A question no older than every question of a newest-first sequence
      can head it. */
  lemma PrependNewest(x: Question, s: seq<Question>)
    requires NewestFirst(s)
    requires forall y :: y in s ==> y.pubDate <= x.pubDate
    ensures NewestFirst([x] + s)
  {
    forall i, j | 0 <= i < j < |[x] + s|
      ensures ([x] + s)[i].pubDate >= ([x] + s)[j].pubDate
    {
      if i == 0 {
        assert s[j - 1] in s;
      }
    }
  }

  /** `order_by('-pub_date')`: a newest-first permutation of `qs`. Questions
      with the same publication time keep their table order. */
  function SortNewestFirst(qs: seq<Question>): (r: seq<Question>)
    ensures NewestFirst(r)
    ensures forall x :: x in r <==> x in qs
    ensures multiset(r) == multiset(qs)
  {
    if qs == [] then []
    else
      assert qs == [qs[0]] + qs[1..];
      InsertByDate(qs[0], SortNewestFirst(qs[1..]))
  }

  /** Cutting a newest-first sequence after `n` elements keeps it newest
      first, and whatever is cut off is no newer than the last element kept. */
  lemma NewestPrefix(s: seq<Question>, n: nat)
    requires NewestFirst(s) && 0 < n <= |s|
    ensures NewestFirst(s[..n])
    ensures multiset(s[..n]) <= multiset(s)
    ensures forall q :: q in s && q !in s[..n] ==> q.pubDate <= s[n - 1].pubDate
  {
    assert s == s[..n] + s[n..];
    forall q | q in s && q !in s[..n]
      ensures q.pubDate <= s[n - 1].pubDate
    {
      var k :| 0 <= k < |s| && s[k] == q;
      if k < n {
        assert s[..n][k] == q;
      }
    }
  }

  /** `IndexView.get_queryset`: the first five of the published questions
      ordered newest first. */
  function LatestQuestions(qs: seq<Question>, now: int): (r: seq<Question>)
    ensures |r| <= LatestCount
    ensures forall q :: q in r ==> q in qs && IsPublished(q, now)
    ensures multiset(r) <= multiset(qs)
    ensures NewestFirst(r)
    ensures forall q :: q in qs && IsPublished(q, now) && q !in r ==>
              |r| == LatestCount && q.pubDate <= r[LatestCount - 1].pubDate
  {
    var sorted := SortNewestFirst(Published(qs, now));
    if |sorted| <= LatestCount then
      sorted
    else
      NewestPrefix(sorted, LatestCount);
      sorted[..LatestCount]
  }

  /** A link on the index page: a question's detail page, labelled with its text. */
  datatype Link = Link(questionId: int, text: string)

  /** What the index page shows, without its markup. */
  datatype IndexPage = NoPolls(message: string) | QuestionLinks(links: seq<Link>)

  /** `IndexView`: the empty-case message when nothing is published, and
      otherwise one link per latest question, in the same order. */
  function Index(qs: seq<Question>, now: int): (page: IndexPage)
    ensures page.NoPolls? <==> forall q :: q in qs ==> !IsPublished(q, now)
    ensures page.NoPolls? ==> page.message == NoPollsMessage
    ensures page.QuestionLinks? ==>
              var latest := LatestQuestions(qs, now);
              |page.links| == |latest| &&
              forall k :: 0 <= k < |latest| ==>
                page.links[k] == Link(latest[k].id, latest[k].questionText)
  {
    var latest := LatestQuestions(qs, now);
    if latest == [] then NoPolls(NoPollsMessage)
    else
      assert latest[0] in qs && IsPublished(latest[0], now);
      QuestionLinks(seq(|latest|, k requires 0 <= k < |latest| => Link(latest[k].id, latest[k].questionText)))
  }

  /** A question published later than `now` is never on the index, neither
      as a listed question nor as a link to its detail page. */
  lemma FutureQuestionNotListed(qs: seq<Question>, now: int, q: Question)
    requires UniqueQuestionIds(qs)
    requires q in qs && !IsPublished(q, now)
    ensures q !in LatestQuestions(qs, now)
    ensures Index(qs, now).QuestionLinks? ==>
              forall link :: link in Index(qs, now).links ==> link.questionId != q.id
  {
    var latest := LatestQuestions(qs, now);
    var page := Index(qs, now);
    if page.QuestionLinks? {
      forall link | link in page.links
        ensures link.questionId != q.id
      {
        var k :| 0 <= k < |page.links| && page.links[k] == link;
        assert latest[k] in latest;
        if link.questionId == q.id {
          SameIdSameQuestion(qs, latest[k], q);
        }
      }
    }
  }
}
