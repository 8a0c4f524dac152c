/** A client of the store: a question with two choices, one vote, the
    results page, then a vote without a choice. Everything asserted here
    follows from the contracts of the operations it calls. */
module Scenarios {
  import opened PollModels
  import opened Voting
  import ResultsFormat

  /** A question "Favorite color?" published at `now`, with two choices
      that have no votes yet, the second of which gets one. */
  method FavoriteColor(now: int, first: string, second: string) {
    var q := Question(1, "Favorite color?", now);
    var a := Choice(1, 1, first, 0);
    var b := Choice(2, 1, second, 0);
    assert q in [q];
    var store := new PollStore([q], [a, b]);

    var outcome := store.Vote(1, Some(2));
    assert b in [a, b];
    assert outcome == RedirectToResults(1);
    VotedIsPointUpdate([a, b], 1);
    assert store.choices == [a, b.(votes := 1)];

    var page, lines := ResultsLines(q, store.choices);
    assert lines == [Some((first, 0)), Some((second, 1))];
    ResultsFormat.PluralExamples(a);
    ResultsFormat.PluralExamples(b.(votes := 1));
    assert page.lines == [first + " -- 0 votes", second + " -- 1 vote"];

    var again := store.Vote(1, None);
    assert again == InvalidSelection(q, "You didn't select a choice.");
    assert store.choices == [a, b.(votes := 1)];
  }

  /** The results page of a question whose two choices are the whole
      table, and each of its lines read back. */
  method ResultsLines(q: Question, cs: seq<Choice>) returns (page: ResultsFormat.ResultsPage, lines: seq<Option<(string, nat)>>)
    requires |cs| == 2 && cs[0].questionId == q.id && cs[1].questionId == q.id
    ensures page.lines == [ResultsFormat.ResultLine(cs[0]), ResultsFormat.ResultLine(cs[1])]
    ensures lines == [Some((cs[0].choiceText, cs[0].votes)), Some((cs[1].choiceText, cs[1].votes))]
  {
    ChoicesOfOwnTable(cs, q.id);
    page := ResultsFormat.Results(q, cs);
    lines := [ResultsFormat.ParseResultLine(page.lines[0]), ResultsFormat.ParseResultLine(page.lines[1])];
  }
}
