# Polls application: a Dafny model of its views

The polls application stores Questions and their Choices. It has three read
views and one write action:

- The index lists the five newest published questions.
- The detail page shows one published question and its voting form.
- The results page shows one question with a vote count per choice.
- The vote handler adds one vote to a chosen answer.

This project models that logic from `polls/views.py` over an in-memory store.
The views query the store through the framework's object-relational layer;
here they are plain functions over the store's tables.

- `models.dfy` (module `PollModels`) holds the data model.
  `Question(id, questionText, pubDate)` and `Choice(id, questionId, choiceText, votes)`
  carry the fields the views use. Timestamps are integers. `votes` is a `nat`.
  `ChoicesOf` is `question.choice_set.all()`: each of the question's choices once, in table order.
- `index_view.dfy` (module `IndexQuery`) models `IndexView`:
  - the publication filter `Published`;
  - the ordering `SortNewestFirst`, a stable insertion sort, newest first;
  - the cut at five, `LatestQuestions`;
  - the page content `Index`, which is the links or "No polls are available.".
- `question_lookup.dfy` (module `Lookups`) models the lookups by primary key:
  - `QuestionById` is `get(pk=…)`; the vote handler and the results page use it;
  - `ResultsLookup` applies no publication filter;
  - `DetailLookup` runs the same lookup on the published questions only.
  A missing row is `NotFound`, the model's 404.
- `results_view.dfy` (module `ResultsFormat`):
  - `ResultLine` builds `"<choice_text> -- <N> vote<s>"`;
  - `Decimal` is Python's `str` of the count;
  - `Pluralize` is the default `pluralize` filter: `"s"` unless N is 1;
  - `ParseResultLine` reads a line back and rejects a zero-padded count;
    `ResultLine`'s contract is that round trip.
- `vote.dfy` (module `Voting`) holds the store and the vote handler:
  - the `PollStore` class has the two tables as `seq` fields;
  - its invariant `Valid()` asks for unique primary keys and for every
    choice's foreign key to name a stored question;
  - `Vote` updates the chosen row in place. Its outcome is `NotFound`,
    `InvalidSelection(question, "You didn't select a choice.")` (the detail
    form shown again), or `RedirectToResults(questionId)`;
  - `Voted` is a reference definition of the vote's effect on the table.
    Its lemmas show that the vote changes exactly one row by +1 and raises the total by one.
- `scenarios.dfy` (module `Scenarios`) is a client. It stores a question with
  two choices and votes for the second one. It then reads the results page
  (the exact lines "… -- 0 votes" and "… -- 1 vote", and their read-back)
  and votes once with no choice. Every step is proved from the
  contracts above.

The vote handler looks its question up without a publication filter, as the
source does (polls/views.py:102). So a vote on a question that is not yet
published is counted, even though its detail page is not found. The model
keeps this behaviour; `Vote` takes no clock.

Ties in publication time: `order_by('-pub_date')` leaves their order to the
database. The model keeps table order among equal timestamps. No lemma
depends on that choice.

## Model

| member | source | states |
|---|---|---|
| `PollModels.ChoicesOf` | polls/views.py:95 | the choices listed for a question are exactly the table's choices whose foreign key is that question, each exactly as many times as it is in the table, and no other |
| `IndexQuery.Published` | polls/views.py:49-50 | the filtered set is exactly the questions with `pub_date <= now`, and it adds no question not in the table |
| `IndexQuery.InsertByDate` | polls/views.py:51 | inserting into a newest-first sequence keeps it newest first and adds exactly the one question |
| `IndexQuery.SortNewestFirst` | polls/views.py:51 | the ordering is newest first (non-increasing `pub_date`) and is a permutation of its input |
| `IndexQuery.NewestPrefix` | polls/views.py:51 | cutting a newest-first sequence keeps it newest first, and nothing cut off is newer than the last question kept |
| `IndexQuery.LatestQuestions` | polls/views.py:44-51 | at most 5 questions; each is stored and published; newest first; no duplicates beyond the table's; every published question left out means 5 were returned, all no older than it |
| `IndexQuery.Index` | polls/views.py:28-42 | the page shows "No polls are available." exactly when no question is published; otherwise one link per latest question, in order, with its id and text |
| `IndexQuery.FutureQuestionNotListed` | polls/views.py:45-50 | a future-dated question is neither among the latest questions nor linked from the index |
| `Lookups.QuestionById` | polls/views.py:102 | a found question is stored and has the requested id; not-found holds exactly when no stored question has that id |
| `Lookups.QuestionByIdFindsRow` | polls/views.py:102 | with unique keys, looking up a stored question's id finds that very question |
| `Lookups.ResultsLookup` | polls/views.py:84-85 | the results lookup finds a question exactly when it is stored with that id, published or not |
| `Lookups.DetailLookup` | polls/views.py:77-81 | the detail lookup finds a question exactly when it is stored with that id and `pub_date <= now`; otherwise not-found |
| `Lookups.DetailIsPublishedResults` | polls/views.py:77-85 | the detail lookup is the results lookup with unpublished questions turned into not-found |
| `ResultsFormat.Decimal` | polls/views.py:93 | the count is printed as at least one decimal digit, with no leading zero |
| `ResultsFormat.DecimalRoundTrip` | polls/views.py:93 | the printed count reads back as the count |
| `ResultsFormat.EndingOfLine` | polls/views.py:93 | `Pluralize` (Django's `pluralize`) makes a results line end in " vote" when the count is 1 and in " votes" otherwise |
| `ResultsFormat.ResultLine` | polls/views.py:93 | every results line reads back exactly as its choice text and vote count: the count is printed with no leading zero, and the ending is "vote" exactly when the count is 1 |
| `ResultsFormat.PaddedCountRejected` | polls/views.py:93 | a line whose count carries a leading zero is never read back, so the round trip admits only the unpadded `%s` form |
| `ResultsFormat.Results` | polls/views.py:87-96 | the results page is titled with the question text and has one line per choice of that question, in order; each line is that choice's `ResultLine` and reads back as its text and count; no choices gives no lines |
| `ResultsFormat.PluralExamples` | polls/views.py:93 | 0 votes gives "… -- 0 votes", 1 gives "… -- 1 vote", 2 gives "… -- 2 votes" |
| `Voting.FindChoice` | polls/views.py:104-105 | a selected choice has the posted id and belongs to this question; not-found holds exactly when no such choice exists, even when the id belongs to another question's choice |
| `Voting.VotedAt` | polls/views.py:112 | a vote keeps every row's key, question and text, adds 1 to the voted choice's counter and leaves every other counter alone |
| `Voting.VotedIsPointUpdate` | polls/views.py:112-113 | with unique keys, a vote is the update of the one selected row |
| `Voting.VotedTotal` | polls/views.py:112 | with unique keys, a vote for an existing choice raises the total by exactly 1; a vote for a missing key changes nothing |
| `Voting.PollStore.Vote` | polls/views.py:101-117 | not-found exactly when the question id is unknown; the error message "You didn't select a choice." exactly when the field is absent or names no choice of this question; otherwise a redirect to the same question id. The table changes only on the redirect: the selected choice gets one more vote. The total rises by 1 on the redirect and by 0 otherwise. The store invariant is kept and the question table is never written |

## Left out

- The markup built with the lys library and `render_to_response` (polls/views.py:14-42, 57-75, 87-98). It is a foreign templating library. Its content is kept as plain values: the index page's links or message, the results page's title and lines, and the context of the detail form in `InvalidSelection`.
- The detail form's radio inputs, its anti-forgery token (`get_token`) and its `choice%d` labels (polls/views.py:64-74). These are rendering and framework concerns.
- `static(...)` and `reverse(...)` URLs. A redirect target is the question id alone.
- Django's generic-view dispatch and its `HttpResponse` objects. An outcome datatype stands for the responses.
- `save()` and persistence (polls/views.py:113). The update to the `choices` field is the write.
- `timezone.now()` (polls/views.py:50, 81). `now` is an integer parameter.
- The race in the non-atomic `votes += 1` under simultaneous requests (polls/views.py:112-113). The model is sequential.
- How the framework turns the posted `choice` text into a key. `Vote` takes the field as an optional integer key. Text that is not a number makes the framework raise an error the handler does not catch. That error is not modelled.
- `polls/models.py` is not part of this model. The store invariant `Valid()` stands in for the schema's unique keys and foreign keys. `votes` is an unbounded `nat`: the column's width and the failure of `save()` at its maximum are not modelled.
- PollModels.ChoicesOf: `choice_set.all()` has no `order_by`, so the database picks the order; the model fixes table order, and only the multiset and membership of the result are stated in its contract.
- Creating questions and choices (an administrative action outside these views). The `PollStore` constructor takes the initial tables.
