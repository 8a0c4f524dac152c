/** The vote handler: the one operation that changes the store. */
module Voting {
  import opened PollModels
  import Lookups

  /** The message the detail form shows after a vote without a valid choice. */
  const NoChoiceMessage := "You didn't select a choice."

  /** The three ways a vote request ends: a 404, the detail form shown again
      with an error message, or a redirect to the question's results page. */
  datatype VoteOutcome =
    | NotFound
    | InvalidSelection(question: Question, errorMessage: string)
    | RedirectToResults(questionId: int)

  /** `question.choice_set.get(pk=choiceId)`: the position in the table of
      the choice with that key that belongs to the question, if any. */
  function FindChoice(cs: seq<Choice>, questionId: int, choiceId: int): (r: Lookup<nat>)
    ensures r.Found? ==> r.value < |cs| && cs[r.value].id == choiceId && cs[r.value].questionId == questionId
    ensures r.NotFound? <==> !Selects(cs, questionId, choiceId)
  {
    if cs == [] then Lookup.NotFound
    else if cs[0].id == choiceId && cs[0].questionId == questionId then Found(0)
    else
      assert cs == [cs[0]] + cs[1..];
      match FindChoice(cs[1..], questionId, choiceId)
      case NotFound => Lookup.NotFound
      case Found(i) => Found(i + 1)
  }

  /** The choice with key `choiceId` exists and belongs to question `questionId`. */
  predicate Selects(cs: seq<Choice>, questionId: int, choiceId: int) {
    exists c :: c in cs && c.id == choiceId && c.questionId == questionId
  }

  /** The choice table after one vote for `choiceId`. */
  function Voted(cs: seq<Choice>, choiceId: int): seq<Choice> {
    if cs == [] then []
    else [if cs[0].id == choiceId then cs[0].(votes := cs[0].votes + 1) else cs[0]] + Voted(cs[1..], choiceId)
  }

  /** The votes of all choices in a table. */
  function TotalVotes(cs: seq<Choice>): nat {
    if cs == [] then 0 else cs[0].votes + TotalVotes(cs[1..])
  }

  /** A vote changes no key, foreign key or text, and adds one to the
      counter of the voted choice only. */
  lemma {:induction false} VotedAt(cs: seq<Choice>, choiceId: int, k: nat)
    requires k < |cs|
    ensures |Voted(cs, choiceId)| == |cs|
    ensures Voted(cs, choiceId)[k] ==
              if cs[k].id == choiceId then cs[k].(votes := cs[k].votes + 1) else cs[k]
  {
    if k > 0 {
      VotedAt(cs[1..], choiceId, k - 1);
    } else if |cs| > 1 {
      VotedAt(cs[1..], choiceId, 0);
    }
  }

  /** In a table with unique keys, a vote for the key of row `i` is the
      update of row `i` alone. */
  lemma VotedIsPointUpdate(cs: seq<Choice>, i: nat)
    requires UniqueChoiceIds(cs) && i < |cs|
    ensures Voted(cs, cs[i].id) == cs[i := cs[i].(votes := cs[i].votes + 1)]
  {
    var updated := cs[i := cs[i].(votes := cs[i].votes + 1)];
    VotedAt(cs, cs[i].id, i);
    forall k | 0 <= k < |cs| ensures Voted(cs, cs[i].id)[k] == updated[k] {
      VotedAt(cs, cs[i].id, k);
      if k != i {
        if k < i { assert cs[k].id != cs[i].id; } else { assert cs[i].id != cs[k].id; }
      }
    }
  }

  /** In a table with unique keys, a vote for an existing choice adds
      exactly one to the total; a vote for a missing key adds nothing. */
  lemma {:induction false} VotedTotal(cs: seq<Choice>, choiceId: int)
    requires UniqueChoiceIds(cs)
    ensures TotalVotes(Voted(cs, choiceId)) ==
              TotalVotes(cs) + if exists c :: c in cs && c.id == choiceId then 1 else 0
  {
    if cs != [] {
      var tail := cs[1..];
      assert UniqueChoiceIds(tail) by {
        forall i, j | 0 <= i < j < |tail| ensures tail[i].id != tail[j].id {
          assert tail[i] == cs[i + 1] && tail[j] == cs[j + 1];
        }
      }
      VotedTotal(tail, choiceId);
      assert cs == [cs[0]] + tail;
      if cs[0].id == choiceId {
        assert !exists c :: c in tail && c.id == choiceId by {
          forall c | c in tail ensures c.id != choiceId {
            var j :| 0 <= j < |tail| && tail[j] == c;
            assert cs[j + 1] == c;
          }
        }
      }
    }
  }

  /** The database tables of the polls application. */
  class PollStore {
    var questions: seq<Question>
    var choices: seq<Choice>

    /** Primary keys are unique and every choice belongs to a stored question. */
    ghost predicate Valid()
      reads this
    {
      && UniqueQuestionIds(questions)
      && UniqueChoiceIds(choices)
      && forall c :: c in choices ==> HasQuestion(questions, c.questionId)
    }

    constructor (questions: seq<Question>, choices: seq<Choice>)
      requires UniqueQuestionIds(questions) && UniqueChoiceIds(choices)
      requires forall c :: c in choices ==> HasQuestion(questions, c.questionId)
      ensures Valid()
      ensures this.questions == questions && this.choices == choices
    {
      this.questions := questions;
      this.choices := choices;
    }

    /** `vote(request, question_id)`, with the posted `choice` field as an
        optional choice key. */
    method Vote(questionId: int, choiceField: Option<int>) returns (outcome: VoteOutcome)
      requires Valid()
      modifies this`choices
      ensures Valid()
      ensures outcome.NotFound? <==> !HasQuestion(questions, questionId)
      ensures outcome.InvalidSelection? <==>
                HasQuestion(questions, questionId) &&
                (choiceField.None? || !Selects(old(choices), questionId, choiceField.value))
      ensures outcome.InvalidSelection? ==>
                outcome.question in questions && outcome.question.id == questionId &&
                outcome.errorMessage == NoChoiceMessage
      ensures outcome.RedirectToResults? ==> outcome.questionId == questionId
      ensures outcome.RedirectToResults? ==> choices == Voted(old(choices), choiceField.value)
      ensures !outcome.RedirectToResults? ==> choices == old(choices)
      ensures TotalVotes(choices) == TotalVotes(old(choices)) + if outcome.RedirectToResults? then 1 else 0
    {
      VotedTotal(choices, if choiceField.Some? then choiceField.value else 0);
      match Lookups.QuestionById(questions, questionId)
      case NotFound =>
        return VoteOutcome.NotFound;
      case Found(question) =>
        if choiceField.None? {
          return InvalidSelection(question, NoChoiceMessage);
        }
        match FindChoice(choices, questionId, choiceField.value)
        case NotFound =>
          return InvalidSelection(question, NoChoiceMessage);
        case Found(i) =>
          var selected := choices[i];
          VotedIsPointUpdate(choices, i);
          choices := choices[i := selected.(votes := selected.votes + 1)];
          forall c | c in choices ensures HasQuestion(questions, c.questionId) {
            var k :| 0 <= k < |choices| && choices[k] == c;
            assert old(choices)[k] in old(choices);
          }
          return RedirectToResults(question.id);
    }
  }
}
