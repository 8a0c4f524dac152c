/** The results page: one line per choice, `"<text> -- <N> vote<s>"`. */
module ResultsFormat {
  import opened PollModels

  predicate IsDigit(ch: char) {
    '0' <= ch <= '9'
  }

  predicate AllDigits(s: string) {
    forall i :: 0 <= i < |s| ==> IsDigit(s[i])
  }

  function DigitChar(d: nat): (ch: char)
    requires d < 10
    ensures IsDigit(ch)
  {
    ('0' as int + d) as char
  }

  function DigitValue(ch: char): (d: nat)
    requires IsDigit(ch)
    ensures d < 10
  {
    ch as int - '0' as int
  }

  /** Python's `str` of a non-negative integer: its decimal digits, with no
      leading zero. */
  function Decimal(n: nat): (s: string)
    ensures |s| >= 1 && AllDigits(s)
    ensures |s| > 1 ==> s[0] != '0'
  {
    if n < 10 then [DigitChar(n)] else Decimal(n / 10) + [DigitChar(n % 10)]
  }

  /** The number a string of decimal digits denotes. */
  function DecimalValue(s: string): nat
    requires AllDigits(s)
  {
    if s == [] then 0 else DecimalValue(s[..|s| - 1]) * 10 + DigitValue(s[|s| - 1])
  }

  lemma {:induction false} DecimalRoundTrip(n: nat)
    ensures DecimalValue(Decimal(n)) == n
  {
    var s := Decimal(n);
    if n >= 10 {
      assert s[..|s| - 1] == Decimal(n / 10);
      DecimalRoundTrip(n / 10);
    }
  }

  /** Django's `pluralize` with its default suffix: "s" for every count
      but 1. */
  function Pluralize(n: int): string {
    if n == 1 then "" else "s"
  }

  /** The longest suffix of `s` made of digits. */
  function TrailingDigits(s: string): (d: string)
    ensures |d| <= |s|
    ensures AllDigits(d)
  {
    if s == [] || !IsDigit(s[|s| - 1]) then []
    else TrailingDigits(s[..|s| - 1]) + [s[|s| - 1]]
  }

  lemma {:induction false} TrailingDigitsOf(a: string, d: string)
    requires AllDigits(d)
    requires a == [] || !IsDigit(a[|a| - 1])
    ensures TrailingDigits(a + d) == d
  {
    var s := a + d;
    if d == [] {
      assert s == a;
    } else {
      var front := d[..|d| - 1];
      var last := d[|d| - 1];
      assert s[..|s| - 1] == a + front;
      assert s[|s| - 1] == last && IsDigit(last);
      assert AllDigits(front) by {
        forall i | 0 <= i < |front| ensures IsDigit(front[i]) {
          assert front[i] == d[i];
        }
      }
      TrailingDigitsOf(a, front);
      assert TrailingDigits(s) == TrailingDigits(s[..|s| - 1]) + [last];
      assert front + [last] == d;
    }
  }

  /** The length of the "vote"/"votes" ending of a results line, with the
      space before it; 0 when there is none. */
  function EndingLength(line: string): (n: nat)
    ensures n == 0 || n == 5 || n == 6
    ensures n <= |line|
  {
    if |line| >= 6 && line[|line| - 6..] == " votes" then 6
    else if |line| >= 5 && line[|line| - 5..] == " vote" then 5
    else 0
  }

  /** Reads `"<text> -- <digits>"` back, checking that the count has no
      leading zero and that the ending was plural exactly when the count is
      not 1. */
  function ParseCount(body: string, plural: bool): Option<(string, nat)> {
    var digits := TrailingDigits(body);
    var head := body[..|body| - |digits|];
    if digits == [] || (|digits| > 1 && digits[0] == '0') || |head| < 4 || head[|head| - 4..] != " -- " then None
    else
      var n := DecimalValue(digits);
      if plural == (n != 1) then Some((head[..|head| - 4], n)) else None
  }

  /** Reads a results line back into the choice text and vote count, and
      rejects a line whose "vote"/"votes" ending disagrees with the count. */
  function ParseResultLine(line: string): Option<(string, nat)> {
    var ending := EndingLength(line);
    if ending == 0 then None else ParseCount(line[..|line| - ending], ending == 6)
  }

  lemma EndingOfLine(body: string, n: nat)
    ensures EndingLength(body + " vote" + Pluralize(n)) == if n == 1 then 5 else 6
  {
    var line := body + " vote" + Pluralize(n);
    if n == 1 {
      assert line[|line| - 1] == 'e';
      assert line[|line| - 5..] == " vote";
    } else {
      assert line[|line| - 6..] == " votes";
    }
  }

  /** Reading a line back first removes its " vote"/" votes" ending, and
      remembers whether it was plural. */
  lemma StripEnding(body: string, n: nat)
    ensures ParseResultLine(body + " vote" + Pluralize(n)) == ParseCount(body, n != 1)
  {
    var line := body + " vote" + Pluralize(n);
    EndingOfLine(body, n);
    if n == 1 {
      assert line == body + " vote";
      assert line[..|line| - 5] == body;
    } else {
      assert line == body + " votes";
      assert line[..|line| - 6] == body;
    }
  }

  lemma CountOfBody(text: string, n: nat)
    ensures ParseCount(text + " -- " + Decimal(n), n != 1) == Some((text, n))
  {
    var head := text + " -- ";
    assert |head| >= 4 && head[|head| - 1] == ' ';
    var digits := Decimal(n);
    var body := head + digits;
    TrailingDigitsOf(head, digits);
    assert TrailingDigits(body) == digits;
    assert body[..|body| - |digits|] == head;
    assert head[|head| - 4..] == " -- ";
    assert head[..|head| - 4] == text;
    DecimalRoundTrip(n);
  }

  /** The line the results page shows for one choice. It reads back as the
      choice text and its vote count: the count is printed in decimal with
      no leading zero, and the ending is "vote" exactly when the count is 1. */
  function ResultLine(c: Choice): (line: string)
    ensures ParseResultLine(line) == Some((c.choiceText, c.votes))
  {
    var body := c.choiceText + " -- " + Decimal(c.votes);
    StripEnding(body, c.votes);
    CountOfBody(c.choiceText, c.votes);
    body + " vote" + Pluralize(c.votes)
  }

  /** A count printed with a leading zero does not read back: only the
      unpadded line of `ResultLine` does. */
  lemma PaddedCountRejected(text: string, n: nat)
    ensures ParseResultLine(text + " -- 0" + Decimal(n) + " vote" + Pluralize(n)).None?
  {
    var head := text + " -- ";
    var digits := "0" + Decimal(n);
    assert AllDigits(digits) by {
      forall i | 0 <= i < |digits| ensures IsDigit(digits[i]) {
        if i > 0 { assert digits[i] == Decimal(n)[i - 1]; }
      }
    }
    var body := head + digits;
    assert body == text + " -- 0" + Decimal(n);
    StripEnding(body, n);
    assert head[|head| - 1] == ' ';
    TrailingDigitsOf(head, digits);
  }

  /** What the results page shows, without its markup. */
  datatype ResultsPage = ResultsPage(title: string, lines: seq<string>)

  /** `ResultsView` for a found question: its text as the title and one line
      per choice of that question, in table order. */
  function Results(q: Question, cs: seq<Choice>): (page: ResultsPage)
    ensures page.title == q.questionText
    ensures |page.lines| == |ChoicesOf(cs, q.id)|
    ensures forall k :: 0 <= k < |page.lines| ==> page.lines[k] == ResultLine(ChoicesOf(cs, q.id)[k])
    ensures forall k :: 0 <= k < |page.lines| ==>
              ParseResultLine(page.lines[k]) ==
                Some((ChoicesOf(cs, q.id)[k].choiceText, ChoicesOf(cs, q.id)[k].votes))
  {
    var choices := ChoicesOf(cs, q.id);
    ResultsPage(q.questionText, seq(|choices|, k requires 0 <= k < |choices| => ResultLine(choices[k])))
  }

  /** The three pluralisation cases of the results line. */
  lemma PluralExamples(c: Choice)
    ensures c.votes == 0 ==> ResultLine(c) == c.choiceText + " -- 0 votes"
    ensures c.votes == 1 ==> ResultLine(c) == c.choiceText + " -- 1 vote"
    ensures c.votes == 2 ==> ResultLine(c) == c.choiceText + " -- 2 votes"
  {
    var line := ResultLine(c);
    assert line == c.choiceText + " -- " + Decimal(c.votes) + " vote" + Pluralize(c.votes);
    if c.votes < 3 {
      assert Decimal(c.votes) == [DigitChar(c.votes)];
    }
  }
}
