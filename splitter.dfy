/**
 * The page splitter of the flashcard maker (`extract_questions_and_answers`).
 *
 * A document is the sequence of its page texts. The splitter runs a two-state
 * machine over them: in question mode pages are grouped into question units
 * (a page starting with "question" opens a new unit, any other page is appended
 * to the open one after a newline); the first page that mentions "mark scheme"
 * switches, for good, to answer mode, where each page becomes one answer.
 *
 * `ExtractQuestionsAndAnswers` is the loop itself; `Extract` is the same machine
 * written as a fold (`Step`, `Run`, `Flush`); `FirstMarker` and `Units` describe
 * the result independently of the machine, and the lemmas connect the two.
 */
module Splitter {
  import opened Text

  /** A page mentioning this (after lowercasing) and every later page are answers. */
  const Marker: string := "mark scheme"

  /** A question-mode page starting with this (after lowercasing) opens a new question unit. */
  const QuestionPrefix: string := "question"

  /** What the splitter returns: the question units and the answer pages, both in page order. */
  datatype Extraction = Extraction(questions: seq<string>, answers: seq<string>)

  /** The splitter's variables between two pages: the mode flag, the open question buffer and the two lists. */
  datatype Scan = Scan(isQuestionPage: bool, current: string, questions: seq<string>, answers: seq<string>)

  const Initial: Scan := Scan(true, "", [], [])

  predicate IsQuestionStart(text: string) {
    StartsWith(text, QuestionPrefix)
  }

  /** One iteration of the loop, on one lowercased page text. */
  function Step(s: Scan, text: string): Scan {
    var isQuestionPage := s.isQuestionPage && !Contains(text, Marker);
    if !isQuestionPage then
      s.(isQuestionPage := false, answers := s.answers + [text])
    else if IsQuestionStart(text) then
      s.(current := text, questions := if s.current != "" then s.questions + [Strip(s.current)] else s.questions)
    else
      s.(current := s.current + "\n" + text)
  }

  /** The state after the loop has visited every text of `texts`, in order. */
  function Run(texts: seq<string>): Scan {
    if texts == [] then Initial else Step(Run(texts[..|texts| - 1]), texts[|texts| - 1])
  }

  /** After the loop: a question buffer that is still open becomes the last question. */
  function Flush(s: Scan): Extraction {
    Extraction(if s.current != "" then s.questions + [Strip(s.current)] else s.questions, s.answers)
  }

  /** Every page's text, lowercased, as the loop reads it. */
  function LowerAll(pages: seq<string>): seq<string> {
    seq(|pages|, k requires 0 <= k < |pages| => Lower(pages[k]))
  }

  /** What the splitter returns for a document with these page texts. */
  function Extract(pages: seq<string>): Extraction {
    Flush(Run(LowerAll(pages)))
  }

  /** The splitter as the source writes it: one pass over the pages with a flag and a buffer. */
  method ExtractQuestionsAndAnswers(pages: seq<string>) returns (questions: seq<string>, answers: seq<string>)
    ensures Extraction(questions, answers) == Extract(pages)
  {
    questions, answers := [], [];
    var currentQuestion := "";
    var isQuestionPage := true;
    ghost var texts := LowerAll(pages);
    for pageNum := 0 to |pages|
      invariant Scan(isQuestionPage, currentQuestion, questions, answers) == Run(texts[..pageNum])
    {
      var text := Lower(pages[pageNum]);
      if Contains(text, Marker) {
        isQuestionPage := false;
      }
      if isQuestionPage {
        if IsQuestionStart(text) {
          if currentQuestion != "" {
            questions := questions + [Strip(currentQuestion)];
          }
          currentQuestion := text;
        } else {
          currentQuestion := currentQuestion + "\n" + text;
        }
      } else {
        answers := answers + [text];
      }
      assert texts[..pageNum + 1][..pageNum] == texts[..pageNum];
    }
    if currentQuestion != "" {
      questions := questions + [Strip(currentQuestion)];
    }
    assert texts[..|pages|] == texts;
  }

  // ---------------------------------------------------------------------------
  // An independent description of the result
  // ---------------------------------------------------------------------------

  /** The index of the first text that mentions the marker, or the number of texts if none does. */
  function FirstMarker(texts: seq<string>): (m: nat)
    ensures m <= |texts|
    ensures forall k :: 0 <= k < m ==> !Contains(texts[k], Marker)
    ensures m < |texts| ==> Contains(texts[m], Marker)
  {
    if texts == [] then 0
    else if Contains(texts[0], Marker) then 0
    else 1 + FirstMarker(texts[1..])
  }

  /**
   * The question buffers, before they are stripped: a text starting with "question"
   * opens a new unit, any other text is appended to the last unit after a newline,
   * and a text that comes before any "question" text opens a unit seeded with "".
   */
  function Units(texts: seq<string>): (units: seq<string>)
    ensures |units| == 0 <==> |texts| == 0
    ensures forall k :: 0 <= k < |units| ==> units[k] != ""
  {
    if texts == [] then []
    else
      var units := Units(texts[..|texts| - 1]);
      var text := texts[|texts| - 1];
      if IsQuestionStart(text) then units + [text]
      else if units == [] then ["" + "\n" + text]
      else units[..|units| - 1] + [units[|units| - 1] + "\n" + text]
  }

  /**
   * Every unit but the first starts with "question"; the first starts with `first`
   * when `first` starts with "question", and with a newline followed by `first` otherwise.
   */
  predicate OpensAt(units: seq<string>, first: string) {
    && (forall k :: 0 < k < |units| ==> IsQuestionStart(units[k]))
    && (|units| > 0 ==> StartsWith(units[0], if IsQuestionStart(first) then first else "\n" + first))
    && (|units| > 0 ==> (IsQuestionStart(units[0]) <==> IsQuestionStart(first)))
  }

  /** A new unit opens exactly at each text that starts with "question" (and at a first text that does not). */
  lemma {:induction false} UnitsOpenAtQuestionPages(texts: seq<string>)
    requires texts != []
    ensures OpensAt(Units(texts), texts[0])
  {
    var prior := texts[..|texts| - 1];
    var text := texts[|texts| - 1];
    var units := Units(prior);
    if prior == [] {
      assert text == texts[0];
      if !IsQuestionStart(text) {
        assert ("" + "\n" + text)[0] != QuestionPrefix[0];
      }
    } else {
      UnitsOpenAtQuestionPages(prior);
      assert prior[0] == texts[0];
      if IsQuestionStart(text) {
        OpensAtAfterQuestion(units, texts[0], text);
      } else {
        SnocOfInit(units);
        OpensAtAfterContinuation(units[..|units| - 1], units[|units| - 1], texts[0], text);
      }
    }
  }

  lemma OpensAtAfterQuestion(units: seq<string>, first: string, text: string)
    requires units != [] && OpensAt(units, first) && IsQuestionStart(text)
    ensures OpensAt(units + [text], first)
  {
    assert (units + [text])[0] == units[0];
  }

  lemma OpensAtAfterContinuation(init: seq<string>, last: string, first: string, text: string)
    requires OpensAt(init + [last], first)
    ensures OpensAt(init + [last + "\n" + text], first)
  {
    var unit := last + "\n" + text;
    assert unit == last + ("\n" + text);
    forall p | StartsWith(last, p) ensures StartsWith(unit, p) {
      ExtendKeepsStart(last, p, "\n" + text);
    }
    if init == [] {
      assert (init + [last])[0] == last;
      assert (init + [unit])[0] == unit;
      if !IsQuestionStart(first) {
        assert StartsWith(unit, "\n" + first);
        assert unit[0] != QuestionPrefix[0];
      }
    } else {
      assert (init + [last])[0] == init[0];
      assert (init + [unit])[0] == init[0];
      forall k | 0 < k < |init| + 1 ensures IsQuestionStart((init + [unit])[k]) {
        if k < |init| {
          assert (init + [unit])[k] == (init + [last])[k];
        } else {
          assert (init + [last])[k] == last;
        }
      }
    }
  }

  lemma ExtendKeepsStart(s: string, prefix: string, more: string)
    requires StartsWith(s, prefix)
    ensures StartsWith(s + more, prefix)
  {
    assert (s + more)[..|prefix|] == s[..|prefix|];
  }

  function StripAll(units: seq<string>): seq<string> {
    seq(|units|, k requires 0 <= k < |units| => Strip(units[k]))
  }

  /** The loop's state while every text so far has been in question mode: the last unit is the open buffer. */
  function Pending(units: seq<string>): Scan {
    if units == [] then Initial
    else Scan(true, units[|units| - 1], StripAll(units[..|units| - 1]), [])
  }

  lemma StripAllSnoc(units: seq<string>, unit: string)
    ensures StripAll(units + [unit]) == StripAll(units) + [Strip(unit)]
  {
  }

  /** As long as no text mentions the marker, the loop's buffer and questions are those of `Units`. */
  lemma {:induction false} RunInQuestionMode(texts: seq<string>)
    requires forall k :: 0 <= k < |texts| ==> !Contains(texts[k], Marker)
    ensures Run(texts) == Pending(Units(texts))
  {
    if texts != [] {
      var prior := texts[..|texts| - 1];
      var text := texts[|texts| - 1];
      RunInQuestionMode(prior);
      var units := Units(prior);
      if units != [] {
        assert units == units[..|units| - 1] + [units[|units| - 1]];
        StripAllSnoc(units[..|units| - 1], units[|units| - 1]);
        assert (units[..|units| - 1] + [units[|units| - 1] + "\n" + text])[..|units| - 1] == units[..|units| - 1];
      }
    }
  }

  /** On a marker page, or once in answer mode, a step only records the text as an answer. */
  lemma StepToAnswer(s: Scan, text: string)
    requires !s.isQuestionPage || Contains(text, Marker)
    ensures Step(s, text) == s.(isQuestionPage := false, answers := s.answers + [text])
  {
  }

  lemma RunSnoc(texts: seq<string>, k: nat)
    requires 0 < k <= |texts|
    ensures Run(texts[..k]) == Step(Run(texts[..k - 1]), texts[k - 1])
  {
    assert texts[..k][..k - 1] == texts[..k - 1];
  }

  /** The first marker page switches the loop to answer mode and becomes the first answer. */
  lemma RunAtMarkerPage(texts: seq<string>)
    requires FirstMarker(texts) < |texts|
    ensures var m := FirstMarker(texts);
            Run(texts[..m + 1]) == Run(texts[..m]).(isQuestionPage := false, answers := [texts[m]])
  {
    var m := FirstMarker(texts);
    var before := Run(texts[..m]);
    assert before.answers == [] by {
      RunInQuestionMode(texts[..m]);
    }
    assert Run(texts[..m + 1]) == Step(before, texts[m]) by {
      RunSnoc(texts, m + 1);
    }
    StepToAnswer(before, texts[m]);
  }

  /** Once the loop is in answer mode, each further text is only appended to the answers. */
  lemma {:induction false} AnswersFromThenOn(texts: seq<string>, m: nat, k: nat, base: Scan)
    requires m < k <= |texts|
    requires Run(texts[..m + 1]) == base.(isQuestionPage := false, answers := [texts[m]])
    ensures Run(texts[..k]) == base.(isQuestionPage := false, answers := texts[m..k])
  {
    if k == m + 1 {
      assert texts[m..k] == [texts[m]];
    } else {
      var prev := Run(texts[..k - 1]);
      assert prev == base.(isQuestionPage := false, answers := texts[m..k - 1]) by {
        AnswersFromThenOn(texts, m, k - 1, base);
      }
      assert Run(texts[..k]) == prev.(answers := prev.answers + [texts[k - 1]]) by {
        RunSnoc(texts, k);
        StepToAnswer(prev, texts[k - 1]);
      }
      assert texts[m..k - 1] + [texts[k - 1]] == texts[m..k];
    }
  }

  /** From the marker page on, the loop only appends each text to the answers. */
  lemma RunInAnswerMode(texts: seq<string>, k: nat)
    requires FirstMarker(texts) < k <= |texts|
    ensures Run(texts[..k]) == Run(texts[..FirstMarker(texts)]).(isQuestionPage := false, answers := texts[FirstMarker(texts)..k])
  {
    var m := FirstMarker(texts);
    RunAtMarkerPage(texts);
    AnswersFromThenOn(texts, m, k, Run(texts[..m]));
  }

  /**
   * The splitter's result described without the loop: the questions are the stripped
   * units of the pages before the first marker page, and the answers are the lowercased
   * texts of the marker page and of every page after it.
   */
  lemma ExtractMatchesUnits(pages: seq<string>)
    ensures var texts := LowerAll(pages);
            var m := FirstMarker(texts);
            Extract(pages) == Extraction(StripAll(Units(texts[..m])), texts[m..])
  {
    FlushRunMatchesUnits(LowerAll(pages));
  }

  lemma FlushPending(units: seq<string>, isQuestionPage: bool, answers: seq<string>)
    requires forall k :: 0 <= k < |units| ==> units[k] != ""
    ensures Flush(Pending(units).(isQuestionPage := isQuestionPage, answers := answers)) == Extraction(StripAll(units), answers)
  {
    if units != [] {
      SnocOfInit(units);
      StripAllSnoc(units[..|units| - 1], units[|units| - 1]);
    }
  }

  /** `ExtractMatchesUnits` for texts that are already lowercased. */
  lemma FlushRunMatchesUnits(texts: seq<string>)
    ensures var m := FirstMarker(texts);
            Flush(Run(texts)) == Extraction(StripAll(Units(texts[..m])), texts[m..])
  {
    var m := FirstMarker(texts);
    var units := Units(texts[..m]);
    var before := Run(texts[..m]);
    assert before == Pending(units) by {
      RunInQuestionMode(texts[..m]);
    }
    var answers := texts[m..];
    assert Run(texts) == before.(isQuestionPage := m == |texts|, answers := answers) by {
      if m < |texts| {
        RunInAnswerMode(texts, |texts|);
        assert texts[..|texts|] == texts;
      } else {
        assert texts[..m] == texts;
        assert answers == [];
      }
    }
    FlushPending(units, m == |texts|, answers);
  }

  // ---------------------------------------------------------------------------
  // Properties of the splitter
  // ---------------------------------------------------------------------------

  /** The mode flag is true exactly until the first marker page has been read, and never again after. */
  lemma ModeSwitchIsMonotonic(texts: seq<string>, k: nat)
    requires k <= |texts|
    ensures Run(texts[..k]).isQuestionPage <==> k <= FirstMarker(texts)
  {
    var m := FirstMarker(texts);
    if k <= m {
      RunInQuestionMode(texts[..k]);
    } else {
      RunInAnswerMode(texts, k);
    }
  }

  /** The first marker page of a prefix that stops before the document's first marker page is its end. */
  lemma FirstMarkerOfPrefix(pages: seq<string>, m: nat)
    requires m == FirstMarker(LowerAll(pages))
    ensures LowerAll(pages[..m]) == LowerAll(pages)[..m]
    ensures FirstMarker(LowerAll(pages[..m])) == m
  {
    assert LowerAll(pages[..m]) == LowerAll(pages)[..m];
  }

  /** No page at or after the first marker page contributes to the questions: dropping them changes no question. */
  lemma QuestionsOnlyFromPagesBeforeMarker(pages: seq<string>)
    ensures var m := FirstMarker(LowerAll(pages));
            Extract(pages).questions == Extract(pages[..m]).questions && Extract(pages[..m]).answers == []
  {
    var m := FirstMarker(LowerAll(pages));
    ExtractMatchesUnits(pages);
    ExtractMatchesUnits(pages[..m]);
    FirstMarkerOfPrefix(pages, m);
    assert LowerAll(pages[..m])[..m] == LowerAll(pages[..m]);
  }

  /** One answer per page from the first marker page through the last page, each the page's lowercased text. */
  lemma AnswersAreMarkerPageOnwards(pages: seq<string>)
    ensures var m := FirstMarker(LowerAll(pages));
            var answers := Extract(pages).answers;
            && |answers| == |pages| - m
            && forall k :: 0 <= k < |answers| ==> answers[k] == Lower(pages[m + k])
  {
    var texts := LowerAll(pages);
    var m := FirstMarker(texts);
    assert Extract(pages).answers == texts[m..] by {
      ExtractMatchesUnits(pages);
    }
  }

  /** There are no answers exactly when no page mentions the marker; then every page is grouped into the questions. */
  lemma NoAnswersIffNoMarker(pages: seq<string>)
    ensures Extract(pages).answers == [] <==> forall k :: 0 <= k < |pages| ==> !Contains(Lower(pages[k]), Marker)
    ensures (forall k :: 0 <= k < |pages| ==> !Contains(Lower(pages[k]), Marker)) ==>
              Extract(pages).questions == StripAll(Units(LowerAll(pages)))
  {
    var texts := LowerAll(pages);
    var m := FirstMarker(texts);
    ExtractMatchesUnits(pages);
    if m < |pages| {
      assert Contains(Lower(pages[m]), Marker);
      assert Extract(pages).answers != [];
    } else {
      assert texts[..m] == texts;
      forall k | 0 <= k < |pages| ensures !Contains(Lower(pages[k]), Marker) {
        assert texts[k] == Lower(pages[k]);
      }
    }
  }

  /** Every question unit is stripped: none starts or ends with whitespace. */
  lemma QuestionsAreTrimmed(pages: seq<string>)
    ensures var questions := Extract(pages).questions;
            forall k :: 0 <= k < |questions| ==> IsTrimmed(questions[k])
  {
    ExtractMatchesUnits(pages);
    var units := Units(LowerAll(pages)[..FirstMarker(LowerAll(pages))]);
    forall k | 0 <= k < |units| ensures IsTrimmed(Strip(units[k])) {
      StripSpec(units[k]);
    }
  }

  /** `"\n".join(texts)`. */
  function JoinLines(texts: seq<string>): string {
    if texts == [] then ""
    else if |texts| == 1 then texts[0]
    else JoinLines(texts[..|texts| - 1]) + "\n" + texts[|texts| - 1]
  }

  lemma JoinLinesSnoc(texts: seq<string>, text: string)
    requires texts != []
    ensures JoinLines(texts + [text]) == JoinLines(texts) + "\n" + text
  {
    assert (texts + [text])[..|texts|] == texts;
  }

  lemma JoinLinesExtendLast(texts: seq<string>, last: string, more: string)
    ensures JoinLines(texts + [last + more]) == JoinLines(texts + [last]) + more
  {
    if texts != [] {
      JoinLinesSnoc(texts, last + more);
      JoinLinesSnoc(texts, last);
      ConcatAssociative(JoinLines(texts) + "\n", last, more);
    }
  }

  lemma ConcatAssociative(a: string, b: string, c: string)
    ensures a + b + c == a + (b + c)
  {
  }

  /** One more text adds one more line to the joined units. */
  lemma UnitsJoinSnoc(texts: seq<string>)
    requires |texts| >= 2
    ensures JoinLines(Units(texts)) == JoinLines(Units(texts[..|texts| - 1])) + "\n" + texts[|texts| - 1]
  {
    var units := Units(texts[..|texts| - 1]);
    var text := texts[|texts| - 1];
    if IsQuestionStart(text) {
      JoinLinesSnoc(units, text);
    } else {
      var init, last := units[..|units| - 1], units[|units| - 1];
      JoinAppendsToLastUnit(init, last, text);
      SnocOfInit(units);
    }
  }

  /** A text that does not open a unit extends the last unit, and so the last line of the joined units. */
  lemma JoinAppendsToLastUnit(init: seq<string>, last: string, text: string)
    ensures JoinLines(init + [last + "\n" + text]) == JoinLines(init + [last]) + "\n" + text
  {
    JoinLinesExtendLast(init, last + "\n", text);
    JoinLinesExtendLast(init, last, "\n");
  }

  lemma SnocOfInit(s: seq<string>)
    requires s != []
    ensures s[..|s| - 1] + [s[|s| - 1]] == s
  {
  }

  /** The extra leading newline of the joined units: present when the first text does not start with "question". */
  function Lead(texts: seq<string>): string {
    if texts != [] && !IsQuestionStart(texts[0]) then "\n" else ""
  }

  lemma PrependKeepsLines(lead: string, joined: string, text: string)
    ensures lead + joined + "\n" + text == lead + (joined + "\n" + text)
  {
    ConcatAssociative(lead, joined, "\n");
    ConcatAssociative(lead, joined + "\n", text);
  }

  lemma UnitsKeepEveryTextStep(texts: seq<string>)
    requires |texts| >= 2
    requires var prior := texts[..|texts| - 1]; JoinLines(Units(prior)) == Lead(prior) + JoinLines(prior)
    ensures JoinLines(Units(texts)) == Lead(texts) + JoinLines(texts)
  {
    var prior := texts[..|texts| - 1];
    var text := texts[|texts| - 1];
    var lead := Lead(prior);
    assert Lead(texts) == lead by {
      assert prior[0] == texts[0];
    }
    assert JoinLines(Units(texts)) == lead + JoinLines(prior) + "\n" + text by {
      UnitsJoinSnoc(texts);
    }
    PrependKeepsLines(lead, JoinLines(prior), text);
  }

  /**
   * Question-mode pages are never dropped or reordered: joining the units with newlines
   * gives back the texts joined with newlines, after one extra leading newline when the
   * first text does not start with "question".
   */
  lemma {:induction false} UnitsKeepEveryText(texts: seq<string>)
    ensures JoinLines(Units(texts)) == Lead(texts) + JoinLines(texts)
  {
    if |texts| == 1 {
      assert texts[..0] == [];
    } else if texts != [] {
      UnitsKeepEveryText(texts[..|texts| - 1]);
      UnitsKeepEveryTextStep(texts);
    }
  }

  /** How many texts start with "question". */
  function CountQuestionStarts(texts: seq<string>): nat {
    if texts == [] then 0
    else CountQuestionStarts(texts[..|texts| - 1]) + (if IsQuestionStart(texts[|texts| - 1]) then 1 else 0)
  }

  /** One unit per "question" text, plus one for a first text that does not start with "question". */
  lemma {:induction false} UnitCount(texts: seq<string>)
    ensures |Units(texts)| == CountQuestionStarts(texts) + (if texts != [] && !IsQuestionStart(texts[0]) then 1 else 0)
  {
    if texts != [] {
      var prior := texts[..|texts| - 1];
      UnitCount(prior);
      assert prior != [] ==> prior[0] == texts[0];
    }
  }

  /**
   * No questions when the first page is already a marker page (or there are no pages);
   * otherwise one question per "question" page before the marker page, plus one when
   * the first page does not start with "question".
   */
  lemma QuestionCount(pages: seq<string>)
    ensures var texts := LowerAll(pages);
            var m := FirstMarker(texts);
            var questions := Extract(pages).questions;
            && (m == 0 ==> questions == [])
            && |questions| == CountQuestionStarts(texts[..m]) + (if m > 0 && !IsQuestionStart(Lower(pages[0])) then 1 else 0)
  {
    var texts := LowerAll(pages);
    var m := FirstMarker(texts);
    ExtractMatchesUnits(pages);
    UnitCount(texts[..m]);
  }

  /** A document without pages gives no questions and no answers. */
  lemma EmptyDocument()
    ensures Extract([]) == Extraction([], [])
  {
  }

  lemma FirstMarkerIsThird(texts: seq<string>)
    requires |texts| >= 3 && !Contains(texts[0], Marker) && !Contains(texts[1], Marker) && Contains(texts[2], Marker)
    ensures FirstMarker(texts) == 2
  {
    assert FirstMarker(texts[1..][1..]) == 0;
  }

  lemma UnitsOfQuestionAndContinuation(question: string, continuation: string)
    requires IsQuestionStart(question) && !IsQuestionStart(continuation)
    ensures Units([question, continuation]) == [question + "\n" + continuation]
  {
    assert [question, continuation][..1] == [question];
  }

  /**
   * A five-page document whose page texts are already lowercase: a question page, a
   * continuation page, the marker page and two more pages. The first two pages form one
   * question, stripped; the marker page and the two after it are three answers, the marker
   * page first.
   */
  lemma FivePageDocument(question: string, continuation: string, markerPage: string, answer1: string, answer2: string)
    requires Lower(question) == question && Lower(continuation) == continuation
    requires Lower(markerPage) == markerPage && Lower(answer1) == answer1 && Lower(answer2) == answer2
    requires IsQuestionStart(question) && !Contains(question, Marker)
    requires !IsQuestionStart(continuation) && !Contains(continuation, Marker)
    requires Contains(markerPage, Marker)
    ensures Extract([question, continuation, markerPage, answer1, answer2])
         == Extraction([Strip(question + "\n" + continuation)], [markerPage, answer1, answer2])
  {
    var texts := [question, continuation, markerPage, answer1, answer2];
    var unit := question + "\n" + continuation;
    assert LowerAll(texts) == texts by {
      LowercaseDocument(texts);
    }
    FirstMarkerIsThird(texts);
    assert Units(texts[..2]) == [unit] by {
      assert texts[..2] == [question, continuation];
      UnitsOfQuestionAndContinuation(question, continuation);
    }
    OneQuestionThenAnswers(texts, unit);
    assert texts[2..] == [markerPage, answer1, answer2];
  }

  lemma LowercaseDocument(pages: seq<string>)
    requires forall k :: 0 <= k < |pages| ==> Lower(pages[k]) == pages[k]
    ensures LowerAll(pages) == pages
  {
  }

  lemma OneQuestionThenAnswers(texts: seq<string>, unit: string)
    requires FirstMarker(texts) == 2 && Units(texts[..2]) == [unit]
    ensures Flush(Run(texts)) == Extraction([Strip(unit)], texts[2..])
  {
    assert StripAll([unit]) == [Strip(unit)];
    FlushRunMatchesUnits(texts);
  }
}
