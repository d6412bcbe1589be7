/**
 * `LLMService` (backend/services/llm_service.py): what the backend does with
 * the model's text before using it, and what it substitutes when there is
 * no model or the call raises.
 */
module LlmService {
  import opened PyText
  import opened LlmReply

  const Bullet: string := "\U{2022}"

  const NoClientSummary: string := "Voice contribution"
  const EmptySummary: string := "\U{2022} Voice contribution recorded"
  const FailedSummary: string := "\U{2022} Voice contribution"

  /** The characters `generate_opening_question` strips from both ends of the reply. */
  const Quotes: set<char> := {'"', '\''}

  /** A line whose stripped form starts with a bullet. */
  predicate IsBulletLine(line: string) {
    StartsWith(Strip(line), Bullet)
  }

  /** `sub` is `s` with some elements left out, the rest in their original order. */
  ghost predicate IsSubsequence(sub: seq<string>, s: seq<string>)
    decreases |s|
  {
    sub == [] || (s != [] && if sub[0] == s[0] then IsSubsequence(sub[1..], s[1..]) else IsSubsequence(sub, s[1..]))
  }

  /** The generator `line for line in lines if line.strip().startswith("•")`. */
  function BulletLines(lines: seq<string>): (kept: seq<string>)
    ensures forall x :: x in kept ==> IsBulletLine(x)
    ensures forall x :: IsBulletLine(x) ==> multiset(kept)[x] == multiset(lines)[x]
    ensures IsSubsequence(kept, lines)
    decreases |lines|
  {
    if lines == [] then []
    else
      var rest := BulletLines(lines[1..]);
      assert lines == [lines[0]] + lines[1..];
      if IsBulletLine(lines[0]) then [lines[0]] + rest else rest
  }

  /** A line that begins with the bullet character is a bullet line. */
  lemma BulletStartIsBulletLine(line: string)
    requires line != [] && line[0] == Bullet[0]
    ensures IsBulletLine(line)
  {
    assert Bullet[0] !in Whitespace;
    assert TrimStart(line, Whitespace) == line;
    var post := TrimEndSplits(line, Whitespace);
    var r := TrimEnd(line, Whitespace);
    assert line[0] in line;
    assert |r| > 0;
  }

  /** A text that begins with the bullet character has a bullet line first. */
  lemma BulletStartFirstLine(s: string)
    requires s != [] && s[0] == Bullet[0]
    ensures IsBulletLine(Split(s, '\n')[0])
  {
    assert Bullet[0] != '\n';
    BulletStartIsBulletLine(Split(s, '\n')[0]);
  }

  /** The bullet filter only keeps lines it was given. */
  lemma BulletLinesFromInput(lines: seq<string>)
    ensures forall x :: x in BulletLines(lines) ==> x in lines
  {
    var kept := BulletLines(lines);
    forall x | x in kept ensures x in lines {
      assert multiset(kept)[x] == multiset(lines)[x];
      assert x in multiset(lines);
    }
  }

  /** Nothing the bullet filter keeps is empty. */
  lemma BulletLineNonEmpty(line: string)
    requires IsBulletLine(line)
    ensures line != []
  {
  }

  /** Post-processing of the summary text the model returned. */
  function CleanSummary(text: string): (summary: string)
    ensures summary != []
  {
    var stripped := Strip(text);
    var kept := if StartsWith(stripped, Bullet) then stripped
                else Join("\n", BulletLines(Split(stripped, '\n')));
    if kept == [] then EmptySummary else kept
  }

  /**
   * When the reply does not start with a bullet, the summary is made of
   * exactly its bullet lines, in order, one per line; with none of them, the
   * fixed placeholder.
   */
  lemma SummaryKeepsBulletLines(text: string)
    requires !StartsWith(Strip(text), Bullet)
    ensures var kept := BulletLines(Split(Strip(text), '\n'));
      if kept == [] then CleanSummary(text) == EmptySummary
      else Split(CleanSummary(text), '\n') == kept
  {
    var lines := Split(Strip(text), '\n');
    var kept := BulletLines(lines);
    if kept != [] {
      assert kept[0] in kept;
      BulletLineNonEmpty(kept[0]);
      assert CleanSummary(text) == Join("\n", kept);
      BulletLinesFromInput(lines);
      forall k | 0 <= k < |kept| ensures '\n' !in kept[k] {
        assert kept[k] in kept;
      }
      assert "\n" == ['\n'];
      SplitJoin(kept, '\n');
    }
  }

  /**
   * A reply whose stripped form already starts with a bullet is kept whole:
   * the summary has exactly the lines of the stripped reply, bullet or not.
   */
  lemma LeadingBulletKeepsReply(text: string)
    requires StartsWith(Strip(text), Bullet)
    ensures Split(CleanSummary(text), '\n') == Split(Strip(text), '\n')
  {
    assert CleanSummary(text) == Strip(text);
  }

  /**
   * In particular a non-bullet line after the leading bullet line survives
   * the clean-up, whatever it holds.
   */
  lemma LeadingBulletKeepsOtherLines(text: string, b: string, x: string)
    requires Strip(text) == b + "\n" + x
    requires StartsWith(b, Bullet) && '\n' !in b && '\n' !in x
    ensures Split(CleanSummary(text), '\n') == [b, x]
  {
    assert StartsWith(Strip(text), Bullet) by {
      assert Strip(text)[..|Bullet|] == b[..|Bullet|];
    }
    LeadingBulletKeepsReply(text);
    assert "\n" == ['\n'];
    SplitAtSeparator(b, x, '\n');
    SplitNoSeparator(x, '\n');
  }

  /** `transcribe_and_summarize_audio`: `("", summary)` with a summary that is never empty. */
  function SummarizeAudio(reply: Reply): (result: (string, string))
    ensures result.0 == []
    ensures result.1 != []
    ensures reply.NoClient? ==> result.1 == NoClientSummary
    ensures reply.Failure? ==> result.1 == FailedSummary
    ensures reply.Answer? ==> result.1 == CleanSummary(reply.text)
  {
    match reply
    case NoClient => ("", NoClientSummary)
    case Failure => ("", FailedSummary)
    case Answer(text) => ("", CleanSummary(text))
  }

  /** Whenever a model was configured, the first line of the summary is a bullet line. */
  lemma SummaryLeadsWithBullet(reply: Reply)
    requires !reply.NoClient?
    ensures IsBulletLine(Split(SummarizeAudio(reply).1, '\n')[0])
  {
    match reply
    case Failure =>
      BulletStartFirstLine(FailedSummary);
    case Answer(text) =>
      var stripped := Strip(text);
      if StartsWith(stripped, Bullet) {
        BulletStartFirstLine(stripped);
      } else {
        SummaryKeepsBulletLines(text);
        var kept := BulletLines(Split(stripped, '\n'));
        if kept == [] {
          BulletStartFirstLine(EmptySummary);
        } else {
          assert kept[0] in kept;
        }
      }
  }

  /**
   * `summarize_voice`: without a client the transcript is cut to 100
   * characters and marked with "..."; on an exception, a bullet holding its
   * first 50 characters; otherwise the model's text, stripped.
   */
  function SummarizeVoice(transcript: string, reply: Reply): (summary: string)
    ensures reply.NoClient? ==> |summary| <= 103 && StartsWith(summary, Take(transcript, 100))
    ensures reply.NoClient? && |transcript| <= 100 ==> summary == transcript
    ensures reply.NoClient? && |transcript| > 100 ==> |summary| == 103 && EndsWith(summary, "...")
    ensures reply.Failure? ==> && StartsWith(summary, "\U{2022} ") && EndsWith(summary, "...")
                               && 5 <= |summary| <= 55 && StartsWith(transcript, summary[2..|summary| - 3])
    ensures reply.Failure? ==> |summary| == 5 + (if |transcript| <= 50 then |transcript| else 50)
    ensures reply.Answer? ==> summary == Strip(reply.text)
  {
    match reply
    case NoClient => if |transcript| > 100 then Take(transcript, 100) + "..." else transcript
    case Failure => "\U{2022} " + Take(transcript, 50) + "..."
    case Answer(text) => Strip(text)
  }

  /** A question mark is appended exactly when missing, and nothing else changes. */
  function EnsureQuestionMark(text: string): (question: string)
    ensures question != [] && question[|question| - 1] == '?'
    ensures StartsWith(question, text) && |question| <= |text| + 1
    ensures |question| == |text| <==> EndsWith(text, "?")
  {
    if EndsWith(text, "?") then text else text + "?"
  }

  /** Clean-up of the opening question the model returned: surrounding quotes go, then the mark. */
  function CleanQuestion(raw: string): (question: string)
    ensures question != [] && question[|question| - 1] == '?'
    ensures question[0] !in Quotes
  {
    var unquoted := StripChars(Strip(raw), Quotes);
    var question := EnsureQuestionMark(unquoted);
    assert unquoted != [] ==> question[0] == unquoted[0];
    question
  }

  /**
   * The cleaned question is the reply with its surrounding whitespace and then
   * its surrounding quotes removed, marked as a question: whatever runs of
   * whitespace and of quotes surround the core, only the core is kept.
   */
  lemma CleanQuestionKeepsCore(ws1: string, q1: string, core: string, q2: string, ws2: string)
    requires AllIn(ws1, Whitespace) && AllIn(ws2, Whitespace)
    requires AllIn(q1, Quotes) && AllIn(q2, Quotes)
    requires core == [] || (core[0] !in Quotes && core[|core| - 1] !in Quotes)
    requires var quoted := q1 + core + q2;
      quoted == [] || (quoted[0] !in Whitespace && quoted[|quoted| - 1] !in Whitespace)
    ensures CleanQuestion(ws1 + q1 + core + q2 + ws2) == EnsureQuestionMark(core)
  {
    var quoted := q1 + core + q2;
    assert ws1 + q1 + core + q2 + ws2 == ws1 + quoted + ws2;
    StripCharsExact(ws1, quoted, ws2, Whitespace);
    StripCharsExact(q1, core, q2, Quotes);
  }

  /** `generate_opening_question`: always a question, never opening with a quote. */
  function GenerateOpeningQuestion(topic: string, reply: Reply): (question: string)
    ensures question != [] && question[|question| - 1] == '?'
    ensures question[0] != '"' && question[0] != '\''
    ensures !reply.Answer? ==> question == "What are your thoughts on " + topic + "?"
    ensures reply.Answer? ==> question == CleanQuestion(reply.text)
  {
    match reply
    case Answer(text) => CleanQuestion(text)
    case _ => "What are your thoughts on " + topic + "?"
  }
}
