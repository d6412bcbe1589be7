/**
 * `ModerationService` (backend/services/llm_service.py): a keyword blocklist
 * checked first, then the model's SAFE/UNSAFE verdict, failing open whenever
 * the model is unavailable.
 */
module Moderation {
  import opened PyText
  import opened LlmReply

  /** `(is_safe, reason)` as `moderate_content` returns it. */
  datatype Verdict = Verdict(isSafe: bool, reason: string)

  const Pass: Verdict := Verdict(true, "")

  const BlocklistKeywords: seq<string> := [
    "n-word", "k-word", "racial slur",
    "kill all", "death to", "genocide", "mass shooting",
    "white supremacy", "nazi", "holocaust denial"
  ]

  const ProhibitedTerms: string := "Content contains prohibited terms."
  const FlaggedByAi: string := "Flagged by AI moderation."

  /** Some keyword of `keywords` occurs in `text`: the early-return search of `_check_blocklist`. */
  function AnyKeywordIn(keywords: seq<string>, text: string): (found: bool)
    ensures found <==> exists j :: 0 <= j < |keywords| && Contains(text, keywords[j])
    decreases |keywords|
  {
    if keywords == [] then false
    else if Contains(text, keywords[0]) then true
    else
      var found := AnyKeywordIn(keywords[1..], text);
      assert found ==> exists j :: 0 <= j < |keywords| && Contains(text, keywords[j]) by {
        if found {
          var j :| 0 <= j < |keywords| - 1 && Contains(text, keywords[1..][j]);
          assert Contains(text, keywords[j + 1]);
        }
      }
      assert (exists j :: 0 <= j < |keywords| && Contains(text, keywords[j])) ==> found by {
        if j :| 0 <= j < |keywords| && Contains(text, keywords[j]) {
          assert j != 0;
          assert Contains(text, keywords[1..][j - 1]);
        }
      }
      found
  }

  /** `_check_blocklist`: rejects exactly when a keyword occurs in the lower-cased text. */
  function CheckBlocklist(text: string): (v: Verdict)
    ensures !v.isSafe <==> exists j :: 0 <= j < |BlocklistKeywords| && Contains(Lower(text), BlocklistKeywords[j])
    ensures v.isSafe ==> v == Pass
    ensures !v.isSafe ==> v == Verdict(false, ProhibitedTerms)
  {
    if AnyKeywordIn(BlocklistKeywords, Lower(text)) then Verdict(false, ProhibitedTerms) else Pass
  }

  /** Reading the model's reply: a reply that starts with UNSAFE, in any case, flags the text. */
  function ParseVerdict(raw: string): (v: Verdict)
    ensures v.isSafe <==> !StartsWith(Upper(Strip(raw)), "UNSAFE")
    ensures v.isSafe ==> v == Pass
  {
    var result := Strip(raw);
    if StartsWith(Upper(result), "UNSAFE") then
      var lines := Split(result, '\n');
      Verdict(false, if |lines| > 1 then Strip(lines[1]) else FlaggedByAi)
    else
      Pass
  }

  /**
   * `moderate_content`: the blocklist decides first and a rejection from it is
   * final; otherwise the model's verdict counts, and without a client or when
   * the call raises, the text passes.
   */
  function ModerateContent(text: string, reply: Reply): (v: Verdict)
    ensures !CheckBlocklist(text).isSafe ==> v == CheckBlocklist(text)
    ensures CheckBlocklist(text).isSafe && !reply.Answer? ==> v == Pass
    ensures CheckBlocklist(text).isSafe && reply.Answer? ==> v == ParseVerdict(reply.text)
    ensures v.isSafe ==> v == Pass
  {
    var blocked := CheckBlocklist(text);
    if !blocked.isSafe then blocked
    else
      match reply
      case Answer(raw) => ParseVerdict(raw)
      case NoClient => Pass
      case Failure => Pass
  }

  /** Every keyword is already lower-case, so lower-casing the text is enough to match any casing. */
  lemma KeywordsAreLowerCase()
    ensures forall j :: 0 <= j < |BlocklistKeywords| ==> Lower(BlocklistKeywords[j]) == BlocklistKeywords[j]
  {
  }

  /** The blocklist verdict does not depend on letter case. */
  lemma BlocklistIgnoresCase(text: string, other: string)
    requires SameUpToCase(text, other)
    ensures CheckBlocklist(text) == CheckBlocklist(other)
  {
    SameUpToCaseLower(text, other);
  }

  /** Shouting a text does not get it past the blocklist. */
  lemma BlocklistIgnoresUpperCase(text: string)
    ensures CheckBlocklist(Upper(text)) == CheckBlocklist(text)
  {
    UpperSameUpToCase(text);
    BlocklistIgnoresCase(Upper(text), text);
  }

  /** A keyword written in any mix of cases, anywhere in the text, is rejected. */
  lemma BlocklistCatchesAnyCasing(text: string, j: nat, i: nat)
    requires j < |BlocklistKeywords|
    requires i + |BlocklistKeywords[j]| <= |text|
    requires SameUpToCase(text[i..i + |BlocklistKeywords[j]|], BlocklistKeywords[j])
    ensures CheckBlocklist(text) == Verdict(false, ProhibitedTerms)
  {
    var keyword := BlocklistKeywords[j];
    var lowered := Lower(text);
    SameUpToCaseLower(text[i..i + |keyword|], keyword);
    KeywordsAreLowerCase();
    assert lowered[i..i + |keyword|] == Lower(text[i..i + |keyword|]);
    assert OccursAt(lowered, keyword, i);
  }

  /** A flagged reply gives as reason its second line, stripped. */
  lemma UnsafeReasonIsSecondLine(raw: string, first: string, second: string, rest: string)
    requires Strip(raw) == first + "\n" + second + rest
    requires '\n' !in first && '\n' !in second
    requires rest == [] || rest[0] == '\n'
    requires StartsWith(Upper(Strip(raw)), "UNSAFE")
    ensures ParseVerdict(raw) == Verdict(false, Strip(second))
  {
    SecondPiece(first, second, rest, '\n');
  }

  /** A flagged reply of a single line gives the fixed reason. */
  lemma UnsafeSingleLine(raw: string)
    requires '\n' !in Strip(raw)
    requires StartsWith(Upper(Strip(raw)), "UNSAFE")
    ensures ParseVerdict(raw) == Verdict(false, FlaggedByAi)
  {
  }
}
