/**
 * `search_support_opposition`: a headline's stance from two ordered phrase
 * lists, by case-sensitive substring tests; support phrases are tried first.
 */
module Stance {
  import opened Strings

  const SupportKeywords: seq<string> :=
    ["stands with Israel", "supports Israel", "in favor of Israel", "with Israel", "attack on Israel"]

  const OppositionKeywords: seq<string> :=
    ["against Israel", "opposes Israel", "condemns Israel", "Hamas Attack", "Genocide", "accuses Israel"]

  /** The `for keyword in keywords: if keyword in text` scan: does any phrase occur? */
  function AnyKeywordIn(keywords: seq<string>, text: string): (found: bool)
    ensures found <==> exists k :: 0 <= k < |keywords| && Contains(text, keywords[k])
    decreases |keywords|
  {
    if keywords == [] then false
    else if Contains(text, keywords[0]) then true
    else
      assert forall k :: 1 <= k < |keywords| ==> keywords[k] == keywords[1..][k - 1];
      AnyKeywordIn(keywords[1..], text)
  }

  /**
   * 1 (support) when a support phrase occurs, even alongside an opposition
   * phrase; otherwise -1 (opposition) when an opposition phrase occurs;
   * otherwise 0.
   */
  function SearchSupportOpposition(text: string): (stance: int)
    ensures stance in {-1, 0, 1}
    ensures stance == 1 <==> exists k :: 0 <= k < |SupportKeywords| && Contains(text, SupportKeywords[k])
    ensures stance == -1 <==>
      (forall k :: 0 <= k < |SupportKeywords| ==> !Contains(text, SupportKeywords[k]))
      && (exists k :: 0 <= k < |OppositionKeywords| && Contains(text, OppositionKeywords[k]))
  {
    if AnyKeywordIn(SupportKeywords, text) then 1
    else if AnyKeywordIn(OppositionKeywords, text) then -1
    else 0
  }

  /** A phrase placed in the text is found: the witness is where it was placed. */
  lemma ContainsPlaced(pre: string, pat: string, post: string)
    ensures Contains(pre + pat + post, pat)
  {
    assert (pre + pat + post)[|pre|..|pre| + |pat|] == pat;
    assert OccursAt(pre + pat + post, pat, |pre|);
  }

  /** A phrase longer than the text cannot occur in it. */
  lemma TooLongToOccur(text: string, pat: string)
    requires |text| < |pat|
    ensures !Contains(text, pat)
  {
  }

  /** Support wins even when an opposition phrase occurs too. */
  lemma SupportWins(pre: string, post: string)
    ensures SearchSupportOpposition(pre + "stands with Israel" + post + "Hamas Attack") == 1
  {
    ContainsPlaced(pre, "stands with Israel", post + "Hamas Attack");
    assert pre + "stands with Israel" + post + "Hamas Attack" == pre + "stands with Israel" + (post + "Hamas Attack");
    assert SupportKeywords[0] == "stands with Israel";
  }

  /** A lone opposition phrase gives -1. */
  lemma OppositionExample()
    ensures SearchSupportOpposition("Genocide") == -1
  {
    forall k | 0 <= k < |SupportKeywords| ensures !Contains("Genocide", SupportKeywords[k]) {
      TooLongToOccur("Genocide", SupportKeywords[k]);
    }
    assert OccursAt("Genocide", OppositionKeywords[4], 0);
  }

  /** Matching is case-sensitive: the upper-case phrase is neutral. */
  lemma CaseSensitive()
    ensures SearchSupportOpposition("GENOCIDE") == 0
  {
    forall k | 0 <= k < |SupportKeywords| ensures !Contains("GENOCIDE", SupportKeywords[k]) {
      TooLongToOccur("GENOCIDE", SupportKeywords[k]);
    }
    forall k | 0 <= k < |OppositionKeywords| ensures !Contains("GENOCIDE", OppositionKeywords[k]) {
      if k == 4 {
        forall i | 0 <= i ensures !OccursAt("GENOCIDE", "Genocide", i) {
          if i == 0 {
            assert "GENOCIDE"[0..8][1] == 'E' != "Genocide"[1];
          }
        }
      } else {
        TooLongToOccur("GENOCIDE", OppositionKeywords[k]);
      }
    }
  }
}
