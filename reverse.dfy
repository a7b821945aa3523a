/** Emoji-to-text translation (src/App.jsx:46-51): every character of the
    input is replaced by the first keyword of its reverse-map entry, or kept. */
module Reverse {
  import opened Chars

  /** `keywords ? keywords[0] : char` for one character. `join` prints the
      `undefined` of an empty keyword list as the empty string. */
  function KeywordFor(emojiMap: map<string, seq<string>>, c: char): (r: string)
    ensures [c] in emojiMap && |emojiMap[[c]]| > 0 ==> r == emojiMap[[c]][0]
    ensures [c] in emojiMap && |emojiMap[[c]]| == 0 ==> r == ""
    ensures [c] !in emojiMap ==> r == [c]
  {
    if [c] in emojiMap then
      if |emojiMap[[c]]| > 0 then emojiMap[[c]][0] else ""
    else [c]
  }

  /** The translation: the pieces of the characters, in order. */
  function ToText(input: string, emojiMap: map<string, seq<string>>): string {
    if input == [] then ""
    else ToText(input[..|input| - 1], emojiMap) + KeywordFor(emojiMap, input[|input| - 1])
  }

  /** The `for...of` loop of lines 46-51. */
  method TranslateToText(inputText: string, emojiToKeywordsMap: map<string, seq<string>>)
    returns (translated: string)
    ensures translated == ToText(inputText, emojiToKeywordsMap)
  {
    var results: seq<string> := [];
    for k := 0 to |inputText|
      invariant Join(results) == ToText(inputText[..k], emojiToKeywordsMap)
    {
      var ch := inputText[k];
      var keywords := Get(emojiToKeywordsMap, [ch]);
      var piece := if keywords.Some? then (if |keywords.value| > 0 then keywords.value[0] else "") else [ch];
      JoinSnoc(results, piece);
      assert inputText[..k + 1][..k] == inputText[..k];
      results := results + [piece];
    }
    assert inputText[..|inputText|] == inputText;
    translated := Join(results);
  }

  /** The translation works character by character: it distributes over concatenation. */
  lemma {:induction false} ToTextAppend(a: string, b: string, emojiMap: map<string, seq<string>>)
    ensures ToText(a + b, emojiMap) == ToText(a, emojiMap) + ToText(b, emojiMap)
    decreases |b|
  {
    if b == [] {
      assert a + b == a;
    } else {
      var b' := b[..|b| - 1];
      assert (a + b)[..|a + b| - 1] == a + b';
      ToTextAppend(a, b', emojiMap);
    }
  }

  /** A character the map does not know passes through unchanged; so with no
      known character (in particular with an empty map) the output is the input. */
  lemma {:induction false} ToTextIdentity(input: string, emojiMap: map<string, seq<string>>)
    requires forall k :: 0 <= k < |input| ==> [input[k]] !in emojiMap
    ensures ToText(input, emojiMap) == input
    decreases |input|
  {
    if input != [] {
      var pre := input[..|input| - 1];
      ToTextIdentity(pre, emojiMap);
      assert input == pre + [input[|input| - 1]];
    }
  }

  lemma EmptyReverseIdentity(input: string)
    ensures ToText(input, map[]) == input
  {
    ToTextIdentity(input, map[]);
  }

  /** Lookups are one character wide: an entry whose glyph is not exactly one
      character (an emoji built from several code points) is never used. */
  lemma {:induction false} WideGlyphsIgnored(input: string, emojiMap: map<string, seq<string>>, glyph: string)
    requires |glyph| != 1
    ensures ToText(input, emojiMap - {glyph}) == ToText(input, emojiMap)
    decreases |input|
  {
    if input != [] {
      WideGlyphsIgnored(input[..|input| - 1], emojiMap, glyph);
      var c := input[|input| - 1];
      assert [c] != glyph;
      assert KeywordFor(emojiMap - {glyph}, c) == KeywordFor(emojiMap, c);
    }
  }
}
