/** Text-to-emoji translation (src/App.jsx:53-102): a cursor walks the
    lower-cased input; at each position the longest phrase key followed by a
    word boundary wins, otherwise the whole word run is looked up (with a naive
    plural fallback), otherwise the single character is copied. */
module Forward {
  import opened Chars

  // ---------------------------------------------------------------------
  // Phrase matching

  /** Phrase `p` matches the lower-cased text at `i`: the text continues with
      exactly `p`, and the position after it is end-of-text or a non-word character. */
  predicate Matches(text: string, i: nat, p: string) {
    i + |p| <= |text| && text[i..i + |p|] == p
    && (i + |p| == |text| || !IsWordChar(text[i + |p|]))
  }

  /** Two phrases of the same length cannot both match at one position, so the
      order in which equal-length phrases are tried does not matter. */
  lemma MatchUnique(text: string, i: nat, p: string, q: string)
    requires Matches(text, i, p) && Matches(text, i, q) && |p| == |q|
    ensures p == q
  {
  }

  /** The longest phrase key of length at most `len` that matches at `i`. */
  function LongestUpTo(text: string, i: nat, multi: map<string, string>, len: nat): (r: Option<string>)
    requires i + len <= |text|
    ensures r.Some? ==> r.value in multi && Matches(text, i, r.value) && 0 < |r.value| <= len
    decreases len
  {
    if len == 0 then None
    else if text[i..i + len] in multi && Matches(text, i, text[i..i + len]) then Some(text[i..i + len])
    else LongestUpTo(text, i, multi, len - 1)
  }

  /** No matching key within the length bound is longer than the one found. */
  lemma {:induction false} LongestUpToMaximal(text: string, i: nat, multi: map<string, string>, len: nat, q: string)
    requires i + len <= |text|
    requires q in multi && Matches(text, i, q) && 0 < |q| <= len
    ensures LongestUpTo(text, i, multi, len).Some? && |q| <= |LongestUpTo(text, i, multi, len).value|
    decreases len
  {
    if !(text[i..i + len] in multi && Matches(text, i, text[i..i + len])) {
      LongestUpToMaximal(text, i, multi, len - 1, q);
    }
  }

  /** The phrase chosen at `i`: the longest matching key, found by trying every
      length from the longest possible down (`None` when no key matches). */
  function PhraseAt(text: string, i: nat, multi: map<string, string>): Option<string>
    requires i <= |text|
  {
    LongestUpTo(text, i, multi, |text| - i)
  }

  /** Longest-match precedence: the chosen phrase is a matching key of maximal
      length, and none is chosen exactly when no key matches. */
  lemma PhraseAtSpec(text: string, i: nat, multi: map<string, string>)
    requires i <= |text|
    requires "" !in multi
    ensures PhraseAt(text, i, multi).Some? ==>
              var p := PhraseAt(text, i, multi).value;
              p in multi && Matches(text, i, p)
              && forall q :: q in multi && Matches(text, i, q) ==> |q| <= |p|
    ensures PhraseAt(text, i, multi).None? <==> forall q :: q in multi ==> !Matches(text, i, q)
  {
    forall q | q in multi && Matches(text, i, q)
      ensures PhraseAt(text, i, multi).Some? && |q| <= |PhraseAt(text, i, multi).value|
    {
      assert q != "";
      LongestUpToMaximal(text, i, multi, |text| - i, q);
    }
  }

  /** The phrase loop of the source (lines 62-71), over the keys of the phrase
      map: instead of sorting by length and taking the first match, it keeps
      the longest match seen, which yields the same phrase. */
  method LongestPhrase(text: string, i: nat, multi: map<string, string>) returns (best: Option<string>)
    requires i <= |text|
    requires "" !in multi
    ensures best == PhraseAt(text, i, multi)
  {
    best := None;
    var rest := multi.Keys;
    while rest != {}
      invariant rest <= multi.Keys
      invariant best.Some? ==> best.value in multi && Matches(text, i, best.value)
      invariant forall q :: q in multi && q !in rest && Matches(text, i, q) ==> best.Some? && |q| <= |best.value|
      decreases |rest|
    {
      var phrase :| phrase in rest;
      // `text.substring(i, i + phrase.length)` stops at the end of the text
      var end := if i + |phrase| <= |text| then i + |phrase| else |text|;
      if text[i..end] == phrase && (i + |phrase| == |text| || !IsWordChar(text[i + |phrase|])) {
        if best.None? || |phrase| > |best.value| {
          best := Some(phrase);
        }
      }
      rest := rest - {phrase};
    }
    PhraseAtSpec(text, i, multi);
    if best.Some? {
      MatchUnique(text, i, best.value, PhraseAt(text, i, multi).value);
    }
  }

  // ---------------------------------------------------------------------
  // Words

  /** End of the maximal run of word characters starting at `i`. */
  function WordEnd(text: string, i: nat): (e: nat)
    requires i <= |text|
    ensures i <= e <= |text|
    ensures e == |text| || !IsWordChar(text[e])
    decreases |text| - i
  {
    if i < |text| && IsWordChar(text[i]) then WordEnd(text, i + 1) else i
  }

  /** Every character between `i` and the word end is a word character. */
  lemma {:induction false} WordEndRun(text: string, i: nat)
    requires i <= |text|
    ensures forall k :: i <= k < WordEnd(text, i) ==> IsWordChar(text[k])
    decreases |text| - i
  {
    if i < |text| && IsWordChar(text[i]) {
      WordEndRun(text, i + 1);
    }
  }

  /** The scan of lines 75-78. */
  method ScanWord(text: string, i: nat) returns (wordEnd: nat)
    requires i <= |text|
    ensures wordEnd == WordEnd(text, i)
  {
    wordEnd := i;
    while wordEnd < |text| && IsWordChar(text[wordEnd])
      invariant i <= wordEnd <= |text|
      invariant forall k :: i <= k < wordEnd ==> IsWordChar(text[k])
    {
      wordEnd := wordEnd + 1;
    }
    WordEndUnique(text, i, wordEnd);
  }

  /** The word run is determined by its two defining properties. */
  lemma {:induction false} WordEndUnique(text: string, i: nat, e: nat)
    requires i <= e <= |text|
    requires forall k :: i <= k < e ==> IsWordChar(text[k])
    requires e == |text| || !IsWordChar(text[e])
    ensures e == WordEnd(text, i)
    decreases e - i
  {
    if i < e {
      WordEndUnique(text, i + 1, e);
    }
  }

  /** The output for a word run (lines 85-93): the single-word emoji of the
      lower-cased word if it is truthy, else that of the word without its final
      's' when it has one and is longer than one character, else the word in
      its original case. */
  function WordOutput(single: map<string, string>, word: string, original: string): (r: string)
    ensures r == original || r in single.Values
  {
    var emoji := Get(single, word);
    if Truthy(emoji) then emoji.value
    else if |word| > 1 && word[|word| - 1] == 's' && Truthy(Get(single, word[..|word| - 1]))
    then single[word[..|word| - 1]]
    else original
  }

  lemma WordOutputSpec(single: map<string, string>, word: string, original: string)
    ensures word in single && single[word] != "" ==> WordOutput(single, word, original) == single[word]
    ensures (word !in single || single[word] == "") && |word| > 1 && word[|word| - 1] == 's'
            && word[..|word| - 1] in single && single[word[..|word| - 1]] != ""
            ==> WordOutput(single, word, original) == single[word[..|word| - 1]]
    ensures !Truthy(Get(single, word))
            && !(|word| > 1 && word[|word| - 1] == 's' && Truthy(Get(single, word[..|word| - 1])))
            ==> WordOutput(single, word, original) == original
  {
  }

  // ---------------------------------------------------------------------
  // One step of the cursor loop, and the whole translation

  /** The cursor is never strictly inside a run of word characters. */
  predicate NotInsideWord(text: string, i: nat)
    requires i <= |text|
  {
    i == 0 || i == |text| || !IsWordChar(text[i - 1]) || !IsWordChar(text[i])
  }

  /** What one pass of the loop body emits, and where the cursor goes. */
  datatype Step = Step(out: string, next: nat)

  function StepAt(input: string, single: map<string, string>, multi: map<string, string>, i: nat): (r: Step)
    requires i < |input|
    ensures i < r.next <= |input|
  {
    var text := LowerStr(input);
    match PhraseAt(text, i, multi)
    case Some(p) => Step(multi[p], i + |p|)
    case None =>
      var e := WordEnd(text, i);
      if e > i then Step(WordOutput(single, text[i..e], input[i..e]), e)
      else Step([input[i]], i + 1)
  }

  /** A step never leaves the cursor strictly inside a run of word characters. */
  lemma StepNotInsideWord(input: string, single: map<string, string>, multi: map<string, string>, i: nat)
    requires i < |input|
    ensures NotInsideWord(LowerStr(input), StepAt(input, single, multi, i).next)
  {
  }

  /** The translation of `input[i..]`. */
  function TranslateFrom(input: string, single: map<string, string>, multi: map<string, string>, i: nat): string
    requires i <= |input|
    decreases |input| - i
  {
    if i == |input| then ""
    else
      var s := StepAt(input, single, multi, i);
      s.out + TranslateFrom(input, single, multi, s.next)
  }

  lemma TranslateFromUnfold(input: string, single: map<string, string>, multi: map<string, string>, i: nat)
    requires i < |input|
    ensures TranslateFrom(input, single, multi, i)
         == StepAt(input, single, multi, i).out
            + TranslateFrom(input, single, multi, StepAt(input, single, multi, i).next)
  {
  }

  /** `translateText` in the text-to-emoji direction. */
  function ToEmoji(input: string, single: map<string, string>, multi: map<string, string>): string {
    TranslateFrom(input, single, multi, 0)
  }

  /** One pass of the loop body (lines 59-99): the piece pushed to `results`
      and the new cursor. */
  method Advance(inputText: string, text: string, singleWordMap: map<string, string>,
                 multiWordMap: map<string, string>, i: nat) returns (piece: string, next: nat)
    requires text == LowerStr(inputText) && i < |text|
    requires "" !in multiWordMap
    ensures Step(piece, next) == StepAt(inputText, singleWordMap, multiWordMap, i)
  {
    var matched := false;
    var phrase := LongestPhrase(text, i, multiWordMap);
    if phrase.Some? {
      piece, next := multiWordMap[phrase.value], i + |phrase.value|;
      matched := true;
    }
    if !matched {
      var wordEnd := ScanWord(text, i);
      if wordEnd > i {
        var word := text[i..wordEnd];
        var originalWord := inputText[i..wordEnd];
        piece := LookupWord(singleWordMap, word, originalWord);
        next := wordEnd;
      } else {
        piece, next := [inputText[i]], i + 1;
      }
    }
  }

  /** The lookup of lines 85-93 for one word run, with its plural fallback. */
  method LookupWord(singleWordMap: map<string, string>, word: string, originalWord: string)
    returns (piece: string)
    requires |word| > 0
    ensures piece == WordOutput(singleWordMap, word, originalWord)
  {
    var emoji := Get(singleWordMap, word);
    if !Truthy(emoji) && word[|word| - 1] == 's' && |word| > 1 {
      emoji := Get(singleWordMap, word[..|word| - 1]);
    }
    piece := if Truthy(emoji) then emoji.value else originalWord;
  }

  /** The cursor loop of lines 54-102. */
  method TranslateToEmoji(inputText: string, singleWordMap: map<string, string>,
                          multiWordMap: map<string, string>) returns (translated: string)
    requires "" !in multiWordMap
    ensures translated == ToEmoji(inputText, singleWordMap, multiWordMap)
  {
    var text := LowerStr(inputText);
    var results: seq<string> := [];
    var i := 0;
    while i < |text|
      invariant 0 <= i <= |text|
      invariant NotInsideWord(text, i)
      invariant Join(results) + TranslateFrom(inputText, singleWordMap, multiWordMap, i)
             == ToEmoji(inputText, singleWordMap, multiWordMap)
      decreases |text| - i
    {
      var piece, next := Advance(inputText, text, singleWordMap, multiWordMap, i);
      StepNotInsideWord(inputText, singleWordMap, multiWordMap, i);
      ghost var rest := TranslateFrom(inputText, singleWordMap, multiWordMap, next);
      assert TranslateFrom(inputText, singleWordMap, multiWordMap, i) == piece + rest by {
        TranslateFromUnfold(inputText, singleWordMap, multiWordMap, i);
      }
      JoinSnoc(results, piece);
      ConcatAssoc(Join(results), piece, rest);
      results := results + [piece];
      i := next;
    }
    translated := Join(results);
  }

  // ---------------------------------------------------------------------
  // Properties of the translation

  /** Precedence at one position (lines 62-99): a matching phrase of maximal
      length wins and is consumed whole; otherwise the whole word run is
      consumed and looked up; otherwise exactly the original character is
      copied and the cursor moves by one. */
  lemma StepSpec(input: string, single: map<string, string>, multi: map<string, string>, i: nat)
    requires i < |input|
    requires "" !in multi
    ensures var text := LowerStr(input);
            var s := StepAt(input, single, multi, i);
            && ((exists q :: q in multi && Matches(text, i, q)) ==>
                  exists p :: p in multi && Matches(text, i, p) && s == Step(multi[p], i + |p|)
                              && forall q :: q in multi && Matches(text, i, q) ==> |q| <= |p|)
            && ((forall q :: q in multi ==> !Matches(text, i, q)) && IsWordChar(text[i]) ==>
                  s == Step(WordOutput(single, text[i..WordEnd(text, i)], input[i..WordEnd(text, i)]), WordEnd(text, i)))
            && ((forall q :: q in multi ==> !Matches(text, i, q)) && !IsWordChar(text[i]) ==>
                  s == Step([input[i]], i + 1))
  {
    var text := LowerStr(input);
    PhraseAtSpec(text, i, multi);
    if exists q :: q in multi && Matches(text, i, q) {
      var p := PhraseAt(text, i, multi).value;
      assert p in multi && Matches(text, i, p);
    }
  }

  /** The dictionary has no hit in `input`: no phrase key matches anywhere
      and no single-word value is truthy. */
  predicate NoHits(input: string, single: map<string, string>, multi: map<string, string>) {
    && (forall q, j :: q in multi && 0 <= j <= |input| ==> !Matches(LowerStr(input), j, q))
    && (forall w :: w in single ==> single[w] == "")
  }

  /** Without hits, each step copies exactly the span it consumes. */
  lemma NoHitsStep(input: string, single: map<string, string>, multi: map<string, string>, i: nat)
    requires i < |input|
    requires "" !in multi
    requires NoHits(input, single, multi)
    ensures StepAt(input, single, multi, i).out == input[i..StepAt(input, single, multi, i).next]
  {
    var text := LowerStr(input);
    assert PhraseAt(text, i, multi).None? by {
      assert forall q :: q in multi ==> !Matches(text, i, q);
      PhraseAtSpec(text, i, multi);
    }
    var e := WordEnd(text, i);
    if e > i {
      assert WordOutput(single, text[i..e], input[i..e]) == input[i..e];
    } else {
      assert [input[i]] == input[i..i + 1];
    }
  }

  /** Without hits the translation is the input itself. */
  lemma {:induction false} NoHitsIdentity(input: string, single: map<string, string>,
                                          multi: map<string, string>, i: nat)
    requires i <= |input|
    requires "" !in multi
    requires NoHits(input, single, multi)
    ensures TranslateFrom(input, single, multi, i) == input[i..]
    decreases |input| - i
  {
    if i < |input| {
      var s := StepAt(input, single, multi, i);
      assert s.out == input[i..s.next] by {
        NoHitsStep(input, single, multi, i);
      }
      assert TranslateFrom(input, single, multi, s.next) == input[s.next..] by {
        NoHitsIdentity(input, single, multi, s.next);
      }
      calc {
        TranslateFrom(input, single, multi, i);
        == { TranslateFromUnfold(input, single, multi, i); }
        s.out + TranslateFrom(input, single, multi, s.next);
        == input[i..s.next] + input[s.next..];
        == input[i..];
      }
    }
  }

  /** `input` holds no word character and no phrase key matches anywhere in it
      (whitespace and punctuation, say). A phrase key can hold punctuation next
      to its space, so the phrase condition cannot be dropped. */
  predicate NonWordText(input: string, multi: map<string, string>) {
    && (forall q, j :: q in multi && 0 <= j <= |input| ==> !Matches(LowerStr(input), j, q))
    && (forall k :: 0 <= k < |input| ==> !IsWordChar(LowerStr(input)[k]))
  }

  /** In such a text every step copies exactly the character at the cursor. */
  lemma NonWordStep(input: string, single: map<string, string>, multi: map<string, string>, i: nat)
    requires i < |input|
    requires NonWordText(input, multi)
    ensures StepAt(input, single, multi, i) == Step([input[i]], i + 1)
  {
    var text := LowerStr(input);
    assert forall q :: q in multi ==> !Matches(text, i, q);
    assert PhraseAt(text, i, multi).None?;
    assert !IsWordChar(text[i]);
    assert WordEnd(text, i) == i;
  }

  /** When every step from `i` on copies the single character at the cursor,
      the translation of `input[i..]` is `input[i..]`. */
  lemma {:induction false} CharByCharIdentity(input: string, single: map<string, string>,
                                              multi: map<string, string>, i: nat)
    requires i <= |input|
    requires forall j :: i <= j < |input| ==> StepAt(input, single, multi, j) == Step([input[j]], j + 1)
    ensures TranslateFrom(input, single, multi, i) == input[i..]
    decreases |input| - i
  {
    if i < |input| {
      CharByCharIdentity(input, single, multi, i + 1);
      CopyStep(input, single, multi, i);
    }
  }

  /** A step that copies the character at the cursor, followed by an unchanged rest. */
  lemma CopyStep(input: string, single: map<string, string>, multi: map<string, string>, i: nat)
    requires i < |input|
    requires StepAt(input, single, multi, i) == Step([input[i]], i + 1)
    requires TranslateFrom(input, single, multi, i + 1) == input[i + 1..]
    ensures TranslateFrom(input, single, multi, i) == input[i..]
  {
    TranslateFromUnfold(input, single, multi, i);
    assert input[i..] == [input[i]] + input[i + 1..];
  }

  /** Whatever the single-word map holds, such a text comes back unchanged. */
  lemma NonWordIdentity(input: string, single: map<string, string>, multi: map<string, string>)
    requires NonWordText(input, multi)
    ensures ToEmoji(input, single, multi) == input
  {
    forall j | 0 <= j < |input| ensures StepAt(input, single, multi, j) == Step([input[j]], j + 1) {
      NonWordStep(input, single, multi, j);
    }
    CharByCharIdentity(input, single, multi, 0);
  }

  /** Identity on an empty dictionary. */
  lemma EmptyDictionaryIdentity(input: string)
    ensures ToEmoji(input, map[], map[]) == input
  {
    NoHitsIdentity(input, map[], map[], 0);
  }

  // ---------------------------------------------------------------------
  // The word lookup as the source writes it

  /** What `singleWordMap[word]` reads on a JavaScript object literal: own keys
      (a write to "__proto__" does not create one), and otherwise the two
      all-lower-case names every object inherits, shown as `join` prints them. */
  function JsObjectGet(m: map<string, string>, k: string): (r: Option<string>)
    ensures k in m && k != "__proto__" ==> r == Some(m[k])
    ensures k == "constructor" && k !in m ==> r == Some("function Object() { [native code] }")
  {
    if k in m && k != "__proto__" then Some(m[k])
    else if k == "constructor" then Some("function Object() { [native code] }")
    else if k == "__proto__" then Some("[object Object]")
    else None
  }

  /** Lines 85-93 as written, reading the map through `JsObjectGet`. */
  function WordOutputAsWritten(single: map<string, string>, word: string, original: string): (r: string)
    ensures r == original || r in single.Values
            || r == "function Object() { [native code] }" || r == "[object Object]"
  {
    var emoji := JsObjectGet(single, word);
    if Truthy(emoji) then emoji.value
    else if |word| > 1 && word[|word| - 1] == 's' && Truthy(JsObjectGet(single, word[..|word| - 1]))
    then JsObjectGet(single, word[..|word| - 1]).value
    else original
  }

  /** With an empty dictionary the word "Constructor" (and "constructors")
      is replaced by the text of `Object`'s function instead of passing through. */
  lemma InheritedKeyCounterexample()
    ensures WordOutputAsWritten(map[], "constructor", "Constructor") == "function Object() { [native code] }"
    ensures WordOutputAsWritten(map[], "constructors", "Constructors") == "function Object() { [native code] }"
    ensures WordOutput(map[], "constructor", "Constructor") == "Constructor"
    ensures WordOutput(map[], "constructors", "Constructors") == "Constructors"
  {
    assert "constructors"[..11] == "constructor";
  }

  /** The two lookups agree on every word other than the inherited names and
      those names with a final 's'. */
  lemma WordOutputAgrees(single: map<string, string>, word: string, original: string)
    requires word != "constructor" && word != "__proto__"
    requires |word| > 1 && word[|word| - 1] == 's' ==>
               word[..|word| - 1] != "constructor" && word[..|word| - 1] != "__proto__"
    requires "__proto__" !in single
    ensures WordOutputAsWritten(single, word, original) == WordOutput(single, word, original)
  {
  }
}
