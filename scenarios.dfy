/** Worked examples of the text-to-emoji direction, proved on concrete inputs. */
module Scenarios {
  import opened Chars
  import opened Forward

  /** "cats" with the word "cat" in the dictionary: the plural fallback finds it. */
  lemma PluralFallback()
    ensures ToEmoji("cats", map["cat" := "C"], map[]) == "C"
  {
    var input := "cats";
    var single := map["cat" := "C"];
    var multi: map<string, string> := map[];
    assert LowerStr(input) == input;
    assert PhraseAt(input, 0, multi).None?;
    WordEndUnique(input, 0, 4);
    assert input[0..4] == input && input[..3] == "cat";
    assert input !in single;
    assert WordOutput(single, input, input) == "C";
    assert StepAt(input, single, multi, 0) == Step("C", 4);
    TranslateFromUnfold(input, single, multi, 0);
  }

  /** "cat nap" with the phrase "cat nap" and the word "cat": the phrase wins. */
  lemma PhraseBeatsWord()
    ensures ToEmoji("cat nap", map["cat" := "A"], map["cat nap" := "B"]) == "B"
  {
    var input := "cat nap";
    var single := map["cat" := "A"];
    var multi := map["cat nap" := "B"];
    assert LowerStr(input) == input;
    assert input[0..7] == "cat nap";
    assert Matches(input, 0, "cat nap");
    PhraseAtSpec(input, 0, multi);
    assert PhraseAt(input, 0, multi) == Some("cat nap");
    assert StepAt(input, single, multi, 0) == Step("B", 7);
    TranslateFromUnfold(input, single, multi, 0);
  }

  /** "category" with the word "cat": a word is never matched in part. */
  lemma NoPartialWord()
    ensures ToEmoji("category", map["cat" := "A"], map[]) == "category"
  {
    var input := "category";
    var single := map["cat" := "A"];
    var multi: map<string, string> := map[];
    assert LowerStr(input) == input;
    assert PhraseAt(input, 0, multi).None?;
    WordEndUnique(input, 0, 8);
    assert input[0..8] == input;
    assert StepAt(input, single, multi, 0) == Step("category", 8);
    TranslateFromUnfold(input, single, multi, 0);
  }

  /** "Dogs" with the word "dog": the lookup ignores case and uses the plural fallback. */
  lemma CaseIgnored()
    ensures ToEmoji("Dogs", map["dog" := "D"], map[]) == "D"
  {
    var input := "Dogs";
    var text := "dogs";
    var single := map["dog" := "D"];
    var multi: map<string, string> := map[];
    assert LowerStr(input) == text;
    assert PhraseAt(text, 0, multi).None?;
    WordEndUnique(text, 0, 4);
    assert text[0..4] == text && text[..3] == "dog";
    assert text !in single;
    assert WordOutput(single, text, input) == "D";
    assert StepAt(input, single, multi, 0) == Step("D", 4);
    TranslateFromUnfold(input, single, multi, 0);
  }
}
