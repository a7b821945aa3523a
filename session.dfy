/** The component state of src/App.jsx:4-10 and the handlers that change it:
    loading the dictionary (lines 15-35), editing the input (line 211),
    translating (lines 43-104), clearing (lines 106-109) and swapping the
    direction (lines 111-115). */
module Session {
  import Indexer
  import Forward
  import Reverse

  /** The part of the state the user sees. */
  datatype View = View(inputText: string, translatedText: string, isReversed: bool)

  /** `clearText`: both texts emptied, direction kept. */
  function Cleared(v: View): (r: View)
    ensures r.inputText == "" && r.translatedText == "" && r.isReversed == v.isReversed
  {
    v.(inputText := "", translatedText := "")
  }

  /** `swapMode`: direction flipped, input and output exchanged. */
  function Swapped(v: View): (r: View)
    ensures r.isReversed != v.isReversed
    ensures r.inputText == v.translatedText && r.translatedText == v.inputText
  {
    View(v.translatedText, v.inputText, !v.isReversed)
  }

  /** Two swaps in a row restore the original state. */
  lemma SwapTwice(v: View)
    ensures Swapped(Swapped(v)) == v
  {
  }

  /** Clearing twice is clearing once. */
  lemma ClearTwice(v: View)
    ensures Cleared(Cleared(v)) == Cleared(v)
  {
  }

  /** The translation `translateText` stores for a given state. */
  function Translation(v: View, singleWordMap: map<string, string>, multiWordMap: map<string, string>,
                       emojiToKeywordsMap: map<string, seq<string>>): string
  {
    if v.isReversed then Reverse.ToText(v.inputText, emojiToKeywordsMap)
    else Forward.ToEmoji(v.inputText, singleWordMap, multiWordMap)
  }

  class App {
    var inputText: string
    var translatedText: string
    var isLoading: bool
    var singleWordMap: map<string, string>
    var multiWordMap: map<string, string>
    var emojiToKeywordsMap: map<string, seq<string>>
    var isReversed: bool

    /** Every phrase key holds a space, as the indexer guarantees. */
    ghost predicate Valid()
      reads this
    {
      forall p :: p in multiWordMap ==> Indexer.IsPhrase(p)
    }

    function CurrentView(): View
      reads this
    {
      View(inputText, translatedText, isReversed)
    }

    /** The initial state of the `useState` calls. */
    constructor ()
      ensures Valid()
      ensures CurrentView() == View("", "", false) && isLoading
      ensures singleWordMap == map[] && multiWordMap == map[] && emojiToKeywordsMap == map[]
    {
      inputText := "";
      translatedText := "";
      isLoading := true;
      singleWordMap := map[];
      multiWordMap := map[];
      emojiToKeywordsMap := map[];
      isReversed := false;
    }

    /** A successful load: the three indices are built from the records and
      the loading flag drops; the texts are untouched. */
    method Load(records: seq<Indexer.Record>)
      modifies this
      ensures Valid()
      ensures singleWordMap == Indexer.SingleIndex(records)
      ensures multiWordMap == Indexer.PhraseIndex(records)
      ensures emojiToKeywordsMap == Indexer.ReverseIndex(records)
      ensures !isLoading && CurrentView() == old(CurrentView())
    {
      var single, multi, emojiMap := Indexer.BuildIndices(records);
      Indexer.PhraseKeysNonEmpty(records);
      singleWordMap, multiWordMap, emojiToKeywordsMap := single, multi, emojiMap;
      isLoading := false;
    }

    /** The text area's `onChange`. */
    method SetInput(text: string)
      modifies this`inputText
      ensures inputText == text
    {
      inputText := text;
    }

    /** `translateText`: the direction flag picks the translator. */
    method TranslateText()
      requires Valid()
      modifies this`translatedText
      ensures translatedText == Translation(CurrentView(), singleWordMap, multiWordMap, emojiToKeywordsMap)
    {
      assert !Indexer.IsPhrase("");
      if isReversed {
        translatedText := Reverse.TranslateToText(inputText, emojiToKeywordsMap);
      } else {
        translatedText := Forward.TranslateToEmoji(inputText, singleWordMap, multiWordMap);
      }
    }

    method ClearText()
      modifies this`inputText, this`translatedText
      ensures CurrentView() == Cleared(old(CurrentView()))
    {
      inputText := "";
      translatedText := "";
    }

    method SwapMode()
      modifies this`inputText, this`translatedText, this`isReversed
      ensures CurrentView() == Swapped(old(CurrentView()))
    {
      isReversed, inputText, translatedText := !isReversed, translatedText, inputText;
    }
  }
}
