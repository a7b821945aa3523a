# Emoji translator — a Dafny model

This project models the translation core of a small web page that turns
English text into emoji and back. All of that logic sits in the single
`App` component of `src/App.jsx`:

- **Dictionary indexer.** One pass over the emoji records builds three maps.
  The single-word map holds lower-case keywords without a space. The phrase
  map holds lower-case keywords that contain a space. The reverse map sends
  each emoji to its `aliases ++ tags`.
- **Text to emoji.** A cursor walks the lower-cased input. At each position
  the longest phrase key that ends at a word boundary wins. Otherwise the
  whole run of word characters is looked up, with a naive plural fallback
  that drops a final `s`. Otherwise the single character is copied.
- **Emoji to text.** Each character becomes the first keyword of its
  reverse-map entry, or stays as it is.
- **Session state.** Input text, translated text and the direction flag,
  with the handlers that translate, clear and swap.

Modules, one per piece: `Chars` (character classes, lower-casing, lookup,
`join`), `Indexer`, `Forward`, `Reverse` and `Session` (a class `App` with
the component's state fields), plus `Scenarios`, worked examples on concrete
inputs.

The source works by changing things step by step, and the model keeps that
form. `BuildIndices` and `IndexKeywords` are the two nested loops that update
three map accumulators. `TranslateToEmoji` is the cursor `while` loop:
`Advance` is one pass of its body, `LongestPhrase` the phrase loop,
`ScanWord` the word scan and `LookupWord` the dictionary lookup. `TranslateToText` is the `for...of` loop. Each
method is proved equal to a specification function (`SingleIndex`,
`PhraseIndex`, `ReverseIndex`, `ToEmoji`, `ToText`), and the promised
properties are lemmas about those functions.

Design choices worth knowing:

- `\w` is the ASCII class `[A-Za-z0-9_]`. `toLowerCase` is modelled as ASCII
  lower-casing, which keeps the length and works per character.
- The source sorts the phrase keys by length on every step and takes the
  first match. The model's `LongestPhrase` visits the keys in any order and
  keeps the longest match. Two phrases of the same length cannot both match
  at one position (`MatchUnique`), so the sort's tie order cannot change the
  result. The specification function `PhraseAt` tries every length from the
  longest possible down.
- JavaScript truthiness is modelled. An empty single-word value counts as
  "not found", so the lookup falls through to the plural form and then to
  the original word. An empty phrase value is still emitted. A reverse entry
  with an empty keyword list yields `""`, because `join` prints `undefined`
  as empty.
- A non-empty input might be expected to give a non-empty output. The code
  does not guarantee it when a phrase's emoji is `""`, or when a reverse entry
  has no keywords or its first keyword is empty, so the model does not claim it.
- `TranslateToEmoji` and `LongestPhrase` require that `""` is not a phrase
  key. Such a key matches at a position only when the next character is not
  a word character and no longer phrase matches there. The source's cursor
  then moves by zero and the loop stops advancing at that character: "abc"
  still terminates, "a b" hangs at the space. The indexer never produces
  such a key (`PhraseKeysNonEmpty`), and the session keeps this as its
  invariant `Valid`.

## Model

| member | source | states |
|---|---|---|
| `Indexer.BuildIndices` | src/App.jsx:16-31 | the three maps after the pass are exactly `SingleIndex`, `PhraseIndex` and `ReverseIndex` of the records |
| `Indexer.IndexKeywords` | src/App.jsx:23-30 | filing one record's keywords overrides the maps with that record's writes |
| `Indexer.Keywords` | src/App.jsx:20 | a record with neither aliases nor tags has no keywords (missing fields count as empty) |
| `Indexer.IsPhrase` | src/App.jsx:25 | a keyword goes to the phrase map exactly when it contains a space (a definition; `Indexer.PhraseKeysNonEmpty` draws the consequence) |
| `Indexer.StoreAppend` | src/App.jsx:19-30 | doing two runs of writes one after the other equals the second run's map overriding the first's |
| `Indexer.StoreKeys` | src/App.jsx:25-29 | a key is stored exactly when some write uses it and its kind (phrase or word) matches the map |
| `Indexer.StoreLastWins` | src/App.jsx:26-28 | a stored key holds the value of the last write to it |
| `Indexer.RecordStore` | src/App.jsx:23-29 | one record files exactly its own lower-cased keywords, each mapped to its emoji |
| `Indexer.IndexKeys` | src/App.jsx:19-29 | a key is in a map exactly when some record has a keyword lowering to it, with the right kind |
| `Indexer.IndexLastWins` | src/App.jsx:19-28 | on a collision the later record wins: the value is the emoji of the last record with that keyword |
| `Indexer.SingleIndexSpec` | src/App.jsx:23-29 | single-word keys are the lower-case, space-free keywords of the records; each is lower case and holds the emoji of the last record that has it |
| `Indexer.PhraseIndexSpec` | src/App.jsx:23-28 | phrase keys are the lower-case keywords that contain a space; each is lower case, non-empty, and holds the last record's emoji |
| `Indexer.PhraseKeysNonEmpty` | src/App.jsx:25-26 | every phrase key contains a space, so no phrase key is empty |
| `Indexer.ReverseKeys` | src/App.jsx:19-21 | an emoji is a reverse key exactly when some record carries it |
| `Indexer.ReverseLastWins` | src/App.jsx:19-21 | a reverse key maps to the keywords of the last record that carries that emoji |
| `Indexer.ReverseIndexSpec` | src/App.jsx:19-21 | an emoji is a reverse key exactly when some record carries it, and it maps to `aliases ++ tags` of the last such record |
| `Chars.IsWordChar` | src/App.jsx:65 | `/\w/.test` on one character; a space is never a word character |
| `Chars.Get` | src/App.jsx:85-90 | present exactly when the key is an own key of the map, holding its value |
| `Chars.Truthy` | src/App.jsx:88-93 | a looked-up value counts only when present and non-empty (a definition; its consequences are in `Forward.WordOutputSpec`) |
| `Chars.LowerStr` | src/App.jsx:24 | lower-casing keeps the length |
| `Chars.LowerStrIsLower` | src/App.jsx:24 | a lower-cased string is lower case, and lower-casing it again changes nothing |
| `Chars.Join` | src/App.jsx:51 | `join('')` of no pieces is empty and of one piece is that piece |
| `Forward.Matches` | src/App.jsx:64-65 | the text continues with the phrase, followed by end of text or a non-word character (a definition; `Forward.MatchUnique` and `Forward.PhraseAtSpec` are about it) |
| `Forward.LongestUpTo` | src/App.jsx:62-70 | the phrase found up to a length bound is a non-empty matching key within the bound |
| `Forward.LongestUpToMaximal` | src/App.jsx:62-70 | no matching key within the bound is longer than the phrase found, so one is always found when some key matches |
| `Forward.PhraseAtSpec` | src/App.jsx:62-70 | the chosen phrase is a matching key of maximal length, followed by end of text or a non-word character; none is chosen exactly when no key matches |
| `Forward.MatchUnique` | src/App.jsx:62 | two phrases of equal length that match at one position are equal, so tie order does not matter |
| `Forward.LongestPhrase` | src/App.jsx:62-71 | the phrase loop over all keys returns the longest matching phrase |
| `Forward.WordEnd` | src/App.jsx:75-78 | the word end lies between the cursor and the end of the text, and is followed by end of text or a non-word character |
| `Forward.WordEndRun` | src/App.jsx:75-78 | every character from the cursor up to the word end is a word character |
| `Forward.ScanWord` | src/App.jsx:75-78 | the scanning loop stops at the end of the maximal word run |
| `Forward.WordEndUnique` | src/App.jsx:75-78 | the maximal word run is determined by those two properties |
| `Forward.WordOutput` | src/App.jsx:85-93 | the corrected lookup (own keys only) emits either the original-case word or a value of the single-word map |
| `Forward.WordOutputSpec` | src/App.jsx:84-93 | a word yields its own truthy emoji, or else the truthy emoji of the word minus a final `s` (length > 1), or else the original-case text |
| `Forward.LookupWord` | src/App.jsx:85-93 | the lookup with its plural fallback emits exactly `WordOutput` of the word |
| `Forward.StepAt` | src/App.jsx:58-99 | every step strictly advances the cursor and stays within the text |
| `Forward.StepNotInsideWord` | src/App.jsx:62-98 | a step never leaves the cursor strictly inside a run of word characters |
| `Forward.Advance` | src/App.jsx:59-99 | one pass of the loop body emits the piece and moves the cursor that the step specification gives |
| `Forward.TranslateToEmoji` | src/App.jsx:54-102 | the cursor loop's joined output is `ToEmoji` of the input |
| `Forward.StepSpec` | src/App.jsx:62-98 | a maximal-length matching phrase wins; with no phrase, a word character starts a word step to `WordEnd`; otherwise exactly the original character is emitted and the cursor moves by one |
| `Forward.NoHitsStep` | src/App.jsx:73-98 | with no dictionary hit, each step emits exactly the original-case span it consumes |
| `Forward.NoHitsIdentity` | src/App.jsx:54-102 | with no phrase matching and no truthy word value, the translation equals the input |
| `Forward.EmptyDictionaryIdentity` | src/App.jsx:54-102 | with empty maps the translation returns the input unchanged |
| `Forward.NonWordStep` | src/App.jsx:62-98 | in a text with no word character and no phrase match, a step copies exactly the character at the cursor and moves by one |
| `Forward.CharByCharIdentity` | src/App.jsx:54-102 | when every step copies the character at the cursor, the translation is the input |
| `Forward.NonWordIdentity` | src/App.jsx:54-102 | for any single-word map, an input of whitespace and punctuation on which no phrase key matches comes back unchanged |
| `Forward.JsObjectGet` | src/App.jsx:85 | a JavaScript object lookup returns own keys, and `Object`'s function text for the inherited name `constructor` |
| `Forward.WordOutputAsWritten` | src/App.jsx:85-93 | the lookup as written emits the original-case word, a value of the map, or the text of an inherited `Object` property |
| `Forward.InheritedKeyCounterexample` | src/App.jsx:85-93 | as written, with an empty dictionary, "Constructor" and "Constructors" are replaced; the corrected lookup passes them through |
| `Forward.WordOutputAgrees` | src/App.jsx:85-90 | for a map with no own `__proto__` key, the as-written and corrected lookups agree on every word other than `constructor`, `__proto__` and those names plus a final `s` |
| `Scenarios.PluralFallback` | src/App.jsx:84-93 | "cats" with the word "cat" in the dictionary becomes that word's emoji |
| `Scenarios.PhraseBeatsWord` | src/App.jsx:62-71 | "cat nap" with both the phrase "cat nap" and the word "cat" becomes the phrase's emoji |
| `Scenarios.NoPartialWord` | src/App.jsx:75-93 | "category" with only the word "cat" comes back unchanged |
| `Scenarios.CaseIgnored` | src/App.jsx:54-93 | "Dogs" with the word "dog" becomes that word's emoji |
| `Reverse.KeywordFor` | src/App.jsx:48-49 | a known character becomes its first keyword, `""` when its list is empty; an unknown character stays itself |
| `Reverse.TranslateToText` | src/App.jsx:46-51 | the loop's joined output is `ToText` of the input |
| `Reverse.ToTextAppend` | src/App.jsx:47-50 | the reverse translation distributes over concatenation (it is character by character) |
| `Reverse.ToTextIdentity` | src/App.jsx:47-49 | characters the map does not know pass through, so an input of only such characters is unchanged |
| `Reverse.EmptyReverseIdentity` | src/App.jsx:46-51 | with an empty reverse map the output equals the input |
| `Reverse.WideGlyphsIgnored` | src/App.jsx:47-48 | an entry whose glyph is not exactly one character is never used |
| `Session.Cleared` | src/App.jsx:106-109 | clearing empties both texts and keeps the direction |
| `Session.Swapped` | src/App.jsx:111-115 | swapping flips the direction and exchanges input and output |
| `Session.SwapTwice` | src/App.jsx:111-115 | two swaps restore the original state |
| `Session.ClearTwice` | src/App.jsx:106-109 | clearing twice is clearing once |
| `Session.App.constructor` | src/App.jsx:4-10 | the initial state: empty texts, empty maps, forward direction, loading |
| `Session.App.Load` | src/App.jsx:15-35 | a load installs the three indices built from the records, clears the loading flag, and leaves the texts alone |
| `Session.App.SetInput` | src/App.jsx:211 | editing sets the input text |
| `Session.App.TranslateText` | src/App.jsx:43-104 | the stored translation is `ToText` of the input when reversed and `ToEmoji` otherwise |
| `Session.App.ClearText` | src/App.jsx:106-109 | the new state is `Cleared` of the old one |
| `Session.App.SwapMode` | src/App.jsx:111-115 | the new state is `Swapped` of the old one |

## Findings

| source | as written | input that shows it | evidently intended | confidence | as-written member | corrected member |
|---|---|---|---|---|---|---|
| src/App.jsx:85-93 | `singleWordMap[word]` reads a plain object, so it also finds inherited properties. `constructor` (all lower case) gives the `Object` function, which is truthy and is printed by `join` | empty dictionary, input "Constructor" (or "Constructors" through the plural fallback) gives "function Object() { [native code] }" | only dictionary entries are found; the word passes through unchanged | high; not executed | `Forward.WordOutputAsWritten`, `Forward.InheritedKeyCounterexample` | `Forward.WordOutput`, `Forward.WordOutputSpec`, `Forward.EmptyDictionaryIdentity` |

The rest of the model uses the corrected own-key lookup (`Chars.Get`). The
same reading of `__proto__` gives "[object Object]" (`Forward.JsObjectGet`).

## Left out

- Fetching `/data/emoji.json`, JSON parsing and the error `catch` (src/App.jsx:13-15, 37-40) are network I/O. `Session.App.Load` takes the record list as an argument. A failed load is not modelled; it leaves the empty initial maps in place.
- React's hooks, re-rendering and the asynchronous state setters are not modelled. Each handler updates the fields at once.
- All JSX, styles and hover handlers are not modelled, and neither are the disabled-button expressions (src/App.jsx:117-315). The loading flag is kept as a plain field and gates nothing.
- Full Unicode `toLowerCase` is not modelled; it can change a string's length. `Chars.Lower` lower-cases ASCII letters only.
- UTF-16 code units (`substring`, `length`) versus code points (`for...of`) are not told apart; a `char` stands for both.
- `Array.prototype.sort` is not modelled. "The longest matching phrase" is specified by itself, and the tie order provably does not matter.
- Indexer.BuildIndices: in JavaScript, assigning a string to the key `__proto__` of a plain object (lines 26, 28) is ignored; the model stores such a keyword like any other. A record whose emoji is `__proto__` would replace `emojiMap`'s prototype with its keyword list in the source (line 21); the model stores it as an ordinary reverse entry.
- Emoji glyphs are not checked for well-formedness, as in the source.
