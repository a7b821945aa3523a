/** The dictionary indexer (src/App.jsx:16-31): one pass over the emoji
    records that fills a single-word map, a phrase map and a reverse map. */
module Indexer {
  import opened Chars

  /** One entry of the dictionary file; `aliases` and `tags` may be absent. */
  datatype Record = Record(emoji: string, aliases: Option<seq<string>>, tags: Option<seq<string>>)

  /** `[...(item.aliases || []), ...(item.tags || [])]` */
  function Keywords(r: Record): (ks: seq<string>)
    ensures r.aliases.None? && r.tags.None? ==> ks == []
  {
    (if r.aliases.Some? then r.aliases.value else []) + (if r.tags.Some? then r.tags.value else [])
  }

  /** A lower-cased keyword goes to the phrase map exactly when it holds a space. */
  predicate IsPhrase(k: string) {
    ' ' in k
  }

  /** Record `r` carries a keyword whose lower-case form is `k`. */
  predicate HasKey(r: Record, k: string) {
    exists b :: 0 <= b < |Keywords(r)| && LowerStr(Keywords(r)[b]) == k
  }

  /** The (lower-cased keyword, emoji) writes one record performs, in order. */
  function RecordPairs(r: Record): seq<(string, string)> {
    seq(|Keywords(r)|, b requires 0 <= b < |Keywords(r)| => (LowerStr(Keywords(r)[b]), r.emoji))
  }

  /** All writes of the indexing pass, in the order the nested loops do them. */
  function Pairs(records: seq<Record>): seq<(string, string)> {
    if records == [] then []
    else Pairs(records[..|records| - 1]) + RecordPairs(records[|records| - 1])
  }

  /** The map that results from performing the writes of `pairs` in order,
      keeping only phrase keys (`phrase`) or only single-word keys (`!phrase`). */
  function Store(pairs: seq<(string, string)>, phrase: bool): map<string, string> {
    if pairs == [] then map[]
    else
      var m := Store(pairs[..|pairs| - 1], phrase);
      var p := pairs[|pairs| - 1];
      if IsPhrase(p.0) == phrase then m[p.0 := p.1] else m
  }

  /** `singleMap` after the pass. */
  function SingleIndex(records: seq<Record>): map<string, string> {
    Store(Pairs(records), false)
  }

  /** `multiMap` after the pass. */
  function PhraseIndex(records: seq<Record>): map<string, string> {
    Store(Pairs(records), true)
  }

  /** `emojiMap` after the pass. */
  function ReverseIndex(records: seq<Record>): map<string, seq<string>> {
    if records == [] then map[]
    else
      var last := records[|records| - 1];
      ReverseIndex(records[..|records| - 1])[last.emoji := Keywords(last)]
  }

  /** The indexing pass itself, with the source's two nested loops. */
  method BuildIndices(records: seq<Record>)
    returns (singleMap: map<string, string>, multiMap: map<string, string>,
             emojiMap: map<string, seq<string>>)
    ensures singleMap == SingleIndex(records)
    ensures multiMap == PhraseIndex(records)
    ensures emojiMap == ReverseIndex(records)
  {
    singleMap, multiMap, emojiMap := map[], map[], map[];
    var i := 0;
    while i < |records|
      invariant 0 <= i <= |records|
      invariant singleMap == Store(Pairs(records[..i]), false)
      invariant multiMap == Store(Pairs(records[..i]), true)
      invariant emojiMap == ReverseIndex(records[..i])
    {
      var item := records[i];
      var keywords := Keywords(item);
      emojiMap := emojiMap[item.emoji := keywords];
      StoreAppend(Pairs(records[..i]), RecordPairs(item), false);
      StoreAppend(Pairs(records[..i]), RecordPairs(item), true);
      singleMap, multiMap := IndexKeywords(item, singleMap, multiMap);
      PrefixSnoc(records, i);
      i := i + 1;
    }
    assert records[..|records|] == records;
  }

  /** The inner `keywords.forEach`: file every keyword of one record. */
  method IndexKeywords(item: Record, singleMap0: map<string, string>, multiMap0: map<string, string>)
    returns (singleMap: map<string, string>, multiMap: map<string, string>)
    ensures singleMap == singleMap0 + Store(RecordPairs(item), false)
    ensures multiMap == multiMap0 + Store(RecordPairs(item), true)
  {
    var keywords := Keywords(item);
    ghost var ps := RecordPairs(item);
    singleMap, multiMap := singleMap0, multiMap0;
    var j := 0;
    while j < |keywords|
      invariant 0 <= j <= |keywords| == |ps|
      invariant singleMap == singleMap0 + Store(ps[..j], false)
      invariant multiMap == multiMap0 + Store(ps[..j], true)
    {
      var lowerKey := LowerStr(keywords[j]);
      RecordPairsSnoc(item, j);
      StoreSnoc(ps[..j], (lowerKey, item.emoji), false);
      StoreSnoc(ps[..j], (lowerKey, item.emoji), true);
      if ' ' in lowerKey {
        OverrideUpdate(multiMap0, Store(ps[..j], true), lowerKey, item.emoji);
        multiMap := multiMap[lowerKey := item.emoji];
      } else {
        OverrideUpdate(singleMap0, Store(ps[..j], false), lowerKey, item.emoji);
        singleMap := singleMap[lowerKey := item.emoji];
      }
      j := j + 1;
    }
    assert ps[..|keywords|] == ps;
  }

  /** The writes of a record's first `j + 1` keywords. */
  lemma RecordPairsSnoc(r: Record, j: nat)
    requires j < |Keywords(r)|
    ensures |RecordPairs(r)| == |Keywords(r)|
    ensures RecordPairs(r)[..j + 1] == RecordPairs(r)[..j] + [(LowerStr(Keywords(r)[j]), r.emoji)]
  {
  }

  lemma OverrideUpdate(m0: map<string, string>, m: map<string, string>, k: string, v: string)
    ensures (m0 + m)[k := v] == m0 + m[k := v]
  {
  }

  // ---------------------------------------------------------------------
  // Properties of the write sequence and of the maps it builds

  /** Extending the processed prefix by one record extends the writes by its writes. */
  lemma PrefixSnoc(records: seq<Record>, i: nat)
    requires i < |records|
    ensures Pairs(records[..i + 1]) == Pairs(records[..i]) + RecordPairs(records[i])
    ensures ReverseIndex(records[..i + 1]) == ReverseIndex(records[..i])[records[i].emoji := Keywords(records[i])]
  {
    assert records[..i + 1][..i] == records[..i];
  }

  lemma StoreSnoc(s: seq<(string, string)>, p: (string, string), phrase: bool)
    ensures Store(s + [p], phrase)
         == if IsPhrase(p.0) == phrase then Store(s, phrase)[p.0 := p.1] else Store(s, phrase)
  {
    assert (s + [p])[..|s|] == s;
  }

  /** Performing `s` and then `t` is `t`'s writes overriding `s`'s. */
  lemma {:induction false} StoreAppend(s: seq<(string, string)>, t: seq<(string, string)>, phrase: bool)
    ensures Store(s + t, phrase) == Store(s, phrase) + Store(t, phrase)
    decreases |t|
  {
    if t == [] {
      assert s + t == s;
    } else {
      var t' := t[..|t| - 1];
      var p := t[|t| - 1];
      assert s + t == (s + t') + [p];
      assert t == t' + [p];
      StoreSnoc(s + t', p, phrase);
      StoreSnoc(t', p, phrase);
      StoreAppend(s, t', phrase);
    }
  }

  /** A key is stored exactly when some write uses it and its kind matches the map. */
  lemma {:induction false} StoreKeys(s: seq<(string, string)>, phrase: bool, k: string)
    ensures k in Store(s, phrase) <==> IsPhrase(k) == phrase && exists j :: 0 <= j < |s| && s[j].0 == k
    decreases |s|
  {
    if s != [] {
      var s' := s[..|s| - 1];
      StoreKeys(s', phrase, k);
      if exists j :: 0 <= j < |s'| && s'[j].0 == k {
        var j :| 0 <= j < |s'| && s'[j].0 == k;
        assert s[j].0 == k;
      }
      if exists j :: 0 <= j < |s| && s[j].0 == k {
        var j :| 0 <= j < |s| && s[j].0 == k;
        if j < |s'| { assert s'[j].0 == k; }
      }
    }
  }

  /** The stored value is the one of the LAST write to that key. */
  lemma {:induction false} StoreLastWins(s: seq<(string, string)>, phrase: bool, k: string)
    requires k in Store(s, phrase)
    ensures exists j :: 0 <= j < |s| && s[j].0 == k && Store(s, phrase)[k] == s[j].1
                        && forall j' :: j < j' < |s| ==> s[j'].0 != k
    decreases |s|
  {
    var s' := s[..|s| - 1];
    var p := s[|s| - 1];
    if IsPhrase(p.0) == phrase && p.0 == k {
      assert s[|s| - 1].0 == k;
    } else {
      StoreLastWins(s', phrase, k);
      var j :| 0 <= j < |s'| && s'[j].0 == k && Store(s', phrase)[k] == s'[j].1
                && forall j' :: j < j' < |s'| ==> s'[j'].0 != k;
      assert s[j] == s'[j];
      if IsPhrase(p.0) == phrase {
        assert p.0 != k;
      } else {
        assert p.0 != k by { StoreKeys(s', phrase, k); }
      }
    }
  }

  /** What one record writes: its own lower-cased keywords, all mapped to its emoji. */
  lemma RecordStore(r: Record, phrase: bool, k: string)
    ensures k in Store(RecordPairs(r), phrase) <==> IsPhrase(k) == phrase && HasKey(r, k)
    ensures k in Store(RecordPairs(r), phrase) ==> Store(RecordPairs(r), phrase)[k] == r.emoji
  {
    var ps := RecordPairs(r);
    StoreKeys(ps, phrase, k);
    if HasKey(r, k) {
      var b :| 0 <= b < |Keywords(r)| && LowerStr(Keywords(r)[b]) == k;
      assert ps[b].0 == k;
    }
    if k in Store(ps, phrase) {
      StoreLastWins(ps, phrase, k);
    }
  }

  /** Record `a` is the last of `records` with a keyword lowering to `k`. */
  predicate LastWithKey(records: seq<Record>, a: int, k: string) {
    0 <= a < |records| && HasKey(records[a], k)
    && forall a' :: a < a' < |records| ==> !HasKey(records[a'], k)
  }

  /** Some record of `records` has a keyword lowering to `k`. */
  predicate SomeHasKey(records: seq<Record>, k: string) {
    exists a :: 0 <= a < |records| && HasKey(records[a], k)
  }

  lemma SomeHasKeySnoc(records: seq<Record>, k: string)
    requires records != []
    ensures SomeHasKey(records, k)
        <==> SomeHasKey(records[..|records| - 1], k) || HasKey(records[|records| - 1], k)
  {
    var pre := records[..|records| - 1];
    if SomeHasKey(records, k) {
      var a :| 0 <= a < |records| && HasKey(records[a], k);
      if a < |pre| { assert pre[a] == records[a]; }
    }
    if SomeHasKey(pre, k) {
      var a :| 0 <= a < |pre| && HasKey(pre[a], k);
      assert pre[a] == records[a];
    }
  }

  /** A last holder in a prefix stays the last one when the next record lacks the key. */
  lemma LastWithKeySnoc(records: seq<Record>, a: int, k: string)
    requires records != []
    requires LastWithKey(records[..|records| - 1], a, k)
    requires !HasKey(records[|records| - 1], k)
    ensures LastWithKey(records, a, k)
  {
    var pre := records[..|records| - 1];
    assert pre[a] == records[a];
    forall a' | a < a' < |records| ensures !HasKey(records[a'], k) {
      if a' < |pre| { assert pre[a'] == records[a']; }
    }
  }

  /** Keyword index: a key is present exactly when some record has a keyword
      lowering to it and the key's kind (phrase or single word) matches the map. */
  lemma {:induction false} IndexKeys(records: seq<Record>, phrase: bool, k: string)
    ensures k in Store(Pairs(records), phrase)
        <==> IsPhrase(k) == phrase && exists a :: 0 <= a < |records| && HasKey(records[a], k)
    decreases |records|
  {
    if records != [] {
      var pre := records[..|records| - 1];
      var last := records[|records| - 1];
      StoreAppend(Pairs(pre), RecordPairs(last), phrase);
      RecordStore(last, phrase, k);
      IndexKeys(pre, phrase, k);
      SomeHasKeySnoc(records, k);
    }
  }

  /** On a keyword collision the later record wins: a stored key maps to the
      emoji of the last record with a keyword lowering to it. */
  lemma {:induction false} IndexLastWins(records: seq<Record>, phrase: bool, k: string)
    requires k in Store(Pairs(records), phrase)
    ensures exists a :: LastWithKey(records, a, k) && Store(Pairs(records), phrase)[k] == records[a].emoji
    decreases |records|
  {
    var pre := records[..|records| - 1];
    var last := records[|records| - 1];
    StoreAppend(Pairs(pre), RecordPairs(last), phrase);
    RecordStore(last, phrase, k);
    if k in Store(RecordPairs(last), phrase) {
      assert LastWithKey(records, |records| - 1, k);
    } else {
      assert k in Store(Pairs(pre), phrase);
      StoreKeys(Pairs(pre), phrase, k);
      IndexLastWins(pre, phrase, k);
      var a :| LastWithKey(pre, a, k) && Store(Pairs(pre), phrase)[k] == pre[a].emoji;
      LastWithKeySnoc(records, a, k);
      assert pre[a] == records[a];
    }
  }

  /** The single-word map: every key is the lower-case form of a space-free
      keyword of some record, and maps to the emoji of the last such record. */
  lemma SingleIndexSpec(records: seq<Record>, k: string)
    ensures k in SingleIndex(records)
        <==> !IsPhrase(k) && exists a :: 0 <= a < |records| && HasKey(records[a], k)
    ensures k in SingleIndex(records) ==> IsLowerStr(k)
    ensures k in SingleIndex(records) ==>
              exists a :: LastWithKey(records, a, k) && SingleIndex(records)[k] == records[a].emoji
  {
    IndexKeys(records, false, k);
    if k in SingleIndex(records) { IndexLastWins(records, false, k); }
    KeyIsLower(records, k);
  }

  /** The phrase map: the same, for keywords that contain a space. */
  lemma PhraseIndexSpec(records: seq<Record>, k: string)
    ensures k in PhraseIndex(records)
        <==> IsPhrase(k) && exists a :: 0 <= a < |records| && HasKey(records[a], k)
    ensures k in PhraseIndex(records) ==> IsLowerStr(k) && k != ""
    ensures k in PhraseIndex(records) ==>
              exists a :: LastWithKey(records, a, k) && PhraseIndex(records)[k] == records[a].emoji
  {
    IndexKeys(records, true, k);
    if k in PhraseIndex(records) { IndexLastWins(records, true, k); }
    KeyIsLower(records, k);
  }

  lemma KeyIsLower(records: seq<Record>, k: string)
    ensures (exists a :: 0 <= a < |records| && HasKey(records[a], k)) ==> IsLowerStr(k)
  {
    if exists a :: 0 <= a < |records| && HasKey(records[a], k) {
      var a :| 0 <= a < |records| && HasKey(records[a], k);
      var b :| 0 <= b < |Keywords(records[a])| && LowerStr(Keywords(records[a])[b]) == k;
      LowerStrIsLower(Keywords(records[a])[b]);
    }
  }

  /** Every phrase key is non-empty, so the translator's cursor always moves. */
  lemma PhraseKeysNonEmpty(records: seq<Record>)
    ensures "" !in PhraseIndex(records)
    ensures forall p :: p in PhraseIndex(records) ==> IsPhrase(p)
  {
    forall p | p in PhraseIndex(records) ensures IsPhrase(p) {
      PhraseIndexSpec(records, p);
    }
  }

  /** Record `a` is the last of `records` that carries emoji `e`. */
  predicate LastWithEmoji(records: seq<Record>, a: int, e: string) {
    0 <= a < |records| && records[a].emoji == e
    && forall a' :: a < a' < |records| ==> records[a'].emoji != e
  }

  lemma {:induction false} ReverseKeys(records: seq<Record>, e: string)
    ensures e in ReverseIndex(records) <==> exists a :: 0 <= a < |records| && records[a].emoji == e
    decreases |records|
  {
    if records != [] {
      var pre := records[..|records| - 1];
      ReverseKeys(pre, e);
      if exists a :: 0 <= a < |records| && records[a].emoji == e {
        var a :| 0 <= a < |records| && records[a].emoji == e;
        if a < |pre| { assert pre[a] == records[a]; }
      }
      if exists a :: 0 <= a < |pre| && pre[a].emoji == e {
        var a :| 0 <= a < |pre| && pre[a].emoji == e;
        assert pre[a] == records[a];
      }
    }
  }

  lemma {:induction false} ReverseLastWins(records: seq<Record>, e: string)
    requires e in ReverseIndex(records)
    ensures exists a :: LastWithEmoji(records, a, e) && ReverseIndex(records)[e] == Keywords(records[a])
    decreases |records|
  {
    var pre := records[..|records| - 1];
    var n := |records| - 1;
    if records[n].emoji == e {
      assert LastWithEmoji(records, n, e);
    } else {
      assert ReverseIndex(records)[e] == ReverseIndex(pre)[e];
      ReverseLastWins(pre, e);
      var a :| LastWithEmoji(pre, a, e) && ReverseIndex(pre)[e] == Keywords(pre[a]);
      LastWithEmojiSnoc(records, a, e);
      assert pre[a] == records[a];
    }
  }

  /** A last carrier in a prefix stays the last one when the next record has another emoji. */
  lemma LastWithEmojiSnoc(records: seq<Record>, a: int, e: string)
    requires records != []
    requires LastWithEmoji(records[..|records| - 1], a, e)
    requires records[|records| - 1].emoji != e
    ensures LastWithEmoji(records, a, e)
  {
    var pre := records[..|records| - 1];
    assert pre[a] == records[a];
    forall a' | a < a' < |records| ensures records[a'].emoji != e {
      if a' < |pre| { assert pre[a'] == records[a']; }
    }
  }

  /** The reverse map: an emoji is a key exactly when some record carries it,
      and maps to `aliases ++ tags` of the last record that does. */
  lemma ReverseIndexSpec(records: seq<Record>, e: string)
    ensures e in ReverseIndex(records) <==> exists a :: 0 <= a < |records| && records[a].emoji == e
    ensures e in ReverseIndex(records) ==>
              exists a :: 0 <= a < |records| && records[a].emoji == e
                          && ReverseIndex(records)[e] == Keywords(records[a])
                          && forall a' :: a < a' < |records| ==> records[a'].emoji != e
  {
    ReverseKeys(records, e);
    if e in ReverseIndex(records) { ReverseLastWins(records, e); }
  }
}
