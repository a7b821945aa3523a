/** Character-level helpers shared by the dictionary indexer and both
    translation directions: the `\w` class of JavaScript regular
    expressions, lower-casing, and dictionary lookup as the translator
    reads it (a missing key and an empty value are both "falsy"). */
module Chars {

  datatype Option<T> = None | Some(value: T)

  /** `/\w/.test(c)`: an ASCII letter, digit or underscore. */
  predicate IsWordChar(c: char)
    ensures IsWordChar(c) ==> c != ' '
  {
    ('a' <= c <= 'z') || ('A' <= c <= 'Z') || ('0' <= c <= '9') || c == '_'
  }

  /** Per-character lower-casing (ASCII letters only; everything else is kept). */
  function Lower(c: char): char {
    if 'A' <= c <= 'Z' then (c as int - 'A' as int + 'a' as int) as char else c
  }

  /** `s.toLowerCase()`, length-preserving. */
  function LowerStr(s: string): (r: string)
    ensures |r| == |s|
  {
    seq(|s|, k requires 0 <= k < |s| => Lower(s[k]))
  }

  /** A string is lower-case when lower-casing leaves it unchanged. */
  predicate IsLowerStr(s: string) {
    forall k :: 0 <= k < |s| ==> !('A' <= s[k] <= 'Z')
  }

  lemma LowerStrIsLower(s: string)
    ensures IsLowerStr(LowerStr(s))
    ensures LowerStr(LowerStr(s)) == LowerStr(s)
  {
  }

  /** `m[k]` on a JavaScript object built only from own keys. */
  function Get<V>(m: map<string, V>, k: string): (r: Option<V>)
    ensures r.Some? <==> k in m
    ensures r.Some? ==> r.value == m[k]
  {
    if k in m then Some(m[k]) else None
  }

  /** A looked-up string value is truthy when present and non-empty. */
  predicate Truthy(v: Option<string>) {
    v.Some? && v.value != ""
  }

  /** `results.join('')`: the pieces concatenated in order. */
  function Join(parts: seq<string>): (r: string)
    ensures parts == [] ==> r == ""
    ensures |parts| == 1 ==> r == parts[0]
  {
    if parts == [] then "" else Join(parts[..|parts| - 1]) + parts[|parts| - 1]
  }

  lemma JoinSnoc(parts: seq<string>, x: string)
    ensures Join(parts + [x]) == Join(parts) + x
  {
    assert (parts + [x])[..|parts|] == parts;
  }

  /** Stated once so the cursor loop's proof does not search for it. */
  lemma ConcatAssoc(a: string, b: string, c: string)
    ensures (a + b) + c == a + (b + c)
  {
  }
}
