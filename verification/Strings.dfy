/** The few std::string operations the code relies on, with the contracts it relies on. */
module Strings {

  datatype Option<+T> = None | Some(value: T)

  const CRLF := "\r\n"

  /** std::string::find for one character. */
  function FindChar(s: string, c: char, from: nat): (r: Option<nat>)
    decreases |s| - from
    ensures r.Some? ==> from <= r.value < |s| && s[r.value] == c && forall i :: from <= i < r.value ==> s[i] != c
    ensures r.None? ==> forall i :: from <= i < |s| ==> s[i] != c
  {
    if from >= |s| then None
    else if s[from] == c then Some(from)
    else FindChar(s, c, from + 1)
  }

  lemma FindCharIs(s: string, c: char, from: nat, at: nat)
    requires from <= at < |s| && s[at] == c && forall i :: from <= i < at ==> s[i] != c
    ensures FindChar(s, c, from) == Some(at)
  {
  }

  predicate OccursAt(s: string, pattern: string, i: nat) {
    i + |pattern| <= |s| && s[i..i + |pattern|] == pattern
  }

  /** A match covers only characters of the pattern. */
  lemma MatchCovers(s: string, pattern: string, i: nat, k: nat)
    ensures OccursAt(s, pattern, i) && i <= k < i + |pattern| ==> s[k] == pattern[k - i] && s[k] in pattern
  {
  }

  /** std::string::find for a pattern: the first occurrence at or after `from`. */
  function Find(s: string, pattern: string, from: nat): (r: Option<nat>)
    decreases |s| - from
    ensures r.Some? ==> from <= r.value && r.value + |pattern| <= |s| && OccursAt(s, pattern, r.value)
                        && forall i :: from <= i < r.value ==> !OccursAt(s, pattern, i)
    ensures r.None? ==> forall i :: from <= i ==> !OccursAt(s, pattern, i)
  {
    if from + |pattern| > |s| then None
    else if OccursAt(s, pattern, from) then Some(from)
    else if from == |s| then None
    else Find(s, pattern, from + 1)
  }

  /** The first occurrence is the only index with the properties of one. */
  lemma FindIs(s: string, pattern: string, from: nat, at: nat)
    requires from <= at && OccursAt(s, pattern, at)
    requires forall i :: from <= i < at ==> !OccursAt(s, pattern, i)
    ensures Find(s, pattern, from) == Some(at)
  {
  }

  lemma Assoc<T>(a: seq<T>, b: seq<T>, c: seq<T>)
    ensures (a + b) + c == a + (b + c)
  {
  }

  function Concat(pieces: seq<string>): string {
    if pieces == [] then "" else pieces[0] + Concat(pieces[1..])
  }

  predicate IsDigit(c: char) { '0' <= c <= '9' }

  /** ASCII lower case, as tolower does it. */
  function ToLower(c: char): char {
    if 'A' <= c <= 'Z' then (c as int + 32) as char else c
  }
}
