/** Cursor helpers on strings, shared by the scanners. */
module Text {

  /** What one turn of a scanner's loop does: an answer, or a new state and how much text it takes. */
  datatype Next<S> = Found | Go(st: S, n: nat)

  /** A text that starts with `*`, `+` or a brace. */
  predicate RepeatAfter(s: string) { s != "" && (s[0] == '*' || s[0] == '+' || s[0] == '{') }

  /** The text from `i` on; empty when `i` has run past the end. */
  function Drop(s: string, i: nat): string { if i <= |s| then s[i..] else "" }

  /** First index at or after `i` that holds `c`; `|s|` when there is none. */
  function Find(s: string, c: char, i: nat): (k: nat)
    requires i <= |s|
    ensures i <= k <= |s|
    ensures k < |s| ==> s[k] == c
    ensures forall m :: i <= m < k ==> s[m] != c
    decreases |s| - i
  {
    if i == |s| || s[i] == c then i else Find(s, c, i + 1)
  }

  lemma {:induction false} FindUnique(s: string, c: char, i: nat, k: nat)
    requires i <= k < |s| && s[k] == c && forall m :: i <= m < k ==> s[m] != c
    ensures Find(s, c, i) == k
    decreases k - i
  {
    if i < k { FindUnique(s, c, i + 1, k); }
  }

  /** Searching from `i` is searching the suffix. */
  lemma FindInSuffix(s: string, c: char, i: nat)
    requires i <= |s|
    ensures Find(s, c, i) == i + Find(s[i..], c, 0)
  {
    var f := Find(s, c, i);
    assert forall m :: i <= m < |s| ==> s[m] == s[i..][m - i];
    if f < |s| { FindUnique(s[i..], c, 0, f - i); }
  }

  lemma DropNone(s: string)
    ensures Drop(s, 0) == s
  {
  }

  lemma DropDrop(s: string, i: nat, n: nat)
    ensures Drop(Drop(s, i), n) == Drop(s, i + n)
  {
  }

  /** What a scanner at `i` sees of the remaining text. */
  lemma DropAt(s: string, i: nat)
    requires i < |s|
    ensures Drop(s, i) != "" && Drop(s, i)[0] == s[i] && Drop(s, i) == s[i..]
    ensures Drop(s, i)[1..] == Drop(s, i + 1) && Drop(Drop(s, i), 2) == Drop(s, i + 2)
  {
  }
}
