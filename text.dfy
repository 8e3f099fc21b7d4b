/** Character-sequence helpers shared by the query serialiser and the log redaction. */
module Text {

  datatype Option<T> = None | Some(value: T)

  /** The number of leading characters of `s` before the first `c`; all of `s` when `c` does not occur. */
  function Span(s: string, c: char): (n: nat)
    ensures n <= |s|
    ensures forall i :: 0 <= i < n ==> s[i] != c
    ensures n < |s| ==> s[n] == c
  {
    if s == [] || s[0] == c then 0 else 1 + Span(s[1..], c)
  }

  /** A span is determined by where `c` first occurs. */
  lemma SpanIs(s: string, c: char, k: nat)
    requires k <= |s|
    requires forall i :: 0 <= i < k ==> s[i] != c
    requires k < |s| ==> s[k] == c
    ensures Span(s, c) == k
  {
  }

  predicate StartsWith(s: string, p: string) {
    |p| <= |s| && s[..|p|] == p
  }

  predicate OccursAt(s: string, p: string, i: int) {
    0 <= i && i + |p| <= |s| && s[i..i + |p|] == p
  }

  ghost predicate Occurs(s: string, p: string) {
    exists i :: OccursAt(s, p, i)
  }
}
