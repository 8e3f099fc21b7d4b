/**
 * The debug-log redaction `re.sub(name + "=[^&]*", name + "=XXX", s)`, for a
 * parameter name of literal characters (no regular-expression metacharacters)
 * holding neither `&` nor `=`. Python's `re.sub` scans left to
 * right and replaces every non-overlapping leftmost match; the class `[^&]`
 * with the greedy `*` makes each match run up to the next `&` or to the end.
 */
module Redaction {
  import opened Text

  /** The replacement for a masked value. */
  const Placeholder: string := "XXX"

  /**
   * A name the model can mask: no `&` or `=`. The name is read as literal text,
   * which `re.sub` also does for names without metacharacters, such as `key`.
   */
  predicate ValidName(name: string) {
    '&' !in name && '=' !in name
  }

  /** What `re.sub(name + "=[^&]*", name + "=XXX", s)` returns, for a literal `name`. */
  function Mask(name: string, s: string): string
    decreases |s|
  {
    var p := name + "=";
    if s == [] then []
    else if StartsWith(s, p) then
      var rest := s[|p|..];
      p + Placeholder + Mask(name, rest[Span(rest, '&')..])
    else [s[0]] + Mask(name, s[1..])
  }

  /** A masked string starts with `&` exactly when the original does, and is empty exactly when it is. */
  lemma MaskKeepsSeparator(name: string, s: string)
    requires ValidName(name)
    ensures Mask(name, s) == [] <==> s == []
    ensures StartsWith(Mask(name, s), "&") <==> StartsWith(s, "&")
  {
  }

  /** Unfolding `Mask` where a match starts at the front. */
  lemma MaskAtMatch(name: string, s: string)
    requires StartsWith(s, name + "=")
    ensures var rest := s[|name| + 1..];
      Mask(name, s) == name + "=" + Placeholder + Mask(name, rest[Span(rest, '&')..])
  {
  }

  /** Unfolding `Mask` where no match starts at the front. */
  lemma MaskAtCopy(name: string, s: string)
    requires s != [] && !StartsWith(s, name + "=")
    ensures Mask(name, s) == [s[0]] + Mask(name, s[1..])
  {
  }

  /**
   * Masking neither creates nor destroys a proper suffix of `name=` at the front.
   * This is what keeps masking from forming a new match across a copied character.
   */
  lemma {:induction false} MaskKeepsPrefix(name: string, u: string, j: nat)
    requires ValidName(name)
    requires 1 <= j <= |name|
    ensures StartsWith(Mask(name, u), (name + "=")[j..]) <==> StartsWith(u, (name + "=")[j..])
    decreases |name| - j
  {
    var p := name + "=";
    var w := p[j..];
    if u == [] {
    } else if StartsWith(u, p) {
      MatchHidesSuffix(name, u, j);
      MaskAtMatch(name, u);
      var r := Mask(name, u);
      assert r[..|p|] == p;
      MatchHidesSuffix(name, r, j);
    } else {
      MaskAtCopy(name, u);
      var m := Mask(name, u[1..]);
      if j < |name| {
        MaskKeepsPrefix(name, u[1..], j + 1);
        assert w[1..] == p[j + 1..];
        StartsWithCons(u[0], m, w);
        StartsWithCons(u[0], u[1..], w);
        assert [u[0]] + u[1..] == u;
      } else {
        assert w == "=";
      }
    }
  }

  /** A string that starts with `name=` does not start with a proper suffix of it. */
  lemma MatchHidesSuffix(name: string, s: string, j: nat)
    requires ValidName(name)
    requires 1 <= j <= |name|
    requires StartsWith(s, name + "=")
    ensures !StartsWith(s, (name + "=")[j..])
  {
    var p := name + "=";
    var w := p[j..];
    assert w[|w| - 1] == '=';
    assert name[|w| - 1] != '=' by { assert name[|w| - 1] in name; }
    assert s[|w| - 1] == p[|w| - 1] == name[|w| - 1];
  }

  lemma StartsWithCons(c: char, s: string, w: string)
    requires |w| > 0
    ensures StartsWith([c] + s, w) <==> c == w[0] && StartsWith(s, w[1..])
  {
  }

  /** The match case never applies to the copy of a character at which no match starts. */
  lemma MaskNoNewMatch(name: string, s: string)
    requires ValidName(name)
    requires s != [] && !StartsWith(s, name + "=")
    ensures !StartsWith([s[0]] + Mask(name, s[1..]), name + "=")
  {
    var p := name + "=";
    var m := Mask(name, s[1..]);
    StartsWithCons(s[0], m, p);
    StartsWithCons(s[0], s[1..], p);
    assert [s[0]] + s[1..] == s;
    if |name| == 0 {
      assert p[1..] == [];
    } else {
      MaskKeepsPrefix(name, s[1..], 1);
    }
  }

  /** An occurrence in the tail of a string is an occurrence one place later in the string. */
  lemma OccursInTail(s: string, p: string, i: int)
    requires s != [] && OccursAt(s[1..], p, i)
    ensures OccursAt(s, p, i + 1)
  {
  }

  /** What does not occur in a string does not occur in its tail either. */
  lemma AbsentFromTail(s: string, p: string)
    requires s != [] && !Occurs(s, p)
    ensures !Occurs(s[1..], p)
  {
    forall i ensures !OccursAt(s[1..], p, i) {
      if 0 <= i && i + |p| <= |s[1..]| {
        assert !OccursAt(s, p, i + 1);
        assert s[1..][i..i + |p|] == s[i + 1..i + 1 + |p|];
      }
    }
  }

  /** A string in which `name=` does not occur is left exactly as it is. */
  lemma {:induction false} MaskUnchangedWithoutName(name: string, s: string)
    requires !Occurs(s, name + "=")
    ensures Mask(name, s) == s
    decreases |s|
  {
    var p := name + "=";
    if s != [] {
      assert !OccursAt(s, p, 0);
      MaskAtCopy(name, s);
      AbsentFromTail(s, p);
      MaskUnchangedWithoutName(name, s[1..]);
      assert [s[0]] + s[1..] == s;
    }
  }

  /** Masking is idempotent: a line already masked is not changed by masking it again. */
  lemma {:induction false} MaskIdempotent(name: string, s: string)
    requires ValidName(name)
    ensures Mask(name, Mask(name, s)) == Mask(name, s)
    decreases |s|
  {
    var p := name + "=";
    if s == [] {
    } else if StartsWith(s, p) {
      var rest := s[|p|..];
      var t := rest[Span(rest, '&')..];
      MaskAtMatch(name, s);
      MaskKeepsSeparator(name, t);
      RemaskReplacement(name, Mask(name, t));
      MaskIdempotent(name, t);
    } else {
      MaskNoNewMatch(name, s);
      MaskAtCopy(name, s);
      var r := Mask(name, s);
      MaskAtCopy(name, r);
      assert r[1..] == Mask(name, s[1..]);
      MaskIdempotent(name, s[1..]);
    }
  }

  /** Masking a replacement that is followed by `&` or by nothing keeps the replacement. */
  lemma RemaskReplacement(name: string, mt: string)
    requires mt == [] || mt[0] == '&'
    ensures Mask(name, name + "=" + Placeholder + mt) == name + "=" + Placeholder + Mask(name, mt)
  {
    var p := name + "=";
    var r := p + Placeholder + mt;
    assert r[..|p|] == p;
    var rrest := r[|p|..];
    assert rrest == Placeholder + mt;
    SpanIs(rrest, '&', 3);
    MaskAtMatch(name, r);
    assert rrest[3..] == mt;
  }

  /** Occurrences in `b` are occurrences in `a + b`, shifted by `|a|`. */
  lemma OccursAtConcat(a: string, b: string, w: string, k: int)
    requires k >= 0
    ensures OccursAt(a + b, w, |a| + k) <==> OccursAt(b, w, k)
  {
  }

  /** An occurrence past the first character is an occurrence in the tail. */
  lemma OccursFromTail(s: string, p: string, i: int)
    requires i >= 1 && OccursAt(s, p, i)
    ensures OccursAt(s[1..], p, i - 1)
  {
  }

  /** `name=` occurs in the masked string exactly when it occurs in the original. */
  lemma {:induction false} MaskKeepsOccurrence(name: string, s: string)
    requires ValidName(name)
    ensures Occurs(Mask(name, s), name + "=") <==> Occurs(s, name + "=")
    decreases |s|
  {
    var p := name + "=";
    var r := Mask(name, s);
    if s == [] {
    } else if StartsWith(s, p) {
      MaskAtMatch(name, s);
      assert r[..|p|] == p;
      assert OccursAt(r, p, 0) && OccursAt(s, p, 0);
    } else {
      MaskAtCopy(name, s);
      MaskNoNewMatch(name, s);
      var m := Mask(name, s[1..]);
      assert r[1..] == m;
      MaskKeepsOccurrence(name, s[1..]);
      if Occurs(r, p) {
        var i :| OccursAt(r, p, i);
        assert i != 0;
        OccursFromTail(r, p, i);
        var k :| OccursAt(s[1..], p, k);
        OccursInTail(s, p, k);
      }
      if Occurs(s, p) {
        var i :| OccursAt(s, p, i);
        assert i != 0;
        OccursFromTail(s, p, i);
        var k :| OccursAt(m, p, k);
        OccursInTail(r, p, k);
      }
    }
  }

  /** After a replacement `name=XXX` that is followed by `&` or nothing, no match starts inside it. */
  lemma NoMatchInsideReplacement(name: string, mt: string, i: int)
    requires ValidName(name)
    requires mt == [] || mt[0] == '&'
    requires 0 < i < |name| + 4
    ensures !OccursAt(name + "=" + Placeholder + mt, name + "=", i)
  {
    var p := name + "=";
    var head := p + Placeholder;
    var r := head + mt;
    if i + |p| <= |r| {
      var window := r[i..i + |p|];
      if i + |name| < |head| {
        assert window[|name|] == head[i + |name|] == 'X';
        assert p[|name|] == '=';
      } else {
        var j := |head| - i;
        assert window[j] == r[|head|] == '&';
        assert p[j] in p;
      }
    }
  }

  /** The case of `MaskHidesValues` where the masked string begins with a replacement. */
  lemma HidesAfterReplacement(name: string, mt: string, i: int)
    requires ValidName(name)
    requires mt == [] || mt[0] == '&'
    requires 0 <= i < |name| + 4
    requires OccursAt(name + "=" + Placeholder + mt, name + "=", i)
    ensures i == 0
    ensures OccursAt(name + "=" + Placeholder + mt, name + "=" + Placeholder, i)
    ensures i + |name| + 4 == |name + "=" + Placeholder + mt| || (name + "=" + Placeholder + mt)[i + |name| + 4] == '&'
  {
    if i != 0 {
      NoMatchInsideReplacement(name, mt, i);
    }
    var head := name + "=" + Placeholder;
    assert (head + mt)[..|head|] == head;
  }

  /** `name=` at `i` is followed by the placeholder and then by `&` or the end of `s`. */
  predicate MaskedAt(name: string, s: string, i: int) {
    OccursAt(s, name + "=" + Placeholder, i) && (i + |name| + 4 == |s| || s[i + |name| + 4] == '&')
  }

  /** A masked occurrence stays masked behind any prefix. */
  lemma MaskedAtShift(name: string, a: string, b: string, k: int)
    requires k >= 0 && MaskedAt(name, b, k)
    ensures MaskedAt(name, a + b, |a| + k)
  {
  }

  /**
   * Every `name=` left in a masked string is followed by the placeholder and then
   * by `&` or by the end of the string: no value survives masking.
   */
  lemma {:induction false} MaskHidesValues(name: string, s: string, i: int)
    requires ValidName(name)
    requires OccursAt(Mask(name, s), name + "=", i)
    ensures OccursAt(Mask(name, s), name + "=" + Placeholder, i)
    ensures i + |name| + 4 == |Mask(name, s)| || Mask(name, s)[i + |name| + 4] == '&'
    decreases |s|, 1
  {
    if StartsWith(s, name + "=") {
      HidesAtMatch(name, s, i);
    } else {
      HidesAtCopy(name, s, i);
    }
  }

  /** The case of `MaskHidesValues` where a match starts at the front. */
  lemma {:induction false} HidesAtMatch(name: string, s: string, i: int)
    requires ValidName(name)
    requires StartsWith(s, name + "=")
    requires OccursAt(Mask(name, s), name + "=", i)
    ensures MaskedAt(name, Mask(name, s), i)
    decreases |s|, 0
  {
    var p := name + "=";
    var rest := s[|p|..];
    var t := rest[Span(rest, '&')..];
    MaskAtMatch(name, s);
    MaskKeepsSeparator(name, t);
    var mt := Mask(name, t);
    forall k | OccursAt(mt, p, k) ensures MaskedAt(name, mt, k) {
      MaskHidesValues(name, t, k);
    }
    HidesBehindReplacement(name, mt, i);
  }

  /** A replacement followed by a masked remainder leaves every `name=` masked. */
  lemma HidesBehindReplacement(name: string, mt: string, i: int)
    requires ValidName(name)
    requires mt == [] || mt[0] == '&'
    requires forall k :: OccursAt(mt, name + "=", k) ==> MaskedAt(name, mt, k)
    requires OccursAt(name + "=" + Placeholder + mt, name + "=", i)
    ensures MaskedAt(name, name + "=" + Placeholder + mt, i)
  {
    var p := name + "=";
    var head := p + Placeholder;
    if i < |head| {
      HidesAfterReplacement(name, mt, i);
    } else {
      OccursAtConcat(head, mt, p, i - |head|);
      MaskedAtShift(name, head, mt, i - |head|);
    }
  }

  /** The case of `MaskHidesValues` where the first character is copied. */
  lemma {:induction false} HidesAtCopy(name: string, s: string, i: int)
    requires ValidName(name)
    requires !StartsWith(s, name + "=")
    requires OccursAt(Mask(name, s), name + "=", i)
    ensures MaskedAt(name, Mask(name, s), i)
    decreases |s|, 0
  {
    var p := name + "=";
    MaskAtCopy(name, s);
    MaskNoNewMatch(name, s);
    var m := Mask(name, s[1..]);
    OccursAtConcat([s[0]], m, p, i - 1);
    MaskHidesValues(name, s[1..], i - 1);
    MaskedAtShift(name, [s[0]], m, i - 1);
  }

  /** Where `p` first occurs in `s`, or None when it does not occur. */
  function FirstOccurrence(s: string, p: string): (r: Option<nat>)
    requires |p| > 0
    ensures r.Some? ==> OccursAt(s, p, r.value) && forall j :: 0 <= j < r.value ==> !OccursAt(s, p, j)
    ensures r.None? ==> !Occurs(s, p)
    decreases |s|
  {
    if |s| < |p| then None
    else if StartsWith(s, p) then Some(0)
    else
      var tail := FirstOccurrence(s[1..], p);
      ShiftOccurrences(s, p);
      if tail.None? then None else Some(tail.value + 1)
  }

  /** Occurrences past the first character are exactly the occurrences in the tail. */
  lemma ShiftOccurrences(s: string, p: string)
    requires s != []
    ensures forall i :: i >= 1 ==> (OccursAt(s, p, i) <==> OccursAt(s[1..], p, i - 1))
  {
  }

  /**
   * The reference reading of the redaction on one `&`-free field: the field is
   * cut just after its first `name=`, which is then followed by the placeholder.
   */
  function MaskField(name: string, f: string): string {
    match FirstOccurrence(f, name + "=")
    case None => f
    case Some(i) => f[..i] + name + "=" + Placeholder
  }

  /** The reference reading of the redaction on a whole line: field by field between the `&`s. */
  function MaskByFields(name: string, s: string): string
    decreases |s|
  {
    var n := Span(s, '&');
    if n == |s| then MaskField(name, s)
    else MaskField(name, s[..n]) + "&" + MaskByFields(name, s[n + 1..])
  }

  /** A field with no match at its front is masked by copying its first character. */
  lemma MaskFieldAtCopy(name: string, f: string)
    requires f != [] && !StartsWith(f, name + "=")
    ensures MaskField(name, f) == [f[0]] + MaskField(name, f[1..])
  {
  }

  /** The first `|p|` characters of a string starting with `p` avoid every character `p` avoids. */
  lemma AvoidsWithin(s: string, p: string, c: char)
    requires StartsWith(s, p) && c !in p
    ensures forall k :: 0 <= k < |p| ==> s[k] != c
  {
  }

  lemma StartsWithExtends(f: string, t: string, p: string)
    ensures StartsWith(f, p) ==> StartsWith(f + t, p)
  {
  }

  /** A field that begins with `name=` is cut right after it. */
  lemma MaskFieldAtFront(name: string, f: string)
    requires StartsWith(f, name + "=")
    ensures MaskField(name, f) == name + "=" + Placeholder
  {
    assert FirstOccurrence(f, name + "=") == Some(0);
    assert f[..0] == [];
  }

  /** A match at the front of a field swallows the rest of that field. */
  lemma MaskSkipsField(name: string, f: string, t: string)
    requires ValidName(name)
    requires '&' !in f
    requires t == [] || t[0] == '&'
    requires StartsWith(f, name + "=")
    ensures Mask(name, f + t) == name + "=" + Placeholder + Mask(name, t)
  {
    var p := name + "=";
    var s := f + t;
    assert s[..|p|] == f[..|p|];
    MaskAtMatch(name, s);
    var rest := s[|p|..];
    assert rest == f[|p|..] + t;
    SpanIs(rest, '&', |f| - |p|);
    assert rest[|f| - |p|..] == t;
  }

  /** The case of `MaskFieldThen` where the field begins with `name=`. */
  lemma MaskFieldThenAtMatch(name: string, f: string, t: string)
    requires ValidName(name)
    requires '&' !in f
    requires t == [] || t[0] == '&'
    requires StartsWith(f + t, name + "=")
    ensures Mask(name, f + t) == MaskField(name, f) + Mask(name, t)
  {
    var p := name + "=";
    var s := f + t;
    SpanIs(s, '&', |f|);
    AvoidsWithin(s, p, '&');
    assert |f| >= |p|;
    assert f[..|p|] == s[..|p|];
    MaskFieldAtFront(name, f);
    MaskSkipsField(name, f, t);
  }

  /** Masking a field followed by `&` or by nothing masks the field on its own. */
  lemma {:induction false} MaskFieldThen(name: string, f: string, t: string)
    requires ValidName(name)
    requires '&' !in f
    requires t == [] || t[0] == '&'
    ensures Mask(name, f + t) == MaskField(name, f) + Mask(name, t)
    decreases |f|
  {
    var p := name + "=";
    var s := f + t;
    if f == [] {
      assert s == t;
    } else if StartsWith(s, p) {
      MaskFieldThenAtMatch(name, f, t);
    } else {
      MaskFieldThen(name, f[1..], t);
      MaskFieldThenAtCopy(name, f, t);
    }
  }

  /** The case of `MaskFieldThen` where the first character is copied. */
  lemma MaskFieldThenAtCopy(name: string, f: string, t: string)
    requires ValidName(name)
    requires f != [] && '&' !in f
    requires !StartsWith(f + t, name + "=")
    requires Mask(name, f[1..] + t) == MaskField(name, f[1..]) + Mask(name, t)
    ensures Mask(name, f + t) == MaskField(name, f) + Mask(name, t)
  {
    StartsWithExtends(f, t, name + "=");
    MaskFieldAtCopy(name, f);
    MaskCopyConcat(name, f, t);
    ConsChain(f[0], Mask(name, f + t), Mask(name, f[1..] + t), MaskField(name, f),
      MaskField(name, f[1..]), Mask(name, t));
  }

  /** `m == [c] + (a + b)` and `mf == [c] + a` give `m == mf + b`. */
  lemma ConsChain(c: char, m: string, m1: string, mf: string, a: string, b: string)
    requires m == [c] + m1 && m1 == a + b && mf == [c] + a
    ensures m == mf + b
  {
  }

  /** Copying the first character of a concatenation that does not start with `name=`. */
  lemma MaskCopyConcat(name: string, f: string, t: string)
    requires f != []
    requires !StartsWith(f + t, name + "=")
    ensures Mask(name, f + t) == [f[0]] + Mask(name, f[1..] + t)
  {
    var s := f + t;
    MaskAtCopy(name, s);
    assert s[1..] == f[1..] + t;
  }

  /**
   * The redaction is exactly the field-by-field reading: every `&`-separated field
   * that contains `name=` is cut after its first `name=` and given the placeholder,
   * and every other field is left as it is.
   */
  lemma {:induction false} MaskIsFieldwise(name: string, s: string)
    requires ValidName(name)
    ensures Mask(name, s) == MaskByFields(name, s)
    decreases |s|
  {
    var n := Span(s, '&');
    if n == |s| {
      MaskWholeField(name, s);
    } else {
      MaskIsFieldwise(name, s[n + 1..]);
      FieldwiseStep(name, s, n);
    }
  }

  /** If the rest after the first `&` is masked field by field, so is the whole line. */
  lemma FieldwiseStep(name: string, s: string, n: nat)
    requires ValidName(name)
    requires n == Span(s, '&') && n < |s|
    requires Mask(name, s[n + 1..]) == MaskByFields(name, s[n + 1..])
    ensures Mask(name, s) == MaskByFields(name, s)
  {
    MaskAtSeparator(name, s, n);
  }

  /** A line without `&` is masked as a single field. */
  lemma MaskWholeField(name: string, s: string)
    requires ValidName(name)
    requires '&' !in s
    ensures Mask(name, s) == MaskField(name, s)
  {
    MaskFieldThen(name, s, []);
    assert s + [] == s;
  }

  /** Masking a line splits at its first `&`. */
  lemma MaskAtSeparator(name: string, s: string, n: nat)
    requires ValidName(name)
    requires n == Span(s, '&') && n < |s|
    ensures Mask(name, s) == MaskField(name, s[..n]) + "&" + Mask(name, s[n + 1..])
  {
    var f := s[..n];
    var t := s[n..];
    assert s == f + t;
    assert '&' !in f && t[0] == '&';
    MaskFieldSeparator(name, f, t);
    assert t[1..] == s[n + 1..];
  }

  /** A field, then `&` and a remainder: the field is masked on its own and the `&` is kept. */
  lemma MaskFieldSeparator(name: string, f: string, t: string)
    requires ValidName(name)
    requires '&' !in f
    requires t != [] && t[0] == '&'
    ensures Mask(name, f + t) == MaskField(name, f) + "&" + Mask(name, t[1..])
  {
    MaskFieldThen(name, f, t);
    MaskSkipsSeparator(name, t);
  }

  /** A separator at the front is copied. */
  lemma MaskSkipsSeparator(name: string, t: string)
    requires ValidName(name)
    requires t != [] && t[0] == '&'
    ensures Mask(name, t) == "&" + Mask(name, t[1..])
  {
  }

  /** Every `=` in `s` has a character before it, and that character is not `c`. */
  predicate NoEqualsAfter(s: string, c: char) {
    forall i :: 0 <= i < |s| && s[i] == '=' ==> i > 0 && s[i - 1] != c
  }

  /** Appending characters other than `=` keeps `NoEqualsAfter`. */
  lemma NoEqualsAfterAppend(a: string, b: string, c: char)
    requires NoEqualsAfter(a, c) && '=' !in b
    ensures NoEqualsAfter(a + b, c)
  {
  }

  /** Appending `=` after a character other than `c` keeps `NoEqualsAfter`. */
  lemma NoEqualsAfterAppendEquals(a: string, c: char)
    requires NoEqualsAfter(a, c) && a != [] && a[|a| - 1] != c
    ensures NoEqualsAfter(a + "=", c)
  {
  }

  /**
   * When no `=` in a line follows the last character of `name`, the line holds
   * no `name=` and masking leaves it exactly as it is.
   */
  lemma UnmaskedWhenNameAbsent(name: string, s: string)
    requires |name| > 0 && NoEqualsAfter(s, name[|name| - 1])
    ensures !Occurs(s, name + "=")
    ensures Mask(name, s) == s
  {
    var p := name + "=";
    forall i | 0 <= i && i + |p| <= |s| ensures !OccursAt(s, p, i) {
      var j := i + |name|;
      if s[j] == '=' {
        assert s[i..i + |p|][|name| - 1] == s[j - 1];
        assert p[|name| - 1] == name[|name| - 1];
      } else {
        assert s[i..i + |p|][|name|] == s[j];
      }
    }
    MaskUnchangedWithoutName(name, s);
  }
}
