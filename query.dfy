/**
 * The application/x-www-form-urlencoded serialisation performed by `urlencode`
 * (section 5.2 of the WHATWG URL Standard): every name/value pair becomes
 * `quote(name) + "=" + quote(value)` and the pairs are joined by `&`.
 * The percent-encoding `quote` (Python's `quote_plus`) is a parameter; all the
 * model asks of it is what section 2 of RFC 3986 guarantees: its output never
 * holds a raw `&` or `=`, and unreserved characters are left as they are.
 */
module Query {
  import opened Text

  /** The parameter dictionary in iteration order: a sequence of name/value pairs. */
  type Params = seq<(string, string)>

  /** Letters, digits and `-._`: the characters both Python 2's and Python 3's `quote_plus` never escape. */
  predicate Unreserved(c: char) {
    'a' <= c <= 'z' || 'A' <= c <= 'Z' || '0' <= c <= '9' || c == '-' || c == '.' || c == '_'
  }

  predicate AllUnreserved(s: string) {
    forall i :: 0 <= i < |s| ==> Unreserved(s[i])
  }

  /** What the serialisation relies on from the percent-encoding. */
  ghost predicate ValidQuote(quote: string -> string) {
    forall s :: '&' !in quote(s) && '=' !in quote(s) && (AllUnreserved(s) ==> quote(s) == s)
  }

  /** `unquote` undoes `quote`, as `unquote_plus` undoes `quote_plus`. */
  ghost predicate Unquotes(unquote: string -> string, quote: string -> string) {
    forall s :: unquote(quote(s)) == s
  }

  function EncodePair(p: (string, string), quote: string -> string): string {
    quote(p.0) + "=" + quote(p.1)
  }

  /** `urlencode(values)`: the encoded pairs joined by `&`. */
  function UrlEncode(ps: Params, quote: string -> string): string {
    if ps == [] then ""
    else if |ps| == 1 then EncodePair(ps[0], quote)
    else EncodePair(ps[0], quote) + "&" + UrlEncode(ps[1..], quote)
  }

  /** Splits one `&`-separated field at its first `=` and unquotes both halves. */
  function DecodeField(f: string, unquote: string -> string): (string, string) {
    var m := Span(f, '=');
    if m == |f| then (unquote(f), unquote("")) else (unquote(f[..m]), unquote(f[m + 1..]))
  }

  /** What a receiving server reads back from a query string: its `&`-separated fields, each decoded. */
  function DecodeQuery(q: string, unquote: string -> string): Params
    decreases |q|
  {
    if q == [] then []
    else
      var n := Span(q, '&');
      [DecodeField(q[..n], unquote)] + (if n == |q| then [] else DecodeQuery(q[n + 1..], unquote))
  }

  /** Decoding one encoded pair gives back the pair. */
  lemma DecodeEncodedPair(p: (string, string), quote: string -> string, unquote: string -> string)
    requires ValidQuote(quote) && Unquotes(unquote, quote)
    ensures '&' !in EncodePair(p, quote)
    ensures DecodeField(EncodePair(p, quote), unquote) == p
  {
    var f := EncodePair(p, quote);
    var k := quote(p.0);
    assert '=' !in k && '&' !in k && '&' !in quote(p.1);
    assert f[|k|] == '=';
    SpanIs(f, '=', |k|);
    assert f[..|k|] == k && f[|k| + 1..] == quote(p.1);
  }

  /** Round trip: the serialised query decodes to exactly the pairs that were serialised, in order. */
  lemma {:induction false} DecodeUrlEncode(ps: Params, quote: string -> string, unquote: string -> string)
    requires ValidQuote(quote) && Unquotes(unquote, quote)
    ensures DecodeQuery(UrlEncode(ps, quote), unquote) == ps
  {
    if ps != [] {
      var e := EncodePair(ps[0], quote);
      DecodeEncodedPair(ps[0], quote, unquote);
      assert |e| > 0 by { assert e[|quote(ps[0].0)|] == '='; }
      if |ps| == 1 {
        SpanIs(e, '&', |e|);
        assert e[..|e|] == e;
      } else {
        var q := e + "&" + UrlEncode(ps[1..], quote);
        SpanIs(q, '&', |e|);
        assert q[..|e|] == e;
        assert q[|e| + 1..] == UrlEncode(ps[1..], quote);
        DecodeUrlEncode(ps[1..], quote, unquote);
      }
    }
  }

  /** How `EscapeSeparators` writes one character. */
  function EscapeChar(c: char): string {
    if c == '%' then "%25" else if c == '&' then "%26" else if c == '=' then "%3D" else [c]
  }

  /**
   * A percent-encoding of just `%`, `&` and `=`. It meets what the serialisation
   * asks of `quote`, so those assumptions can be met.
   */
  function EscapeSeparators(s: string): string
    decreases |s|
  {
    if s == [] then [] else EscapeChar(s[0]) + EscapeSeparators(s[1..])
  }

  /** The decoding of `EscapeSeparators`. */
  function UnescapeSeparators(s: string): string
    decreases |s|
  {
    if |s| >= 3 && s[..3] == "%25" then "%" + UnescapeSeparators(s[3..])
    else if |s| >= 3 && s[..3] == "%26" then "&" + UnescapeSeparators(s[3..])
    else if |s| >= 3 && s[..3] == "%3D" then "=" + UnescapeSeparators(s[3..])
    else if s == [] then []
    else [s[0]] + UnescapeSeparators(s[1..])
  }

  lemma {:induction false} EscapeHasNoSeparators(s: string)
    ensures '&' !in EscapeSeparators(s) && '=' !in EscapeSeparators(s)
    ensures AllUnreserved(s) ==> EscapeSeparators(s) == s
    decreases |s|
  {
    if s != [] {
      EscapeHasNoSeparators(s[1..]);
      EscapeCharNoSeparators(s[0], EscapeSeparators(s[1..]));
      if AllUnreserved(s) {
        assert Unreserved(s[0]);
        assert AllUnreserved(s[1..]) by {
          forall i | 0 <= i < |s[1..]| ensures Unreserved(s[1..][i]) { assert s[1..][i] == s[i + 1]; }
        }
        assert [s[0]] + s[1..] == s;
      }
    }
  }

  /** Escaping one character emits no `&` or `=`, and appending keeps it so. */
  lemma EscapeCharNoSeparators(c: char, e: string)
    requires '&' !in e && '=' !in e
    ensures '&' !in EscapeChar(c) + e && '=' !in EscapeChar(c) + e
  {
  }

  lemma UnescapeChar(c: char, e: string)
    ensures UnescapeSeparators(EscapeChar(c) + e) == [c] + UnescapeSeparators(e)
  {
    var s := EscapeChar(c) + e;
    if c == '%' || c == '&' || c == '=' {
      assert s[..3] == EscapeChar(c) && s[3..] == e;
    } else {
      assert s == [c] + e;
      assert |s| >= 3 ==> s[..3][0] == c;
      assert s[1..] == e;
    }
  }

  lemma {:induction false} UnescapeEscape(s: string)
    ensures UnescapeSeparators(EscapeSeparators(s)) == s
    decreases |s|
  {
    if s != [] {
      UnescapeEscape(s[1..]);
      UnescapeChar(s[0], EscapeSeparators(s[1..]));
      assert [s[0]] + s[1..] == s;
    }
  }

  /** Some encoding meets the serialisation's assumptions. */
  lemma QuoteAssumptionsMet()
    ensures ValidQuote(EscapeSeparators) && Unquotes(UnescapeSeparators, EscapeSeparators)
  {
    forall s ensures '&' !in EscapeSeparators(s) && '=' !in EscapeSeparators(s)
      && (AllUnreserved(s) ==> EscapeSeparators(s) == s) && UnescapeSeparators(EscapeSeparators(s)) == s {
      EscapeHasNoSeparators(s);
      UnescapeEscape(s);
    }
  }
}
