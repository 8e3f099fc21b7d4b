/**
 * The temperatur.nu uploader thread: its configuration fields and `format_url`,
 * which turns a unit-converted weather record into the GET request URL
 * `server_url + "?" + urlencode(values)` and, at debug level 2 or more, logs
 * that URL after masking every `key=` parameter.
 */
module TemperaturNu {
  import opened Text
  import opened Query
  import opened Redaction

  /** A record value: a number, or Python's `None`. */
  datatype Value = Null | Number(x: real)

  /** A unit-converted archive record: field name to value. */
  type Record = map<string, Value>

  /** One row of the field map: temperatur.nu name, weewx field, format spec, multiplier. */
  datatype MapEntry = MapEntry(dest: string, source: string, format: string, multiplier: real)

  /** `format % (value * multiplier)`, the numeric rendering, kept abstract. */
  type Render = (string, real, real) -> string

  /** The default upload endpoint (`_SERVER_URL`). */
  const ServerUrl: string := "http://www.temperatur.nu/rapportera.php"

  /** The field map (`_DATA_MAP`): the outside temperature, in whole degrees Celsius. */
  const DataMap: seq<MapEntry> := [MapEntry("t", "outTemp", "%.0f", 1.0)]

  /** The parameter carrying the station's credential. */
  const HashKey: string := "hash"

  /** The parameter name whose value the debug log masks. */
  const LogMaskedName: string := "key"

  /** A source field counts when it is in the record and is not `None`. */
  predicate Present(record: Record, source: string) {
    source in record && record[source] != Null
  }

  /** The rendered value of an entry whose source field is present. */
  function Rendered(record: Record, e: MapEntry, render: Render): string
    requires Present(record, e.source)
  {
    render(e.format, record[e.source].x, e.multiplier)
  }

  // The `values` dictionary, as an insertion-ordered sequence of pairs.

  function Keys(ps: Params): set<string>
    decreases |ps|
  {
    if ps == [] then {} else {ps[0].0} + Keys(ps[1..])
  }

  /** `values.get(k)`. */
  function Lookup(ps: Params, k: string): (r: Option<string>)
    ensures r.Some? <==> k in Keys(ps)
    decreases |ps|
  {
    if ps == [] then None else if ps[0].0 == k then Some(ps[0].1) else Lookup(ps[1..], k)
  }

  /** No name appears twice, as in any Python dictionary. */
  predicate UniqueKeys(ps: Params) {
    forall i, j :: 0 <= i < j < |ps| ==> ps[i].0 != ps[j].0
  }

  lemma {:induction false} KeysAt(ps: Params, k: string)
    ensures k in Keys(ps) <==> exists i :: 0 <= i < |ps| && ps[i].0 == k
    decreases |ps|
  {
    if ps != [] {
      KeysAt(ps[1..], k);
      if k in Keys(ps[1..]) {
        var i :| 0 <= i < |ps[1..]| && ps[1..][i].0 == k;
        assert ps[i + 1].0 == k;
      }
      if exists i :: 0 <= i < |ps| && ps[i].0 == k {
        var i :| 0 <= i < |ps| && ps[i].0 == k;
        if i > 0 { assert ps[1..][i - 1].0 == k; }
      }
    }
  }

  /**
   * `values[k] = v`: the name `k` then maps to `v`, every other name keeps its
   * value, an existing `k` keeps its place and a new one goes last.
   */
  function Put(ps: Params, k: string, v: string): (r: Params)
    ensures Lookup(r, k) == Some(v)
    ensures forall k' :: k' != k ==> Lookup(r, k') == Lookup(ps, k')
    ensures Keys(r) == Keys(ps) + {k}
    ensures |ps| > 0 && ps[0].0 != k ==> |r| > 0 && r[0] == ps[0]
    ensures k !in Keys(ps) ==> r == ps + [(k, v)]
    ensures k in Keys(ps) ==> |r| == |ps| && forall i :: 0 <= i < |ps| ==> r[i].0 == ps[i].0
    decreases |ps|
  {
    if ps == [] then [(k, v)]
    else if ps[0].0 == k then
      var r := [(k, v)] + ps[1..];
      assert r[1..] == ps[1..];
      assert forall i :: 1 <= i < |ps| ==> r[i] == ps[i];
      r
    else
      var tail := Put(ps[1..], k, v);
      var r := [ps[0]] + tail;
      assert r[1..] == tail;
      assert k in Keys(ps) ==> k in Keys(ps[1..]);
      assert k !in Keys(ps) ==> r == ps + [(k, v)] by {
        if k !in Keys(ps) { assert ps == [ps[0]] + ps[1..]; }
      }
      assert forall i :: 1 <= i < |r| ==> r[i] == tail[i - 1];
      r
  }

  lemma UniqueTail(ps: Params)
    requires ps != [] && UniqueKeys(ps)
    ensures UniqueKeys(ps[1..]) && ps[0].0 !in Keys(ps[1..])
  {
    forall i, j | 0 <= i < j < |ps[1..]| ensures ps[1..][i].0 != ps[1..][j].0 {
      assert ps[1..][i] == ps[i + 1] && ps[1..][j] == ps[j + 1];
    }
    KeysAt(ps[1..], ps[0].0);
    forall i | 0 <= i < |ps[1..]| ensures ps[1..][i].0 != ps[0].0 {
      assert ps[1..][i] == ps[i + 1];
    }
  }

  lemma UniqueCons(p: (string, string), ps: Params)
    requires UniqueKeys(ps) && p.0 !in Keys(ps)
    ensures UniqueKeys([p] + ps)
  {
    var r := [p] + ps;
    KeysAt(ps, p.0);
    forall i, j | 0 <= i < j < |r| ensures r[i].0 != r[j].0 {
      assert r[j] == ps[j - 1];
      if i > 0 { assert r[i] == ps[i - 1]; }
    }
  }

  /** Assignment keeps the names of a dictionary distinct. */
  lemma {:induction false} PutKeepsUnique(ps: Params, k: string, v: string)
    requires UniqueKeys(ps)
    ensures UniqueKeys(Put(ps, k, v))
    decreases |ps|
  {
    if ps == [] {
    } else if ps[0].0 == k {
      UniqueTail(ps);
      UniqueCons((k, v), ps[1..]);
    } else {
      UniqueTail(ps);
      PutKeepsUnique(ps[1..], k, v);
      UniqueCons(ps[0], Put(ps[1..], k, v));
    }
  }

  // The parameters `format_url` sends.

  /** One pass of the loop over the field map: add the entry when its source field is present. */
  function AddEntry(ps: Params, record: Record, e: MapEntry, render: Render): Params {
    if Present(record, e.source) then Put(ps, e.dest, Rendered(record, e, render)) else ps
  }

  /** The `values` dictionary after the loop has visited the entries of `m` in order. */
  function BuildParams(record: Record, hash: string, m: seq<MapEntry>, render: Render): Params
    decreases |m|
  {
    if m == [] then [(HashKey, hash)]
    else AddEntry(BuildParams(record, hash, m[..|m| - 1], render), record, m[|m| - 1], render)
  }

  /** The destination names of the entries whose source field is present. */
  function PresentDests(record: Record, m: seq<MapEntry>): set<string> {
    set e | e in m && Present(record, e.source) :: e.dest
  }

  /** Destination names are distinct, and none of them is the credential's. */
  predicate WellFormedMap(m: seq<MapEntry>) {
    (forall i, j :: 0 <= i < j < |m| ==> m[i].dest != m[j].dest) &&
    (forall i :: 0 <= i < |m| ==> m[i].dest != HashKey)
  }

  /**
   * The parameter names are exactly `hash` and the destination names of the
   * entries whose source field is present and not `None`: an absent or null
   * field adds no name, and no unmapped record field ever becomes one.
   * No name is sent twice.
   */
  lemma {:induction false} ParamsKeys(record: Record, hash: string, m: seq<MapEntry>, render: Render)
    ensures Keys(BuildParams(record, hash, m, render)) == {HashKey} + PresentDests(record, m)
    ensures UniqueKeys(BuildParams(record, hash, m, render))
    decreases |m|
  {
    if m != [] {
      var init := m[..|m| - 1];
      var e := m[|m| - 1];
      var ps := BuildParams(record, hash, init, render);
      ParamsKeys(record, hash, init, render);
      assert m == init + [e];
      assert PresentDests(record, m) == PresentDests(record, init) + (if Present(record, e.source) then {e.dest} else {});
      if Present(record, e.source) {
        PutKeepsUnique(ps, e.dest, Rendered(record, e, render));
      }
    }
  }

  /** As long as no entry is itself named `hash`, the credential goes first and unchanged. */
  lemma {:induction false} ParamsHash(record: Record, hash: string, m: seq<MapEntry>, render: Render)
    requires forall i :: 0 <= i < |m| ==> m[i].dest != HashKey
    ensures Lookup(BuildParams(record, hash, m, render), HashKey) == Some(hash)
    ensures |BuildParams(record, hash, m, render)| > 0 && BuildParams(record, hash, m, render)[0] == (HashKey, hash)
    decreases |m|
  {
    if m != [] {
      ParamsHash(record, hash, m[..|m| - 1], render);
    }
  }

  /**
   * An entry's destination name is sent exactly when its source field is present
   * and not `None`, and then with the entry's format applied to the field's value
   * times the entry's multiplier.
   */
  lemma {:induction false} ParamsEntry(record: Record, hash: string, m: seq<MapEntry>, render: Render, i: nat)
    requires WellFormedMap(m)
    requires i < |m|
    ensures Lookup(BuildParams(record, hash, m, render), m[i].dest) ==
      if Present(record, m[i].source) then Some(Rendered(record, m[i], render)) else None
    decreases |m|
  {
    var init := m[..|m| - 1];
    var e := m[|m| - 1];
    var ps := BuildParams(record, hash, init, render);
    assert WellFormedMap(init);
    if i == |m| - 1 {
      if !Present(record, e.source) {
        ParamsKeys(record, hash, init, render);
      }
    } else {
      ParamsEntry(record, hash, init, render, i);
      assert m[i] == init[i];
    }
  }

  /**
   * The order of the field map does not matter: two well-formed maps with the
   * same entries give every parameter name the same value, whatever order the
   * dictionary iterates in.
   */
  lemma ParamsOrderIrrelevant(record: Record, hash: string, m1: seq<MapEntry>, m2: seq<MapEntry>, render: Render, k: string)
    requires WellFormedMap(m1) && WellFormedMap(m2)
    requires forall e :: e in m1 <==> e in m2
    ensures Lookup(BuildParams(record, hash, m1, render), k) == Lookup(BuildParams(record, hash, m2, render), k)
  {
    ParamsKeys(record, hash, m1, render);
    ParamsKeys(record, hash, m2, render);
    assert PresentDests(record, m1) == PresentDests(record, m2);
    if k == HashKey {
      ParamsHash(record, hash, m1, render);
      ParamsHash(record, hash, m2, render);
    } else if exists i :: 0 <= i < |m1| && m1[i].dest == k {
      var i :| 0 <= i < |m1| && m1[i].dest == k;
      assert m1[i] in m2;
      var j :| 0 <= j < |m2| && m2[j] == m1[i];
      ParamsEntry(record, hash, m1, render, i);
      ParamsEntry(record, hash, m2, render, j);
    } else {
      assert k !in PresentDests(record, m1);
    }
  }

  /** The request URL `format_url` returns for a field map `m`. */
  function RequestUrl(serverUrl: string, hash: string, record: Record, m: seq<MapEntry>, render: Render, quote: string -> string): string {
    serverUrl + "?" + UrlEncode(BuildParams(record, hash, m, render), quote)
  }

  /** The thread's own configuration, fixed when it is constructed. */
  class TemperaturNuThread {
    const hash: string
    const serverUrl: string
    const skipUpload: bool

    /** Stores the credential, the endpoint (by default `_SERVER_URL`) and the dry-run flag. */
    constructor (hash: string, serverUrl: string := ServerUrl, skipUpload: bool := false)
      ensures this.hash == hash && this.serverUrl == serverUrl && this.skipUpload == skipUpload
    {
      this.hash := hash;
      this.serverUrl := serverUrl;
      this.skipUpload := skipUpload;
    }

    /**
     * `format_url`: the request URL for `record`, and the line logged when the
     * debug level is 2 or more. The URL does not depend on the debug level.
     */
    method FormatUrl(record: Record, render: Render, quote: string -> string, debug: int)
      returns (url: string, log: Option<string>)
      ensures url == RequestUrl(serverUrl, hash, record, DataMap, render, quote)
      ensures log == if debug >= 2 then Some("url: " + Mask(LogMaskedName, url)) else None
    {
      var values: Params := [(HashKey, hash)];
      var i := 0;
      while i < |DataMap|
        invariant 0 <= i <= |DataMap|
        invariant values == BuildParams(record, hash, DataMap[..i], render)
      {
        var e := DataMap[i];
        if e.source in record && record[e.source] != Null {
          values := Put(values, e.dest, render(e.format, record[e.source].x, e.multiplier));
        }
        assert DataMap[..i + 1][..i] == DataMap[..i];
        i := i + 1;
      }
      url := serverUrl + "?" + UrlEncode(values, quote);
      if debug >= 2 {
        log := Some("url: " + Mask(LogMaskedName, url));
      } else {
        log := None;
      }
    }
  }

  /**
   * The URL begins with the endpoint and `?`, and what follows decodes to exactly
   * the parameters built from the record: the server reads back every pair sent.
   */
  lemma UrlCarriesParams(serverUrl: string, hash: string, record: Record, m: seq<MapEntry>, render: Render,
                         quote: string -> string, unquote: string -> string)
    requires ValidQuote(quote) && Unquotes(unquote, quote)
    ensures StartsWith(RequestUrl(serverUrl, hash, record, m, render, quote), serverUrl + "?")
    ensures DecodeQuery(RequestUrl(serverUrl, hash, record, m, render, quote)[|serverUrl| + 1..], unquote)
      == BuildParams(record, hash, m, render)
  {
    var q := UrlEncode(BuildParams(record, hash, m, render), quote);
    var url := RequestUrl(serverUrl, hash, record, m, render, quote);
    assert url[..|serverUrl| + 1] == serverUrl + "?";
    assert url[|serverUrl| + 1..] == q;
    DecodeUrlEncode(BuildParams(record, hash, m, render), quote, unquote);
  }

  /** The shipped field map's parameters: `hash`, then `t` when the outside temperature is present. */
  lemma DataMapParams(record: Record, hash: string, render: Render)
    ensures BuildParams(record, hash, DataMap, render) ==
      [(HashKey, hash)] + (if Present(record, "outTemp") then [("t", render("%.0f", record["outTemp"].x, 1.0))] else [])
  {
  }

  /** With the shipped field map the URL is `server_url?hash=<hash>`, then `&t=<value>` when the temperature is present. */
  lemma DataMapUrl(serverUrl: string, hash: string, record: Record, render: Render, quote: string -> string)
    requires ValidQuote(quote)
    ensures RequestUrl(serverUrl, hash, record, DataMap, render, quote) ==
      serverUrl + "?hash=" + quote(hash) +
      (if Present(record, "outTemp") then "&t=" + quote(render("%.0f", record["outTemp"].x, 1.0)) else "")
  {
    DataMapParams(record, hash, render);
    var ps := BuildParams(record, hash, DataMap, render);
    assert AllUnreserved(HashKey) && AllUnreserved("t");
    var first := EncodePair((HashKey, hash), quote);
    assert first == "hash=" + quote(hash) by { assert quote(HashKey) == HashKey; }
    if Present(record, "outTemp") {
      var v := render("%.0f", record["outTemp"].x, 1.0);
      assert ps[1..] == [("t", v)];
      assert EncodePair(("t", v), quote) == "t=" + quote(v) by { assert quote("t") == "t"; }
      assert UrlEncode(ps, quote) == first + "&" + ("t=" + quote(v));
    } else {
      assert UrlEncode(ps, quote) == first;
    }
  }

  /** No `=` in a URL of the shipped shape follows a `y`, given an endpoint and quoted values without `=`. */
  lemma DataMapUrlEqualsFollow(serverUrl: string, h: string, v: string)
    requires '=' !in serverUrl && '=' !in h && '=' !in v
    ensures NoEqualsAfter(serverUrl + "?hash=" + h, 'y')
    ensures NoEqualsAfter(serverUrl + "?hash=" + h + "&t=" + v, 'y')
  {
  }

  /**
   * The debug log does not hide the credential: the masking looks for `key=`,
   * the URL from the shipped field map holds none as long as the endpoint holds
   * no `=`, so the logged URL is the URL itself, `hash=<hash>` included.
   */
  lemma DebugLogShowsHash(serverUrl: string, hash: string, record: Record, render: Render, quote: string -> string)
    requires ValidQuote(quote) && '=' !in serverUrl
    ensures Mask(LogMaskedName, RequestUrl(serverUrl, hash, record, DataMap, render, quote))
      == RequestUrl(serverUrl, hash, record, DataMap, render, quote)
    ensures OccursAt(RequestUrl(serverUrl, hash, record, DataMap, render, quote), "hash=" + quote(hash), |serverUrl| + 1)
  {
    DataMapUrl(serverUrl, hash, record, render, quote);
    var url := RequestUrl(serverUrl, hash, record, DataMap, render, quote);
    var v := if Present(record, "outTemp") then quote(render("%.0f", record["outTemp"].x, 1.0)) else "";
    DataMapUrlEqualsFollow(serverUrl, quote(hash), v);
    var b := serverUrl + "?hash=" + quote(hash);
    assert url == b || url == b + "&t=" + v;
    assert url[..|b|] == b;
    assert url[|serverUrl| + 1..|b|] == "hash=" + quote(hash);
    UnmaskedWhenNameAbsent(LogMaskedName, url);
  }

  /**
   * An example: credential `ABC123` and an outside temperature of 21.4,
   * rendered as `21`, give `...rapportera.php?hash=ABC123&t=21`.
   */
  lemma ExampleRequest(render: Render, quote: string -> string)
    requires ValidQuote(quote) && render("%.0f", 21.4, 1.0) == "21"
    ensures RequestUrl(ServerUrl, "ABC123", map["outTemp" := Number(21.4)], DataMap, render, quote)
      == ServerUrl + "?hash=ABC123&t=21"
  {
    var record := map["outTemp" := Number(21.4)];
    DataMapUrl(ServerUrl, "ABC123", record, render, quote);
    assert AllUnreserved("ABC123") && AllUnreserved("21");
  }

  /** In that example the debug log shows the URL unmasked, `hash=ABC123` included. */
  lemma ExampleLogUnmasked(render: Render, quote: string -> string)
    requires ValidQuote(quote) && render("%.0f", 21.4, 1.0) == "21"
    ensures Mask(LogMaskedName, ServerUrl + "?hash=ABC123&t=21") == ServerUrl + "?hash=ABC123&t=21"
  {
    var record := map["outTemp" := Number(21.4)];
    ExampleRequest(render, quote);
    assert '=' !in ServerUrl;
    DebugLogShowsHash(ServerUrl, "ABC123", record, render, quote);
  }
}
