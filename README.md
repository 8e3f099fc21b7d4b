# temperatur.nu request formatter, modelled in Dafny

This project models the request side of the weewx temperatur.nu uploader
(`bin/user/temperaturnu.py`). The model covers the uploader thread's
configuration fields and `TemperaturNuThread.format_url`. That method:

1. starts the parameter dictionary with the station's `hash`;
2. walks the field map `_DATA_MAP` and adds a destination name only when its
   source field is in the record and is not `None`, with the entry's format
   applied to the value times the entry's multiplier;
3. returns `server_url + '?' + urlencode(values)`;
4. at debug level 2 or more, logs that URL after `re.sub(r"key=[^\&]*", "key=XXX", url)`.

Files and modules:

- `text.dfy` (`Text`): `Span`, the position of the first occurrence of a character,
  plus prefix and occurrence predicates.
- `query.dfy` (`Query`): the `urlencode` serialisation. Each name and value goes
  through `quote` and the pairs are joined by `&` (application/x-www-form-urlencoded,
  section 5.2 of the WHATWG URL Standard). `quote` (Python's `quote_plus`) is a
  parameter. `ValidQuote` says what the model needs from it, each point per
  section 2 of RFC 3986: no raw `&` or `=` in its output, and letters, digits and
  `-._` left as they are. `DecodeQuery` is the reading a receiving server makes.
  It is the partner `UrlEncode` is proved against. `EscapeSeparators` and
  `UnescapeSeparators` are one concrete encoding that meets these assumptions
  (`QuoteAssumptionsMet`), which shows the assumptions can all hold at once.
- `redaction.dfy` (`Redaction`): `Mask(name, s)` reads `re.sub(name + "=[^&]*", name + "=XXX", s)`
  as a left-to-right scan. Each match runs to the next `&` or to the end. Its
  lemmas state what the substitution does. `MaskByFields` is an independent
  field-by-field definition, proved equal to `Mask`.
- `temperaturnu.dfy` (`TemperaturNu`): records, the field map, the parameter
  dictionary, `BuildParams` (the specification of the loop), the class
  `TemperaturNuThread` with its constructor and `FormatUrl`, and the URL lemmas.

Modelling choices:

- A record maps field names to `Null` or `Number(x)`.
- The numeric rendering `'%.0f' % (v * m)` is a parameter `render(format, v, m)`.
- The parameter dictionary is a sequence of name/value pairs in insertion order.
  That is Python 3's dictionary order. `Put` is `values[k] = v`: an existing
  name keeps its place and takes the new value, and a new name goes last.
  Python 2 dictionaries have no fixed order. So the key-presence lemmas are
  stated over sets and lookups, and `ParamsOrderIrrelevant` proves that the order
  of the field map changes no parameter's value.
- `weewx.debug` is the `debug` argument of `FormatUrl`. The log line is its
  second result; the URL does not depend on it.
- The three configuration fields are `const`: they are fixed once the object is
  constructed.
- The debug redaction masks `key=[^&]*`, while the credential parameter is
  named `hash`, so the credential is logged in clear. The model follows the code:
  `DebugLogShowsHash` proves that the shipped configuration logs the URL
  unchanged, `hash=<credential>` included. `MaskHidesValues`, with the name
  `hash`, states what masking that name would guarantee.

## Model

| member | source | states |
|---|---|---|
| `TemperaturNu.ServerUrl` | bin/user/temperaturnu.py:106 | the default endpoint `http://www.temperatur.nu/rapportera.php`; `ExampleRequest` and `DebugLogShowsHash` state what it yields |
| `TemperaturNu.DataMap` | bin/user/temperaturnu.py:111-112 | the shipped field map, one entry `t` from `outTemp` with format `%.0f` and multiplier 1.0; `DataMapParams` and `DataMapUrl` state what it yields |
| `TemperaturNu.Present` | bin/user/temperaturnu.py:150 | the test `rkey in record and record[rkey] is not None`; `ParamsEntry` and `ParamsKeys` state its effect on the parameters |
| `TemperaturNu.AddEntry` | bin/user/temperaturnu.py:149-152 | one pass of the loop body: assign the rendered value when the source field is present, otherwise leave the dictionary alone; its effect is stated by `ParamsEntry` and `ParamsKeys` |
| `TemperaturNu.BuildParams` | bin/user/temperaturnu.py:145-152 | the dictionary the loop leaves, starting from `{'hash': hash}`; `FormatUrl` is proved to compute it, and `ParamsKeys`, `ParamsHash`, `ParamsEntry` and `ParamsOrderIrrelevant` state its content |
| `TemperaturNu.RequestUrl` | bin/user/temperaturnu.py:153 | `server_url + '?' + urlencode(values)`; `UrlCarriesParams` proves the query decodes back to the parameters, and `DataMapUrl` gives the string for the shipped map |
| `Query.EncodePair` | bin/user/temperaturnu.py:153 | one `name=value` item of `urlencode`, both halves quoted; `DecodeEncodedPair` proves it splits back into the pair |
| `Query.UrlEncode` | bin/user/temperaturnu.py:153 | `urlencode` of an ordered dictionary: the encoded pairs joined by `&`; `DecodeUrlEncode` proves the round trip |
| `Redaction.Mask` | bin/user/temperaturnu.py:155 | the left-to-right scan of `re.sub(r"key=[^\&]*", "key=XXX", url)`; `MaskIsFieldwise`, `MaskIdempotent`, `MaskUnchangedWithoutName`, `MaskKeepsOccurrence` and `MaskHidesValues` state its properties |
| `TemperaturNu.TemperaturNuThread.constructor` | bin/user/temperaturnu.py:114-132 | `hash`, `server_url` (default `_SERVER_URL`) and `skip_upload` (default false) are stored exactly as given |
| `TemperaturNu.TemperaturNuThread.FormatUrl` | bin/user/temperaturnu.py:143-156 | the URL is `server_url + "?" + urlencode` of the parameters built by the loop from the configured hash, the record and `_DATA_MAP`, whatever the debug level; at debug level 2 or more the log line is `"url: "` + the URL with every `key=` value masked, otherwise nothing is logged |
| `TemperaturNu.Put` | bin/user/temperaturnu.py:152 | after `values[k] = v`, `k` maps to `v`, every other name keeps its value, the set of names gains exactly `k`; an existing `k` keeps its position with every name in its place, a new `k` is appended last, and a first pair with another name stays first |
| `TemperaturNu.PutKeepsUnique` | bin/user/temperaturnu.py:152 | assigning into the dictionary never makes a name appear twice |
| `TemperaturNu.ParamsKeys` | bin/user/temperaturnu.py:145-152 | the parameter names are exactly `hash` plus the destination names of the entries whose source field is present and not `None`; no unmapped record field becomes a name, and no name appears twice |
| `TemperaturNu.ParamsHash` | bin/user/temperaturnu.py:145-147 | when no entry is named `hash`, the parameters hold `hash` with exactly the configured value, in first place |
| `TemperaturNu.ParamsEntry` | bin/user/temperaturnu.py:148-152 | in a map with distinct destination names other than `hash`, an entry's name is sent if and only if its source field is present and not `None`, and then with the entry's format applied to the value and multiplier; an absent or null field sends no name at all |
| `TemperaturNu.ParamsOrderIrrelevant` | bin/user/temperaturnu.py:148 | two well-formed field maps with the same entries, in any order, give every parameter name the same value |
| `TemperaturNu.UrlCarriesParams` | bin/user/temperaturnu.py:153 | the URL begins with `server_url` followed by `?`, and the rest decodes to exactly the parameters built from the record |
| `TemperaturNu.DataMapParams` | bin/user/temperaturnu.py:111-112 | with the shipped field map the parameters are `hash`, then `t` with `'%.0f'` of `outTemp` times 1.0 exactly when `outTemp` is present and not `None` |
| `TemperaturNu.DataMapUrl` | bin/user/temperaturnu.py:145-153 | with the shipped field map the URL is `server_url?hash=<quoted hash>`, followed by `&t=<quoted value>` exactly when the temperature is present |
| `TemperaturNu.DebugLogShowsHash` | bin/user/temperaturnu.py:154-155 | with the shipped field map and a server URL without `=`, masking changes nothing: the logged URL contains `hash=` followed by the quoted credential |
| `TemperaturNu.ExampleRequest` | bin/user/temperaturnu.py:143-156 | credential `ABC123` and `outTemp` 21.4, rendered as `21`, give `http://www.temperatur.nu/rapportera.php?hash=ABC123&t=21` |
| `TemperaturNu.ExampleLogUnmasked` | bin/user/temperaturnu.py:154-155 | the debug substitution leaves that example URL exactly as it is, credential included |
| `Query.DecodeUrlEncode` | bin/user/temperaturnu.py:153 | decoding the serialised parameters gives back exactly those parameters, in order |
| `Redaction.MaskIsFieldwise` | bin/user/temperaturnu.py:155 | the substitution equals the field-by-field reading: each `&`-separated field holding `key=` is cut after its first `key=` and given `XXX`; every other field is unchanged |
| `Redaction.MaskIdempotent` | bin/user/temperaturnu.py:155 | masking an already masked line changes nothing |
| `Redaction.MaskUnchangedWithoutName` | bin/user/temperaturnu.py:155 | a line without `key=` is logged exactly as it is |
| `Redaction.MaskKeepsOccurrence` | bin/user/temperaturnu.py:155 | the masked line contains `key=` if and only if the original does |
| `Redaction.MaskHidesValues` | bin/user/temperaturnu.py:155 | every `key=` in the masked line is followed by `XXX` and then by `&` or the end of the line |
| `Redaction.UnmaskedWhenNameAbsent` | bin/user/temperaturnu.py:155 | when no `=` in a line follows a `y`, the line holds no `key=` and masking leaves it unchanged, so `hash=<value>` passes through |

## Left out

- The delivery worker policy inherited from `weewx.restx.RESTThread` is left out. This covers queue draining, `max_backlog`, `stale`, `post_interval`, retries, timeouts and the `skip_upload` dry run. That class is not part of this model; the constructor passes those arguments to it without using them (bin/user/temperaturnu.py:119-129). The model keeps only the three fields the thread sets itself.
- The constructor's `queue`, `manager_dict` and worker-policy arguments are left out: they are passed to the base class only.
- The producer side is left out: `TemperaturNu.__init__`, `new_archive_record`, the queue and the thread start (bin/user/temperaturnu.py:83-102). It is service and threading plumbing.
- `get_record` is left out. It delegates to the base class and to `weewx.units.to_METRICWX`, both foreign code over floating point.
- The float product and the `%.0f` rounding are left out: they become the `render` parameter.
- The exact percent-encoding table of `quote_plus` is left out. This library call is the `quote` parameter; the model relies only on `ValidQuote`.
- `TemperaturNu.TemperaturNuThread.constructor`: takes `skip_upload` as a boolean already. The `weeutil.to_bool` conversion from configuration text is foreign code.
- Logging through `syslog` or `logging` and the weewx version check are left out (bin/user/temperaturnu.py:47-80). They are I/O and environment. The debug line is returned as a value instead.
- `install.py` is left out. It is installer configuration with no logic.
- `TemperaturNu.ParamsHash`: assumes that no field-map entry is named `hash`. Python would overwrite the credential with such an entry's value, and `Put` models that overwrite. The shipped map has no such entry.
- `TemperaturNu.DebugLogShowsHash`: stated for the shipped field map and for server URLs without `=`. The default `_SERVER_URL` is one of those.
- `Redaction.Mask`: the pattern `name + "=[^&]*"` is read with `name` as literal text. Regular-expression metacharacters in a name are not modelled; the source passes the literal `key`.
