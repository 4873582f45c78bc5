# SlyAPI credential and request logic in Dafny

This project models the logic in the SlyAPI Python client that does not need the network, and proves properties of that model. It covers three source files.

- **OAuth 1.0a signing** (`src/SlyAPI/oauth1.py`, RFC 5849). It covers:
  - the percent-encoding of section 3.6;
  - the parameter normalisation of section 3.4.1.3.2;
  - the signature base string and the HMAC-SHA1 key of sections 3.4.1.1 and 3.4.2;
  - the protocol parameters (nonce and timestamp);
  - the two `sign` methods;
  - the `Authorization: OAuth ...` header of section 3.5.1.
- **OAuth 2.0 with PKCE** (`src/SlyAPI/oauth2.py`, RFC 6749 and RFC 7636). It covers:
  - reading a user from its three JSON shapes, and writing it back with `to_dict`;
  - reading an app from its two JSON shapes;
  - the parameters and link of the authorisation request;
  - applying a refresh response;
  - the expiry-triggered refresh inside `OAuth2.sign`, modelled as a class with a mutable user;
  - the redirect checks and the code exchange of `command_line_oauth2`.
- **Request preparation and paging** (`src/SlyAPI/webapi.py`). It covers:
  - `convert_url_params`;
  - `EnumParam` value sets and `combine_params`;
  - `get_full_url` and `_prepare_req`;
  - the status rules of `_req_json`, `_req_text` and `_req_empty`, with the `api_err` reason;
  - the `paginated` cursor loop, run over a given finite sequence of server answers.

Effects outside the program become inputs:
- **Primitives.** HMAC-SHA1, SHA-256, base64 and URL-safe base64 are uninterpreted functions in `Crypto.Primitives`.
- **Random values.** The 32 random nonce bytes and the two `secrets.token_urlsafe(54)` strings are parameters.
- **Clock.** The clock is a `now: Calendar.Instant` parameter.
- **Responses.** A server response is a `Web.Response`: a status, a text, and an optional decoded JSON body.
- **Local time zone.** The host's offset from UTC is a parameter of `OAuth1.TimestampAsWritten` only (see Findings). The signing path uses the corrected `OAuth1.Timestamp`, that is, a host at UTC.

The library behaviour the core relies on is modelled concretely, each in its own module:
- `Utf8`: UTF-8 encoding;
- `Percent`: byte-wise percent-encoding;
- `UrlLib`: `urllib.parse.urlencode` with `quote_plus`, and a parser that inverts it;
- `Order`: code-point string order and `sorted` on a set;
- `Text`: `split`, `join`, `upper`, `strip`, `str(int)` and `int(str)`;
- `Calendar`: naive `datetime`, `timedelta` addition and the `'%Y-%m-%dT%H:%M:%SZ'` formatter and parser;
- `Json`: JSON-like values, with Python truthiness, `repr` and `str`;
- `Web`: the `Method` enum, the `Request` class and responses.

Loops in the source are methods with loop invariants. Each such method is proved equal to a specification function, and the properties are lemmas about that function:
- `OAuth1.PercentEncode`;
- `OAuth1.ParamString`;
- `OAuth1.HmacSign`;
- `WebApi.CombineParams`;
- `WebApi.WebApi.Paginated`, with its inner loop `WebApi.WebApi.YieldPage`.

Where the code and its documentation differ, the model follows the code:
- **Expiry check.** `OAuth2.sign` refreshes only when `now > expires_at`, a strict comparison (src/SlyAPI/oauth2.py:199).
- **Null refresh token.** A grant response whose `refresh_token` is an explicit `null` yields a user whose refresh token is `None`, and the warning fires. Only an absent key gives `""` (src/SlyAPI/oauth2.py:71-76).
- **Field values.** User and app fields hold whatever JSON value the object carried, as the dataclasses do; their types are not checked.
- **Refresh callback.** The `on_refresh` callback is stored but never called (src/SlyAPI/oauth2.py:194).

## Model

| member | source | states |
|---|---|---|
| OAuth1.PercentEncode | src/SlyAPI/oauth1.py:16-21 | the byte-by-byte loop over the UTF-8 encoding computes `Encoded(s)`: each unreserved byte as itself, every other byte as `%XX` |
| OAuth1.EncodedChars | src/SlyAPI/oauth1.py:16-21 | an encoding never contains `&`, `=`, space, `"` or `,`, and is pure ASCII |
| OAuth1.EncodedDecodes | src/SlyAPI/oauth1.py:16-21 | the encoding is a well-formed sequence of units with upper-case hex digits; percent-decoding it gives the UTF-8 bytes, and decoding those gives the string back |
| OAuth1.EncodedInjective | src/SlyAPI/oauth1.py:16-21 | distinct strings have distinct encodings |
| OAuth1.EncodedUnreserved | src/SlyAPI/oauth1.py:18-20 | a string made only of `A-Za-z0-9-._~` encodes as itself |
| OAuth1.EncodesReserved | src/SlyAPI/oauth1.py:18-20 | `&`, `=`, `%` and space are always escaped, as `%26`, `%3D`, `%25` and `%20` |
| OAuth1.EncodedAsciiChar | src/SlyAPI/oauth1.py:19-20 | an ASCII character is encoded as the single unit of its one byte |
| OAuth1.EncodedParamsAt | src/SlyAPI/oauth1.py:26-28 | every parameter has its entry in the encoded dict: `enc(k)` maps to `enc(params[k])` |
| OAuth1.EncodedParamsKeys | src/SlyAPI/oauth1.py:26-28 | every key of the encoded dict is the encoding of a parameter's key |
| OAuth1.EncodedParamsInjective | src/SlyAPI/oauth1.py:26-28 | two parameter maps with the same encoded dict are equal |
| OAuth1.ParamKeys | src/SlyAPI/oauth1.py:29 | the encoded keys in strictly ascending order, exactly the keys of the encoded dict |
| OAuth1.ParamString | src/SlyAPI/oauth1.py:24-31 | the loop appending `k=v` per sorted key, then joining with `&`, computes `ParamStringOf(params)` |
| OAuth1.ParamStringEmpty | src/SlyAPI/oauth1.py:24-31 | the empty map gives `""` |
| OAuth1.FieldShape | src/SlyAPI/oauth1.py:30 | the i-th field is the i-th sorted encoded key and its encoded value around one `=`, and contains no `&` |
| OAuth1.ParamStringFields | src/SlyAPI/oauth1.py:29-31 | splitting the parameter string at `&` gives the fields back, in ascending key order |
| OAuth1.ParamStringInjective | src/SlyAPI/oauth1.py:24-31 | the parameter string determines the parameter map, so it depends on the parameters only and not on dict order |
| OAuth1.FieldsDetermine | src/SlyAPI/oauth1.py:29-31 | equal field lists come from equal encoded dicts |
| OAuth1.BaseStringAscii | src/SlyAPI/oauth1.py:35 | the base string is ASCII exactly when the HTTP method is |
| OAuth1.BaseStringAmpersands | src/SlyAPI/oauth1.py:35 | the base string has exactly two more `&` than the method |
| OAuth1.BaseStringParts | src/SlyAPI/oauth1.py:35 | for a method without `&`, the base string splits at `&` into `UPPER(method)`, `enc(url)` and `enc(paramString(params))` |
| OAuth1.SigningKey | src/SlyAPI/oauth1.py:39-41 | the key is ASCII |
| OAuth1.SigningKeyParts | src/SlyAPI/oauth1.py:39-41 | the key holds exactly one `&`, even when the user secret is absent or both secrets are empty; it splits there into `enc(appSecret)` and `enc(userSecret)` or `""` |
| OAuth1.Signature | src/SlyAPI/oauth1.py:34-44 | signing fails exactly when the method is not ASCII, where `bytes(base, 'ascii')` raises |
| OAuth1.HmacSign | src/SlyAPI/oauth1.py:34-44 | the method that builds the key with `+=` computes `Signature` |
| OAuth1.NonceShape | src/SlyAPI/oauth1.py:47 | the nonce neither starts nor ends with `+`, `/` or `=`, and is a slice of the base64 text that only cuts such characters from the ends |
| OAuth1.TruncatedSeconds | src/SlyAPI/oauth1.py:48 | `int()` of the float timestamp truncates toward zero, on both signs |
| OAuth1.Timestamp | src/SlyAPI/oauth1.py:48 | the intended timestamp reads back as the whole seconds since the epoch |
| OAuth1.TimestampSkew | src/SlyAPI/oauth1.py:48 | as written, on a host with a nonzero UTC offset the timestamp is off by the offset, and differs from the intended one |
| OAuth1.TimestampSkewExample | src/SlyAPI/oauth1.py:48 | at UTC+1, 2023-01-01T00:00:00Z (1672531200) is written as 1672527600 |
| OAuth1.TimestampAtUtc | src/SlyAPI/oauth1.py:48 | at UTC the written and the intended timestamp agree |
| OAuth1.CommonParams | src/SlyAPI/oauth1.py:46-57 | the five keys; the consumer key and nonce as given; method `HMAC-SHA1`; version `1.0`; the corrected timestamp (see Findings) reads back as `now` in seconds |
| OAuth1.ProtocolParams | src/SlyAPI/oauth1.py:51-57 | exactly the five protocol keys, holding the given values |
| OAuth1.SignWith | src/SlyAPI/oauth1.py:66-70 | the signature covers the caller's parameters overridden by the signing ones; the result is the signing parameters plus `oauth_signature`, and nothing of the caller's |
| OAuth1.AppSign | src/SlyAPI/oauth1.py:64-70 | `OAuth1App.sign`: fails iff the method is non-ASCII; otherwise the five common parameters plus the signature of `params \| common` under the app secret alone |
| OAuth1.SignatureKeyFresh | src/SlyAPI/oauth1.py:70 | `oauth_signature` is not among the protocol keys, so adding it replaces nothing |
| OAuth1.TokenParams | src/SlyAPI/oauth1.py:94-96 | the common parameters and `oauth_token` = the user's key |
| OAuth1.Sign | src/SlyAPI/oauth1.py:93-101 | `OAuth1.sign`: fails iff the method is non-ASCII; otherwise the keys are exactly the six token parameters and `oauth_signature`, with the signature of `params \| signing` under both secrets |
| OAuth1.HeaderKeysSorted | src/SlyAPI/oauth1.py:105 | the sorted keys of a user-signed request are the seven listed protocol keys, in that order |
| OAuth1.HeaderKeysUnreserved | src/SlyAPI/oauth1.py:105 | each of those keys encodes as itself |
| OAuth1.HeaderValueOrder | src/SlyAPI/oauth1.py:105 | when the sorted keys are `h` and encode as themselves, the header lists `k="enc(v)"` in the order of `h` |
| OAuth1.HeaderValueOfSigned | src/SlyAPI/oauth1.py:105 | for a signed map, the header value lists the seven keys in ascending order |
| OAuth1.GetHeaders | src/SlyAPI/oauth1.py:103-108 | a single `Authorization` entry: `OAuth ` then `k="enc(v)"` for the seven signed keys in ascending order, joined by `, `; fails iff signing fails |
| OAuth1.Refresh | src/SlyAPI/oauth1.py:121 | refreshing always fails with NotImplementedError |
| OAuth2.PyInt | src/SlyAPI/oauth2.py:69 | `int(v)`: an int is itself, a string is parsed as decimal, anything other than int, bool or string raises |
| OAuth2.ScopeList | src/SlyAPI/oauth2.py:72 | a list with one entry per piece of `scope.split(' ')` |
| OAuth2.FromGrant | src/SlyAPI/oauth2.py:63-77 | a grant response fails iff `expires_in` is not an int, the expiry leaves the datetime range, or `scope` is not a string; otherwise: token and type copied, `expires_at = now + expires_in`, refresh token `""` when absent, scopes split at spaces (`[""]` when absent); the warning fires iff `refresh_token` is an explicit null |
| OAuth2.UserFromJsonObj | src/SlyAPI/oauth2.py:43-79 | ValueError exactly when the object matches none of the three shapes, which are tried in order; a `to_dict` object succeeds iff its `expires_at` parses, with the four other fields copied and the parsed expiry; an `asdict` object always succeeds with its fields copied; a grant object reads as `FromGrant`; the two persisted shapes never warn |
| OAuth2.ToDict | src/SlyAPI/oauth2.py:87-94 | the five keys, with `expires_at` a string in `%Y-%m-%dT%H:%M:%SZ` shape |
| OAuth2.AsDict | src/SlyAPI/oauth2.py:55-62 | the `asdict` shape: the five keys, with the expiry kept as a datetime |
| OAuth2.ToDictRoundTrip | src/SlyAPI/oauth2.py:46-54 | reading back `to_dict(u)` gives `u`, with its expiry truncated to whole seconds, and no warning |
| OAuth2.ToDictRoundTripExact | src/SlyAPI/oauth2.py:87-94 | at whole-second precision, `from_json_obj(to_dict(u)) == u` |
| OAuth2.AsDictRoundTrip | src/SlyAPI/oauth2.py:55-62 | reading back `asdict(u)` gives `u` exactly |
| OAuth2.AppFromJsonObj | src/SlyAPI/oauth2.py:104-122 | succeeds exactly on the flat or the Google form, otherwise ValueError; the flat form reads `id`, `secret`, `auth_uri` and `token_uri`, and the Google form, tried only when the flat one fails, reads `client_id`, `client_secret`, `auth_uri` and `token_uri` of `web` |
| OAuth2.AppFormsAgree | src/SlyAPI/oauth2.py:106-120 | the flat form and the nested `web` form of the same credentials read as the same app |
| OAuth2.CodeChallenge | src/SlyAPI/oauth2.py:133-134 | the challenge is the URL-safe base64 of the SHA-256 of the UTF-8 verifier, with its trailing `=` removed: a prefix of it, the rest all `=`, and it does not end in `=` |
| OAuth2.AuthParams | src/SlyAPI/oauth2.py:135-145 | the nine parameters of the authorisation request |
| OAuth2.AuthParamsClient | src/SlyAPI/oauth2.py:136-138 | `client_id`, `redirect_uri`, and `response_type` = `code` |
| OAuth2.AuthParamsPkce | src/SlyAPI/oauth2.py:139-141 | `state` = state + challenge, `code_challenge` of the verifier, `code_challenge_method` = `S256` |
| OAuth2.AuthParamsAccess | src/SlyAPI/oauth2.py:142-144 | `scope`, `access_type` = `offline`, `prompt` = `consent` |
| OAuth2.AuthUrlWithPkce | src/SlyAPI/oauth2.py:130-146 | returns the verifier and the state challenge; the link is `auth_uri?` and a query that parses back to exactly the nine parameters, in order |
| OAuth2.RefreshData | src/SlyAPI/oauth2.py:149-154 | the refresh form: `grant_type` = `refresh_token`, the user's refresh token, the app's id and secret |
| OAuth2.Refresh | src/SlyAPI/oauth2.py:158-180 | non-200 is an ApiError with the text; an undecodable body or an unrecognised one is an error; success exactly on a 200 grant-shaped body, giving the new token, type and `now + expires_in`, with refresh token and scopes unchanged |
| OAuth2.RefreshKeepsRest | src/SlyAPI/oauth2.py:174-177 | the refreshed copy differs from the user only in token, token type and expiry |
| OAuth2.AuthorizationValue | src/SlyAPI/oauth2.py:203 | `str(token_type)`, one space, then `str(token)`, exactly |
| OAuth2.SignKeepsLiveToken | src/SlyAPI/oauth2.py:199 | a user whose expiry is not strictly before `now` is used unchanged |
| OAuth2.SignRefreshesExpired | src/SlyAPI/oauth2.py:199-201 | an expired user is replaced by the refreshed one; a successful refresh had a positive lifetime |
| OAuth2.OAuth2.constructor | src/SlyAPI/oauth2.py:190-195 | the app and user are stored |
| OAuth2.OAuth2.Sign | src/SlyAPI/oauth2.py:197-204 | on success: the user is the one `sign` ends up with, and the headers gain only `Authorization`; on failure: user and headers are unchanged |
| OAuth2.RedirectCode | src/SlyAPI/oauth2.py:232-238 | the checks in order: missing `state`, wrong `state`, missing `code`, each an error of its own; when all three checks pass, exactly `Ok(query['code'])` |
| OAuth2.GrantData | src/SlyAPI/oauth2.py:241-248 | the exchange form: `grant_type` = `authorization_code`, the code, the client id, the redirect URI, the scopes and the verifier |
| OAuth2.BasicAuthorization | src/SlyAPI/oauth2.py:250 | `Basic ` followed by the base64 of the UTF-8 of `id:secret` |
| OAuth2.GrantHeaders | src/SlyAPI/oauth2.py:249-252 | exactly `Authorization` with the Basic credentials, and the form content type |
| OAuth2.CommandLineFlow | src/SlyAPI/oauth2.py:216-261 | an error in obtaining the code stops the flow with that error; otherwise the flow succeeds exactly on a 200 JSON grant response that reads as a user; on success it sent the exchange form built from the obtained code (the typed one on the pin path, the redirect's `code` on the browser path) and the verifier, with the Basic credentials, and returns what `from_json_obj` reads |
| OAuth2.FlowRejectsForeignState | src/SlyAPI/oauth2.py:232-235 | a redirect whose state is not the challenge stops the flow before any exchange |
| OAuth2.LinkMatchesGrant | src/SlyAPI/oauth2.py:219-247 | for any code, the link's state, code challenge and redirect URI agree with the verifier and redirect URI of the exchange form |
| OAuth2.FlowBindsVerifier | src/SlyAPI/oauth2.py:219-247 | in a successful flow, the link's state is the challenge alone, its code challenge is that of the verifier the flow's own exchange sent, and both use the same redirect URI |
| WebApi.ConvertUrlParams | src/SlyAPI/webapi.py:77-80 | `None` gives `{}`; the result keeps exactly the keys whose value is neither None nor `''`, each as `str(v)`, and no value is empty |
| WebApi.ConvertIdempotent | src/SlyAPI/webapi.py:77-80 | converting converted parameters changes nothing |
| WebApi.Member | src/SlyAPI/webapi.py:41-45 | a fresh member's value set is its own value |
| WebApi.Add | src/SlyAPI/webapi.py:47-50 | `a + b` is `a` with `b.value` added to its value set |
| WebApi.AddContains | src/SlyAPI/webapi.py:47-56 | after adding, `c in a + b` iff `c in a` or `c` has `b`'s value: monotone, and the added member is contained |
| WebApi.ContainsAfterAdd | test/test_enum_params.py:16-23 | a member contains itself and not another; after `+=` it contains both |
| WebApi.Title | src/SlyAPI/webapi.py:58-60 | the class name with only its first character lower-cased |
| WebApi.TitleSetsKeys | src/SlyAPI/webapi.py:69-72 | one key per distinct title of the parameters |
| WebApi.TitleSetsValues | src/SlyAPI/webapi.py:69-72 | a value is under a title iff some parameter with that title has it |
| WebApi.TitleSetsCover | src/SlyAPI/webapi.py:72 | every parameter's values are under its title |
| WebApi.TitleSetsDuplicate | src/SlyAPI/webapi.py:72 | repeating a parameter changes nothing |
| WebApi.CombineSingle | test/test_enum_params.py:8-10 | `combine_params(Scope.READONLY) == {'scope': 'test.readonly'}` |
| WebApi.CombineParams | src/SlyAPI/webapi.py:67-75 | the loop computes `Combined`: per title, the union of the value sets, joined by the delimiter |
| WebApi.ApiErr | src/SlyAPI/webapi.py:28-33 | the reason is the result's `message` when there is one, the response text otherwise |
| WebApi.ReqJson | src/SlyAPI/webapi.py:108-116 | accepted iff 200 <= status < 300; returns the JSON, or the text where `resp.json()` raises ContentTypeError; the error reason follows `api_err` |
| WebApi.ReqText | src/SlyAPI/webapi.py:118-123 | accepted iff status is 200; returns the text |
| WebApi.ReqEmpty | src/SlyAPI/webapi.py:125-128 | accepted iff status is 204; the error reason is the text |
| WebApi.AcceptanceRules | src/SlyAPI/webapi.py:114-128 | a 200 or 204 accepted elsewhere is accepted by a JSON call; no status is accepted by both the text and the empty call |
| WebApi.RequestBody | src/SlyAPI/webapi.py:134-141 | the body is `json` when given, else `data`, else `{}`; never None; `data_is_json` iff `json` was given |
| WebApi.WebApi.constructor | src/SlyAPI/webapi.py:91 | the API's base URL is stored |
| WebApi.WebApi.FullUrl | src/SlyAPI/webapi.py:104-106 | the base URL followed by the path |
| WebApi.WebApi.PrepareReq | src/SlyAPI/webapi.py:130-144 | a new request with the method, the full URL, the converted query, the headers or `{}`, and the body and flag of `RequestBody` |
| WebApi.PageItems | src/SlyAPI/webapi.py:189 | `items`, or `data` when `items` is absent, or None |
| WebApi.TakenOnPage | src/SlyAPI/webapi.py:193-197 | the page stops the listing iff a limit is set and is reached on it; then `max(limit - count, 1)` of its items are yielded, between 1 and all of them |
| WebApi.OnePage | src/SlyAPI/webapi.py:187-201 | the listing continues only after yielding items below the limit, with `pageToken` set to the truthy `nextPageToken`; a non-list page yields nothing and stops |
| WebApi.OnePageItems | src/SlyAPI/webapi.py:187-197 | a page yields a prefix of its item list; all of it when the listing goes on or there is no limit; `max(limit - count, 1)` items of a non-empty list on which the limit is reached |
| WebApi.WebApi.YieldPage | src/SlyAPI/webapi.py:193-197 | the inner loop stops iff the limit is reached on the page, and yields the prefix `TakenOnPage` counts, or all items |
| WebApi.WebApi.PageStep | src/SlyAPI/webapi.py:187-201 | a turn of the loop computes `OnePage` |
| WebApi.WebApi.Paginated | src/SlyAPI/webapi.py:176-201 | the loop computes `Paginate` over the answers: items, requests made, final parameters |
| WebApi.ListingBound | src/SlyAPI/webapi.py:196-197 | from a count below the limit, a listing ends with at most the limit, or one more item than it started with |
| WebApi.ListingItems | src/SlyAPI/webapi.py:184-201 | from any answer on: every requested page but the last is yielded in full and in order, then a prefix of the last page's list |
| WebApi.ListingAll | src/SlyAPI/webapi.py:184-201 | without a limit, the items of every requested page, in order |
| WebApi.PaginateItems | src/SlyAPI/webapi.py:176-201 | `paginated` yields the item lists of the requested pages in order, the last one possibly cut by the limit; without a limit, exactly all of them |
| WebApi.PaginateLimit | src/SlyAPI/webapi.py:196-197 | with `limit = n`, at most `max(n, 1)` items are yielded |
| WebApi.LimitYieldsFirst | src/SlyAPI/webapi.py:193-197 | a limit of 0 or 1 still yields the first item, and only it |
| WebApi.ListingRequests | src/SlyAPI/webapi.py:199-201 | earlier requests are kept; each later request is the previous one with `pageToken` set to a truthy token |
| WebApi.PaginateRequests | src/SlyAPI/webapi.py:186-201 | the first request carries the caller's parameters, and each later one the previous one's with the page token written in |
| WebApi.StopsAtFalsyPage | src/SlyAPI/webapi.py:191 | a page with falsy items ends the listing and yields nothing from it |
| UrlLib.ParseUrlEncode | src/SlyAPI/oauth2.py:146 | parsing `urlencode(pairs)` gives the pairs back, in order |
| Percent.DecodeEncodeBytes | src/SlyAPI/oauth1.py:19-20 | decoding the units of a byte string gives the bytes back |
| Utf8.DecodeEncode | src/SlyAPI/oauth1.py:19 | `s.encode('utf8')` decodes back to `s` |
| Order.SortedList | src/SlyAPI/oauth1.py:29 | `sorted` of a set: strictly ascending, with the same elements |
| Order.SortedUnique | src/SlyAPI/oauth1.py:29 | two strictly ascending lists with the same elements are equal |
| Text.JoinSplit | src/SlyAPI/oauth2.py:72 | joining the pieces of `split(c)` with `c` gives the string back |
| Text.SplitJoin | src/SlyAPI/oauth1.py:31 | splitting a join at a separator absent from the parts gives the parts back |
| Text.CountSplit | src/SlyAPI/oauth1.py:35 | the number of separators is one less than the number of pieces |
| Text.UpperCount | src/SlyAPI/oauth1.py:35 | `upper()` keeps the count of a non-letter |
| Text.StripSlice | src/SlyAPI/oauth1.py:47 | `strip(cs)` is a slice that only cuts characters of `cs` from the ends |
| Text.RStrip | src/SlyAPI/oauth2.py:134 | `rstrip(cs)` is a prefix whose last character is not in `cs`, and only characters of `cs` were cut |
| Text.IntToStringRoundTrip | src/SlyAPI/oauth1.py:48 | `int(str(i)) == i` |
| Calendar.AddSeconds | src/SlyAPI/oauth2.py:70 | `t + timedelta(seconds=n)`: defined iff inside the datetime range, and then `n` seconds later |
| Calendar.FormatTimestamp | src/SlyAPI/oauth2.py:91 | `strftime('%Y-%m-%dT%H:%M:%SZ')` gives a string of that shape |
| Calendar.ParseFormat | src/SlyAPI/oauth2.py:53 | `strptime` of that format inverts `strftime`, up to the dropped microseconds |
| Calendar.CivilOfSeconds | src/SlyAPI/oauth2.py:91 | the calendar fields of an instant give the instant back |
| Json.PyStr | src/SlyAPI/webapi.py:80 | `str(v)` of a string is the string, and it is empty only for `''` |

## Findings

| source | as written | input that shows it | evidently intended | confidence | as-written member | corrected member |
|---|---|---|---|---|---|---|
| src/SlyAPI/oauth1.py:48 | `datetime.utcnow().timestamp()`: `utcnow()` is a naive datetime holding UTC wall-clock time, and `timestamp()` reads a naive datetime as local time, so the host's UTC offset is subtracted | a host at UTC+1 (offset 3600) at 2023-01-01T00:00:00Z (1672531200) sends `oauth_timestamp` 1672527600, an hour early (`OAuth1.TimestampSkewExample`, and `OAuth1.TimestampSkew` for every nonzero offset) | the seconds since 1970-01-01T00:00:00Z that section 3.3 of RFC 5849 asks for, as `time.time()` gives them | not executed | OAuth1.TimestampAsWritten | OAuth1.Timestamp |

## Left out

- Network I/O is not modelled: sending requests, the aiohttp sessions, `WebAPI.__init__` and `__del__`, `_call`, `get_json`, `post_json`, `put_json` and `get_text`. A server answer is an input.
- `OAuth2App.refresh` is modelled from its response onwards (`OAuth2.Refresh`). The POST itself and its headers are not modelled, and neither is `resp.text()` raising inside the `try`.
- Concurrency is not modelled. `OAuth2.sign` is sequential: the `asyncio.Semaphore` is left out, and with it the fact that the semaphore is never released when the refresh raises.
- The local redirect server (`serve_once`), `webbrowser.open`, `input`, `print` and `localhost_flow` are left out. Whether the browser opened, the typed code, the redirect query and the grant response are inputs of `OAuth2.CommandLineFlow`.
- File reading and writing are left out, because they are plain I/O around the JSON readers: `OAuth1App.from_file`, `OAuth2User.from_json_file` and `OAuth2App.from_json_file`.
- `OAuth1.from_file` and `to_dict` only raise NotImplementedError, and are left out.
- `get_common_params` and `get_common_headers` return `{}`, and are left out.
- HMAC-SHA1, SHA-256, base64, `secrets.token_bytes` and `secrets.token_urlsafe` are uninterpreted or caller-supplied.
- OAuth1.Sign: the caller's parameters are modelled as a map from strings to strings. The source accepts any value, and `percentEncode` would raise on a non-string.
- Python dict insertion order is not kept (`Json.Value.Obj` is a map).
  - Where the source's output depends on it, the model fixes the order: `repr` (`Json.Repr`, used in the `str(v)` of `convert_url_params`) lists keys in ascending order. `Json.Repr` also quotes every string with single quotes and escapes nothing, where Python's `repr` escapes backslashes and control characters and switches to double quotes for a string holding a single quote.
  - `urlencode` follows the order of the dict literal.
- WebApi.Combined: a Python set has no defined iteration order, so the model joins each value set in ascending order. `delimiter.join(v)` in the source may list the values in any order.
- Python `Enum` identity is not reproduced. `self.__class__(self.value)` returns the shared member, so `__add__` mutates that member's `_values`. The model gives each `EnumParam` an explicit value set.
- `EnumParam.__eq__` is left out, because it compares `_values`, which may be unset.
- `requires_scopes` is only a marker with no effect, and is left out.
- OAuth2.PyInt: part of Python's `int()` leniency is left out. Surrounding whitespace, digit-group underscores and non-ASCII decimal digits (which `int()` accepts) are rejected by `Text.ParseInt`, and floats are not modelled.
- Floats are not JSON values here, so an `expires_in` given as a float is outside the model.
- OAuth2.ToDict: `%Y` of a year below 1000 is written with four digits. That padding is platform-dependent in Python.
- Calendar.ParseTimestamp is stricter than `strptime`. It requires two-digit fields, and does not accept the lenient one-digit forms.
- Text.Upper and Text.LowerChar cover ASCII letters only. Unicode case mapping is left out. So `OAuth1.Signature`, `OAuth1.AppSign`, `OAuth1.Sign` and `OAuth1.GetHeaders` fail exactly on a non-ASCII method, where Python does not fail for a method such as `ſ`, `ı` or `ﬁ`, whose `upper()` is ASCII (`S`, `I`, `FI`).
- Utf8.Encode: strings are sequences of Unicode scalar values. A Python string holding a lone surrogate, on which `encode('utf8')` raises, is outside the model.
- WebApi.Paginate:
  - It runs over a finite sequence of answers, and ends when they run out, where the source would request again.
  - The generator's laziness, and a consumer stopping it early, are left out.
  - An error from `get_json` is left out.
  - Items that are a truthy non-list mark the outcome as not iterable, and stop the listing. Python would iterate a string or a dict, and raise on a number or a bool.
- OAuth1.CommonParams: the signing path (`OAuth1.CommonParams`, `OAuth1.TokenParams`, `OAuth1.AppSign`, `OAuth1.Sign`, `OAuth1.GetHeaders`) uses the corrected `OAuth1.Timestamp`, so it models a host at UTC. As written, the source subtracts the host's UTC offset (see Findings; `OAuth1.TimestampAsWritten` models that).
- WebApi.WebApi.PrepareReq: `Request` in src/SlyAPI/web.py:12-18 declares five fields, so the six-argument call at src/SlyAPI/webapi.py:144 would raise TypeError on every request. That web.py also lacks `ApiError` and `serve_once`, which oauth2.py imports from it. The model follows the six-field `Request` the call intends (`Web.Request`, with `dataIsJson`), and does not model the TypeError.
- WebApi.WebApi.PrepareReq: the caller's `headers` dict is aliased into the request (src/SlyAPI/webapi.py:142-144), and `OAuth2.sign` writes `Authorization` into it (src/SlyAPI/oauth2.py:203), so the caller's dict gains that header. In the model `Web.Request.headers` is a value, so the caller's map is unchanged.
- WebApi.ReqJson: a response is either decoded JSON or not JSON (`Web.Response.json`). A body that is not valid JSON under a JSON content type makes `resp.json()` raise JSONDecodeError out of `_req_json` (src/SlyAPI/webapi.py:110-113), and likewise out of the refresh and the code exchange. That failure is not modelled.
- WebApi.Paginate: a page answer that is not a JSON object makes `page.get` raise AttributeError (src/SlyAPI/webapi.py:189). The answers are `seq<map<string, Value>>`, so this case cannot be expressed.
- WebApi.WebApi.Paginated returns the final parameters, where the source writes `pageToken` into the caller's dict. The aliasing of that dict is not modelled.
- `src/SlyAPI/web.py` is not part of this model beyond the `Method`, `Request` and response shapes that the core uses.
- `src/SlyAPI/auth.py` holds only abstract stubs, and is not part of this model.
- `src/SlyAPI/asyncy.py` is event-loop machinery, and is not part of this model.
- The `on_refresh` callback is stored by the constructor but never invoked by the source, so the model does not carry it.
