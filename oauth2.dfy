/**
 * OAuth 2.0 with PKCE (RFC 6749, RFC 7636): the persisted user and app
 * credentials and the three JSON shapes a user is read from, the
 * authorisation-request URL, applying a refresh response, signing a request
 * (refreshing first when the token has expired), and the checks and grant
 * data of the command-line flow. The clock, SHA-256, base64 and the random
 * tokens are inputs; every response from the server is an input too.
 */
module OAuth2 {
  import opened Wrappers
  import opened Text
  import opened Json
  import Calendar
  import Crypto
  import Utf8
  import UrlLib
  import Web

  // ---------------------------------------------------------------------
  // Credentials (OAuth2User, OAuth2App)

  /** A user's credentials. The dataclass keeps whatever JSON values it was
      built from, so every field but the expiry is a JSON value. */
  datatype OAuth2User = OAuth2User(token: Value, refreshToken: Value, expiresAt: Calendar.Instant,
                                   tokenType: Value, scopes: Value)

  datatype OAuth2App = OAuth2App(id: Value, secret: Value, authUri: Value, tokenUri: Value)

  /** The exceptions `OAuth2User.from_json_obj` raises. */
  datatype UserError =
    | UnknownUserFormat  // ValueError: none of the three shapes matches
    | BadTimestamp       // ValueError from strptime
    | BadExpiresIn       // ValueError or TypeError from int()
    | ExpiryOverflow     // OverflowError from datetime + timedelta
    | ScopeNotString     // AttributeError: split on a value that is not a str

  /** A parsed user, and whether the missing-refresh-token warning fired. */
  datatype Loaded = Loaded(user: OAuth2User, warned: bool)

  /** `int(v)` on the JSON values: an int, a bool (a subclass of int) or a
      decimal string; `None` where Python raises. */
  function PyInt(v: Value): (r: Option<int>)
    ensures v.Int? ==> r == Some(v.i)
    ensures v.Str? ==> r == ParseInt(v.s)
    ensures !v.Int? && !v.Bool? && !v.Str? ==> r.None?
  {
    match v
    case Int(i) => Some(i)
    case Bool(b) => Some(if b then 1 else 0)
    case Str(s) => ParseInt(s)
    case _ => None
  }

  const UserKeys: set<string> := {"token", "refresh_token", "expires_at", "token_type", "scopes"}
  const GrantKeys: set<string> := {"access_token", "expires_in", "token_type"}

  /** The `to_dict` shape: the five keys, with the expiry as a string. */
  predicate IsDictShape(obj: Value)
  {
    obj.Obj? && UserKeys <= obj.fields.Keys && obj.fields["expires_at"].Str?
  }

  /** The `dataclasses.asdict` shape: the five keys, with a datetime expiry. */
  predicate IsAsdictShape(obj: Value)
  {
    obj.Obj? && UserKeys <= obj.fields.Keys && obj.fields["expires_at"].Time?
  }

  /** A token response of section 5.1 of RFC 6749. */
  predicate IsGrantShape(obj: Value)
  {
    obj.Obj? && GrantKeys <= obj.fields.Keys
  }

  /** The scopes of a grant: the scope string split at every space. */
  function ScopeList(scope: string): (v: Value)
    ensures v.List? && |v.items| == |Split(scope, ' ')|
  {
    StrList(Split(scope, ' '))
  }

  /** The grant case of `from_json_obj`: the expiry is `now` plus
      `int(expires_in)` seconds, a missing refresh token reads as `""` and a
      missing scope as `""`, and the warning fires when the refresh token is
      an explicit null. */
  function FromGrant(f: map<string, Value>, now: Calendar.Instant): (r: Result<Loaded, UserError>)
    requires GrantKeys <= f.Keys
    ensures r.Err? <==> || PyInt(f["expires_in"]).None?
                        || Calendar.AddSeconds(now, PyInt(f["expires_in"]).value).None?
                        || ("scope" in f && !f["scope"].Str?)
    ensures r.Ok? ==> && r.value.user.token == f["access_token"]
                      && r.value.user.tokenType == f["token_type"]
                      && r.value.user.expiresAt.seconds == now.seconds + PyInt(f["expires_in"]).value
                      && r.value.user.expiresAt.micros == now.micros
    ensures r.Ok? ==> r.value.user.refreshToken == (if "refresh_token" in f then f["refresh_token"] else Str(""))
    ensures r.Ok? ==> (r.value.warned <==> "refresh_token" in f && f["refresh_token"] == Null)
    ensures r.Ok? && "scope" !in f ==> r.value.user.scopes == List([Str("")])
    ensures r.Ok? && "scope" in f ==> r.value.user.scopes == ScopeList(f["scope"].s)
  {
    match PyInt(f["expires_in"])
    case None => Err(BadExpiresIn)
    case Some(n) =>
      match Calendar.AddSeconds(now, n)
      case None => Err(ExpiryOverflow)
      case Some(expiresAt) =>
        var refresh := if "refresh_token" in f then f["refresh_token"] else Str("");
        var scope := if "scope" in f then f["scope"] else Str("");
        if !scope.Str? then Err(ScopeNotString)
        else
          assert scope.s == "" ==> StrList(Split(scope.s, ' ')) == List([Str("")]);
          Ok(Loaded(OAuth2User(f["access_token"], refresh, expiresAt, f["token_type"], ScopeList(scope.s)),
                    refresh == Null))
  }

  /** `OAuth2User.from_json_obj`: the three shapes are tried in order. */
  function UserFromJsonObj(obj: Value, now: Calendar.Instant): (r: Result<Loaded, UserError>)
    ensures r == Err(UnknownUserFormat) <==> !IsDictShape(obj) && !IsAsdictShape(obj) && !IsGrantShape(obj)
    ensures (IsDictShape(obj) || IsAsdictShape(obj)) && r.Ok? ==> !r.value.warned
    ensures IsDictShape(obj) ==>
              (r.Ok? <==> Calendar.ParseTimestamp(obj.fields["expires_at"].s).Some?)
    ensures IsDictShape(obj) && r.Ok? ==>
              var f := obj.fields;
              && r.value.user.token == f["token"] && r.value.user.refreshToken == f["refresh_token"]
              && r.value.user.tokenType == f["token_type"] && r.value.user.scopes == f["scopes"]
              && Calendar.ParseTimestamp(f["expires_at"].s) == Some(r.value.user.expiresAt)
    ensures !IsDictShape(obj) && IsAsdictShape(obj) ==>
              var f := obj.fields;
              && r.Ok?
              && r.value.user.token == f["token"] && r.value.user.refreshToken == f["refresh_token"]
              && r.value.user.tokenType == f["token_type"] && r.value.user.scopes == f["scopes"]
              && Time(r.value.user.expiresAt) == f["expires_at"]
    ensures !IsDictShape(obj) && !IsAsdictShape(obj) && IsGrantShape(obj) ==> r == FromGrant(obj.fields, now)
  {
    if IsDictShape(obj) then
      var f := obj.fields;
      match Calendar.ParseTimestamp(f["expires_at"].s)
      case None => Err(BadTimestamp)
      case Some(t) => Ok(Loaded(OAuth2User(f["token"], f["refresh_token"], t, f["token_type"], f["scopes"]), false))
    else if IsAsdictShape(obj) then
      var f := obj.fields;
      Ok(Loaded(OAuth2User(f["token"], f["refresh_token"], f["expires_at"].t, f["token_type"], f["scopes"]), false))
    else if IsGrantShape(obj) then
      FromGrant(obj.fields, now)
    else Err(UnknownUserFormat)
  }

  /** `to_dict`: the expiry is written as `'%Y-%m-%dT%H:%M:%SZ'`. */
  function ToDict(u: OAuth2User): (v: Value)
    ensures v.Obj? && v.fields.Keys == UserKeys
    ensures v.fields["expires_at"].Str? && Calendar.HasTimestampShape(v.fields["expires_at"].s)
  {
    Obj(map[
      "token" := u.token,
      "refresh_token" := u.refreshToken,
      "expires_at" := Str(Calendar.FormatTimestamp(u.expiresAt)),
      "token_type" := u.tokenType,
      "scopes" := u.scopes
    ])
  }

  /** `dataclasses.asdict(u)`: the expiry stays a datetime. */
  function AsDict(u: OAuth2User): (v: Value)
    ensures v.Obj? && v.fields.Keys == UserKeys && v.fields["expires_at"] == Time(u.expiresAt)
  {
    Obj(map[
      "token" := u.token,
      "refresh_token" := u.refreshToken,
      "expires_at" := Time(u.expiresAt),
      "token_type" := u.tokenType,
      "scopes" := u.scopes
    ])
  }

  /** Reading back what `to_dict` wrote gives the user again, its expiry
      cut to the second; no warning is raised. */
  lemma ToDictRoundTrip(u: OAuth2User, now: Calendar.Instant)
    ensures UserFromJsonObj(ToDict(u), now) == Ok(Loaded(u.(expiresAt := Calendar.Truncated(u.expiresAt)), false))
  {
    var f := ToDict(u).fields;
    Calendar.ParseFormat(u.expiresAt);
    assert IsDictShape(ToDict(u));
    assert f["token"] == u.token && f["refresh_token"] == u.refreshToken;
    assert f["token_type"] == u.tokenType && f["scopes"] == u.scopes;
  }

  /** At whole-second precision the round trip is exact. */
  lemma ToDictRoundTripExact(u: OAuth2User, now: Calendar.Instant)
    requires u.expiresAt.micros == 0
    ensures UserFromJsonObj(ToDict(u), now) == Ok(Loaded(u, false))
  {
    ToDictRoundTrip(u, now);
    assert Calendar.Truncated(u.expiresAt) == u.expiresAt;
  }

  /** Reading back `asdict` gives the user exactly. */
  lemma AsDictRoundTrip(u: OAuth2User, now: Calendar.Instant)
    ensures UserFromJsonObj(AsDict(u), now) == Ok(Loaded(u, false))
  {
    var f := AsDict(u).fields;
    assert !IsDictShape(AsDict(u)) && IsAsdictShape(AsDict(u));
    assert f["token"] == u.token && f["refresh_token"] == u.refreshToken;
    assert f["token_type"] == u.tokenType && f["scopes"] == u.scopes;
  }

  datatype AppError = UnknownAppFormat

  const AppKeys: set<string> := {"id", "secret", "auth_uri", "token_uri"}
  const WebKeys: set<string> := {"client_id", "client_secret", "auth_uri", "token_uri"}

  predicate IsFlatApp(obj: Value)
  {
    obj.Obj? && AppKeys <= obj.fields.Keys
  }

  /** The Google Console form: the fields under "web", with client_ prefixes. */
  predicate IsWebApp(obj: Value)
  {
    obj.Obj? && "web" in obj.fields && obj.fields["web"].Obj? && WebKeys <= obj.fields["web"].fields.Keys
  }

  /** `OAuth2App.from_json_obj`: the flat form is tried first. */
  function AppFromJsonObj(obj: Value): (r: Result<OAuth2App, AppError>)
    ensures r.Ok? <==> IsFlatApp(obj) || IsWebApp(obj)
    ensures r.Ok? && IsFlatApp(obj) ==>
              var f := obj.fields;
              && r.value.id == f["id"] && r.value.secret == f["secret"]
              && r.value.authUri == f["auth_uri"] && r.value.tokenUri == f["token_uri"]
    ensures r.Ok? && !IsFlatApp(obj) ==>
              IsWebApp(obj) &&
              var w := obj.fields["web"].fields;
              && r.value.id == w["client_id"] && r.value.secret == w["client_secret"]
              && r.value.authUri == w["auth_uri"] && r.value.tokenUri == w["token_uri"]
  {
    if IsFlatApp(obj) then
      var f := obj.fields;
      Ok(OAuth2App(f["id"], f["secret"], f["auth_uri"], f["token_uri"]))
    else if IsWebApp(obj) then
      var w := obj.fields["web"].fields;
      Ok(OAuth2App(w["client_id"], w["client_secret"], w["auth_uri"], w["token_uri"]))
    else Err(UnknownAppFormat)
  }

  function FlatAppJson(app: OAuth2App): Value
  {
    Obj(map["id" := app.id, "secret" := app.secret, "auth_uri" := app.authUri, "token_uri" := app.tokenUri])
  }

  function WebAppJson(app: OAuth2App): Value
  {
    Obj(map["web" := Obj(map["client_id" := app.id, "client_secret" := app.secret,
                              "auth_uri" := app.authUri, "token_uri" := app.tokenUri])])
  }

  /** The flat form and the Google form of the same credentials read as the
      same app. */
  lemma AppFormsAgree(app: OAuth2App)
    ensures AppFromJsonObj(FlatAppJson(app)) == Ok(app)
    ensures AppFromJsonObj(WebAppJson(app)) == Ok(app)
  {
    var f := FlatAppJson(app).fields;
    assert f.Keys == AppKeys;
    assert f["id"] == app.id && f["secret"] == app.secret && f["auth_uri"] == app.authUri && f["token_uri"] == app.tokenUri;
    var w := WebAppJson(app).fields["web"].fields;
    assert "id" !in WebAppJson(app).fields;
    assert w.Keys == WebKeys;
    assert w["client_id"] == app.id && w["client_secret"] == app.secret;
    assert w["auth_uri"] == app.authUri && w["token_uri"] == app.tokenUri;
  }

  // ---------------------------------------------------------------------
  // Authorisation request (auth_url_with_pkce)

  /** `code_challenge = BASE64URL(SHA256(code_verifier))` without padding,
      section 4.2 of RFC 7636. */
  function CodeChallenge(prims: Crypto.Primitives, verifier: string): (r: string)
    ensures var x := prims.urlsafeB64encode(prims.sha256(Utf8.Encode(verifier)));
      && |r| <= |x| && r == x[..|r|]
      && (forall k :: |r| <= k < |x| ==> x[k] == '=')
      && (r == [] || r[|r| - 1] != '=')
  {
    RStrip(prims.urlsafeB64encode(prims.sha256(Utf8.Encode(verifier))), {'='})
  }

  /** The query parameters of the authorisation request, in the order the
      source's dict literal lists them. `stateChallenge` and `verifier` are
      the two `secrets.token_urlsafe(54)` values. */
  function AuthParams(app: OAuth2App, prims: Crypto.Primitives, redirectUri: string, state: string,
                      scopes: string, verifier: string, stateChallenge: string): (r: seq<(string, string)>)
    ensures |r| == 9
  {
    [ ("client_id", PyStr(app.id)),
      ("redirect_uri", redirectUri),
      ("response_type", "code"),
      ("state", state + stateChallenge),
      ("code_challenge", CodeChallenge(prims, verifier)),
      ("code_challenge_method", "S256"),
      ("scope", scopes),
      ("access_type", "offline"),
      ("prompt", "consent") ]
  }

  /** `auth_url_with_pkce`: the link, the code verifier and the state
      challenge. */
  function AuthUrlWithPkce(app: OAuth2App, prims: Crypto.Primitives, redirectUri: string, state: string,
                           scopes: string, verifier: string, stateChallenge: string): (r: (string, string, string))
    ensures r.1 == verifier && r.2 == stateChallenge
    ensures var base := PyStr(app.authUri);
      && |r.0| > |base| && r.0[..|base| + 1] == base + "?"
      && UrlLib.ParseQuery(r.0[|base| + 1..]) == Some(AuthParams(app, prims, redirectUri, state, scopes, verifier, stateChallenge))
  {
    var params := AuthParams(app, prims, redirectUri, state, scopes, verifier, stateChallenge);
    var base := PyStr(app.authUri);
    var url := base + "?" + UrlLib.UrlEncode(params);
    UrlLib.ParseUrlEncode(params);
    assert url[|base| + 1..] == UrlLib.UrlEncode(params);
    (url, verifier, stateChallenge)
  }

  /** The request identifies the app and where to send the user back, and
      asks for an authorisation code. */
  lemma AuthParamsClient(app: OAuth2App, prims: Crypto.Primitives, redirectUri: string, state: string,
                         scopes: string, verifier: string, stateChallenge: string)
    ensures var p := AuthParams(app, prims, redirectUri, state, scopes, verifier, stateChallenge);
      && UrlLib.Lookup(p, "client_id") == Some(PyStr(app.id))
      && UrlLib.Lookup(p, "redirect_uri") == Some(redirectUri)
      && UrlLib.Lookup(p, "response_type") == Some("code")
  {
    var p := AuthParams(app, prims, redirectUri, state, scopes, verifier, stateChallenge);
    UrlLib.LookupAt(p, 0, "client_id");
    UrlLib.LookupAt(p, 1, "redirect_uri");
    UrlLib.LookupAt(p, 2, "response_type");
  }

  /** The request carries the state with the challenge appended, and the
      PKCE challenge of the verifier with method S256. */
  lemma AuthParamsPkce(app: OAuth2App, prims: Crypto.Primitives, redirectUri: string, state: string,
                       scopes: string, verifier: string, stateChallenge: string)
    ensures var p := AuthParams(app, prims, redirectUri, state, scopes, verifier, stateChallenge);
      && UrlLib.Lookup(p, "state") == Some(state + stateChallenge)
      && UrlLib.Lookup(p, "code_challenge") == Some(CodeChallenge(prims, verifier))
      && UrlLib.Lookup(p, "code_challenge_method") == Some("S256")
  {
    var p := AuthParams(app, prims, redirectUri, state, scopes, verifier, stateChallenge);
    UrlLib.LookupAt(p, 3, "state");
    UrlLib.LookupAt(p, 4, "code_challenge");
    UrlLib.LookupAt(p, 5, "code_challenge_method");
  }

  /** The request asks for the scopes, offline access and a fresh consent. */
  lemma AuthParamsAccess(app: OAuth2App, prims: Crypto.Primitives, redirectUri: string, state: string,
                         scopes: string, verifier: string, stateChallenge: string)
    ensures var p := AuthParams(app, prims, redirectUri, state, scopes, verifier, stateChallenge);
      && UrlLib.Lookup(p, "scope") == Some(scopes)
      && UrlLib.Lookup(p, "access_type") == Some("offline")
      && UrlLib.Lookup(p, "prompt") == Some("consent")
  {
    var p := AuthParams(app, prims, redirectUri, state, scopes, verifier, stateChallenge);
    UrlLib.LookupAt(p, 6, "scope");
    UrlLib.LookupAt(p, 7, "access_type");
    UrlLib.LookupAt(p, 8, "prompt");
  }

  // ---------------------------------------------------------------------
  // Refresh (OAuth2App.refresh, response handling)

  /** The exceptions `refresh` raises on a response. */
  datatype RefreshError =
    | RefreshApiError(status: int, reason: string)  // ApiError: the status is not 200
    | RefreshContentType                            // ContentTypeError from resp.json()
    | InvalidRefreshResponse                        // ValueError: not a token response
    | RefreshBadExpiresIn                           // ValueError or TypeError from int()
    | RefreshOverflow                               // OverflowError from datetime + timedelta

  /** The form body of the refresh request, section 6 of RFC 6749. */
  function RefreshData(app: OAuth2App, user: OAuth2User): (d: map<string, Value>)
    ensures d.Keys == {"grant_type", "refresh_token", "client_id", "client_secret"}
    ensures d["grant_type"] == Str("refresh_token") && d["refresh_token"] == user.refreshToken
    ensures d["client_id"] == app.id && d["client_secret"] == app.secret
  {
    map["grant_type" := Str("refresh_token"), "refresh_token" := user.refreshToken,
        "client_id" := app.id, "client_secret" := app.secret]
  }

  /** Applying the response to a refresh request: a copy of the user with a
      new token, type and expiry. */
  function Refresh(user: OAuth2User, resp: Web.Response, now: Calendar.Instant): (r: Result<OAuth2User, RefreshError>)
    ensures resp.status != 200 ==> r == Err(RefreshApiError(resp.status, resp.text))
    ensures resp.status == 200 && resp.json.None? ==> r == Err(RefreshContentType)
    ensures resp.status == 200 && resp.json.Some? && !IsGrantShape(resp.json.value) ==> r == Err(InvalidRefreshResponse)
    ensures r.Ok? <==> && resp.status == 200 && resp.json.Some? && IsGrantShape(resp.json.value)
                       && PyInt(resp.json.value.fields["expires_in"]).Some?
                       && Calendar.AddSeconds(now, PyInt(resp.json.value.fields["expires_in"]).value).Some?
    ensures r.Ok? ==> var f := resp.json.value.fields;
      && r.value.token == f["access_token"] && r.value.tokenType == f["token_type"]
      && r.value.expiresAt.seconds == now.seconds + PyInt(f["expires_in"]).value
      && r.value.expiresAt.micros == now.micros
    ensures r.Ok? ==> r.value.refreshToken == user.refreshToken && r.value.scopes == user.scopes
  {
    if resp.status != 200 then Err(RefreshApiError(resp.status, resp.text))
    else if resp.json.None? then Err(RefreshContentType)
    else if !IsGrantShape(resp.json.value) then Err(InvalidRefreshResponse)
    else
      var f := resp.json.value.fields;
      match PyInt(f["expires_in"])
      case None => Err(RefreshBadExpiresIn)
      case Some(n) =>
        match Calendar.AddSeconds(now, n)
        case None => Err(RefreshOverflow)
        case Some(expiry) => Ok(user.(token := f["access_token"], expiresAt := expiry, tokenType := f["token_type"]))
  }

  /** Refreshing changes nothing but the token, its type and the expiry. */
  lemma RefreshKeepsRest(user: OAuth2User, resp: Web.Response, now: Calendar.Instant)
    requires Refresh(user, resp, now).Ok?
    ensures var u := Refresh(user, resp, now).value;
      u == user.(token := u.token, expiresAt := u.expiresAt, tokenType := u.tokenType)
  {
  }

  // ---------------------------------------------------------------------
  // Signing (OAuth2.sign)

  /** The `Authorization` header value: `f"{token_type} {token}"`. */
  function AuthorizationValue(user: OAuth2User): (r: string)
    ensures var t := PyStr(user.tokenType);
      |r| > |t| && r[..|t|] == t && r[|t|] == ' ' && r[|t| + 1..] == PyStr(user.token)
  {
    var r := PyStr(user.tokenType) + " " + PyStr(user.token);
    assert r[|PyStr(user.tokenType)|] == ' ';
    r
  }

  /** The user `sign` ends up with: refreshed only when the clock is past
      the expiry (strictly). */
  function UserAfterSign(user: OAuth2User, now: Calendar.Instant, resp: Web.Response): Result<OAuth2User, RefreshError>
  {
    if Calendar.After(now, user.expiresAt) then Refresh(user, resp, now) else Ok(user)
  }

  /** A token that has not expired is used as it is, and the response to a
      refresh request plays no part. */
  lemma SignKeepsLiveToken(user: OAuth2User, now: Calendar.Instant, resp: Web.Response)
    requires !Calendar.After(now, user.expiresAt)
    ensures UserAfterSign(user, now, resp) == Ok(user)
  {
  }

  /** An expired token is always refreshed: the user after signing is the
      refreshed one, whose expiry is past `now` when the server grants a
      positive lifetime. */
  lemma SignRefreshesExpired(user: OAuth2User, now: Calendar.Instant, resp: Web.Response)
    requires Calendar.After(now, user.expiresAt)
    ensures UserAfterSign(user, now, resp) == Refresh(user, resp, now)
    ensures UserAfterSign(user, now, resp).Ok? && PyInt(resp.json.value.fields["expires_in"]).value > 0
            ==> Calendar.After(UserAfterSign(user, now, resp).value.expiresAt, now)
  {
  }

  /** An app acting for a user. The user is replaced when its token is
      refreshed. In the source an `asyncio.Semaphore` serialises refreshes,
      and it is not released when the refresh raises; signing is modelled
      as one sequential step, and the refresh callback that the source
      stores is never called by it. */
  class OAuth2 {
    const app: OAuth2App
    var user: OAuth2User

    constructor (app: OAuth2App, user: OAuth2User)
      ensures this.app == app && this.user == user
    {
      this.app := app;
      this.user := user;
    }

    /** `sign`: refreshes first when the token has expired, then sets the
        `Authorization` header and leaves every other header as it was. A
        failed refresh changes neither the user nor the request. */
    method Sign(request: Web.Request, now: Calendar.Instant, refreshResponse: Web.Response)
      returns (r: Result<(), RefreshError>)
      modifies this, request
      ensures r.Ok? <==> UserAfterSign(old(user), now, refreshResponse).Ok?
      ensures r.Ok? ==> user == UserAfterSign(old(user), now, refreshResponse).value
      ensures r.Ok? ==> request.headers == old(request.headers)["Authorization" := AuthorizationValue(user)]
      ensures r.Err? ==> user == old(user) && request.headers == old(request.headers)
    {
      if Calendar.After(now, user.expiresAt) {
        var refreshed := Refresh(user, refreshResponse, now);
        if refreshed.Err? {
          return Err(refreshed.error);
        }
        user := refreshed.value;
      }
      request.headers := request.headers["Authorization" := AuthorizationValue(user)];
      r := Ok(());
    }
  }

  // ---------------------------------------------------------------------
  // The command-line flow (command_line_oauth2)

  /** The exceptions of the flow, after the link has been built. */
  datatype FlowError =
    | MissingState              // PermissionError: no state parameter
    | WrongState                // PermissionError: the state differs
    | NotAuthorized             // PermissionError: no code parameter
    | GrantFailed(status: int)  // RuntimeError: the grant status is not 200
    | GrantContentType          // ContentTypeError from resp.json()
    | GrantUser(e: UserError)   // from OAuth2User.from_json_obj

  function RedirectUri(host: string, port: int): string
  {
    "http://" + host + ":" + IntToString(port)
  }

  /** The checks on the query of the redirect, in order: it must carry a
      state, exactly the expected one, and a code. */
  function RedirectCode(query: map<string, string>, expectedState: string): (r: Result<string, FlowError>)
    ensures r == Err(MissingState) <==> "state" !in query
    ensures r == Err(WrongState) <==> "state" in query && query["state"] != expectedState
    ensures r == Err(NotAuthorized) <==> "state" in query && query["state"] == expectedState && "code" !in query
    ensures r.Ok? ==> "state" in query && query["state"] == expectedState && "code" in query && r.value == query["code"]
    ensures "state" in query && query["state"] == expectedState && "code" in query ==> r == Ok(query["code"])
  {
    if "state" !in query then Err(MissingState)
    else if query["state"] != expectedState then Err(WrongState)
    else if "code" !in query then Err(NotAuthorized)
    else Ok(query["code"])
  }

  /** The form body of the code exchange, section 4.1.3 of RFC 6749 with the
      verifier of section 4.5 of RFC 7636. The scopes go in as the list. */
  function GrantData(app: OAuth2App, code: string, redirectUri: string, scopes: seq<string>, verifier: string)
    : (d: map<string, Value>)
    ensures d.Keys == {"grant_type", "code", "client_id", "redirect_uri", "scope", "code_verifier"}
    ensures d["grant_type"] == Str("authorization_code") && d["code"] == Str(code)
    ensures d["code_verifier"] == Str(verifier) && d["client_id"] == app.id
    ensures d["redirect_uri"] == Str(redirectUri) && d["scope"] == StrList(scopes)
  {
    map["grant_type" := Str("authorization_code"), "code" := Str(code), "client_id" := app.id,
        "redirect_uri" := Str(redirectUri), "scope" := StrList(scopes), "code_verifier" := Str(verifier)]
  }

  /** HTTP Basic credentials of the app: base64 of `id:secret` in UTF-8. */
  function BasicAuthorization(prims: Crypto.Primitives, app: OAuth2App): (r: string)
    ensures |r| >= 6 && r[..6] == "Basic "
    ensures r[6..] == prims.b64encode(Utf8.Encode(PyStr(app.id) + ":" + PyStr(app.secret)))
  {
    "Basic " + prims.b64encode(Utf8.Encode(PyStr(app.id) + ":" + PyStr(app.secret)))
  }

  function GrantHeaders(prims: Crypto.Primitives, app: OAuth2App): (h: map<string, string>)
    ensures h.Keys == {"Authorization", "Content-Type"}
    ensures h["Authorization"] == BasicAuthorization(prims, app)
    ensures h["Content-Type"] == "application/x-www-form-urlencoded"
  {
    map["Authorization" := BasicAuthorization(prims, app), "Content-Type" := "application/x-www-form-urlencoded"]
  }

  /** What the environment supplies to the flow: whether the code is typed
      in (`usePin`, or the browser could not be opened) and what was typed,
      the query of the redirect otherwise, and the server's answer to the
      code exchange. */
  datatype FlowInputs = FlowInputs(usePin: bool, browserOpened: bool, typedCode: string,
                                   redirectQuery: map<string, string>, grantResponse: Web.Response)

  /** The code the flow exchanges, or why it stops before the exchange. */
  function FlowCode(io: FlowInputs, stateChallenge: string): Result<string, FlowError>
  {
    if io.usePin || !io.browserOpened then Ok(io.typedCode)
    else RedirectCode(io.redirectQuery, stateChallenge)
  }

  /** What the flow sends to the token endpoint, and the user it reads from
      the answer. */
  datatype Exchange = Exchange(grantData: map<string, Value>, grantHeaders: map<string, string>, loaded: Loaded)

  /** `command_line_oauth2` after the link is shown: the code is obtained,
      exchanged together with the verifier, and the token response read as a
      user. */
  function CommandLineFlow(app: OAuth2App, prims: Crypto.Primitives, host: string, port: int, scopes: seq<string>,
                           verifier: string, stateChallenge: string, io: FlowInputs, now: Calendar.Instant)
    : (r: Result<Exchange, FlowError>)
    ensures FlowCode(io, stateChallenge).Err? ==> r == Err(FlowCode(io, stateChallenge).error)
    ensures r.Ok? <==> && FlowCode(io, stateChallenge).Ok?
                       && io.grantResponse.status == 200 && io.grantResponse.json.Some?
                       && UserFromJsonObj(io.grantResponse.json.value, now).Ok?
    ensures r.Ok? ==> && FlowCode(io, stateChallenge).Ok?
                      && r.value.grantData
                         == GrantData(app, FlowCode(io, stateChallenge).value, RedirectUri(host, port), scopes, verifier)
                      && r.value.grantHeaders == GrantHeaders(prims, app)
                      && UserFromJsonObj(io.grantResponse.json.value, now) == Ok(r.value.loaded)
    ensures r.Ok? && (io.usePin || !io.browserOpened) ==> r.value.grantData["code"] == Str(io.typedCode)
    ensures r.Ok? && !io.usePin && io.browserOpened ==>
              "code" in io.redirectQuery && r.value.grantData["code"] == Str(io.redirectQuery["code"])
    ensures r.Ok? ==> r.value.grantData["code_verifier"] == Str(verifier)
  {
    var redirectUri := RedirectUri(host, port);
    var link := AuthUrlWithPkce(app, prims, redirectUri, "", Join(scopes, " "), verifier, stateChallenge);
    match FlowCode(io, link.2)
    case Err(e) => Err(e)
    case Ok(code) =>
      var data := GrantData(app, code, redirectUri, scopes, verifier);
      var headers := GrantHeaders(prims, app);
      var resp := io.grantResponse;
      if resp.status != 200 then Err(GrantFailed(resp.status))
      else if resp.json.None? then Err(GrantContentType)
      else
        match UserFromJsonObj(resp.json.value, now)
        case Err(e) => Err(GrantUser(e))
        case Ok(loaded) => Ok(Exchange(data, headers, loaded))
  }

  /** A redirect that does not carry back the state challenge is rejected
      before any code is exchanged. */
  lemma FlowRejectsForeignState(app: OAuth2App, prims: Crypto.Primitives, host: string, port: int,
                                scopes: seq<string>, verifier: string, stateChallenge: string,
                                io: FlowInputs, now: Calendar.Instant)
    requires !io.usePin && io.browserOpened
    requires "state" in io.redirectQuery && io.redirectQuery["state"] != stateChallenge
    ensures CommandLineFlow(app, prims, host, port, scopes, verifier, stateChallenge, io, now) == Err(WrongState)
  {
  }

  /** For any code: the link carries the state challenge alone, the
      challenge of the verifier the code exchange sends, and its redirect URI. */
  lemma LinkMatchesGrant(app: OAuth2App, prims: Crypto.Primitives, redirectUri: string, scopes: seq<string>,
                         code: string, verifier: string, stateChallenge: string)
    ensures var p := AuthParams(app, prims, redirectUri, "", Join(scopes, " "), verifier, stateChallenge);
      var d := GrantData(app, code, redirectUri, scopes, verifier);
      && UrlLib.Lookup(p, "state") == Some(stateChallenge)
      && d["code_verifier"].Str? && d["redirect_uri"].Str?
      && UrlLib.Lookup(p, "code_challenge") == Some(CodeChallenge(prims, d["code_verifier"].s))
      && UrlLib.Lookup(p, "redirect_uri") == Some(d["redirect_uri"].s)
  {
    AuthParamsClient(app, prims, redirectUri, "", Join(scopes, " "), verifier, stateChallenge);
    AuthParamsPkce(app, prims, redirectUri, "", Join(scopes, " "), verifier, stateChallenge);
    assert "" + stateChallenge == stateChallenge;
  }

  /** The link sends the state challenge alone as the state (the flow passes
      an empty state), and the challenge of the verifier that the flow's code
      exchange sends, with the same redirect URI: the two halves of PKCE
      belong together. */
  lemma FlowBindsVerifier(app: OAuth2App, prims: Crypto.Primitives, host: string, port: int,
                          scopes: seq<string>, verifier: string, stateChallenge: string,
                          io: FlowInputs, now: Calendar.Instant)
    requires CommandLineFlow(app, prims, host, port, scopes, verifier, stateChallenge, io, now).Ok?
    ensures var p := AuthParams(app, prims, RedirectUri(host, port), "", Join(scopes, " "), verifier, stateChallenge);
      var d := CommandLineFlow(app, prims, host, port, scopes, verifier, stateChallenge, io, now).value.grantData;
      && UrlLib.Lookup(p, "state") == Some(stateChallenge)
      && d["code_verifier"].Str? && d["redirect_uri"].Str?
      && UrlLib.Lookup(p, "code_challenge") == Some(CodeChallenge(prims, d["code_verifier"].s))
      && UrlLib.Lookup(p, "redirect_uri") == Some(d["redirect_uri"].s)
  {
    LinkMatchesGrant(app, prims, RedirectUri(host, port), scopes, FlowCode(io, stateChallenge).value, verifier, stateChallenge);
  }
}
