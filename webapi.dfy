/**
 * The request-building side of `WebAPI`: query parameters with empty values
 * dropped, enum parameters whose values are aggregated into one delimited
 * parameter per enum, the request a call prepares, which statuses each kind
 * of call accepts, and the loop that follows `nextPageToken` through a
 * paginated listing. Responses are inputs; nothing is sent.
 */
module WebApi {
  import opened Wrappers
  import opened Text
  import opened Json
  import Order
  import Web

  // ---------------------------------------------------------------------
  // Query parameters (convert_url_params)

  /** `convert_url_params`: no parameters give no query, and a value that is
      `None` or the empty string is left out; every other value is
      stringified with `str`. */
  function ConvertUrlParams(p: Option<map<string, Value>>): (r: map<string, string>)
    ensures p.None? ==> r == map[]
    ensures p.Some? ==> forall k :: k in r <==> k in p.value && p.value[k] != Null && p.value[k] != Str("")
    ensures p.Some? ==> forall k :: k in r ==> r[k] == PyStr(p.value[k])
    ensures forall k :: k in r ==> r[k] != ""
  {
    match p
    case None => map[]
    case Some(m) => map k | k in m && m[k] != Null && m[k] != Str("") :: PyStr(m[k])
  }

  /** The converted parameters as string values. */
  function AsStrings(q: map<string, string>): (m: map<string, Value>)
    ensures m.Keys == q.Keys && forall k :: k in q ==> m[k] == Str(q[k])
  {
    map k | k in q :: Str(q[k])
  }

  /** Converting converted parameters changes nothing: every value that
      survives is a non-empty string. */
  lemma ConvertIdempotent(p: Option<map<string, Value>>)
    ensures ConvertUrlParams(Some(AsStrings(ConvertUrlParams(p)))) == ConvertUrlParams(p)
  {
    ConvertStrings(ConvertUrlParams(p));
  }

  /** Non-empty string values convert to themselves. */
  lemma ConvertStrings(q: map<string, string>)
    requires forall k :: k in q ==> q[k] != ""
    ensures ConvertUrlParams(Some(AsStrings(q))) == q
  {
    var m := AsStrings(q);
    var q2 := ConvertUrlParams(Some(m));
    forall k | k in q ensures k in q2 && q2[k] == q[k] {
      assert m[k] == Str(q[k]);
    }
    assert q2.Keys == q.Keys;
  }

  // ---------------------------------------------------------------------
  // Enum parameters (EnumParam, combine_params)

  /** A member of an `EnumParam` subclass named `enumName`, with the set of
      values it stands for. */
  datatype EnumParam = EnumParam(enumName: string, value: string, values: set<string>)

  /** The member as first used: it stands for its own value only. */
  function Member(enumName: string, value: string): (p: EnumParam)
    ensures p.enumName == enumName && p.value == value && p.values == {value}
  {
    EnumParam(enumName, value, {value})
  }

  /** `a + b`: `a` standing for `b`'s value as well. */
  function Add(a: EnumParam, b: EnumParam): (r: EnumParam)
    ensures r.enumName == a.enumName && r.value == a.value
    ensures r.values == a.values + {b.value}
  {
    a.(values := a.values + {b.value})
  }

  /** `b in a`. */
  predicate Contains(a: EnumParam, b: EnumParam)
  {
    b.value in a.values
  }

  /** Adding keeps every value already there and makes the added member
      contained; nothing else becomes contained. */
  lemma AddContains(a: EnumParam, b: EnumParam, c: EnumParam)
    ensures Contains(Add(a, b), b)
    ensures Contains(a, c) ==> Contains(Add(a, b), c)
    ensures Contains(Add(a, b), c) <==> Contains(a, c) || c.value == b.value
  {
  }

  /** The membership checks of the enum tests: a member contains itself and
      not another member, and after `+=` it contains both. */
  lemma ContainsAfterAdd(readonly: string, members: string)
    requires readonly != members
    ensures var r := Member("Scope", readonly);
      var m := Member("Scope", members);
      && Contains(r, r) && !Contains(r, m)
      && Contains(Add(r, m), r) && Contains(Add(r, m), m)
  {
  }

  /** `get_title`: the class name with its first character lower-cased. */
  function Title(enumName: string): (t: string)
    requires enumName != []
    ensures |t| == |enumName| && t[1..] == enumName[1..]
    ensures 'A' <= enumName[0] <= 'Z' ==> t[0] as int == enumName[0] as int + 32
    ensures !('A' <= enumName[0] <= 'Z') ==> t == enumName
  {
    [LowerChar(enumName[0])] + enumName[1..]
  }

  predicate Named(params: seq<EnumParam>)
  {
    forall i :: 0 <= i < |params| ==> params[i].enumName != []
  }

  /** The value sets of the parameters, united per title, in the order the
      loop of `combine_params` builds them. */
  function TitleSets(params: seq<EnumParam>): map<string, set<string>>
    requires Named(params)
    decreases |params|
  {
    if params == [] then map[]
    else
      var m := TitleSets(params[..|params| - 1]);
      var p := params[|params| - 1];
      var t := Title(p.enumName);
      m[t := (if t in m then m[t] else {}) + p.values]
  }

  function Titles(params: seq<EnumParam>): set<string>
    requires Named(params)
  {
    set i | 0 <= i < |params| :: Title(params[i].enumName)
  }

  /** One key per title of a parameter. */
  lemma {:induction false} TitleSetsKeys(params: seq<EnumParam>)
    requires Named(params)
    ensures TitleSets(params).Keys == Titles(params)
    decreases |params|
  {
    if params != [] {
      var n := |params| - 1;
      var init := params[..n];
      TitleSetsKeys(init);
      assert forall i :: 0 <= i < n ==> init[i] == params[i];
      assert Titles(params) == Titles(init) + {Title(params[n].enumName)} by {
        forall t | t in Titles(params) ensures t in Titles(init) + {Title(params[n].enumName)} {
          var i :| 0 <= i < |params| && Title(params[i].enumName) == t;
          if i < n {
            assert Title(init[i].enumName) == t;
          }
        }
      }
    }
  }

  /** The values under a title are exactly the values of the parameters
      with that title. */
  lemma {:induction false} TitleSetsValues(params: seq<EnumParam>, t: string, x: string)
    requires Named(params) && t in TitleSets(params)
    ensures x in TitleSets(params)[t] <==>
      exists i :: 0 <= i < |params| && Title(params[i].enumName) == t && x in params[i].values
    decreases |params|
  {
    var n := |params| - 1;
    var init := params[..n];
    var p := params[n];
    assert forall i :: 0 <= i < n ==> init[i] == params[i];
    TitleSetsKeys(init);
    if t in TitleSets(init) {
      TitleSetsValues(init, t, x);
      if x in TitleSets(init)[t] {
        var i :| 0 <= i < n && Title(init[i].enumName) == t && x in init[i].values;
        assert Title(params[i].enumName) == t && x in params[i].values;
      }
    }
    if x !in TitleSets(params)[t] {
      forall i | 0 <= i < |params| && Title(params[i].enumName) == t
        ensures x !in params[i].values
      {
        if i < n {
          assert Title(init[i].enumName) == t;
          assert t in Titles(init);
        }
      }
    }
  }

  /** Every parameter's values are under its title. */
  lemma {:induction false} TitleSetsCover(params: seq<EnumParam>, k: nat)
    requires Named(params) && k < |params|
    ensures Title(params[k].enumName) in TitleSets(params)
    ensures params[k].values <= TitleSets(params)[Title(params[k].enumName)]
    decreases |params|
  {
    var n := |params| - 1;
    if k < n {
      var init := params[..n];
      assert init[k] == params[k];
      TitleSetsCover(init, k);
    }
  }

  lemma UpdateSame<K, V>(m: map<K, V>, k: K)
    requires k in m
    ensures m[k := m[k]] == m
  {
  }

  /** Repeating a parameter adds no value: duplicates are not duplicated. */
  lemma TitleSetsDuplicate(params: seq<EnumParam>, k: nat)
    requires Named(params) && k < |params|
    ensures Named(params + [params[k]]) && TitleSets(params + [params[k]]) == TitleSets(params)
  {
    var ps := params + [params[k]];
    assert Named(ps);
    assert ps[..|ps| - 1] == params;
    assert ps[|ps| - 1] == params[k];
    TitleSetsCover(params, k);
    var m := TitleSets(params);
    var t := Title(params[k].enumName);
    var v := m[t];
    assert v + params[k].values == v;
    assert TitleSets(ps) == m[t := v + params[k].values];
    UpdateSame(m, t);
  }

  /** The result of `combine_params`: each title with its values joined by
      the delimiter. A Python set has no defined iteration order; the model
      joins the values in ascending order. */
  function Combined(params: seq<EnumParam>, delimiter: string): (r: map<string, string>)
    requires Named(params)
  {
    var sets := TitleSets(params);
    map t | t in sets :: Join(Order.SortedList(sets[t]), delimiter)
  }

  /** `combine_params(Scope.READONLY) == {'scope': 'test.readonly'}`. */
  lemma CombineSingle()
    ensures Named([Member("Scope", "test.readonly")])
    ensures Combined([Member("Scope", "test.readonly")], ",") == map["scope" := "test.readonly"]
  {
    var ps := [Member("Scope", "test.readonly")];
    assert ps[..0] == [];
    assert TitleSets(ps[..0]) == map[];
    assert Title("Scope") == "scope" by {
      assert LowerChar('S') == 's';
    }
    assert ps[0].values == {"test.readonly"};
    assert |ps| == 1 && ps[..|ps| - 1] == [];
    var m := TitleSets(ps);
    var v: set<string> := {"test.readonly"};
    assert {} + v == v;
    assert m == map[][Title("Scope") := v];
    assert m == map["scope" := v];
    var l := Order.SortedList({"test.readonly"});
    assert l == ["test.readonly"] by {
      assert |l| == 1 && l[0] in l;
    }
  }

  /** `combine_params`: the loop unites the value sets per title, then
      every set is joined. */
  method CombineParams(params: seq<EnumParam>, delimiter: string) returns (r: map<string, string>)
    requires Named(params)
    ensures r == Combined(params, delimiter)
  {
    var results: map<string, set<string>> := map[];
    var i := 0;
    while i < |params|
      invariant 0 <= i <= |params|
      invariant results == TitleSets(params[..i])
    {
      var title := Title(params[i].enumName);
      results := results[title := (if title in results then results[title] else {}) + params[i].values];
      assert params[..i + 1][..i] == params[..i];
      i := i + 1;
    }
    assert params[..i] == params;
    r := map k | k in results :: Join(Order.SortedList(results[k]), delimiter);
  }

  // ---------------------------------------------------------------------
  // Responses (api_err and the status checks of _req_json, _req_text,
  // _req_empty)

  datatype ApiError = ApiError(status: int, reason: Value)

  /** `api_err`: the reason is the result's `message` when the result is a
      dict holding one, the response text otherwise. */
  function ApiErr(status: int, result: Value, text: string): (e: ApiError)
    ensures e.status == status
    ensures result.Obj? && "message" in result.fields ==> e.reason == result.fields["message"]
    ensures !(result.Obj? && "message" in result.fields) ==> e.reason == Str(text)
  {
    if result.Obj? && "message" in result.fields then ApiError(status, result.fields["message"])
    else ApiError(status, Str(text))
  }

  /** `_req_json`: the decoded body, or the text when it is not JSON; any
      2xx status is accepted. */
  function ReqJson(resp: Web.Response): (r: Result<Value, ApiError>)
    ensures r.Ok? <==> 200 <= resp.status < 300
    ensures r.Ok? ==> r.value == (if resp.json.Some? then resp.json.value else Str(resp.text))
    ensures r.Err? && resp.json.Some? ==> r.error == ApiErr(resp.status, resp.json.value, resp.text)
    ensures r.Err? && resp.json.None? ==> r.error == ApiError(resp.status, Str(resp.text))
  {
    var result := if resp.json.Some? then resp.json.value else Str(resp.text);
    if resp.status >= 300 || resp.status < 200 then Err(ApiErr(resp.status, result, resp.text))
    else Ok(result)
  }

  /** `_req_text`: only 200 is accepted, and a failure reports the text. */
  function ReqText(resp: Web.Response): (r: Result<string, ApiError>)
    ensures r.Ok? <==> resp.status == 200
    ensures r.Ok? ==> r.value == resp.text
    ensures r.Err? ==> r.error == ApiError(resp.status, Str(resp.text))
  {
    if resp.status != 200 then Err(ApiErr(resp.status, Str(resp.text), resp.text)) else Ok(resp.text)
  }

  /** `_req_empty`: only 204 is accepted, and a failure reports the text. */
  function ReqEmpty(resp: Web.Response): (r: Result<(), ApiError>)
    ensures r.Ok? <==> resp.status == 204
    ensures r.Err? ==> r.error == ApiError(resp.status, Str(resp.text))
  {
    if resp.status != 204 then Err(ApiErr(resp.status, Null, resp.text)) else Ok(())
  }

  /** The three calls accept different statuses: a JSON call accepts every
      status the other two accept, 204 is no text and 200 is not empty. */
  lemma AcceptanceRules(resp: Web.Response)
    ensures ReqText(resp).Ok? || ReqEmpty(resp).Ok? ==> ReqJson(resp).Ok?
    ensures !(ReqText(resp).Ok? && ReqEmpty(resp).Ok?)
    ensures resp.status == 204 ==> ReqJson(resp).Ok? && ReqText(resp).Err?
    ensures resp.status == 200 ==> ReqJson(resp).Ok? && ReqEmpty(resp).Err?
  {
  }

  // ---------------------------------------------------------------------
  // Requests (get_full_url, _prepare_req)

  /** The body a call sends: `json` when it is given, `data` otherwise,
      and `{}` when neither is; the flag says whether it is JSON. */
  function RequestBody(json: Value, data: Value): (r: (Value, bool))
    ensures r.1 <==> json != Null
    ensures r.0 != Null
    ensures json != Null ==> r.0 == json
    ensures json == Null && data != Null ==> r.0 == data
    ensures json == Null && data == Null ==> r.0 == Obj(map[])
  {
    var (body, isJson) := if json != Null then (json, true) else (data, false);
    if body == Null then (Obj(map[]), isJson) else (body, isJson)
  }

  // ---------------------------------------------------------------------
  // Pagination (paginated)

  /** `page.get('items', page.get('data'))`. */
  function PageItems(page: map<string, Value>): (v: Value)
    ensures "items" in page ==> v == page["items"]
    ensures "items" !in page && "data" in page ==> v == page["data"]
    ensures "items" !in page && "data" !in page ==> v == Null
  {
    if "items" in page then page["items"] else if "data" in page then page["data"] else Null
  }

  function NextPageToken(page: map<string, Value>): Value
  {
    if "nextPageToken" in page then page["nextPageToken"] else Null
  }

  /** How many items of a page of `n` are yielded when `count` items came
      before: the limit is checked after each item, so at least one is.
      `None` when the page is yielded in full. */
  function TakenOnPage(n: nat, limit: Option<int>, count: nat): (m: Option<nat>)
    requires n > 0
    ensures m.Some? <==> limit.Some? && count + n >= limit.value
    ensures m.Some? ==> 1 <= m.value <= n && m.value == Max(limit.value - count, 1)
  {
    if limit.Some? && count + n >= limit.value then
      Some(if limit.value - count >= 1 then limit.value - count else 1)
    else None
  }

  /** The items of a page as the loop sees them: the list, or nothing. */
  function PageList(page: map<string, Value>): seq<Value>
  {
    if PageItems(page).List? then PageItems(page).items else []
  }

  /** What one page contributes: the items yielded from it, the parameters
      of the next request when the listing goes on, and whether it stopped
      on an items value that is not a list. */
  datatype PageOutcome = PageOutcome(taken: seq<Value>, next: Option<map<string, Value>>, notIterable: bool)

  /** One turn of the `while True` loop on the answer `page`, requested with
      `params`, after `count` items. */
  function OnePage(page: map<string, Value>, params: map<string, Value>, limit: Option<int>, count: nat)
    : (o: PageOutcome)
    ensures o.next.Some? ==> o.taken != [] && (limit.Some? ==> count + |o.taken| < limit.value)
    ensures o.next.Some? ==> o.next.value == params["pageToken" := NextPageToken(page)] && Truthy(NextPageToken(page))
    ensures o.notIterable ==> o.next.None? && o.taken == []
  {
    var items := PageItems(page);
    if !Truthy(items) then PageOutcome([], None, false)
    else if !items.List? then PageOutcome([], None, true)
    else
      var xs := items.items;
      match TakenOnPage(|xs|, limit, count)
      case Some(m) => PageOutcome(xs[..m], None, false)
      case None =>
        var token := NextPageToken(page);
        if !Truthy(token) then PageOutcome(xs, None, false)
        else PageOutcome(xs, Some(params["pageToken" := token]), false)
  }

  /** The items one page yields: a prefix of its list, all of it when the
      listing goes on or has no limit, and `max(limit - count, 1)` of a
      non-empty list that reaches the limit. */
  lemma OnePageItems(page: map<string, Value>, params: map<string, Value>, limit: Option<int>, count: nat)
    ensures var o := OnePage(page, params, limit, count);
      && o.taken <= PageList(page)
      && (o.next.Some? || limit.None? ==> o.taken == PageList(page))
      && (PageList(page) != [] && limit.Some? && count + |PageList(page)| >= limit.value ==>
            |o.taken| == Max(limit.value - count, 1))
  {
  }

  /** What a run of the listing produced: the items yielded, the parameters
      of every page request in order, the caller's parameters at the end,
      and whether it stopped on an items value that is not a list. */
  datatype Paging = Paging(items: seq<Value>, requests: seq<map<string, Value>>,
                           params: map<string, Value>, notIterable: bool)

  /** The listing from the `i`-th of the answers `pages` to successive
      requests on, with the caller's parameters at `params`, after the
      items `items` were yielded by the requests `requests`. When the
      answers run out the run ends; the source would request again. */
  function Listing(pages: seq<map<string, Value>>, i: nat, params: map<string, Value>, limit: Option<int>,
                   items: seq<Value>, requests: seq<map<string, Value>>): Paging
    decreases |pages| - i
  {
    if i >= |pages| then Paging(items, requests, params, false)
    else
      var o := OnePage(pages[i], params, limit, |items|);
      match o.next
      case None => Paging(items + o.taken, requests + [params], params, o.notIterable)
      case Some(p) => Listing(pages, i + 1, p, limit, items + o.taken, requests + [params])
  }

  /** `paginated(path, params, limit)` over the answers `pages`. */
  function Paginate(pages: seq<map<string, Value>>, params: map<string, Value>, limit: Option<int>): Paging
  {
    Listing(pages, 0, params, limit, [], [])
  }

  function Max(a: int, b: int): int
  {
    if a >= b then a else b
  }

  /** With a limit, no more items are yielded than the limit allows, and
      never fewer than one item of a non-empty page. */
  lemma {:induction false} ListingBound(pages: seq<map<string, Value>>, i: nat, params: map<string, Value>,
                                        limit: Option<int>, items: seq<Value>, requests: seq<map<string, Value>>)
    requires limit.Some? ==> items == [] || |items| < limit.value
    ensures limit.Some? ==> |Listing(pages, i, params, limit, items, requests).items| <= Max(limit.value, |items| + 1)
    decreases |pages| - i
  {
    if i < |pages| {
      var o := OnePage(pages[i], params, limit, |items|);
      if o.next.Some? {
        ListingBound(pages, i + 1, o.next.value, limit, items + o.taken, requests + [params]);
      }
    }
  }

  /** `paginated` with a limit of `n` yields at most `max(n, 1)` items. */
  lemma PaginateLimit(pages: seq<map<string, Value>>, params: map<string, Value>, n: int)
    ensures |Paginate(pages, params, Some(n)).items| <= Max(n, 1)
  {
    ListingBound(pages, 0, params, Some(n), [], []);
  }

  /** A limit of zero or one still yields the first item of a first page
      that has items, and only that. */
  lemma LimitYieldsFirst(pages: seq<map<string, Value>>, params: map<string, Value>, n: int)
    requires n <= 1 && pages != [] && PageItems(pages[0]).List? && PageItems(pages[0]).items != []
    ensures Paginate(pages, params, Some(n)).items == [PageItems(pages[0]).items[0]]
  {
  }

  /** Each request after the first carries the previous one's parameters
      with `pageToken` set to the truthy `nextPageToken` of the page
      before; requests are made one per answer, in order. */
  lemma {:induction false} ListingRequests(pages: seq<map<string, Value>>, i: nat, params: map<string, Value>,
                                           limit: Option<int>, items: seq<Value>, requests: seq<map<string, Value>>)
    requires |requests| == i <= |pages|
    ensures var r := Listing(pages, i, params, limit, items, requests);
      && |requests| <= |r.requests| <= |pages| && r.requests[..i] == requests
      && (i < |pages| ==> |r.requests| > i && r.requests[i] == params)
      && (|r.requests| < |pages| ==> r.params == r.requests[|r.requests| - 1])
      && forall j :: i <= j < |r.requests| - 1 ==>
           && Truthy(NextPageToken(pages[j]))
           && r.requests[j + 1] == r.requests[j]["pageToken" := NextPageToken(pages[j])]
    decreases |pages| - i
  {
    if i < |pages| {
      var o := OnePage(pages[i], params, limit, |items|);
      var reqs := requests + [params];
      if o.next.Some? {
        var p := o.next.value;
        ListingRequests(pages, i + 1, p, limit, items + o.taken, reqs);
        var r := Listing(pages, i, params, limit, items, requests);
        assert r.requests[..i + 1] == reqs;
        assert r.requests[..i] == reqs[..i] == requests;
        assert r.requests[i] == reqs[i] == params;
        if i + 1 < |r.requests| {
          assert r.requests[i + 1] == p;
        }
      }
    }
  }

  /** The first request carries the caller's parameters and each further
      one the previous parameters with the page token of the answer
      before; when the listing ends before the answers run out, the
      caller's map is left as the parameters of the last request. */
  lemma PaginateRequests(pages: seq<map<string, Value>>, params: map<string, Value>, limit: Option<int>)
    ensures var r := Paginate(pages, params, limit);
      && |r.requests| <= |pages|
      && (pages != [] ==> r.requests != [] && r.requests[0] == params)
      && (0 < |r.requests| < |pages| ==> r.params == r.requests[|r.requests| - 1])
      && forall j :: 0 <= j < |r.requests| - 1 ==>
           && Truthy(NextPageToken(pages[j]))
           && r.requests[j + 1] == r.requests[j]["pageToken" := NextPageToken(pages[j])]
  {
    ListingRequests(pages, 0, params, limit, [], []);
  }

  /** The page lists of the first `n` answers, in order. */
  function Flat(pages: seq<map<string, Value>>, n: nat): seq<Value>
    requires n <= |pages|
  {
    if n == 0 then [] else Flat(pages, n - 1) + PageList(pages[n - 1])
  }

  /** From the `i`-th answer on, every requested page but the last is
      yielded in full, and the last one a prefix of its list; without a
      limit, the last one in full too. */
  lemma {:induction false} ListingItems(pages: seq<map<string, Value>>, i: nat, params: map<string, Value>,
                                        limit: Option<int>, items: seq<Value>, requests: seq<map<string, Value>>)
    requires |requests| == i <= |pages| && items == Flat(pages, i)
    ensures var r := Listing(pages, i, params, limit, items, requests);
      && i <= |r.requests| <= |pages|
      && r.items <= Flat(pages, |r.requests|)
      && (|r.requests| > 0 ==> Flat(pages, |r.requests| - 1) <= r.items)
    decreases |pages| - i
  {
    var r := Listing(pages, i, params, limit, items, requests);
    if i >= |pages| {
      assert r.items == items && |r.requests| == i;
      if i > 0 {
        FlatStep(pages, i - 1);
      }
    } else {
      var o := OnePage(pages[i], params, limit, |items|);
      OnePageItems(pages[i], params, limit, |items|);
      FlatStep(pages, i);
      ListingStep(pages, i, params, limit, items, requests);
      if o.next.Some? {
        assert items + o.taken == Flat(pages, i + 1);
        ListingItems(pages, i + 1, o.next.value, limit, items + o.taken, requests + [params]);
      } else {
        assert r.items == items + o.taken && |r.requests| == i + 1;
        PrefixAppend(items, o.taken, PageList(pages[i]));
      }
    }
  }

  /** Without a limit, every requested page is yielded in full. */
  lemma {:induction false} ListingAll(pages: seq<map<string, Value>>, i: nat, params: map<string, Value>,
                                      items: seq<Value>, requests: seq<map<string, Value>>)
    requires |requests| == i <= |pages| && items == Flat(pages, i)
    ensures var r := Listing(pages, i, params, None, items, requests);
      i <= |r.requests| <= |pages| && r.items == Flat(pages, |r.requests|)
    decreases |pages| - i
  {
    if i < |pages| {
      var o := OnePage(pages[i], params, None, |items|);
      OnePageItems(pages[i], params, None, |items|);
      FlatStep(pages, i);
      ListingStep(pages, i, params, None, items, requests);
      if o.next.Some? {
        ListingAll(pages, i + 1, o.next.value, items + o.taken, requests + [params]);
      }
    }
  }

  /** One more answer adds its page list at the end. */
  lemma FlatStep(pages: seq<map<string, Value>>, n: nat)
    requires n < |pages|
    ensures Flat(pages, n + 1) == Flat(pages, n) + PageList(pages[n])
    ensures Flat(pages, n) <= Flat(pages, n + 1)
  {
  }

  /** One turn of the listing. */
  lemma ListingStep(pages: seq<map<string, Value>>, i: nat, params: map<string, Value>,
                    limit: Option<int>, items: seq<Value>, requests: seq<map<string, Value>>)
    requires i < |pages|
    ensures var o := OnePage(pages[i], params, limit, |items|);
      && (o.next.None? ==> Listing(pages, i, params, limit, items, requests)
                           == Paging(items + o.taken, requests + [params], params, o.notIterable))
      && (o.next.Some? ==> Listing(pages, i, params, limit, items, requests)
                           == Listing(pages, i + 1, o.next.value, limit, items + o.taken, requests + [params]))
  {
  }

  lemma PrefixAppend(a: seq<Value>, b: seq<Value>, c: seq<Value>)
    requires b <= c
    ensures a <= a + b <= a + c
  {
    assert (a + c)[..|a + b|] == a + b;
  }

  /** `paginated` yields, in order, the items of every requested page but
      the last in full and a prefix of the last one's; without a limit,
      exactly the items of all requested pages. */
  lemma PaginateItems(pages: seq<map<string, Value>>, params: map<string, Value>, limit: Option<int>)
    ensures var r := Paginate(pages, params, limit);
      && |r.requests| <= |pages|
      && r.items <= Flat(pages, |r.requests|)
      && (|r.requests| > 0 ==> Flat(pages, |r.requests| - 1) <= r.items)
      && (limit.None? ==> r.items == Flat(pages, |r.requests|))
  {
    ListingItems(pages, 0, params, limit, [], []);
    if limit.None? {
      ListingAll(pages, 0, params, [], []);
    }
  }

  /** A page whose items are falsy ends the listing and yields nothing
      more, whatever follows it. */
  lemma StopsAtFalsyPage(pages: seq<map<string, Value>>, i: nat, params: map<string, Value>, limit: Option<int>,
                         items: seq<Value>, requests: seq<map<string, Value>>)
    requires i < |pages| && !Truthy(PageItems(pages[i]))
    ensures Listing(pages, i, params, limit, items, requests) == Paging(items, requests + [params], params, false)
  {
    assert items + [] == items;
  }

  // ---------------------------------------------------------------------
  // The API object (WebAPI)

  /** An API rooted at `baseUrl`. The session and the signing of requests
      belong to sending, which is not modelled. */
  class WebApi {
    const baseUrl: string

    constructor (baseUrl: string)
      ensures this.baseUrl == baseUrl
    {
      this.baseUrl := baseUrl;
    }

    /** `get_full_url`: a path relative to the API's root. */
    function FullUrl(path: string): (r: string)
      ensures |r| == |baseUrl| + |path| && r[..|baseUrl|] == baseUrl && r[|baseUrl|..] == path
    {
      baseUrl + path
    }

    /** `_prepare_req`: a new request for the full URL, the converted query
        parameters, the given headers or none, and the body of
        `RequestBody`. */
    method PrepareReq(httpMethod: Web.Method, path: string, params: Option<map<string, Value>>,
                      json: Value, data: Value, headers: Option<map<string, string>>)
      returns (req: Web.Request)
      ensures fresh(req)
      ensures req.httpMethod == httpMethod && req.url == FullUrl(path)
      ensures req.queryParams == ConvertUrlParams(params)
      ensures req.headers == (if headers.Some? then headers.value else map[])
      ensures (req.data, req.dataIsJson) == RequestBody(json, data)
    {
      var fullUrl := FullUrl(path);
      var body: Value, isJson: bool;
      if json != Null {
        body, isJson := json, true;
      } else {
        body, isJson := data, false;
      }
      if body == Null {
        body := Obj(map[]);
      }
      var hs := if headers.Some? then headers.value else map[];
      req := new Web.Request(httpMethod, fullUrl, ConvertUrlParams(params), hs, body, isJson);
    }

    /** The inner loop of `paginated` over the items `xs` of one page, with
        `count` items yielded before: each item is yielded, then the limit
        is checked. */
    method YieldPage(xs: seq<Value>, limit: Option<int>, count: nat) returns (taken: seq<Value>, stop: bool)
      requires xs != []
      requires limit.Some? ==> count == 0 || count < limit.value
      ensures stop <==> TakenOnPage(|xs|, limit, count).Some?
      ensures taken == (if stop then xs[..TakenOnPage(|xs|, limit, count).value] else xs)
    {
      var resultCount := count;
      taken := [];
      var j := 0;
      while j < |xs|
        invariant 0 <= j <= |xs|
        invariant taken == xs[..j] && resultCount == count + j
        invariant limit.Some? ==> j == 0 || count + j < limit.value
      {
        resultCount := resultCount + 1;
        taken := taken + [xs[j]];
        if limit.Some? && resultCount >= limit.value {
          assert xs[..j] + [xs[j]] == xs[..j + 1];
          return taken, true;
        }
        j := j + 1;
      }
      assert xs[..j] == xs;
      stop := false;
    }

    /** One turn of the `while True` loop of `paginated` on the answer
        `page`: its items are yielded until the limit stops the listing,
        and the next request's parameters carry the page token. */
    method PageStep(page: map<string, Value>, params: map<string, Value>, limit: Option<int>, count: nat)
      returns (taken: seq<Value>, next: Option<map<string, Value>>, notIterable: bool)
      requires limit.Some? ==> count == 0 || count < limit.value
      ensures PageOutcome(taken, next, notIterable) == OnePage(page, params, limit, count)
    {
      var items := PageItems(page);
      if !Truthy(items) {
        return [], None, false;
      }
      if !items.List? {
        return [], None, true;
      }
      var stop;
      taken, stop := YieldPage(items.items, limit, count);
      if stop {
        return taken, None, false;
      }
      var pageToken := NextPageToken(page);
      if !Truthy(pageToken) {
        return taken, None, false;
      }
      next, notIterable := Some(params["pageToken" := pageToken]), false;
    }

    /** `paginated` over the answers `pages` to its successive page
        requests: a page with falsy items, a limit reached, or a page
        without a truthy `nextPageToken` ends the listing; otherwise the
        token is written into the caller's parameters for the next
        request. */
    method Paginated(pages: seq<map<string, Value>>, params: map<string, Value>, limit: Option<int>)
      returns (items: seq<Value>, requests: seq<map<string, Value>>, finalParams: map<string, Value>,
               notIterable: bool)
      ensures Paging(items, requests, finalParams, notIterable) == Paginate(pages, params, limit)
    {
      items, requests, finalParams, notIterable := [], [], params, false;
      var i := 0;
      while i < |pages|
        invariant 0 <= i <= |pages|
        invariant limit.Some? ==> |items| == 0 || |items| < limit.value
        invariant Listing(pages, i, finalParams, limit, items, requests) == Paginate(pages, params, limit)
      {
        var taken, next, bad := PageStep(pages[i], finalParams, limit, |items|);
        requests := requests + [finalParams];
        items := items + taken;
        if next.None? {
          notIterable := bad;
          return;
        }
        finalParams := next.value;
        i := i + 1;
      }
    }
  }
}
