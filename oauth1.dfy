/**
 * OAuth 1.0a request signing with HMAC-SHA1 (RFC 5849): the percent-encoding
 * of section 3.6, the parameter normalisation of section 3.4.1.3.2, the base
 * string and key of sections 3.4.1.1 and 3.4.2, and the `Authorization`
 * header of section 3.5.1. The random nonce bytes and the clock are inputs;
 * HMAC-SHA1 and base64 are uninterpreted.
 */
module OAuth1 {
  import opened Wrappers
  import opened Text
  import Utf8
  import Percent
  import Order
  import Crypto
  import Calendar

  // ---------------------------------------------------------------------
  // Percent-encoding (src/SlyAPI/oauth1.py, percentEncode)

  /** The RFC 5849 percent-encoding of a string: its UTF-8 bytes, each kept
      when unreserved and written `%XX` otherwise. */
  function Encoded(s: string): string
  {
    Percent.EncodeString(s, false)
  }

  /** The separators of the protocol never occur in an encoding, and every
      character of it is ASCII. */
  lemma EncodedChars(s: string)
    ensures '&' !in Encoded(s) && '=' !in Encoded(s) && ' ' !in Encoded(s)
    ensures '"' !in Encoded(s) && ',' !in Encoded(s)
    ensures IsAscii(Encoded(s))
  {
    var r := Encoded(s);
    assert forall i :: 0 <= i < |r| ==> Percent.IsUnitChar(r[i], false);
  }

  /** `percentEncode(s)`: builds the result one UTF-8 byte at a time. */
  method PercentEncode(s: string) returns (result: string)
    ensures result == Encoded(s)
  {
    var bytes := Utf8.Encode(s);
    result := "";
    for i := 0 to |bytes|
      invariant result == Percent.EncodeBytes(bytes[..i], false)
    {
      var c := bytes[i];
      var unit := if Percent.IsUnreservedByte(c) then [c as char]
                  else ['%', Percent.HexDigits[c / 16], Percent.HexDigits[c % 16]];
      assert unit == Percent.Unit(c, false);
      Percent.EncodeBytesSnoc(bytes[..i], c, false);
      assert bytes[..i + 1] == bytes[..i] + [c];
      result := result + unit;
    }
    assert bytes[..|bytes|] == bytes;
  }

  /** The output splits into units: unreserved characters and `%XX` with
      upper-case hexadecimal digits; decoding the units gives the UTF-8
      bytes back, and decoding those gives the string. */
  lemma EncodedDecodes(s: string)
    ensures Percent.WellFormed(Encoded(s), false)
    ensures Percent.DecodeUnits(Encoded(s), false) == Some(Utf8.Encode(s))
    ensures Utf8.Decode(Utf8.Encode(s)) == Some(s)
  {
    Percent.EncodeBytesWellFormed(Utf8.Encode(s), false);
    Percent.DecodeEncodeString(s, false);
  }

  lemma EncodedInjective(s: string, t: string)
    ensures Encoded(s) == Encoded(t) ==> s == t
  {
    if Encoded(s) == Encoded(t) {
      Percent.EncodeStringInjective(s, t, false);
    }
  }

  /** Unreserved characters are left alone. */
  lemma EncodedUnreserved(s: string)
    requires forall i :: 0 <= i < |s| ==> Percent.IsUnreservedChar(s[i])
    ensures Encoded(s) == s
  {
    Percent.EncodeUnreserved(s, false);
  }

  /** The reserved characters the protocol relies on are always escaped. */
  lemma EncodesReserved()
    ensures Encoded("&") == "%26" && Encoded("=") == "%3D"
    ensures Encoded("%") == "%25" && Encoded(" ") == "%20"
  {
    EncodedAsciiChar('&');
    EncodedAsciiChar('=');
    EncodedAsciiChar('%');
    EncodedAsciiChar(' ');
  }

  /** An ASCII character is encoded as the unit of its one byte. */
  lemma EncodedAsciiChar(c: char)
    requires c < 128 as char
    ensures Encoded([c]) == Percent.Unit(c as int, false)
  {
    assert Utf8.Encode([c]) == [c as int];
    assert Percent.EncodeBytes([c as int], false) == Percent.Unit(c as int, false) + Percent.EncodeBytes([], false);
  }

  // ---------------------------------------------------------------------
  // Parameter normalisation (paramString)

  /** The parameters with keys and values encoded, built one key at a time
      in ascending key order. */
  function EncodedParams(params: map<string, string>): map<string, string>
    decreases |params|
  {
    if params == map[] then map[]
    else
      var k := Order.Least(params.Keys);
      EncodedParams(params - {k})[Encoded(k) := Encoded(params[k])]
  }

  /** Every parameter has its encoded entry: distinct keys stay distinct,
      because the encoding is injective. */
  lemma {:induction false} EncodedParamsAt(params: map<string, string>, p: string)
    requires p in params
    ensures Encoded(p) in EncodedParams(params) && EncodedParams(params)[Encoded(p)] == Encoded(params[p])
    decreases |params|
  {
    var k := Order.Least(params.Keys);
    var rest := params - {k};
    assert EncodedParams(params) == EncodedParams(rest)[Encoded(k) := Encoded(params[k])];
    if p != k {
      EncodedInjective(p, k);
      EncodedParamsAt(rest, p);
    }
  }

  lemma EncodedParamsEntries(params: map<string, string>)
    ensures forall p :: p in params ==> Encoded(p) in EncodedParams(params)
                                        && EncodedParams(params)[Encoded(p)] == Encoded(params[p])
  {
    forall p | p in params
      ensures Encoded(p) in EncodedParams(params) && EncodedParams(params)[Encoded(p)] == Encoded(params[p])
    {
      EncodedParamsAt(params, p);
    }
  }

  /** Every entry comes from a parameter. */
  lemma {:induction false} EncodedParamsKeys(params: map<string, string>)
    ensures forall e :: e in EncodedParams(params) ==> exists p :: p in params && e == Encoded(p)
    decreases |params|
  {
    if params != map[] {
      var k := Order.Least(params.Keys);
      var rest := params - {k};
      assert EncodedParams(params) == EncodedParams(rest)[Encoded(k) := Encoded(params[k])];
      EncodedParamsKeys(rest);
      forall e | e in EncodedParams(params) ensures exists p :: p in params && e == Encoded(p) {
        if e != Encoded(k) {
          var p :| p in rest && e == Encoded(p);
          assert p in params;
        }
      }
    }
  }

  /** The encoded keys in ascending order. */
  function ParamKeys(params: map<string, string>): (keys: seq<string>)
    ensures Order.StrictlySorted(keys)
    ensures forall k :: k in keys <==> k in EncodedParams(params)
  {
    Order.SortedList(EncodedParams(params).Keys)
  }

  /** The `k=v` fields, in the order of their encoded keys. */
  function ParamFields(params: map<string, string>): (fs: seq<string>)
    ensures |fs| == |ParamKeys(params)|
  {
    var e := EncodedParams(params);
    var keys := ParamKeys(params);
    seq(|keys|, i requires 0 <= i < |keys| => keys[i] + "=" + e[keys[i]])
  }

  /** The normalised parameter string. */
  function ParamStringOf(params: map<string, string>): string
  {
    Join(ParamFields(params), "&")
  }

  /** `paramString(params)`: collects the fields in a list, then joins them. */
  method ParamString(params: map<string, string>) returns (r: string)
    ensures r == ParamStringOf(params)
  {
    var results: seq<string> := [];
    var encoded := EncodedParams(params);
    var items := Order.SortedList(encoded.Keys);
    for i := 0 to |items|
      invariant |results| == i
      invariant forall j :: 0 <= j < i ==> results[j] == items[j] + "=" + encoded[items[j]]
    {
      results := results + [items[i] + "=" + encoded[items[i]]];
    }
    assert results == ParamFields(params);
    r := Join(results, "&");
  }

  lemma ParamStringEmpty()
    ensures ParamStringOf(map[]) == ""
  {
    assert EncodedParams(map[]) == map[];
  }

  /** A field is an encoded key and its encoded value around one "=", and
      holds no "&". */
  lemma FieldShape(params: map<string, string>, i: int)
    requires 0 <= i < |ParamFields(params)|
    ensures ParamKeys(params)[i] in EncodedParams(params)
    ensures '&' !in ParamFields(params)[i]
    ensures Split(ParamFields(params)[i], '=') == [ParamKeys(params)[i], EncodedParams(params)[ParamKeys(params)[i]]]
  {
    var e := EncodedParams(params);
    var k := ParamKeys(params)[i];
    assert k in ParamKeys(params);
    EncodedParamsKeys(params);
    EncodedParamsEntries(params);
    var p :| p in params && k == Encoded(p);
    assert e[k] == Encoded(params[p]);
    EncodedChars(p);
    EncodedChars(params[p]);
    assert ParamFields(params)[i] == k + "=" + e[k];
    SeparatorFree(k, e[k], '=', '&');
    SplitKeyValue(k, e[k], '=');
  }

  /** A non-empty parameter map has at least one field, and its first field
      holds a "=". */
  lemma FieldsNonEmpty(params: map<string, string>)
    requires params != map[]
    ensures |ParamFields(params)| >= 1 && ParamFields(params)[0] != []
  {
    var k :| k in params;
    EncodedParamsEntries(params);
    assert Encoded(k) in ParamKeys(params);
    var e := EncodedParams(params);
    var k0 := ParamKeys(params)[0];
    assert ParamFields(params)[0] == k0 + "=" + e[k0];
  }

  /** Splitting the parameter string at "&" gives the fields back, ordered
      by encoded key. */
  lemma ParamStringFields(params: map<string, string>)
    requires params != map[]
    ensures Split(ParamStringOf(params), '&') == ParamFields(params)
  {
    FieldsNonEmpty(params);
    forall i | 0 <= i < |ParamFields(params)| ensures '&' !in ParamFields(params)[i] {
      FieldShape(params, i);
    }
    SplitJoin(ParamFields(params), '&');
  }

  lemma ParamStringNonEmpty(params: map<string, string>)
    requires params != map[]
    ensures ParamStringOf(params) != ""
  {
    FieldsNonEmpty(params);
    JoinNonEmpty(ParamFields(params), "&");
  }

  /** Equal fields have equal keys and equal values. */
  lemma SameField(p: map<string, string>, q: map<string, string>, i: int)
    requires ParamFields(p) == ParamFields(q) && 0 <= i < |ParamFields(p)|
    ensures ParamKeys(p)[i] == ParamKeys(q)[i]
    ensures EncodedParams(p)[ParamKeys(p)[i]] == EncodedParams(q)[ParamKeys(q)[i]]
  {
    FieldShape(p, i);
    FieldShape(q, i);
  }

  /** The fields determine the encoded keys. */
  lemma FieldsDetermineKeys(p: map<string, string>, q: map<string, string>)
    requires ParamFields(p) == ParamFields(q)
    ensures ParamKeys(p) == ParamKeys(q)
  {
    var kp, kq := ParamKeys(p), ParamKeys(q);
    forall i | 0 <= i < |kp| ensures kp[i] == kq[i] {
      SameField(p, q, i);
    }
  }

  /** An entry of one side is an entry of the other, with the same value. */
  lemma SameEntry(p: map<string, string>, q: map<string, string>, k: string)
    requires ParamFields(p) == ParamFields(q) && k in EncodedParams(p)
    ensures k in EncodedParams(q) && EncodedParams(p)[k] == EncodedParams(q)[k]
  {
    var kp := ParamKeys(p);
    FieldsDetermineKeys(p, q);
    assert k in kp;
    var i :| 0 <= i < |kp| && kp[i] == k;
    SameField(p, q, i);
    assert kp[i] in ParamKeys(q);
  }

  lemma SameMaps(e: map<string, string>, f: map<string, string>)
    requires forall k :: k in e ==> k in f && e[k] == f[k]
    requires forall k :: k in f ==> k in e
    ensures e == f
  {
  }

  /** The fields determine the encoded parameters. */
  lemma FieldsDetermine(p: map<string, string>, q: map<string, string>)
    requires ParamFields(p) == ParamFields(q)
    ensures EncodedParams(p) == EncodedParams(q)
  {
    var e, f := EncodedParams(p), EncodedParams(q);
    forall k | k in e ensures k in f && e[k] == f[k] {
      SameEntry(p, q, k);
    }
    forall k | k in f ensures k in e {
      SameEntry(q, p, k);
    }
    SameMaps(e, f);
  }

  /** The entry of one parameter. */
  lemma EncodedEntry(params: map<string, string>, k: string)
    requires k in params
    ensures Encoded(k) in EncodedParams(params) && EncodedParams(params)[Encoded(k)] == Encoded(params[k])
  {
    EncodedParamsEntries(params);
  }

  /** The parameter an entry comes from. */
  lemma EncodedSource(params: map<string, string>, e: string) returns (k: string)
    requires e in EncodedParams(params)
    ensures k in params && e == Encoded(k)
  {
    EncodedParamsKeys(params);
    k :| k in params && e == Encoded(k);
  }

  /** Encoding the parameters loses nothing. */
  lemma EncodedParamsInjective(p: map<string, string>, q: map<string, string>)
    requires EncodedParams(p) == EncodedParams(q)
    ensures p == q
  {
    forall k | k in p ensures k in q && p[k] == q[k] {
      EncodedParamsCover(p, q, k);
    }
    forall k | k in q ensures k in p {
      EncodedParamsCover(q, p, k);
    }
    assert p.Keys == q.Keys;
  }

  /** A key of one of two maps with the same encoding is a key of the other,
      with the same value. */
  lemma EncodedParamsCover(p: map<string, string>, q: map<string, string>, k: string)
    requires EncodedParams(p) == EncodedParams(q) && k in p
    ensures k in q && p[k] == q[k]
  {
    EncodedEntry(p, k);
    var j := EncodedSource(q, Encoded(k));
    EncodedInjective(k, j);
    EncodedEntry(q, k);
    EncodedInjective(p[k], q[k]);
  }

  /** The parameter string determines the parameters: no two maps share
      one. */
  lemma ParamStringInjective(p: map<string, string>, q: map<string, string>)
    requires ParamStringOf(p) == ParamStringOf(q)
    ensures p == q
  {
    if p == map[] || q == map[] {
      ParamStringEmpty();
      if p != map[] { ParamStringNonEmpty(p); }
      if q != map[] { ParamStringNonEmpty(q); }
    } else {
      ParamStringFields(p);
      ParamStringFields(q);
      FieldsDetermine(p, q);
      EncodedParamsInjective(p, q);
    }
  }

  // ---------------------------------------------------------------------
  // Base string, key and signature (_hmac_sign)

  /** The signature base string: upper-cased method, encoded URL and encoded
      parameter string, separated by "&". */
  function BaseString(httpMethod: string, url: string, params: map<string, string>): string
  {
    Upper(httpMethod) + "&" + Encoded(url) + "&" + Encoded(ParamStringOf(params))
  }

  /** The base string is ASCII exactly when the method is. */
  lemma BaseStringAscii(httpMethod: string, url: string, params: map<string, string>)
    ensures IsAscii(BaseString(httpMethod, url, params)) <==> IsAscii(httpMethod)
  {
    var m, u, ps := Upper(httpMethod), Encoded(url), Encoded(ParamStringOf(params));
    UpperAscii(httpMethod);
    EncodedChars(url);
    EncodedChars(ParamStringOf(params));
    AsciiConcat(m, "&");
    AsciiConcat(m + "&", u);
    AsciiConcat(m + "&" + u, "&");
    AsciiConcat(m + "&" + u + "&", ps);
  }

  /** Upper-casing keeps a method free of "&" when it was. */
  lemma UpperAmpersand(httpMethod: string)
    ensures '&' in Upper(httpMethod) <==> '&' in httpMethod
  {
    var m := Upper(httpMethod);
    if '&' in m {
      var i :| 0 <= i < |m| && m[i] == '&';
      assert httpMethod[i] == '&';
    }
    if '&' in httpMethod {
      var i :| 0 <= i < |httpMethod| && httpMethod[i] == '&';
      assert m[i] == '&';
    }
  }

  /** The base string has exactly two "&" of its own. */
  lemma BaseStringAmpersands(httpMethod: string, url: string, params: map<string, string>)
    ensures Count(BaseString(httpMethod, url, params), '&') == Count(httpMethod, '&') + 2
  {
    EncodedChars(url);
    EncodedChars(ParamStringOf(params));
    BaseStringCount(Upper(httpMethod), Encoded(url), Encoded(ParamStringOf(params)));
    UpperCount(httpMethod, '&');
  }

  /** For a method without "&" the base string splits into its three
      parts. */
  lemma BaseStringParts(httpMethod: string, url: string, params: map<string, string>)
    requires '&' !in httpMethod
    ensures Split(BaseString(httpMethod, url, params), '&')
            == [Upper(httpMethod), Encoded(url), Encoded(ParamStringOf(params))]
  {
    EncodedChars(url);
    EncodedChars(ParamStringOf(params));
    UpperAmpersand(httpMethod);
    SplitThree(Upper(httpMethod), Encoded(url), Encoded(ParamStringOf(params)), '&');
  }

  lemma BaseStringCount(m: string, u: string, ps: string)
    requires '&' !in u && '&' !in ps
    ensures Count(m + "&" + u + "&" + ps, '&') == Count(m, '&') + 2
  {
    assert multiset(m + "&" + u + "&" + ps) == multiset(m) + multiset("&") + multiset(u) + multiset("&") + multiset(ps);
  }

  /** The HMAC key: the encoded secrets with one "&" between them. */
  function SigningKey(appSecret: string, userSecret: Option<string>): (k: string)
    ensures IsAscii(k)
  {
    EncodedChars(appSecret);
    EncodedChars(if userSecret.Some? then userSecret.value else "");
    Encoded(appSecret) + "&" + (if userSecret.Some? then Encoded(userSecret.value) else "")
  }

  /** The key holds exactly one "&", present even when the user secret is
      absent or both secrets are empty, and splits there into the encoded
      secrets. */
  lemma SigningKeyParts(appSecret: string, userSecret: Option<string>)
    ensures Count(SigningKey(appSecret, userSecret), '&') == 1
    ensures Split(SigningKey(appSecret, userSecret), '&')
            == [Encoded(appSecret), if userSecret.Some? then Encoded(userSecret.value) else ""]
  {
    var a, u := Encoded(appSecret), if userSecret.Some? then Encoded(userSecret.value) else "";
    EncodedChars(appSecret);
    EncodedChars(if userSecret.Some? then userSecret.value else "");
    SplitKeyValue(a, u, '&');
    CountSplit(a + "&" + u, '&');
  }

  /** Where Python raises: `bytes(base, 'ascii')` fails on a non-ASCII
      method. */
  datatype SignError = BaseStringNotAscii

  /** The signature: base64 of the HMAC-SHA1 of the base string under the
      key; an error exactly when the method is not ASCII. */
  function Signature(prims: Crypto.Primitives, url: string, httpMethod: string, allParams: map<string, string>,
                     appSecret: string, userSecret: Option<string>): (r: Result<string, SignError>)
    ensures r.Err? <==> !IsAscii(httpMethod)
  {
    var base := BaseString(httpMethod, url, allParams);
    var key := SigningKey(appSecret, userSecret);
    BaseStringAscii(httpMethod, url, allParams);
    if IsAscii(base) then Ok(prims.b64encode(prims.hmacSha1(AsciiBytes(key), AsciiBytes(base))))
    else Err(BaseStringNotAscii)
  }

  /** `_hmac_sign`: builds the base string, then the key with `+=`. */
  method HmacSign(prims: Crypto.Primitives, url: string, httpMethod: string, allParams: map<string, string>,
                  appSecret: string, userSecret: Option<string>) returns (r: Result<string, SignError>)
    ensures r == Signature(prims, url, httpMethod, allParams, appSecret, userSecret)
  {
    var encUrl := PercentEncode(url);
    var paramStr := ParamString(allParams);
    var encParams := PercentEncode(paramStr);
    var base := Upper(httpMethod) + "&" + encUrl + "&" + encParams;
    var signingKey := PercentEncode(appSecret);
    signingKey := signingKey + "&";
    if userSecret.Some? {
      var encUser := PercentEncode(userSecret.value);
      signingKey := signingKey + encUser;
    }
    assert signingKey == SigningKey(appSecret, userSecret);
    assert base == BaseString(httpMethod, url, allParams);
    if !IsAscii(base) {
      return Err(BaseStringNotAscii);
    }
    r := Ok(prims.b64encode(prims.hmacSha1(AsciiBytes(signingKey), AsciiBytes(base))));
  }

  // ---------------------------------------------------------------------
  // Nonce, timestamp and the common parameters (_common_oauth_params)

  const NonceStrip: set<char> := {'+', '/', '='}

  /** The nonce: the base64 text of the random bytes with "+", "/" and "="
      stripped from both ends; the characters in between are kept. */
  function Nonce(prims: Crypto.Primitives, random: seq<Utf8.byte>): string
  {
    Strip(prims.b64encode(random), NonceStrip)
  }

  /** Neither end of the nonce is "+", "/" or "=", and it is a slice of the
      base64 text with only such characters cut from the ends. */
  lemma NonceShape(prims: Crypto.Primitives, random: seq<Utf8.byte>)
    ensures var r := Nonce(prims, random);
      r == [] || (r[0] !in NonceStrip && r[|r| - 1] !in NonceStrip)
    ensures exists i, j :: IsStrippedSlice(prims.b64encode(random), NonceStrip, i, j)
                           && Nonce(prims, random) == prims.b64encode(random)[i..j]
  {
    StripSlice(prims.b64encode(random), NonceStrip);
  }

  /** `int(x)` for the float `x = seconds + micros / 10**6`: truncation
      toward zero. */
  function TruncatedSeconds(seconds: int, micros: int): (r: int)
    requires 0 <= micros < 1000000
    ensures var x := seconds * 1000000 + micros;
            if x >= 0 then r * 1000000 <= x < (r + 1) * 1000000
            else (r - 1) * 1000000 < x <= r * 1000000
  {
    if seconds < 0 && micros > 0 then seconds + 1 else seconds
  }

  /** `str(int(datetime.utcnow().timestamp()))` as written: `utcnow()` is a
      naive datetime holding UTC wall-clock time, and `timestamp()` reads a
      naive datetime as local time, so the host's UTC offset (local time
      minus UTC, in seconds) is subtracted. */
  function TimestampAsWritten(now: Calendar.Instant, utcOffset: int): string
  {
    IntToString(TruncatedSeconds(now.seconds - utcOffset, now.micros))
  }

  /** The timestamp of section 3.3 of RFC 5849: whole seconds since
      1970-01-01T00:00:00Z. */
  function Timestamp(now: Calendar.Instant): (r: string)
    ensures now.seconds >= 0 ==> ParseInt(r) == Some(now.seconds)
  {
    IntToStringRoundTrip(TruncatedSeconds(now.seconds, now.micros));
    IntToString(TruncatedSeconds(now.seconds, now.micros))
  }

  /** On a host whose clock is not at UTC the written timestamp is off by the
      offset: any nonzero offset changes it. */
  lemma TimestampSkew(now: Calendar.Instant, utcOffset: int)
    requires utcOffset != 0 && now.seconds >= 0 && now.seconds - utcOffset >= 0
    ensures ParseInt(TimestampAsWritten(now, utcOffset)) == Some(now.seconds - utcOffset)
    ensures TimestampAsWritten(now, utcOffset) != Timestamp(now)
  {
    IntToStringRoundTrip(now.seconds - utcOffset);
    IntToStringRoundTrip(now.seconds);
  }

  /** The instant 1672531200 (2023-01-01T00:00:00Z) on a host at UTC+1: the
      written timestamp is an hour early. */
  lemma TimestampSkewExample()
    ensures ParseInt(TimestampAsWritten(Calendar.Moment(1672531200, 0), 3600)) == Some(1672527600)
    ensures ParseInt(Timestamp(Calendar.Moment(1672531200, 0))) == Some(1672531200)
  {
    TimestampSkew(Calendar.Moment(1672531200, 0), 3600);
  }

  /** At UTC the written form agrees with the intended one. */
  lemma TimestampAtUtc(now: Calendar.Instant)
    ensures TimestampAsWritten(now, 0) == Timestamp(now)
  {
  }

  const CommonKeys: set<string> :=
    {"oauth_consumer_key", "oauth_nonce", "oauth_signature_method", "oauth_timestamp", "oauth_version"}

  /** The five protocol parameters of every signed request. The source draws
      32 random bytes for the nonce. */
  function CommonParams(prims: Crypto.Primitives, appKey: string, random: seq<Utf8.byte>,
                        now: Calendar.Instant): (r: map<string, string>)
    requires |random| == 32
    ensures r.Keys == CommonKeys
    ensures r["oauth_consumer_key"] == appKey && r["oauth_nonce"] == Nonce(prims, random)
    ensures r["oauth_signature_method"] == "HMAC-SHA1" && r["oauth_version"] == "1.0"
    ensures now.seconds >= 0 ==> ParseInt(r["oauth_timestamp"]) == Some(now.seconds)
  {
    ProtocolParams(appKey, Nonce(prims, random), Timestamp(now))
  }

  function ProtocolParams(appKey: string, nonce: string, timestamp: string): (r: map<string, string>)
    ensures r.Keys == CommonKeys
    ensures r["oauth_consumer_key"] == appKey && r["oauth_nonce"] == nonce
    ensures r["oauth_signature_method"] == "HMAC-SHA1" && r["oauth_version"] == "1.0"
    ensures r["oauth_timestamp"] == timestamp
  {
    map[
      "oauth_consumer_key" := appKey,
      "oauth_nonce" := nonce,
      "oauth_signature_method" := "HMAC-SHA1",
      "oauth_timestamp" := timestamp,
      "oauth_version" := "1.0"
    ]
  }

  // ---------------------------------------------------------------------
  // Signing (OAuth1App.sign, OAuth1.sign, OAuth1.get_headers, OAuth1.refresh)

  datatype OAuth1App = OAuth1App(key: string, secret: string)
  datatype OAuth1User = OAuth1User(key: string, secret: string)
  /** The credentials of an app acting for a user. */
  datatype OAuth1 = OAuth1(app: OAuth1App, user: OAuth1User)

  /** The step both `sign` methods share: the signature covers the caller's
      parameters overridden by the protocol ones, and the result holds the
      protocol parameters and the signature and nothing of the caller's. */
  function SignWith(prims: Crypto.Primitives, url: string, httpMethod: string, params: map<string, string>,
                    signing: map<string, string>, appSecret: string, userSecret: Option<string>)
    : (r: Result<map<string, string>, SignError>)
    ensures r.Err? <==> !IsAscii(httpMethod)
    ensures r.Ok? ==> "oauth_signature" in r.value && r.value["oauth_signature"]
                      == Signature(prims, url, httpMethod, params + signing, appSecret, userSecret).value
    ensures r.Ok? && "oauth_signature" !in signing ==> r.value - {"oauth_signature"} == signing
  {
    var sig := Signature(prims, url, httpMethod, params + signing, appSecret, userSecret);
    if sig.Err? then Err(sig.error)
    else
      UpdateRemoved(signing, "oauth_signature", sig.value);
      Ok(signing["oauth_signature" := sig.value])
  }

  /** Adding a fresh key and then removing it gives the map back. */
  lemma UpdateRemoved(m: map<string, string>, k: string, v: string)
    ensures k !in m ==> m[k := v] - {k} == m
  {
  }

  /** `OAuth1App.sign`: signing as the app alone, with the five common
      parameters and the app secret. */
  function AppSign(app: OAuth1App, prims: Crypto.Primitives, url: string, httpMethod: string,
                   params: map<string, string>, random: seq<Utf8.byte>, now: Calendar.Instant)
    : (r: Result<map<string, string>, SignError>)
    requires |random| == 32
    ensures r.Err? <==> !IsAscii(httpMethod)
    ensures r.Ok? ==> "oauth_signature" in r.value && r.value["oauth_signature"]
                      == Signature(prims, url, httpMethod, params + CommonParams(prims, app.key, random, now), app.secret, None).value
    ensures r.Ok? ==> r.value - {"oauth_signature"} == CommonParams(prims, app.key, random, now)
  {
    SignatureKeyFresh();
    SignWith(prims, url, httpMethod, params, CommonParams(prims, app.key, random, now), app.secret, None)
  }

  const TokenKeys: set<string> := CommonKeys + {"oauth_token"}

  /** The signature is added under a key of its own. */
  lemma SignatureKeyFresh()
    ensures "oauth_signature" !in TokenKeys && "oauth_signature" !in CommonKeys
  {
  }

  /** The protocol parameters of a request made for a user: the common ones
      and the user's token. */
  function TokenParams(auth: OAuth1, prims: Crypto.Primitives, random: seq<Utf8.byte>,
                       now: Calendar.Instant): (r: map<string, string>)
    requires |random| == 32
    ensures r.Keys == TokenKeys && r["oauth_token"] == auth.user.key
    ensures r - {"oauth_token"} == CommonParams(prims, auth.app.key, random, now)
  {
    assert "oauth_token" !in CommonKeys;
    CommonParams(prims, auth.app.key, random, now)["oauth_token" := auth.user.key]
  }

  /** `OAuth1.sign`: as `AppSign`, with the user's token among the
      parameters and the user's secret in the key. */
  function Sign(auth: OAuth1, prims: Crypto.Primitives, url: string, httpMethod: string,
                params: map<string, string>, random: seq<Utf8.byte>, now: Calendar.Instant)
    : (r: Result<map<string, string>, SignError>)
    requires |random| == 32
    ensures r.Err? <==> !IsAscii(httpMethod)
    ensures r.Ok? ==> "oauth_signature" in r.value && r.value["oauth_signature"]
                      == Signature(prims, url, httpMethod, params + TokenParams(auth, prims, random, now),
                                   auth.app.secret, Some(auth.user.secret)).value
    ensures r.Ok? ==> r.value - {"oauth_signature"} == TokenParams(auth, prims, random, now)
    ensures r.Ok? ==> r.value.Keys == TokenKeys + {"oauth_signature"}
  {
    SignatureKeyFresh();
    SignWith(prims, url, httpMethod, params, TokenParams(auth, prims, random, now), auth.app.secret, Some(auth.user.secret))
  }

  /** The keys of a signed request, in ascending order. */
  const HeaderKeys: seq<string> := [
    "oauth_consumer_key", "oauth_nonce", "oauth_signature", "oauth_signature_method",
    "oauth_timestamp", "oauth_token", "oauth_version"
  ]

  /** The keys of `HeaderKeys`, pair by pair: each pair shares a prefix and
      then differs in one character, or the first is a prefix of the
      second. */
  lemma HeaderKeyPairs()
    ensures Order.Less("oauth_consumer_key", "oauth_nonce")
    ensures Order.Less("oauth_nonce", "oauth_signature")
    ensures Order.Less("oauth_signature", "oauth_signature_method")
    ensures Order.Less("oauth_signature_method", "oauth_timestamp")
    ensures Order.Less("oauth_timestamp", "oauth_token")
    ensures Order.Less("oauth_token", "oauth_version")
  {
    ConsumerKeyBeforeNonce();
    NonceBeforeSignature();
    SignatureBeforeMethod();
    MethodBeforeTimestamp();
    TimestampBeforeToken();
    TokenBeforeVersion();
  }

  lemma ConsumerKeyBeforeNonce()
    ensures Order.Less("oauth_consumer_key", "oauth_nonce")
  {
    Order.LessAt("oauth_consumer_key", "oauth_nonce", 6);
  }

  lemma NonceBeforeSignature()
    ensures Order.Less("oauth_nonce", "oauth_signature")
  {
    Order.LessAt("oauth_nonce", "oauth_signature", 6);
  }

  lemma SignatureBeforeMethod()
    ensures Order.Less("oauth_signature", "oauth_signature_method")
  {
    Order.LessPrefix("oauth_signature", "oauth_signature_method");
  }

  lemma MethodBeforeTimestamp()
    ensures Order.Less("oauth_signature_method", "oauth_timestamp")
  {
    Order.LessAt("oauth_signature_method", "oauth_timestamp", 6);
  }

  lemma TimestampBeforeToken()
    ensures Order.Less("oauth_timestamp", "oauth_token")
  {
    Order.LessAt("oauth_timestamp", "oauth_token", 7);
  }

  lemma TokenBeforeVersion()
    ensures Order.Less("oauth_token", "oauth_version")
  {
    Order.LessAt("oauth_token", "oauth_version", 6);
  }

  lemma NeighboursOf(h: seq<string>)
    requires |h| == 7 && h[0] == "oauth_consumer_key" && h[1] == "oauth_nonce" && h[2] == "oauth_signature"
    requires h[3] == "oauth_signature_method" && h[4] == "oauth_timestamp" && h[5] == "oauth_token"
    requires h[6] == "oauth_version"
    ensures forall i :: 0 <= i < |h| - 1 ==> Order.Less(h[i], h[i + 1])
  {
    HeaderKeyPairs();
    assert Order.Less(h[0], h[1]);
    assert Order.Less(h[1], h[2]);
    assert Order.Less(h[2], h[3]);
    assert Order.Less(h[3], h[4]);
    assert Order.Less(h[4], h[5]);
    assert Order.Less(h[5], h[6]);
  }

  lemma HeaderKeysNeighbours()
    ensures forall i :: 0 <= i < |HeaderKeys| - 1 ==> Order.Less(HeaderKeys[i], HeaderKeys[i + 1])
  {
    NeighboursOf(HeaderKeys);
  }

  lemma HeaderKeysElements()
    ensures forall x :: x in HeaderKeys <==> x in TokenKeys + {"oauth_signature"}
  {
  }

  /** The listing of a user-signed request's keys, in ascending order. */
  lemma HeaderKeysSorted()
    ensures Order.SortedList(TokenKeys + {"oauth_signature"}) == HeaderKeys
  {
    HeaderKeysNeighbours();
    Order.SortedFromNeighbours(HeaderKeys);
    HeaderKeysElements();
    Order.SortedUnique(Order.SortedList(TokenKeys + {"oauth_signature"}), HeaderKeys);
  }

  lemma HeaderKeysUnreserved()
    ensures forall i :: 0 <= i < |HeaderKeys| ==> Encoded(HeaderKeys[i]) == HeaderKeys[i]
  {
    forall i | 0 <= i < |HeaderKeys| ensures Encoded(HeaderKeys[i]) == HeaderKeys[i] {
      SnakeUnreserved(HeaderKeys[i]);
    }
  }

  /** A key of lower-case letters and underscores encodes as itself. */
  lemma SnakeUnreserved(k: string)
    requires k in HeaderKeys
    ensures Encoded(k) == k
  {
    assert forall j :: 0 <= j < |k| ==> ('a' <= k[j] <= 'z' || k[j] == '_');
    EncodedUnreserved(k);
  }

  /** One `k="v"` item of the header. */
  function HeaderItem(k: string, v: string): string
  {
    Encoded(k) + "=\"" + Encoded(v) + "\""
  }

  /** The items of the listed keys of a signed map. */
  function HeaderItems(signed: map<string, string>, keys: seq<string>): (items: seq<string>)
    requires forall i :: 0 <= i < |keys| ==> keys[i] in signed
    ensures |items| == |keys|
  {
    seq(|keys|, i requires 0 <= i < |keys| => HeaderItem(keys[i], signed[keys[i]]))
  }

  /** The header value of a signed map: "OAuth " and the items sorted by
      key, joined with ", ". */
  function HeaderValue(signed: map<string, string>): string
  {
    var keys := Order.SortedList(signed.Keys);
    assert forall i :: 0 <= i < |keys| ==> keys[i] in keys;
    "OAuth " + Join(HeaderItems(signed, keys), ", ")
  }

  /** The header value that lists the keys `h` of a signed map in the
      order given, each as `k="v"` with the value encoded. */
  function ListedHeader(signed: map<string, string>, h: seq<string>): string
    requires forall i :: 0 <= i < |h| ==> h[i] in signed
  {
    "OAuth " + Join(seq(|h|, i requires 0 <= i < |h| => h[i] + "=\"" + Encoded(signed[h[i]]) + "\""), ", ")
  }

  /** When the keys of a map are listed in `h` and are written as they are,
      the items come in the order of `h`. */
  lemma HeaderValueOrder(signed: map<string, string>, h: seq<string>)
    requires Order.SortedList(signed.Keys) == h
    requires forall i :: 0 <= i < |h| ==> Encoded(h[i]) == h[i]
    ensures forall i :: 0 <= i < |h| ==> h[i] in signed
    ensures HeaderValue(signed) == ListedHeader(signed, h)
  {
    forall i | 0 <= i < |h| ensures h[i] in signed {
      assert h[i] in Order.SortedList(signed.Keys);
    }
    var items := HeaderItems(signed, h);
    var want := seq(|h|, i requires 0 <= i < |h| => h[i] + "=\"" + Encoded(signed[h[i]]) + "\"");
    forall i | 0 <= i < |h| ensures items[i] == want[i] {
      assert Encoded(h[i]) == h[i];
    }
    assert items == want;
  }

  /** For the keys of a user-signed request the items come in the order of
      `HeaderKeys`. */
  lemma HeaderValueOfSigned(signed: map<string, string>)
    requires signed.Keys == TokenKeys + {"oauth_signature"}
    ensures forall i :: 0 <= i < |HeaderKeys| ==> HeaderKeys[i] in signed
    ensures HeaderValue(signed) == ListedHeader(signed, HeaderKeys)
  {
    HeaderKeysSorted();
    HeaderKeysUnreserved();
    HeaderValueOrder(signed, HeaderKeys);
  }

  /** `get_headers`: a single `Authorization` entry holding "OAuth " and the
      seven signed parameters in ascending key order, each as `k="v"` with
      the value encoded. */
  function GetHeaders(auth: OAuth1, prims: Crypto.Primitives, url: string, httpMethod: string,
                      params: map<string, string>, random: seq<Utf8.byte>, now: Calendar.Instant)
    : (r: Result<map<string, string>, SignError>)
    requires |random| == 32
    ensures r.Err? <==> !IsAscii(httpMethod)
    ensures r.Ok? ==>
              var signed := Sign(auth, prims, url, httpMethod, params, random, now).value;
              && (forall i :: 0 <= i < |HeaderKeys| ==> HeaderKeys[i] in signed)
              && r.value == map["Authorization" := ListedHeader(signed, HeaderKeys)]
  {
    var signed := Sign(auth, prims, url, httpMethod, params, random, now);
    if signed.Err? then Err(signed.error)
    else
      HeaderValueOfSigned(signed.value);
      Ok(map["Authorization" := HeaderValue(signed.value)])
  }

  /** Where Python raises NotImplementedError. */
  datatype AuthError = NotImplemented

  /** `OAuth1.refresh`: OAuth 1.0a tokens do not expire, and refreshing is
      refused. */
  function Refresh(auth: OAuth1): (r: Result<OAuth1, AuthError>)
    ensures r == Err(NotImplemented)
  {
    Err(NotImplemented)
  }
}
