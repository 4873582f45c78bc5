/**
 * `urllib.parse.quote_plus` and `urllib.parse.urlencode` on an ordered list
 * of pairs, with a query-string parser that inverts `urlencode`.
 */
module UrlLib {
  import opened Wrappers
  import opened Text
  import Utf8
  import Percent

  /** `quote_plus(s)`: UTF-8 bytes, percent-encoded, a space written as "+". */
  function QuotePlus(s: string): (r: string)
    ensures '&' !in r && '=' !in r && ' ' !in r
  {
    var r := Percent.EncodeString(s, true);
    assert forall i :: 0 <= i < |r| ==> Percent.IsUnitChar(r[i], true);
    r
  }

  function Field(k: string, v: string): string
  {
    QuotePlus(k) + "=" + QuotePlus(v)
  }

  /** The `k=v` fields of the pairs, in order. */
  function Fields(pairs: seq<(string, string)>): (fs: seq<string>)
    ensures |fs| == |pairs|
    ensures forall i :: 0 <= i < |pairs| ==> fs[i] == Field(pairs[i].0, pairs[i].1)
  {
    seq(|pairs|, i requires 0 <= i < |pairs| => Field(pairs[i].0, pairs[i].1))
  }

  /** `urlencode(pairs)`: the pairs in the given order. */
  function UrlEncode(pairs: seq<(string, string)>): (r: string)
  {
    Join(Fields(pairs), "&")
  }

  /** The value of the first pair with key `k`. */
  function Lookup(pairs: seq<(string, string)>, k: string): Option<string>
  {
    if pairs == [] then None
    else if pairs[0].0 == k then Some(pairs[0].1)
    else Lookup(pairs[1..], k)
  }

  /** The first pair with key `k` is the one `Lookup` finds. */
  lemma {:induction false} LookupAt(pairs: seq<(string, string)>, i: nat, k: string)
    requires i < |pairs| && pairs[i].0 == k
    requires forall j :: 0 <= j < i ==> pairs[j].0 != k
    ensures Lookup(pairs, k) == Some(pairs[i].1)
    decreases i
  {
    if i > 0 {
      assert pairs[0].0 != k;
      LookupAt(pairs[1..], i - 1, k);
    }
  }

  /** One `k=v` field of a query string, decoded. */
  function ParseField(f: string): Option<(string, string)>
  {
    var kv := Split(f, '=');
    if |kv| != 2 then None
    else match (Percent.DecodeUnits(kv[0], true), Percent.DecodeUnits(kv[1], true))
      case (Some(kb), Some(vb)) =>
        (match (Utf8.Decode(kb), Utf8.Decode(vb))
         case (Some(k), Some(v)) => Some((k, v))
         case _ => None)
      case _ => None
  }

  function ParseFields(fs: seq<string>): Option<seq<(string, string)>>
  {
    if fs == [] then Some([])
    else match (ParseField(fs[0]), ParseFields(fs[1..]))
      case (Some(p), Some(rest)) => Some([p] + rest)
      case _ => None
  }

  /** A strict `parse_qsl`: every field must be `k=v` in the encoding above. */
  function ParseQuery(s: string): Option<seq<(string, string)>>
  {
    if s == "" then Some([]) else ParseFields(Split(s, '&'))
  }

  lemma DecodeQuotePlus(s: string)
    ensures Percent.DecodeUnits(QuotePlus(s), true) == Some(Utf8.Encode(s))
    ensures Utf8.Decode(Utf8.Encode(s)) == Some(s)
  {
    Percent.DecodeEncodeString(s, true);
  }

  lemma ParseOneField(k: string, v: string)
    ensures ParseField(Field(k, v)) == Some((k, v))
  {
    SplitKeyValue(QuotePlus(k), QuotePlus(v), '=');
    DecodeQuotePlus(k);
    DecodeQuotePlus(v);
  }

  lemma {:induction false} ParseAllFields(pairs: seq<(string, string)>)
    ensures ParseFields(Fields(pairs)) == Some(pairs)
    decreases |pairs|
  {
    if pairs != [] {
      var fs := Fields(pairs);
      assert fs[0] == Field(pairs[0].0, pairs[0].1);
      assert fs[1..] == Fields(pairs[1..]);
      ParseOneField(pairs[0].0, pairs[0].1);
      ParseAllFields(pairs[1..]);
      assert ParseFields(fs) == Some([pairs[0]] + pairs[1..]);
      assert pairs == [pairs[0]] + pairs[1..];
    }
  }

  /** Parsing an encoded query gives back the pairs, in order. */
  lemma ParseUrlEncode(pairs: seq<(string, string)>)
    ensures ParseQuery(UrlEncode(pairs)) == Some(pairs)
  {
    var fs := Fields(pairs);
    ParseAllFields(pairs);
    if pairs != [] {
      forall i | 0 <= i < |fs| ensures '&' !in fs[i] {
        SeparatorFree(QuotePlus(pairs[i].0), QuotePlus(pairs[i].1), '=', '&');
      }
      SplitJoin(fs, '&');
      assert '=' in fs[0] by {
        assert fs[0][|QuotePlus(pairs[0].0)|] == '=';
      }
      JoinNonEmpty(fs, "&");
    }
  }
}
