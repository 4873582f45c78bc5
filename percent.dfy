/**
 * Byte-wise percent-encoding over the unreserved set ALPHA / DIGIT / "-" /
 * "." / "_" / "~" (section 2.3 of RFC 3986, which section 3.6 of RFC 5849
 * adopts). Every byte becomes one unit: the unreserved character itself or
 * "%" and two upper-case hexadecimal digits. The `spaceAsPlus` variant is
 * the form-encoding of Python's `urllib.parse.quote_plus`, which writes a
 * space as "+".
 */
module Percent {
  import opened Wrappers
  import opened Utf8

  predicate IsUnreservedByte(b: int)
  {
    || (0x61 <= b <= 0x7A)  // a-z
    || (0x41 <= b <= 0x5A)  // A-Z
    || (0x30 <= b <= 0x39)  // 0-9
    || b == 0x2D || b == 0x2E || b == 0x5F || b == 0x7E  // - . _ ~
  }

  predicate IsUnreservedChar(c: char)
  {
    IsUnreservedByte(c as int)
  }

  const HexDigits: string := "0123456789ABCDEF"

  predicate IsUpperHex(c: char)
  {
    ('0' <= c <= '9') || ('A' <= c <= 'F')
  }

  function HexValue(c: char): (v: nat)
    requires IsUpperHex(c)
    ensures v < 16 && HexDigits[v] == c
  {
    if c <= '9' then c as int - '0' as int else c as int - 'A' as int + 10
  }

  lemma HexDigitsAreHex(v: nat)
    requires v < 16
    ensures IsUpperHex(HexDigits[v]) && HexValue(HexDigits[v]) == v
  {
  }

  /** A character that an encoded string may contain. */
  predicate IsUnitChar(c: char, spaceAsPlus: bool)
  {
    IsUnreservedChar(c) || c == '%' || (spaceAsPlus && c == '+')
  }

  /** The output for one byte. */
  function Unit(b: byte, spaceAsPlus: bool): (u: string)
    ensures |u| == 1 || |u| == 3
    ensures forall i :: 0 <= i < |u| ==> IsUnitChar(u[i], spaceAsPlus)
  {
    if IsUnreservedByte(b) then [b as char]
    else if spaceAsPlus && b == 0x20 then "+"
    else ['%', HexDigits[b / 16], HexDigits[b % 16]]
  }

  /** The encoding of a byte string: the units of its bytes, in order. */
  function EncodeBytes(bs: seq<byte>, spaceAsPlus: bool): (s: string)
    ensures |s| >= |bs|
    ensures forall i :: 0 <= i < |s| ==> IsUnitChar(s[i], spaceAsPlus)
  {
    if bs == [] then "" else Unit(bs[0], spaceAsPlus) + EncodeBytes(bs[1..], spaceAsPlus)
  }

  lemma {:induction false} EncodeBytesAppend(a: seq<byte>, b: seq<byte>, spaceAsPlus: bool)
    ensures EncodeBytes(a + b, spaceAsPlus) == EncodeBytes(a, spaceAsPlus) + EncodeBytes(b, spaceAsPlus)
    decreases |a|
  {
    if a == [] {
      assert a + b == b;
    } else {
      assert (a + b)[1..] == a[1..] + b;
      EncodeBytesAppend(a[1..], b, spaceAsPlus);
    }
  }

  /** Encoding one more byte appends its unit. */
  lemma EncodeBytesSnoc(bs: seq<byte>, b: byte, spaceAsPlus: bool)
    ensures EncodeBytes(bs + [b], spaceAsPlus) == EncodeBytes(bs, spaceAsPlus) + Unit(b, spaceAsPlus)
  {
    EncodeBytesAppend(bs, [b], spaceAsPlus);
    assert EncodeBytes([b], spaceAsPlus) == Unit(b, spaceAsPlus) + EncodeBytes([], spaceAsPlus);
  }

  /** Percent-decoding: the inverse of `EncodeBytes`, defined on any string. */
  function DecodeUnits(s: string, spaceAsPlus: bool): Option<seq<byte>>
    decreases |s|
  {
    if s == [] then Some([])
    else
      var head: Option<(byte, nat)> :=
        if IsUnreservedChar(s[0]) then Some((s[0] as int, 1))
        else if spaceAsPlus && s[0] == '+' then Some((0x20, 1))
        else if |s| >= 3 && s[0] == '%' && IsUpperHex(s[1]) && IsUpperHex(s[2]) then
          Some((HexValue(s[1]) * 16 + HexValue(s[2]), 3))
        else None;
      match head
      case None => None
      case Some((b, k)) =>
        match DecodeUnits(s[k..], spaceAsPlus)
        case None => None
        case Some(rest) => Some([b] + rest)
  }

  /** Decoding consumes the unit of one byte and yields that byte. */
  lemma DecodeUnit(b: byte, tail: string, rest: seq<byte>, spaceAsPlus: bool)
    requires DecodeUnits(tail, spaceAsPlus) == Some(rest)
    ensures DecodeUnits(Unit(b, spaceAsPlus) + tail, spaceAsPlus) == Some([b] + rest)
  {
    var s := Unit(b, spaceAsPlus) + tail;
    if IsUnreservedByte(b) {
      assert s[0] == b as char;
      assert s[1..] == tail;
    } else if spaceAsPlus && b == 0x20 {
      assert s[0] == '+' && !IsUnreservedChar('+');
      assert s[1..] == tail;
    } else {
      DecodeEscape(b, tail, spaceAsPlus);
    }
  }

  lemma DecodeEscape(b: byte, tail: string, spaceAsPlus: bool)
    requires !IsUnreservedByte(b) && !(spaceAsPlus && b == 0x20)
    ensures var s := Unit(b, spaceAsPlus) + tail;
      && |s| >= 3 && s[0] == '%' && IsUpperHex(s[1]) && IsUpperHex(s[2])
      && HexValue(s[1]) * 16 + HexValue(s[2]) == b && s[3..] == tail
  {
    var s := Unit(b, spaceAsPlus) + tail;
    HexDigitsAreHex(b / 16);
    HexDigitsAreHex(b % 16);
    assert s[0] == '%' && s[1] == HexDigits[b / 16] && s[2] == HexDigits[b % 16];
    assert s[3..] == tail;
  }

  /** Percent-decoding an encoding recovers the bytes: each byte yields
      exactly one unit, so the encoding is injective. */
  lemma {:induction false} DecodeEncodeBytes(bs: seq<byte>, spaceAsPlus: bool)
    ensures DecodeUnits(EncodeBytes(bs, spaceAsPlus), spaceAsPlus) == Some(bs)
    decreases |bs|
  {
    if bs != [] {
      DecodeEncodeBytes(bs[1..], spaceAsPlus);
      DecodeUnit(bs[0], EncodeBytes(bs[1..], spaceAsPlus), bs[1..], spaceAsPlus);
      assert bs == [bs[0]] + bs[1..];
    }
  }

  lemma EncodeBytesInjective(a: seq<byte>, b: seq<byte>, spaceAsPlus: bool)
    requires EncodeBytes(a, spaceAsPlus) == EncodeBytes(b, spaceAsPlus)
    ensures a == b
  {
    DecodeEncodeBytes(a, spaceAsPlus);
    DecodeEncodeBytes(b, spaceAsPlus);
  }

  /** The encoding of a string: its UTF-8 bytes, encoded. */
  function EncodeString(s: string, spaceAsPlus: bool): (r: string)
    ensures forall i :: 0 <= i < |r| ==> IsUnitChar(r[i], spaceAsPlus)
  {
    EncodeBytes(Utf8.Encode(s), spaceAsPlus)
  }

  lemma EncodeStringAppend(s: string, t: string, spaceAsPlus: bool)
    ensures EncodeString(s + t, spaceAsPlus) == EncodeString(s, spaceAsPlus) + EncodeString(t, spaceAsPlus)
  {
    Utf8.EncodeAppend(s, t);
    EncodeBytesAppend(Utf8.Encode(s), Utf8.Encode(t), spaceAsPlus);
  }

  /** Decoding the units and then the UTF-8 recovers the string. */
  lemma DecodeEncodeString(s: string, spaceAsPlus: bool)
    ensures DecodeUnits(EncodeString(s, spaceAsPlus), spaceAsPlus) == Some(Utf8.Encode(s))
    ensures Utf8.Decode(Utf8.Encode(s)) == Some(s)
  {
    DecodeEncodeBytes(Utf8.Encode(s), spaceAsPlus);
    Utf8.DecodeEncode(s);
  }

  lemma EncodeStringInjective(s: string, t: string, spaceAsPlus: bool)
    requires EncodeString(s, spaceAsPlus) == EncodeString(t, spaceAsPlus)
    ensures s == t
  {
    EncodeBytesInjective(Utf8.Encode(s), Utf8.Encode(t), spaceAsPlus);
    Utf8.EncodeInjective(s, t);
  }

  /** A string of unreserved characters encodes to itself. */
  lemma {:induction false} EncodeUnreserved(s: string, spaceAsPlus: bool)
    requires forall i :: 0 <= i < |s| ==> IsUnreservedChar(s[i])
    ensures EncodeString(s, spaceAsPlus) == s
    decreases |s|
  {
    if s != [] {
      assert s == [s[0]] + s[1..];
      EncodeStringAppend([s[0]], s[1..], spaceAsPlus);
      EncodeUnreserved(s[1..], spaceAsPlus);
      assert Utf8.Encode([s[0]]) == [s[0] as int];
    }
  }

  /** An encoding is well formed when it splits into units. */
  predicate WellFormed(s: string, spaceAsPlus: bool)
    decreases |s|
  {
    || s == []
    || (IsUnreservedChar(s[0]) && WellFormed(s[1..], spaceAsPlus))
    || (spaceAsPlus && s[0] == '+' && WellFormed(s[1..], spaceAsPlus))
    || (|s| >= 3 && s[0] == '%' && IsUpperHex(s[1]) && IsUpperHex(s[2]) && WellFormed(s[3..], spaceAsPlus))
  }

  lemma {:induction false} EncodeBytesWellFormed(bs: seq<byte>, spaceAsPlus: bool)
    ensures WellFormed(EncodeBytes(bs, spaceAsPlus), spaceAsPlus)
    decreases |bs|
  {
    if bs != [] {
      var b := bs[0];
      var s := EncodeBytes(bs, spaceAsPlus);
      var tail := EncodeBytes(bs[1..], spaceAsPlus);
      EncodeBytesWellFormed(bs[1..], spaceAsPlus);
      assert s == Unit(b, spaceAsPlus) + tail;
      if IsUnreservedByte(b) {
        assert s[1..] == tail;
      } else if spaceAsPlus && b == 0x20 {
        assert s[1..] == tail;
      } else {
        HexDigitsAreHex(b / 16);
        HexDigitsAreHex(b % 16);
        assert s[3..] == tail;
      }
    }
  }
}
