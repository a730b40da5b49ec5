/** `encodeURIComponent` and `decodeURIComponent` (section 19.2.6 of
    ECMA-262): UTF-8 percent-escaping of every character outside the
    unreserved set, and its inverse, which throws `URIError` on a malformed
    escape or an ill-formed UTF-8 sequence. */
module Uri {
  import opened Base
  import Utf8

  /** Characters `encodeURIComponent` leaves as they are. */
  predicate Unreserved(c: char)
  {
    || 'A' <= c <= 'Z' || 'a' <= c <= 'z' || '0' <= c <= '9'
    || c == '-' || c == '_' || c == '.' || c == '!' || c == '~'
    || c == '*' || c == '\'' || c == '(' || c == ')'
  }

  const HexDigits: string := "0123456789ABCDEF"

  function HexValue(c: char): Option<int>
  {
    if '0' <= c <= '9' then Some(c as int - '0' as int)
    else if 'A' <= c <= 'F' then Some(c as int - 'A' as int + 10)
    else if 'a' <= c <= 'f' then Some(c as int - 'a' as int + 10)
    else None
  }

  /** `%XX` with upper-case hex digits. */
  function EscapeByte(b: byte): (r: string)
    ensures |r| == 3 && r[0] == '%'
  {
    var v := b as int;
    ['%', HexDigits[v / 16], HexDigits[v % 16]]
  }

  function EscapeBytes(bs: seq<byte>): (r: string)
    ensures |r| == 3 * |bs|
  {
    if |bs| == 0 then "" else EscapeByte(bs[0]) + EscapeBytes(bs[1..])
  }

  function EncodeURIComponent(s: string): string
  {
    if |s| == 0 then ""
    else (if Unreserved(s[0]) then [s[0]] else EscapeBytes(Utf8.EncodeChar(s[0])))
         + EncodeURIComponent(s[1..])
  }

  const Malformed: Error := Error(URIError, "URI malformed")

  /** The byte written as `%XX` at the head of `s`. */
  function EscapedByte(s: string): (r: Result<byte>)
    ensures r.Failure? ==> r.error == Malformed
  {
    if |s| < 3 || s[0] != '%' then Failure(Malformed)
    else match (HexValue(s[1]), HexValue(s[2]))
      case (Some(hi), Some(lo)) => Success(Utf8.B(hi * 16 + lo))
      case _ => Failure(Malformed)
  }

  /** `count` further escapes, each a UTF-8 continuation byte. */
  function ContinuationEscapes(s: string, count: nat): (r: Result<seq<byte>>)
    ensures r.Failure? ==> r.error == Malformed
    ensures r.Success? ==> |r.value| == count && 3 * count <= |s|
    ensures r.Success? ==> forall k :: 0 <= k < count ==> Utf8.IsCont(r.value[k])
  {
    if count == 0 then Success([])
    else
      var b :- EscapedByte(s);
      if !Utf8.IsCont(b) then Failure(Malformed)
      else
        var rest :- ContinuationEscapes(s[3..], count - 1);
        Success([b] + rest)
  }

  function DecodeURIComponent(s: string): (r: Result<string>)
    ensures r.Failure? ==> r.error == Malformed
    decreases |s|
  {
    if |s| == 0 then Success("")
    else if s[0] != '%' then
      var rest :- DecodeURIComponent(s[1..]);
      Success([s[0]] + rest)
    else
      var b :- EscapedByte(s);
      if (b as int) < 0x80 then
        var rest :- DecodeURIComponent(s[3..]);
        Success([b as int as char] + rest)
      else
        var need := Utf8.Needed(b);
        if need == 0 then Failure(Malformed)
        else
          var conts :- ContinuationEscapes(s[3..], need);
          var octets := [b] + conts;
          var (c, len) := Utf8.DecodeHead(octets);
          if c.None? || len != |octets| then Failure(Malformed)
          else
            var rest :- DecodeURIComponent(s[3 + 3 * need..]);
            Success([c.value] + rest)
  }

  lemma HexDigitValue(d: int)
    requires 0 <= d < 16
    ensures HexValue(HexDigits[d]) == Some(d)
  {
    if d < 4 {
      assert d == 0 || d == 1 || d == 2 || d == 3;
    } else if d < 8 {
      assert d == 4 || d == 5 || d == 6 || d == 7;
    } else if d < 12 {
      assert d == 8 || d == 9 || d == 10 || d == 11;
    } else {
      assert d == 12 || d == 13 || d == 14 || d == 15;
    }
  }

  lemma EscapedDigits(v: int, hi: int, lo: int, s: string)
    requires 0 <= v < 256 && hi == v / 16 && lo == v % 16
    requires |s| >= 3 && s[0] == '%' && s[1] == HexDigits[hi] && s[2] == HexDigits[lo]
    ensures EscapedByte(s) == Success(Utf8.B(v))
  {
    HexDigitValue(hi);
    HexDigitValue(lo);
    assert hi * 16 + lo == v;
  }

  /** The escape of a byte reads back as that byte. */
  lemma EscapedByteEscape(b: byte, rest: string)
    ensures EscapedByte(EscapeByte(b) + rest) == Success(b)
  {
    var v := b as int;
    var s := EscapeByte(b) + rest;
    EscapedDigits(v, v / 16, v % 16, s);
    SameValue(b, v);
  }

  lemma SameValue(b: byte, n: int)
    requires n == b as int
    ensures Utf8.B(n) == b
  {
    Utf8.SameByte(Utf8.B(n), b);
  }

  lemma {:induction false} ContinuationEscapesOf(bs: seq<byte>, rest: string)
    requires forall k :: 0 <= k < |bs| ==> Utf8.IsCont(bs[k])
    ensures ContinuationEscapes(EscapeBytes(bs) + rest, |bs|) == Success(bs)
  {
    if |bs| > 0 {
      var s := EscapeBytes(bs) + rest;
      assert s == EscapeByte(bs[0]) + (EscapeBytes(bs[1..]) + rest);
      EscapedByteEscape(bs[0], EscapeBytes(bs[1..]) + rest);
      assert s[3..] == EscapeBytes(bs[1..]) + rest;
      ContinuationEscapesOf(bs[1..], rest);
      assert [bs[0]] + bs[1..] == bs;
    }
  }

  /** The escaped encoding of one character decodes back to it. */
  lemma DecodeEscapedChar(c: char, rest: string)
    requires !Unreserved(c)
    ensures DecodeURIComponent(EscapeBytes(Utf8.EncodeChar(c)) + rest)
         == (match DecodeURIComponent(rest)
             case Success(r) => Success([c] + r)
             case Failure(e) => Failure(e))
  {
    var e := Utf8.EncodeChar(c);
    var s := EscapeBytes(e) + rest;
    assert s == EscapeByte(e[0]) + (EscapeBytes(e[1..]) + rest);
    EscapedByteEscape(e[0], EscapeBytes(e[1..]) + rest);
    Utf8.DecodeHeadEncodeChar(c, []);
    assert e + [] == e;
    if (e[0] as int) < 0x80 {
      assert |e| == 1;
      assert s[3..] == rest;
    } else {
      NeededOfHead(e);
      DecodeEscapedMulti(c, e, s, rest);
    }
  }

  lemma NeededOfHead(bs: seq<byte>)
    requires |bs| > 0 && (bs[0] as int) >= 0x80 && Utf8.DecodeHead(bs).0.Some?
    ensures Utf8.Needed(bs[0]) == Utf8.DecodeHead(bs).1 - 1
  {
  }

  /** One step of `DecodeURIComponent` over a multi-octet escape. */
  lemma DecodeMultiStep(s: string, b: byte, need: nat, conts: seq<byte>, c: char)
    requires |s| > 0 && s[0] == '%'
    requires EscapedByte(s) == Success(b) && (b as int) >= 0x80
    requires Utf8.Needed(b) == need && need != 0
    requires ContinuationEscapes(s[3..], need) == Success(conts)
    requires Utf8.DecodeHead([b] + conts) == (Some(c), 1 + need)
    ensures 3 + 3 * need <= |s|
    ensures DecodeURIComponent(s)
         == (match DecodeURIComponent(s[3 + 3 * need..])
             case Success(r) => Success([c] + r)
             case Failure(e) => Failure(e))
  {
  }

  lemma DecodeEscapedMulti(c: char, e: seq<byte>, s: string, rest: string)
    requires |e| >= 2 && (e[0] as int) >= 0x80 && Utf8.Needed(e[0]) == |e| - 1
    requires forall k :: 1 <= k < |e| ==> Utf8.IsCont(e[k])
    requires s == EscapeBytes(e) + rest
    requires EscapedByte(s) == Success(e[0])
    requires Utf8.DecodeHead(e) == (Some(c), |e|)
    ensures DecodeURIComponent(s)
         == (match DecodeURIComponent(rest)
             case Success(r) => Success([c] + r)
             case Failure(e) => Failure(e))
  {
    var need := |e| - 1;
    var conts := e[1..];
    assert s == EscapeByte(e[0]) + (EscapeBytes(conts) + rest);
    assert s[3..] == EscapeBytes(conts) + rest;
    ContinuationEscapesOf(conts, rest);
    assert [e[0]] + conts == e;
    DecodeMultiStep(s, e[0], need, conts, c);
    assert s[3 + 3 * need..] == rest;
  }

  /** Text without `%` decodes to itself. */
  lemma {:induction false} DecodeWithoutEscapes(s: string)
    requires '%' !in s
    ensures DecodeURIComponent(s) == Success(s)
    decreases |s|
  {
    if |s| > 0 {
      assert '%' !in s[1..];
      DecodeWithoutEscapes(s[1..]);
      assert [s[0]] + s[1..] == s;
    }
  }

  /** `decodeURIComponent(encodeURIComponent(s)) === s` for every string of
      Unicode scalar values. */
  lemma {:induction false} DecodeEncodeURIComponent(s: string)
    ensures DecodeURIComponent(EncodeURIComponent(s)) == Success(s)
  {
    if |s| > 0 {
      var tail := EncodeURIComponent(s[1..]);
      DecodeEncodeURIComponent(s[1..]);
      if Unreserved(s[0]) {
        assert EncodeURIComponent(s) == [s[0]] + tail;
        assert (([s[0]] + tail)[1..]) == tail;
      } else {
        DecodeEscapedChar(s[0], tail);
      }
      assert [s[0]] + s[1..] == s;
    }
  }

  /** The encoding uses only unreserved characters and `%` escapes. */
  lemma {:induction false} EncodeURIComponentAlphabet(s: string)
    ensures forall k :: 0 <= k < |EncodeURIComponent(s)| ==>
      Unreserved(EncodeURIComponent(s)[k]) || EncodeURIComponent(s)[k] == '%' || EncodeURIComponent(s)[k] in HexDigits
  {
    if |s| > 0 {
      EncodeURIComponentAlphabet(s[1..]);
      if !Unreserved(s[0]) {
        EscapeBytesAlphabet(Utf8.EncodeChar(s[0]));
      }
    }
  }

  lemma {:induction false} EscapeBytesAlphabet(bs: seq<byte>)
    ensures forall k :: 0 <= k < |EscapeBytes(bs)| ==> EscapeBytes(bs)[k] == '%' || EscapeBytes(bs)[k] in HexDigits
  {
    if |bs| > 0 {
      EscapeBytesAlphabet(bs[1..]);
    }
  }
}
