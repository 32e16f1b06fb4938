/**
 * Form encoding of src/http.cpp: urlencode and HttpRequest::addData, which
 * build an application/x-www-form-urlencoded POST body, and addHeader.  The
 * WinHTTP session, request and response handling is not part of this model.
 */
module Http {
  import opened Wrappers
  import Common
  import Utf

  type byte = Common.byte

  const Space: byte := 0x20
  const Plus: byte := 0x2B
  const Percent: byte := 0x25
  const Ampersand: byte := 0x26
  const Equals: byte := 0x3D

  /** isalnum in the "C" locale. */
  predicate IsAlnum(c: byte) {
    0x30 <= c <= 0x39 || 0x41 <= c <= 0x5A || 0x61 <= c <= 0x7A
  }

  /** An uppercase hexadecimal digit, as %02X prints it. */
  predicate IsHexDigit(c: byte) {
    0x30 <= c <= 0x39 || 0x41 <= c <= 0x46
  }

  function HexDigit(d: nat): (c: byte)
    requires d < 16
    ensures IsHexDigit(c)
  {
    if d < 10 then (0x30 + d) as byte else (0x41 + d - 10) as byte
  }

  function HexValue(c: byte): (d: nat)
    requires IsHexDigit(c)
    ensures d < 16 && HexDigit(d) == c
  {
    if c <= 0x39 then c as nat - 0x30 else c as nat - 0x41 + 10
  }

  /** One input byte: alphanumerics stay, space becomes '+', the rest "%XX". */
  function EncodeByte(c: byte): seq<byte> {
    if IsAlnum(c) then [c]
    else if c == Space then [Plus]
    else [Percent, HexDigit(c as nat / 16), HexDigit(c as nat % 16)]
  }

  /** urlencode (http.cpp:51-65): the bytes encoded one after another. */
  function UrlEncoded(s: seq<byte>): (r: seq<byte>)
    ensures |s| <= |r| <= 3 * |s|
    decreases |s|
  {
    if s == [] then [] else EncodeByte(s[0]) + UrlEncoded(s[1..])
  }

  lemma EncodedStep(dst: seq<byte>, s: seq<byte>, piece: seq<byte>)
    requires s != [] && piece == EncodeByte(s[0])
    ensures dst + UrlEncoded(s) == (dst + piece) + UrlEncoded(s[1..])
  {
  }

  method UrlEncode(s: seq<byte>) returns (dst: seq<byte>)
    ensures dst == UrlEncoded(s)
  {
    dst := [];
    var i := 0;
    while i < |s|
      invariant 0 <= i <= |s|
      invariant UrlEncoded(s) == dst + UrlEncoded(s[i..])
    {
      var c := s[i];
      var piece: seq<byte>;
      if IsAlnum(c) {
        piece := [c];
      } else if c == Space {
        piece := [Plus];
      } else {
        piece := [Percent, HexDigit(c as nat / 16), HexDigit(c as nat % 16)];
      }
      assert piece == EncodeByte(c);
      assert s[i..][1..] == s[i + 1..];
      EncodedStep(dst, s[i..], piece);
      dst := dst + piece;
      i := i + 1;
    }
    assert s[i..] == [];
  }

  /** The inverse of the encoding: '+' is a space, "%XX" a byte, alphanumerics themselves. */
  function UrlDecode(e: seq<byte>): Option<seq<byte>>
    decreases |e|
  {
    if e == [] then Some([])
    else
      var (c, used) :=
        if e[0] == Plus then (Some(Space), 1)
        else if e[0] == Percent && |e| >= 3 && IsHexDigit(e[1]) && IsHexDigit(e[2])
        then (Some((HexValue(e[1]) * 16 + HexValue(e[2])) as byte), 3)
        else if IsAlnum(e[0]) then (Some(e[0]), 1)
        else (None, 1);
      match (c, UrlDecode(e[used..]))
      case (Some(b), Some(rest)) => Some([b] + rest)
      case _ => None
  }

  lemma {:induction false} DecodeEncoded(s: seq<byte>)
    ensures UrlDecode(UrlEncoded(s)) == Some(s)
    decreases |s|
  {
    if s != [] {
      DecodeEncoded(s[1..]);
      DecodeByte(s[0], UrlEncoded(s[1..]));
      assert s == [s[0]] + s[1..];
    }
  }

  /** Decoding the escape of one byte gives the byte back, whatever follows. */
  lemma DecodeByte(c: byte, rest: seq<byte>)
    ensures UrlDecode(EncodeByte(c) + rest) ==
      match UrlDecode(rest) case Some(r) => Some([c] + r) case None => None
  {
    var e := EncodeByte(c) + rest;
    assert e[|EncodeByte(c)|..] == rest;
    if !IsAlnum(c) && c != Space {
      assert HexValue(e[1]) == c as nat / 16;
      assert HexValue(e[2]) == c as nat % 16;
    }
  }

  /** How many bytes urlencode turns into a three-byte escape. */
  function Escapes(s: seq<byte>): nat
    decreases |s|
  {
    if s == [] then 0 else (if IsAlnum(s[0]) || s[0] == Space then 0 else 1) + Escapes(s[1..])
  }

  /** One byte per alphanumeric or space, three per other byte. */
  lemma {:induction false} EncodedLength(s: seq<byte>)
    ensures |UrlEncoded(s)| == |s| + 2 * Escapes(s)
    decreases |s|
  {
    if s != [] {
      EncodedLength(s[1..]);
    }
  }

  predicate InAlphabet(c: byte) {
    IsAlnum(c) || c == Plus || c == Percent
  }

  /** The output uses alphanumerics, '+' and '%' only, so never '&' or '='. */
  lemma {:induction false} EncodedAlphabet(s: seq<byte>)
    ensures forall k :: 0 <= k < |UrlEncoded(s)| ==> InAlphabet(UrlEncoded(s)[k])
    ensures Ampersand !in UrlEncoded(s) && Equals !in UrlEncoded(s)
    decreases |s|
  {
    if s != [] {
      EncodedAlphabet(s[1..]);
      var head, tail := EncodeByte(s[0]), UrlEncoded(s[1..]);
      forall k | 0 <= k < |head + tail| ensures InAlphabet((head + tail)[k]) {
        if k >= |head| {
          assert (head + tail)[k] == tail[k - |head|];
        }
      }
    }
  }

  /** One `key=value` pair of the body. */
  function Field(key: seq<byte>, value: seq<byte>): seq<byte> {
    UrlEncoded(key) + [Equals] + UrlEncoded(value)
  }

  /** The body after addData: an '&' first unless the body was empty. */
  function Posted(post: seq<byte>, key: seq<byte>, value: seq<byte>): seq<byte> {
    post + (if post == [] then [] else [Ampersand]) + Field(key, value)
  }

  /**
   * Splitting the new body at '&' gives the old fields and one more, whose
   * halves around '=' decode back to the key and the value.
   */
  lemma PostedFields(post: seq<byte>, key: seq<byte>, value: seq<byte>)
    ensures post != [] ==>
      Common.Pieces(Posted(post, key, value), Ampersand) == Common.Pieces(post, Ampersand) + [Field(key, value)]
    ensures post == [] ==> Common.Pieces(Posted(post, key, value), Ampersand) == [Field(key, value)]
    ensures Common.Pieces(Field(key, value), Equals) == [UrlEncoded(key), UrlEncoded(value)]
    ensures UrlDecode(UrlEncoded(key)) == Some(key) && UrlDecode(UrlEncoded(value)) == Some(value)
  {
    var f := Field(key, value);
    EncodedAlphabet(key);
    EncodedAlphabet(value);
    assert Ampersand !in f;
    if post != [] {
      Common.PiecesAfterSep(post, Ampersand, f);
    } else {
      assert Posted(post, key, value) == f;
      Common.PiecesWithoutSep(f, Ampersand);
    }
    Common.PiecesWithoutSep(UrlEncoded(key), Equals);
    Common.PiecesAfterSep(UrlEncoded(key), Equals, UrlEncoded(value));
    DecodeEncoded(key);
    DecodeEncoded(value);
  }

  lemma FieldAfter(lead: seq<byte>, k: seq<byte>, v: seq<byte>, key: seq<byte>, value: seq<byte>)
    requires k == UrlEncoded(key) && v == UrlEncoded(value)
    ensures lead + k + [Equals] + v == lead + Field(key, value)
  {
  }

  /** The request parts this model keeps: the extra headers and the POST body. */
  class HttpRequest {
    var headers: seq<Utf.uint16>
    var post: seq<byte>

    constructor ()
      ensures headers == [] && post == []
    {
      headers := [];
      post := [];
    }

    /**
     * addHeader (http.cpp:46-49): the header converted to UTF-16 and a CRLF;
     * when the conversion throws, nothing is appended.
     */
    method AddHeader(header: seq<byte>, signedChar: bool) returns (ok: bool)
      modifies this
      ensures ok == Utf.DecodeUtf8(header, signedChar).Ok?
      ensures ok ==> headers == old(headers) + Utf.DecodeUtf8(header, signedChar).value + [0x0D, 0x0A]
      ensures !ok ==> headers == old(headers)
      ensures post == old(post)
    {
      var wide := Utf.Utf8ToUtf16(header, signedChar);
      if wide.Err? {
        return false;
      }
      headers := headers + wide.value + [0x0D, 0x0A];
      return true;
    }

    /** addData (http.cpp:67-72) */
    method AddData(key: seq<byte>, value: seq<byte>)
      modifies this
      ensures post == Posted(old(post), key, value)
      ensures headers == old(headers)
    {
      ghost var before := post;
      if post != [] {
        post := post + [Ampersand];
      }
      assert post == before + (if before == [] then [] else [Ampersand]);
      ghost var lead := post;
      var k := UrlEncode(key);
      post := post + k;
      post := post + [Equals];
      var v := UrlEncode(value);
      post := post + v;
      FieldAfter(lead, k, v, key, value);
    }
  }
}
