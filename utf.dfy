/**
 * The UTF-8 <-> UTF-16 transcoders of src/common.cpp (utf8_to_utf16 and
 * utf16_to_utf8).  A std::string is a sequence of bytes, a std::wstring a
 * sequence of 16-bit code units (wchar_t on Windows); a thrown Exception is
 * an `Err`.  Bit operations on values known to be in range are written as
 * the equal arithmetic: `x >> 6` is `x / 64`, `x & 0x3F` is `x % 64` and
 * `(x >> 6) | 0xC0` is `x / 64 + 0xC0` when `x / 64 < 0x20`.
 */
module Utf {
  import opened Wrappers
  import Common

  type byte = Common.byte

  /** A UTF-16 code unit. */
  newtype uint16 = x: int | 0 <= x < 0x1_0000

  const BadUtf8: string := "not a valid utf-8 string"
  const BadUtf16: string := "not a valid utf-16 string"

  /** `pre` put in front of a successful result; an error stays the same error. */
  function Prefixed<T>(pre: seq<T>, r: Result<seq<T>>): (p: Result<seq<T>>)
    ensures p.Ok? <==> r.Ok?
    ensures p.Err? ==> p == r
  {
    match r
    case Ok(rest) => Ok(pre + rest)
    case Err(e) => Err(e)
  }

  lemma PrefixedNothing<T>(r: Result<seq<T>>)
    ensures Prefixed([], r) == r
  {
    if r.Ok? {
      assert [] + r.value == r.value;
    }
  }

  lemma PrefixedTwice<T>(a: seq<T>, b: seq<T>, r: Result<seq<T>>)
    ensures Prefixed(a, Prefixed(b, r)) == Prefixed(a + b, r)
  {
    if r.Ok? {
      assert a + (b + r.value) == (a + b) + r.value;
    }
  }

  // ---------------------------------------------------------------- decoding

  /**
   * The lead byte, read as unsigned (common.cpp:95): the payload bits it
   * carries and how many continuation bytes follow, or None when it cannot
   * start a sequence (0x80..0xBF and 0xF8..0xFF).
   */
  function Lead(b: byte): (r: Option<(int, nat)>)
    ensures r.None? <==> 0x80 <= b <= 0xBF || b >= 0xF8
    ensures r.Some? ==> 0 <= r.value.0 < 0x80 && r.value.1 <= 3
  {
    if b <= 0x7F then Some((b as int, 0))
    else if b <= 0xBF then None
    else if b <= 0xDF then Some((b as int % 0x20, 1))
    else if b <= 0xEF then Some((b as int % 0x10, 2))
    else if b <= 0xF7 then Some((b as int % 0x08, 3))
    else None
  }

  /**
   * The value a byte has in the comparison of common.cpp:114, which reads a
   * plain `char`: with `signedChar` (as with MSVC) a byte >= 0x80 is negative.
   */
  function CharValue(b: byte, signedChar: bool): int {
    if signedChar && b >= 0x80 then b as int - 0x100 else b as int
  }

  predicate IsContinuation(b: byte, signedChar: bool) {
    0x80 <= CharValue(b, signedChar) <= 0xBF
  }

  /**
   * The code point after reading `next` continuation bytes from the front of
   * `s`, six bits each, starting from `cp`; None when one is missing or is
   * not a continuation byte.
   */
  function Trail(s: seq<byte>, cp: int, next: nat, signedChar: bool): (r: Option<int>)
    ensures r.Some? ==> next <= |s|
    ensures r.Some? && cp >= 0 ==> r.value >= 0
    decreases next
  {
    if next == 0 then Some(cp)
    else if s == [] || !IsContinuation(s[0], signedChar) then None
    else Trail(s[1..], cp * 64 + s[0] as int % 64, next - 1, signedChar)
  }

  predicate IsSurrogate(cp: int) {
    0xD800 <= cp <= 0xDFFF
  }

  /**
   * The code units of one code point: itself up to 0xFFFF, else a surrogate
   * pair (section 2.1 of RFC 2781).
   */
  function Units(cp: int): (u: seq<uint16>)
    requires 0 <= cp <= 0x10FFFF
    ensures cp <= 0xFFFF ==> u == [cp as uint16]
    ensures cp > 0xFFFF ==> |u| == 2 && 0xD800 <= u[0] < 0xDC00 && 0xDC00 <= u[1] <= 0xDFFF
  {
    if cp <= 0xFFFF then [cp as uint16]
    else [((cp - 0x10000) / 0x400 + 0xD800) as uint16, ((cp - 0x10000) % 0x400 + 0xDC00) as uint16]
  }

  /**
   * utf8_to_utf16 (common.cpp:92-132) on `s`: code point by code point, an
   * error at the first bad lead byte, missing or bad continuation byte, or
   * decoded value that is a surrogate or above 0x10FFFF.
   */
  function DecodeUtf8(s: seq<byte>, signedChar: bool): (r: Result<seq<uint16>>)
    decreases |s|
  {
    if s == [] then Ok([])
    else match Lead(s[0])
      case None => Err(BadUtf8)
      case Some((bits, next)) =>
        match Trail(s[1..], bits, next, signedChar)
        case None => Err(BadUtf8)
        case Some(cp) =>
          if IsSurrogate(cp) || cp > 0x10FFFF then Err(BadUtf8)
          else Prefixed(Units(cp), DecodeUtf8(s[1 + next..], signedChar))
  }

  /** A successful decode is empty iff its input is, and has at most two units per byte. */
  lemma {:induction false} DecodedLength(s: seq<byte>, signedChar: bool)
    requires DecodeUtf8(s, signedChar).Ok?
    ensures DecodeUtf8(s, signedChar).value == [] <==> s == []
    ensures |DecodeUtf8(s, signedChar).value| <= 2 * |s|
    decreases |s|
  {
    if s != [] {
      var next := Lead(s[0]).value.1;
      DecodedLength(s[1 + next..], signedChar);
    }
  }

  /** The inner loop of utf8_to_utf16: read `next` continuation bytes from position i. */
  method ReadTrail(s: seq<byte>, i0: nat, cp0: int, next0: nat, signedChar: bool)
    returns (ok: bool, cp: int, i: nat)
    requires i0 <= |s|
    ensures ok <==> Trail(s[i0..], cp0, next0, signedChar).Some?
    ensures ok ==> cp == Trail(s[i0..], cp0, next0, signedChar).value && i == i0 + next0 <= |s|
  {
    cp, i := cp0, i0;
    var next := next0;
    while next > 0
      invariant i0 <= i <= |s|
      invariant i == i0 + (next0 - next)
      invariant Trail(s[i0..], cp0, next0, signedChar) == Trail(s[i..], cp, next, signedChar)
    {
      if i >= |s| || !IsContinuation(s[i], signedChar) {
        return false, cp, i;
      }
      assert s[i..][1..] == s[i + 1..];
      cp := cp * 64 + s[i] as int % 64;
      i := i + 1;
      next := next - 1;
    }
    assert Trail(s[i..], cp, 0, signedChar) == Some(cp);
    return true, cp, i;
  }

  /** utf8_to_utf16; `signedChar` says how the plain `char` of line 114 is read. */
  method Utf8ToUtf16(s: seq<byte>, signedChar: bool) returns (r: Result<seq<uint16>>)
    ensures r == DecodeUtf8(s, signedChar)
  {
    var dst: seq<uint16> := [];
    var i := 0;
    assert s[i..] == s;
    PrefixedNothing(DecodeUtf8(s, signedChar));
    while i < |s|
      invariant 0 <= i <= |s|
      invariant DecodeUtf8(s, signedChar) == Prefixed(dst, DecodeUtf8(s[i..], signedChar))
      decreases |s| - i
    {
      var lead := Lead(s[i]);
      if lead.None? {
        return Err(BadUtf8);
      }
      var ok, cp, j := ReadTrail(s, i + 1, lead.value.0, lead.value.1, signedChar);
      assert s[i..][1..] == s[i + 1..];
      if !ok {
        return Err(BadUtf8);
      }
      if IsSurrogate(cp) || cp > 0x10FFFF {
        return Err(BadUtf8);
      }
      assert s[i..][1 + lead.value.1..] == s[j..];
      PrefixedTwice(dst, Units(cp), DecodeUtf8(s[j..], signedChar));
      dst := dst + Units(cp);
      i := j;
    }
    assert s[i..] == [];
    assert dst + [] == dst;
    return Ok(dst);
  }

  // ---------------------------------------------------------------- encoding

  /** The code point of a high and a low surrogate (section 2.2 of RFC 2781). */
  function Combine(hi: uint16, lo: uint16): int {
    0x10000 + (hi as int - 0xD800) * 0x400 + (lo as int - 0xDC00)
  }

  /** The UTF-8 bytes of a code point, in the bit layouts of section 3 of RFC 3629. */
  function Bytes(cp: int): (b: seq<byte>)
    requires 0 <= cp < 0x10FFFF
    ensures cp <= 0x7F ==> |b| == 1
    ensures 0x7F < cp <= 0x7FF ==> |b| == 2
    ensures 0x7FF < cp <= 0xFFFF ==> |b| == 3
    ensures 0xFFFF < cp ==> |b| == 4
  {
    if cp <= 0x7F then [cp as byte]
    else if cp <= 0x7FF then [(cp / 0x40 + 0xC0) as byte, (cp % 0x40 + 0x80) as byte]
    else if cp <= 0xFFFF then
      [(cp / 0x1000 + 0xE0) as byte, (cp / 0x40 % 0x40 + 0x80) as byte, (cp % 0x40 + 0x80) as byte]
    else
      [(cp / 0x40000 + 0xF0) as byte, (cp / 0x1000 % 0x40 + 0x80) as byte,
       (cp / 0x40 % 0x40 + 0x80) as byte, (cp % 0x40 + 0x80) as byte]
  }

  /**
   * utf16_to_utf8 (common.cpp:134-161) on `w`: a high surrogate must be
   * followed by a low one and the two are combined; a lone low surrogate, an
   * unpaired high one or a code point >= 0x10FFFF is an error.
   */
  function EncodeUtf8(w: seq<uint16>): (r: Result<seq<byte>>)
    ensures r.Ok? ==> |w| <= |r.value| <= 3 * |w|
    decreases |w|
  {
    if w == [] then Ok([])
    else if IsSurrogate(w[0] as int) then
      if w[0] >= 0xDC00 then Err(BadUtf16)
      else if |w| < 2 || w[1] < 0xDC00 || w[1] > 0xDFFF then Err(BadUtf16)
      else
        var cp := Combine(w[0], w[1]);
        if cp >= 0x10FFFF then Err(BadUtf16) else Prefixed(Bytes(cp), EncodeUtf8(w[2..]))
    else if w[0] as int >= 0x10FFFF then Err(BadUtf16)
    else Prefixed(Bytes(w[0] as int), EncodeUtf8(w[1..]))
  }

  /** utf16_to_utf8 */
  method Utf16ToUtf8(w: seq<uint16>) returns (r: Result<seq<byte>>)
    ensures r == EncodeUtf8(w)
  {
    var dst: seq<byte> := [];
    var i := 0;
    assert w[i..] == w;
    PrefixedNothing(EncodeUtf8(w));
    while i < |w|
      invariant 0 <= i <= |w|
      invariant EncodeUtf8(w) == Prefixed(dst, EncodeUtf8(w[i..]))
      decreases |w| - i
    {
      var cp := w[i] as int;
      var j := i + 1;
      if IsSurrogate(cp) {
        if cp >= 0xDC00 {
          return Err(BadUtf16);
        }
        if j >= |w| || w[j] < 0xDC00 || w[j] > 0xDFFF {
          return Err(BadUtf16);
        }
        assert w[i..][1] == w[j];
        cp := Combine(w[i], w[j]);
        j := j + 1;
      }
      if cp >= 0x10FFFF {
        return Err(BadUtf16);
      }
      assert w[i..][j - i..] == w[j..];
      PrefixedTwice(dst, Bytes(cp), EncodeUtf8(w[j..]));
      dst := dst + Bytes(cp);
      i := j;
    }
    assert w[i..] == [];
    assert dst + [] == dst;
    return Ok(dst);
  }

  // ---------------------------------------------------------------- properties

  /** The bytes of `s` each taken as a code unit. */
  function Widened(s: seq<byte>): (w: seq<uint16>)
    ensures |w| == |s|
  {
    seq(|s|, i requires 0 <= i < |s| => s[i] as uint16)
  }

  predicate IsAscii(s: seq<byte>) {
    forall i :: 0 <= i < |s| ==> s[i] < 0x80
  }

  /** ASCII bytes map one-to-one to code units, however `char` is read. */
  lemma {:induction false} AsciiDecodes(s: seq<byte>, signedChar: bool)
    requires IsAscii(s)
    ensures DecodeUtf8(s, signedChar) == Ok(Widened(s))
    decreases |s|
  {
    if s != [] {
      AsciiDecodes(s[1..], signedChar);
      assert Widened(s) == [s[0] as uint16] + Widened(s[1..]);
    }
  }

  /**
   * With a signed `char` the continuation test of common.cpp:114 fails for
   * every byte, so only pure ASCII input decodes.
   */
  lemma {:induction false} SignedReadsOnlyAscii(s: seq<byte>)
    ensures DecodeUtf8(s, true).Ok? <==> IsAscii(s)
    decreases |s|
  {
    if s != [] {
      SignedReadsOnlyAscii(s[1..]);
      if IsAscii(s[1..]) && s[0] < 0x80 {
        assert IsAscii(s) by {
          forall i | 0 <= i < |s| ensures s[i] < 0x80 {
            if i > 0 { assert s[i] == s[1..][i - 1]; }
          }
        }
      }
      if IsAscii(s) {
        assert IsAscii(s[1..]) by {
          forall i | 0 <= i < |s| - 1 ensures s[1..][i] < 0x80 {
            assert s[1..][i] == s[i + 1];
          }
        }
      }
      if s[0] >= 0x80 && Lead(s[0]).Some? {
        assert Lead(s[0]).value.1 > 0;
        assert s[1..] == [] || !IsContinuation(s[1..][0], true);
      }
    }
  }

  /** Lead bytes 0x80..0xBF and 0xF8..0xFF and truncated sequences are errors. */
  lemma DecodeRejects(s: seq<byte>, signedChar: bool)
    requires s != []
    requires Lead(s[0]).None? || |s| <= Lead(s[0]).value.1
    ensures DecodeUtf8(s, signedChar).Err?
  {
    if Lead(s[0]).Some? {
      TrailShort(s[1..], Lead(s[0]).value.0, Lead(s[0]).value.1, signedChar);
    }
  }

  /**
   * The other two throws: a continuation byte that is present but invalid,
   * and a decoded value that is a surrogate or lies above 0x10FFFF.
   */
  lemma DecodeRejectsValue(s: seq<byte>, signedChar: bool, k: nat)
    requires s != [] && Lead(s[0]).Some?
    ensures 1 <= k <= Lead(s[0]).value.1 && k < |s| && !IsContinuation(s[k], signedChar) ==>
      DecodeUtf8(s, signedChar).Err?
    ensures var t := Trail(s[1..], Lead(s[0]).value.0, Lead(s[0]).value.1, signedChar);
      t.Some? && (IsSurrogate(t.value) || t.value > 0x10FFFF) ==> DecodeUtf8(s, signedChar).Err?
  {
    if 1 <= k <= Lead(s[0]).value.1 && k < |s| && !IsContinuation(s[k], signedChar) {
      TrailBadByte(s[1..], Lead(s[0]).value.0, Lead(s[0]).value.1, signedChar, k - 1);
    }
  }

  /** ED A0 80 decodes to the surrogate U+D800 and is rejected. */
  lemma SurrogateRejected()
    ensures DecodeUtf8([0xED, 0xA0, 0x80], false).Err?
  {
    var s: seq<byte> := [0xED, 0xA0, 0x80];
    assert Lead(s[0]) == Some((0xD, 2));
    assert s[1..][1..] == [0x80];
    assert Trail(s[1..], 0xD, 2, false) == Some(0xD800);
    DecodeRejectsValue(s, false, 0);
  }

  /** F4 90 80 80 decodes to 0x110000, above the last code point, and is rejected. */
  lemma BeyondRangeRejected()
    ensures DecodeUtf8([0xF4, 0x90, 0x80, 0x80], false).Err?
  {
    var s: seq<byte> := [0xF4, 0x90, 0x80, 0x80];
    assert Lead(s[0]) == Some((4, 3));
    assert s[1..][1..] == [0x80, 0x80] && s[1..][1..][1..] == [0x80];
    assert Trail(s[1..], 4, 3, false) == Some(0x110000);
    DecodeRejectsValue(s, false, 0);
  }

  /** C3 41: the byte after a two-byte lead is not a continuation byte. */
  lemma BadContinuationRejected()
    ensures DecodeUtf8([0xC3, 0x41], false).Err?
  {
    var s: seq<byte> := [0xC3, 0x41];
    assert Lead(s[0]) == Some((3, 1));
    assert !IsContinuation(s[1], false);
    DecodeRejectsValue(s, false, 1);
  }

  lemma {:induction false} TrailBadByte(s: seq<byte>, cp: int, next: nat, signedChar: bool, k: nat)
    requires k < next && k < |s| && !IsContinuation(s[k], signedChar)
    ensures Trail(s, cp, next, signedChar).None?
    decreases k
  {
    if k > 0 && IsContinuation(s[0], signedChar) {
      TrailBadByte(s[1..], cp * 64 + s[0] as int % 64, next - 1, signedChar, k - 1);
    }
  }

  lemma {:induction false} TrailShort(s: seq<byte>, cp: int, next: nat, signedChar: bool)
    requires |s| < next
    ensures Trail(s, cp, next, signedChar).None?
    decreases next
  {
    if s != [] && IsContinuation(s[0], signedChar) {
      TrailShort(s[1..], cp * 64 + s[0] as int % 64, next - 1, signedChar);
    }
  }

  /** A surrogate pair and the code point it stands for determine each other. */
  lemma PairInverse(hi: uint16, lo: uint16)
    requires 0xD800 <= hi < 0xDC00 && 0xDC00 <= lo <= 0xDFFF
    ensures 0x10000 <= Combine(hi, lo) <= 0x10FFFF
    ensures Units(Combine(hi, lo)) == [hi, lo]
  {
    var cp := Combine(hi, lo);
    var x := cp - 0x10000;
    assert x == (hi as int - 0xD800) * 0x400 + (lo as int - 0xDC00);
    assert x / 0x400 == hi as int - 0xD800;
    assert x % 0x400 == lo as int - 0xDC00;
  }

  lemma UnitsInverse(cp: int)
    requires 0x10000 <= cp <= 0x10FFFF
    ensures Combine(Units(cp)[0], Units(cp)[1]) == cp
  {
    var x := cp - 0x10000;
    assert x == x / 0x400 * 0x400 + x % 0x400;
  }

  /** The bytes of one code point decode back to its code units, whatever follows. */
  lemma BytesDecode(cp: int, t: seq<byte>)
    requires 0 <= cp < 0x10FFFF && !IsSurrogate(cp)
    ensures DecodeUtf8(Bytes(cp) + t, false) == Prefixed(Units(cp), DecodeUtf8(t, false))
  {
    var b := Bytes(cp);
    var s := b + t;
    assert s[0] == b[0];
    assert s[1 + (|b| - 1)..] == t;
    TrailBytes(cp, t);
  }

  /** One continuation byte read by Trail. */
  lemma TrailCons(c: byte, s: seq<byte>, cp: int, next: nat)
    requires IsContinuation(c, false)
    ensures Trail([c] + s, cp, next + 1, false) == Trail(s, cp * 64 + c as int % 64, next, false)
  {
    assert ([c] + s)[1..] == s;
  }

  /** A continuation byte carrying the six bits d. */
  function Cont(d: int): (c: byte)
    requires 0 <= d < 0x40
    ensures IsContinuation(c, false) && c as int % 64 == d
  {
    (d + 0x80) as byte
  }

  lemma TrailTwo(cp: int, t: seq<byte>)
    requires 0x7F < cp <= 0x7FF
    ensures Lead(Bytes(cp)[0]) == Some((cp / 0x40, 1))
    ensures (Bytes(cp) + t)[1..] == [Cont(cp % 0x40)] + t
    ensures Trail([Cont(cp % 0x40)] + t, cp / 0x40, 1, false) == Some(cp)
  {
    TrailCons(Cont(cp % 0x40), t, cp / 0x40, 0);
  }

  lemma TrailThree(cp: int, t: seq<byte>)
    requires 0x7FF < cp <= 0xFFFF
    ensures Lead(Bytes(cp)[0]) == Some((cp / 0x1000, 2))
    ensures (Bytes(cp) + t)[1..] == [Cont(cp / 0x40 % 0x40)] + ([Cont(cp % 0x40)] + t)
    ensures Trail([Cont(cp / 0x40 % 0x40)] + ([Cont(cp % 0x40)] + t), cp / 0x1000, 2, false) == Some(cp)
  {
    var c1, c0 := Cont(cp / 0x40 % 0x40), Cont(cp % 0x40);
    var lead := (cp / 0x1000 + 0xE0) as byte;
    assert Bytes(cp) == [lead, c1, c0];
    assert Lead(lead) == Some((cp / 0x1000, 2));
    assert (Bytes(cp) + t)[1..] == [c1] + ([c0] + t);
    var q, d1, d0 := cp / 0x1000, cp / 0x40 % 0x40, cp % 0x40;
    TrailCons(c1, [c0] + t, q, 1);
    TrailCons(c0, t, q * 64 + d1, 0);
    SixBits(cp);
    assert (q * 64 + d1) * 64 + d0 == cp;
  }

  lemma TrailFour(cp: int, t: seq<byte>)
    requires 0xFFFF < cp < 0x10FFFF
    ensures Lead(Bytes(cp)[0]) == Some((cp / 0x40000, 3))
    ensures (Bytes(cp) + t)[1..] == [Cont(cp / 0x1000 % 0x40)] + ([Cont(cp / 0x40 % 0x40)] + ([Cont(cp % 0x40)] + t))
    ensures Trail([Cont(cp / 0x1000 % 0x40)] + ([Cont(cp / 0x40 % 0x40)] + ([Cont(cp % 0x40)] + t)), cp / 0x40000, 3, false)
      == Some(cp)
  {
    var c2, c1, c0 := Cont(cp / 0x1000 % 0x40), Cont(cp / 0x40 % 0x40), Cont(cp % 0x40);
    var lead := (cp / 0x40000 + 0xF0) as byte;
    assert Bytes(cp) == [lead, c2, c1, c0];
    assert Lead(lead) == Some((cp / 0x40000, 3));
    assert (Bytes(cp) + t)[1..] == [c2] + ([c1] + ([c0] + t));
    var q, d2, d1, d0 := cp / 0x40000, cp / 0x1000 % 0x40, cp / 0x40 % 0x40, cp % 0x40;
    TrailDigits(q, d2, d1, d0, t);
    SixBits(cp);
    assert ((q * 64 + d2) * 64 + d1) * 64 + d0 == cp;
  }

  /** Three continuation bytes after the payload q give q's six-bit digits followed by theirs. */
  lemma TrailDigits(q: int, d2: int, d1: int, d0: int, t: seq<byte>)
    requires 0 <= d2 < 0x40 && 0 <= d1 < 0x40 && 0 <= d0 < 0x40
    ensures Trail([Cont(d2)] + ([Cont(d1)] + ([Cont(d0)] + t)), q, 3, false) == Some(((q * 64 + d2) * 64 + d1) * 64 + d0)
  {
    TrailCons(Cont(d2), [Cont(d1)] + ([Cont(d0)] + t), q, 2);
    TrailCons(Cont(d1), [Cont(d0)] + t, q * 64 + d2, 1);
    TrailCons(Cont(d0), t, (q * 64 + d2) * 64 + d1, 0);
  }

  /** Each six-bit digit of cp shifted back onto the digits above it. */
  lemma SixBits(cp: nat)
    ensures cp / 0x40000 * 64 + cp / 0x1000 % 0x40 == cp / 0x1000
    ensures cp / 0x1000 * 64 + cp / 0x40 % 0x40 == cp / 0x40
    ensures cp / 0x40 * 64 + cp % 0x40 == cp
  {
  }

  /** The payload of the lead byte of Bytes(cp), and its continuation bytes, rebuild cp. */
  lemma TrailBytes(cp: int, t: seq<byte>)
    requires 0 <= cp < 0x10FFFF
    ensures Lead(Bytes(cp)[0]).Some?
    ensures Lead(Bytes(cp)[0]).value.1 == |Bytes(cp)| - 1
    ensures Trail((Bytes(cp) + t)[1..], Lead(Bytes(cp)[0]).value.0, |Bytes(cp)| - 1, false) == Some(cp)
  {
    if cp <= 0x7F {
    } else if cp <= 0x7FF {
      TrailTwo(cp, t);
    } else if cp <= 0xFFFF {
      TrailThree(cp, t);
    } else {
      TrailFour(cp, t);
    }
  }

  /**
   * Round trip: whatever utf16_to_utf8 accepts, utf8_to_utf16 (reading bytes
   * as unsigned) turns back into the same code units.
   */
  lemma {:induction false} EncodeThenDecode(w: seq<uint16>)
    requires EncodeUtf8(w).Ok?
    ensures DecodeUtf8(EncodeUtf8(w).value, false) == Ok(w)
    decreases |w|
  {
    if w != [] {
      if IsSurrogate(w[0] as int) {
        var cp := Combine(w[0], w[1]);
        PairInverse(w[0], w[1]);
        EncodeThenDecode(w[2..]);
        BytesDecode(cp, EncodeUtf8(w[2..]).value);
        assert w == [w[0], w[1]] + w[2..];
      } else {
        EncodeThenDecode(w[1..]);
        BytesDecode(w[0] as int, EncodeUtf8(w[1..]).value);
        assert w == [w[0]] + w[1..];
      }
    }
  }

  /** A low surrogate first, or a high one not followed by a low one, is an error. */
  lemma EncodeRejects(w: seq<uint16>)
    requires w != [] && IsSurrogate(w[0] as int)
    requires w[0] >= 0xDC00 || |w| == 1 || !(0xDC00 <= w[1] <= 0xDFFF)
    ensures EncodeUtf8(w).Err?
  {
  }

  /**
   * U+10FFFF itself: the decoder turns F4 8F BF BF into the pair DBFF DFFF,
   * but the `>=` of common.cpp:143 makes the encoder refuse that pair.
   */
  lemma LastCodePoint()
    ensures DecodeUtf8([0xF4, 0x8F, 0xBF, 0xBF], false) == Ok([0xDBFF, 0xDFFF])
    ensures EncodeUtf8([0xDBFF, 0xDFFF]).Err?
  {
    var s: seq<byte> := [0xF4, 0x8F, 0xBF, 0xBF];
    assert s[1..] == [Cont(0xF)] + ([Cont(0x3F)] + ([Cont(0x3F)] + []));
    TrailCons(Cont(0xF), [Cont(0x3F)] + ([Cont(0x3F)] + []), 4, 2);
    TrailCons(Cont(0x3F), [Cont(0x3F)] + [], 4 * 64 + 0xF, 1);
    TrailCons(Cont(0x3F), [], (4 * 64 + 0xF) * 64 + 0x3F, 0);
    assert Lead(s[0]) == Some((4, 3));
    assert Trail(s[1..], 4, 3, false) == Some(0x10FFFF);
    assert s[4..] == [];
    assert DecodeUtf8(s[4..], false) == Ok([]);
    assert Units(0x10FFFF) == [0xDBFF, 0xDFFF];
    assert Combine(0xDBFF, 0xDFFF) == 0x10FFFF;
    assert DecodeUtf8(s, false) == Prefixed(Units(0x10FFFF), DecodeUtf8(s[1 + 3..], false));
    assert Units(0x10FFFF) + [] == [0xDBFF, 0xDFFF];
  }

  /** Overlong forms are not rejected: C0 80 decodes to U+0000. */
  lemma OverlongAccepted()
    ensures DecodeUtf8([0xC0, 0x80], false) == Ok([0])
  {
    var s: seq<byte> := [0xC0, 0x80];
    assert Lead(s[0]) == Some((0, 1));
    assert s[1..] == [Cont(0)] + [] && s[2..] == [];
    TrailCons(Cont(0), [], 0, 0);
    assert Trail(s[1..], 0, 1, false) == Some(0);
    assert DecodeUtf8(s[2..], false) == Ok([]);
    assert Units(0) == [0];
    assert DecodeUtf8(s, false) == Prefixed(Units(0), DecodeUtf8(s[1 + 1..], false));
    assert Units(0) + [] == [0];
  }
}
