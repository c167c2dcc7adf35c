/**
 * `decodeURIComponent` as the ECMAScript Decode operation defines it (with an
 * empty reserved set): every `%XX` escape is read as a byte, bytes from
 * 0x80 up must form one well-formed UTF-8 sequence of escapes, and any
 * malformed escape or sequence makes the call throw a URIError, modelled as
 * None. `encodeURIComponent` is written beside it as its inverse.
 *
 * Characters are Unicode scalar values, so a decoded supplementary-plane
 * character is one element here where JavaScript holds two UTF-16 units.
 */
module UriCodec {
  import opened JsString

  /** The value of one hexadecimal digit, in either case. */
  function HexValue(c: char): (r: Option<nat>)
    ensures r.Some? ==> r.value < 16
  {
    if '0' <= c <= '9' then Some(c as int - '0' as int)
    else if 'a' <= c <= 'f' then Some(c as int - 'a' as int + 10)
    else if 'A' <= c <= 'F' then Some(c as int - 'A' as int + 10)
    else None
  }

  /** The byte written as `%XX` at index `k` of `s`, if there is one. */
  function EscapeAt(s: string, k: nat): (r: Option<nat>)
    ensures r.Some? ==> k + 3 <= |s| && s[k] == '%' && r.value < 256
    ensures r.Some? ==> HexValue(s[k + 1]).Some? && HexValue(s[k + 2]).Some?
  {
    if k + 3 <= |s| && s[k] == '%' then
      match (HexValue(s[k + 1]), HexValue(s[k + 2]))
      case (Some(hi), Some(lo)) => Some(16 * hi + lo)
      case _ => None
    else None
  }

  lemma EscapeAtShift(s: string, k: nat)
    requires |s| >= 3
    ensures EscapeAt(s[3..], k) == EscapeAt(s, k + 3)
  {
    if k + 3 + 3 <= |s| {
      assert s[3..][k] == s[k + 3] && s[3..][k + 1] == s[k + 4] && s[3..][k + 2] == s[k + 5];
    }
  }

  /** How many bytes a UTF-8 sequence with this lead byte has; 0 when it cannot lead one. */
  function SequenceLength(b: nat): nat
  {
    if b < 0x80 then 1
    else if b < 0xC0 then 0
    else if b < 0xE0 then 2
    else if b < 0xF0 then 3
    else if b < 0xF8 then 4
    else 0
  }

  predicate IsContinuation(b: int)
  {
    0x80 <= b < 0xC0
  }

  /** A Unicode scalar value: a code point that is not a surrogate. */
  predicate IsScalar(v: int)
  {
    0 <= v < 0xD800 || 0xE000 <= v < 0x11_0000
  }

  /** The `n` escaped bytes at indices 0, 3, 6, ... of `s`. */
  function EscapedBytes(s: string, n: nat): (r: Option<seq<nat>>)
    ensures r.Some? ==> |r.value| == n && 3 * n <= |s|
    decreases n
  {
    if n == 0 then Some([])
    else match EscapeAt(s, 0)
      case None => None
      case Some(b) =>
        match EscapedBytes(s[3..], n - 1)
        case None => None
        case Some(rest) => Some([b] + rest)
  }

  /** Byte `j` of the bytes read is the escape at index `3 * j`. */
  lemma {:induction false} EscapedByteAt(s: string, n: nat, j: nat)
    requires EscapedBytes(s, n).Some? && j < n
    ensures EscapeAt(s, 3 * j) == Some(EscapedBytes(s, n).value[j])
    decreases n
  {
    if j > 0 {
      EscapedByteAt(s[3..], n - 1, j - 1);
      EscapeAtShift(s, 3 * (j - 1));
    }
  }

  /**
   * The code point a UTF-8 byte sequence encodes, or None when the sequence
   * is not well formed (a byte that is not a continuation, an overlong form,
   * a surrogate, or a value beyond U+10FFFF).
   */
  function CodePoint(bs: seq<nat>): (r: Option<nat>)
    requires |bs| >= 1 && SequenceLength(bs[0]) == |bs|
    ensures r.Some? ==> IsScalar(r.value)
    ensures r.Some? ==> forall j :: 1 <= j < |bs| ==> IsContinuation(bs[j])
  {
    if exists j :: 1 <= j < |bs| && !IsContinuation(bs[j]) then None
    else if |bs| == 1 then Some(bs[0])
    else if |bs| == 2 then
      var v := (bs[0] - 0xC0) * 64 + (bs[1] - 0x80);
      if v < 0x80 then None else Some(v)
    else if |bs| == 3 then
      var v := (bs[0] - 0xE0) * 4096 + (bs[1] - 0x80) * 64 + (bs[2] - 0x80);
      if v < 0x800 || (0xD800 <= v < 0xE000) then None else Some(v)
    else
      var v := (bs[0] - 0xF0) * 0x40000 + (bs[1] - 0x80) * 4096 + (bs[2] - 0x80) * 64 + (bs[3] - 0x80);
      if v < 0x10000 || v >= 0x11_0000 then None else Some(v)
  }

  /**
   * Decodes the escape sequence that starts `s`: the character, and how many
   * characters of `s` (three per byte) it took.
   */
  function DecodeEscape(s: string): (r: Option<(char, nat)>)
    requires |s| > 0 && s[0] == '%'
    ensures r.Some? ==> EscapeAt(s, 0).Some? && r.value.1 == 3 * SequenceLength(EscapeAt(s, 0).value)
    ensures r.Some? ==> 3 <= r.value.1 <= |s| && r.value.1 <= 12
    ensures r.Some? && EscapeAt(s, 0) == Some(0) ==> r.value == ('\0', 3)
  {
    match EscapeAt(s, 0)
    case None => None
    case Some(b) =>
      var n := SequenceLength(b);
      if n == 0 then None
      else match EscapedBytes(s, n)
        case None => None
        case Some(bs) =>
          match CodePoint(bs)
          case None => None
          case Some(v) => Some((v as char, 3 * n))
  }

  /** `decodeURIComponent(s)`, with None for a thrown URIError. */
  function Decode(s: string): (r: Option<string>)
    ensures r.Some? ==> |r.value| <= |s|
    ensures '%' !in s ==> r == Some(s)
    decreases |s|
  {
    if s == [] then Some([])
    else if s[0] != '%' then
      assert s == [s[0]] + s[1..];
      match Decode(s[1..])
      case None => None
      case Some(d) => Some([s[0]] + d)
    else
      match DecodeEscape(s)
      case None => None
      case Some((c, m)) =>
        match Decode(s[m..])
        case None => None
        case Some(d) => Some([c] + d)
  }

  // ---------------------------------------------------------------------
  // What decoding keeps
  // ---------------------------------------------------------------------

  /**
   * Inside an escape sequence that decoded, every character after the first
   * `%` is a hex digit or the `%` of a continuation byte.
   */
  lemma InsideEscape(s: string, t: nat)
    requires |s| > 0 && s[0] == '%' && DecodeEscape(s).Some?
    requires 0 < t < DecodeEscape(s).value.1
    ensures HexValue(s[t]).Some? || (EscapeAt(s, t).Some? && IsContinuation(EscapeAt(s, t).value))
  {
    var n := SequenceLength(EscapeAt(s, 0).value);
    DecodedEscapeBytes(s);
    var bs := EscapedBytes(s, n).value;
    var j, k := SplitByThree(t);
    assert j < n;
    EscapedByteAt(s, n, j);
    if k == 0 {
      assert 1 <= j;
    }
  }

  /** The bytes of an escape sequence that decoded: the lead byte's count of them, all but the first continuation bytes. */
  lemma DecodedEscapeBytes(s: string)
    requires |s| > 0 && s[0] == '%' && DecodeEscape(s).Some?
    ensures var n := SequenceLength(EscapeAt(s, 0).value);
      EscapedBytes(s, n).Some? && forall j :: 1 <= j < n ==> IsContinuation(EscapedBytes(s, n).value[j])
  {
  }

  lemma SplitByThree(t: nat) returns (j: nat, k: nat)
    ensures t == 3 * j + k && k < 3
  {
    j, k := t / 3, t % 3;
  }

  /** A character that is neither `%` nor a hex digit survives decoding. */
  lemma {:induction false} DecodeKeepsChar(s: string, i: nat)
    requires Decode(s).Some? && i < |s|
    requires s[i] != '%' && HexValue(s[i]).None?
    ensures s[i] in Decode(s).value
    decreases |s|
  {
    if s[0] != '%' {
      assert Decode(s).value == [s[0]] + Decode(s[1..]).value;
      if i > 0 {
        DecodeKeepsChar(s[1..], i - 1);
      }
    } else {
      var (c, m) := DecodeEscape(s).value;
      assert Decode(s).value == [c] + Decode(s[m..]).value;
      if i >= m {
        assert s[m..][i - m] == s[i];
        DecodeKeepsChar(s[m..], i - m);
      } else {
        InsideEscape(s, i);
        assert false;
      }
    }
  }

  /** `%00` is an escape of the byte 0. */
  lemma EncodedNulEscape(s: string, i: nat)
    requires OccursAt(s, "%00", i)
    ensures s[i] == '%' && EscapeAt(s, i) == Some(0)
  {
    assert s[i] == s[i..i + 3][0] == '%';
    assert s[i + 1] == s[i..i + 3][1] == '0';
    assert s[i + 2] == s[i..i + 3][2] == '0';
  }

  /** An escape of the byte 0 never starts inside another escape sequence. */
  lemma NulEscapeOutside(s: string, i: nat)
    requires |s| > 0 && s[0] == '%' && DecodeEscape(s).Some?
    requires 0 < i < |s| && s[i] == '%' && EscapeAt(s, i) == Some(0)
    ensures DecodeEscape(s).value.1 <= i
  {
    if i < DecodeEscape(s).value.1 {
      InsideEscape(s, i);
    }
  }

  /** How a path that decodes begins: a plain character, or the character of its first escape sequence. */
  lemma DecodeHead(s: string)
    requires s != [] && Decode(s).Some?
    ensures s[0] != '%' ==> Decode(s[1..]).Some? && Decode(s).value == [s[0]] + Decode(s[1..]).value
    ensures s[0] == '%' ==> (DecodeEscape(s).Some? &&
      var (c, m) := DecodeEscape(s).value;
      Decode(s[m..]).Some? && Decode(s).value == [c] + Decode(s[m..]).value)
  {
  }

  /** Reading escapes from `m` characters in is reading them from the whole string, `m` further on. */
  lemma EscapeAtDrop(s: string, m: nat, k: nat)
    requires m <= |s|
    ensures EscapeAt(s[m..], k) == EscapeAt(s, k + m)
  {
    if k + m + 3 <= |s| {
      assert s[m..][k] == s[k + m] && s[m..][k + 1] == s[k + m + 1] && s[m..][k + 2] == s[k + m + 2];
    }
  }

  /** A `%` anywhere that does not start a two-hex-digit escape makes the whole decoding fail. */
  lemma {:induction false} MalformedEscapeFails(s: string, i: nat)
    requires i < |s| && s[i] == '%' && EscapeAt(s, i).None?
    ensures Decode(s).None?
    decreases |s|
  {
    if s[0] != '%' {
      EscapeAtDrop(s, 1, i - 1);
      MalformedEscapeFails(s[1..], i - 1);
    } else if i > 0 && DecodeEscape(s).Some? {
      var m := DecodeEscape(s).value.1;
      if i < m {
        InsideEscape(s, i);
        assert false;
      }
      EscapeAtDrop(s, m, i - m);
      MalformedEscapeFails(s[m..], i - m);
    }
  }

  /** An encoded NUL, `%00`, decodes to a NUL character wherever it stands. */
  lemma {:induction false} DecodeKeepsEncodedNul(s: string, i: nat)
    requires Decode(s).Some? && OccursAt(s, "%00", i)
    ensures '\0' in Decode(s).value
    decreases |s|
  {
    EncodedNulEscape(s, i);
    DecodeHead(s);
    if s[0] != '%' {
      OccursAtDrop(s, "%00", 1, i);
      DecodeKeepsEncodedNul(s[1..], i - 1);
    } else if i == 0 {
      assert DecodeEscape(s).value.0 == '\0';
    } else {
      var m := DecodeEscape(s).value.1;
      NulEscapeOutside(s, i);
      OccursAtDrop(s, "%00", m, i);
      DecodeKeepsEncodedNul(s[m..], i - m);
    }
  }

  // ---------------------------------------------------------------------
  // encodeURIComponent, the inverse
  // ---------------------------------------------------------------------

  const HexDigits: string := "0123456789ABCDEF"

  /** The characters encodeURIComponent leaves as they are. */
  predicate IsUnreserved(c: char)
  {
    ('A' <= c <= 'Z') || ('a' <= c <= 'z') || ('0' <= c <= '9') || c in "-_.!~*'()"
  }

  /** The UTF-8 bytes of a scalar value. */
  function Utf8Encode(v: nat): (bs: seq<nat>)
    requires IsScalar(v)
    ensures 1 <= |bs| <= 4 && SequenceLength(bs[0]) == |bs|
    ensures forall j :: 0 <= j < |bs| ==> bs[j] < 256
  {
    if v < 0x80 then [v]
    else if v < 0x800 then [0xC0 + v / 64, 0x80 + v % 64]
    else if v < 0x10000 then [0xE0 + v / 4096, 0x80 + (v / 64) % 64, 0x80 + v % 64]
    else [0xF0 + v / 0x40000, 0x80 + (v / 4096) % 64, 0x80 + (v / 64) % 64, 0x80 + v % 64]
  }

  /** `%XX`: a byte written as two upper-case hex digits after a `%`. */
  function ByteEscape(b: nat): (e: string)
    requires b < 256
    ensures |e| == 3 && e[0] == '%' && '/' !in e
  {
    assert '/' !in HexDigits;
    ['%', HexDigits[b / 16], HexDigits[b % 16]]
  }

  function PercentBytes(bs: seq<nat>): string
    requires forall j :: 0 <= j < |bs| ==> bs[j] < 256
  {
    if bs == [] then []
    else ByteEscape(bs[0]) + PercentBytes(bs[1..])
  }

  function EncodeChar(c: char): string
  {
    if IsUnreserved(c) then [c] else PercentBytes(Utf8Encode(c as int))
  }

  /** `encodeURIComponent(s)`. */
  function Encode(s: string): string
  {
    if s == [] then [] else EncodeChar(s[0]) + Encode(s[1..])
  }

  lemma HexDigitValue(d: nat)
    requires d < 16
    ensures HexValue(HexDigits[d]) == Some(d)
  {
  }

  /** The escape of a byte spells its high and low hex digits, the byte being 16 times the first plus the second. */
  lemma ByteEscapeDigits(b: nat) returns (hi: nat, lo: nat)
    requires b < 256
    ensures hi < 16 && lo < 16 && b == 16 * hi + lo
    ensures ByteEscape(b) == ['%', HexDigits[hi], HexDigits[lo]]
  {
    hi, lo := b / 16, b % 16;
  }

  /** Two hex digits after a `%` read back as the byte they spell. */
  lemma EscapeOfDigits(x: string, hi: nat, lo: nat)
    requires hi < 16 && lo < 16 && |x| >= 3
    requires x[0] == '%' && x[1] == HexDigits[hi] && x[2] == HexDigits[lo]
    ensures EscapeAt(x, 0) == Some(16 * hi + lo)
  {
    HexDigitValue(hi);
    HexDigitValue(lo);
  }

  /** The escape written for a byte reads back as that byte. */
  lemma EscapeOfByte(b: nat, x: string)
    requires b < 256 && |x| >= 3 && x[..3] == ByteEscape(b)
    ensures EscapeAt(x, 0) == Some(b)
  {
    var hi, lo := ByteEscapeDigits(b);
    assert x[0] == x[..3][0] && x[1] == x[..3][1] && x[2] == x[..3][2];
    EscapeOfDigits(x, hi, lo);
  }

  /** One escape in front of `n` more gives `n + 1` bytes. */
  lemma EscapedBytesCons(x: string, b: nat, n: nat, rest: seq<nat>)
    requires EscapeAt(x, 0) == Some(b) && EscapedBytes(x[3..], n) == Some(rest)
    ensures EscapedBytes(x, n + 1) == Some([b] + rest)
  {
  }

  /** The first three characters of a percent-encoded byte string, and what follows them. */
  lemma PercentBytesFront(bs: seq<nat>, rest: string)
    requires bs != [] && forall j :: 0 <= j < |bs| ==> bs[j] < 256
    ensures var x := PercentBytes(bs) + rest;
      |x| >= 3 && x[..3] == ByteEscape(bs[0]) && x[3..] == PercentBytes(bs[1..]) + rest
  {
    assert PercentBytes(bs) + rest == ByteEscape(bs[0]) + (PercentBytes(bs[1..]) + rest);
  }

  lemma {:induction false} EscapedPercentBytes(bs: seq<nat>, rest: string)
    requires forall j :: 0 <= j < |bs| ==> bs[j] < 256
    ensures EscapedBytes(PercentBytes(bs) + rest, |bs|) == Some(bs)
    decreases |bs|
  {
    if bs != [] {
      var x := PercentBytes(bs) + rest;
      PercentBytesFront(bs, rest);
      EscapeOfByte(bs[0], x);
      EscapedPercentBytes(bs[1..], rest);
      EscapedBytesCons(x, bs[0], |bs| - 1, bs[1..]);
      assert [bs[0]] + bs[1..] == bs;
    }
  }

  /** Splits a value into base-64 digits: two of them. */
  lemma Base64Two(v: nat) returns (a: nat, r: nat)
    ensures a == v / 64 && r == v % 64 && r < 64 && v == 64 * a + r
  {
    a, r := v / 64, v % 64;
  }

  /** Splits a value into base-64 digits: three of them. */
  lemma Base64Three(v: nat) returns (a: nat, m: nat, r: nat)
    ensures a == v / 4096 && m == (v / 64) % 64 && r == v % 64
    ensures m < 64 && r < 64 && v == 4096 * a + 64 * m + r
  {
    a, m, r := v / 4096, (v / 64) % 64, v % 64;
    assert v / 64 == (v / 4096) * 64 + (v / 64) % 64;
    assert v == (v / 64) * 64 + v % 64;
  }

  /** Splits a value into base-64 digits: four of them. */
  lemma Base64Four(v: nat) returns (a: nat, h: nat, m: nat, r: nat)
    ensures a == v / 0x40000 && h == (v / 4096) % 64 && m == (v / 64) % 64 && r == v % 64
    ensures h < 64 && m < 64 && r < 64 && v == 0x40000 * a + 4096 * h + 64 * m + r
  {
    a, h, m, r := v / 0x40000, (v / 4096) % 64, (v / 64) % 64, v % 64;
    assert v / 4096 == (v / 0x40000) * 64 + (v / 4096) % 64;
    assert v / 64 == (v / 4096) * 64 + (v / 64) % 64;
    assert v == (v / 64) * 64 + v % 64;
  }

  lemma Utf8RoundTrip(v: nat)
    requires IsScalar(v)
    ensures CodePoint(Utf8Encode(v)) == Some(v)
  {
    if v < 0x80 {
    } else if v < 0x800 {
      var a, r := Base64Two(v);
      Utf8RoundTripTwo(v, a, r);
    } else if v < 0x10000 {
      var a, m, r := Base64Three(v);
      Utf8RoundTripThree(v, a, m, r);
    } else {
      var a, h, m, r := Base64Four(v);
      Utf8RoundTripFour(v, a, h, m, r);
    }
  }

  lemma Utf8RoundTripTwo(v: nat, a: nat, r: nat)
    requires 0x80 <= v < 0x800
    requires a == v / 64 && r == v % 64 && r < 64 && v == 64 * a + r
    ensures CodePoint(Utf8Encode(v)) == Some(v)
  {
    assert Utf8Encode(v) == [0xC0 + a, 0x80 + r];
  }

  lemma Utf8RoundTripThree(v: nat, a: nat, m: nat, r: nat)
    requires 0x800 <= v < 0x10000 && IsScalar(v)
    requires a == v / 4096 && m == (v / 64) % 64 && r == v % 64
    requires m < 64 && r < 64 && v == 4096 * a + 64 * m + r
    ensures CodePoint(Utf8Encode(v)) == Some(v)
  {
    assert Utf8Encode(v) == [0xE0 + a, 0x80 + m, 0x80 + r];
  }

  lemma Utf8RoundTripFour(v: nat, a: nat, h: nat, m: nat, r: nat)
    requires 0x10000 <= v < 0x11_0000
    requires a == v / 0x40000 && h == (v / 4096) % 64 && m == (v / 64) % 64 && r == v % 64
    requires h < 64 && m < 64 && r < 64 && v == 0x40000 * a + 4096 * h + 64 * m + r
    ensures CodePoint(Utf8Encode(v)) == Some(v)
  {
    assert Utf8Encode(v) == [0xF0 + a, 0x80 + h, 0x80 + m, 0x80 + r];
  }

  /** A value written as base-64 digits `q` and `r` divides back into them. */
  lemma SplitBase64(q: nat, r: nat)
    requires r < 64
    ensures (64 * q + r) / 64 == q && (64 * q + r) % 64 == r
  {
  }

  /** The converse of the round trip: a byte sequence that decodes is the encoding of its code point. */
  lemma CodePointEncodes(bs: seq<nat>)
    requires |bs| >= 1 && SequenceLength(bs[0]) == |bs| && CodePoint(bs).Some?
    ensures Utf8Encode(CodePoint(bs).value) == bs
  {
    var v := CodePoint(bs).value;
    if |bs| == 2 {
      EncodesTwo(bs[0] - 0xC0, bs[1] - 0x80, v);
    } else if |bs| == 3 {
      EncodesThree(bs[0] - 0xE0, bs[1] - 0x80, bs[2] - 0x80, v);
    } else if |bs| == 4 {
      EncodesFour(bs[0] - 0xF0, bs[1] - 0x80, bs[2] - 0x80, bs[3] - 0x80, v);
    }
  }

  lemma EncodesTwo(a: nat, r: nat, v: nat)
    requires a < 32 && r < 64 && v == a * 64 + r && IsScalar(v) && 0x80 <= v
    ensures Utf8Encode(v) == [0xC0 + a, 0x80 + r]
  {
    SplitBase64(a, r);
  }

  lemma EncodesThree(a: nat, m: nat, r: nat, v: nat)
    requires a < 16 && m < 64 && r < 64 && v == a * 4096 + m * 64 + r && IsScalar(v) && 0x800 <= v
    ensures Utf8Encode(v) == [0xE0 + a, 0x80 + m, 0x80 + r]
  {
    SplitBase64(64 * a + m, r);
    SplitBase64(a, m);
    assert v / 4096 == (v / 64) / 64;
  }

  lemma EncodesFour(a: nat, h: nat, m: nat, r: nat, v: nat)
    requires a < 8 && h < 64 && m < 64 && r < 64
    requires v == a * 0x40000 + h * 4096 + m * 64 + r && 0x10000 <= v < 0x11_0000
    ensures Utf8Encode(v) == [0xF0 + a, 0x80 + h, 0x80 + m, 0x80 + r]
  {
    SplitBase64(64 * (64 * a + h) + m, r);
    SplitBase64(64 * a + h, m);
    SplitBase64(a, h);
    assert v / 4096 == (v / 64) / 64;
    assert v / 0x40000 == ((v / 64) / 64) / 64;
  }

  /** Decoding after one encoded character yields that character in front of the decoded rest. */
  lemma DecodeEncodedChar(c: char, rest: string)
    ensures Decode(EncodeChar(c) + rest) ==
      match Decode(rest)
      case None => None
      case Some(d) => Some([c] + d)
  {
    var x := EncodeChar(c) + rest;
    if IsUnreserved(c) {
      assert x[0] == c && c != '%';
      assert x[1..] == rest;
    } else {
      var v := c as int;
      var bs := Utf8Encode(v);
      var e := PercentBytes(bs);
      assert |e| == 3 * |bs| by {
        PercentBytesLength(bs);
      }
      EscapedPercentBytes(bs, rest);
      EscapedByteAt(x, |bs|, 0);
      Utf8RoundTrip(v);
      assert x[0] == '%';
      assert DecodeEscape(x) == Some((c, 3 * |bs|));
      assert x[3 * |bs|..] == rest;
    }
  }

  lemma {:induction false} PercentBytesLength(bs: seq<nat>)
    requires forall j :: 0 <= j < |bs| ==> bs[j] < 256
    ensures |PercentBytes(bs)| == 3 * |bs|
    decreases |bs|
  {
    if bs != [] {
      PercentBytesLength(bs[1..]);
    }
  }

  /** Decoding undoes encoding: `decodeURIComponent(encodeURIComponent(s)) == s`. */
  lemma {:induction false} DecodeEncode(s: string)
    ensures Decode(Encode(s)) == Some(s)
    decreases |s|
  {
    if s != [] {
      DecodeEncode(s[1..]);
      DecodeEncodedChar(s[0], Encode(s[1..]));
      assert [s[0]] + s[1..] == s;
    }
  }

  /** No percent escape holds a `/`. */
  lemma {:induction false} PercentBytesNoSlash(bs: seq<nat>)
    requires forall j :: 0 <= j < |bs| ==> bs[j] < 256
    ensures '/' !in PercentBytes(bs)
    decreases |bs|
  {
    if bs != [] {
      PercentBytesNoSlash(bs[1..]);
    }
  }

  /** encodeURIComponent never writes a `/`: a separator in the text comes out as `%2F`. */
  lemma {:induction false} EncodeHasNoSlash(s: string)
    ensures '/' !in Encode(s)
    decreases |s|
  {
    if s != [] {
      if !IsUnreserved(s[0]) {
        PercentBytesNoSlash(Utf8Encode(s[0] as int));
      }
      EncodeHasNoSlash(s[1..]);
    }
  }
}
