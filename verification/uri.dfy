/**
 * `encodeURIComponent`: every character outside the unreserved set is
 * written as the `%XY` escapes of its UTF-8 bytes, with upper-case hex
 * digits. A decoder is given as its inverse, so that the round trip can be
 * stated: an encoded message determines the message.
 */
module Uri {
  import opened Wrappers

  /** The characters `encodeURIComponent` leaves as they are. */
  predicate Unreserved(c: char) {
    || ('A' <= c <= 'Z') || ('a' <= c <= 'z') || ('0' <= c <= '9')
    || c == '-' || c == '_' || c == '.' || c == '!' || c == '~'
    || c == '*' || c == '\'' || c == '(' || c == ')'
  }

  const HexDigits: string := "0123456789ABCDEF"

  function HexDigit(n: nat): char
    requires n < 16
  {
    HexDigits[n]
  }

  /** The value of a hex digit of either case. */
  function HexValue(c: char): (r: Option<nat>)
    ensures r.Some? ==> r.value < 16
  {
    if '0' <= c <= '9' then Some(c as int - '0' as int)
    else if 'A' <= c <= 'F' then Some(c as int - 'A' as int + 10)
    else if 'a' <= c <= 'f' then Some(c as int - 'a' as int + 10)
    else None
  }

  predicate IsByte(b: nat) {
    b < 256
  }

  /** The UTF-8 encoding of one Unicode scalar value. */
  function Utf8(c: char): (bs: seq<nat>)
    ensures 1 <= |bs| <= 4
    ensures forall i :: 0 <= i < |bs| ==> IsByte(bs[i])
  {
    var n := c as int;
    if n < 0x80 then [n]
    else if n < 0x800 then [0xC0 + n / 64, 0x80 + n % 64]
    else if n < 0x10000 then [0xE0 + n / 4096, 0x80 + n / 64 % 64, 0x80 + n % 64]
    else [0xF0 + n / 262144, 0x80 + n / 4096 % 64, 0x80 + n / 64 % 64, 0x80 + n % 64]
  }

  /** `%XY` for one byte. */
  function PercentByte(b: nat): string
    requires IsByte(b)
  {
    ['%', HexDigit(b / 16), HexDigit(b % 16)]
  }

  function PercentBytes(bs: seq<nat>): (r: string)
    requires forall i :: 0 <= i < |bs| ==> IsByte(bs[i])
    ensures |r| == 3 * |bs|
  {
    if |bs| == 0 then [] else PercentByte(bs[0]) + PercentBytes(bs[1..])
  }

  /** Escape `k` of `PercentBytes(bs)` is the escape of byte `bs[k]`. */
  lemma {:induction false} PercentBytesAt(bs: seq<nat>, k: nat)
    requires forall i :: 0 <= i < |bs| ==> IsByte(bs[i])
    requires k < |bs|
    ensures PercentBytes(bs)[3 * k..3 * k + 3] == PercentByte(bs[k])
    decreases k
  {
    var r := PercentBytes(bs);
    if k > 0 {
      PercentBytesAt(bs[1..], k - 1);
      assert r[3 * k..3 * k + 3] == PercentBytes(bs[1..])[3 * (k - 1)..3 * (k - 1) + 3];
    }
  }

  /** A character that can appear in the output of `encodeURIComponent`. */
  predicate UrlSafe(c: char) {
    Unreserved(c) || c == '%'
  }

  predicate AllUrlSafe(s: string) {
    forall i :: 0 <= i < |s| ==> UrlSafe(s[i])
  }

  lemma {:induction false} PercentBytesSafe(bs: seq<nat>)
    requires forall i :: 0 <= i < |bs| ==> IsByte(bs[i])
    ensures AllUrlSafe(PercentBytes(bs))
    decreases |bs|
  {
    if |bs| > 0 {
      PercentBytesSafe(bs[1..]);
      var r := PercentBytes(bs);
      assert r == PercentByte(bs[0]) + PercentBytes(bs[1..]);
      forall i | 0 <= i < |r| ensures UrlSafe(r[i]) {
        if i >= 3 { assert r[i] == PercentBytes(bs[1..])[i - 3]; }
      }
    }
  }

  function EncodeChar(c: char): (r: string)
    ensures AllUrlSafe(r)
  {
    if Unreserved(c) then [c]
    else
      PercentBytesSafe(Utf8(c));
      PercentBytes(Utf8(c))
  }

  /** `encodeURIComponent(s)`. */
  function EncodeURIComponent(s: string): (r: string)
    ensures |r| >= |s|
    ensures AllUrlSafe(r)
    ensures (forall i :: 0 <= i < |s| ==> Unreserved(s[i])) ==> r == s
  {
    if |s| == 0 then []
    else
      var head := EncodeChar(s[0]);
      var tail := EncodeURIComponent(s[1..]);
      assert forall i :: |head| <= i < |head| + |tail| ==> (head + tail)[i] == tail[i - |head|];
      head + tail
  }

  // ----- decoding -------------------------------------------------------------

  /** The byte written as `%XY` at escape position `k` (characters `3k .. 3k+2`) of `s`. */
  function ByteAt(s: string, k: nat): (r: Option<nat>)
    ensures r.Some? ==> IsByte(r.value) && 3 * k + 3 <= |s|
  {
    if 3 * k + 3 <= |s| && s[3 * k] == '%' then
      match (HexValue(s[3 * k + 1]), HexValue(s[3 * k + 2]))
      case (Some(hi), Some(lo)) => Some(16 * hi + lo)
      case _ => None
    else None
  }

  /** The continuation byte at escape position `k`, with its marker bits removed. */
  function ContAt(s: string, k: nat): (r: Option<nat>)
    ensures r.Some? ==> r.value < 64 && 3 * k + 3 <= |s|
  {
    match ByteAt(s, k)
    case Some(b) => if 0x80 <= b < 0xC0 then Some(b - 0x80) else None
    case None => None
  }

  predicate IsScalar(n: int) {
    (0 <= n < 0xD800) || (0xE000 <= n < 0x11_0000)
  }

  function Scalar(n: int, len: nat): Option<(char, nat)> {
    if IsScalar(n) then Some((n as char, 3 * len)) else None
  }

  /** Decodes the UTF-8 escape sequence at the start of `s`: the character and the number of characters it spans. */
  function DecodeEscape(s: string): (r: Option<(char, nat)>)
    ensures r.Some? ==> 0 < r.value.1 <= |s|
  {
    match ByteAt(s, 0)
    case None => None
    case Some(b0) =>
      if b0 < 0x80 then Scalar(b0, 1)
      else if 0xC0 <= b0 < 0xE0 then
        match ContAt(s, 1)
        case Some(c1) => Scalar((b0 - 0xC0) * 64 + c1, 2)
        case None => None
      else if 0xE0 <= b0 < 0xF0 then
        match (ContAt(s, 1), ContAt(s, 2))
        case (Some(c1), Some(c2)) => Scalar((b0 - 0xE0) * 4096 + c1 * 64 + c2, 3)
        case _ => None
      else if 0xF0 <= b0 < 0xF8 then
        match (ContAt(s, 1), ContAt(s, 2), ContAt(s, 3))
        case (Some(c1), Some(c2), Some(c3)) => Scalar((b0 - 0xF0) * 262144 + c1 * 4096 + c2 * 64 + c3, 4)
        case _ => None
      else None
  }

  /** `decodeURIComponent(s)`, or `None` where it would throw a `URIError`. */
  function DecodeURIComponent(s: string): Option<string>
    decreases |s|
  {
    if |s| == 0 then Some([])
    else if s[0] != '%' then
      match DecodeURIComponent(s[1..])
      case Some(t) => Some([s[0]] + t)
      case None => None
    else
      match DecodeEscape(s)
      case None => None
      case Some((c, n)) =>
        match DecodeURIComponent(s[n..])
        case Some(t) => Some([c] + t)
        case None => None
  }

  // ----- round trip -----------------------------------------------------------

  lemma HexRoundTrip(n: nat)
    requires n < 16
    ensures HexValue(HexDigit(n)) == Some(n)
  {
  }

  /** An escape reads back as the byte it was written for. */
  lemma ByteAtEscape(s: string, k: nat, b: nat)
    requires IsByte(b)
    requires 3 * k + 3 <= |s| && s[3 * k..3 * k + 3] == PercentByte(b)
    ensures ByteAt(s, k) == Some(b)
  {
    var hi, lo := b / 16, b % 16;
    assert s[3 * k] == '%' && s[3 * k + 1] == HexDigit(hi) && s[3 * k + 2] == HexDigit(lo) by {
      assert s[3 * k..3 * k + 3][0] == s[3 * k];
      assert s[3 * k..3 * k + 3][1] == s[3 * k + 1];
      assert s[3 * k..3 * k + 3][2] == s[3 * k + 2];
    }
    HexRoundTrip(hi);
    HexRoundTrip(lo);
  }

  /** The escape of byte `bs[k]` reads back as that byte, whatever follows the escapes. */
  lemma ByteAtPercentBytes(bs: seq<nat>, rest: string, k: nat)
    requires forall i :: 0 <= i < |bs| ==> IsByte(bs[i])
    requires k < |bs|
    ensures ByteAt(PercentBytes(bs) + rest, k) == Some(bs[k])
  {
    PercentBytesAt(bs, k);
    EscapeInPrefix(PercentBytes(bs), rest, k, bs[k]);
  }

  lemma EscapeInPrefix(p: string, rest: string, k: nat, b: nat)
    requires IsByte(b)
    requires 3 * k + 3 <= |p| && p[3 * k..3 * k + 3] == PercentByte(b)
    ensures ByteAt(p + rest, k) == Some(b)
  {
    var s := p + rest;
    assert s[3 * k..3 * k + 3] == p[3 * k..3 * k + 3];
    ByteAtEscape(s, k, b);
  }

  lemma Split3(n: int)
    requires 0 <= n
    ensures n / 4096 * 4096 + n / 64 % 64 * 64 + n % 64 == n
  {
    var q := n / 4096;
    var r := n % 4096;
    assert n == 4096 * q + r;
    assert n / 64 == 64 * q + r / 64;
    assert n / 64 % 64 == r / 64;
  }

  lemma Split4(n: int)
    requires 0 <= n
    ensures n / 262144 * 262144 + n / 4096 % 64 * 4096 + n / 64 % 64 * 64 + n % 64 == n
  {
    var q := n / 262144;
    var r := n % 262144;
    assert n == 262144 * q + r;
    assert n / 4096 == 64 * q + r / 4096;
    assert n / 4096 % 64 == r / 4096;
    assert n / 64 % 64 == r / 64 % 64 by {
      assert n / 64 == 4096 * q + r / 64;
    }
    Split3(r);
  }

  /** The escapes of a reserved character decode back to that character and span exactly its encoding. */
  lemma DecodeEncodeChar(c: char, rest: string)
    requires !Unreserved(c)
    ensures DecodeEscape(EncodeChar(c) + rest) == Some((c, |EncodeChar(c)|))
  {
    var bs := Utf8(c);
    var s := EncodeChar(c) + rest;
    assert s == PercentBytes(bs) + rest;
    assert |EncodeChar(c)| == 3 * |bs|;
    forall k | 0 <= k < |bs| ensures ByteAt(s, k) == Some(bs[k]) {
      ByteAtPercentBytes(bs, rest, k);
    }
    DecodeUtf8(s, c);
  }

  /** Escapes holding the UTF-8 bytes of `c` decode to `c`. */
  lemma DecodeUtf8(s: string, c: char)
    requires forall k :: 0 <= k < |Utf8(c)| ==> ByteAt(s, k) == Some(Utf8(c)[k])
    ensures DecodeEscape(s) == Some((c, 3 * |Utf8(c)|))
  {
    var bs := Utf8(c);
    var n := c as int;
    assert IsScalar(n);
    assert ByteAt(s, 0) == Some(bs[0]);
    if n < 0x80 {
    } else if n < 0x800 {
      assert ByteAt(s, 1) == Some(bs[1]);
      DecodeTwo(s, n);
    } else if n < 0x10000 {
      assert ByteAt(s, 1) == Some(bs[1]);
      assert ByteAt(s, 2) == Some(bs[2]);
      DecodeThree(s, n);
    } else {
      assert ByteAt(s, 1) == Some(bs[1]);
      assert ByteAt(s, 2) == Some(bs[2]);
      assert ByteAt(s, 3) == Some(bs[3]);
      DecodeFour(s, n);
    }
  }

  lemma DecodeTwo(s: string, n: int)
    requires 0x80 <= n < 0x800
    requires ByteAt(s, 0) == Some(0xC0 + n / 64) && ByteAt(s, 1) == Some(0x80 + n % 64)
    ensures DecodeEscape(s) == Scalar(n, 2)
  {
    assert ContAt(s, 1) == Some(n % 64);
  }

  lemma DecodeThree(s: string, n: int)
    requires 0x800 <= n < 0x10000
    requires ByteAt(s, 0) == Some(0xE0 + n / 4096)
    requires ByteAt(s, 1) == Some(0x80 + n / 64 % 64) && ByteAt(s, 2) == Some(0x80 + n % 64)
    ensures DecodeEscape(s) == Scalar(n, 3)
  {
    assert ContAt(s, 1) == Some(n / 64 % 64);
    assert ContAt(s, 2) == Some(n % 64);
    Split3(n);
  }

  lemma DecodeFour(s: string, n: int)
    requires 0x10000 <= n < 0x11_0000
    requires ByteAt(s, 0) == Some(0xF0 + n / 262144)
    requires ByteAt(s, 1) == Some(0x80 + n / 4096 % 64)
    requires ByteAt(s, 2) == Some(0x80 + n / 64 % 64) && ByteAt(s, 3) == Some(0x80 + n % 64)
    ensures DecodeEscape(s) == Scalar(n, 4)
  {
    assert ContAt(s, 1) == Some(n / 4096 % 64);
    assert ContAt(s, 2) == Some(n / 64 % 64);
    assert ContAt(s, 3) == Some(n % 64);
    Split4(n);
  }

  /** `decodeURIComponent(encodeURIComponent(s)) == s`. */
  lemma {:induction false} DecodeEncode(s: string)
    ensures DecodeURIComponent(EncodeURIComponent(s)) == Some(s)
    decreases |s|
  {
    if |s| > 0 {
      var e := EncodeURIComponent(s);
      var head := EncodeChar(s[0]);
      assert e == head + EncodeURIComponent(s[1..]);
      DecodeEncode(s[1..]);
      assert [s[0]] + s[1..] == s;
      if Unreserved(s[0]) {
        assert e[0] == s[0];
        assert e[1..] == EncodeURIComponent(s[1..]);
      } else {
        DecodeEncodeChar(s[0], EncodeURIComponent(s[1..]));
        assert head[0] == '%' by { PercentBytesAt(Utf8(s[0]), 0); }
        assert e[0] == '%';
        assert e[|head|..] == EncodeURIComponent(s[1..]);
        assert DecodeEscape(e) == Some((s[0], |head|));
      }
    }
  }

  /** Two messages with the same encoding are the same message. */
  lemma EncodeInjective(s: string, t: string)
    ensures EncodeURIComponent(s) == EncodeURIComponent(t) ==> s == t
  {
    DecodeEncode(s);
    DecodeEncode(t);
  }
}
