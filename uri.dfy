/** `encodeURIComponent` of ECMA-262, which the dashboard applies to the table name and
    to the search text before putting them into a row request. A Dafny `char` is a
    Unicode scalar value, so every string here is well formed and the function never
    raises its `URIError`. */
module UriEncoding {
  import opened Wrappers

  /** The characters `encodeURIComponent` leaves as they are: ASCII letters and digits
      and the marks `-_.!~*'()`. */
  predicate Unreserved(c: char) {
    ('a' <= c <= 'z') || ('A' <= c <= 'Z') || ('0' <= c <= '9')
    || c == '-' || c == '_' || c == '.' || c == '!' || c == '~' || c == '*'
    || c == '\'' || c == '(' || c == ')'
  }

  /** The UTF-8 bytes of one character. */
  function Utf8(c: char): (bytes: seq<nat>)
    ensures 1 <= |bytes| <= 4
    ensures forall i :: 0 <= i < |bytes| ==> bytes[i] < 256
  {
    var cp := c as int;
    if cp < 0x80 then [cp]
    else if cp < 0x800 then [0xC0 + cp / 0x40, 0x80 + cp % 0x40]
    else if cp < 0x10000 then [0xE0 + cp / 0x1000, 0x80 + (cp / 0x40) % 0x40, 0x80 + cp % 0x40]
    else [0xF0 + cp / 0x40000, 0x80 + (cp / 0x1000) % 0x40, 0x80 + (cp / 0x40) % 0x40, 0x80 + cp % 0x40]
  }

  /** An upper-case hexadecimal digit. */
  function HexDigit(d: nat): (h: char)
    requires d < 16
    ensures Unreserved(h)
  {
    "0123456789ABCDEF"[d]
  }

  /** Character `i` of the escapes of `bytes`: a `%`, then the byte's high and low
      hexadecimal digits. */
  function EscapeChar(bytes: seq<nat>, i: nat): (c: char)
    requires forall j :: 0 <= j < |bytes| ==> bytes[j] < 256
    requires i < 3 * |bytes|
    ensures Unreserved(c) || c == '%'
  {
    var b := bytes[i / 3];
    if i % 3 == 0 then '%' else if i % 3 == 1 then HexDigit(b / 16) else HexDigit(b % 16)
  }

  /** `%XY` escapes for a list of bytes. */
  function Escapes(bytes: seq<nat>): (r: string)
    requires forall i :: 0 <= i < |bytes| ==> bytes[i] < 256
    ensures |r| == 3 * |bytes|
    ensures forall i :: 0 <= i < |r| ==> Unreserved(r[i]) || r[i] == '%'
  {
    seq(3 * |bytes|, i requires 0 <= i < 3 * |bytes| => EscapeChar(bytes, i))
  }

  /** The encoding of one character. */
  function EncodeChar(c: char): string {
    if Unreserved(c) then [c] else Escapes(Utf8(c))
  }

  /** `encodeURIComponent(s)`: every character outside the unreserved set replaced by the
      `%XY` escapes of its UTF-8 bytes. The result is empty exactly when `s` is, and
      holds no URL delimiter (`/`, `?`, `&`, `=`, `#`). */
  function EncodeUriComponent(s: string): (r: string)
    ensures |r| == 0 <==> |s| == 0
    ensures |r| >= |s|
    ensures forall i :: 0 <= i < |r| ==> Unreserved(r[i]) || r[i] == '%'
  {
    if s == [] then [] else EncodeChar(s[0]) + EncodeUriComponent(s[1..])
  }

  /** Strings made only of unreserved characters come out unchanged. */
  lemma {:induction false} EncodeKeepsUnreserved(s: string)
    requires forall i :: 0 <= i < |s| ==> Unreserved(s[i])
    ensures EncodeUriComponent(s) == s
  {
    if s != [] {
      EncodeKeepsUnreserved(s[1..]);
    }
  }

  /** No URL delimiter survives encoding: the result never holds `/`, `?`, `&`, `=` or
      `#`. */
  lemma EncodedHasNoDelimiters(s: string)
    ensures var r := EncodeUriComponent(s);
            '/' !in r && '?' !in r && '&' !in r && '=' !in r && '#' !in r
  {
    var r := EncodeUriComponent(s);
    forall i | 0 <= i < |r|
      ensures r[i] != '/' && r[i] != '?' && r[i] != '&' && r[i] != '=' && r[i] != '#'
    {
      assert Unreserved(r[i]) || r[i] == '%';
    }
  }

  // ----- The inverse -----

  predicate IsHexDigit(c: char) {
    ('0' <= c <= '9') || ('A' <= c <= 'F') || ('a' <= c <= 'f')
  }

  /** The value of a hexadecimal digit of either case. */
  function HexValue(c: char): (d: nat)
    requires IsHexDigit(c)
    ensures d < 16
  {
    if '0' <= c <= '9' then c as int - '0' as int
    else if 'A' <= c <= 'F' then c as int - 'A' as int + 10
    else c as int - 'a' as int + 10
  }

  lemma HexDigitValue(d: nat)
    requires d < 16
    ensures IsHexDigit(HexDigit(d)) && HexValue(HexDigit(d)) == d
  {
  }

  /** Whether `r` starts with `count` well-formed `%XY` escapes. */
  predicate EscapesAt(r: string, count: nat) {
    |r| >= 3 * count
    && forall k :: 0 <= k < count ==> r[3 * k] == '%' && IsHexDigit(r[3 * k + 1]) && IsHexDigit(r[3 * k + 2])
  }

  /** The byte of escape number `k`. */
  function ByteAt(r: string, k: nat): (b: nat)
    requires EscapesAt(r, k + 1)
    ensures b < 256
  {
    HexValue(r[3 * k + 1]) * 16 + HexValue(r[3 * k + 2])
  }

  /** The length of the UTF-8 sequence a lead byte announces; 0 for a byte that cannot
      lead one. */
  function SequenceLength(lead: nat): nat {
    if lead < 0x80 then 1
    else if 0xC0 <= lead < 0xE0 then 2
    else if 0xE0 <= lead < 0xF0 then 3
    else if 0xF0 <= lead < 0xF8 then 4
    else 0
  }

  predicate IsContinuation(b: nat) {
    0x80 <= b < 0xC0
  }

  /** The character spelled by the escapes at the start of `r`, with the number of
      characters they take; `None` for a malformed sequence. */
  function DecodeEscapes(r: string): Option<(char, nat)> {
    if !EscapesAt(r, 1) then None
    else
      var b0 := ByteAt(r, 0);
      var n := SequenceLength(b0);
      if n == 0 || !EscapesAt(r, n) then None
      else if n == 1 then Some((b0 as char, 3))
      else if !(forall k :: 1 <= k < n ==> IsContinuation(ByteAt(r, k))) then None
      else
        var cp :=
          if n == 2 then (b0 - 0xC0) * 0x40 + (ByteAt(r, 1) - 0x80)
          else if n == 3 then (b0 - 0xE0) * 0x1000 + (ByteAt(r, 1) - 0x80) * 0x40 + (ByteAt(r, 2) - 0x80)
          else (b0 - 0xF0) * 0x40000 + (ByteAt(r, 1) - 0x80) * 0x1000 + (ByteAt(r, 2) - 0x80) * 0x40
               + (ByteAt(r, 3) - 0x80);
        if (0 <= cp < 0xD800) || (0xE000 <= cp < 0x110000) then Some((cp as char, 3 * n)) else None
  }

  /** Undoes `EncodeUriComponent`: escapes become the characters they spell, anything else
      stays; `None` for a malformed escape. */
  function DecodeUriComponent(r: string): Option<string>
    decreases |r|
  {
    if r == [] then Some([])
    else if r[0] != '%' then
      match DecodeUriComponent(r[1..])
      case None => None
      case Some(rest) => Some([r[0]] + rest)
    else
      match DecodeEscapes(r)
      case None => None
      case Some((c, n)) =>
        if 0 < n <= |r| then
          match DecodeUriComponent(r[n..])
          case None => None
          case Some(rest) => Some([c] + rest)
        else None
  }

  /** Escape number `k` spells byte `k` in two upper-case hexadecimal digits. */
  lemma EscapesLayout(bytes: seq<nat>, k: nat)
    requires forall i :: 0 <= i < |bytes| ==> bytes[i] < 256
    requires k < |bytes|
    ensures Escapes(bytes)[3 * k] == '%'
    ensures Escapes(bytes)[3 * k + 1] == HexDigit(bytes[k] / 16)
    ensures Escapes(bytes)[3 * k + 2] == HexDigit(bytes[k] % 16)
  {
    assert (3 * k) / 3 == k && (3 * k + 1) / 3 == k && (3 * k + 2) / 3 == k;
    assert (3 * k) % 3 == 0 && (3 * k + 1) % 3 == 1 && (3 * k + 2) % 3 == 2;
  }

  /** The escapes of a list of bytes, followed by anything, read back byte by byte. */
  lemma EscapesBytes(bytes: seq<nat>, rest: string)
    requires forall i :: 0 <= i < |bytes| ==> bytes[i] < 256
    ensures EscapesAt(Escapes(bytes) + rest, |bytes|)
    ensures forall k :: 0 <= k < |bytes| ==> ByteAt(Escapes(bytes) + rest, k) == bytes[k]
  {
    var e := Escapes(bytes);
    var r := e + rest;
    forall k | 0 <= k < |bytes|
      ensures r[3 * k] == '%' && IsHexDigit(r[3 * k + 1]) && IsHexDigit(r[3 * k + 2])
      ensures HexValue(r[3 * k + 1]) * 16 + HexValue(r[3 * k + 2]) == bytes[k]
    {
      EscapesLayout(bytes, k);
      assert r[3 * k] == e[3 * k] && r[3 * k + 1] == e[3 * k + 1] && r[3 * k + 2] == e[3 * k + 2];
      HexDigitValue(bytes[k] / 16);
      HexDigitValue(bytes[k] % 16);
    }
  }

  /** The escapes of one character's UTF-8 bytes decode to that character. */
  lemma Utf8RoundTrip(c: char, rest: string)
    requires !Unreserved(c)
    ensures DecodeEscapes(Escapes(Utf8(c)) + rest) == Some((c, |Escapes(Utf8(c))|))
  {
    var bytes := Utf8(c);
    var r := Escapes(bytes) + rest;
    EscapesBytes(bytes, rest);
    var cp := c as int;
    if cp < 0x80 {
      assert ByteAt(r, 0) == cp;
    } else if cp < 0x800 {
      TwoByteRoundTrip(c, r);
    } else if cp < 0x10000 {
      ThreeByteRoundTrip(c, r);
    } else {
      FourByteRoundTrip(c, r);
    }
  }

  lemma TwoByteRoundTrip(c: char, r: string)
    requires 0x80 <= c as int < 0x800
    requires EscapesAt(r, 2)
    requires ByteAt(r, 0) == Utf8(c)[0] && ByteAt(r, 1) == Utf8(c)[1]
    ensures DecodeEscapes(r) == Some((c, 6))
  {
    TwoByteArithmetic(c as int);
    assert SequenceLength(ByteAt(r, 0)) == 2;
    assert forall k :: 1 <= k < 2 ==> IsContinuation(ByteAt(r, k));
  }

  /** The two bytes of a code point below 0x800: a lead byte, a continuation byte, and
      their payload bits spell the code point again. */
  lemma TwoByteArithmetic(cp: int)
    requires 0x80 <= cp < 0x800
    ensures var b0, b1 := 0xC0 + cp / 0x40, 0x80 + cp % 0x40;
      0xC0 <= b0 < 0xE0 && IsContinuation(b1) && (b0 - 0xC0) * 0x40 + (b1 - 0x80) == cp
  {
  }

  lemma ThreeByteRoundTrip(c: char, r: string)
    requires 0x800 <= c as int < 0x10000
    requires EscapesAt(r, 3)
    requires ByteAt(r, 0) == Utf8(c)[0] && ByteAt(r, 1) == Utf8(c)[1] && ByteAt(r, 2) == Utf8(c)[2]
    ensures DecodeEscapes(r) == Some((c, 9))
  {
    ThreeByteArithmetic(c as int);
    assert SequenceLength(ByteAt(r, 0)) == 3;
    assert forall k :: 1 <= k < 3 ==> IsContinuation(ByteAt(r, k));
  }

  /** The three bytes of a code point below 0x10000. */
  lemma ThreeByteArithmetic(cp: int)
    requires 0x800 <= cp < 0x10000
    ensures var b0, b1, b2 := 0xE0 + cp / 0x1000, 0x80 + (cp / 0x40) % 0x40, 0x80 + cp % 0x40;
      0xE0 <= b0 < 0xF0 && IsContinuation(b1) && IsContinuation(b2)
      && (b0 - 0xE0) * 0x1000 + (b1 - 0x80) * 0x40 + (b2 - 0x80) == cp
  {
    var q1, d0 := cp / 0x40, cp % 0x40;
    var q2, d1 := q1 / 0x40, q1 % 0x40;
    assert cp == 0x40 * q1 + d0 && q1 == 0x40 * q2 + d1;
    assert cp == 0x1000 * q2 + (0x40 * d1 + d0);
    assert cp / 0x1000 == q2;
  }

  lemma FourByteRoundTrip(c: char, r: string)
    requires 0x10000 <= c as int
    requires EscapesAt(r, 4)
    requires ByteAt(r, 0) == Utf8(c)[0] && ByteAt(r, 1) == Utf8(c)[1]
    requires ByteAt(r, 2) == Utf8(c)[2] && ByteAt(r, 3) == Utf8(c)[3]
    ensures DecodeEscapes(r) == Some((c, 12))
  {
    var cp := c as int;
    FourByteArithmetic(cp);
    assert SequenceLength(ByteAt(r, 0)) == 4;
    assert forall k :: 1 <= k < 4 ==> IsContinuation(ByteAt(r, k));
  }

  /** The four bytes of a supplementary code point: a lead byte, three continuation
      bytes, and their payload bits spell the code point again. */
  lemma FourByteArithmetic(cp: int)
    requires 0x10000 <= cp < 0x110000
    ensures var b0, b1, b2, b3 := 0xF0 + cp / 0x40000, 0x80 + (cp / 0x1000) % 0x40,
                                  0x80 + (cp / 0x40) % 0x40, 0x80 + cp % 0x40;
      0xF0 <= b0 < 0xF8 && IsContinuation(b1) && IsContinuation(b2) && IsContinuation(b3)
      && (b0 - 0xF0) * 0x40000 + (b1 - 0x80) * 0x1000 + (b2 - 0x80) * 0x40 + (b3 - 0x80) == cp
  {
    var q1, d0 := cp / 0x40, cp % 0x40;
    var q2, d1 := q1 / 0x40, q1 % 0x40;
    var q3, d2 := q2 / 0x40, q2 % 0x40;
    assert cp == 0x40 * q1 + d0 && q1 == 0x40 * q2 + d1 && q2 == 0x40 * q3 + d2;
    assert cp == 0x1000 * q2 + (0x40 * d1 + d0);
    assert cp / 0x1000 == q2;
    assert cp == 0x40000 * q3 + (0x1000 * d2 + 0x40 * d1 + d0);
    assert cp / 0x40000 == q3;
  }

  /** Decoding one encoded character followed by an encoded rest. */
  lemma EncodeCharRoundTrip(c: char, rest: string)
    ensures DecodeUriComponent(EncodeChar(c) + rest) ==
            match DecodeUriComponent(rest)
            case None => None
            case Some(s) => Some([c] + s)
  {
    var r := EncodeChar(c) + rest;
    if Unreserved(c) {
      assert r[1..] == rest;
    } else {
      Utf8RoundTrip(c, rest);
      assert r[|EncodeChar(c)|..] == rest;
    }
  }

  /** Decoding undoes encoding, so `EncodeUriComponent` is injective: two different
      texts never give the same URL component. */
  lemma {:induction false} EncodeRoundTrip(s: string)
    ensures DecodeUriComponent(EncodeUriComponent(s)) == Some(s)
  {
    if s != [] {
      EncodeRoundTrip(s[1..]);
      EncodeCharRoundTrip(s[0], EncodeUriComponent(s[1..]));
      assert [s[0]] + s[1..] == s;
    }
  }

  lemma EncodeInjective(a: string, b: string)
    requires EncodeUriComponent(a) == EncodeUriComponent(b)
    ensures a == b
  {
    EncodeRoundTrip(a);
    EncodeRoundTrip(b);
  }
}
