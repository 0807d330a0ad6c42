/** JavaScript's `encodeURIComponent`, which the search box applies to the
    trimmed term before putting it in the `q` parameter, and the
    percent-decoding that reads the parameter back: every character outside
    the unreserved set becomes the `%XX` escapes of its UTF-8 bytes. */
module Uri {
  import opened Rows

  /** The characters `encodeURIComponent` leaves as they are. */
  predicate Unreserved(c: char)
  {
    || ('A' <= c <= 'Z') || ('a' <= c <= 'z') || ('0' <= c <= '9')
    || c == '-' || c == '_' || c == '.' || c == '!' || c == '~'
    || c == '*' || c == '\'' || c == '(' || c == ')'
  }

  predicate IsByte(b: int)
  {
    0 <= b < 256
  }

  /** A Unicode scalar value: a code point that is not a surrogate. */
  predicate IsScalar(cp: int)
  {
    0 <= cp < 0x11_0000 && !(0xD800 <= cp < 0xE000)
  }

  /** The UTF-8 encoding of a code point: one to four bytes, the number of
      bytes fixed by the size of the code point. */
  function Utf8(cp: int): (bytes: seq<int>)
    requires 0 <= cp < 0x11_0000
    ensures 1 <= |bytes| <= 4
    ensures forall i :: 0 <= i < |bytes| ==> IsByte(bytes[i])
    ensures |bytes| == 1 <==> cp < 0x80
  {
    if cp < 0x80 then [cp]
    else if cp < 0x800 then [0xC0 + cp / 64, 0x80 + cp % 64]
    else if cp < 0x1_0000 then [0xE0 + cp / 4096, 0x80 + (cp / 64) % 64, 0x80 + cp % 64]
    else [0xF0 + cp / 262144, 0x80 + (cp / 4096) % 64, 0x80 + (cp / 64) % 64, 0x80 + cp % 64]
  }

  /** The upper-case hexadecimal digit of a value below 16. */
  function HexDigit(n: int): (c: char)
    requires 0 <= n < 16
    ensures Unreserved(c)
  {
    if n < 10 then ('0' as int + n) as char else ('A' as int + n - 10) as char
  }

  /** The value of a hexadecimal digit of either case. */
  function HexValue(c: char): (v: Option<int>)
    ensures v.Some? ==> 0 <= v.value < 16
    ensures forall n :: 0 <= n < 16 && c == HexDigit(n) ==> v == Some(n)
  {
    if '0' <= c <= '9' then Some(c as int - '0' as int)
    else if 'A' <= c <= 'F' then Some(c as int - 'A' as int + 10)
    else if 'a' <= c <= 'f' then Some(c as int - 'a' as int + 10)
    else None
  }

  /** The two hexadecimal digits of a byte, high one first. */
  function High(b: int): (n: int)
    requires IsByte(b)
    ensures 0 <= n < 16
  {
    b / 16
  }

  function Low(b: int): (n: int)
    requires IsByte(b)
    ensures 0 <= n < 16 && 16 * High(b) + n == b
  {
    b % 16
  }

  /** Character `j` (0, 1 or 2) of the escape `%XY` of byte `b`. */
  function EscapeChar(b: int, j: int): (c: char)
    requires IsByte(b) && 0 <= j < 3
    ensures c == '%' || Unreserved(c)
  {
    if j == 0 then '%' else if j == 1 then HexDigit(High(b)) else HexDigit(Low(b))
  }

  /** The escapes `%XY%XY...` of a byte sequence. */
  function Escapes(bytes: seq<int>): (r: string)
    requires forall i :: 0 <= i < |bytes| ==> IsByte(bytes[i])
    ensures |r| == 3 * |bytes|
    ensures forall i :: 0 <= i < |bytes| ==>
      r[3 * i] == '%' && r[3 * i + 1] == HexDigit(High(bytes[i])) && r[3 * i + 2] == HexDigit(Low(bytes[i]))
    ensures forall k :: 0 <= k < |r| ==> r[k] == '%' || Unreserved(r[k])
  {
    var r := seq(3 * |bytes|, k requires 0 <= k < 3 * |bytes| => EscapeChar(bytes[k / 3], k % 3));
    forall i | 0 <= i < |bytes| {
      Thirds(i);
    }
    r
  }

  /** The three positions of the `i`-th escape all belong to byte `i`. */
  lemma Thirds(i: nat)
    ensures (3 * i) / 3 == i && (3 * i + 1) / 3 == i && (3 * i + 2) / 3 == i
    ensures (3 * i) % 3 == 0 && (3 * i + 1) % 3 == 1 && (3 * i + 2) % 3 == 2
  {
  }

  /** One character as `encodeURIComponent` writes it. */
  function EncodeChar(c: char): (r: string)
    ensures r != []
    ensures forall k :: 0 <= k < |r| ==> r[k] == '%' || Unreserved(r[k])
  {
    if Unreserved(c) then [c] else Escapes(Utf8(c as int))
  }

  /** `encodeURIComponent(s)`. Its output holds only unreserved characters and
      `%`, so it cannot end the `q` parameter early (`&`, `#`) or change its
      meaning (`+`, `=`, space). */
  function EncodeURIComponent(s: string): (r: string)
    ensures forall k :: 0 <= k < |r| ==> r[k] == '%' || Unreserved(r[k])
    ensures |r| >= |s|
  {
    if s == [] then []
    else EncodeChar(s[0]) + EncodeURIComponent(s[1..])
  }

  /** The byte written as `%XY` at position `i` of `s`, if there is one. */
  function ByteAt(s: string, i: int): (b: Option<int>)
    requires 0 <= i
    ensures b.Some? ==> IsByte(b.value)
  {
    if i + 3 <= |s| && s[i] == '%' then
      match (HexValue(s[i + 1]), HexValue(s[i + 2]))
      case (Some(h), Some(l)) => Some(16 * h + l)
      case _ => None
    else None
  }

  /** The low six bits of a UTF-8 continuation byte (`10xxxxxx`) written at
      position `i` of `s`. */
  function ContinuationAt(s: string, i: int): (v: Option<int>)
    requires 0 <= i
    ensures v.Some? ==> 0 <= v.value < 64
  {
    match ByteAt(s, i)
    case Some(b) => if 0x80 <= b < 0xC0 then Some(b - 0x80) else None
    case None => None
  }

  /** The character of code point `cp` if it is a scalar value of at least
      `least` (the smallest code point that needs that many bytes, so an
      over-long form is refused), together with the input length `n` it took. */
  function Scalar(cp: int, least: int, n: nat): (r: Option<(char, nat)>)
    ensures r.Some? ==> r.value.1 == n && r.value.0 as int == cp
  {
    if least <= cp && IsScalar(cp) then Some((cp as char, n)) else None
  }

  /** The first character that `s` (non-empty) decodes to and the number of
      input characters it took: a plain character, or one to four escapes
      forming a well-formed UTF-8 sequence. None on a malformed escape. */
  function DecodeUnit(s: string): (r: Option<(char, nat)>)
    requires s != []
    ensures r.Some? ==> 1 <= r.value.1 <= |s|
  {
    if s[0] != '%' then Some((s[0], 1))
    else
      match ByteAt(s, 0)
      case None => None
      case Some(b0) => DecodeSequence(s, b0)
  }

  /** The UTF-8 sequence whose lead byte `b0` is written at the start of `s`:
      the lead byte's high bits give its length, each further byte must be a
      continuation byte, and the code point must be a scalar value that
      needs that many bytes. */
  function DecodeSequence(s: string, b0: int): (r: Option<(char, nat)>)
    requires 3 <= |s| && IsByte(b0)
    ensures r.Some? ==> 1 <= r.value.1 <= |s|
  {
    if b0 < 0x80 then Some((b0 as char, 3))
    else if 0xC0 <= b0 < 0xE0 then Decode2(s, b0)
    else if 0xE0 <= b0 < 0xF0 then Decode3(s, b0)
    else if 0xF0 <= b0 < 0xF8 then Decode4(s, b0)
    else None
  }

  function Decode2(s: string, b0: int): (r: Option<(char, nat)>)
    ensures r.Some? ==> r.value.1 == 6 <= |s|
  {
    match ContinuationAt(s, 3)
    case Some(c1) => Scalar((b0 - 0xC0) * 64 + c1, 0x80, 6)
    case None => None
  }

  function Decode3(s: string, b0: int): (r: Option<(char, nat)>)
    ensures r.Some? ==> r.value.1 == 9 <= |s|
  {
    match (ContinuationAt(s, 3), ContinuationAt(s, 6))
    case (Some(c1), Some(c2)) => Scalar((b0 - 0xE0) * 4096 + c1 * 64 + c2, 0x800, 9)
    case _ => None
  }

  function Decode4(s: string, b0: int): (r: Option<(char, nat)>)
    ensures r.Some? ==> r.value.1 == 12 <= |s|
  {
    match (ContinuationAt(s, 3), ContinuationAt(s, 6), ContinuationAt(s, 9))
    case (Some(c1), Some(c2), Some(c3)) =>
      Scalar((b0 - 0xF0) * 262144 + c1 * 4096 + c2 * 64 + c3, 0x1_0000, 12)
    case _ => None
  }

  /** The percent-decoding of a whole parameter value; None when it holds a
      malformed escape. */
  function DecodeURIComponent(s: string): (r: Option<string>)
    decreases |s|
  {
    if s == [] then Some([])
    else
      match DecodeUnit(s)
      case None => None
      case Some((c, n)) =>
        match DecodeURIComponent(s[n..])
        case None => None
        case Some(t) => Some([c] + t)
  }

  /** The escape of byte `b` written at position `i` reads back as `b`. */
  lemma {:induction false} ByteAtEscape(s: string, i: nat, b: int)
    requires IsByte(b) && i + 3 <= |s|
    requires s[i] == '%' && s[i + 1] == HexDigit(High(b)) && s[i + 2] == HexDigit(Low(b))
    ensures ByteAt(s, i) == Some(b)
  {
    assert HexValue(s[i + 1]) == Some(High(b));
    assert HexValue(s[i + 2]) == Some(Low(b));
  }

  /** Every escape of `Escapes(bytes)` reads back as its byte, whatever follows. */
  lemma {:induction false} ByteAtEscapes(bytes: seq<int>, rest: string)
    requires forall i :: 0 <= i < |bytes| ==> IsByte(bytes[i])
    ensures forall i :: 0 <= i < |bytes| ==> ByteAt(Escapes(bytes) + rest, 3 * i) == Some(bytes[i])
  {
    var e := Escapes(bytes);
    var s := e + rest;
    forall i | 0 <= i < |bytes|
      ensures ByteAt(s, 3 * i) == Some(bytes[i])
    {
      var b := bytes[i];
      assert e[3 * i] == '%' && e[3 * i + 1] == HexDigit(High(b)) && e[3 * i + 2] == HexDigit(Low(b));
      assert s[3 * i] == e[3 * i] && s[3 * i + 1] == e[3 * i + 1] && s[3 * i + 2] == e[3 * i + 2];
      ByteAtEscape(s, 3 * i, b);
    }
  }

  lemma Split64(cp: int)
    requires 0 <= cp
    ensures cp == (cp / 64) * 64 + cp % 64 && 0 <= cp % 64 < 64
  {
  }

  lemma Split4096(cp: int)
    requires 0 <= cp
    ensures cp / 4096 == (cp / 64) / 64
    ensures cp == (cp / 4096) * 4096 + ((cp / 64) % 64) * 64 + cp % 64
  {
    var q, r := cp / 64, cp % 64;
    var q2, r2 := q / 64, q % 64;
    assert cp == 4096 * q2 + (64 * r2 + r);
    assert 0 <= 64 * r2 + r < 4096;
  }

  lemma Split262144(cp: int)
    requires 0 <= cp
    ensures cp / 262144 == (cp / 4096) / 64
    ensures cp == (cp / 262144) * 262144 + ((cp / 4096) % 64) * 4096 + ((cp / 64) % 64) * 64 + cp % 64
  {
    Split4096(cp);
    var q, r := cp / 4096, cp % 4096;
    var q2, r2 := q / 64, q % 64;
    assert cp == 262144 * q2 + (4096 * r2 + r);
    assert 0 <= 4096 * r2 + r < 262144;
  }

  /** Reading the escapes of the UTF-8 bytes of a character that is not
      unreserved gives back the character and consumes exactly those escapes. */
  lemma {:induction false} DecodeEscapes(c: char, rest: string)
    requires !Unreserved(c)
    ensures DecodeUnit(EncodeChar(c) + rest) == Some((c, |EncodeChar(c)|))
  {
    var cp := c as int;
    if cp < 0x80 {
      DecodeEscapes1(c, rest);
    } else if cp < 0x800 {
      DecodeEscapes2(c, rest);
    } else if cp < 0x1_0000 {
      DecodeEscapes3(c, rest);
    } else {
      DecodeEscapes4(c, rest);
    }
  }

  /** The escapes of `c` followed by `rest`, and the bytes they spell. */
  lemma {:induction false} EscapedBytes(c: char, rest: string) returns (s: string, bytes: seq<int>)
    requires !Unreserved(c)
    ensures bytes == Utf8(c as int) && s == EncodeChar(c) + rest
    ensures |EncodeChar(c)| == 3 * |bytes| && s[0] == '%'
    ensures ByteAt(s, 0) == Some(bytes[0])
    ensures |bytes| > 1 ==> ByteAt(s, 3) == Some(bytes[1])
    ensures |bytes| > 2 ==> ByteAt(s, 6) == Some(bytes[2])
    ensures |bytes| > 3 ==> ByteAt(s, 9) == Some(bytes[3])
  {
    bytes := Utf8(c as int);
    s := EncodeChar(c) + rest;
    assert EncodeChar(c) == Escapes(bytes);
    ByteAtEscapes(bytes, rest);
    assert ByteAt(s, 3 * 0) == Some(bytes[0]);
    if |bytes| > 1 { assert ByteAt(s, 3 * 1) == Some(bytes[1]); }
    if |bytes| > 2 { assert ByteAt(s, 3 * 2) == Some(bytes[2]); }
    if |bytes| > 3 { assert ByteAt(s, 3 * 3) == Some(bytes[3]); }
  }

  lemma {:induction false} DecodeEscapes1(c: char, rest: string)
    requires !Unreserved(c) && c as int < 0x80
    ensures DecodeUnit(EncodeChar(c) + rest) == Some((c, |EncodeChar(c)|))
  {
    var s, bytes := EscapedBytes(c, rest);
    assert ByteAt(s, 0) == Some(c as int);
  }

  lemma {:induction false} DecodeEscapes2(c: char, rest: string)
    requires 0x80 <= c as int < 0x800
    ensures DecodeUnit(EncodeChar(c) + rest) == Some((c, |EncodeChar(c)|))
  {
    var cp := c as int;
    var q, r := cp / 64, cp % 64;
    assert Utf8(cp) == [0xC0 + q, 0x80 + r];
    Split64(cp);
    var s, bytes := EscapedBytes(c, rest);
    assert ByteAt(s, 0) == Some(0xC0 + q) && ByteAt(s, 3) == Some(0x80 + r);
    Decode2Lead(s, c, q, r);
  }

  lemma {:induction false} Decode2Lead(s: string, c: char, q: int, r: int)
    requires 0 <= r < 64 && c as int == q * 64 + r && 0x80 <= c as int < 0x800
    requires ByteAt(s, 0) == Some(0xC0 + q) && ByteAt(s, 3) == Some(0x80 + r)
    ensures 3 <= |s| && DecodeSequence(s, 0xC0 + q) == Some((c, 6))
  {
    ContinuationOf(s, 3, r);
    assert Decode2(s, 0xC0 + q) == Scalar(c as int, 0x80, 6);
    ScalarOf(c, 0x80, 6);
  }

  lemma {:induction false} DecodeEscapes3(c: char, rest: string)
    requires 0x800 <= c as int < 0x1_0000
    ensures DecodeUnit(EncodeChar(c) + rest) == Some((c, |EncodeChar(c)|))
  {
    var cp := c as int;
    var q, r1, r2 := cp / 4096, (cp / 64) % 64, cp % 64;
    assert Utf8(cp) == [0xE0 + q, 0x80 + r1, 0x80 + r2];
    Split4096(cp);
    var s, bytes := EscapedBytes(c, rest);
    assert ByteAt(s, 0) == Some(0xE0 + q) && ByteAt(s, 3) == Some(0x80 + r1) && ByteAt(s, 6) == Some(0x80 + r2);
    Decode3Lead(s, c, q, r1, r2);
  }

  lemma {:induction false} Decode3Lead(s: string, c: char, q: int, r1: int, r2: int)
    requires 0 <= r1 < 64 && 0 <= r2 < 64 && c as int == q * 4096 + r1 * 64 + r2
    requires 0x800 <= c as int < 0x1_0000
    requires ByteAt(s, 0) == Some(0xE0 + q) && ByteAt(s, 3) == Some(0x80 + r1) && ByteAt(s, 6) == Some(0x80 + r2)
    ensures 3 <= |s| && DecodeSequence(s, 0xE0 + q) == Some((c, 9))
  {
    assert 0 <= q < 16;
    ContinuationOf(s, 3, r1);
    ContinuationOf(s, 6, r2);
    assert Decode3(s, 0xE0 + q) == Scalar(c as int, 0x800, 9);
    ScalarOf(c, 0x800, 9);
  }

  lemma {:induction false} DecodeEscapes4(c: char, rest: string)
    requires 0x1_0000 <= c as int
    ensures DecodeUnit(EncodeChar(c) + rest) == Some((c, |EncodeChar(c)|))
  {
    var q, r1, r2, r3 := FourBytes(c);
    var s, bytes := EscapedBytes(c, rest);
    assert ByteAt(s, 0) == Some(0xF0 + q) && ByteAt(s, 3) == Some(0x80 + r1);
    assert ByteAt(s, 6) == Some(0x80 + r2) && ByteAt(s, 9) == Some(0x80 + r3);
    Decode4Lead(s, c, q, r1, r2, r3);
  }

  /** The four bytes of a code point from U+10000 on, as digits in base 64. */
  lemma FourBytes(c: char) returns (q: int, r1: int, r2: int, r3: int)
    requires 0x1_0000 <= c as int
    ensures 0 <= r1 < 64 && 0 <= r2 < 64 && 0 <= r3 < 64
    ensures c as int == q * 262144 + r1 * 4096 + r2 * 64 + r3
    ensures Utf8(c as int) == [0xF0 + q, 0x80 + r1, 0x80 + r2, 0x80 + r3]
  {
    var cp := c as int;
    q, r1, r2, r3 := cp / 262144, (cp / 4096) % 64, (cp / 64) % 64, cp % 64;
    Split262144(cp);
  }

  lemma {:induction false} Decode4Lead(s: string, c: char, q: int, r1: int, r2: int, r3: int)
    requires 0 <= r1 < 64 && 0 <= r2 < 64 && 0 <= r3 < 64
    requires c as int == q * 262144 + r1 * 4096 + r2 * 64 + r3 && 0x1_0000 <= c as int
    requires ByteAt(s, 0) == Some(0xF0 + q) && ByteAt(s, 3) == Some(0x80 + r1)
    requires ByteAt(s, 6) == Some(0x80 + r2) && ByteAt(s, 9) == Some(0x80 + r3)
    ensures 3 <= |s| && DecodeSequence(s, 0xF0 + q) == Some((c, 12))
  {
    assert 0 <= q < 5;
    ContinuationOf(s, 3, r1);
    ContinuationOf(s, 6, r2);
    ContinuationOf(s, 9, r3);
    assert Decode4(s, 0xF0 + q) == Scalar(c as int, 0x1_0000, 12);
    ScalarOf(c, 0x1_0000, 12);
  }

  /** A character of code point at least `least` is its own scalar value. */
  lemma ScalarOf(c: char, least: int, n: nat)
    requires least <= c as int
    ensures Scalar(c as int, least, n) == Some((c, n))
  {
  }

  /** A continuation byte `0x80 + r` written at `i` reads back as `r`. */
  lemma ContinuationOf(s: string, i: nat, r: int)
    requires 0 <= r < 64 && ByteAt(s, i) == Some(0x80 + r)
    ensures ContinuationAt(s, i) == Some(r)
  {
  }

  /** One decoding step: a first character that decodes, followed by a rest
      that decodes, decodes to that character followed by the rest. */
  lemma DecodeStep(u: string, c: char, n: nat, t: string)
    requires u != [] && DecodeUnit(u) == Some((c, n))
    requires DecodeURIComponent(u[n..]) == Some(t)
    ensures DecodeURIComponent(u) == Some([c] + t)
  {
  }

  /** The first character of an encoding decodes back, whether it was written
      plain or as escapes, and takes exactly its own encoding. */
  lemma {:induction false} DecodeFirst(c: char, rest: string)
    ensures DecodeUnit(EncodeChar(c) + rest) == Some((c, |EncodeChar(c)|))
  {
    if Unreserved(c) {
      assert (EncodeChar(c) + rest)[0] == c != '%';
    } else {
      DecodeEscapes(c, rest);
    }
  }

  /** Decoding undoes encoding: the value the page reads from `q` is the term
      the search box encoded. */
  lemma {:induction false} DecodeEncode(s: string)
    ensures DecodeURIComponent(EncodeURIComponent(s)) == Some(s)
    decreases |s|
  {
    if s != [] {
      var e := EncodeChar(s[0]);
      var t := EncodeURIComponent(s[1..]);
      var u := e + t;
      var n: nat := |e|;
      assert EncodeURIComponent(s) == u;
      DecodeFirst(s[0], t);
      assert u[n..] == t;
      DecodeEncode(s[1..]);
      DecodeStep(u, s[0], n, s[1..]);
      assert s == [s[0]] + s[1..];
    }
  }
}
