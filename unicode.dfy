/**
 * JavaScript strings as the page script sees them: sequences of UTF-16 code
 * units, which may hold unpaired ("lone") surrogates.  Decoding them into code
 * points follows the abstract operations CodePointAt and UTF16EncodeCodePoint
 * of ECMA-262; the UTF-8 form of a code point follows section 3 of
 * RFC 3629.
 */
module Unicode {
  import opened Wrappers

  /** One UTF-16 code unit. */
  type CodeUnit = u: int | 0 <= u < 0x1_0000

  /** One octet. */
  type Byte = b: int | 0 <= b < 0x100

  /** A JavaScript string value. */
  type JsString = seq<CodeUnit>

  predicate IsHighSurrogate(u: int) { 0xD800 <= u < 0xDC00 }

  predicate IsLowSurrogate(u: int) { 0xDC00 <= u < 0xE000 }

  predicate IsSurrogate(u: int) { 0xD800 <= u < 0xE000 }

  /** A Unicode scalar value: a code point that is not a surrogate. */
  predicate IsScalar(cp: int) { 0 <= cp < 0x11_0000 && !IsSurrogate(cp) }

  /** Every unit is an ASCII character. */
  predicate IsAscii(s: JsString) { forall i | 0 <= i < |s| :: s[i] < 0x80 }

  /** A string literal written with ASCII characters only, as a JavaScript string. */
  function Ascii(s: string): (r: JsString)
    requires forall i | 0 <= i < |s| :: (s[i] as int) < 0x80
    ensures |r| == |s| && IsAscii(r)
    ensures forall i | 0 <= i < |s| :: r[i] == s[i] as int
  {
    seq(|s|, i requires 0 <= i < |s| => s[i] as int)
  }

  /** The code units of one code point (UTF16EncodeCodePoint). */
  function EncodeCodePoint(cp: int): (r: JsString)
    requires IsScalar(cp)
    ensures |r| == (if cp < 0x1_0000 then 1 else 2)
    ensures cp < 0x1_0000 ==> r[0] == cp
    ensures cp >= 0x1_0000 ==> IsHighSurrogate(r[0]) && IsLowSurrogate(r[1])
  {
    if cp < 0x1_0000 then [cp]
    else [0xD800 + (cp - 0x1_0000) / 0x400, 0xDC00 + (cp - 0x1_0000) % 0x400]
  }

  /** What CodePointAt finds at the head of a non-empty string. */
  datatype Decoded = Lone | Point(cp: int, width: nat)

  /**
   * The code point at the head of `s`: a high surrogate followed by a low one
   * form a pair; any other surrogate is unpaired; every other unit stands for
   * itself.  The found code point re-encodes to exactly the units it covers.
   */
  function CodePointAt(s: JsString): (d: Decoded)
    requires |s| > 0
    ensures d.Lone? <==> IsSurrogate(s[0]) && !(IsHighSurrogate(s[0]) && |s| > 1 && IsLowSurrogate(s[1]))
    ensures d.Point? ==> IsScalar(d.cp) && 1 <= d.width <= |s| && EncodeCodePoint(d.cp) == s[..d.width]
  {
    if IsHighSurrogate(s[0]) && |s| > 1 && IsLowSurrogate(s[1]) then
      var cp := 0x1_0000 + (s[0] as int - 0xD800) * 0x400 + (s[1] as int - 0xDC00);
      assert (cp - 0x1_0000) / 0x400 == s[0] as int - 0xD800;
      assert (cp - 0x1_0000) % 0x400 == s[1] as int - 0xDC00;
      Point(cp, 2)
    else if IsSurrogate(s[0]) then
      Lone
    else
      Point(s[0], 1)
  }

  /**
   * The unit at `i` is not an unpaired surrogate: a high surrogate is followed
   * by a low one and a low surrogate is preceded by a high one.
   */
  predicate PairedAt(s: JsString, i: int)
    requires 0 <= i < |s|
  {
    && (IsHighSurrogate(s[i]) ==> i + 1 < |s| && IsLowSurrogate(s[i + 1]))
    && (IsLowSurrogate(s[i]) ==> i > 0 && IsHighSurrogate(s[i - 1]))
  }

  /** Declarative well-formedness: no unit of the string is an unpaired surrogate. */
  predicate WellFormed(s: JsString) {
    forall i | 0 <= i < |s| :: PairedAt(s, i)
  }

  /** Consuming the code point at the head keeps well-formedness in both directions. */
  lemma WellFormedTail(s: JsString)
    requires |s| > 0 && CodePointAt(s).Point?
    ensures WellFormed(s) <==> WellFormed(s[CodePointAt(s).width..])
  {
    var w := CodePointAt(s).width;
    var t := s[w..];
    if WellFormed(s) {
      forall j | 0 <= j < |t|
        ensures PairedAt(t, j)
      {
        var i := j + w;
        assert PairedAt(s, i) && s[i] == t[j];
        if j + 1 < |t| {
          assert s[i + 1] == t[j + 1];
        }
        if j > 0 {
          assert s[i - 1] == t[j - 1];
        } else {
          assert !IsHighSurrogate(s[w - 1]);
        }
      }
    }
    if WellFormed(t) {
      forall i | 0 <= i < |s|
        ensures PairedAt(s, i)
      {
        if i >= w {
          var j := i - w;
          assert PairedAt(t, j) && s[i] == t[j];
          if j + 1 < |t| {
            assert s[i + 1] == t[j + 1];
          }
          if j > 0 {
            assert s[i - 1] == t[j - 1];
          }
        }
      }
    }
  }

  /** A string whose head is an unpaired surrogate is not well-formed. */
  lemma LoneIsIllFormed(s: JsString)
    requires |s| > 0 && CodePointAt(s).Lone?
    ensures !WellFormed(s)
  {
    assert !PairedAt(s, 0);
  }

  /** Every ASCII string is well-formed. */
  lemma AsciiWellFormed(s: JsString)
    requires IsAscii(s)
    ensures WellFormed(s)
  {
  }

  /**
   * Concatenation keeps well-formedness exactly when no surrogate pair is
   * split or created at the seam: the left part does not end in a high
   * surrogate, or the right part does not start with a low one.
   */
  lemma {:induction false} WellFormedConcat(x: JsString, y: JsString)
    requires |x| == 0 || |y| == 0 || !IsHighSurrogate(x[|x| - 1]) || !IsLowSurrogate(y[0])
    ensures WellFormed(x + y) <==> WellFormed(x) && WellFormed(y)
  {
    var s := x + y;
    if WellFormed(s) {
      forall i | 0 <= i < |x|
        ensures PairedAt(x, i)
      {
        assert PairedAt(s, i) && s[i] == x[i];
        if i + 1 < |x| {
          assert s[i + 1] == x[i + 1];
        } else if i + 1 < |s| {
          assert s[i + 1] == y[0];
        }
        if i > 0 {
          assert s[i - 1] == x[i - 1];
        }
      }
      forall j | 0 <= j < |y|
        ensures PairedAt(y, j)
      {
        var i := |x| + j;
        assert PairedAt(s, i) && s[i] == y[j];
        if j + 1 < |y| {
          assert s[i + 1] == y[j + 1];
        }
        if j > 0 {
          assert s[i - 1] == y[j - 1];
        } else if i > 0 {
          assert s[i - 1] == x[|x| - 1];
        }
      }
    }
    if WellFormed(x) && WellFormed(y) {
      forall i | 0 <= i < |s|
        ensures PairedAt(s, i)
      {
        if i < |x| {
          assert PairedAt(x, i) && s[i] == x[i];
          if i + 1 < |x| {
            assert s[i + 1] == x[i + 1];
          }
          if i > 0 {
            assert s[i - 1] == x[i - 1];
          }
        } else {
          var j := i - |x|;
          assert PairedAt(y, j) && s[i] == y[j];
          if j + 1 < |y| {
            assert s[i + 1] == y[j + 1];
          }
          if j > 0 {
            assert s[i - 1] == y[j - 1];
          }
        }
      }
    }
  }

  /** The UTF-8 octets of one scalar value. */
  function Utf8(cp: int): (r: seq<Byte>)
    requires IsScalar(cp)
    ensures 1 <= |r| <= 4
  {
    if cp < 0x80 then [cp]
    else if cp < 0x800 then [0xC0 + cp / 0x40, 0x80 + cp % 0x40]
    else if cp < 0x1_0000 then [0xE0 + cp / 0x1000, 0x80 + (cp / 0x40) % 0x40, 0x80 + cp % 0x40]
    else [0xF0 + cp / 0x4_0000, 0x80 + (cp / 0x1000) % 0x40, 0x80 + (cp / 0x40) % 0x40, 0x80 + cp % 0x40]
  }

  /**
   * The length of the UTF-8 sequence a lead octet announces, from its count of
   * leading one bits; 0 for an octet that cannot lead (a continuation octet, or
   * five or more leading one bits).
   */
  function LeadLength(b: Byte): (n: nat)
    ensures n <= 4
  {
    if b < 0x80 then 1
    else if 0xC0 <= b < 0xE0 then 2
    else if 0xE0 <= b < 0xF0 then 3
    else if 0xF0 <= b < 0xF8 then 4
    else 0
  }

  predicate IsContinuation(b: Byte) { 0x80 <= b < 0xC0 }

  /**
   * The code point a complete UTF-8 sequence stands for; None when a
   * continuation octet is malformed, the encoding is longer than needed, or
   * the value is a surrogate or beyond U+10FFFF.  Only canonical encodings are
   * accepted: a decoded value re-encodes to the same octets.
   */
  function Utf8Value(bytes: seq<Byte>): (r: Option<int>)
    requires 1 <= |bytes| <= 4 && LeadLength(bytes[0]) == |bytes|
    ensures r.Some? ==> IsScalar(r.value) && Utf8(r.value) == bytes
  {
    if exists i | 1 <= i < |bytes| :: !IsContinuation(bytes[i]) then None
    else if |bytes| == 1 then Some(bytes[0])
    else if |bytes| == 2 then
      var cp := (bytes[0] as int - 0xC0) * 0x40 + (bytes[1] as int - 0x80);
      if cp < 0x80 then None else Utf8Inverse2(bytes, cp); Some(cp)
    else if |bytes| == 3 then
      var cp := (bytes[0] as int - 0xE0) * 0x1000 + (bytes[1] as int - 0x80) * 0x40 + (bytes[2] as int - 0x80);
      if cp < 0x800 || IsSurrogate(cp) then None else Utf8Inverse3(bytes, cp); Some(cp)
    else
      var cp := (bytes[0] as int - 0xF0) * 0x4_0000 + (bytes[1] as int - 0x80) * 0x1000 + (bytes[2] as int - 0x80) * 0x40 + (bytes[3] as int - 0x80);
      if cp < 0x1_0000 || cp >= 0x11_0000 then None else Utf8Inverse4(bytes, cp); Some(cp)
  }

  lemma Utf8Inverse2(bytes: seq<Byte>, cp: int)
    requires |bytes| == 2 && 0xC0 <= bytes[0] < 0xE0 && IsContinuation(bytes[1])
    requires cp == (bytes[0] as int - 0xC0) * 0x40 + (bytes[1] as int - 0x80) && cp >= 0x80
    ensures IsScalar(cp) && Utf8(cp) == bytes
  {
    assert cp / 0x40 == bytes[0] as int - 0xC0 && cp % 0x40 == bytes[1] as int - 0x80;
  }

  lemma Utf8Inverse3(bytes: seq<Byte>, cp: int)
    requires |bytes| == 3 && 0xE0 <= bytes[0] < 0xF0 && IsContinuation(bytes[1]) && IsContinuation(bytes[2])
    requires cp == (bytes[0] as int - 0xE0) * 0x1000 + (bytes[1] as int - 0x80) * 0x40 + (bytes[2] as int - 0x80)
    requires cp >= 0x800 && !IsSurrogate(cp)
    ensures IsScalar(cp) && Utf8(cp) == bytes
  {
    var q := cp / 0x40;
    assert q == (bytes[0] as int - 0xE0) * 0x40 + (bytes[1] as int - 0x80) && cp % 0x40 == bytes[2] as int - 0x80;
    assert q % 0x40 == bytes[1] as int - 0x80 && cp / 0x1000 == q / 0x40 == bytes[0] as int - 0xE0;
  }

  lemma Utf8Inverse4(bytes: seq<Byte>, cp: int)
    requires |bytes| == 4 && 0xF0 <= bytes[0] < 0xF8
    requires IsContinuation(bytes[1]) && IsContinuation(bytes[2]) && IsContinuation(bytes[3])
    requires cp == (bytes[0] as int - 0xF0) * 0x4_0000 + (bytes[1] as int - 0x80) * 0x1000 + (bytes[2] as int - 0x80) * 0x40 + (bytes[3] as int - 0x80)
    requires 0x1_0000 <= cp < 0x11_0000
    ensures IsScalar(cp) && Utf8(cp) == bytes
  {
    var q := cp / 0x40;
    var p := q / 0x40;
    assert q == (bytes[0] as int - 0xF0) * 0x1000 + (bytes[1] as int - 0x80) * 0x40 + (bytes[2] as int - 0x80) && cp % 0x40 == bytes[3] as int - 0x80;
    assert p == (bytes[0] as int - 0xF0) * 0x40 + (bytes[1] as int - 0x80) && q % 0x40 == bytes[2] as int - 0x80;
    assert p % 0x40 == bytes[1] as int - 0x80 && p / 0x40 == bytes[0] as int - 0xF0;
    assert cp / 0x1000 == p && cp / 0x4_0000 == p / 0x40;
  }

  /** Decoding the UTF-8 form of a scalar value gives the value back. */
  lemma Utf8RoundTrip(cp: int)
    requires IsScalar(cp)
    ensures LeadLength(Utf8(cp)[0]) == |Utf8(cp)|
    ensures Utf8Value(Utf8(cp)) == Some(cp)
  {
    if cp < 0x80 {
    } else if cp < 0x800 {
      Utf8RoundTrip2(cp);
    } else if cp < 0x1_0000 {
      Utf8RoundTrip3(cp);
    } else {
      Utf8RoundTrip4(cp);
    }
  }

  lemma Utf8RoundTrip2(cp: int)
    requires 0x80 <= cp < 0x800
    ensures LeadLength(Utf8(cp)[0]) == 2
    ensures Utf8Value(Utf8(cp)) == Some(cp)
  {
    var r0, q := cp % 0x40, cp / 0x40;
    assert cp == q * 0x40 + r0;
    assert Utf8(cp) == [0xC0 + q, 0x80 + r0];
  }

  lemma Utf8RoundTrip3(cp: int)
    requires 0x800 <= cp < 0x1_0000 && !IsSurrogate(cp)
    ensures LeadLength(Utf8(cp)[0]) == 3
    ensures Utf8Value(Utf8(cp)) == Some(cp)
  {
    var r0, q := cp % 0x40, cp / 0x40;
    var r1, p := q % 0x40, q / 0x40;
    assert cp == q * 0x40 + r0 && q == p * 0x40 + r1;
    assert cp == p * 0x1000 + (r1 * 0x40 + r0);
    assert cp / 0x1000 == p;
    assert Utf8(cp) == [0xE0 + p, 0x80 + r1, 0x80 + r0];
  }

  lemma Utf8RoundTrip4(cp: int)
    requires 0x1_0000 <= cp < 0x11_0000
    ensures LeadLength(Utf8(cp)[0]) == 4
    ensures Utf8Value(Utf8(cp)) == Some(cp)
  {
    var r0, q := cp % 0x40, cp / 0x40;
    var r1, p := q % 0x40, q / 0x40;
    var r2, o := p % 0x40, p / 0x40;
    assert cp == q * 0x40 + r0 && q == p * 0x40 + r1 && p == o * 0x40 + r2;
    assert cp == p * 0x1000 + (r1 * 0x40 + r0);
    assert cp / 0x1000 == p;
    assert cp == o * 0x4_0000 + (r2 * 0x1000 + r1 * 0x40 + r0);
    assert cp / 0x4_0000 == o;
    assert Utf8(cp) == [0xF0 + o, 0x80 + r2, 0x80 + r1, 0x80 + r0];
  }
}
