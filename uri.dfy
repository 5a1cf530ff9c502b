/**
 * encodeURIComponent and decodeURIComponent of ECMA-262, with the abstract
 * operations Encode and Decode they are defined by: percent-encoding of the
 * UTF-8 octets of a string as in section 2.1 of RFC 3986.  The contact form
 * passes its subject and body through Encode; Decode is the inverse it is
 * proved against.
 */
module UriComponent {
  import opened Wrappers
  import opened Unicode

  const PERCENT: CodeUnit := 0x25  // '%'

  /**
   * The units encodeURIComponent leaves as they are: ASCII letters, digits and
   * the marks - _ . ! ~ * ' ( ).
   */
  predicate IsUnreserved(u: int) {
    || 0x41 <= u <= 0x5A       // A-Z
    || 0x61 <= u <= 0x7A       // a-z
    || 0x30 <= u <= 0x39       // 0-9
    || u == 0x2D || u == 0x5F || u == 0x2E || u == 0x21  // - _ . !
    || u == 0x7E || u == 0x2A || u == 0x27 || u == 0x28 || u == 0x29  // ~ * ' ( )
  }

  /** The upper-case hexadecimal digit for a value below 16. */
  function HexDigit(n: int): (u: CodeUnit)
    requires 0 <= n < 16
    ensures IsUnreserved(u)
  {
    if n < 10 then 0x30 + n else 0x41 + (n - 10)
  }

  /** The value of a hexadecimal digit of either case. */
  function HexValue(u: CodeUnit): (r: Option<int>)
    ensures r.Some? ==> 0 <= r.value < 16
  {
    if 0x30 <= u <= 0x39 then Some(u - 0x30)
    else if 0x41 <= u <= 0x46 then Some(u - 0x41 + 10)
    else if 0x61 <= u <= 0x66 then Some(u - 0x61 + 10)
    else None
  }

  lemma HexRoundTrip(n: int)
    requires 0 <= n < 16
    ensures HexValue(HexDigit(n)) == Some(n)
  {
  }

  /** Each octet written as "%XX" with upper-case digits. */
  function PercentEncode(bytes: seq<Byte>): (r: JsString)
    ensures |r| == 3 * |bytes|
  {
    if bytes == [] then []
    else [PERCENT, HexDigit(bytes[0] / 16), HexDigit(bytes[0] % 16)] + PercentEncode(bytes[1..])
  }

  /** How encodeURIComponent writes one code point. */
  function EncodeOne(cp: int): JsString
    requires IsScalar(cp)
  {
    if IsUnreserved(cp) then [cp] else PercentEncode(Utf8(cp))
  }

  /**
   * encodeURIComponent: None stands for the URIError thrown on an unpaired
   * surrogate.
   */
  function Encode(s: JsString): Option<JsString>
    decreases |s|
  {
    if s == [] then Some([])
    else match CodePointAt(s)
      case Lone => None
      case Point(cp, w) =>
        match Encode(s[w..])
        case None => None
        case Some(rest) => Some(EncodeOne(cp) + rest)
  }

  /** The octets of `n` consecutive "%XX" escapes at the head of `s`. */
  function PercentBytes(s: JsString, n: nat): (r: Option<seq<Byte>>)
    ensures r.Some? ==> |r.value| == n && 3 * n <= |s|
  {
    if n == 0 then Some([])
    else if |s| < 3 || s[0] != PERCENT then None
    else match (HexValue(s[1]), HexValue(s[2]))
      case (Some(hi), Some(lo)) =>
        (match PercentBytes(s[3..], n - 1)
         case None => None
         case Some(rest) => Some([hi * 16 + lo] + rest))
      case _ => None
  }

  /**
   * decodeURIComponent: every escape sequence is decoded (the reserved set of
   * decodeURIComponent is empty); None stands for the URIError thrown on a
   * malformed escape or an invalid UTF-8 sequence.
   */
  function Decode(s: JsString): Option<JsString>
    decreases |s|
  {
    if s == [] then Some([])
    else if s[0] != PERCENT then
      match Decode(s[1..])
      case None => None
      case Some(rest) => Some([s[0]] + rest)
    else match PercentBytes(s, 1)
      case None => None
      case Some(lead) =>
        var n := LeadLength(lead[0]);
        if n == 0 then None
        else match PercentBytes(s, n)
          case None => None
          case Some(bytes) =>
            match Utf8Value(bytes)
            case None => None
            case Some(cp) =>
              match Decode(s[3 * n..])
              case None => None
              case Some(rest) => Some(EncodeCodePoint(cp) + rest)
  }

  /** Reading back the first `k` escapes of a percent-encoding gives the first `k` octets. */
  lemma {:induction false} PercentBytesOfEncode(bytes: seq<Byte>, t: JsString, k: nat)
    requires k <= |bytes|
    ensures PercentBytes(PercentEncode(bytes) + t, k) == Some(bytes[..k])
  {
    if k > 0 {
      var s := PercentEncode(bytes) + t;
      var b := bytes[0];
      HexRoundTrip(b / 16);
      HexRoundTrip(b % 16);
      assert s[0] == PERCENT && s[1] == HexDigit(b / 16) && s[2] == HexDigit(b % 16);
      assert s[3..] == PercentEncode(bytes[1..]) + t;
      PercentBytesOfEncode(bytes[1..], t, k - 1);
      assert [b] + bytes[1..][..k - 1] == bytes[..k];
    }
  }

  /** Decoding the encoding of one code point followed by anything decodes that code point first. */
  lemma DecodeEncodeOne(cp: int, t: JsString)
    requires IsScalar(cp)
    ensures Decode(EncodeOne(cp) + t) ==
      match Decode(t)
      case None => None
      case Some(rest) => Some(EncodeCodePoint(cp) + rest)
  {
    var s := EncodeOne(cp) + t;
    if IsUnreserved(cp) {
      assert s[0] == cp && s[1..] == t;
    } else {
      var bytes := Utf8(cp);
      var n := |bytes|;
      Utf8RoundTrip(cp);
      PercentBytesOfEncode(bytes, t, 1);
      PercentBytesOfEncode(bytes, t, n);
      assert bytes[..n] == bytes;
      assert s[0] == PERCENT;
      assert s[3 * n..] == t;
    }
  }

  /** Percent-decoding what encodeURIComponent produced returns the original string. */
  lemma {:induction false} DecodeEncode(s: JsString)
    requires Encode(s).Some?
    ensures Decode(Encode(s).value) == Some(s)
    decreases |s|
  {
    if s != [] {
      match CodePointAt(s)
      case Point(cp, w) =>
        var rest := Encode(s[w..]).value;
        DecodeEncode(s[w..]);
        DecodeEncodeOne(cp, rest);
        assert EncodeCodePoint(cp) + s[w..] == s[..w] + s[w..] == s;
    }
  }

  /** encodeURIComponent throws exactly when the string holds an unpaired surrogate. */
  lemma {:induction false} EncodeFailsIffIllFormed(s: JsString)
    ensures Encode(s).None? <==> !WellFormed(s)
    decreases |s|
  {
    if s != [] {
      match CodePointAt(s)
      case Lone =>
        LoneIsIllFormed(s);
      case Point(cp, w) =>
        WellFormedTail(s);
        EncodeFailsIffIllFormed(s[w..]);
    }
  }

  /** Every unit of an encoding is an unreserved character or '%'. */
  predicate IsEncodedText(e: JsString) {
    forall i | 0 <= i < |e| :: IsUnreserved(e[i]) || e[i] == PERCENT
  }

  lemma {:induction false} PercentEncodeIsEncodedText(bytes: seq<Byte>)
    ensures IsEncodedText(PercentEncode(bytes))
  {
    if bytes != [] {
      PercentEncodeIsEncodedText(bytes[1..]);
    }
  }

  /** The output of encodeURIComponent holds only unreserved characters and '%'. */
  lemma {:induction false} EncodeIsEncodedText(s: JsString)
    requires Encode(s).Some?
    ensures IsEncodedText(Encode(s).value)
    decreases |s|
  {
    if s != [] {
      match CodePointAt(s)
      case Point(cp, w) =>
        EncodeIsEncodedText(s[w..]);
        if !IsUnreserved(cp) {
          PercentEncodeIsEncodedText(Utf8(cp));
        }
    }
  }

  /**
   * Text made of unreserved characters and '%' holds none of the delimiters of
   * a mailto URI ('?', '&', '=', '#') and no whitespace or line break.
   */
  lemma EncodedTextHasNoDelimiters(e: JsString, i: int)
    requires IsEncodedText(e) && 0 <= i < |e|
    ensures e[i] !in {0x3F, 0x26, 0x3D, 0x23, 0x20, 0x09, 0x0A, 0x0D}
  {
  }
}
