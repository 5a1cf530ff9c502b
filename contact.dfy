/**
 * The contact form's submit handler: the two validation checks, the mailto
 * URI it navigates to (section 2 of RFC 6068), the banner it shows and the
 * reset of the form.  The decision is a function of the field values; the
 * page it changes (inputs, form message, window location) is a class whose
 * submit method is proved to follow that function.
 */
module ContactForm {
  import opened Wrappers
  import opened Sequences
  import opened Unicode
  import opened UriComponent
  import opened EmailPattern

  /** The values of the four form fields. */
  datatype FormData = FormData(name: JsString, email: JsString, subject: JsString, message: JsString)

  /** The form after reset(): every field back to its (empty) default. */
  const EmptyForm := FormData([], [], [], [])

  /** How the submit handler ends. */
  datatype Outcome =
    | MissingFields          // shows MissingFieldsText
    | BadEmail               // shows BadEmailText
    | Opened(link: JsString) // navigated to the mailto URI
    | ClientError            // an exception was caught while building the URI

  datatype BannerKind = Success | Error

  datatype Banner = Banner(text: JsString, kind: BannerKind)

  /** What one submission leaves behind. */
  datatype Submission = Submission(outcome: Outcome, banner: Banner, form: FormData)

  /** A field counts as missing when it is the empty string (the only falsy string). */
  predicate HasEmptyField(f: FormData) {
    f.name == [] || f.email == [] || f.subject == [] || f.message == []
  }

  function Recipient(): JsString { Ascii("joinvkc@gmail.com") }

  /** The subject line before encoding. */
  function SubjectText(f: FormData): JsString {
    Ascii("Portfolio Contact: ") + f.subject
  }

  /** The message body before encoding. */
  function BodyText(f: FormData): JsString {
    Ascii("Name: ") + f.name + Ascii("\nEmail: ") + f.email
      + Ascii("\nSubject: ") + f.subject + Ascii("\n\nMessage:\n") + f.message
  }

  /** The mailto URI for already-encoded subject and body. */
  function MailtoLink(encodedSubject: JsString, encodedBody: JsString): JsString {
    Ascii("mailto:") + Recipient() + Ascii("?subject=") + encodedSubject + Ascii("&body=") + encodedBody
  }

  /**
   * The submit handler's decision: missing fields are reported first, then a
   * malformed email; otherwise subject and body are encoded and the mailto URI
   * built, unless encoding throws.
   */
  function Submit(f: FormData): Outcome {
    if HasEmptyField(f) then MissingFields
    else if !IsValidEmail(f.email) then BadEmail
    else match Encode(SubjectText(f))
      case None => ClientError
      case Some(encodedSubject) =>
        match Encode(BodyText(f))
        case None => ClientError
        case Some(encodedBody) => Opened(MailtoLink(encodedSubject, encodedBody))
  }

  const MissingFieldsText := Ascii("Please fill in all fields.")
  const BadEmailText := Ascii("Please enter a valid email address.")
  const SuccessText :=
    Ascii("Your email client has been opened. ") + Ascii("Please send the email from there. ")
    + Ascii("If it didn't open automatically, ") + Ascii("please email directly to joinvkc@gmail.com")
  const FailureText :=
    Ascii("There was an error opening ") + Ascii("your email client. ") + Ascii("Please email directly to joinvkc@gmail.com")

  /**
   * The whole submit handler: the banner shown and the form left behind.  Only
   * a successful submission resets the form; every failure leaves the input as
   * it was and shows an error banner.
   */
  function HandleSubmit(f: FormData): (r: Submission)
    ensures r.outcome == Submit(f)
    ensures r.banner.kind == Success <==> r.outcome.Opened?
    ensures r.outcome.Opened? ==> r.form == EmptyForm
    ensures !r.outcome.Opened? ==> r.form == f
    ensures r.outcome == MissingFields ==> r.banner.text == MissingFieldsText
    ensures r.outcome == BadEmail ==> r.banner.text == BadEmailText
    ensures r.outcome.Opened? ==> r.banner.text == SuccessText
    ensures r.outcome == ClientError ==> r.banner.text == FailureText
  {
    match Submit(f)
    case MissingFields => Submission(MissingFields, Banner(MissingFieldsText, Error), f)
    case BadEmail => Submission(BadEmail, Banner(BadEmailText, Error), f)
    case Opened(link) => Submission(Opened(link), Banner(SuccessText, Success), EmptyForm)
    case ClientError => Submission(ClientError, Banner(FailureText, Error), f)
  }

  /**
   * Validation order: the missing-field message is given exactly when some
   * field is empty, so a field of whitespace only counts as filled; the email
   * message is given exactly when all fields are filled and the email is not
   * in the language of the pattern.
   */
  lemma ValidationOrder(f: FormData)
    ensures Submit(f) == MissingFields <==> HasEmptyField(f)
    ensures Submit(f) == BadEmail <==> !HasEmptyField(f) && !MatchesPattern(f.email)
    ensures Submit(f).Opened? || Submit(f) == ClientError <==> !HasEmptyField(f) && MatchesPattern(f.email)
  {
    PatternIsValidEmail(f.email);
  }

  /** Every ASCII literal ends in an ASCII character, which never joins a surrogate pair. */
  lemma LiteralSeams(a: JsString, f: JsString)
    requires IsAscii(a) && |a| > 0
    ensures WellFormed(a + f) <==> WellFormed(f)
    ensures WellFormed(f + a) <==> WellFormed(f)
  {
    AsciiWellFormed(a);
    WellFormedConcat(a, f);
    WellFormedConcat(f, a);
  }

  /** The body is well-formed exactly when the four fields are. */
  lemma BodyWellFormed(f: FormData)
    ensures WellFormed(BodyText(f)) <==>
      WellFormed(f.name) && WellFormed(f.email) && WellFormed(f.subject) && WellFormed(f.message)
  {
    var a1, a2, a3, a4 := Ascii("Name: "), Ascii("\nEmail: "), Ascii("\nSubject: "), Ascii("\n\nMessage:\n");
    LiteralSeams(a1, f.name);
    AsciiWellFormed(a1);
    WellFormedConcat(a1 + f.name, a2);
    AsciiWellFormed(a2);
    WellFormedConcat(a1 + f.name + a2, f.email);
    WellFormedConcat(a1 + f.name + a2 + f.email, a3);
    AsciiWellFormed(a3);
    WellFormedConcat(a1 + f.name + a2 + f.email + a3, f.subject);
    WellFormedConcat(a1 + f.name + a2 + f.email + a3 + f.subject, a4);
    AsciiWellFormed(a4);
    WellFormedConcat(a1 + f.name + a2 + f.email + a3 + f.subject + a4, f.message);
  }

  /**
   * A validated submission fails only by the URIError of encodeURIComponent,
   * and does so exactly when some field holds an unpaired surrogate.
   */
  lemma ClientErrorIffIllFormed(f: FormData)
    requires !HasEmptyField(f) && MatchesPattern(f.email)
    ensures Submit(f) == ClientError <==>
      !(WellFormed(f.name) && WellFormed(f.email) && WellFormed(f.subject) && WellFormed(f.message))
  {
    PatternIsValidEmail(f.email);
    LiteralSeams(Ascii("Portfolio Contact: "), f.subject);
    BodyWellFormed(f);
    EncodeFailsIffIllFormed(SubjectText(f));
    EncodeFailsIffIllFormed(BodyText(f));
  }

  /** The parts of the page the submit handler changes. */
  class ContactPage {
    /** The values of the four inputs. */
    var form: FormData
    /** The text and kind of the form message, None while none was shown. */
    var banner: Option<Banner>
    /** The last URI the window was sent to, None if none. */
    var location: Option<JsString>

    constructor (f: FormData)
      ensures form == f && banner == None && location == None
    {
      form, banner, location := f, None, None;
    }

    /**
     * One submit event: the form, banner and location afterwards are those
     * HandleSubmit describes; the window is sent away only on success.
     */
    method OnSubmit()
      modifies this
      ensures var r := HandleSubmit(old(form));
        && form == r.form && banner == Some(r.banner)
        && location == (if r.outcome.Opened? then Some(r.outcome.link) else old(location))
    {
      var f := form;
      if HasEmptyField(f) {
        banner := Some(Banner(MissingFieldsText, Error));
        return;
      }
      if !IsValidEmail(f.email) {
        banner := Some(Banner(BadEmailText, Error));
        return;
      }
      var emailSubject := Encode(SubjectText(f));
      if emailSubject.None? {
        banner := Some(Banner(FailureText, Error));
        return;
      }
      var emailBody := Encode(BodyText(f));
      if emailBody.None? {
        banner := Some(Banner(FailureText, Error));
        return;
      }
      location := Some(MailtoLink(emailSubject.value, emailBody.value));
      banner := Some(Banner(SuccessText, Success));
      form := EmptyForm;
    }
  }

  /** One hfield of a mailto URI: a header name and its (still encoded) value. */
  datatype Header = Header(name: JsString, value: JsString)

  /** A mailto URI split into its address part and its hfields. */
  datatype Mailto = Mailto(to: JsString, headers: seq<Header>)

  const QUESTION: CodeUnit := 0x3F   // '?'
  const AMPERSAND: CodeUnit := 0x26  // '&'
  const EQUALS: CodeUnit := 0x3D     // '='

  /** The pieces of `s` between occurrences of `sep`. */
  function SplitOn(s: JsString, sep: CodeUnit): (parts: seq<JsString>)
    ensures |parts| >= 1
    decreases |s|
  {
    match FirstIndex(s, sep)
    case None => [s]
    case Some(k) => [s[..k]] + SplitOn(s[k + 1..], sep)
  }

  /** hfield = hfname "=" hfvalue. */
  function ParseHeader(field: JsString): Option<Header> {
    match FirstIndex(field, EQUALS)
    case None => None
    case Some(k) => Some(Header(field[..k], field[k + 1..]))
  }

  function ParseHeaders(fields: seq<JsString>): Option<seq<Header>> {
    if fields == [] then Some([])
    else match ParseHeader(fields[0])
      case None => None
      case Some(h) =>
        match ParseHeaders(fields[1..])
        case None => None
        case Some(rest) => Some([h] + rest)
  }

  /**
   * Reads a mailto URI as section 2 of RFC 6068 lays it out:
   * "mailto:" to [ "?" hfield *( "&" hfield ) ].
   */
  function ParseMailto(uri: JsString): Option<Mailto> {
    var scheme := Ascii("mailto:");
    if |uri| < |scheme| || uri[..|scheme|] != scheme then None
    else
      var rest := uri[|scheme|..];
      match FirstIndex(rest, QUESTION)
      case None => Some(Mailto(rest, []))
      case Some(q) =>
        match ParseHeaders(SplitOn(rest[q + 1..], AMPERSAND))
        case None => None
        case Some(headers) => Some(Mailto(rest[..q], headers))
  }

  /** A string without `u` is one piece when split on `u`. */
  lemma SplitWithout(s: JsString, u: CodeUnit)
    requires forall i | 0 <= i < |s| :: s[i] != u
    ensures SplitOn(s, u) == [s]
  {
  }

  /** Encoded text holds no '&' and no '='. */
  lemma EncodedHasNo(e: JsString)
    requires IsEncodedText(e)
    ensures forall i | 0 <= i < |e| :: e[i] != AMPERSAND && e[i] != EQUALS && e[i] != QUESTION
  {
    forall i | 0 <= i < |e| ensures e[i] != AMPERSAND && e[i] != EQUALS && e[i] != QUESTION {
      EncodedTextHasNoDelimiters(e, i);
    }
  }

  /** name "=" value, with no '=' in the name, reads back as that header. */
  lemma ParseOneHeader(name: JsString, value: JsString)
    requires forall i | 0 <= i < |name| :: name[i] != EQUALS
    ensures ParseHeader(name + [EQUALS] + value) == Some(Header(name, value))
  {
    var field := name + [EQUALS] + value;
    assert field == name + ([EQUALS] + value);
    FirstIndexAfter(name, [EQUALS] + value, EQUALS);
    assert field[..|name|] == name && field[|name| + 1..] == value;
  }

  /** Two pieces free of `sep`, joined by `sep`, split back into those two pieces. */
  lemma SplitTwo(first: JsString, second: JsString, sep: CodeUnit)
    requires forall i | 0 <= i < |first| :: first[i] != sep
    requires forall i | 0 <= i < |second| :: second[i] != sep
    ensures SplitOn(first + [sep] + second, sep) == [first, second]
  {
    var s := first + [sep] + second;
    assert s == first + ([sep] + second);
    FirstIndexAfter(first, [sep] + second, sep);
    assert s[..|first|] == first && s[|first| + 1..] == second;
    assert SplitOn(s, sep) == [first] + SplitOn(second, sep);
    SplitWithout(second, sep);
    assert [first] + [second] == [first, second];
  }

  /** A header name without '&' and an encoded value make an hfield without '&'. */
  lemma FieldHasNoAmpersand(name: JsString, e: JsString)
    requires forall i | 0 <= i < |name| :: name[i] != AMPERSAND
    requires IsEncodedText(e)
    ensures forall i | 0 <= i < |name + [EQUALS] + e| :: (name + [EQUALS] + e)[i] != AMPERSAND
  {
    EncodedHasNo(e);
  }

  /** Two hfields that each parse read back, in order, as their headers. */
  lemma ParseTwoHeaders(first: JsString, second: JsString, h1: Header, h2: Header)
    requires ParseHeader(first) == Some(h1) && ParseHeader(second) == Some(h2)
    ensures ParseHeaders([first, second]) == Some([h1, h2])
  {
    var fields: seq<JsString> := [first, second];
    var tail := fields[1..];
    assert tail == [second] && tail[1..] == [];
    assert ParseHeaders(tail[1..]) == Some([]);
    assert [h2] + [] == [h2];
    assert ParseHeaders(tail) == Some([h2]);
    assert fields[0] == first;
    assert ParseHeaders(fields) == Some([h1] + [h2]);
    assert [h1] + [h2] == [h1, h2];
  }

  /** A query of two hfields with encoded values reads back as those two headers. */
  lemma ParseQuery(sk: JsString, es: JsString, bk: JsString, eb: JsString)
    requires forall i | 0 <= i < |sk| :: sk[i] != EQUALS && sk[i] != AMPERSAND
    requires forall i | 0 <= i < |bk| :: bk[i] != EQUALS && bk[i] != AMPERSAND
    requires IsEncodedText(es) && IsEncodedText(eb)
    ensures ParseHeaders(SplitOn((sk + [EQUALS] + es) + [AMPERSAND] + (bk + [EQUALS] + eb), AMPERSAND))
        == Some([Header(sk, es), Header(bk, eb)])
  {
    var first := sk + [EQUALS] + es;
    var second := bk + [EQUALS] + eb;
    FieldHasNoAmpersand(sk, es);
    FieldHasNoAmpersand(bk, eb);
    SplitTwo(first, second, AMPERSAND);
    ParseOneHeader(sk, es);
    ParseOneHeader(bk, eb);
    ParseTwoHeaders(first, second, Header(sk, es), Header(bk, eb));
  }

  /** The fixed pieces of the URI template, unit by unit. */
  lemma TemplatePieces()
    ensures Ascii("?subject=") == [QUESTION] + Ascii("subject") + [EQUALS]
    ensures Ascii("&body=") == [AMPERSAND] + Ascii("body") + [EQUALS]
    ensures forall i | 0 <= i < |Recipient()| :: Recipient()[i] != QUESTION
    ensures forall i | 0 <= i < |Ascii("subject")| :: Ascii("subject")[i] != EQUALS && Ascii("subject")[i] != AMPERSAND
    ensures forall i | 0 <= i < |Ascii("body")| :: Ascii("body")[i] != EQUALS && Ascii("body")[i] != AMPERSAND
  {
  }

  /** The built URI regrouped as scheme, recipient, '?' and the query of two hfields. */
  lemma LinkShape(es: JsString, eb: JsString)
    ensures MailtoLink(es, eb) == Ascii("mailto:") + (Recipient() + ([QUESTION]
      + ((Ascii("subject") + [EQUALS] + es) + [AMPERSAND] + (Ascii("body") + [EQUALS] + eb))))
  {
    TemplatePieces();
  }

  /** "mailto:" to "?" query, with no '?' in to, reads back as that address and the query's headers. */
  lemma ParseMailtoShape(to: JsString, query: JsString)
    requires forall i | 0 <= i < |to| :: to[i] != QUESTION
    ensures ParseMailto(Ascii("mailto:") + (to + ([QUESTION] + query))) ==
      match ParseHeaders(SplitOn(query, AMPERSAND))
      case None => None
      case Some(headers) => Some(Mailto(to, headers))
  {
    var scheme := Ascii("mailto:");
    var rest := to + ([QUESTION] + query);
    assert (scheme + rest)[..|scheme|] == scheme && (scheme + rest)[|scheme|..] == rest;
    FirstIndexAfter(to, [QUESTION] + query, QUESTION);
    assert rest[..|to|] == to && rest[|to| + 1..] == query;
  }

  /**
   * The URI built for two encoded values reads back, under RFC 6068, as the
   * fixed recipient with exactly the headers subject and body carrying those
   * values.
   */
  lemma ParseMailtoLink(es: JsString, eb: JsString)
    requires IsEncodedText(es) && IsEncodedText(eb)
    ensures ParseMailto(MailtoLink(es, eb)) ==
      Some(Mailto(Recipient(), [Header(Ascii("subject"), es), Header(Ascii("body"), eb)]))
  {
    TemplatePieces();
    LinkShape(es, eb);
    var query := (Ascii("subject") + [EQUALS] + es) + [AMPERSAND] + (Ascii("body") + [EQUALS] + eb);
    ParseMailtoShape(Recipient(), query);
    ParseQuery(Ascii("subject"), es, Ascii("body"), eb);
  }

  /**
   * On a successful submission the link is a mailto URI to the fixed
   * recipient whose subject and body headers hold no delimiter and
   * percent-decode to the subject line and the message body.
   */
  lemma SubmitLinkRoundTrip(f: FormData)
    requires Submit(f).Opened?
    ensures Encode(SubjectText(f)).Some? && Encode(BodyText(f)).Some?
    ensures var es, eb := Encode(SubjectText(f)).value, Encode(BodyText(f)).value;
      && ParseMailto(Submit(f).link) == Some(Mailto(Recipient(), [Header(Ascii("subject"), es), Header(Ascii("body"), eb)]))
      && Decode(es) == Some(SubjectText(f))
      && Decode(eb) == Some(BodyText(f))
      && IsEncodedText(es) && IsEncodedText(eb)
  {
    var es, eb := Encode(SubjectText(f)).value, Encode(BodyText(f)).value;
    EncodeIsEncodedText(SubjectText(f));
    EncodeIsEncodedText(BodyText(f));
    DecodeEncode(SubjectText(f));
    DecodeEncode(BodyText(f));
    ParseMailtoLink(es, eb);
  }
}
