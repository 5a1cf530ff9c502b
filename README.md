# Portfolio page script — a verified model

This project models the behaviour of the portfolio page's script
(`js/script.js`) in Dafny. It covers five parts:

- **Hero typing effect.** A timer-driven state machine. It types each of six
  roles one character at a time, pauses, deletes the role and moves on to
  the next one.
- **Active navigation link.** A scroll handler that highlights the link of
  the section the reader is in.
- **Contact form submit handler.** It does two validations, builds a
  `mailto:` URI from `encodeURIComponent`-encoded subject and body, shows a
  banner and resets the form.
- **Mobile menu.** The hamburger button and the menu's `active` classes.
- **Small scroll behaviours.** The navbar's `scrolled` look, the
  back-to-top button, and the scroll target of in-page anchors.

| file | module | contents |
|---|---|---|
| `wrappers.dfy` | `Wrappers` | `Option` |
| `sequences.dfy` | `Sequences` | the first-match search shared by `indexOf`-style splitting and `querySelector` lookups |
| `unicode.dfy` | `Unicode` | strings as UTF-16 code units, code points, surrogate well-formedness, UTF-8 (RFC 3629) |
| `uri.dfy` | `UriComponent` | `encodeURIComponent` (ECMA-262), its inverse `decodeURIComponent`, percent-encoding as in section 2.1 of RFC 3986 |
| `email.dfy` | `EmailPattern` | the language of `/^[^\s@]+@[^\s@]+\.[^\s@]+$/` and an executable characterisation of it |
| `contact.dfy` | `ContactForm` | the submit decision, the page it changes, and a `mailto:` parser (section 2 of RFC 6068) the built URI is read back with |
| `typing.dfy` | `Typing` | the typing state machine and the class holding its closure state |
| `navigation.dfy` | `Navigation` | the active-link resolver over an array of link flags, anchor targets, scroll thresholds |
| `menu.dfy` | `Menu` | the menu handlers and the class holding the two flags |

JavaScript strings are sequences of UTF-16 code units, and a lone surrogate
is a legal value. The model therefore represents text as `seq<CodeUnit>`.
This is what makes the handler's `catch` reachable:
`encodeURIComponent` throws a `URIError` on an unpaired surrogate.

The core results are these:

- **Email pattern.** The email regular expression matches exactly the
  strings with:
  - no whitespace;
  - one `@` with something before it;
  - a `.` after the `@` that is neither the first nor the last unit of the
    domain.
- **Submit order.** The handler reports missing fields first, then a bad
  email address.
- **When submission fails.** A validated submission fails exactly when a
  field holds an unpaired surrogate.
- **The built URI.** A successful submission produces a URI that parses
  back to the fixed recipient, with `subject` and `body` headers. These
  headers contain no delimiter, and they percent-decode to the subject line
  and the message body.
- **Typing effect.** It keeps `text == role[..charIndex]` at every tick.
  One role takes `2·|role|` ticks, and the effect returns to its first role
  after every full rotation.
- **Active link.** The resolver leaves exactly the link of the last section
  whose window holds the scroll position. It leaves the flags untouched when
  no section matches, and running it twice is the same as running it once.

The section window is the one `js/script.js:44` tests,
`scrollY > sectionTop && scrollY <= sectionTop + sectionHeight` with
`sectionTop = offsetTop − 100`: the window `(top − 100, top − 100 + height]`,
open at the top and closed at the bottom. `Navigation.InWindow` states
exactly this test.

## Model

| member | source | states |
|---|---|---|
| Typing.SubstringTo | js/script.js:241-245 | `substring(0, end)` with the end clamped into the string; its use is covered by `Step`, whose ensures state that the subtitle is the role prefix |
| Typing.RolesAreValid | js/script.js:222-229 | the six roles form a non-empty list and none of them is empty, so every index the machine uses is in range |
| Typing.Step | js/script.js:237-261 | one call of `type` maps a reachable state (role index in range; typing: 0 ≤ charIndex < \|role\|; deleting: 1 ≤ charIndex ≤ \|role\|) to a reachable state, and afterwards the subtitle shows exactly the first charIndex characters of the current role |
| Typing.Run | js/script.js:237-261 | every state reached by repeated ticks is reachable and shows the prefix of its role |
| Typing.RunAdd | js/script.js:237-261 | a + b ticks are a ticks followed by b ticks |
| Typing.TypingPhase | js/script.js:240-252 | typing a role: after k ticks the first k characters show with a 100 ms delay; the tick that completes the role switches to deleting with the 2000 ms pause |
| Typing.DeletingPhase | js/script.js:240-258 | deleting a role: after k ticks \|role\| − k characters show with a 50 ms delay; the last deletion empties the subtitle and moves to role (r + 1) mod n, typing, with the 500 ms pause |
| Typing.RoleCycle | js/script.js:237-258 | 2·\|role\| ticks after it starts typing role r, the effect is about to type role (r + 1) mod n with the subtitle empty |
| Typing.RolesInOrder | js/script.js:237-258 | starting at the first role, the roles are shown in list order: after the ticks of the first j roles the effect is at role j mod n |
| Typing.Rotations | js/script.js:221-264 | the effect never stops: after every full rotation through all roles it is back at the first role with an empty subtitle |
| Typing.TypingEffect.constructor | js/script.js:231-235 | the closure starts at role 0, character 0, typing, delay 100, with the subtitle's markup text |
| Typing.TypingEffect.Tick | js/script.js:237-261 | one timer callback updates the closure variables and the subtitle as `Step` does, keeps the state reachable and leaves the subtitle showing the role prefix |
| Navigation.InWindow | js/script.js:40-44 | the window test `offsetTop − 100 < scrollY <= offsetTop − 100 + offsetHeight`; its consequences are stated by `LastMatch` and `ScanIsLastMatch` |
| Navigation.LinkFor | js/script.js:42 | the `.nav-link[href="#id"]` lookup: the first link whose href is "#" + id; `AtMostOneActive` states that the active link carries that href |
| Navigation.Highlight | js/script.js:45-48 | every link's class removed, then the section's link's added; `AtMostOneActive` and `NoLinkClearsAll` state the result |
| Navigation.Visit | js/script.js:39-50 | one pass of the `sections.forEach` body |
| Navigation.Scan | js/script.js:38-50 | the whole `forEach` in document order; `ScanIsLastMatch` proves it equal to the last-match reference and `SetActiveNavLink` proves the loops compute it |
| Navigation.LastMatch | js/script.js:39-51 | the last section in document order whose window holds the position, or none when no window does |
| Navigation.ScanIsLastMatch | js/script.js:34-51 | visiting the sections in document order leaves the highlight of the last matching section's link (none if it has no link), and leaves the flags as they were when no section matches |
| Navigation.SetActiveNavLink | js/script.js:34-51 | the scroll handler's two loops over an array of link flags leave exactly the flags `ScanIsLastMatch` describes |
| Navigation.AtMostOneActive | js/script.js:44-49 | after a match at most one link is active; one is active exactly when the matched section has a link, and it is the link whose href is "#" + the section's id |
| Navigation.NoLinkClearsAll | js/script.js:44-49 | a matching section without a link clears every link's `active` class |
| Navigation.ScanIdempotent | js/script.js:34-53 | running the handler a second time at the same position (it is registered both directly and debounced) changes nothing |
| Navigation.AnchorTarget | js/script.js:59-72 | a click on an anchor scrolls to the first element with the named id, at its offsetTop − 70; there is no scroll for the bare "#" or for a missing target |
| Navigation.NavbarScrolled | js/script.js:12 | the navbar's test `scrollY > 50`; `ScrollIndicators.OnScroll` sets the class by it |
| Navigation.BackToTopVisible | js/script.js:203 | the back-to-top test `scrollY > 300`; `ScrollIndicators.OnScroll` sets the class by it |
| Navigation.BackToTopImpliesScrolled | js/script.js:202-207 | the back-to-top button shows only when the navbar also has its scrolled look (300 > 50) |
| Navigation.ScrollIndicators.OnScroll | js/script.js:11-17 | after a scroll event the navbar is "scrolled" iff scrollY > 50 and (with the listener at lines 202-207) the back-to-top button is visible iff scrollY > 300 (so, by `BackToTopImpliesScrolled`, visible implies scrolled) |
| Menu.OnHamburgerClick | js/script.js:20-23 | a hamburger click flips both the button's and the menu's `active` class |
| Menu.OnNavLinkClick | js/script.js:26-31 | a link click removes both classes, whatever they were |
| Menu.OnKeyDown | js/script.js:478-484 | only Escape acts: any other key changes nothing, Escape on an open navigation menu removes both classes, and while the menu is not active every key changes nothing |
| Menu.HandlersKeepSync | js/script.js:20-31 | from a state where the two classes agree, every handler leaves them agreeing; a hamburger click turns open into closed and closed into open |
| Menu.HamburgerTwiceRestores | js/script.js:20-23 | two hamburger clicks restore both classes |
| Menu.LinkClickIdempotent | js/script.js:26-31 | a second link click changes nothing |
| Menu.EscapeCloses | js/script.js:478-484 | Escape closes a menu whose two classes agree, and a second Escape changes nothing |
| Menu.MobileMenu.HamburgerClick | js/script.js:20-23 | the click handler updates both flags as `OnHamburgerClick` and keeps them in step |
| Menu.MobileMenu.NavLinkClick | js/script.js:26-31 | the link handler clears both flags as `OnNavLinkClick` |
| Menu.MobileMenu.KeyDown | js/script.js:478-484 | the keydown handler updates the flags as `OnKeyDown` and keeps them in step |
| EmailPattern.MatchesPattern | js/script.js:136-137 | the language of the regular expression: three non-empty runs of `[^\s@]` around a literal `@` and `.`; `PatternIsValidEmail` relates it to `IsValidEmail` |
| EmailPattern.IsValidEmail | js/script.js:136-137 | the executable test the handler's decision uses; `PatternIsValidEmail` proves it accepts exactly the pattern's language |
| EmailPattern.PatternIsValidEmail | js/script.js:136-137 | the regular expression (read over UTF-16 units, `\s` as ECMA-262 defines it) matches exactly the strings with no whitespace, one `@` with something before it, and a `.` after it that is neither first nor last in the domain |
| Unicode.CodePointAt | js/script.js:150-156 | the code point `encodeURIComponent` reads at the head of a string: an unpaired surrogate exactly when the first unit is a surrogate not starting a pair; otherwise a scalar value that re-encodes to the units it covers |
| Unicode.WellFormedConcat | js/script.js:150-156 | joining two strings keeps well-formedness in both directions, assumed only when the join does not put a high surrogate right before a low one |
| Unicode.Utf8RoundTrip | js/script.js:150-156 | the UTF-8 octets `encodeURIComponent` writes for a code point decode back to that code point |
| UriComponent.Encode | js/script.js:150-156 | `encodeURIComponent`, with None for the `URIError`; its partners are `DecodeEncode`, `EncodeFailsIffIllFormed` and `EncodeIsEncodedText` |
| UriComponent.DecodeEncode | js/script.js:150-156 | percent-decoding the output of `encodeURIComponent` returns the original string |
| UriComponent.EncodeFailsIffIllFormed | js/script.js:150-156 | `encodeURIComponent` throws exactly when the string holds an unpaired surrogate |
| UriComponent.EncodeIsEncodedText | js/script.js:150-156 | the output of `encodeURIComponent` consists of unreserved characters and '%' only |
| UriComponent.EncodedTextHasNoDelimiters | js/script.js:159 | such text holds no '?', '&', '=', '#', space, tab or line break, so it cannot break the structure of the mailto URI |
| ContactForm.Submit | js/script.js:129-171 | the handler's decision: missing fields, then a bad email, then the URI or the caught error; `ValidationOrder`, `ClientErrorIffIllFormed` and `SubmitLinkRoundTrip` state its properties |
| ContactForm.Recipient | js/script.js:149 | the fixed recipient address; `SubmitLinkRoundTrip` shows the link is addressed to it |
| ContactForm.SubjectText | js/script.js:150 | the subject line before encoding; `SubmitLinkRoundTrip` shows the subject header decodes to it |
| ContactForm.BodyText | js/script.js:151-156 | the message body before encoding; `BodyWellFormed` and `SubmitLinkRoundTrip` state its properties |
| ContactForm.MailtoLink | js/script.js:159 | the template of the mailto URI; `ParseMailtoLink` shows it parses back to the recipient and the two headers |
| ContactForm.HandleSubmit | js/script.js:118-184 | the outcome is the submit decision; the banner is the success banner exactly when the client was opened, with the exact source texts for each outcome; the form is reset only on success and otherwise keeps the input |
| ContactForm.ContactPage.OnSubmit | js/script.js:118-184 | one submit event leaves the inputs, the form message and the window location as `HandleSubmit` says; the window is navigated only on success |
| ContactForm.ValidationOrder | js/script.js:129-140 | "fill in all fields" is reported exactly when some field is empty; "valid email" exactly when all are filled and the email does not match the pattern; otherwise the URI is built or the build fails |
| ContactForm.BodyWellFormed | js/script.js:151-156 | the message body is free of unpaired surrogates exactly when all four fields are |
| ContactForm.ClientErrorIffIllFormed | js/script.js:147-178 | a validated submission reaches the catch branch exactly when some field holds an unpaired surrogate |
| ContactForm.ParseMailtoLink | js/script.js:159 | the URI built from two encoded values parses, under RFC 6068, to the fixed recipient with exactly the headers subject and body carrying those values |
| ContactForm.SubmitLinkRoundTrip | js/script.js:149-162 | on success, the navigated URI is a mailto URI to joinvkc@gmail.com; its subject and body headers hold no delimiter, and they percent-decode to "Portfolio Contact: " + subject and to the Name/Email/Subject/Message body |

## Left out

- Timers are not modelled as timers. The 1000 ms start delay, the `setTimeout` rescheduling in `type`, and the 10-second hiding of the form message are left out. Each tick's delay is kept in the typing state, and each `Tick` call stands for one timer callback.
- Scroll positions are floating point in the browser (`pageYOffset`, `scrollY`). The model uses integers.
- The `smooth` behaviour of `scrollTo` is not modelled; `AnchorTarget` gives only the target position.
- The back-to-top button's click, which scrolls to position 0, has no logic worth stating and is left out.
- `AnchorTarget` treats every `#name` href as a plain id lookup, but `querySelector` parses the href as a CSS selector. Hrefs that are not valid selectors (for example `#1x`) throw in the browser. Hrefs that are valid compound or complex selectors resolve differently: `#a.b` finds the element with id `a` only if it also has class `b`, and `#a b` finds a `b` element inside the element with id `a`. The model looks for an element whose id is the whole text after `#` in both cases.
- `setActiveNavLink` builds a selector with the section id spliced in. It is modelled as an exact comparison of `href` with `"#" + id`, so ids holding quotes or backslashes are not modelled.
- The scroll debounce wrapper (lines 441-456) is left out. The debounced call runs 10 ms later and reads the scroll position and the layout again. `ScanIdempotent` covers only a second run at the same position and layout; a run at a new position is simply another call of `SetActiveNavLink`, and nothing is stated about the ordering of the two listeners' runs.
- `ContactForm.ContactPage.OnSubmit`: the submit button's loading class and `disabled` flag are not modelled, because they are cleared again in `finally` on every path that sets them.
- `ContactForm.ContactPage.OnSubmit`: the browser's handling of the mailto navigation (opening a mail client) is outside the page. The model records only the URI the window is sent to.
- ContactForm.HandleSubmit: `contactForm.reset()` returns each control to the default value its markup gives. The model takes every default to be the empty string (`EmptyForm`), so a form whose markup pre-fills a field is not modelled. `ContactForm.ContactPage.OnSubmit` inherits this.
- The `console.error` call in the catch branch is left out.
- `Navigation.ScrollIndicators.constructor` and `Menu.MobileMenu.constructor` assume the markup loads without the `scrolled`, `visible` and `active` classes.
- IntersectionObserver triggers, skill tag animation, stat counters, parallax and card tilt are visual effects with nothing to state beyond CSS.
- Console banners, the load and preloader handlers, the `rel` attribute rewrite, focus outlines, print classes, the global error logger and the service-worker stub are left out. They are DOM or console plumbing.
- `EmailPattern.MatchesPattern` is ghost. It describes the regular expression's language with existential witnesses. The executable check the model uses is `IsValidEmail`, and `PatternIsValidEmail` proves the two equal.
- `decodeURIComponent` and the `mailto:` parser do not occur in the script. They are written as the inverses the encoded URI is proved against.
