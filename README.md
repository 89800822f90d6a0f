# UPI payment link generator: a verified model of the form logic

The page `PaymentLinkGenerator` collects four fields: a recipient name, a UPI
ID, an amount and a message. It validates the UPI ID and the amount. It then
builds a payment URI of the form

    upi://pay?pa=<UPI ID>&pn=<name>&am=<amount>&cu=INR&tn=<message>

This project models in Dafny the logic under the page's rendering code:

- the form state (`formData`, `errors`, `upiLink`) and its handlers
  `handleInputChange`, `validateForm`, `generateLink` and `resetForm`;
- the validator's two field checks:
  - `trim`, with ECMAScript's white-space set;
  - the pattern `^[\w.-]+@[\w.-]+$`;
  - the `Number`/`parseFloat` amount test;
- the link template with its `'Payment'` fallbacks and
  `encodeURIComponent`.

Modules:

- `JsString`: ECMAScript white space and `String.prototype.trim`.
- `UpiPattern`: the UPI ID pattern, twice over:
  - as the automaton a regular-expression engine runs for it;
  - as the declarative shape `L@H`.
  The two are proved equal.
- `JsNumber`: `Number(s)` over decimal literals, and the amount test built
  on it.
- `Utf8`, `UriComponent`: `encodeURIComponent` and, as its partner,
  `decodeURIComponent`, following the Encode and Decode operations of
  ECMA-262 and the `%XX` form of section 2.1 of RFC 3986.
- `Validation`: the `FormData` and `Errors` shapes and the error map
  `validateForm` computes.
- `QueryString`, `PaymentLink`: the link template, and a reader for the
  query string that plays the part of the payment app. Several properties
  are stated through this reader:
  - which parameters the link carries;
  - in which order;
  - with which values.
- `PaymentPage`: the handlers as transitions on a `Page` value, and the
  class `PaymentLinkGenerator`, whose methods update the three state fields
  in place and are proved equal to those transitions.

The UPI ID and the amount go into the link as typed, without encoding.
`ValidLinkRoundTrip` shows that this cannot add or reorder parameters once
validation has passed. The pattern admits only `[A-Za-z0-9_.-]` and one `@`.
The model's amount test admits only white space, digits, `.` and `+`. The
amount is copied verbatim. The page's amount input is `type="number"`, so
the browser hands the handler either an empty string or an HTML
floating-point number. White space around the amount, or a leading `+`,
therefore reaches `am` only when the handler is called directly.

## Model

| member | source | states |
|---|---|---|
| JsString.Trim | src/app/page.tsx:38 | `trim` returns a slice of the input with only white space cut from either end, and it neither starts nor ends with white space |
| JsString.TrimEmptyIffBlank | src/app/page.tsx:38 | `!s.trim()` holds exactly when every character of `s` is ECMAScript white space |
| UpiPattern.MatchesIffUpiId | src/app/page.tsx:40 | the automaton for `^[\w.-]+@[\w.-]+$` accepts a string exactly when it is `L@H`, with `L` and `H` non-empty runs of `[A-Za-z0-9_.-]` |
| UpiPattern.UpiIdShape | src/app/page.tsx:40 | a well-formed UPI ID has exactly one `@`, and every other character is in `[A-Za-z0-9_.-]` |
| JsNumber.DecimalPositive | src/app/page.tsx:46 | a parsed decimal is greater than 0 exactly when it has no minus sign and a non-zero mantissa |
| JsNumber.PositiveNumberIff | src/app/page.tsx:46 | the amount test passes exactly when the trimmed text is a decimal literal that does not start with `-` and has a digit other than `0` |
| JsNumber.DigitsArePositive | src/app/page.tsx:46 | a run of digits that are not all `0` passes the amount test and reads as its digit value |
| JsNumber.PositiveNumberChars | src/app/page.tsx:44-47 | an amount that passes is not blank and holds only white space, digits, `.` and `+` |
| Utf8.EncodeChar | src/app/page.tsx:60-62 | a code point becomes 1 to 4 octets; the first octet announces the length, the rest are continuation octets, and only ASCII takes one octet |
| Utf8.DecodeEncodeChar | src/app/page.tsx:60-62 | decoding the UTF-8 octets of a code point gives back that code point |
| UriComponent.EncodeIsEncoded | src/app/page.tsx:60-62 | the output of `encodeURIComponent` consists of unreserved characters and `%XX` triples with upper-case hex digits |
| UriComponent.EncodedChars | src/app/page.tsx:60-62 | an encoded string holds only unreserved characters and `%` |
| UriComponent.EncodedHasNoDelimiters | src/app/page.tsx:60-62 | no `&`, `=`, `#`, `?` or space ever occurs in the output of `encodeURIComponent` |
| UriComponent.EncodeUnreserved | src/app/page.tsx:60-62 | a string of unreserved characters encodes to itself |
| UriComponent.DecodeEncode | src/app/page.tsx:60-62 | `decodeURIComponent(encodeURIComponent(s))` is `s` for every string |
| Validation.Set | src/app/page.tsx:29 | `{ ...prev, [field]: value }` sets that field and leaves the other three unchanged |
| Validation.ErrorMap | src/app/page.tsx:36-49 | the error map has a key only for a field that has a message, under that field's name and with that message, and no other keys |
| Validation.UpiIdErrorSpec | src/app/page.tsx:38-42 | the UPI ID gets "UPI ID is required" exactly when blank, "Please enter a valid UPI ID" exactly when not blank and not `L@H`, and no message exactly when it is `L@H` |
| Validation.AmountErrorSpec | src/app/page.tsx:44-48 | the amount gets "Amount is required" exactly when blank, "Please enter a valid amount" exactly when not blank and not a positive number, and no message exactly when it is a positive number |
| Validation.ValidateSpec | src/app/page.tsx:35-52 | the error map holds only the keys `upiId` and `amount`, each present exactly when its check fails and holding the right message; it is empty exactly when both fields are valid |
| Validation.ValidateIgnoresFreeText | src/app/page.tsx:35-52 | the name and the message have no influence on validation |
| QueryString.SplitJoin | src/app/page.tsx:60-62 | splitting at `&` undoes joining with `&` when no piece holds `&` |
| PaymentLink.OrFallback | src/app/page.tsx:61-62 | an empty input gives `Payment`, and any other input is kept as it is |
| PaymentLink.TemplateIsJoin | src/app/page.tsx:60-62 | the link is `upi://pay?` followed by the five pieces `pa=`, `pn=`, `am=`, `cu=INR`, `tn=` joined with `&` |
| PaymentLink.ParseTemplate | src/app/page.tsx:60-62 | when none of the four values holds `&`, the link reads back as exactly the parameters pa, pn, am, cu, tn, in that order, with the values put in |
| PaymentLink.ParseBuildLink | src/app/page.tsx:60-62 | when the UPI ID and the amount hold no `&`, the encoded name and message cannot add a parameter, and the link carries exactly five |
| PaymentLink.LinkParamsDecode | src/app/page.tsx:60-62 | the `pn` and `tn` values decode back to the name and the message, or to `Payment` for an empty one |
| PaymentLink.ValidLinkRoundTrip | src/app/page.tsx:55-64 | a link built from a form that passed validation has the payment-link shape: five parameters in order, UPI ID and amount as typed, currency INR, and name and message recoverable by decoding |
| PaymentLink.FallbackLink | src/app/page.tsx:60-62 | an empty name and an empty message both appear in the link as `Payment` |
| PaymentLink.AliceLink | src/app/page.tsx:60-62 | name Alice, UPI ID alice@bank, amount 100 and no message give `upi://pay?pa=alice@bank&pn=Alice&am=100&cu=INR&tn=Payment` |
| PaymentLink.AliceValid | src/app/page.tsx:35-52 | that form passes validation |
| PaymentPage.AfterInputChange | src/app/page.tsx:28-33 | the field takes the value and the other fields keep theirs; an error entry for that field becomes empty; no other error entry and no key changes; the link stays |
| PaymentPage.AfterReset | src/app/page.tsx:78-82 | after a reset all four fields are empty, the error map is empty and there is no link |
| PaymentPage.GenerateLinkSpec | src/app/page.tsx:54-66 | generating keeps the form and replaces the errors with the validator's; it changes the link only when both fields are valid, and the new link then reads back as the form's five parameters |
| PaymentPage.GenerateLinkIdempotent | src/app/page.tsx:54-66 | generating twice in a row gives the same state, and so the same link, as generating once |
| PaymentPage.ResetIdempotent | src/app/page.tsx:78-82 | resetting twice is resetting once, and the result is the initial state |
| PaymentPage.InvariantPreserved | src/app/page.tsx:17-82 | the initial state and every handler keep the error keys within `upiId` and `amount`, and keep the link either empty or a well-formed payment link |
| PaymentPage.PaymentLinkGenerator.constructor | src/app/page.tsx:17-24 | the component starts with empty fields, no errors and no link |
| PaymentPage.PaymentLinkGenerator.HandleInputChange | src/app/page.tsx:28-33 | the handler updates the fields in place to the state `AfterInputChange` gives, and keeps the invariant |
| PaymentPage.PaymentLinkGenerator.ValidateForm | src/app/page.tsx:35-52 | the handler fills a fresh error map field by field and stores it as the validator's map; it returns true exactly when that map is empty; form and link are untouched |
| PaymentPage.PaymentLinkGenerator.GenerateLink | src/app/page.tsx:54-66 | the handler validates, and on success stores the built link; the new state is `AfterGenerateLink` of the old one |
| PaymentPage.PaymentLinkGenerator.ResetForm | src/app/page.tsx:78-82 | the handler clears the fields, the link and the errors, which gives the state `AfterReset` describes |

## Left out

- The page's rendering, styling and QR code (src/app/page.tsx:84-310). The `react-qr-code` component is a foreign library.
- `copyLink`, `navigator.clipboard`, `alert` and the `copySuccess` timer (src/app/page.tsx:68-76). These are browser I/O and timing.
- The 500 ms delay and the `isGenerating` flag inside `generateLink` (src/app/page.tsx:57-58, 65). `generateLink` is one atomic step here. The link is built from the same `formData` that was validated, as in the source.
- JsNumber.IsPositiveNumber: it covers decimal literals without an exponent, with an optional sign and surrounding white space. Exponent forms (`1e3`) and `Infinity` pass the test in JavaScript but not in the model. A positive value that underflows to 0 as a double passes in the model but not in JavaScript. Hexadecimal, binary and octal literals fail in both: `parseFloat` reads them as 0. The amount input is `type="number"` (src/app/page.tsx:160), so exponent forms such as `1e3` are ordinary input from the page, and the model rejects them.
- UriComponent.EncodeURIComponent: a Dafny `char` is a Unicode scalar value, so lone UTF-16 surrogates cannot occur. The `URIError` that `encodeURIComponent` throws on them is therefore not modelled.
- The source does not encode `pa` and `am`. The model copies them verbatim too. The behaviour is proved only for input that passed validation.
