/** The payment URI that `generateLink` builds from the form, and a reader
    for its query string that shows which parameters a payment app sees. */
module PaymentLink {
  import opened Wrappers
  import opened Validation
  import opened UriComponent
  import opened QueryString
  import UpiPattern
  import JsNumber

  const Prefix: string := "upi://pay?"
  const Currency: string := "INR"
  const Fallback: string := "Payment"

  /** `s || 'Payment'`: the empty string is the only falsy string, so a name
      of spaces is kept. */
  function OrFallback(s: string): (r: string)
    ensures r != []
    ensures s == [] ==> r == Fallback
    ensures s != [] ==> r == s
  {
    if s == [] then Fallback else s
  }

  /** The template string of `generateLink`, with the four values it
      interpolates as parameters. */
  function Template(pa: string, pn: string, am: string, tn: string): string {
    Prefix + "pa=" + pa + "&pn=" + pn + "&am=" + am + "&cu=" + Currency + "&tn=" + tn
  }

  /** The link `generateLink` builds: `pa` and `am` are inserted as typed,
      `pn` and `tn` are the name and the message, or `Payment` for an empty
      one, encoded. */
  function BuildLink(d: FormData): string {
    Template(d.upiId, EncodeURIComponent(OrFallback(d.name)), d.amount, EncodeURIComponent(OrFallback(d.message)))
  }

  /** The parameters of a `upi://pay?` URI, in order. */
  function ParseQuery(link: string): Option<seq<Param>> {
    if Prefix <= link then Some(ParseParams(link[|Prefix|..])) else None
  }

  lemma AppendParam(prefix: string, query: string, key: string, value: string)
    ensures prefix + query + (['&'] + key) + value == prefix + (query + ['&'] + (key + value))
  {
  }

  /** The query of the template, as `name=value` pieces joined with `&`. */
  lemma {:induction false} TemplateIsJoin(pa: string, pn: string, am: string, tn: string)
    ensures Prefix <= Template(pa, pn, am, tn)
    ensures Template(pa, pn, am, tn)[|Prefix|..]
         == Join(["pa=" + pa, "pn=" + pn, "am=" + am, "cu=" + Currency, "tn=" + tn], '&')
  {
    JoinFive("pa=" + pa, "pn=" + pn, "am=" + am, "cu=" + Currency, "tn=" + tn, '&');
    var q0 := "pa=" + pa;
    assert Prefix + "pa=" + pa == Prefix + q0;
    assert "&pn=" == ['&'] + "pn=";
    AppendParam(Prefix, q0, "pn=", pn);
    var q1 := q0 + ['&'] + ("pn=" + pn);
    assert Prefix + "pa=" + pa + "&pn=" + pn == Prefix + q1;
    assert "&am=" == ['&'] + "am=";
    AppendParam(Prefix, q1, "am=", am);
    var q2 := q1 + ['&'] + ("am=" + am);
    assert Prefix + "pa=" + pa + "&pn=" + pn + "&am=" + am == Prefix + q2;
    assert "&cu=" == ['&'] + "cu=";
    AppendParam(Prefix, q2, "cu=", Currency);
    var q3 := q2 + ['&'] + ("cu=" + Currency);
    assert Prefix + "pa=" + pa + "&pn=" + pn + "&am=" + am + "&cu=" + Currency == Prefix + q3;
    assert "&tn=" == ['&'] + "tn=";
    AppendParam(Prefix, q3, "tn=", tn);
    var q4 := q3 + ['&'] + ("tn=" + tn);
    assert Template(pa, pn, am, tn) == Prefix + q4;
    assert (Prefix + q4)[|Prefix|..] == q4;
  }

  /** As long as none of the four values holds `&`, the link carries exactly
      five parameters, pa, pn, am, cu and tn in that order, each with the
      value put in. */
  lemma {:induction false} ParseTemplate(pa: string, pn: string, am: string, tn: string)
    requires '&' !in pa && '&' !in pn && '&' !in am && '&' !in tn
    ensures ParseQuery(Template(pa, pn, am, tn)) == Some([("pa", pa), ("pn", pn), ("am", am), ("cu", Currency), ("tn", tn)])
  {
    var pieces := ["pa=" + pa, "pn=" + pn, "am=" + am, "cu=" + Currency, "tn=" + tn];
    var ps := [("pa", pa), ("pn", pn), ("am", am), ("cu", Currency), ("tn", tn)];
    assert '&' !in pieces[0] && '&' !in pieces[1] && '&' !in pieces[2] && '&' !in pieces[3] && '&' !in pieces[4];
    ParseNamedParam("pa=", "pa", pa);
    ParseNamedParam("pn=", "pn", pn);
    ParseNamedParam("am=", "am", am);
    ParseNamedParam("cu=", "cu", Currency);
    ParseNamedParam("tn=", "tn", tn);
    ParseJoined(pieces, ps);
    TemplateIsJoin(pa, pn, am, tn);
  }

  /** The parameters the link built from `d` carries, in the order pa, pn,
      am, cu, tn. */
  function LinkParams(d: FormData): seq<Param> {
    [("pa", d.upiId), ("pn", EncodeURIComponent(OrFallback(d.name))), ("am", d.amount),
     ("cu", Currency), ("tn", EncodeURIComponent(OrFallback(d.message)))]
  }

  /** As long as the UPI ID and the amount hold no `&`, the encoded name and
      message cannot add a parameter: the link carries exactly the five of
      `LinkParams`. */
  lemma ParseBuildLink(d: FormData)
    requires '&' !in d.upiId && '&' !in d.amount
    ensures ParseQuery(BuildLink(d)) == Some(LinkParams(d))
  {
    var pn := EncodeURIComponent(OrFallback(d.name));
    var tn := EncodeURIComponent(OrFallback(d.message));
    EncodedHasNoDelimiters(OrFallback(d.name));
    EncodedHasNoDelimiters(OrFallback(d.message));
    assert '&' !in pn && '&' !in tn;
    ParseTemplate(d.upiId, pn, d.amount, tn);
  }

  /** The shape of the parameters of every link the page shows: five
      parameters in the fixed order, a well-formed UPI ID, a positive amount,
      the fixed currency, and a name and a message that decode. */
  predicate IsPaymentParams(ps: seq<Param>) {
    |ps| == 5 && ps[0].0 == "pa" && ps[1].0 == "pn" && ps[2].0 == "am" && ps[3] == ("cu", Currency) && ps[4].0 == "tn" &&
    UpiPattern.IsUpiId(ps[0].1) && JsNumber.IsPositiveNumber(ps[2].1) &&
    DecodeURIComponent(ps[1].1).Some? && DecodeURIComponent(ps[4].1).Some?
  }

  predicate IsPaymentLink(link: string) {
    ParseQuery(link).Some? && IsPaymentParams(ParseQuery(link).value)
  }

  lemma NoAmpersand(d: FormData)
    requires Validate(d) == map[]
    ensures '&' !in d.upiId && '&' !in d.amount
  {
    ValidateSpec(d);
    UpiIdHasNoAmpersand(d.upiId);
    AmountHasNoAmpersand(d.amount);
  }

  lemma UpiIdHasNoAmpersand(u: string)
    requires UpiPattern.IsUpiId(u)
    ensures '&' !in u
  {
    var k :| UpiPattern.SplitsAt(u, k);
    assert UpiPattern.SplitsAt(u, k);
    UpiPattern.UpiIdShape(u, k);
    assert forall j :: 0 <= j < |u| ==> u[j] != '&';
  }

  lemma AmountHasNoAmpersand(a: string)
    requires JsNumber.IsPositiveNumber(a)
    ensures '&' !in a
  {
    JsNumber.PositiveNumberChars(a);
    assert forall j :: 0 <= j < |a| ==> a[j] != '&';
  }

  /** The name and the message read back from the link are the ones typed,
      or the fallback for an empty one. */
  lemma LinkParamsDecode(d: FormData)
    ensures DecodeURIComponent(LinkParams(d)[1].1) == Some(OrFallback(d.name))
    ensures DecodeURIComponent(LinkParams(d)[4].1) == Some(OrFallback(d.message))
  {
    DecodeEncode(OrFallback(d.name));
    DecodeEncode(OrFallback(d.message));
  }

  lemma ValidParams(d: FormData)
    requires Validate(d) == map[]
    ensures IsPaymentParams(LinkParams(d))
  {
    var ps := LinkParams(d);
    assert UpiPattern.IsUpiId(ps[0].1) && JsNumber.IsPositiveNumber(ps[2].1) by {
      ValidateSpec(d);
    }
    assert DecodeURIComponent(ps[1].1).Some? && DecodeURIComponent(ps[4].1).Some? by {
      LinkParamsDecode(d);
    }
  }

  /** A link built from a form that passed validation has the payment-link
      shape, and reading it back gives the UPI ID and the amount as typed and
      the name and the message, or the fallback for an empty one. */
  lemma ValidLinkRoundTrip(d: FormData)
    requires Validate(d) == map[]
    ensures IsPaymentLink(BuildLink(d))
    ensures ParseQuery(BuildLink(d)) == Some(LinkParams(d))
    ensures DecodeURIComponent(LinkParams(d)[1].1) == Some(OrFallback(d.name))
    ensures DecodeURIComponent(LinkParams(d)[4].1) == Some(OrFallback(d.message))
  {
    NoAmpersand(d);
    ParseBuildLink(d);
    ValidParams(d);
    LinkParamsDecode(d);
  }

  /** An empty name and an empty message both become the parameter value
      `Payment`. */
  lemma FallbackLink(d: FormData)
    requires d.name == [] && d.message == []
    ensures BuildLink(d) == Template(d.upiId, "Payment", d.amount, "Payment")
  {
    EncodeUnreserved(Fallback);
  }

  /** The link for recipient Alice, address alice@bank, amount 100 and no
      message. */
  lemma AliceLink()
    ensures BuildLink(FormData("Alice", "alice@bank", "100", "")) == "upi://pay?pa=alice@bank&pn=Alice&am=100&cu=INR&tn=Payment"
  {
    var d := FormData("Alice", "alice@bank", "100", "");
    EncodeUnreserved("Alice");
    EncodeUnreserved(Fallback);
    assert BuildLink(d) == Template("alice@bank", "Alice", "100", "Payment");
    AliceTemplate();
  }

  lemma AliceTemplate()
    ensures Template("alice@bank", "Alice", "100", "Payment") == "upi://pay?pa=alice@bank&pn=Alice&am=100&cu=INR&tn=Payment"
  {
    assert Prefix + "pa=" == "upi://pay?pa=";
    assert "upi://pay?pa=" + "alice@bank" == "upi://pay?pa=alice@bank";
    assert "upi://pay?pa=alice@bank" + "&pn=" == "upi://pay?pa=alice@bank&pn=";
    assert "upi://pay?pa=alice@bank&pn=" + "Alice" == "upi://pay?pa=alice@bank&pn=Alice";
    assert "upi://pay?pa=alice@bank&pn=Alice" + "&am=" == "upi://pay?pa=alice@bank&pn=Alice&am=";
    assert "upi://pay?pa=alice@bank&pn=Alice&am=" + "100" == "upi://pay?pa=alice@bank&pn=Alice&am=100";
    assert "upi://pay?pa=alice@bank&pn=Alice&am=100" + "&cu=" == "upi://pay?pa=alice@bank&pn=Alice&am=100&cu=";
    assert "upi://pay?pa=alice@bank&pn=Alice&am=100&cu=" + Currency == "upi://pay?pa=alice@bank&pn=Alice&am=100&cu=INR";
    assert "upi://pay?pa=alice@bank&pn=Alice&am=100&cu=INR" + "&tn=" == "upi://pay?pa=alice@bank&pn=Alice&am=100&cu=INR&tn=";
    assert "upi://pay?pa=alice@bank&pn=Alice&am=100&cu=INR&tn=" + "Payment" == "upi://pay?pa=alice@bank&pn=Alice&am=100&cu=INR&tn=Payment";
  }

  /** That form passes validation. */
  lemma AliceValid()
    ensures Validate(FormData("Alice", "alice@bank", "100", "")) == map[]
  {
    AliceUpiId();
    AliceAmount();
    ValidateSpec(FormData("Alice", "alice@bank", "100", ""));
  }

  lemma AliceUpiId()
    ensures UpiPattern.IsUpiId("alice@bank")
  {
    var u := "alice@bank";
    assert u[..5] == "alice" && u[6..] == "bank";
    assert UpiPattern.SplitsAt(u, 5);
  }

  lemma AliceAmount()
    ensures JsNumber.IsPositiveNumber("100")
  {
    var a := "100";
    assert JsNumber.AllDigits(a) by {
      forall i | 0 <= i < |a| ensures JsNumber.IsDigit(a[i]) {
      }
    }
    assert '1' <= a[0] <= '9';
    JsNumber.DigitsArePositive(a);
  }
}
