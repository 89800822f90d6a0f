/** The `PaymentLinkGenerator` page component: its state (`formData`,
    `errors`, `upiLink`) and the handlers that change it. The transitions are
    given first as functions on a `Page` value, the specification, and then
    as the methods of a class whose fields the handlers update in place. */
module PaymentPage {
  import opened Wrappers
  import opened JsString
  import opened UpiPattern
  import opened JsNumber
  import opened Validation
  import opened PaymentLink

  /** The part of the component's state the handlers read and write. */
  datatype Page = Page(formData: FormData, errors: Errors, upiLink: string)

  /** The state on first render: four empty fields, no errors, no link. */
  const Initial: Page := Page(EmptyForm, map[], "")

  /** What every reachable state satisfies: errors only for the two
      validated fields, and a link that is either absent or has the
      payment-link shape. */
  predicate PageInvariant(p: Page) {
    p.errors.Keys <= {"upiId", "amount"} && (p.upiLink == "" || IsPaymentLink(p.upiLink))
  }

  /** `handleInputChange(field, value)`: the field takes the value, and an
      error shown for that field is blanked. */
  function AfterInputChange(p: Page, field: Field, value: string): (q: Page)
    ensures Get(q.formData, field) == value
    ensures forall g :: g != field ==> Get(q.formData, g) == Get(p.formData, g)
    ensures q.errors.Keys == p.errors.Keys
    ensures Key(field) in p.errors ==> q.errors[Key(field)] == ""
    ensures forall k :: k in p.errors && k != Key(field) ==> q.errors[k] == p.errors[k]
    ensures q.upiLink == p.upiLink
  {
    var key := Key(field);
    var errors := if key in p.errors && p.errors[key] != "" then p.errors[key := ""] else p.errors;
    Page(Set(p.formData, field, value), errors, p.upiLink)
  }

  /** `validateForm()` followed, when it returns true, by the link update of
      `generateLink()`, as one step. */
  function AfterGenerateLink(p: Page): Page {
    var errors := Validate(p.formData);
    if errors == map[] then Page(p.formData, errors, BuildLink(p.formData))
    else Page(p.formData, errors, p.upiLink)
  }

  /** `resetForm()`. */
  function AfterReset(p: Page): (q: Page)
    ensures forall f :: Get(q.formData, f) == ""
    ensures q.errors == map[] && q.upiLink == ""
  {
    Initial
  }

  /** Generating a link replaces the error map with the validator's, keeps
      the form, and changes the link only when validation passes, which it
      does exactly when the UPI ID has the shape `L@H` and the amount is a
      positive number. The new link then reads back as the five parameters
      pa, pn, am, cu, tn of the form. */
  lemma GenerateLinkSpec(p: Page)
    ensures AfterGenerateLink(p).formData == p.formData
    ensures AfterGenerateLink(p).errors == Validate(p.formData)
    ensures AfterGenerateLink(p).errors == map[] <==> IsUpiId(p.formData.upiId) && IsPositiveNumber(p.formData.amount)
    ensures AfterGenerateLink(p).errors != map[] ==> AfterGenerateLink(p).upiLink == p.upiLink
    ensures AfterGenerateLink(p).errors == map[] ==>
      AfterGenerateLink(p).upiLink == BuildLink(p.formData) &&
      ParseQuery(AfterGenerateLink(p).upiLink) == Some(LinkParams(p.formData)) &&
      IsPaymentLink(AfterGenerateLink(p).upiLink)
  {
    ValidateSpec(p.formData);
    if Validate(p.formData) == map[] {
      ValidLinkRoundTrip(p.formData);
    }
  }

  /** Generating twice in a row gives the same state as generating once. */
  lemma GenerateLinkIdempotent(p: Page)
    ensures AfterGenerateLink(AfterGenerateLink(p)) == AfterGenerateLink(p)
  {
  }

  /** Resetting twice is resetting once, and a reset page is the initial
      page. */
  lemma ResetIdempotent(p: Page)
    ensures AfterReset(AfterReset(p)) == AfterReset(p) == Initial
  {
  }

  /** The initial page satisfies the invariant and every handler keeps it. */
  lemma InvariantPreserved(p: Page, field: Field, value: string)
    requires PageInvariant(p)
    ensures PageInvariant(Initial)
    ensures PageInvariant(AfterInputChange(p, field, value))
    ensures PageInvariant(AfterGenerateLink(p))
    ensures PageInvariant(AfterReset(p))
  {
    GenerateLinkSpec(p);
    ValidateSpec(p.formData);
  }

  /** The page component. The fields are the component's state variables;
      each method is one handler, run to completion. */
  class PaymentLinkGenerator {
    var formData: FormData
    var errors: Errors
    var upiLink: string

    function State(): Page
      reads this
    {
      Page(formData, errors, upiLink)
    }

    ghost predicate Valid()
      reads this
    {
      PageInvariant(State())
    }

    constructor ()
      ensures Valid() && State() == Initial
    {
      formData := EmptyForm;
      errors := map[];
      upiLink := "";
    }

    method HandleInputChange(field: Field, value: string)
      requires Valid()
      modifies this
      ensures Valid()
      ensures State() == AfterInputChange(old(State()), field, value)
    {
      formData := Set(formData, field, value);
      if Key(field) in errors && errors[Key(field)] != "" {
        errors := errors[Key(field) := ""];
      }
    }

    /** `validateForm()`: fills a fresh error map field by field, replaces
        `errors` with it, and reports whether it is empty. */
    method ValidateForm() returns (ok: bool)
      requires Valid()
      modifies this
      ensures Valid()
      ensures formData == old(formData) && upiLink == old(upiLink)
      ensures errors == Validate(formData)
      ensures ok <==> errors == map[]
    {
      var upiId, amount := formData.upiId, formData.amount;
      var newErrors: Errors := map[];
      ghost var forUpiId, forAmount := UpiIdError(upiId), AmountError(amount);
      if Trim(upiId) == "" {
        newErrors := newErrors["upiId" := UpiIdRequired];
      } else if !Matches(upiId) {
        newErrors := newErrors["upiId" := UpiIdInvalid];
      }
      ghost var first := newErrors;
      assert first == if forUpiId.Some? then map["upiId" := forUpiId.value] else map[];
      if Trim(amount) == "" {
        newErrors := newErrors["amount" := AmountRequired];
      } else if !IsPositiveNumber(amount) {
        newErrors := newErrors["amount" := AmountInvalid];
      }
      assert newErrors == if forAmount.Some? then first["amount" := forAmount.value] else first;
      errors := newErrors;
      ok := |newErrors| == 0;
    }

    /** `generateLink()`: nothing more when validation fails, otherwise the
        link is built from the form. */
    method GenerateLink()
      requires Valid()
      modifies this
      ensures Valid()
      ensures State() == AfterGenerateLink(old(State()))
    {
      ghost var before := State();
      var ok := ValidateForm();
      if ok {
        upiLink := BuildLink(formData);
      }
      assert State() == AfterGenerateLink(before);
      GenerateLinkSpec(before);
    }

    method ResetForm()
      requires Valid()
      modifies this
      ensures Valid()
      ensures State() == AfterReset(old(State()))
    {
      formData := EmptyForm;
      upiLink := "";
      errors := map[];
    }
  }
}
