/** The form's data and the validator `validateForm`: which field gets which
    message. */
module Validation {
  import opened Wrappers
  import opened JsString
  import opened UpiPattern
  import opened JsNumber

  /** The `FormData` record: four free-text fields. */
  datatype FormData = FormData(name: string, upiId: string, amount: string, message: string)

  /** `keyof FormData`. */
  datatype Field = Name | UpiId | Amount | Message

  /** The `Errors` record: messages keyed by field name. */
  type Errors = map<string, string>

  function Key(f: Field): string {
    match f
    case Name => "name"
    case UpiId => "upiId"
    case Amount => "amount"
    case Message => "message"
  }

  function Get(d: FormData, f: Field): string {
    match f
    case Name => d.name
    case UpiId => d.upiId
    case Amount => d.amount
    case Message => d.message
  }

  /** `{ ...d, [f]: v }`: field `f` becomes `v` and the other three keep
      their values. */
  function Set(d: FormData, f: Field, v: string): (e: FormData)
    ensures Get(e, f) == v
    ensures forall g :: g != f ==> Get(e, g) == Get(d, g)
  {
    match f
    case Name => d.(name := v)
    case UpiId => d.(upiId := v)
    case Amount => d.(amount := v)
    case Message => d.(message := v)
  }

  const EmptyForm: FormData := FormData("", "", "", "")

  const UpiIdRequired: string := "UPI ID is required"
  const UpiIdInvalid: string := "Please enter a valid UPI ID"
  const AmountRequired: string := "Amount is required"
  const AmountInvalid: string := "Please enter a valid amount"

  /** The message for the UPI ID: the required check runs on the trimmed
      text, the format check on the text as typed. */
  function UpiIdError(s: string): Option<string> {
    if Trim(s) == "" then Some(UpiIdRequired)
    else if !Matches(s) then Some(UpiIdInvalid)
    else None
  }

  /** The message for the amount. */
  function AmountError(s: string): Option<string> {
    if Trim(s) == "" then Some(AmountRequired)
    else if !IsPositiveNumber(s) then Some(AmountInvalid)
    else None
  }

  /** The error map `validateForm` builds: an entry for a field exactly when
      that field has a message. */
  function Validate(d: FormData): Errors {
    ErrorMap(UpiIdError(d.upiId), AmountError(d.amount))
  }

  function ErrorMap(forUpiId: Option<string>, forAmount: Option<string>): (e: Errors)
    ensures e.Keys <= {"upiId", "amount"}
    ensures "upiId" in e <==> forUpiId.Some?
    ensures forUpiId.Some? ==> e["upiId"] == forUpiId.value
    ensures "amount" in e <==> forAmount.Some?
    ensures forAmount.Some? ==> e["amount"] == forAmount.value
  {
    var first := if forUpiId.Some? then map["upiId" := forUpiId.value] else map[];
    if forAmount.Some? then first["amount" := forAmount.value] else first
  }

  /** The UPI ID gets "required" exactly when it is blank, "invalid" exactly
      when it is not blank and not of the shape `L@H`, and no entry exactly
      when it is of that shape. */
  lemma UpiIdErrorSpec(s: string)
    ensures UpiIdError(s) == Some(UpiIdRequired) <==> IsBlank(s)
    ensures UpiIdError(s) == Some(UpiIdInvalid) <==> !IsBlank(s) && !IsUpiId(s)
    ensures UpiIdError(s) == None <==> IsUpiId(s)
  {
    TrimEmptyIffBlank(s);
    MatchesIffUpiId(s);
    UpiIdNotBlank(s);
  }

  lemma UpiIdNotBlank(s: string)
    ensures IsUpiId(s) ==> !IsBlank(s)
  {
    if IsUpiId(s) {
      var k :| SplitsAt(s, k);
      assert SplitsAt(s, k);
      assert !IsWhiteSpace(s[k]);
    }
  }

  /** The amount gets "required" exactly when it is blank, "invalid" exactly
      when it is not blank and not a positive number, and no entry exactly
      when it is a positive number. */
  lemma AmountErrorSpec(s: string)
    ensures AmountError(s) == Some(AmountRequired) <==> IsBlank(s)
    ensures AmountError(s) == Some(AmountInvalid) <==> !IsBlank(s) && !IsPositiveNumber(s)
    ensures AmountError(s) == None <==> IsPositiveNumber(s)
  {
    TrimEmptyIffBlank(s);
    if IsPositiveNumber(s) {
      PositiveNumberChars(s);
    }
  }

  /** The error map holds no key but `upiId` and `amount`; each entry is the
      field's message; and the map is empty, so that validation returns
      true, exactly when the UPI ID has the shape `L@H` and the amount is a
      positive number. */
  lemma ValidateSpec(d: FormData)
    ensures Validate(d).Keys <= {"upiId", "amount"}
    ensures "upiId" in Validate(d) <==> !IsUpiId(d.upiId)
    ensures "upiId" in Validate(d) ==> Validate(d)["upiId"] == (if IsBlank(d.upiId) then UpiIdRequired else UpiIdInvalid)
    ensures "amount" in Validate(d) <==> !IsPositiveNumber(d.amount)
    ensures "amount" in Validate(d) ==> Validate(d)["amount"] == (if IsBlank(d.amount) then AmountRequired else AmountInvalid)
    ensures Validate(d) == map[] <==> IsUpiId(d.upiId) && IsPositiveNumber(d.amount)
  {
    UpiIdErrorSpec(d.upiId);
    AmountErrorSpec(d.amount);
    var e := Validate(d);
    if "upiId" !in e && "amount" !in e {
      assert e.Keys == {};
    }
  }

  /** The name and the message are never validated. */
  lemma ValidateIgnoresFreeText(d: FormData, name: string, message: string)
    ensures Validate(d.(name := name, message := message)) == Validate(d)
  {
  }
}
