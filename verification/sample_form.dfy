/** The sample application form (src/pages/SampleRequest.tsx): its own
    validation, the per-field edit handler, the quantity input, and the
    reset after a successful submit — and how its checks compare with the
    request service's (module Submissions). */
module SampleForm {
  import opened Wrappers
  import opened Text
  import opened Submissions

  /** The fields of the form, one per property of `SampleRequest`. */
  datatype Field =
    | NameField | PhoneField | EmailField | CompanyField | PositionField | SampleNameField
    | QuantityField | RequiredDateField | PurposeField | RequirementsField | AddressField | UrgencyField

  /** The error map of the form: a message per field that failed. */
  type Errors = map<Field, string>

  /** The messages the form shows. */
  const NameMissing := "请输入姓名"
  const PhoneMissing := "请输入手机号码"
  const PhoneInvalid := "请输入有效的手机号码"
  const EmailMissing := "请输入邮箱地址"
  const EmailInvalid := "请输入有效的邮箱地址"
  const CompanyMissing := "请输入公司名称"
  const SampleNameMissing := "请选择样品名称"
  const RequiredDateMissing := "请选择需求时间"
  const RequirementsMissing := "请输入需求概述"
  const AddressMissing := "请输入收货地址"

  /** The fields the form checks. */
  const CheckedFields := {NameField, PhoneField, EmailField, CompanyField, SampleNameField,
                          RequiredDateField, RequirementsField, AddressField}

  /** The message `validateForm` records for one field, if any: blank
      required text, an empty date, or — for a phone or e-mail that is not
      blank — a value as typed that does not match its pattern. */
  function FieldError(form: SampleRequest, f: Field): Option<string> {
    match f
    case NameField => if IsBlank(form.name) then Some(NameMissing) else None
    case PhoneField =>
      if IsBlank(form.phone) then Some(PhoneMissing)
      else if !MatchesPhone(form.phone) then Some(PhoneInvalid)
      else None
    case EmailField =>
      if IsBlank(form.email) then Some(EmailMissing)
      else if !MatchesEmail(form.email) then Some(EmailInvalid)
      else None
    case CompanyField => if IsBlank(form.company) then Some(CompanyMissing) else None
    case SampleNameField => if IsBlank(form.sampleName) then Some(SampleNameMissing) else None
    case RequiredDateField => if form.requiredDate == "" then Some(RequiredDateMissing) else None
    case RequirementsField => if IsBlank(form.requirements) then Some(RequirementsMissing) else None
    case AddressField => if IsBlank(form.address) then Some(AddressMissing) else None
    case _ => None
  }

  /** `validateForm`'s error map: one message per field that fails, so each
      field has at most one; the order the source adds them in does not
      matter to a map. */
  function ValidateForm(form: SampleRequest): (errs: Errors)
    ensures errs.Keys <= CheckedFields
    ensures NameField in errs <==> IsBlank(form.name)
    ensures PhoneField in errs <==> IsBlank(form.phone) || !MatchesPhone(form.phone)
    ensures EmailField in errs <==> IsBlank(form.email) || !MatchesEmail(form.email)
    ensures CompanyField in errs <==> IsBlank(form.company)
    ensures SampleNameField in errs <==> IsBlank(form.sampleName)
    ensures RequiredDateField in errs <==> form.requiredDate == ""
    ensures RequirementsField in errs <==> IsBlank(form.requirements)
    ensures AddressField in errs <==> IsBlank(form.address)
    ensures PhoneField in errs ==> errs[PhoneField] == if IsBlank(form.phone) then PhoneMissing else PhoneInvalid
    ensures EmailField in errs ==> errs[EmailField] == if IsBlank(form.email) then EmailMissing else EmailInvalid
    ensures NameField in errs ==> errs[NameField] == NameMissing
    ensures RequiredDateField in errs ==> errs[RequiredDateField] == RequiredDateMissing
    ensures CompanyField in errs ==> errs[CompanyField] == CompanyMissing
    ensures SampleNameField in errs ==> errs[SampleNameField] == SampleNameMissing
    ensures RequirementsField in errs ==> errs[RequirementsField] == RequirementsMissing
    ensures AddressField in errs ==> errs[AddressField] == AddressMissing
  {
    map f | f in CheckedFields && FieldError(form, f).Some? :: FieldError(form, f).value
  }

  /** `validateForm()`'s result: the error map has no keys. */
  predicate FormValid(form: SampleRequest) {
    |ValidateForm(form)| == 0
  }

  /** What the form demands, stated field by field. */
  predicate FormAcceptable(form: SampleRequest) {
    && !IsBlank(form.name) && MatchesPhone(form.phone) && MatchesEmail(form.email)
    && !IsBlank(form.company) && !IsBlank(form.sampleName) && form.requiredDate != ""
    && !IsBlank(form.requirements) && !IsBlank(form.address)
  }

  /** The form submits exactly when every check passes; position, purpose,
      quantity and urgency are never checked. */
  lemma FormValidIff(form: SampleRequest)
    ensures FormValid(form) <==> FormAcceptable(form)
  {
    var errs := ValidateForm(form);
    if FormAcceptable(form) {
      PhoneNotBlank(form.phone);
      assert errs.Keys == {};
    } else {
      assert exists f :: f in errs;
    }
  }

  /** A matching phone number is not blank. */
  lemma PhoneNotBlank(s: string)
    requires MatchesPhone(s)
    ensures !IsBlank(s)
  {
    assert !IsSpace(s[0]);
  }

  /** A correct number typed with a leading space fails the form's phone
      check, although it is not blank. */
  lemma PaddedPhoneRejected(form: SampleRequest, number: string)
    requires MatchesPhone(number)
    ensures var errs := ValidateForm(form.(phone := " " + number));
      PhoneField in errs && errs[PhoneField] == PhoneInvalid
  {
    PhoneHasNoPadding(number);
    assert (" " + number)[1] == number[0];
    assert !IsBlank(" " + number);
  }

  /** A value of the kind a field holds. */
  datatype FieldValue = Text(text: string) | Number(number: int) | Level(level: Urgency)

  /** The value kind of each field: the quantity is a number, the urgency a level, the rest text. */
  predicate Fits(f: Field, v: FieldValue) {
    if f == QuantityField then v.Number?
    else if f == UrgencyField then v.Level?
    else v.Text?
  }

  /** The value of one field. */
  function Get(form: SampleRequest, f: Field): (v: FieldValue)
    ensures Fits(f, v)
  {
    match f
    case NameField => Text(form.name)
    case PhoneField => Text(form.phone)
    case EmailField => Text(form.email)
    case CompanyField => Text(form.company)
    case PositionField => Text(form.position)
    case SampleNameField => Text(form.sampleName)
    case QuantityField => Number(form.quantity)
    case RequiredDateField => Text(form.requiredDate)
    case PurposeField => Text(form.purpose)
    case RequirementsField => Text(form.requirements)
    case AddressField => Text(form.address)
    case UrgencyField => Level(form.urgency)
  }

  /** `{ ...prev, [field]: value }`. */
  function Set(form: SampleRequest, f: Field, v: FieldValue): SampleRequest
    requires Fits(f, v)
  {
    match f
    case NameField => form.(name := v.text)
    case PhoneField => form.(phone := v.text)
    case EmailField => form.(email := v.text)
    case CompanyField => form.(company := v.text)
    case PositionField => form.(position := v.text)
    case SampleNameField => form.(sampleName := v.text)
    case QuantityField => form.(quantity := v.number)
    case RequiredDateField => form.(requiredDate := v.text)
    case PurposeField => form.(purpose := v.text)
    case RequirementsField => form.(requirements := v.text)
    case AddressField => form.(address := v.text)
    case UrgencyField => form.(urgency := v.level)
  }

  /** Two forms that agree on every field are the same form. */
  lemma FormsAgreeOnFields(a: SampleRequest, b: SampleRequest)
    ensures (forall f :: Get(a, f) == Get(b, f)) <==> a == b
  {
    if forall f :: Get(a, f) == Get(b, f) {
      assert Get(a, NameField) == Get(b, NameField) && Get(a, PhoneField) == Get(b, PhoneField);
      assert Get(a, EmailField) == Get(b, EmailField) && Get(a, CompanyField) == Get(b, CompanyField);
      assert Get(a, PositionField) == Get(b, PositionField) && Get(a, SampleNameField) == Get(b, SampleNameField);
      assert Get(a, QuantityField) == Get(b, QuantityField) && Get(a, RequiredDateField) == Get(b, RequiredDateField);
      assert Get(a, PurposeField) == Get(b, PurposeField) && Get(a, RequirementsField) == Get(b, RequirementsField);
      assert Get(a, AddressField) == Get(b, AddressField) && Get(a, UrgencyField) == Get(b, UrgencyField);
    }
  }

  /** `handleInputChange(field, value)`: the field takes the value and its
      message, if any, goes; no other field and no other message changes. */
  function HandleInputChange(form: SampleRequest, errs: Errors, f: Field, v: FieldValue): (r: (SampleRequest, Errors))
    requires Fits(f, v)
    ensures Get(r.0, f) == v
    ensures forall g :: g != f ==> Get(r.0, g) == Get(form, g)
    ensures f !in r.1
    ensures forall g :: g != f ==> (g in r.1 <==> g in errs) && (g in errs ==> r.1[g] == errs[g])
  {
    (Set(form, f, v), errs - {f})
  }

  /** Typing back a field's old value restores the form and leaves only that field's message cleared. */
  lemma EditBackRestores(form: SampleRequest, errs: Errors, f: Field, v: FieldValue)
    requires Fits(f, v)
    ensures var r := HandleInputChange(form, errs, f, v);
      var s := HandleInputChange(r.0, r.1, f, Get(form, f));
      s.0 == form && s.1 == errs - {f}
  {
    var r := HandleInputChange(form, errs, f, v);
    var s := HandleInputChange(r.0, r.1, f, Get(form, f));
    FormsAgreeOnFields(s.0, form);
  }

  /** The quantity input: `parseInt(value) || 1`, where a value that does
      not parse (NaN, here `None`) and 0 both give 1. */
  function ParseQuantity(parsed: Option<int>): (q: int)
    ensures q != 0
    ensures q == 1 <==> parsed.None? || parsed.value == 0 || parsed.value == 1
    ensures parsed.Some? && parsed.value != 0 ==> q == parsed.value
  {
    match parsed
    case None => 1
    case Some(n) => if n == 0 then 1 else n
  }

  /** The empty form the page starts with and returns to after a successful submit. */
  const InitialForm := SampleRequest("", "", "", "", "", "", 1, "", "", "", "", Normal)

  /** The form after a successful submit: every text field empty, one
      piece, normal urgency. What this means for the page — the form is back
      to the one it started with, and that form fails every checked field —
      is stated by `ResetIsInitial`. */
  function ResetForm(form: SampleRequest): (r: SampleRequest)
    ensures forall f :: f != QuantityField && f != UrgencyField ==> Get(r, f) == Text("")
    ensures r.quantity == 1 && r.urgency == Normal
  {
    SampleRequest("", "", "", "", "", "", 1, "", "", "", "", Normal)
  }

  /** After a submit the form is the initial one, which the form's own
      check rejects with a message on every checked field. */
  lemma ResetIsInitial(form: SampleRequest)
    ensures ResetForm(form) == InitialForm
    ensures ValidateForm(InitialForm).Keys == CheckedFields
  {
    var errs := ValidateForm(InitialForm);
    assert IsBlank("");
    assert !MatchesPhone("");
    assert errs.Keys == CheckedFields;
  }

  // ---------------------------------------------------------------------
  // The form against the request service
  // ---------------------------------------------------------------------

  /** What the form lets through with a quantity of 1..100, the service accepts. */
  lemma FormThenService(form: SampleRequest)
    requires FormValid(form) && QuantityInRange(form.quantity)
    ensures ValidateSample(form).Success?
  {
    FormValidIff(form);
  }

  /** `validateForm` puts no bound on the quantity: a form it accepts is
      still accepted with a quantity of -5, a value the service's range
      check rejects. (The input's `min` and `max` attributes are enforced
      by the browser, not by `validateForm`.) */
  lemma NegativeQuantityPassesForm(form: SampleRequest)
    requires FormValid(form)
    ensures FormValid(form.(quantity := -5))
    ensures ValidateSample(form.(quantity := -5)) == Failure(QuantityOutOfRange)
  {
    FormValidIff(form);
    FormValidIff(form.(quantity := -5));
  }

  /** The service is the laxer on blank values: a name of spaces and an
      empty address, which the form rejects, pass the service. */
  lemma ServiceAcceptsBlankName(d: SampleRequest)
    requires ValidateSample(d).Success?
    ensures var e := d.(name := " ", address := "");
      && NameField in ValidateForm(e) && AddressField in ValidateForm(e)
      && ValidateSample(e).Success?
  {
    var e := d.(name := " ", address := "");
    SampleAccepted(d);
    assert e.email == d.email && e.phone == d.phone && e.quantity == d.quantity;
    assert SampleRequiredPresent(e);
    SampleAccepted(e);
    assert IsBlank(" ") && IsBlank("");
  }
}
