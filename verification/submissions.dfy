/** The request service's checks and normalisation for the two forms it
    accepts (`submitSampleRequest` and `submitCustomRequest` in
    src/services/api.ts). A thrown error is a `Failure` carrying which
    check failed; a successful call yields the payload the service posts. */
module Submissions {
  import opened Wrappers
  import opened Text

  /** How soon the sample is needed: 'normal', 'urgent' or 'very_urgent'. */
  datatype Urgency = Normal | Urgent | VeryUrgent

  /** A sample application, as the sample form holds it and as the
      service receives and posts it. */
  datatype SampleRequest = SampleRequest(
    name: string,
    phone: string,
    email: string,
    company: string,
    position: string,
    sampleName: string,
    quantity: int,
    requiredDate: string,
    purpose: string,
    requirements: string,
    address: string,
    urgency: Urgency
  )

  /** A customisation request; budget and timeline are optional. */
  datatype CustomRequest = CustomRequest(
    name: string,
    company: string,
    phone: string,
    email: string,
    requirements: string,
    budget: Option<string>,
    timeline: Option<string>
  )

  /** The customisation request as posted: every field present. */
  datatype CustomPayload = CustomPayload(
    name: string,
    company: string,
    phone: string,
    email: string,
    requirements: string,
    budget: string,
    timeline: string
  )

  /** The check that rejected a submission. */
  datatype SubmitError = MissingRequired | InvalidEmail | InvalidPhone | QuantityOutOfRange | RequirementsTooShort

  /** The message the service throws for each failed check. */
  function Message(e: SubmitError): string {
    match e
    case MissingRequired => "请填写所有必填字段"
    case InvalidEmail => "请输入有效的邮箱地址"
    case InvalidPhone => "请输入有效的手机号码"
    case QuantityOutOfRange => "样品数量应在1-100之间"
    case RequirementsTooShort => "需求描述至少需要10个字符"
  }

  // ---------------------------------------------------------------------
  // The e-mail pattern /^[^\s@]+@[^\s@]+\.[^\s@]+$/
  // ---------------------------------------------------------------------

  /** A character of the class `[^\s@]`. */
  predicate EmailChar(c: char) {
    c != '@' && !IsSpace(c)
  }

  /** A match of `[^\s@]+`. */
  predicate EmailRun(t: string) {
    |t| >= 1 && forall k :: 0 <= k < |t| ==> EmailChar(t[k])
  }

  /** `s` reads as run, '@' at `i`, run, '.' at `j`, run. */
  predicate EmailSplitAt(s: string, i: int, j: int) {
    && 0 <= i < j < |s|
    && s[i] == '@' && s[j] == '.'
    && EmailRun(s[..i]) && EmailRun(s[i + 1..j]) && EmailRun(s[j + 1..])
  }

  /** The e-mail pattern matches the whole of `s`. */
  predicate MatchesEmail(s: string) {
    exists i, j :: 0 <= i < j < |s| && EmailSplitAt(s, i, j)
  }

  /** `s[i]` is the only '@' of `s`. */
  predicate SoleAt(s: string, i: int) {
    0 <= i < |s| && s[i] == '@' && forall k :: 0 <= k < |s| && s[k] == '@' ==> k == i
  }

  /** A '.' follows the '@' at `i`, neither right after it nor at the very end. */
  predicate DotInDomain(s: string, i: int) {
    exists j :: 0 <= i && i + 1 < j < |s| - 1 && s[j] == '.'
  }

  /** An address in plain words: no white space, exactly one '@', something
      before it, and a '.' after it that is neither the first nor the last
      character of the part after the '@'. */
  predicate WellFormedEmail(s: string) {
    && (forall k :: 0 <= k < |s| ==> !IsSpace(s[k]))
    && exists i :: 0 < i < |s| && SoleAt(s, i) && DotInDomain(s, i)
  }

  /** Every character of a matching address except its '@' is of the class `[^\s@]`. */
  lemma EmailSplitChars(s: string, i: int, j: int)
    requires EmailSplitAt(s, i, j)
    ensures forall k :: 0 <= k < |s| && k != i ==> EmailChar(s[k])
  {
    forall k | 0 <= k < |s| && k != i
      ensures EmailChar(s[k])
    {
      if k < i {
        assert s[..i][k] == s[k];
      } else if k < j {
        assert s[i + 1..j][k - (i + 1)] == s[k];
      } else if j < k {
        assert s[j + 1..][k - (j + 1)] == s[k];
      }
    }
  }

  /** A non-empty slice of class characters is a run. */
  lemma RunOfClassChars(s: string, lo: int, hi: int)
    requires 0 <= lo < hi <= |s|
    requires forall k :: lo <= k < hi ==> EmailChar(s[k])
    ensures EmailRun(s[lo..hi])
  {
    assert forall k :: 0 <= k < hi - lo ==> s[lo..hi][k] == s[lo + k];
  }

  /** A string with the '@' at `i`, the '.' at `j` and class characters
      everywhere else splits there, provided no run is empty. */
  lemma EmailSplitOfChars(s: string, i: int, j: int)
    requires 0 < i && i + 1 < j < |s| - 1 && s[i] == '@' && s[j] == '.'
    requires forall k :: 0 <= k < |s| && k != i ==> EmailChar(s[k])
    ensures EmailSplitAt(s, i, j)
  {
    RunOfClassChars(s, 0, i);
    RunOfClassChars(s, i + 1, j);
    RunOfClassChars(s, j + 1, |s|);
    assert s[..i] == s[0..i];
    assert s[j + 1..] == s[j + 1..|s|];
  }

  /** The pattern accepts exactly the well-formed addresses. */
  lemma EmailPatternIff(s: string)
    ensures MatchesEmail(s) <==> WellFormedEmail(s)
  {
    if MatchesEmail(s) {
      var i, j :| 0 <= i < j < |s| && EmailSplitAt(s, i, j);
      EmailSplitChars(s, i, j);
      assert s[..i] != [] && s[j + 1..] != [] && s[i + 1..j] != [];
      assert SoleAt(s, i) && DotInDomain(s, i);
    }
    if WellFormedEmail(s) {
      var i :| 0 < i < |s| && SoleAt(s, i) && DotInDomain(s, i);
      var j :| 0 <= i && i + 1 < j < |s| - 1 && s[j] == '.';
      EmailSplitOfChars(s, i, j);
    }
  }

  /** One left-to-right pass deciding the e-mail pattern. */
  method CheckEmail(s: string) returns (ok: bool)
    ensures ok <==> MatchesEmail(s)
  {
    var at := -1;       // the first '@' seen so far, or -1
    var clean := true;  // no white space and no second '@' so far
    var dot := false;   // a usable '.' after the first '@' so far
    var k := 0;
    while k < |s|
      invariant 0 <= k <= |s|
      invariant -1 <= at < k
      invariant at >= 0 ==> s[at] == '@'
      invariant at == -1 ==> forall m :: 0 <= m < k ==> s[m] != '@'
      invariant clean <==> (forall m :: 0 <= m < k ==> !IsSpace(s[m])) && (forall m :: 0 <= m < k && s[m] == '@' ==> m == at)
      invariant dot <==> at >= 0 && exists j :: at + 1 < j < k && j < |s| - 1 && s[j] == '.'
    {
      var c := s[k];
      if IsSpace(c) {
        clean := false;
      }
      if c == '@' {
        if at == -1 {
          at := k;
          dot := false;
        } else {
          clean := false;
        }
      } else if c == '.' && at >= 0 && at + 1 < k && k < |s| - 1 {
        dot := true;
      }
      k := k + 1;
    }
    ok := clean && at > 0 && dot;
    EmailPatternIff(s);
    if WellFormedEmail(s) {
      var i :| 0 < i < |s| && SoleAt(s, i) && DotInDomain(s, i);
      assert s[i] == '@';
      assert at == i;
      var j :| 0 <= i && i + 1 < j < |s| - 1 && s[j] == '.';
      assert at + 1 < j < k && j < |s| - 1 && s[j] == '.';
    }
    if ok {
      assert SoleAt(s, at) && DotInDomain(s, at);
    }
  }

  /** Lower-casing keeps an address matching: it leaves white space, '@'
      and '.' where they are. */
  lemma LowerKeepsEmail(s: string)
    requires MatchesEmail(s)
    ensures MatchesEmail(Lower(s))
  {
    var i, j :| 0 <= i < j < |s| && EmailSplitAt(s, i, j);
    EmailSplitChars(s, i, j);
    var t := Lower(s);
    LowerFacts(s);
    assert forall k :: 0 <= k < |s| && k != i ==> EmailChar(t[k]);
    assert s[..i] != [] && s[j + 1..] != [] && s[i + 1..j] != [];
    EmailSplitOfChars(t, i, j);
  }

  /** A matching address has no white space, so trimming leaves it alone. */
  lemma MatchingEmailIsTrimmed(s: string)
    requires MatchesEmail(s)
    ensures Trim(s) == s
  {
    EmailPatternIff(s);
    TrimOfClean(s);
  }

  // ---------------------------------------------------------------------
  // The mobile-number pattern /^1[3-9]\d{9}$/
  // ---------------------------------------------------------------------

  /** The phone pattern matches the whole of `s`: eleven ASCII digits, the
      first '1' and the second one of '3'..'9'. */
  predicate MatchesPhone(s: string) {
    && |s| == 11
    && s[0] == '1'
    && '3' <= s[1] <= '9'
    && forall k :: 2 <= k < |s| ==> IsDigit(s[k])
  }

  /** A matching number is all digits, so it has no white space: trimming
      leaves it alone, and the same number with a space before or after it
      does not match. */
  lemma PhoneHasNoPadding(s: string)
    requires MatchesPhone(s)
    ensures forall k :: 0 <= k < |s| ==> IsDigit(s[k])
    ensures Trim(s) == s
    ensures !MatchesPhone(" " + s) && !MatchesPhone(s + " ")
  {
    assert IsDigit(s[0]) && IsDigit(s[1]);
    TrimOfClean(s);
  }

  // ---------------------------------------------------------------------
  // submitSampleRequest
  // ---------------------------------------------------------------------

  /** None of the seven fields the service requires is the empty string.
      The test is JavaScript falsiness, so a value of spaces passes. */
  predicate SampleRequiredPresent(d: SampleRequest) {
    && d.name != "" && d.phone != "" && d.email != "" && d.company != ""
    && d.sampleName != "" && d.requiredDate != "" && d.requirements != ""
  }

  /** The quantity bound, 1..100 inclusive. */
  predicate QuantityInRange(q: int) {
    1 <= q <= 100
  }

  /** The text has no white space at either end. */
  predicate Trimmed(t: string) {
    t == [] || (!IsSpace(t[0]) && !IsSpace(t[|t| - 1]))
  }

  /** A trimmed text has no white space at either end. */
  lemma TrimIsTrimmed(s: string)
    ensures Trimmed(Trim(s))
  {
  }

  /** `email.trim().toLowerCase()`: a trimmed, lower-case address, which
      still matches the pattern when the original did. */
  function NormaliseEmail(e: string): (r: string)
    ensures Trimmed(r) && Lower(r) == r
    ensures MatchesEmail(e) ==> MatchesEmail(r) && r == Lower(e)
  {
    NormalisedEmailFacts(e);
    Lower(Trim(e))
  }

  /** Trimming then lower-casing gives a trimmed, lower-case address, and a
      matching address is only lower-cased and still matches. */
  lemma NormalisedEmailFacts(e: string)
    ensures Trimmed(Lower(Trim(e))) && Lower(Lower(Trim(e))) == Lower(Trim(e))
    ensures MatchesEmail(e) ==> MatchesEmail(Lower(Trim(e))) && Trim(e) == e
  {
    var t := Trim(e);
    LowerKeepsTrimmed(t);
    LowerFacts(t);
    if MatchesEmail(e) {
      MatchingEmailIsTrimmed(e);
      LowerKeepsEmail(e);
    }
  }

  /** Lower-casing keeps a trimmed text trimmed. */
  lemma LowerKeepsTrimmed(t: string)
    requires Trimmed(t)
    ensures Trimmed(Lower(t))
  {
    if t != [] {
      LowerCharSpace(t[0]);
      LowerCharSpace(t[|t| - 1]);
    }
  }

  /** Normalising a normalised address changes nothing. */
  lemma NormaliseEmailIdempotent(e: string)
    ensures NormaliseEmail(NormaliseEmail(e)) == NormaliseEmail(e)
  {
    NormalisedEmailIsFixed(NormaliseEmail(e));
  }

  /** A trimmed, lower-case address is its own normal form. */
  lemma NormalisedEmailIsFixed(r: string)
    requires Trimmed(r) && Lower(r) == r
    ensures NormaliseEmail(r) == r
  {
    TrimOfClean(r);
  }

  /** The posted sample payload: every text field is the input's field
      trimmed, except the required date; the e-mail is also lower-cased;
      quantity, date and urgency are passed through. */
  function NormaliseSample(d: SampleRequest): (n: SampleRequest)
    ensures n.name == Trim(d.name) && n.phone == Trim(d.phone) && n.email == NormaliseEmail(d.email)
    ensures n.company == Trim(d.company) && n.position == Trim(d.position) && n.sampleName == Trim(d.sampleName)
    ensures n.purpose == Trim(d.purpose) && n.requirements == Trim(d.requirements) && n.address == Trim(d.address)
    ensures Trimmed(n.name) && Trimmed(n.phone) && Trimmed(n.email) && Trimmed(n.company)
    ensures Trimmed(n.position) && Trimmed(n.sampleName) && Trimmed(n.purpose)
    ensures Trimmed(n.requirements) && Trimmed(n.address)
    ensures n.quantity == d.quantity && n.requiredDate == d.requiredDate && n.urgency == d.urgency
    ensures Lower(n.email) == n.email
  {
    TrimIsTrimmed(d.name); TrimIsTrimmed(d.phone); TrimIsTrimmed(d.company);
    TrimIsTrimmed(d.position); TrimIsTrimmed(d.sampleName); TrimIsTrimmed(d.purpose);
    TrimIsTrimmed(d.requirements); TrimIsTrimmed(d.address);
    SampleRequest(
      Trim(d.name), Trim(d.phone), NormaliseEmail(d.email), Trim(d.company), Trim(d.position),
      Trim(d.sampleName), d.quantity, d.requiredDate, Trim(d.purpose),
      Trim(d.requirements), Trim(d.address), d.urgency)
  }

  /** Normalising a normalised payload changes nothing. */
  lemma NormaliseSampleIdempotent(d: SampleRequest)
    ensures NormaliseSample(NormaliseSample(d)) == NormaliseSample(d)
  {
    var n := NormaliseSample(d);
    var m := NormaliseSample(n);
    TrimIdempotent(d.name);
    TrimIdempotent(d.phone);
    NormaliseEmailIdempotent(d.email);
    TrimIdempotent(d.company);
    TrimIdempotent(d.position);
    TrimIdempotent(d.sampleName);
    TrimIdempotent(d.purpose);
    TrimIdempotent(d.requirements);
    TrimIdempotent(d.address);
  }

  /** `submitSampleRequest` up to the post: the checks in their order —
      required fields, e-mail, phone, quantity — the first failing one
      reported, and otherwise the normalised payload. */
  function ValidateSample(d: SampleRequest): (r: Result<SampleRequest, SubmitError>)
    ensures r == Failure(MissingRequired) <==> !SampleRequiredPresent(d)
    ensures r == Failure(InvalidEmail) <==> SampleRequiredPresent(d) && !MatchesEmail(d.email)
    ensures r == Failure(InvalidPhone) <==> SampleRequiredPresent(d) && MatchesEmail(d.email) && !MatchesPhone(d.phone)
    ensures r == Failure(QuantityOutOfRange) <==>
      SampleRequiredPresent(d) && MatchesEmail(d.email) && MatchesPhone(d.phone) && !QuantityInRange(d.quantity)
    ensures r.Failure? ==> r.error != RequirementsTooShort
    ensures r.Success? ==> r.value == NormaliseSample(d)
    ensures r.Success? ==> MatchesEmail(r.value.email) && MatchesPhone(r.value.phone) && QuantityInRange(r.value.quantity)
  {
    if !SampleRequiredPresent(d) then Failure(MissingRequired)
    else if !MatchesEmail(d.email) then Failure(InvalidEmail)
    else if !MatchesPhone(d.phone) then Failure(InvalidPhone)
    else if !QuantityInRange(d.quantity) then Failure(QuantityOutOfRange)
    else
      PhoneHasNoPadding(d.phone);
      Success(NormaliseSample(d))
  }

  /** A payload the service accepted, submitted again, is accepted again and
      posted unchanged — unless one of its required fields was made only of
      white space, which the first check let through and trimming emptied. */
  lemma ResubmitAccepted(d: SampleRequest)
    requires ValidateSample(d).Success?
    ensures var n := ValidateSample(d).value;
      && (ValidateSample(n).Success? <==> SampleRequiredPresent(n))
      && (ValidateSample(n).Success? ==> ValidateSample(n).value == n)
  {
    var n := ValidateSample(d).value;
    SampleAccepted(d);
    assert n == NormaliseSample(d);
    assert MatchesEmail(n.email) && MatchesPhone(n.phone) && QuantityInRange(n.quantity);
    SampleAccepted(n);
    NormaliseSampleIdempotent(d);
  }

  /** The service accepts a name made only of spaces and posts it as the
      empty string. */
  lemma BlankNameAccepted(d: SampleRequest)
    requires ValidateSample(d).Success?
    ensures var e := d.(name := " ");
      && ValidateSample(e).Success?
      && ValidateSample(e).value.name == ""
  {
    var e := d.(name := " ");
    SampleAccepted(d);
    assert e.email == d.email && e.phone == d.phone && e.quantity == d.quantity;
    assert SampleRequiredPresent(e);
    SampleAccepted(e);
    assert IsBlank(" ");
    assert Trim(e.name) == "";
  }

  /** The service accepts a request exactly when all four checks pass. */
  lemma SampleAccepted(d: SampleRequest)
    ensures ValidateSample(d).Success? <==>
      SampleRequiredPresent(d) && MatchesEmail(d.email) && MatchesPhone(d.phone) && QuantityInRange(d.quantity)
  {
  }

  // ---------------------------------------------------------------------
  // submitCustomRequest
  // ---------------------------------------------------------------------

  /** None of the five required fields is the empty string. */
  predicate CustomRequiredPresent(d: CustomRequest) {
    d.name != "" && d.company != "" && d.phone != "" && d.email != "" && d.requirements != ""
  }

  /** `opt?.trim() || ''`: the trimmed text, or '' when it is absent. */
  function TrimOrEmpty(opt: Option<string>): (r: string)
    ensures Trimmed(r)
    ensures opt.None? ==> r == ""
    ensures opt.Some? ==> r == Trim(opt.value) && (r == "" <==> IsBlank(opt.value))
  {
    match opt
    case None => ""
    case Some(t) => Trim(t)
  }

  /** The posted customisation payload: every required field is the
      input's field trimmed, the e-mail also lower-cased, and an absent
      budget or timeline is posted as "". */
  function NormaliseCustom(d: CustomRequest): (n: CustomPayload)
    ensures n.name == Trim(d.name) && n.company == Trim(d.company) && n.phone == Trim(d.phone)
    ensures n.email == NormaliseEmail(d.email) && n.requirements == Trim(d.requirements)
    ensures n.budget == TrimOrEmpty(d.budget) && n.timeline == TrimOrEmpty(d.timeline)
    ensures d.budget.None? ==> n.budget == ""
    ensures d.timeline.None? ==> n.timeline == ""
    ensures Trimmed(n.name) && Trimmed(n.company) && Trimmed(n.phone) && Trimmed(n.email) && Trimmed(n.requirements)
    ensures Trimmed(n.budget) && Trimmed(n.timeline)
    ensures Lower(n.email) == n.email
  {
    TrimIsTrimmed(d.name); TrimIsTrimmed(d.company); TrimIsTrimmed(d.phone); TrimIsTrimmed(d.requirements);
    CustomPayload(
      Trim(d.name), Trim(d.company), Trim(d.phone), NormaliseEmail(d.email),
      Trim(d.requirements), TrimOrEmpty(d.budget), TrimOrEmpty(d.timeline))
  }

  /** `submitCustomRequest` up to the post: required fields, e-mail, phone,
      then trimmed requirements of at least ten code units. */
  function ValidateCustom(d: CustomRequest): (r: Result<CustomPayload, SubmitError>)
    ensures r == Failure(MissingRequired) <==> !CustomRequiredPresent(d)
    ensures r == Failure(InvalidEmail) <==> CustomRequiredPresent(d) && !MatchesEmail(d.email)
    ensures r == Failure(InvalidPhone) <==> CustomRequiredPresent(d) && MatchesEmail(d.email) && !MatchesPhone(d.phone)
    ensures r == Failure(RequirementsTooShort) <==>
      CustomRequiredPresent(d) && MatchesEmail(d.email) && MatchesPhone(d.phone) && JsLength(Trim(d.requirements)) < 10
    ensures r.Failure? ==> r.error != QuantityOutOfRange
    ensures r.Success? ==> r.value == NormaliseCustom(d)
    ensures r.Success? ==> JsLength(r.value.requirements) >= 10 && MatchesEmail(r.value.email) && MatchesPhone(r.value.phone)
  {
    if !CustomRequiredPresent(d) then Failure(MissingRequired)
    else if !MatchesEmail(d.email) then Failure(InvalidEmail)
    else if !MatchesPhone(d.phone) then Failure(InvalidPhone)
    else if JsLength(Trim(d.requirements)) < 10 then Failure(RequirementsTooShort)
    else
      PhoneHasNoPadding(d.phone);
      Success(NormaliseCustom(d))
  }

  /** Requirements of spaces pass the required check but not the length
      check, so a customisation request is never posted with them. */
  lemma BlankRequirementsRejected(d: CustomRequest)
    requires d.requirements != "" && IsBlank(d.requirements)
    ensures ValidateCustom(d).Failure?
  {
  }
}
