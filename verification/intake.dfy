/** The new-member intake of `collectMemberInfo`: after the gender choice,
    a fixed sequence of blocking prompts — phone, parent phone, email,
    address, date of birth. Each validated field allows three answers; an
    empty answer or a valid one settles the field, an invalid one asks
    again, and three invalid answers leave the field empty. Cancel at the
    phone prompt abandons the whole intake; Cancel anywhere else leaves that
    field empty. The user's answers are a transcript: `None` is Cancel,
    `Some(text)` is OK with that text. */
module Intake {
  import opened JsText
  import opened Validators
  import Attendance

  /** Answers allowed per validated field. */
  const MaxAttempts: nat := 3

  /** The most prompts one intake can show: three validated fields before
      the address, the address, and the date of birth. */
  const MaxPrompts: nat := 3 * MaxAttempts + 1 + MaxAttempts

  /** The validator a field is checked with. */
  datatype Rule = PhoneRule | EmailRule | DobRule(today: CalendarDate)

  predicate Accepts(rule: Rule, s: string) {
    match rule
    case PhoneRule => IsValidPhone(s)
    case EmailRule => IsValidEmail(s)
    case DobRule(today) => IsValidDob(s, today)
  }

  /** An answer that makes the script ask again: OK with text that is not
      blank once trimmed and fails the validator. */
  predicate Rejected(rule: Rule, r: Option<string>) {
    r.Some? && Trim(r.value) != "" && !Accepts(rule, Trim(r.value))
  }

  /** The first `n` answers were all rejected. */
  predicate AllRejected(rule: Rule, rs: seq<Option<string>>, n: nat)
    requires n <= |rs|
  {
    forall j :: 0 <= j < n ==> Rejected(rule, rs[j])
  }

  /** Index of the answer that settles a field allowing `n` answers, or `n`
      when all of them are rejected. */
  function SettlingAnswer(rule: Rule, rs: seq<Option<string>>, n: nat): (k: nat)
    requires n <= |rs|
    ensures k <= n && AllRejected(rule, rs, k)
    ensures k < n ==> !Rejected(rule, rs[k])
    decreases n
  {
    if n == 0 then 0
    else if !Rejected(rule, rs[0]) then 0
    else
      var k := SettlingAnswer(rule, rs[1..], n - 1);
      assert forall j :: 1 <= j <= k ==> rs[j] == rs[1..][j - 1];
      k + 1
  }

  /** What one validated field ends with, and how many answers it used. */
  datatype Answer = Stored(value: string, used: nat) | Cancelled(used: nat)

  /** The expected outcome of a field, read off the settling answer: Cancel
      there cancels, OK there stores its trimmed text, and no settling
      answer stores the empty string. */
  predicate SettledBy(rule: Rule, rs: seq<Option<string>>, n: nat, a: Answer)
    requires n <= |rs|
  {
    var k := SettlingAnswer(rule, rs, n);
    if k == n then a == Stored("", n)
    else if rs[k].None? then a == Cancelled(k + 1)
    else a == Stored(Trim(rs[k].value), k + 1)
  }

  /** One validated field, answer by answer, with `n` answers allowed. */
  function CollectField(rule: Rule, rs: seq<Option<string>>, n: nat): (a: Answer)
    requires n <= |rs|
    ensures SettledBy(rule, rs, n, a)
    ensures a.used <= n
    ensures a.Stored? ==> a.value == "" || (Accepts(rule, a.value) && Trim(a.value) == a.value)
    decreases n
  {
    if n == 0 then Stored("", 0)
    else match rs[0]
      case None => Cancelled(1)
      case Some(text) =>
        var t := Trim(text);
        if t == "" then Stored("", 1)
        else if Accepts(rule, t) then TrimIdempotent(text); Stored(t, 1)
        else
          var rest := CollectField(rule, rs[1..], n - 1);
          match rest
          case Stored(v, u) => Stored(v, u + 1)
          case Cancelled(u) => Cancelled(u + 1)
  }

  /** The retry loop exactly as the script writes it for each validated
      field (a flag, an attempt counter, `continue` after an invalid
      answer, and the fallback to the empty string after the loop). It
      computes the same answer as `CollectField`. */
  method CollectFieldLoop(rule: Rule, rs: seq<Option<string>>) returns (a: Answer)
    requires |rs| >= MaxAttempts
    ensures a == CollectField(rule, rs, MaxAttempts)
  {
    var valid := false;
    var cancelled := false;
    var attempts := 0;
    var stored := "";
    ghost var k := SettlingAnswer(rule, rs, MaxAttempts);
    while !valid && attempts < MaxAttempts
      invariant 0 <= attempts <= MaxAttempts
      invariant !valid ==> attempts <= k && !cancelled
      invariant valid ==> attempts == k + 1
      invariant valid && cancelled ==> rs[k].None?
      invariant valid && !cancelled ==> rs[k].Some? && stored == Trim(rs[k].value)
    {
      attempts := attempts + 1;
      var response := rs[attempts - 1];
      if response.None? {
        stored := "";
        valid := true;
        cancelled := true;
        continue;
      }
      var text := Trim(response.value);
      if text == "" {
        stored := "";
        valid := true;
      } else if !Accepts(rule, text) {
        continue;
      } else {
        stored := text;
        valid := true;
      }
    }
    if !valid {
      stored := "";
    }
    a := if cancelled then Cancelled(attempts) else Stored(stored, attempts);
    assert SettledBy(rule, rs, MaxAttempts, a);
    SettledByDetermines(rule, rs, MaxAttempts, a);
  }

  /** The settling answer pins down a field's outcome. */
  lemma SettledByDetermines(rule: Rule, rs: seq<Option<string>>, n: nat, a: Answer)
    requires n <= |rs| && SettledBy(rule, rs, n, a)
    ensures a == CollectField(rule, rs, n)
  {
  }

  /** Three invalid answers in a row leave the field empty. */
  lemma ThreeStrikesStoreEmpty(rule: Rule, rs: seq<Option<string>>)
    requires |rs| >= MaxAttempts && AllRejected(rule, rs, MaxAttempts)
    ensures CollectField(rule, rs, MaxAttempts) == Stored("", MaxAttempts)
  {
  }

  /** The phone answers "abc", "123", "08012345678": the first two are
      refused and the third is stored. */
  lemma PhoneRetryExample(rest: seq<Option<string>>)
    ensures CollectField(PhoneRule, [Some("abc"), Some("123"), Some("08012345678")] + rest, MaxAttempts)
      == Stored("08012345678", 3)
  {
    var rs := [Some("abc"), Some("123"), Some("08012345678")] + rest;
    PhoneRetryVerdicts();
    assert rs[0] == Some("abc") && rs[1] == Some("123") && rs[2] == Some("08012345678");
    assert SettlingAnswer(PhoneRule, rs, MaxAttempts) == 2;
    SettledByDetermines(PhoneRule, rs, MaxAttempts, Stored("08012345678", 3));
  }

  lemma PhoneRetryVerdicts()
    ensures Rejected(PhoneRule, Some("abc")) && Rejected(PhoneRule, Some("123"))
    ensures !Rejected(PhoneRule, Some("08012345678")) && Trim("08012345678") == "08012345678"
  {
    TrimFixed("abc");
    TrimFixed("123");
    TrimFixed("08012345678");
    PhoneExamples();
  }

  // ---------------------------------------------------------------------
  // The whole intake

  /** The member record sent with `addNewMember`. */
  datatype Member = Member(
    name: string,
    dateJoined: string,
    gender: string,
    phone: string,
    parentPhone: string,
    email: string,
    address: string,
    dateOfBirth: string)

  /** Every field a validator guards holds a value it accepts, and every
      collected field is trimmed. */
  predicate WellFormed(m: Member, today: CalendarDate) {
    IsValidPhone(m.phone) && IsValidPhone(m.parentPhone) && IsValidEmail(m.email)
    && IsValidDob(m.dateOfBirth, today)
    && Trim(m.phone) == m.phone && Trim(m.parentPhone) == m.parentPhone && Trim(m.email) == m.email
    && Trim(m.address) == m.address && Trim(m.dateOfBirth) == m.dateOfBirth
  }

  datatype IntakeResult = Abandoned(used: nat) | Submitted(member: Member, used: nat)

  /** The value stored for an optional field: Cancel stores the empty string. */
  function OptionalValue(a: Answer): string {
    if a.Stored? then a.value else ""
  }

  /** What a validated field stores, Cancel included, passes its validator
      and is trimmed. */
  lemma OptionalValueFits(rule: Rule, rs: seq<Option<string>>, n: nat)
    requires n <= |rs|
    ensures Accepts(rule, OptionalValue(CollectField(rule, rs, n)))
    ensures Trim(OptionalValue(CollectField(rule, rs, n))) == OptionalValue(CollectField(rule, rs, n))
  {
    var v := OptionalValue(CollectField(rule, rs, n));
    TrimFixed("");
    match rule
    case PhoneRule => PhoneTrimStable(v);
    case EmailRule => EmailTrimStable(v);
    case DobRule(today) => DobTrimStable(v, today);
  }

  /** The address prompt has no validator: OK stores the trimmed text,
      Cancel stores the empty string. */
  function AddressValue(r: Option<string>): (v: string)
    ensures r.None? ==> v == ""
    ensures r.Some? ==> v == Trim(r.value)
    ensures Trim(v) == v
  {
    if r.None? then "" else TrimIdempotent(r.value); Trim(r.value)
  }

  /** Cancel at a field's prompt before any answer settled the field. */
  predicate FieldCancelled(rule: Rule, rs: seq<Option<string>>)
    requires |rs| >= MaxAttempts
  {
    exists k :: 0 <= k < MaxAttempts && rs[k].None? && AllRejected(rule, rs, k)
  }

  /** A field ends cancelled exactly when its prompt is cancelled before any
      answer settled it. */
  lemma FieldCancelledIff(rule: Rule, rs: seq<Option<string>>)
    requires |rs| >= MaxAttempts
    ensures CollectField(rule, rs, MaxAttempts).Cancelled? <==> FieldCancelled(rule, rs)
  {
    var k := SettlingAnswer(rule, rs, MaxAttempts);
    if FieldCancelled(rule, rs) {
      var j :| 0 <= j < MaxAttempts && rs[j].None? && AllRejected(rule, rs, j);
      assert !Rejected(rule, rs[j]);
    }
  }

  // Where the answers to each prompt start in the transcript.

  function ParentFrom(rs: seq<Option<string>>): (i: nat)
    requires |rs| >= MaxPrompts
    ensures i <= MaxAttempts
  {
    CollectField(PhoneRule, rs, MaxAttempts).used
  }

  function EmailFrom(rs: seq<Option<string>>): (i: nat)
    requires |rs| >= MaxPrompts
    ensures i <= 2 * MaxAttempts
  {
    var p := ParentFrom(rs);
    p + CollectField(PhoneRule, rs[p..], MaxAttempts).used
  }

  function AddressAt(rs: seq<Option<string>>): (i: nat)
    requires |rs| >= MaxPrompts
    ensures i <= 3 * MaxAttempts
  {
    var e := EmailFrom(rs);
    e + CollectField(EmailRule, rs[e..], MaxAttempts).used
  }

  function DobFrom(rs: seq<Option<string>>): (i: nat)
    requires |rs| >= MaxPrompts
    ensures i <= 3 * MaxAttempts + 1
  {
    AddressAt(rs) + 1
  }

  /** The prompts after a settled phone number: parent phone, email, address
      and date of birth. None of them can abandon the intake, and each field
      holds what its own prompt's answers decide. */
  function IntakeAfterPhone(name: string, dateJoined: string, gender: string, today: CalendarDate,
                            rs: seq<Option<string>>): (r: IntakeResult)
    requires |rs| >= MaxPrompts && CollectField(PhoneRule, rs, MaxAttempts).Stored?
    ensures r.Submitted? && r.used <= MaxPrompts && WellFormed(r.member, today)
    ensures r.member.name == name && r.member.dateJoined == dateJoined && r.member.gender == gender
    ensures r.member.phone == CollectField(PhoneRule, rs, MaxAttempts).value
    ensures r.member.parentPhone == OptionalValue(CollectField(PhoneRule, rs[ParentFrom(rs)..], MaxAttempts))
    ensures r.member.email == OptionalValue(CollectField(EmailRule, rs[EmailFrom(rs)..], MaxAttempts))
    ensures r.member.address == AddressValue(rs[AddressAt(rs)])
    ensures r.member.dateOfBirth == OptionalValue(CollectField(DobRule(today), rs[DobFrom(rs)..], MaxAttempts))
  {
    var phone := CollectField(PhoneRule, rs, MaxAttempts).value;
    var parent := CollectField(PhoneRule, rs[ParentFrom(rs)..], MaxAttempts);
    var email := CollectField(EmailRule, rs[EmailFrom(rs)..], MaxAttempts);
    var dob := CollectField(DobRule(today), rs[DobFrom(rs)..], MaxAttempts);
    OptionalValueFits(PhoneRule, rs, MaxAttempts);
    OptionalValueFits(PhoneRule, rs[ParentFrom(rs)..], MaxAttempts);
    OptionalValueFits(EmailRule, rs[EmailFrom(rs)..], MaxAttempts);
    OptionalValueFits(DobRule(today), rs[DobFrom(rs)..], MaxAttempts);
    Submitted(
      Member(name, dateJoined, gender, phone, OptionalValue(parent), OptionalValue(email),
             AddressValue(rs[AddressAt(rs)]), OptionalValue(dob)),
      DobFrom(rs) + dob.used)
  }

  /** `collectMemberInfo` after the gender choice. `name`, `dateJoined` and
      `gender` come from the earlier steps; `today` is the clock's date. */
  function CollectMemberInfo(name: string, dateJoined: string, gender: string, today: CalendarDate,
                             rs: seq<Option<string>>): (r: IntakeResult)
    requires |rs| >= MaxPrompts
    ensures r.Abandoned? <==> FieldCancelled(PhoneRule, rs)
    ensures r.used <= MaxPrompts
    ensures r.Submitted? ==> WellFormed(r.member, today)
    ensures r.Submitted? ==>
      r.member.name == name && r.member.dateJoined == dateJoined && r.member.gender == gender
    ensures r.Submitted? ==> r.member.phone == CollectField(PhoneRule, rs, MaxAttempts).value
    ensures r.Submitted? ==>
      r.member.parentPhone == OptionalValue(CollectField(PhoneRule, rs[ParentFrom(rs)..], MaxAttempts))
    ensures r.Submitted? ==>
      r.member.email == OptionalValue(CollectField(EmailRule, rs[EmailFrom(rs)..], MaxAttempts))
    ensures r.Submitted? ==> r.member.address == AddressValue(rs[AddressAt(rs)])
    ensures r.Submitted? ==>
      r.member.dateOfBirth == OptionalValue(CollectField(DobRule(today), rs[DobFrom(rs)..], MaxAttempts))
  {
    var phone := CollectField(PhoneRule, rs, MaxAttempts);
    FieldCancelledIff(PhoneRule, rs);
    if phone.Cancelled? then Abandoned(phone.used)
    else IntakeAfterPhone(name, dateJoined, gender, today, rs)
  }

  /** Cancel at the parent phone, email, address or date-of-birth prompt
      stores the empty string for that field and the intake still submits
      the member. */
  lemma OptionalCancelContinues(name: string, dateJoined: string, gender: string, today: CalendarDate,
                                rs: seq<Option<string>>)
    requires |rs| >= MaxPrompts && !FieldCancelled(PhoneRule, rs)
    ensures var r := CollectMemberInfo(name, dateJoined, gender, today, rs);
      r.Submitted?
      && (FieldCancelled(PhoneRule, rs[ParentFrom(rs)..]) ==> r.member.parentPhone == "")
      && (FieldCancelled(EmailRule, rs[EmailFrom(rs)..]) ==> r.member.email == "")
      && (rs[AddressAt(rs)].None? ==> r.member.address == "")
      && (FieldCancelled(DobRule(today), rs[DobFrom(rs)..]) ==> r.member.dateOfBirth == "")
  {
    FieldCancelledIff(PhoneRule, rs[ParentFrom(rs)..]);
    FieldCancelledIff(EmailRule, rs[EmailFrom(rs)..]);
    FieldCancelledIff(DobRule(today), rs[DobFrom(rs)..]);
  }

  /** A field that is not cancelled holds the trimmed text of its settling
      answer, or the empty string when three answers were rejected. */
  lemma FieldHoldsSettlingText(rule: Rule, rs: seq<Option<string>>)
    requires |rs| >= MaxAttempts && !FieldCancelled(rule, rs)
    ensures var k := SettlingAnswer(rule, rs, MaxAttempts);
      var v := OptionalValue(CollectField(rule, rs, MaxAttempts));
      (k == MaxAttempts ==> v == "") && (k < MaxAttempts ==> rs[k].Some? && v == Trim(rs[k].value))
  {
    FieldCancelledIff(rule, rs);
  }

  /** Cancelling every prompt after an empty phone answer still submits a
      member, with every optional field empty. */
  lemma CancelAfterPhoneSubmits(name: string, dateJoined: string, gender: string, today: CalendarDate,
                                rest: seq<Option<string>>)
    requires |rest| >= MaxPrompts - 5
    ensures CollectMemberInfo(name, dateJoined, gender, today, [Some(""), None, None, None, None] + rest)
      == Submitted(Member(name, dateJoined, gender, "", "", "", "", ""), 5)
  {
    var rs := [Some(""), None, None, None, None] + rest;
    TrimFixed("");
    assert rs[1..][0] == None && rs[2..][0] == None && rs[4..][0] == None;
    assert CollectField(PhoneRule, rs, MaxAttempts) == Stored("", 1);
    assert ParentFrom(rs) == 1;
    assert CollectField(PhoneRule, rs[1..], MaxAttempts) == Cancelled(1);
    assert EmailFrom(rs) == 2;
    assert CollectField(EmailRule, rs[2..], MaxAttempts) == Cancelled(1);
    assert AddressAt(rs) == 3 && DobFrom(rs) == 4;
    assert CollectField(DobRule(today), rs[4..], MaxAttempts) == Cancelled(1);
  }

  /** Cancel at the first phone prompt abandons the intake: nothing is
      submitted. */
  lemma CancelAtPhoneAbandons(name: string, dateJoined: string, gender: string, today: CalendarDate,
                              rest: seq<Option<string>>)
    requires |rest| >= MaxPrompts - 1
    ensures CollectMemberInfo(name, dateJoined, gender, today, [None] + rest) == Abandoned(1)
  {
  }

  // ---------------------------------------------------------------------
  // Submission

  /** The fields of the `addNewMember` payload. */
  const PayloadKeys: set<string> :=
    {"Name", "DateJoined", "Gender", "Phone", "ParentPhone", "Email", "Address", "DateOfBirth"}

  /** The `memberData` object as sent: every field is present as a string,
      so no spreadsheet cell receives null. */
  function Payload(m: Member): (p: map<string, string>)
    ensures p.Keys == PayloadKeys
  {
    map["Name" := m.name, "DateJoined" := m.dateJoined, "Gender" := m.gender, "Phone" := m.phone,
        "ParentPhone" := m.parentPhone, "Email" := m.email, "Address" := m.address,
        "DateOfBirth" := m.dateOfBirth]
  }

  /** What follows the `addNewMember` reply. */
  datatype AfterSubmit =
    | AddFailed(message: string)
    | Added(message: string, markName: string, markPhone: string)

  /** `addNewMember`: an error reply (a non-empty `error` text) is shown as
      a failure and nothing else happens; otherwise the script confirms and
      marks the new member present with the stored name and phone. */
  function AfterSubmitFor(m: Member, error: Option<string>): (r: AfterSubmit)
    ensures r.AddFailed? <==> error.Some? && error.value != ""
    ensures r.AddFailed? ==> r.message == "Failed to add member: " + error.value
    ensures r.Added? ==> r.markName == m.name && r.markPhone == m.phone
  {
    if error.Some? && error.value != "" then AddFailed("Failed to add member: " + error.value)
    else Added("Successfully added " + m.name + " as a new member!", m.name, m.phone)
  }

  /** After a submitted intake and a reply without error text, the script
      marks the new member present under the name and phone the payload
      carried, the phone being the one collected at the phone prompt; a
      mark reply without error then confirms with that name and service. */
  lemma SuccessfulAddMarksNewMember(name: string, dateJoined: string, gender: string, today: CalendarDate,
                                    rs: seq<Option<string>>, error: Option<string>, service: string)
    requires |rs| >= MaxPrompts && !FieldCancelled(PhoneRule, rs)
    requires error.None? || error.value == ""
    ensures var r := CollectMemberInfo(name, dateJoined, gender, today, rs);
      r.Submitted? &&
      var after := AfterSubmitFor(r.member, error);
      && after.Added?
      && after.markName == name && after.markName == Payload(r.member)["Name"]
      && after.markPhone == CollectField(PhoneRule, rs, MaxAttempts).value
      && after.markPhone == Payload(r.member)["Phone"]
      && Attendance.MarkFeedback(None, after.markName, service)
         == Attendance.Confirmed("Attendance marked for " + name + " (" + service + ")")
  {
    FieldCancelledIff(PhoneRule, rs);
    var r := CollectMemberInfo(name, dateJoined, gender, today, rs);
    AddedMarksPayloadMember(r.member, error, service);
  }

  /** A reply without error text marks the member under the name and phone
      of the payload, and that mark confirms with the name and service. */
  lemma AddedMarksPayloadMember(m: Member, error: Option<string>, service: string)
    requires error.None? || error.value == ""
    ensures var after := AfterSubmitFor(m, error);
      && after.Added?
      && after.markName == Payload(m)["Name"] && after.markPhone == Payload(m)["Phone"]
      && Attendance.MarkFeedback(None, after.markName, service)
         == Attendance.Confirmed("Attendance marked for " + m.name + " (" + service + ")")
  {
    assert Payload(m)["Name"] == m.name && Payload(m)["Phone"] == m.phone;
  }
}
