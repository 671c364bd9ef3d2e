/**
 * `validateForm`: six independent field checks over the submitted form,
 * each contributing at most one error message, in a fixed order.
 */
module FormValidation {
  import opened Text
  import opened Validators

  /** A submitted form: field name to field value, as built by
      `Object.fromEntries(new FormData(form))`. */
  type Form = map<string, string>

  /** `formData[key]`, with an absent key read as the empty string: every
      check tests the field's truthiness first, and `undefined` and `""`
      are both falsy. */
  function Field(form: Form, key: string): string {
    if key in form then form[key] else ""
  }

  // The six error messages. Each is written as a few short literals
  // joined together, which keeps facts about their characters cheap to
  // prove; the values are the messages themselves.
  const NameError := "Please enter " + "a valid name " + "(at least 2 " + "characters)"
  const EmailError := "Please enter " + "a valid email " + "address"
  const PhoneError := "Please enter " + "a valid phone " + "number"
  const CompanyError := "Company name " + "must be at " + "least 2 " + "characters"
  const RevenueError := "Please select " + "a revenue range"
  const MessageError := "Message must " + "be less than " + "1000 characters"

  /** Longest message accepted, in UTF-16 code units. */
  const MaxMessageLength := 1000

  /** The six checks, in the order `validateForm` runs them. */
  datatype Check = Name | Email | Phone | Company | Revenue | Message

  const CheckOrder: seq<Check> := [Name, Email, Phone, Company, Revenue, Message]

  function ErrorText(c: Check): string {
    match c
    case Name => NameError
    case Email => EmailError
    case Phone => PhoneError
    case Company => CompanyError
    case Revenue => RevenueError
    case Message => MessageError
  }

  /** Position of a check in `CheckOrder`. */
  function Rank(c: Check): nat {
    match c
    case Name => 0
    case Email => 1
    case Phone => 2
    case Company => 3
    case Revenue => 4
    case Message => 5
  }

  /** The condition under which check `c` pushes its error. */
  predicate Fails(form: Form, c: Check) {
    match c
    case Name =>
      var v := Field(form, "name"); v == "" || Utf16Length(Trim(v)) < 2
    case Email =>
      var v := Field(form, "email"); v == "" || !IsValidEmail(v)
    case Phone =>
      var v := Field(form, "phone"); v != "" && !IsValidPhone(v)
    case Company =>
      var v := Field(form, "company"); v != "" && Utf16Length(Trim(v)) < 2
    case Revenue =>
      Field(form, "revenue") == ""
    case Message =>
      var v := Field(form, "message"); v != "" && Utf16Length(v) > MaxMessageLength
  }

  /** `validateForm`: the checks run in `CheckOrder`, each failing one
      pushing its message. The list is empty exactly when every check
      passes, and never longer than six. */
  function ValidateForm(form: Form): (errors: seq<string>)
    ensures |errors| <= |CheckOrder|
    ensures errors == [] <==> forall c: Check :: !Fails(form, c)
  {
    NoFailingChecks(form);
    ErrorsOf(FailingChecks(Verdict(form), CheckOrder))
  }

  /** Which checks fail on `form`. */
  function Verdict(form: Form): Check -> bool {
    c => Fails(form, c)
  }

  /** The checks among `cs` that `failing` marks, in the order of `cs`. */
  function FailingChecks(failing: Check -> bool, cs: seq<Check>): (r: seq<Check>)
    ensures |r| <= |cs|
  {
    if cs == [] then []
    else (if failing(cs[0]) then [cs[0]] else []) + FailingChecks(failing, cs[1..])
  }

  /** The messages of a list of checks, in the same order. */
  function ErrorsOf(cs: seq<Check>): (r: seq<string>)
    ensures |r| == |cs|
  {
    if cs == [] then [] else [ErrorText(cs[0])] + ErrorsOf(cs[1..])
  }

  /** Every check is in `CheckOrder`, at its rank. */
  lemma InCheckOrder(c: Check)
    ensures CheckOrder[Rank(c)] == c
  {
  }

  /** A check is kept exactly when it is listed and fails. */
  lemma {:induction false} FailingChecksIn(failing: Check -> bool, cs: seq<Check>, c: Check)
    ensures c in FailingChecks(failing, cs) <==> c in cs && failing(c)
  {
    if cs != [] {
      assert cs == [cs[0]] + cs[1..];
      FailingChecksIn(failing, cs[1..], c);
    }
  }

  /** No check of `CheckOrder` fails exactly when no check fails at all. */
  lemma NoFailingChecks(form: Form)
    ensures FailingChecks(Verdict(form), CheckOrder) == [] <==> forall c: Check :: !Fails(form, c)
  {
    var checks := FailingChecks(Verdict(form), CheckOrder);
    if checks != [] {
      FailingChecksIn(Verdict(form), CheckOrder, checks[0]);
    } else {
      forall c: Check ensures !Fails(form, c) {
        InCheckOrder(c);
        FailingChecksIn(Verdict(form), CheckOrder, c);
      }
    }
  }

  /** A message is among the messages of `cs` exactly when its check is in `cs`. */
  lemma {:induction false} ErrorsOfIn(cs: seq<Check>, c: Check)
    ensures ErrorText(c) in ErrorsOf(cs) <==> c in cs
  {
    if cs != [] {
      assert cs == [cs[0]] + cs[1..];
      ErrorsOfIn(cs[1..], c);
      ErrorTextInjective(c, cs[0]);
    }
  }

  lemma {:induction false} ErrorsOfAt(cs: seq<Check>, i: nat)
    requires i < |cs|
    ensures ErrorsOf(cs)[i] == ErrorText(cs[i])
  {
    if i > 0 {
      ErrorsOfAt(cs[1..], i - 1);
    }
  }

  /** The check an error message belongs to. */
  function CheckOf(e: string): (c: Check)
    requires exists c: Check :: ErrorText(c) == e
    ensures ErrorText(c) == e
  {
    if e == NameError then Name
    else if e == EmailError then Email
    else if e == PhoneError then Phone
    else if e == CompanyError then Company
    else if e == RevenueError then Revenue
    else Message
  }

  /** No two checks share an error message. */
  lemma ErrorTextInjective(c: Check, d: Check)
    ensures ErrorText(c) == ErrorText(d) <==> c == d
  {
  }

  /** A check's message is reported exactly when the check fails. */
  lemma ErrorReported(form: Form, c: Check)
    ensures ErrorText(c) in ValidateForm(form) <==> Fails(form, c)
  {
    ErrorsOfIn(FailingChecks(Verdict(form), CheckOrder), c);
    FailingChecksIn(Verdict(form), CheckOrder, c);
    InCheckOrder(c);
  }

  /** Every reported error belongs to a failing check, and the errors come
      in the order name, email, phone, company, revenue, message: so no
      message is reported twice. */
  lemma ErrorsInOrder(form: Form)
    ensures forall i :: 0 <= i < |ValidateForm(form)| ==>
      exists c: Check :: ErrorText(c) == ValidateForm(form)[i] && Fails(form, c)
    ensures forall i, j :: 0 <= i < j < |ValidateForm(form)| ==>
      Rank(CheckOf(ValidateForm(form)[i])) < Rank(CheckOf(ValidateForm(form)[j]))
  {
    var errors := ValidateForm(form);
    var checks := FailingChecks(Verdict(form), CheckOrder);
    forall i | 0 <= i < |errors|
      ensures ErrorText(checks[i]) == errors[i] && Fails(form, checks[i])
      ensures CheckOf(errors[i]) == checks[i]
    {
      ErrorsOfAt(checks, i);
      FailingChecksIn(Verdict(form), CheckOrder, checks[i]);
      ErrorTextInjective(CheckOf(errors[i]), checks[i]);
    }
    FailingChecksRanked(Verdict(form), CheckOrder, 0);
  }

  /** Ranks along `CheckOrder[k..]` strictly increase, and so do the ranks
      of any sub-list of it that keeps its order. */
  lemma {:induction false} FailingChecksRanked(failing: Check -> bool, cs: seq<Check>, k: nat)
    requires k <= |CheckOrder| && cs == CheckOrder[k..]
    ensures forall i :: 0 <= i < |FailingChecks(failing, cs)| ==> Rank(FailingChecks(failing, cs)[i]) >= k
    ensures forall i, j :: 0 <= i < j < |FailingChecks(failing, cs)| ==>
      Rank(FailingChecks(failing, cs)[i]) < Rank(FailingChecks(failing, cs)[j])
  {
    if k < |CheckOrder| {
      assert cs[0] == CheckOrder[k] && Rank(cs[0]) == k;
      assert cs[1..] == CheckOrder[k + 1..];
      FailingChecksRanked(failing, cs[1..], k + 1);
      var rest := FailingChecks(failing, cs[1..]);
      if failing(cs[0]) {
        RankedCons(cs[0], rest, k);
      } else {
        assert FailingChecks(failing, cs) == rest;
      }
    }
  }

  /** Putting a check of rank `k` before checks of higher, increasing rank
      keeps the ranks increasing. */
  lemma RankedCons(c: Check, rest: seq<Check>, k: nat)
    requires Rank(c) == k
    requires forall i :: 0 <= i < |rest| ==> Rank(rest[i]) >= k + 1
    requires forall i, j :: 0 <= i < j < |rest| ==> Rank(rest[i]) < Rank(rest[j])
    ensures forall i :: 0 <= i < |[c] + rest| ==> Rank(([c] + rest)[i]) >= k
    ensures forall i, j :: 0 <= i < j < |[c] + rest| ==> Rank(([c] + rest)[i]) < Rank(([c] + rest)[j])
  {
    forall i, j | 0 <= i < j < |[c] + rest|
      ensures Rank(([c] + rest)[i]) < Rank(([c] + rest)[j])
    {
      assert ([c] + rest)[j] == rest[j - 1];
      if i > 0 {
        assert ([c] + rest)[i] == rest[i - 1];
      }
    }
  }

  /** A name is rejected exactly when it has fewer than two visible
      characters, a character outside the Basic Multilingual Plane
      counting as two. */
  lemma NameRejected(form: Form)
    ensures NameError in ValidateForm(form) <==>
      var v := Field(form, "name");
      VisibleCount(v) == 0
      || (VisibleCount(v) == 1 && VisibleInBmp(v))
  {
    ErrorReported(form, Name);
    TrimmedShort(Field(form, "name"));
  }

  /** The optional fields: an empty or absent phone, company or message
      never produces an error, while a present company that trims to fewer
      than two code units does. */
  lemma OptionalFields(form: Form)
    ensures Field(form, "phone") == "" ==> PhoneError !in ValidateForm(form)
    ensures Field(form, "company") == "" ==> CompanyError !in ValidateForm(form)
    ensures Field(form, "message") == "" ==> MessageError !in ValidateForm(form)
    ensures Field(form, "company") != "" && Utf16Length(Trim(Field(form, "company"))) < 2 ==>
      CompanyError in ValidateForm(form)
  {
    ErrorReported(form, Phone);
    ErrorReported(form, Company);
    ErrorReported(form, Message);
  }

  /** A message of exactly 1000 code units is accepted, and one of 1001 is
      rejected (although the error text says "less than 1000"). */
  lemma MessageLengthBoundary(form: Form)
    ensures Utf16Length(Field(form, "message")) == 1000 ==> MessageError !in ValidateForm(form)
    ensures Utf16Length(Field(form, "message")) == 1001 ==> MessageError in ValidateForm(form)
  {
    ErrorReported(form, Message);
  }
}
