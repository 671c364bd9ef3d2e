/**
 * `secureFormSubmit`: sanitise every field, validate, consult the rate
 * limiter keyed by the sanitised email, then add a timestamp and a CSRF
 * token. `sanitizeInput`, the clock and the random source are parameters.
 */
module SecureSubmit {
  import opened Text
  import opened Validators
  import opened FormValidation
  import opened RateLimiting
  import opened CsrfToken

  /** A value of the record handed on for submission: the form's strings
      and the numeric `timestamp`. */
  datatype Value = Str(text: string) | Num(number: int)

  /** How `secureFormSubmit` ends: with the record, or by throwing an
      `Error` with this message. */
  datatype Outcome = Submitted(record: map<string, Value>) | Rejected(message: string)

  const RateLimitedError := "Too many submissions. Please try again later."

  /** The one key an assignment into `{}` does not store: `__proto__` is an
      accessor inherited from `Object.prototype`, and its setter ignores a
      value that is not an object, so `sanitizedData['__proto__'] = s`
      leaves `sanitizedData` without that field. */
  const ProtoKey := "__proto__"

  /** `sanitizedData` after the loop: every field of `form` but
      `__proto__`, passed through `sanitize`. */
  function Sanitized(form: Form, sanitize: string -> string): (clean: Form)
    ensures clean.Keys == form.Keys - {ProtoKey}
    ensures forall k :: k in clean ==> clean[k] == sanitize(form[k])
  {
    map k | k in form && k != ProtoKey :: sanitize(form[k])
  }

  /** The `for (const [key, value] of Object.entries(formData))` loop that
      fills `sanitizedData`. */
  method SanitizeFields(form: Form, sanitize: string -> string) returns (clean: Form)
    ensures clean == Sanitized(form, sanitize)
  {
    clean := map[];
    var pending := form.Keys;
    while pending != {}
      invariant pending <= form.Keys
      invariant clean.Keys == form.Keys - pending - {ProtoKey}
      invariant forall k :: k in clean ==> clean[k] == sanitize(form[k])
      decreases |pending|
    {
      var k :| k in pending;
      if k != ProtoKey {
        clean := clean[k := sanitize(form[k])];
      }
      pending := pending - {k};
    }
  }

  /** `sanitizedData` after `timestamp` and `csrf` are set: the sanitised
      fields, with those two keys added or overwritten. */
  function Decorated(clean: Form, timestamp: int, csrf: string): (record: map<string, Value>)
    ensures record.Keys == clean.Keys + {"timestamp", "csrf"}
    ensures record["timestamp"] == Num(timestamp) && record["csrf"] == Str(csrf)
    ensures forall k :: k in clean && k != "timestamp" && k != "csrf" ==> record[k] == Str(clean[k])
  {
    var fields := map k | k in clean :: Str(clean[k]);
    fields["timestamp" := Num(timestamp)]["csrf" := Str(csrf)]
  }

  /** `secureFormSubmit(formData)`. `checkTime` is the clock reading the
      limiter takes, `stampTime` the one stored as `timestamp`, and
      `random` the bytes the token is made from. A form that fails
      validation is rejected with its errors joined by newlines, before
      the limiter is consulted, so the limiter is left untouched. Otherwise
      the limiter decides, keyed by the sanitised email, and an admitted
      form comes back sanitised and decorated. */
  method SecureFormSubmit(limiter: RateLimiter, form: Form, sanitize: string -> string,
                          checkTime: int, stampTime: int, random: seq<Byte>)
    returns (outcome: Outcome)
    requires limiter.Valid()
    requires |random| == TokenBytes
    modifies limiter
    ensures limiter.Valid()
    ensures var clean := Sanitized(form, sanitize);
            ValidateForm(clean) != [] ==>
              outcome == Rejected(Join(ValidateForm(clean), "\n")) && unchanged(limiter)
    ensures var clean := Sanitized(form, sanitize);
            var key := Field(clean, "email");
            ValidateForm(clean) == [] ==>
              && IsValidEmail(key)
              && var admitted := |Recent(old(limiter.Stored(key)), checkTime)| < MaxAttempts;
                 && outcome == (if admitted then Submitted(Decorated(clean, stampTime, GenerateCsrfToken(random)))
                                else Rejected(RateLimitedError))
                 && limiter.submissions == (if admitted
                                            then old(limiter.submissions)[key := Recent(old(limiter.Stored(key)), checkTime) + [checkTime]]
                                            else old(limiter.submissions))
  {
    var clean := SanitizeFields(form, sanitize);
    var errors := ValidateForm(clean);
    if errors != [] {
      return Rejected(Join(errors, "\n"));
    }
    assert !Fails(clean, Email);
    var key := Field(clean, "email");
    var ok := limiter.CanSubmit(key, checkTime);
    if !ok {
      return Rejected(RateLimitedError);
    }
    var token := GenerateCsrfToken(random);
    outcome := Submitted(Decorated(clean, stampTime, token));
  }

  // One lemma per message: each proof looks at the characters of one
  // message only.

  lemma NameErrorOneLine()
    ensures '\n' !in NameError
  {
  }

  lemma EmailErrorOneLine()
    ensures '\n' !in EmailError
  {
  }

  lemma PhoneErrorOneLine()
    ensures '\n' !in PhoneError
  {
  }

  lemma CompanyErrorOneLine()
    ensures '\n' !in CompanyError
  {
  }

  lemma RevenueErrorOneLine()
    ensures '\n' !in RevenueError
  {
  }

  lemma MessageErrorOneLine()
    ensures '\n' !in MessageError
  {
  }

  /** No error message contains a newline. */
  lemma ErrorTextsOneLine(c: Check)
    ensures '\n' !in ErrorText(c)
  {
    match c
    case Name => NameErrorOneLine();
    case Email => EmailErrorOneLine();
    case Phone => PhoneErrorOneLine();
    case Company => CompanyErrorOneLine();
    case Revenue => RevenueErrorOneLine();
    case Message => MessageErrorOneLine();
  }

  /** The rejection message of an invalid form lists its errors one per
      line: splitting it on newlines gives back the error list. */
  lemma RejectionListsErrors(form: Form)
    requires ValidateForm(form) != []
    ensures Split(Join(ValidateForm(form), "\n"), '\n') == ValidateForm(form)
  {
    var errors := ValidateForm(form);
    ErrorsInOrder(form);
    forall k | 0 <= k < |errors| ensures '\n' !in errors[k] {
      var c: Check :| ErrorText(c) == errors[k] && Fails(form, c);
      ErrorTextsOneLine(c);
    }
    SplitJoin(errors, '\n');
  }
}
