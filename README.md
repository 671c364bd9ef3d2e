# Contact-form security layer, modelled in Dafny

This project models the form-validation and anti-abuse layer of the
impakt Labs website (`security-enhancements.js`). It covers:

- the two string validators `isValidEmail` and `isValidPhone`;
- `validateForm`, with its six field checks and their error messages;
- the sliding-window `rateLimiter` (`canSubmit` over the `submissions`
  map, `maxAttempts = 3`, `windowMs = 60000`);
- the hexadecimal formatting of `generateCSRFToken`;
- the `secureFormSubmit` pipeline: sanitise every field, validate, consult
  the limiter keyed by the sanitised email, then add `timestamp` and `csrf`.

Modules follow the parts of the source file:

| file | module | what it holds |
|---|---|---|
| `text.dfy` | `Text` | the ECMAScript whitespace set (shared by `trim()` and `\s`), `.length` as UTF-16 length, `trim`, `join`, `split` |
| `validators.dfy` | `Validators` | `isValidEmail` (restated structurally and proved equal to the regular expression's language), `isValidPhone` |
| `form_validation.dfy` | `FormValidation` | the six checks, `validateForm`, the order and uniqueness of its errors |
| `rate_limiter.dfy` | `RateLimiting` | the window filter, the `RateLimiter` class and its invariant |
| `csrf_token.dfy` | `CsrfToken` | `toString(16)`, `padStart`, the byte-to-hex encoding, its layout and its inverse |
| `secure_submit.dfy` | `SecureSubmit` | the sanitising loop, the decoration of the record, `secureFormSubmit` |

Modelling choices:

- **Form data.** A form is a `map<string, string>`, the shape
  `Object.fromEntries(new FormData(form))` produces. An absent field reads as
  `""`, because every check tests the field's truthiness first, and
  `undefined` and `""` are both falsy.
- **Length.** JavaScript's `.length` counts UTF-16 code units, so a
  character outside the Basic Multilingual Plane counts as two (`Utf16Length`).
- **Whitespace.** `trim()` and `\s` strip and match exactly the ECMAScript
  WhiteSpace and LineTerminator code points, and `IsWhitespace` lists those
  code points.
- **Sanitising comes first.** `secureFormSubmit` validates the sanitised
  values. A field the sanitiser lengthens (an `&` becomes `&amp;`) is
  therefore checked at its escaped length.
- **Things passed in as parameters:**
  - The sanitiser is a function parameter `sanitize`.
  - The two `Date.now()` readings are `checkTime` (the one `canSubmit` takes)
    and `stampTime` (the one stored as `timestamp`).
  - The 32 random bytes are `random`.
- **The limiter's extra state.** The `RateLimiter` class keeps two ghost
  fields. `granted` is every admitted timestamp, never filtered. `clock` is
  every reading `CanSubmit` was given. Its invariant shows what the window is
  for: over a clock that never goes back, an admitted identifier has at most
  `MaxAttempts` admissions within the window ending at the current reading.
- **A `__proto__` field.** `sanitizedData` is a `{}` literal, and
  `sanitizedData['__proto__'] = value` calls the setter inherited from
  `Object.prototype`, which ignores a string. So a form field named
  `__proto__` never reaches the validated data or the returned record, and
  `Sanitized` drops it.
- **Error message wording.** The message check rejects only more than 1000
  code units, so a message of exactly 1000 is accepted, although its error
  text says "less than 1000" (`MessageLengthBoundary`). Both the check and
  the text are modelled as written.

## Model

| member | source | states |
|---|---|---|
| Text.IsWhitespace | security-enhancements.js:12 | `\s` matches exactly the ECMAScript WhiteSpace and LineTerminator code points, the same set `trim()` strips at lines 29 and 44 |
| Text.IsDigit | security-enhancements.js:20-21 | `\d` is the ten ASCII digits `0`-`9` |
| Text.Utf16Length | security-enhancements.js:29 | UTF-16 length lies between the code-point count and twice it, and equals the code-point count exactly when every code point is in the Basic Multilingual Plane; a single character counts one below U+10000 and two from there |
| Text.Utf16LengthAppend | security-enhancements.js:54 | `.length` of a concatenation is the sum of the lengths, so with the single-character case it fixes `.length` of every string |
| Text.Trim | security-enhancements.js:29 | `trim()` yields the slice of the input between two whitespace-only margins; it is empty or starts and ends with a non-whitespace character, and keeps every visible character |
| Text.TrimmedShort | security-enhancements.js:29 | `s.trim().length < 2` exactly when `s` has no visible character, or exactly one and it is in the Basic Multilingual Plane |
| Text.Join | security-enhancements.js:122 | `join` starts with the first part, and its length is the sum of the parts' lengths plus one separator per gap |
| Text.SplitJoin | security-enhancements.js:122 | joining a non-empty list on a character none of its parts contains is undone by splitting on that character |
| Validators.EmailChar | security-enhancements.js:12 | the class `[^\s@]`: any character that is neither whitespace nor `@` |
| Validators.MatchesEmailPattern | security-enhancements.js:12 | the language of the anchored pattern `/^[^\s@]+@[^\s@]+\.[^\s@]+$/`: some `@` and some later `.` split the whole string into three non-empty runs of `[^\s@]` |
| Validators.IsValidEmail | security-enhancements.js:11-14 | the regular-expression test, read structurally: a non-empty run of `[^\s@]` before the first `@`, and after it a domain without `@` or whitespace that has a `.` neither first nor last; `EmailMatchesPattern` proves it equal to the pattern's language |
| Validators.EmailMatchesPattern | security-enhancements.js:11-14 | the structural check accepts exactly the strings `/^[^\s@]+@[^\s@]+\.[^\s@]+$/` matches: an `@` and a later `.` split the string into three non-empty runs without whitespace or `@` |
| Validators.EmailAcceptance | security-enhancements.js:12-13 | an email is accepted iff it has exactly one `@`, no whitespace, a non-empty part before the `@`, and a `.` at index k of the part after it with 1 <= k <= length - 2 |
| Validators.PhoneChar | security-enhancements.js:20 | the class `[\d\s\-\+\(\)]`: a digit, whitespace, `-`, `+`, `(` or `)` |
| Validators.DigitsOf | security-enhancements.js:21 | `replace(/\D/g, '')` keeps every ASCII digit with its multiplicity and nothing else, so the result is never longer than the input |
| Validators.DigitsOfAppend | security-enhancements.js:21 | removing non-digits distributes over concatenation, so the digits keep their order; with the multiset contract this fixes the result |
| Validators.DigitsOfLength | security-enhancements.js:21 | the length of the digit string is the number of digits in the input |
| Validators.IsValidPhone | security-enhancements.js:17-22 | `""` is accepted at once (line 19); a non-empty phone is accepted iff every character is a digit, whitespace, `-`, `+`, `(` or `)` and it holds at least ten digits |
| Validators.ShortPhoneRejected | security-enhancements.js:19-21 | a non-empty phone shorter than ten code units is rejected, since it cannot hold ten digits |
| Validators.DigitPhoneAccepted | security-enhancements.js:19-21 | a phone of ten or more ASCII digits is accepted |
| FormValidation.Field | security-enhancements.js:29-54 | `formData.<key>`, with an absent key read as `""`, since each check tests truthiness and `undefined` and `""` are both falsy |
| FormValidation.Fails | security-enhancements.js:29-54 | the six conditions: name absent, empty or trimming below 2 units; email absent, empty or invalid; phone present and invalid; company present and trimming below 2 units; revenue absent or empty; message present and over 1000 units |
| FormValidation.ValidateForm | security-enhancements.js:25-59 | the messages of the failing checks in check order; at most six, and the list is empty iff all six checks pass |
| FormValidation.ErrorReported | security-enhancements.js:28-56 | a check's message is in the list exactly when that check fails |
| FormValidation.ErrorsInOrder | security-enhancements.js:25-58 | every error belongs to a failing check, and errors appear in the order name, email, phone, company, revenue, message with none repeated |
| FormValidation.ErrorTextInjective | security-enhancements.js:30-55 | the six messages are pairwise distinct, so a message identifies its check |
| FormValidation.NameRejected | security-enhancements.js:29-31 | the name error is reported exactly when the name has no visible character, or a single one in the Basic Multilingual Plane |
| FormValidation.OptionalFields | security-enhancements.js:38-56 | an empty or absent phone, company or message never yields its error; a present company whose trimmed length is below 2 does |
| FormValidation.MessageLengthBoundary | security-enhancements.js:53-56 | a message of exactly 1000 code units is accepted and one of 1001 is rejected |
| RateLimiting.Entry | security-enhancements.js:69 | `submissions.get(id)`, falling back to the empty list: the stored timestamps, or none for an unknown identifier |
| RateLimiting.RateLimiter.Stored | security-enhancements.js:69 | the limiter's stored timestamps for an identifier, read from `submissions` |
| RateLimiting.Recent | security-enhancements.js:72-74 | the filter keeps exactly the timestamps t with `now - t < windowMs`, each with its multiplicity |
| RateLimiting.RecentAppend | security-enhancements.js:72-74 | filtering distributes over concatenation, so it keeps the stored order |
| RateLimiting.RateLimiter.constructor | security-enhancements.js:62-65 | a new limiter has an empty `submissions` map and satisfies the invariant |
| RateLimiting.RateLimiter.CanSubmit | security-enhancements.js:67-83 | denies iff at least `maxAttempts` stored timestamps are within the window; on deny the map is unchanged (stale entries included); on admit the entry becomes the recent timestamps followed by `now`, at most `maxAttempts` long; other identifiers never change; the invariant is kept |
| RateLimiting.DenyKeepsInvariant | security-enhancements.js:76-78 | a denied call keeps the limiter invariant |
| RateLimiting.AdmitKeepsInvariant | security-enhancements.js:80-82 | an admitted call keeps the limiter invariant, and over a non-decreasing clock leaves at most `maxAttempts` admissions of the identifier within the window |
| RateLimiting.WindowKeptAdmit | security-enhancements.js:72-82 | after an admission every admitted timestamp still inside the window is still stored, so admissions within the window never exceed what is stored |
| CsrfToken.HexDigit | security-enhancements.js:89 | the lower-case digit `toString(16)` prints for a value below 16 |
| CsrfToken.ToHex | security-enhancements.js:89 | `toString(16)` gives at least one lower-case hexadecimal digit |
| CsrfToken.ToHexValue | security-enhancements.js:89 | the digits of `toString(16)` read in base 16 give back the number, with no leading zero |
| CsrfToken.PadStart | security-enhancements.js:89 | `padStart` yields the longer of the input and the width, the input as suffix and the fill character before it |
| CsrfToken.ByteHex | security-enhancements.js:89 | each byte gives exactly two digits, high nibble first, with a leading zero below 16 |
| CsrfToken.ByteHexes | security-enhancements.js:88-89 | `.map(b => …)`: one entry per byte, entry i the padded digits of byte i |
| CsrfToken.HexEncode | security-enhancements.js:88-90 | each byte mapped to its two padded digits, joined with the empty separator; `HexEncodeIsPairs` and `HexRoundTrip` fix its value and inverse |
| CsrfToken.GenerateCsrfToken | security-enhancements.js:87-91 | the token from 32 bytes is 64 lower-case hexadecimal characters |
| CsrfToken.HexEncodeIsPairs | security-enhancements.js:88-90 | mapping and joining equals the reference encoding of each byte as its high then low digit |
| CsrfToken.HexEncodeLayout | security-enhancements.js:88-90 | characters 2i and 2i+1 of the encoding are the two digits of byte i |
| CsrfToken.HexRoundTrip | security-enhancements.js:88-90 | decoding the encoding gives back the bytes |
| CsrfToken.HexEncodeInjective | security-enhancements.js:88-90 | different byte strings give different tokens |
| SecureSubmit.Sanitized | security-enhancements.js:114-117 | the record holds every field of the form except `__proto__`, each mapped to its sanitised value |
| SecureSubmit.SanitizeFields | security-enhancements.js:114-117 | the loop stores every field but `__proto__` as its sanitised value, and nothing else |
| SecureSubmit.Decorated | security-enhancements.js:132-133 | the record has the sanitised fields plus `timestamp` and `csrf`, those two set to the clock reading and the token |
| SecureSubmit.SecureFormSubmit | security-enhancements.js:112-140 | a form failing validation is rejected with its errors joined by newlines and the limiter untouched; otherwise the email validates, the limiter keyed by the sanitised email decides, and an admitted form yields the sanitised, decorated record |
| SecureSubmit.ErrorTextsOneLine | security-enhancements.js:30-55 | no error message contains a newline |
| SecureSubmit.RejectionListsErrors | security-enhancements.js:120-123 | splitting the rejection message on newlines gives back exactly the error list |

## Left out

- `sanitizeInput` (security-enhancements.js:4-8) escapes HTML through the DOM. It is the function parameter `sanitize`, and nothing is assumed about it.
- `Date.now()` and `crypto.getRandomValues` are parameters: they read the clock and a random source. The limiter reading (line 68) and the `timestamp` reading (line 132) are separate parameters, because they are two calls.
- `addSecurityHeaders`, `createSafeElement` and `secureStorage` (lines 94-196) are not modelled. They mutate the DOM and use the browser `URL` parser, `btoa`, `JSON` and `localStorage`.
- The `console.log` at line 137 is output only. The `async` wrapper is not modelled: a thrown `Error` becomes `Rejected(message)`, and the returned record becomes `Submitted(record)`.
- Key order is not modelled. `Object.entries` visits keys in property order (integer-like keys ascending, then the other string keys in insertion order), but a map has none, so the sanitised record is compared by contents.
- Field values are strings only. File entries of a `FormData` and objects with non-string values are not modelled.
- Surrogate code points are not modelled. A Dafny `char` cannot hold a lone surrogate, so `Utf16Length` counts only well-formed text.
- Whitespace: Unicode may later assign new Space_Separator characters. `IsWhitespace` fixes today's ECMAScript set.
- `rateLimiter` is a singleton object in the source. Here it is a `RateLimiter` instance passed into `SecureFormSubmit`.
- RateLimiting.RateLimiter.CanSubmit: the window bound over all admissions, as opposed to stored ones, is proved only when successive clock readings never go back. `Date.now()` can go back when the system clock is set back.
- SecureSubmit.SecureFormSubmit: it states the limiter's effect through `submissions` and the invariant only. The ghost history fields are updated as `CanSubmit` states.
- The other JavaScript files, the ballpit renderers and `server.py` are not part of this model. They are DOM wiring, floating-point rendering and network or HTTP I/O.
