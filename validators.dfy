/**
 * The two string validators of the contact form: `isValidEmail`, a fixed
 * regular expression restated structurally, and `isValidPhone`, an
 * allowed-character check with a digit count.
 */
module Validators {
  import opened Text

  /** The class `[^\s@]`. */
  predicate EmailChar(c: char) {
    !IsWhitespace(c) && c != '@'
  }

  predicate EmailRun(s: string) {
    forall i :: 0 <= i < |s| ==> EmailChar(s[i])
  }

  /** What `/^[^\s@]+@[^\s@]+\.[^\s@]+$/` matches: the string splits at an
      `@` and a later `.` into three non-empty runs of `[^\s@]`. */
  ghost predicate MatchesEmailPattern(s: string) {
    exists at, dot | 0 < at && at + 1 < dot && dot + 1 < |s| ::
      s[at] == '@' && s[dot] == '.'
      && EmailRun(s[..at]) && EmailRun(s[at + 1..dot]) && EmailRun(s[dot + 1..])
  }

  /** The domain part has a `.` strictly inside it: neither first nor last. */
  predicate HasInnerDot(d: string) {
    exists k | 1 <= k <= |d| - 2 :: d[k] == '.'
  }

  /** `isValidEmail`: a non-empty local part before the first `@`, and after
      it a domain with no `@` or whitespace that has a dot strictly inside. */
  function IsValidEmail(s: string): bool {
    var at := IndexOf(s, '@');
    0 < at < |s| && EmailRun(s[..at]) && EmailRun(s[at + 1..]) && HasInnerDot(s[at + 1..])
  }

  lemma EmailRunSlice(s: string, lo: nat, hi: nat)
    requires lo <= hi <= |s| && EmailRun(s)
    ensures EmailRun(s[lo..hi])
  {
    assert forall i :: 0 <= i < hi - lo ==> s[lo..hi][i] == s[lo + i];
  }

  lemma EmailRunJoin(a: string, c: char, b: string)
    requires EmailRun(a) && EmailChar(c) && EmailRun(b)
    ensures EmailRun(a + [c] + b)
  {
  }

  lemma StructuralImpliesPattern(s: string)
    requires IsValidEmail(s)
    ensures MatchesEmailPattern(s)
  {
    var at := IndexOf(s, '@');
    var d := s[at + 1..];
    var k :| 1 <= k <= |d| - 2 && d[k] == '.';
    var dot := at + 1 + k;
    assert s[at + 1..dot] == d[..k];
    assert s[dot + 1..] == d[k + 1..];
    EmailRunSlice(d, 0, k);
    EmailRunSlice(d, k + 1, |d|);
    assert s[dot] == '.';
  }

  lemma PatternImpliesStructural(s: string, a: nat, dot: nat)
    requires 0 < a && a + 1 < dot && dot + 1 < |s|
    requires s[a] == '@' && s[dot] == '.'
    requires EmailRun(s[..a]) && EmailRun(s[a + 1..dot]) && EmailRun(s[dot + 1..])
    ensures IsValidEmail(s)
  {
    var at := IndexOf(s, '@');
    forall j | 0 <= j < a ensures s[j] != '@' {
      assert s[..a][j] == s[j];
    }
    assert at == a;
    var d := s[a + 1..];
    assert d == s[a + 1..dot] + [s[dot]] + s[dot + 1..];
    EmailRunJoin(s[a + 1..dot], s[dot], s[dot + 1..]);
    assert d[dot - a - 1] == '.';
  }

  /** The structural check accepts exactly the strings the regular
      expression matches. */
  lemma EmailMatchesPattern(s: string)
    ensures IsValidEmail(s) <==> MatchesEmailPattern(s)
  {
    if IsValidEmail(s) {
      StructuralImpliesPattern(s);
    }
    if MatchesEmailPattern(s) {
      var a, dot :| 0 < a && a + 1 < dot && dot + 1 < |s| &&
        s[a] == '@' && s[dot] == '.'
        && EmailRun(s[..a]) && EmailRun(s[a + 1..dot]) && EmailRun(s[dot + 1..]);
      PatternImpliesStructural(s, a, dot);
    }
  }

  /** Number of occurrences of `c` in `s`. */
  function Occurrences(s: string, c: char): nat {
    if s == [] then 0 else (if s[0] == c then 1 else 0) + Occurrences(s[1..], c)
  }

  lemma {:induction false} OccurrencesAppend(a: string, b: string, c: char)
    ensures Occurrences(a + b, c) == Occurrences(a, c) + Occurrences(b, c)
  {
    if a == [] {
      assert a + b == b;
    } else {
      assert (a + b)[1..] == a[1..] + b;
      OccurrencesAppend(a[1..], b, c);
    }
  }

  lemma {:induction false} NoOccurrences(s: string, c: char)
    requires forall i :: 0 <= i < |s| ==> s[i] != c
    ensures Occurrences(s, c) == 0
  {
    if s != [] {
      NoOccurrences(s[1..], c);
    }
  }

  lemma {:induction false} SomeOccurrence(s: string, c: char, i: nat)
    requires i < |s| && s[i] == c
    ensures Occurrences(s, c) >= 1
  {
    if i > 0 {
      SomeOccurrence(s[1..], c, i - 1);
    }
  }

  /** Counting `@` around the first one. */
  lemma {:induction false} OccurrencesAroundFirst(s: string, at: nat)
    requires at == IndexOf(s, '@') && at < |s|
    ensures Occurrences(s, '@') == 1 + Occurrences(s[at + 1..], '@')
  {
    if s[0] != '@' {
      OccurrencesAroundFirst(s[1..], at - 1);
      assert s[1..][at..] == s[at + 1..];
    }
  }

  lemma AcceptanceSufficient(s: string)
    requires Occurrences(s, '@') == 1 && NoWhitespace(s)
    requires 0 < IndexOf(s, '@') < |s| && HasInnerDot(s[IndexOf(s, '@') + 1..])
    ensures IsValidEmail(s)
  {
    var at := IndexOf(s, '@');
    var pre, post := s[..at], s[at + 1..];
    OccurrencesAroundFirst(s, at);
    forall i | 0 <= i < |post| ensures EmailChar(post[i]) {
      if post[i] == '@' {
        SomeOccurrence(post, '@', i);
      }
      assert post[i] == s[at + 1 + i];
    }
    assert EmailRun(pre) by {
      assert forall i :: 0 <= i < |pre| ==> pre[i] == s[i];
    }
  }

  lemma AcceptanceNecessary(s: string)
    requires IsValidEmail(s)
    ensures Occurrences(s, '@') == 1 && NoWhitespace(s)
  {
    var at := IndexOf(s, '@');
    var pre, post := s[..at], s[at + 1..];
    OccurrencesAroundFirst(s, at);
    NoOccurrences(post, '@');
    forall i | 0 <= i < |s| ensures !IsWhitespace(s[i]) {
      if i < at {
        assert s[i] == pre[i];
      } else if i > at {
        assert s[i] == post[i - at - 1];
      }
    }
  }

  /** Email acceptance in plain terms: exactly one `@`, no whitespace, a
      non-empty part before the `@`, and a `.` at an index k of the part
      after it with 1 <= k <= length - 2. */
  lemma EmailAcceptance(s: string)
    ensures IsValidEmail(s) <==>
      (Occurrences(s, '@') == 1 && NoWhitespace(s)
       && 0 < IndexOf(s, '@') < |s| && HasInnerDot(s[IndexOf(s, '@') + 1..]))
  {
    if IsValidEmail(s) {
      AcceptanceNecessary(s);
    }
    if Occurrences(s, '@') == 1 && NoWhitespace(s)
       && 0 < IndexOf(s, '@') < |s| && HasInnerDot(s[IndexOf(s, '@') + 1..]) {
      AcceptanceSufficient(s);
    }
  }

  /** The class `[\d\s\-\+\(\)]`. */
  predicate PhoneChar(c: char) {
    IsDigit(c) || IsWhitespace(c) || c == '-' || c == '+' || c == '(' || c == ')'
  }

  /** `s.replace(/\D/g, '')`: the digits of `s`, in order. */
  function DigitsOf(s: string): (r: string)
    ensures |r| <= |s|
    ensures forall i :: 0 <= i < |r| ==> IsDigit(r[i])
    ensures forall c :: multiset(r)[c] == if IsDigit(c) then multiset(s)[c] else 0
  {
    if s == [] then ""
    else
      var rest := DigitsOf(s[1..]);
      assert s == [s[0]] + s[1..];
      if IsDigit(s[0]) then [s[0]] + rest else rest
  }

  /** The digits are kept in order: removing non-digits distributes over
      concatenation. With the contract above this fixes the result. */
  lemma {:induction false} DigitsOfAppend(a: string, b: string)
    ensures DigitsOf(a + b) == DigitsOf(a) + DigitsOf(b)
  {
    if a == [] {
      assert a + b == b;
    } else {
      assert (a + b)[1..] == a[1..] + b;
      DigitsOfAppend(a[1..], b);
    }
  }

  /** How many characters of `s` are digits. */
  function DigitCount(s: string): nat {
    if s == [] then 0 else (if IsDigit(s[0]) then 1 else 0) + DigitCount(s[1..])
  }

  /** `replace(/\D/g, '')` leaves as many characters as `s` has digits. */
  lemma {:induction false} DigitsOfLength(s: string)
    ensures |DigitsOf(s)| == DigitCount(s)
  {
    if s != [] {
      DigitsOfLength(s[1..]);
    }
  }

  /** `isValidPhone`: an empty (absent) phone is accepted at once; a
      non-empty one is accepted iff every character is a digit,
      whitespace, `-`, `+`, `(` or `)` and it holds at least ten digits. */
  function IsValidPhone(p: string): (ok: bool)
    ensures ok <==> p == "" || ((forall i :: 0 <= i < |p| ==> PhoneChar(p[i])) && DigitCount(p) >= 10)
  {
    DigitsOfLength(p);
    if p == "" then true
    else (forall i :: 0 <= i < |p| ==> PhoneChar(p[i])) && |DigitsOf(p)| >= 10
  }

  /** A non-empty phone shorter than ten characters cannot hold ten
      digits, so it is always rejected. */
  lemma ShortPhoneRejected(p: string)
    requires p != "" && Utf16Length(p) < 10
    ensures !IsValidPhone(p)
  {
  }

  /** A phone made of ten or more digits only is accepted: then its
      digits are the whole string. */
  lemma {:induction false} DigitsOfAllDigits(s: string)
    requires forall i :: 0 <= i < |s| ==> IsDigit(s[i])
    ensures DigitsOf(s) == s
  {
    if s != [] {
      DigitsOfAllDigits(s[1..]);
      assert s == [s[0]] + s[1..];
    }
  }

  lemma DigitPhoneAccepted(p: string)
    requires |p| >= 10 && forall i :: 0 <= i < |p| ==> IsDigit(p[i])
    ensures IsValidPhone(p)
  {
    DigitsOfAllDigits(p);
  }
}
