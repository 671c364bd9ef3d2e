/**
 * Character classes and string operations shared by the validators:
 * the whitespace set used by `String.prototype.trim` and the `\s` class,
 * UTF-16 length (what `.length` counts), trimming, and joining/splitting.
 */
module Text {

  /** ECMAScript WhiteSpace and LineTerminator code points: exactly what
      `trim()` strips and what the regular-expression class `\s` matches. */
  predicate IsWhitespace(c: char) {
    var n := c as int;
    n == 0x09 || n == 0x0A || n == 0x0B || n == 0x0C || n == 0x0D || n == 0x20
    || n == 0xA0 || n == 0x1680 || (0x2000 <= n <= 0x200A)
    || n == 0x2028 || n == 0x2029 || n == 0x202F || n == 0x205F
    || n == 0x3000 || n == 0xFEFF
  }

  /** The regular-expression class `\d`: the ten ASCII digits. */
  predicate IsDigit(c: char) {
    '0' <= c <= '9'
  }

  predicate NoWhitespace(s: string) {
    forall i :: 0 <= i < |s| ==> !IsWhitespace(s[i])
  }

  predicate AllWhitespace(s: string) {
    forall i :: 0 <= i < |s| ==> IsWhitespace(s[i])
  }

  /** Number of UTF-16 code units of `s`: JavaScript's `s.length`. A code
      point outside the Basic Multilingual Plane takes a surrogate pair. */
  function Utf16Length(s: string): (n: nat)
    ensures |s| <= n <= 2 * |s|
    ensures n == |s| <==> forall i :: 0 <= i < |s| ==> s[i] as int < 0x10000
  {
    if s == [] then 0
    else (if s[0] as int < 0x10000 then 1 else 2) + Utf16Length(s[1..])
  }

  /** `.length` adds up over concatenation; with the contract above on a
      single character (one unit inside the Basic Multilingual Plane, two
      outside it) this fixes the length of every string. */
  lemma {:induction false} Utf16LengthAppend(a: string, b: string)
    ensures Utf16Length(a + b) == Utf16Length(a) + Utf16Length(b)
  {
    if a == [] {
      assert a + b == b;
    } else {
      assert (a + b)[1..] == a[1..] + b;
      Utf16LengthAppend(a[1..], b);
    }
  }

  /** Number of code points of `s` that are not whitespace. */
  function VisibleCount(s: string): nat
  {
    if s == [] then 0
    else (if IsWhitespace(s[0]) then 0 else 1) + VisibleCount(s[1..])
  }

  lemma {:induction false} VisibleCountAppend(a: string, b: string)
    ensures VisibleCount(a + b) == VisibleCount(a) + VisibleCount(b)
  {
    if a == [] {
      assert a + b == b;
    } else {
      assert (a + b)[1..] == a[1..] + b;
      VisibleCountAppend(a[1..], b);
    }
  }

  lemma {:induction false} AllWhitespaceInvisible(s: string)
    requires AllWhitespace(s)
    ensures VisibleCount(s) == 0
  {
    if s != [] {
      AllWhitespaceInvisible(s[1..]);
    }
  }

  /** Length of the whitespace prefix of `s`. */
  function LeadingWhitespace(s: string): (k: nat)
    ensures k <= |s|
    ensures AllWhitespace(s[..k])
    ensures k < |s| ==> !IsWhitespace(s[k])
  {
    if s == [] || !IsWhitespace(s[0]) then 0
    else
      var k := 1 + LeadingWhitespace(s[1..]);
      assert s[..k] == [s[0]] + s[1..][..k - 1];
      k
  }

  /** Length of `s` without its whitespace suffix. */
  function TrailingCut(s: string): (k: nat)
    ensures k <= |s|
    ensures AllWhitespace(s[k..])
    ensures k > 0 ==> !IsWhitespace(s[k - 1])
  {
    if s == [] || !IsWhitespace(s[|s| - 1]) then |s|
    else
      var k := TrailingCut(s[..|s| - 1]);
      assert s[k..] == s[..|s| - 1][k..] + [s[|s| - 1]];
      k
  }

  /** `String.prototype.trim`: `s` without leading and trailing whitespace.
      The result is the slice of `s` between two whitespace-only margins,
      it starts and ends with a visible character (or is empty), and it
      keeps every visible character of `s`. */
  function Trim(s: string): (r: string)
    ensures |r| <= |s|
    ensures r != [] ==> !IsWhitespace(r[0]) && !IsWhitespace(r[|r| - 1])
    ensures IsTrimCut(s, r)
    ensures VisibleCount(r) == VisibleCount(s)
  {
    var lo := LeadingWhitespace(s);
    var hi := TrailingCut(s[lo..]);
    TrimMargins(s, lo, hi);
    TrimVisible(s, lo, hi);
    s[lo..][..hi]
  }

  /** `r` is the slice of `s` between a whitespace-only prefix and a
      whitespace-only suffix. */
  predicate IsTrimCut(s: string, r: string) {
    exists lo | 0 <= lo <= |s| - |r| ::
      s[lo..lo + |r|] == r && AllWhitespace(s[..lo]) && AllWhitespace(s[lo + |r|..])
  }

  /** The cut `trim` makes: the kept slice, bounded by the two margins. */
  lemma TrimMargins(s: string, lo: nat, hi: nat)
    requires lo <= |s| && hi <= |s| - lo
    requires AllWhitespace(s[..lo]) && AllWhitespace(s[lo..][hi..])
    requires lo < |s| ==> !IsWhitespace(s[lo])
    requires hi > 0 ==> !IsWhitespace(s[lo..][hi - 1])
    ensures var r := s[lo..][..hi];
            (r != [] ==> !IsWhitespace(r[0]) && !IsWhitespace(r[|r| - 1])) && IsTrimCut(s, r)
  {
    var rest := s[lo..];
    var r := rest[..hi];
    assert s[lo..lo + hi] == r;
    assert s[lo + hi..] == rest[hi..];
    if hi > 0 {
      assert r[0] == s[lo];
      assert r[hi - 1] == rest[hi - 1];
    }
  }

  /** Cutting off two whitespace-only margins keeps every visible character. */
  lemma TrimVisible(s: string, lo: nat, hi: nat)
    requires lo <= |s| && hi <= |s| - lo
    requires AllWhitespace(s[..lo]) && AllWhitespace(s[lo..][hi..])
    ensures VisibleCount(s[lo..][..hi]) == VisibleCount(s)
  {
    var rest := s[lo..];
    var r := rest[..hi];
    assert rest == r + rest[hi..];
    assert s == s[..lo] + rest;
    VisibleCountAppend(s[..lo], rest);
    VisibleCountAppend(r, rest[hi..]);
    AllWhitespaceInvisible(s[..lo]);
    AllWhitespaceInvisible(rest[hi..]);
  }

  /** A visible character of `s` lies between its two whitespace margins. */
  lemma VisibleInside(s: string, lo: nat, hi: nat, i: nat)
    requires lo <= hi <= |s| && i < |s|
    requires AllWhitespace(s[..lo]) && AllWhitespace(s[hi..])
    requires !IsWhitespace(s[i])
    ensures lo <= i < hi
  {
    forall j | 0 <= j < lo ensures IsWhitespace(s[j]) {
      assert s[..lo][j] == s[j];
    }
    forall j | hi <= j < |s| ensures IsWhitespace(s[j]) {
      assert s[hi..][j - hi] == s[j];
    }
  }

  /** A string that starts and ends with a visible character, at two
      different positions, has at least two visible characters. */
  lemma TwoVisibleEnds(r: string)
    requires |r| >= 2 && !IsWhitespace(r[0]) && !IsWhitespace(r[|r| - 1])
    ensures VisibleCount(r) >= 2
  {
    var mid := r[1..|r| - 1];
    assert r == [r[0]] + (mid + [r[|r| - 1]]);
    VisibleCountAppend([r[0]], mid + [r[|r| - 1]]);
    VisibleCountAppend(mid, [r[|r| - 1]]);
  }

  /** When trimming leaves one character, it is the only visible one. */
  lemma TrimmedSingle(s: string)
    requires |Trim(s)| == 1
    ensures VisibleCount(s) == 1
    ensures exists i :: 0 <= i < |s| && s[i] == Trim(s)[0]
    ensures forall i :: 0 <= i < |s| && !IsWhitespace(s[i]) ==> s[i] == Trim(s)[0]
  {
    var r := Trim(s);
    assert IsTrimCut(s, r);
    var lo :| 0 <= lo <= |s| - |r| &&
      s[lo..lo + |r|] == r && AllWhitespace(s[..lo]) && AllWhitespace(s[lo + |r|..]);
    SingleCut(s, r[0], lo);
    assert VisibleCount(r) == 1 by {
      assert r[1..] == [];
    }
  }

  /** A character between two whitespace-only margins is the only visible
      character of the string. */
  lemma SingleCut(s: string, c: char, lo: nat)
    requires lo < |s| && s[lo] == c
    requires AllWhitespace(s[..lo]) && AllWhitespace(s[lo + 1..])
    ensures forall i :: 0 <= i < |s| && !IsWhitespace(s[i]) ==> s[i] == c
  {
    forall i | 0 <= i < |s| && !IsWhitespace(s[i])
      ensures s[i] == c
    {
      VisibleInside(s, lo, lo + 1, i);
    }
  }

  /** Every visible character of `s` is in the Basic Multilingual Plane,
      so it takes one UTF-16 code unit. */
  predicate VisibleInBmp(s: string) {
    forall i :: 0 <= i < |s| && !IsWhitespace(s[i]) ==> s[i] as int < 0x10000
  }

  lemma TrimmedLong(s: string)
    requires |Trim(s)| >= 2
    ensures Utf16Length(Trim(s)) >= 2 && VisibleCount(s) >= 2
  {
    LongVisibleEnds(Trim(s));
  }

  /** A string of two or more characters with visible ends has JavaScript
      length at least 2 and at least two visible characters. */
  lemma LongVisibleEnds(r: string)
    requires |r| >= 2 && !IsWhitespace(r[0]) && !IsWhitespace(r[|r| - 1])
    ensures Utf16Length(r) >= 2 && VisibleCount(r) >= 2
  {
    TwoVisibleEnds(r);
  }

  lemma TrimmedOne(s: string)
    requires |Trim(s)| == 1
    ensures VisibleCount(s) == 1
    ensures Utf16Length(Trim(s)) < 2 <==> VisibleInBmp(s)
  {
    var r := Trim(s);
    TrimmedSingle(s);
    assert Utf16Length(r) == if r[0] as int < 0x10000 then 1 else 2 by {
      assert r[1..] == [];
    }
    var i :| 0 <= i < |s| && s[i] == r[0];
    assert !IsWhitespace(s[i]);
  }

  /** A string whose trimmed JavaScript length is below 2 is one with no
      visible character, or with exactly one, from the Basic Multilingual
      Plane (a single astral character already has length 2). */
  lemma TrimmedShort(s: string)
    ensures Utf16Length(Trim(s)) < 2 <==>
      (VisibleCount(s) == 0 || (VisibleCount(s) == 1 && VisibleInBmp(s)))
  {
    var r := Trim(s);
    if |r| >= 2 {
      TrimmedLong(s);
    } else if |r| == 1 {
      TrimmedOne(s);
    }
  }

  /** Sum of the lengths of `parts`. */
  function TotalLength(parts: seq<string>): nat {
    if parts == [] then 0 else |parts[0]| + TotalLength(parts[1..])
  }

  /** `parts.join(sep)`: the parts in order, `sep` between each two. The
      result starts with the first part, holds every part's characters and
      one `sep` per gap; its inverse is `Split` (see `SplitJoin`). */
  function Join(parts: seq<string>, sep: string): (r: string)
    ensures parts != [] ==> parts[0] <= r
    ensures |r| == TotalLength(parts) + (if parts == [] then 0 else (|parts| - 1) * |sep|)
  {
    if parts == [] then ""
    else if |parts| == 1 then parts[0]
    else parts[0] + sep + Join(parts[1..], sep)
  }

  /** Index of the first `c` in `s`, or `|s|` when there is none. */
  function IndexOf(s: string, c: char): (i: nat)
    ensures i <= |s|
    ensures i < |s| ==> s[i] == c
    ensures forall j :: 0 <= j < i ==> s[j] != c
  {
    if s == [] then 0
    else if s[0] == c then 0
    else 1 + IndexOf(s[1..], c)
  }

  lemma {:induction false} IndexOfAbsent(s: string, c: char)
    requires c !in s
    ensures IndexOf(s, c) == |s|
  {
    if s != [] {
      IndexOfAbsent(s[1..], c);
    }
  }

  lemma {:induction false} IndexOfAfter(p: string, t: string, c: char)
    requires c !in p && t != [] && t[0] == c
    ensures IndexOf(p + t, c) == |p|
  {
    if p != [] {
      assert (p + t)[1..] == p[1..] + t;
      IndexOfAfter(p[1..], t, c);
    }
  }

  /** `s.split(c)` for a one-character separator. */
  function Split(s: string, c: char): (r: seq<string>)
    ensures |r| >= 1
    ensures forall k :: 0 <= k < |r| ==> c !in r[k]
    decreases |s|
  {
    var i := IndexOf(s, c);
    if i == |s| then [s] else [s[..i]] + Split(s[i + 1..], c)
  }

  /** Splitting at the first separator, which follows a part free of it. */
  lemma SplitAfter(p: string, tail: string, c: char)
    requires c !in p
    ensures Split(p + ([c] + tail), c) == [p] + Split(tail, c)
  {
    var s := p + ([c] + tail);
    IndexOfAfter(p, [c] + tail, c);
    assert s[..|p|] == p;
    assert s[|p| + 1..] == tail;
  }

  /** Joining a non-empty list on a character that none of its parts
      contains can be undone by splitting on that character. */
  lemma {:induction false} SplitJoin(parts: seq<string>, c: char)
    requires |parts| >= 1
    requires forall k :: 0 <= k < |parts| ==> c !in parts[k]
    ensures Split(Join(parts, [c]), c) == parts
  {
    if |parts| == 1 {
      IndexOfAbsent(parts[0], c);
    } else {
      var tail := Join(parts[1..], [c]);
      assert Join(parts, [c]) == parts[0] + ([c] + tail);
      SplitAfter(parts[0], tail, c);
      SplitJoin(parts[1..], c);
      assert parts == [parts[0]] + parts[1..];
    }
  }
}
