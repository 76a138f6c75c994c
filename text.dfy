/**
 * The string operations the two transforms use, restricted to ASCII:
 * `\d` of Python's `re`, `str.lower()`, `str.strip()` with no argument,
 * and the first-match search of `Series.str.extract(r'(\d{4})')`.
 */
module Text {
  import opened Wrappers

  /** An ASCII decimal digit (what `\d` matches among ASCII characters). */
  predicate IsDigit(c: char) { '0' <= c <= '9' }

  /** An ASCII capital letter (the only characters `lower()` changes in ASCII). */
  predicate IsUpper(c: char) { 'A' <= c <= 'Z' }

  /** The ASCII characters for which Python's `str.isspace()` holds:
      tab, line feed, vertical tab, form feed, carriage return,
      the four information separators 0x1C-0x1F, and space. */
  predicate IsSpace(c: char) {
    c == ' ' || '\U{9}' <= c <= '\U{D}' || '\U{1C}' <= c <= '\U{1F}'
  }

  function LowerChar(c: char): (r: char)
    ensures !IsUpper(r)
    ensures !IsUpper(c) ==> r == c
    ensures IsUpper(c) ==> 'a' <= r <= 'z' && r as int - c as int == 'a' as int - 'A' as int
  {
    if IsUpper(c) then (c as int + ('a' as int - 'A' as int)) as char else c
  }

  /** `s.lower()` on ASCII text: each character is lower-cased on its own. */
  function Lower(s: string): (r: string)
    ensures |r| == |s|
    ensures forall i :: 0 <= i < |r| ==> r[i] == LowerChar(s[i])
    ensures forall i :: 0 <= i < |r| ==> !IsUpper(r[i])
    ensures forall i :: 0 <= i < |r| ==> IsUpper(s[i]) || r[i] == s[i]
    ensures forall i :: 0 <= i < |r| ==> (IsSpace(r[i]) <==> IsSpace(s[i]))
  {
    seq(|s|, i requires 0 <= i < |s| => LowerChar(s[i]))
  }

  /** Leading whitespace removed: a suffix of `s`, everything cut is whitespace,
      and what is left does not start with whitespace. */
  function StripLeft(s: string): (r: string)
    ensures |r| <= |s| && r == s[|s| - |r|..]
    ensures forall i :: 0 <= i < |s| - |r| ==> IsSpace(s[i])
    ensures r == [] || !IsSpace(r[0])
  {
    if s != [] && IsSpace(s[0]) then StripLeft(s[1..]) else s
  }

  /** Trailing whitespace removed: a prefix of `s`, everything cut is whitespace,
      and what is left does not end with whitespace. */
  function StripRight(s: string): (r: string)
    ensures |r| <= |s| && r == s[..|r|]
    ensures forall i :: |r| <= i < |s| ==> IsSpace(s[i])
    ensures r == [] || !IsSpace(r[|r| - 1])
  {
    if s != [] && IsSpace(s[|s| - 1]) then StripRight(s[..|s| - 1]) else s
  }

  /** Neither end of `s` is whitespace. */
  predicate IsStripped(s: string) {
    s == [] || (!IsSpace(s[0]) && !IsSpace(s[|s| - 1]))
  }

  /** `r` is `s[i..i + |r|]` and everything outside that slice is whitespace. */
  predicate TrimmedAt(s: string, i: int, r: string) {
    0 <= i && i + |r| <= |s| && r == s[i..i + |r|]
    && (forall k :: 0 <= k < i ==> IsSpace(s[k]))
    && (forall k :: i + |r| <= k < |s| ==> IsSpace(s[k]))
  }

  /** `s.strip()` on ASCII text: the slice of `s` left after cutting whitespace,
      and only whitespace, from both ends. */
  function Strip(s: string): (r: string)
    ensures IsStripped(r)
    ensures exists i :: TrimmedAt(s, i, r)
  {
    var t := StripLeft(s);
    var r := StripRight(t);
    assert TrimmedAt(s, |s| - |t|, r);
    r
  }

  lemma LowerOfLowerCase(s: string)
    requires forall i :: 0 <= i < |s| ==> !IsUpper(s[i])
    ensures Lower(s) == s
  {
  }

  lemma StripOfStripped(s: string)
    requires IsStripped(s)
    ensures Strip(s) == s
  {
  }

  /** The faculty email cleanup, `.str.lower().str.strip()`, in that order: the
      lower-cased text with only its surrounding whitespace cut. */
  function NormalizeEmail(s: string): (r: string)
    ensures IsStripped(r)
    ensures forall i :: 0 <= i < |r| ==> !IsUpper(r[i])
    ensures exists i :: TrimmedAt(Lower(s), i, r)
  {
    Strip(Lower(s))
  }

  /** Cleaning an already cleaned email changes nothing. */
  lemma NormalizeEmailIdempotent(s: string)
    ensures NormalizeEmail(NormalizeEmail(s)) == NormalizeEmail(s)
  {
    var t := NormalizeEmail(s);
    LowerOfLowerCase(t);
    StripOfStripped(t);
  }

  /** Four ASCII digits starting at index `i` of `s`. */
  predicate DigitRunAt(s: string, i: int) {
    0 <= i && i + 4 <= |s|
    && IsDigit(s[i]) && IsDigit(s[i + 1]) && IsDigit(s[i + 2]) && IsDigit(s[i + 3])
  }

  /** The index of the leftmost run of four digits at or after `from`, if any. */
  function FirstDigitRun(s: string, from: nat): (r: Option<nat>)
    decreases |s| - from
    ensures r.Some? ==> from <= r.value && DigitRunAt(s, r.value)
    ensures r.Some? ==> forall k :: from <= k < r.value ==> !DigitRunAt(s, k)
    ensures r.None? ==> forall k :: from <= k ==> !DigitRunAt(s, k)
  {
    if |s| < from + 4 then None
    else if DigitRunAt(s, from) then Some(from)
    else FirstDigitRun(s, from + 1)
  }

  /** `str.extract(r'(\d{4})')` on one cell: the first four consecutive digits
      of `s`, or nothing (NaN) when `s` holds no such run. */
  function ExtractYear(s: string): (r: Option<string>)
    ensures r.None? <==> forall k :: !DigitRunAt(s, k)
    ensures r.Some? ==> exists i :: DigitRunAt(s, i) && r.value == s[i..i + 4]
                                    && forall k :: 0 <= k < i ==> !DigitRunAt(s, k)
    ensures r.Some? ==> |r.value| == 4 && forall j :: 0 <= j < 4 ==> IsDigit(r.value[j])
  {
    match FirstDigitRun(s, 0)
    case None => None
    case Some(i) => Some(s[i..i + 4])
  }

  /** A four-digit run with none before it is the one `ExtractYear` returns. */
  lemma ExtractYearAt(s: string, i: nat)
    requires DigitRunAt(s, i)
    requires forall k :: 0 <= k < i ==> !DigitRunAt(s, k)
    ensures ExtractYear(s) == Some(s[i..i + 4])
  {
    var r := FirstDigitRun(s, 0);
    assert r.Some?;
    assert r.value == i;
  }

  /** Text with no digit before a four-digit year yields that year, whatever follows. */
  lemma ExtractYearAfterText(prefix: string, year: string, rest: string)
    requires forall k :: 0 <= k < |prefix| ==> !IsDigit(prefix[k])
    requires |year| == 4 && forall k :: 0 <= k < 4 ==> IsDigit(year[k])
    ensures ExtractYear(prefix + year + rest) == Some(year)
  {
    var s := prefix + year + rest;
    var i := |prefix|;
    assert s[i..i + 4] == year;
    forall k | 0 <= k < i ensures !DigitRunAt(s, k) {
      assert s[k] == prefix[k];
    }
    ExtractYearAt(s, i);
  }

  /** Only whitespace before `t`: the left strip leaves `t`, untouched, when it
      does not start with whitespace. */
  lemma {:induction false} StripLeftPastSpaces(pre: string, t: string)
    requires forall k :: 0 <= k < |pre| ==> IsSpace(pre[k])
    requires t == [] || !IsSpace(t[0])
    ensures StripLeft(pre + t) == t
  {
    if pre != [] {
      assert (pre + t)[1..] == pre[1..] + t;
      StripLeftPastSpaces(pre[1..], t);
    }
  }

  lemma {:induction false} StripRightPastSpaces(t: string, post: string)
    requires forall k :: 0 <= k < |post| ==> IsSpace(post[k])
    requires t == [] || !IsSpace(t[|t| - 1])
    ensures StripRight(t + post) == t
  {
    if post != [] {
      var n := |post|;
      assert (t + post)[..|t + post| - 1] == t + post[..n - 1];
      StripRightPastSpaces(t, post[..n - 1]);
    }
  }

  /** Stripping removes surrounding whitespace and nothing else. */
  lemma StripSurrounded(pre: string, t: string, post: string)
    requires forall k :: 0 <= k < |pre| ==> IsSpace(pre[k])
    requires forall k :: 0 <= k < |post| ==> IsSpace(post[k])
    requires t != [] && IsStripped(t)
    ensures Strip(pre + t + post) == t
  {
    assert pre + t + post == pre + (t + post);
    StripLeftPastSpaces(pre, t + post);
    StripRightPastSpaces(t, post);
  }
}
