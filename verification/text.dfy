/** The string primitives the scripts rely on: the ECMAScript white-space
    set shared by `\s` and `String.prototype.trim`, trimming, ASCII case
    folding, and the leftmost case-insensitive search that `String.prototype.match`
    performs for a literal pattern. */
module Text {
  import opened Wrappers

  /** ECMAScript LineTerminator: the characters `.` refuses to match. */
  predicate IsLineTerminator(c: char) {
    c == '\n' || c == '\r' || c == '\U{2028}' || c == '\U{2029}'
  }

  /** ECMAScript WhiteSpace or LineTerminator: the set matched by `\s` and
      removed by `trim`. The Zs category is listed as of Unicode 15. */
  predicate IsSpace(c: char) {
    || IsLineTerminator(c)
    || c == '\t' || c == '\U{000B}' || c == '\U{000C}' || c == ' '
    || c == '\U{00A0}' || c == '\U{FEFF}' || c == '\U{1680}'
    || ('\U{2000}' <= c <= '\U{200A}')
    || c == '\U{202F}' || c == '\U{205F}' || c == '\U{3000}'
  }

  /** Empty or white space only. */
  predicate Blank(s: string) {
    forall k :: 0 <= k < |s| ==> IsSpace(s[k])
  }

  /** Neither starts nor ends with white space. */
  predicate IsTrimmed(s: string) {
    |s| == 0 || (!IsSpace(s[0]) && !IsSpace(s[|s| - 1]))
  }

  /** Number of leading white-space characters of `s`. */
  function LeadingSpaces(s: string): (n: nat)
    ensures n <= |s|
    ensures Blank(s[..n])
    ensures n < |s| ==> !IsSpace(s[n])
  {
    if |s| == 0 || !IsSpace(s[0]) then 0 else 1 + LeadingSpaces(s[1..])
  }

  /** Length of `s` without its trailing white space. */
  function TrimmedEnd(s: string): (n: nat)
    ensures n <= |s|
    ensures Blank(s[n..])
    ensures 0 < n ==> !IsSpace(s[n - 1])
  {
    if |s| == 0 || !IsSpace(s[|s| - 1]) then |s| else TrimmedEnd(s[..|s| - 1])
  }

  /** `String.prototype.trim`. */
  function Trim(s: string): (r: string)
    ensures IsTrimmed(r)
    ensures |r| <= |s|
  {
    var t := s[LeadingSpaces(s)..];
    t[..TrimmedEnd(t)]
  }

  lemma LeadingSpacesOfPadded(a: string, x: string)
    requires Blank(a)
    requires |x| == 0 || !IsSpace(x[0])
    ensures LeadingSpaces(a + x) == |a|
  {
    if |a| > 0 {
      assert (a + x)[1..] == a[1..] + x;
      LeadingSpacesOfPadded(a[1..], x);
    } else {
      assert a + x == x;
    }
  }

  lemma TrimmedEndOfPadded(x: string, b: string)
    requires Blank(b)
    requires |x| == 0 || !IsSpace(x[|x| - 1])
    ensures TrimmedEnd(x + b) == |x|
  {
    if |b| > 0 {
      assert (x + b)[..|x + b| - 1] == x + b[..|b| - 1];
      TrimmedEndOfPadded(x, b[..|b| - 1]);
    } else {
      assert x + b == x;
    }
  }

  /** `trim` removes exactly the white space around a trimmed core: this
      determines `Trim` on every input. */
  lemma {:induction false} TrimPadded(a: string, x: string, b: string)
    requires Blank(a) && Blank(b) && IsTrimmed(x)
    ensures Trim(a + x + b) == x
  {
    var s := a + x + b;
    if |x| == 0 {
      assert Blank(s) by {
        forall k | 0 <= k < |s| ensures IsSpace(s[k]) {
          if k < |a| { assert s[k] == a[k]; } else { assert s[k] == b[k - |a|]; }
        }
      }
      BlankTrimsToEmpty(s);
    } else {
      assert s == a + (x + b);
      LeadingSpacesOfPadded(a, x + b);
      assert s[|a|..] == x + b;
      TrimmedEndOfPadded(x, b);
    }
  }

  lemma BlankTrimsToEmpty(s: string)
    requires Blank(s)
    ensures LeadingSpaces(s) == |s|
    ensures Trim(s) == ""
  {
    if |s| > 0 {
      assert Blank(s[1..]) by {
        forall k | 0 <= k < |s| - 1 ensures IsSpace(s[1..][k]) { assert s[1..][k] == s[k + 1]; }
      }
      BlankTrimsToEmpty(s[1..]);
    }
  }

  /** `!s.trim()` holds exactly for blank strings. */
  lemma {:induction false} TrimEmptyIffBlank(s: string)
    ensures Trim(s) == "" <==> Blank(s)
  {
    if Blank(s) {
      BlankTrimsToEmpty(s);
    } else {
      var n := LeadingSpaces(s);
      assert n < |s|;
      var t := s[n..];
      assert !IsSpace(t[0]);
      assert 0 < TrimmedEnd(t);
    }
  }

  /** Trimming changes nothing exactly when there is nothing to trim. */
  lemma TrimFixedIffTrimmed(s: string)
    ensures Trim(s) == s <==> IsTrimmed(s)
  {
    if IsTrimmed(s) {
      TrimPadded("", s, "");
      assert "" + s + "" == s;
    }
  }

  /** Every string is its trimmed core between two blank pieces. */
  lemma TrimSplit(s: string) returns (a: string, b: string)
    ensures Blank(a) && Blank(b)
    ensures s == a + Trim(s) + b
  {
    var n := LeadingSpaces(s);
    var t := s[n..];
    var e := TrimmedEnd(t);
    assert Trim(s) == t[..e];
    a, b := s[..n], t[e..];
    assert t == t[..e] + b;
    assert s == a + t;
    Associate(a, t[..e], b);
  }

  lemma Regroup(p: string, a: string, x: string, b: string)
    ensures p + (a + x + b) == (p + a) + x + b
  {
  }

  lemma Associate(a: string, x: string, b: string)
    ensures a + (x + b) == a + x + b
  {
  }

  lemma BlankConcat(a: string, b: string)
    requires Blank(a) && Blank(b)
    ensures Blank(a + b)
  {
    forall k | 0 <= k < |a + b| ensures IsSpace((a + b)[k]) {
      if k < |a| { assert (a + b)[k] == a[k]; } else { assert (a + b)[k] == b[k - |a|]; }
    }
  }

  /** White space in front of a string does not change its trimmed form. */
  lemma TrimIgnoresBlankPrefix(pre: string, s: string)
    requires Blank(pre)
    ensures Trim(pre + s) == Trim(s)
  {
    var a, b := TrimSplit(s);
    var t := Trim(s);
    BlankConcat(pre, a);
    Regroup(pre, a, t, b);
    TrimPadded(pre + a, t, b);
  }

  /** Trimming a single-line string leaves a single-line string. */
  lemma TrimSingleLine(s: string)
    requires SingleLine(s)
    ensures SingleLine(Trim(s))
  {
    var a, b := TrimSplit(s);
    forall k | 0 <= k < |Trim(s)| ensures !IsLineTerminator(Trim(s)[k]) {
      assert Trim(s)[k] == s[|a| + k];
    }
  }

  /** `trim` is idempotent. */
  lemma TrimIdempotent(s: string)
    ensures Trim(Trim(s)) == Trim(s)
  {
    TrimFixedIffTrimmed(Trim(s));
  }

  /** ASCII lower-casing of one character. */
  function LowerChar(c: char): (r: char)
    ensures 'A' <= c <= 'Z' ==> r as int == c as int + 32
    ensures !('A' <= c <= 'Z') ==> r == c
  {
    if 'A' <= c <= 'Z' then (c as int + 32) as char else c
  }

  /** ASCII lower-casing of a string, character by character. */
  function Lower(s: string): (r: string)
    ensures |r| == |s|
    ensures forall k :: 0 <= k < |s| ==> r[k] == LowerChar(s[k])
  {
    seq(|s|, k requires 0 <= k < |s| => LowerChar(s[k]))
  }

  /** `pat`, a lower-case ASCII pattern, occurs at offset `i` of `text` when
      compared case-insensitively. */
  predicate MatchesAt(text: string, i: nat, pat: string) {
    i + |pat| <= |text| && forall k :: 0 <= k < |pat| ==> LowerChar(text[i + k]) == pat[k]
  }

  /** Leftmost case-insensitive occurrence of `pat` at or after `from`. */
  function FindFrom(text: string, pat: string, from: nat): (r: Option<nat>)
    ensures r.Some? ==> from <= r.value && MatchesAt(text, r.value, pat)
    ensures r.Some? ==> forall j :: from <= j < r.value ==> !MatchesAt(text, j, pat)
    ensures r.None? ==> forall j: nat :: from <= j ==> !MatchesAt(text, j, pat)
    decreases |text| - from
  {
    if from + |pat| > |text| then None
    else if MatchesAt(text, from, pat) then Some(from)
    else FindFrom(text, pat, from + 1)
  }

  /** Leftmost case-insensitive occurrence of `pat` in `text`. */
  function Find(text: string, pat: string): (r: Option<nat>)
    ensures r.Some? ==> MatchesAt(text, r.value, pat)
    ensures r.Some? ==> forall j :: 0 <= j < r.value ==> !MatchesAt(text, j, pat)
    ensures r.None? <==> forall j: nat :: !MatchesAt(text, j, pat)
  {
    FindFrom(text, pat, 0)
  }

  /** Index of the first character at or after `from` that `\s` does not
      match: where a greedy `\s*` stops. */
  function SkipSpaces(s: string, from: nat): (p: nat)
    requires from <= |s|
    ensures from <= p <= |s|
    ensures Blank(s[from..p])
    ensures p < |s| ==> !IsSpace(s[p])
  {
    var n := LeadingSpaces(s[from..]);
    assert s[from..from + n] == s[from..][..n];
    from + n
  }

  /** Index of the first line terminator at or after `from`, or `|s|`:
      where a greedy `.*` stops. */
  function LineEnd(s: string, from: nat): (e: nat)
    requires from <= |s|
    ensures from <= e <= |s|
    ensures forall k :: from <= k < e ==> !IsLineTerminator(s[k])
    ensures e < |s| ==> IsLineTerminator(s[e])
    decreases |s| - from
  {
    if from == |s| || IsLineTerminator(s[from]) then from else LineEnd(s, from + 1)
  }

  /** Index of the first `c` in `s`, if any. */
  function IndexOf(s: string, c: char): (r: Option<nat>)
    ensures r.Some? ==> r.value < |s| && s[r.value] == c && c !in s[..r.value]
    ensures r.None? <==> c !in s
  {
    if |s| == 0 then None
    else if s[0] == c then Some(0)
    else match IndexOf(s[1..], c)
      case None => None
      case Some(i) => assert s[1..][..i] == s[1..i + 1]; Some(i + 1)
  }

  /** No character of `s` is a line terminator. */
  predicate SingleLine(s: string) {
    forall k :: 0 <= k < |s| ==> !IsLineTerminator(s[k])
  }
}
