/** The three JavaScript string operations the to-do store relies on:
    `String.prototype.trim`, `String.prototype.toLowerCase` and
    `String.prototype.includes`. A JavaScript string is modelled as a
    `seq<char>`. */
module Strings {

  /** The characters `trim` removes: ECMAScript's WhiteSpace (tab, vertical
      tab, form feed, space, no-break space, byte order mark and the other
      space separators of category Zs) and LineTerminator (LF, CR, LS, PS). */
  predicate IsWhiteSpace(c: char) {
    || c == '\t' || c == '\n' || c == '\U{000B}' || c == '\U{000C}' || c == '\r'
    || c == ' ' || c == '\U{00A0}' || c == '\U{1680}'
    || ('\U{2000}' <= c <= '\U{200A}')
    || c == '\U{2028}' || c == '\U{2029}' || c == '\U{202F}' || c == '\U{205F}'
    || c == '\U{3000}' || c == '\U{FEFF}'
  }

  /** Every character of `s` is white space (true of the empty string). */
  predicate Blank(s: string) {
    forall i :: 0 <= i < |s| ==> IsWhiteSpace(s[i])
  }

  /** Number of white-space characters at the start of `s`. */
  function LeadingBlanks(s: string): (n: nat)
    ensures n <= |s| && Blank(s[..n])
    ensures n < |s| ==> !IsWhiteSpace(s[n])
  {
    if |s| > 0 && IsWhiteSpace(s[0]) then
      var m := LeadingBlanks(s[1..]);
      assert s[1..][..m] == s[1..m + 1];
      1 + m
    else 0
  }

  /** Number of white-space characters at the end of `s`. */
  function TrailingBlanks(s: string): (n: nat)
    ensures n <= |s| && Blank(s[|s| - n..])
    ensures n < |s| ==> !IsWhiteSpace(s[|s| - 1 - n])
  {
    if |s| > 0 && IsWhiteSpace(s[|s| - 1]) then
      var m := TrailingBlanks(s[..|s| - 1]);
      assert s[..|s| - 1][|s| - 1 - m..] == s[|s| - 1 - m..|s| - 1];
      1 + m
    else 0
  }

  /** `s.trim()`: `s` without its leading and trailing white space. */
  function Trim(s: string): (r: string)
    ensures r == [] <==> Blank(s)
    ensures Trimmed(r)
  {
    var a := LeadingBlanks(s);
    if a == |s| then
      assert s[..a] == s;
      []
    else
      var b := TrailingBlanks(s);
      TrimSlice(s, a, b);
      s[a..|s| - b]
  }

  /** What `trim` returns is a slice of its input with only white space
      before and after it. */
  lemma TrimIsSlice(s: string)
    ensures exists k :: TrimmedAt(s, k, Trim(s))
  {
    var a := LeadingBlanks(s);
    if a == |s| {
      assert s[..a] == s;
      assert TrimmedAt(s, a, Trim(s));
    } else {
      TrimSlice(s, a, TrailingBlanks(s));
      assert TrimmedAt(s, a, Trim(s));
    }
  }

  /** `s` neither starts nor ends with white space. */
  predicate Trimmed(s: string) {
    s != [] ==> !IsWhiteSpace(s[0]) && !IsWhiteSpace(s[|s| - 1])
  }

  /** `r` is the slice of `s` that starts at `k`, and what `s` holds before
      and after that slice is white space. */
  predicate TrimmedAt(s: string, k: nat, r: string) {
    k + |r| <= |s| && r == s[k..k + |r|] && Blank(s[..k]) && Blank(s[k + |r|..])
  }

  /** When `s` is not all white space, its leading and trailing white space
      do not overlap, and what lies between them is a non-empty slice that
      neither starts nor ends with white space. */
  lemma TrimSlice(s: string, a: nat, b: nat)
    requires a < |s| && b <= |s|
    requires Blank(s[..a]) && !IsWhiteSpace(s[a])
    requires Blank(s[|s| - b..]) && (b < |s| ==> !IsWhiteSpace(s[|s| - 1 - b]))
    ensures a + b < |s| && !Blank(s)
    ensures !IsWhiteSpace(s[a]) && !IsWhiteSpace(s[|s| - b - 1])
    ensures TrimmedAt(s, a, s[a..|s| - b])
  {
    var r := s[a..|s| - b];
    assert s[a + |r|..] == s[|s| - b..];
  }

  /** `LeadingBlanks` is determined by its contract. */
  lemma {:induction false} LeadingBlanksUnique(s: string, n: nat)
    requires n <= |s| && Blank(s[..n])
    requires n < |s| ==> !IsWhiteSpace(s[n])
    ensures LeadingBlanks(s) == n
  {
    if n > 0 {
      assert s[..n][0] == s[0];
      assert s[1..][..n - 1] == s[1..n];
      LeadingBlanksUnique(s[1..], n - 1);
    }
  }

  /** `TrailingBlanks` is determined by its contract. */
  lemma {:induction false} TrailingBlanksUnique(s: string, n: nat)
    requires n <= |s| && Blank(s[|s| - n..])
    requires n < |s| ==> !IsWhiteSpace(s[|s| - 1 - n])
    ensures TrailingBlanks(s) == n
  {
    if n > 0 {
      assert s[|s| - n..][n - 1] == s[|s| - 1];
      var init := s[..|s| - 1];
      var tail := init[|init| - (n - 1)..];
      forall i | 0 <= i < |tail| ensures IsWhiteSpace(tail[i]) {
        assert tail[i] == s[|s| - n..][i];
      }
      if n - 1 < |init| {
        assert init[|init| - 1 - (n - 1)] == s[|s| - 1 - n];
      }
      TrailingBlanksUnique(init, n - 1);
    }
  }

  /** Surrounding a string that neither starts nor ends with white space by
      white space and trimming gives it back: "  Buy milk  " trims to
      "Buy milk". */
  lemma TrimPadded(pre: string, s: string, post: string)
    requires Blank(pre) && Blank(post)
    requires s != [] && !IsWhiteSpace(s[0]) && !IsWhiteSpace(s[|s| - 1])
    ensures Trim(pre + s + post) == s
  {
    var t := pre + s + post;
    assert t[..|pre|] == pre;
    assert t[|pre|] == s[0];
    LeadingBlanksUnique(t, |pre|);
    assert t[|t| - |post|..] == post;
    assert t[|t| - 1 - |post|] == s[|s| - 1];
    TrailingBlanksUnique(t, |post|);
    assert t[|pre|..|t| - |post|] == s;
  }

  /** A string that neither starts nor ends with white space is its own trim. */
  lemma TrimOfTrimmed(s: string)
    requires Trimmed(s)
    ensures Trim(s) == s
  {
    LeadingBlanksUnique(s, 0);
    assert s[0..] == s;
    TrailingBlanksUnique(s, 0);
  }

  /** The strings `trim` leaves alone are exactly the trimmed ones. */
  lemma TrimmedIff(s: string)
    ensures Trimmed(s) <==> Trim(s) == s
  {
    if Trimmed(s) { TrimOfTrimmed(s); }
  }

  /** Trimming twice is trimming once. */
  lemma TrimIdempotent(s: string)
    ensures Trim(Trim(s)) == Trim(s)
  {
    TrimOfTrimmed(Trim(s));
  }

  /** Extra white space around an input does not change its trim. */
  lemma TrimPaddedAny(pre: string, s: string, post: string)
    requires Blank(pre) && Blank(post)
    ensures Trim(pre + s + post) == Trim(s)
  {
    if Blank(s) {
      BlankConcat(pre, s);
      BlankConcat(pre + s, post);
      return;
    }
    var r := Trim(s);
    TrimIsSlice(s);
    var k: nat :| TrimmedAt(s, k, r);
    var before, after := s[..k], s[k + |r|..];
    Regroup(pre, s, post, before, r, after);
    BlankConcat(pre, before);
    BlankConcat(after, post);
    TrimPadded(pre + before, r, after + post);
  }

  /** `s`, cut into `before`, `mid` and `after`, with text around it. */
  lemma Regroup(pre: string, s: string, post: string, before: string, mid: string, after: string)
    requires |before| + |mid| <= |s| && before == s[..|before|] && mid == s[|before|..|before| + |mid|]
    requires after == s[|before| + |mid|..]
    ensures pre + s + post == (pre + before) + mid + (after + post)
  {
    assert s == before + mid + after;
  }

  lemma BlankConcat(a: string, b: string)
    requires Blank(a) && Blank(b)
    ensures Blank(a + b)
  {
    forall i | 0 <= i < |a + b| ensures IsWhiteSpace((a + b)[i]) {
      if i >= |a| { assert (a + b)[i] == b[i - |a|]; }
    }
  }

  /** The character `toLowerCase` maps `c` to, for ASCII letters; every
      other character is left as it is. */
  function LowerChar(c: char): (d: char)
    ensures 'A' <= c <= 'Z' ==> d as int == c as int + 32
    ensures !('A' <= c <= 'Z') ==> d == c
  {
    if 'A' <= c <= 'Z' then (c as int + 32) as char else c
  }

  /** `s.toLowerCase()`, character by character. */
  function ToLower(s: string): (r: string)
    ensures |r| == |s|
    ensures forall i :: 0 <= i < |s| ==> r[i] == LowerChar(s[i])
  {
    if s == [] then [] else [LowerChar(s[0])] + ToLower(s[1..])
  }

  /** Lower-casing a lower-cased string changes nothing. */
  lemma ToLowerIdempotent(s: string)
    ensures ToLower(ToLower(s)) == ToLower(s)
  {
    var r := ToLower(s);
    assert forall i :: 0 <= i < |r| ==> ToLower(r)[i] == LowerChar(LowerChar(s[i])) == r[i];
  }

  /** `s.includes(t)`: `t` occurs in `s` at some position. */
  predicate Includes(s: string, t: string)
    ensures Includes(s, t) ==> |t| <= |s|
    decreases |s|
  {
    t <= s || (|s| > 0 && Includes(s[1..], t))
  }

  /** `Includes` is exactly "there is a position `k` where `t` starts in `s`",
      in both directions. */
  lemma {:induction false} IncludesIff(s: string, t: string)
    ensures Includes(s, t) <==> exists k :: 0 <= k <= |s| && t <= s[k..]
    decreases |s|
  {
    if t <= s {
      assert s[0..] == s;
    } else if |s| > 0 {
      IncludesIff(s[1..], t);
      if Includes(s[1..], t) {
        var k :| 0 <= k <= |s| - 1 && t <= s[1..][k..];
        assert s[1..][k..] == s[k + 1..];
      }
      if exists k :: 0 <= k <= |s| && t <= s[k..] {
        var k :| 0 <= k <= |s| && t <= s[k..];
        assert s[0..] == s;
        assert k > 0;
        assert s[1..][k - 1..] == s[k..];
      }
    } else {
      forall k | 0 <= k <= |s| ensures !(t <= s[k..]) {
        assert s[k..] == s;
      }
    }
  }

  /** Every string includes the empty string. */
  lemma IncludesEmpty(s: string)
    ensures Includes(s, [])
  {
  }
}
