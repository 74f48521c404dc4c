/**
 * The string primitives the page scripts rely on: the ECMAScript white-space
 * set used by `String.prototype.trim` and the regular-expression class `\s`,
 * `toLowerCase` (restricted to ASCII and Latin-1), `trim`, `includes`,
 * `indexOf`, `Array.prototype.join` and `substring`.
 */
module Text {

  /** The WhiteSpace and LineTerminator code points of ECMAScript. */
  predicate IsSpace(c: char) {
    || c == ' ' || c == '\t' || c == '\n' || c == '\r'
    || c == '\U{000B}' || c == '\U{000C}' || c == '\U{00A0}' || c == '\U{1680}'
    || ('\U{2000}' <= c <= '\U{200A}')
    || c == '\U{2028}' || c == '\U{2029}' || c == '\U{202F}' || c == '\U{205F}'
    || c == '\U{3000}' || c == '\U{FEFF}'
  }

  /** Every character of `s` is white space (in particular, the empty string). */
  predicate Blank(s: string) {
    forall i :: 0 <= i < |s| ==> IsSpace(s[i])
  }

  /** Upper-case letters of ASCII and Latin-1 whose lower-case form is 32 code points further. */
  predicate IsUpper(c: char) {
    ('A' <= c <= 'Z') || ('\U{00C0}' <= c <= '\U{00DE}' && c != '\U{00D7}')
  }

  function LowerChar(c: char): char {
    if IsUpper(c) then (c as int + 32) as char else c
  }

  /**
   * `toLowerCase`, character by character: the result has the input's length,
   * no upper-case letter is left, and every other character stays where it was.
   */
  function ToLower(s: string): (r: string)
    ensures |r| == |s|
    ensures forall i :: 0 <= i < |r| ==> !IsUpper(r[i])
    ensures forall i :: 0 <= i < |s| && !IsUpper(s[i]) ==> r[i] == s[i]
  {
    seq(|s|, i requires 0 <= i < |s| => LowerChar(s[i]))
  }

  lemma LowerCharKeepsSpace(c: char)
    ensures IsSpace(LowerChar(c)) <==> IsSpace(c)
  {
  }

  /** Lower-casing twice is lower-casing once. */
  lemma ToLowerIdempotent(s: string)
    ensures ToLower(ToLower(s)) == ToLower(s)
  {
  }

  /** Lower-casing neither makes nor breaks a blank string. */
  lemma ToLowerBlank(s: string)
    ensures Blank(ToLower(s)) <==> Blank(s)
  {
    forall i | 0 <= i < |s| ensures IsSpace(ToLower(s)[i]) <==> IsSpace(s[i]) {
      LowerCharKeepsSpace(s[i]);
    }
  }

  /** Lower-casing distributes over concatenation. */
  lemma ToLowerAppend(a: string, b: string)
    ensures ToLower(a + b) == ToLower(a) + ToLower(b)
  {
  }

  // ----- trim -------------------------------------------------------------

  /** The number of white-space characters at the start of `s`. */
  function LeadingSpace(s: string): (n: nat)
    ensures n <= |s|
    ensures Blank(s[..n])
    ensures n < |s| ==> !IsSpace(s[n])
  {
    if |s| == 0 || !IsSpace(s[0]) then 0
    else
      var m := LeadingSpace(s[1..]);
      PrefixExtend(s, m);
      m + 1
  }

  lemma PrefixExtend(s: string, m: nat)
    requires 0 < |s| && IsSpace(s[0]) && m <= |s| - 1 && Blank(s[1..][..m])
    ensures Blank(s[..m + 1])
  {
    var t := s[..m + 1];
    forall i | 0 <= i < |t| ensures IsSpace(t[i]) {
      if i > 0 { assert t[i] == s[1..][..m][i - 1]; }
    }
  }

  /** The number of white-space characters at the end of `s`. */
  function TrailingSpace(s: string): (n: nat)
    ensures n <= |s|
    ensures Blank(s[|s| - n..])
    ensures n < |s| ==> !IsSpace(s[|s| - n - 1])
  {
    if |s| == 0 || !IsSpace(s[|s| - 1]) then 0
    else
      var m := TrailingSpace(s[..|s| - 1]);
      SuffixExtend(s, m);
      m + 1
  }

  lemma SuffixExtend(s: string, m: nat)
    requires 0 < |s| && IsSpace(s[|s| - 1]) && m <= |s| - 1
    requires Blank(s[..|s| - 1][|s| - 1 - m..])
    requires m < |s| - 1 ==> !IsSpace(s[..|s| - 1][|s| - 1 - m - 1])
    ensures Blank(s[|s| - (m + 1)..])
    ensures m + 1 < |s| ==> !IsSpace(s[|s| - (m + 1) - 1])
  {
    var t := s[|s| - (m + 1)..];
    forall i | 0 <= i < m ensures IsSpace(t[i]) {
      assert t[i] == s[..|s| - 1][|s| - 1 - m..][i];
    }
    assert t[m] == s[|s| - 1];
  }

  /** `r` is the infix of `s` at index `a`, and everything before and after it is white space. */
  ghost predicate TrimmedAt(s: string, r: string, a: int) {
    0 <= a <= |s| - |r| && r == s[a..a + |r|] && Blank(s[..a]) && Blank(s[a + |r|..])
  }

  /**
   * `trim`: the infix of `s` left after removing the longest white-space
   * prefix and suffix.
   */
  function Trim(s: string): (r: string)
    ensures Blank(s) <==> r == []
    ensures r != [] ==> !IsSpace(r[0]) && !IsSpace(r[|r| - 1])
    ensures exists a :: TrimmedAt(s, r, a)
  {
    var a := LeadingSpace(s);
    var rest := s[a..];
    var b := |rest| - TrailingSpace(rest);
    var r := rest[..b];
    TrimShape(s, a, rest, b, r);
    r
  }

  lemma TrimShape(s: string, a: nat, rest: string, b: nat, r: string)
    requires a == LeadingSpace(s) && rest == s[a..]
    requires b == |rest| - TrailingSpace(rest) && r == rest[..b]
    ensures Blank(s) <==> r == []
    ensures r != [] ==> !IsSpace(r[0]) && !IsSpace(r[|r| - 1])
    ensures exists a :: TrimmedAt(s, r, a)
  {
    TrimInfix(s, a, rest, b, r);
    if r == [] {
      TrimBlank(s, a, rest);
    } else {
      TrimNotBlank(s, a, rest, b, r);
      TrimEnds(s, a, rest, b, r);
    }
  }

  lemma TrimNotBlank(s: string, a: nat, rest: string, b: nat, r: string)
    requires a == LeadingSpace(s) && rest == s[a..]
    requires b == |rest| - TrailingSpace(rest) && r == rest[..b] && r != []
    ensures !Blank(s)
  {
    assert !IsSpace(s[a]);
  }

  lemma TrimEnds(s: string, a: nat, rest: string, b: nat, r: string)
    requires a == LeadingSpace(s) && rest == s[a..]
    requires b == |rest| - TrailingSpace(rest) && r == rest[..b] && r != []
    ensures !IsSpace(r[0]) && !IsSpace(r[|r| - 1])
  {
    assert r[0] == s[a];
    assert r[|r| - 1] == rest[|rest| - TrailingSpace(rest) - 1];
  }

  lemma TrimInfix(s: string, a: nat, rest: string, b: nat, r: string)
    requires a == LeadingSpace(s) && rest == s[a..]
    requires b == |rest| - TrailingSpace(rest) && r == rest[..b]
    ensures exists a :: TrimmedAt(s, r, a)
  {
    assert s[a + |r|..] == rest[b..];
    assert r == s[a..a + |r|];
    assert TrimmedAt(s, r, a);
  }

  lemma TrimBlank(s: string, a: nat, rest: string)
    requires a == LeadingSpace(s) && rest == s[a..] && TrailingSpace(rest) == |rest|
    ensures Blank(s)
  {
    assert rest[|rest| - TrailingSpace(rest)..] == rest;
    BlankAppend(s[..a], rest);
    assert s[..a] + rest == s;
  }

  lemma BlankAppend(x: string, y: string)
    requires Blank(x) && Blank(y)
    ensures Blank(x + y)
  {
    forall i | 0 <= i < |x + y| ensures IsSpace((x + y)[i]) {
      if i >= |x| { assert (x + y)[i] == y[i - |x|]; }
    }
  }

  /** `a` and `b` have white space at the same positions. */
  predicate SameSpaces(a: string, b: string) {
    |a| == |b| && forall i :: 0 <= i < |a| ==> (IsSpace(a[i]) <==> IsSpace(b[i]))
  }

  lemma LowerSameSpaces(s: string)
    ensures SameSpaces(ToLower(s), s)
  {
    forall i | 0 <= i < |s| ensures IsSpace(ToLower(s)[i]) <==> IsSpace(s[i]) {
      LowerCharKeepsSpace(s[i]);
    }
  }

  lemma {:induction false} LeadingSame(a: string, b: string)
    requires SameSpaces(a, b)
    ensures LeadingSpace(a) == LeadingSpace(b)
    decreases |a|
  {
    if |a| > 0 && IsSpace(a[0]) {
      var a', b' := a[1..], b[1..];
      assert forall i :: 0 <= i < |a'| ==> a'[i] == a[i + 1] && b'[i] == b[i + 1];
      LeadingSame(a', b');
    }
  }

  lemma {:induction false} TrailingSame(a: string, b: string)
    requires SameSpaces(a, b)
    ensures TrailingSpace(a) == TrailingSpace(b)
    decreases |a|
  {
    if |a| > 0 && IsSpace(a[|a| - 1]) {
      var a', b' := a[..|a| - 1], b[..|b| - 1];
      assert forall i :: 0 <= i < |a'| ==> a'[i] == a[i] && b'[i] == b[i];
      TrailingSame(a', b');
    }
  }

  /** Lower-casing never turns a character into white space or back, so the order of `toLowerCase` and `trim` is immaterial. */
  lemma TrimToLowerCommute(s: string)
    ensures Trim(ToLower(s)) == ToLower(Trim(s))
  {
    var l := ToLower(s);
    LowerSameSpaces(s);
    LeadingSame(l, s);
    var a := LeadingSpace(s);
    var rest, lrest := s[a..], l[a..];
    LowerSlice(s, a);
    LowerSameSpaces(rest);
    TrailingSame(lrest, rest);
    var b := |rest| - TrailingSpace(rest);
    TrimUnfold(l, a, b);
    TrimUnfold(s, a, b);
    LowerPrefix(rest, b);
  }

  lemma TrimUnfold(s: string, a: nat, b: nat)
    requires a == LeadingSpace(s) && b == |s[a..]| - TrailingSpace(s[a..])
    ensures Trim(s) == s[a..][..b]
  {
  }

  lemma LowerSlice(s: string, a: nat)
    requires a <= |s|
    ensures ToLower(s)[a..] == ToLower(s[a..])
  {
  }

  lemma LowerPrefix(s: string, b: nat)
    requires b <= |s|
    ensures ToLower(s)[..b] == ToLower(s[..b])
  {
  }

  // ----- includes / indexOf -------------------------------------------------

  /** `needle` occurs in `hay` starting at index `i`. */
  ghost predicate OccursAt(hay: string, needle: string, i: int) {
    0 <= i <= |hay| - |needle| && hay[i..i + |needle|] == needle
  }

  /** `needle` is a substring of `hay`: the meaning of `hay.includes(needle)`. */
  ghost predicate IsInfix(needle: string, hay: string) {
    exists i :: OccursAt(hay, needle, i)
  }

  /** A substring of a substring is a substring. */
  lemma InfixTransitive(term: string, mid: string, hay: string)
    requires IsInfix(term, mid) && IsInfix(mid, hay)
    ensures IsInfix(term, hay)
  {
    var i :| OccursAt(hay, mid, i);
    var m :| OccursAt(mid, term, m);
    var t := hay[i + m..i + m + |term|];
    forall j | 0 <= j < |term| ensures t[j] == term[j] {
      assert t[j] == hay[i..i + |mid|][m + j];
      assert term[j] == mid[m..m + |term|][j];
    }
    assert OccursAt(hay, term, i + m);
  }

  /** `hay.includes(needle)`, decided by trying every start position in turn. */
  function Includes(hay: string, needle: string): (b: bool)
    ensures b <==> IsInfix(needle, hay)
    decreases |hay|
  {
    if |needle| > |hay| then false
    else if hay[..|needle|] == needle then
      assert OccursAt(hay, needle, 0);
      true
    else
      var b := Includes(hay[1..], needle);
      assert forall i :: OccursAt(hay[1..], needle, i) ==> OccursAt(hay, needle, i + 1);
      assert forall i :: OccursAt(hay, needle, i) ==> i == 0 || OccursAt(hay[1..], needle, i - 1);
      b
  }

  /** The first index at or after `from` where `needle` occurs in `hay`, or -1. */
  function IndexOfFrom(hay: string, needle: string, from: nat): (r: int)
    requires from <= |hay|
    ensures r == -1 || (from <= r && OccursAt(hay, needle, r))
    ensures forall i :: from <= i && (r == -1 || i < r) ==> !OccursAt(hay, needle, i)
    decreases |hay| - from
  {
    if |needle| > |hay| - from then -1
    else if hay[from..from + |needle|] == needle then from
    else IndexOfFrom(hay, needle, from + 1)
  }

  /** `hay.indexOf(needle)`: the first occurrence, or -1 when there is none. */
  function IndexOf(hay: string, needle: string): (r: int)
    ensures r == -1 <==> !IsInfix(needle, hay)
    ensures r != -1 ==> OccursAt(hay, needle, r) && forall i :: 0 <= i < r ==> !OccursAt(hay, needle, i)
  {
    IndexOfFrom(hay, needle, 0)
  }

  // ----- join / substring ---------------------------------------------------

  /**
   * `parts.join(sep)`: the joined text starts with the first part, ends with
   * the last, and holds the separator once there are two parts to separate.
   */
  function Join(parts: seq<string>, sep: string): (r: string)
    ensures |parts| > 0 ==> |parts[0]| <= |r| && r[..|parts[0]|] == parts[0]
    ensures |parts| > 0 ==> |parts[|parts| - 1]| <= |r| && r[|r| - |parts[|parts| - 1]|..] == parts[|parts| - 1]
    ensures |parts| >= 2 ==> OccursAt(r, sep, |parts[0]|)
    decreases |parts|
  {
    if |parts| == 0 then ""
    else if |parts| == 1 then parts[0]
    else
      var rest := Join(parts[1..], sep);
      var r := parts[0] + sep + rest;
      assert r[|r| - |rest|..] == rest;
      assert r[..|parts[0]|] == parts[0];
      assert r[|parts[0]|..|parts[0]| + |sep|] == sep;
      r
  }

  /** Every part of a join is a substring of the joined text. */
  lemma {:induction false} JoinContainsParts(parts: seq<string>, sep: string, k: nat)
    requires k < |parts|
    ensures IsInfix(parts[k], Join(parts, sep))
    decreases |parts|
  {
    var j := Join(parts, sep);
    if k == 0 {
      assert OccursAt(j, parts[k], 0);
    } else if |parts| > 1 {
      JoinContainsParts(parts[1..], sep, k - 1);
      var i :| OccursAt(Join(parts[1..], sep), parts[k], i);
      assert j == (parts[0] + sep) + Join(parts[1..], sep);
      OccursShift(parts[0] + sep, Join(parts[1..], sep), parts[k], i);
    }
  }

  /** An occurrence in `rest` is an occurrence in `pre + rest`, shifted by the length of `pre`. */
  lemma OccursShift(pre: string, rest: string, needle: string, i: int)
    requires OccursAt(rest, needle, i)
    ensures OccursAt(pre + rest, needle, |pre| + i)
  {
    assert (pre + rest)[|pre| + i..|pre| + i + |needle|] == rest[i..i + |needle|];
  }

  /** Each of `parts`, lower-cased. */
  function LowerAll(parts: seq<string>): seq<string> {
    seq(|parts|, k requires 0 <= k < |parts| => ToLower(parts[k]))
  }

  /** Lower-casing the parts and then joining them with a separator that has no upper-case letters is lower-casing the join. */
  lemma {:induction false} JoinToLower(parts: seq<string>, sep: string)
    requires ToLower(sep) == sep
    ensures Join(LowerAll(parts), sep) == ToLower(Join(parts, sep))
    decreases |parts|
  {
    var lowered := LowerAll(parts);
    if |parts| > 1 {
      assert lowered[1..] == LowerAll(parts[1..]);
      JoinToLower(parts[1..], sep);
      ToLowerAppend(parts[0] + sep, Join(parts[1..], sep));
      ToLowerAppend(parts[0], sep);
    }
  }

  function Clamp(n: int, len: nat): (r: nat)
    ensures r <= len
  {
    if n < 0 then 0 else if n > len then len else n
  }

  /**
   * `s.substring(start, end)`: both bounds are clamped to the string, then
   * ordered. The result is always a substring of `s`, and it is the slice
   * `s[start..end]` when the bounds are in order and in range.
   */
  function Substring(s: string, start: int, end: int): (r: string)
    ensures IsInfix(r, s)
    ensures 0 <= start <= end <= |s| ==> r == s[start..end]
  {
    var a := Clamp(start, |s|);
    var b := Clamp(end, |s|);
    if a <= b then
      assert OccursAt(s, s[a..b], a);
      s[a..b]
    else
      assert OccursAt(s, s[b..a], b);
      s[b..a]
  }

  /** The order of the two bounds does not matter. */
  lemma SubstringSwap(s: string, start: int, end: int)
    ensures Substring(s, start, end) == Substring(s, end, start)
  {
  }
}
