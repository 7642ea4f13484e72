/**
 * The handful of string operations the workflow tool uses from its host
 * language: whitespace stripping, prefix tests, splitting and joining on a
 * separator, removing every occurrence of a word, and code-point ordering.
 * Strings are sequences of code points.
 */
module Text {

  /** The characters for which a string's whitespace test holds (the ASCII
      separators and the Unicode spaces). */
  predicate IsSpace(c: char) {
    if c <= ' ' then c == ' ' || '\t' <= c <= '\r' || '\U{001C}' <= c <= '\U{001F}'
    else if c < '\U{0085}' then false
    else
      || c == '\U{0085}' || c == '\U{00A0}' || c == '\U{1680}' || ('\U{2000}' <= c <= '\U{200A}')
      || c == '\U{2028}' || c == '\U{2029}' || c == '\U{202F}' || c == '\U{205F}' || c == '\U{3000}'
  }

  predicate AllSpace(s: string) {
    forall i :: 0 <= i < |s| ==> IsSpace(s[i])
  }

  /** A string that neither starts nor ends with whitespace. */
  predicate Stripped(s: string) {
    |s| == 0 || (!IsSpace(s[0]) && !IsSpace(s[|s| - 1]))
  }

  /** The length of the whitespace run that starts s. */
  function LeadingSpace(s: string): (k: nat)
    ensures k <= |s| && AllSpace(s[..k])
    ensures k == |s| || !IsSpace(s[k])
  {
    if |s| > 0 && IsSpace(s[0]) then
      var k := LeadingSpace(s[1..]);
      assert s[..k + 1] == [s[0]] + s[1..][..k];
      k + 1
    else 0
  }

  /** Where the whitespace run that ends s begins. */
  function TrailingSpace(s: string): (j: nat)
    ensures j <= |s| && AllSpace(s[j..])
    ensures j == 0 || !IsSpace(s[j - 1])
  {
    if |s| > 0 && IsSpace(s[|s| - 1]) then
      var j := TrailingSpace(s[..|s| - 1]);
      assert s[j..] == s[..|s| - 1][j..] + [s[|s| - 1]];
      j
    else |s|
  }

  function StripLeft(s: string): string {
    s[LeadingSpace(s)..]
  }

  function StripRight(s: string): string {
    s[..TrailingSpace(s)]
  }

  /** Removes leading and trailing whitespace. */
  function Strip(s: string): (r: string)
    ensures Stripped(r) && |r| <= |s|
  {
    var l := s[LeadingSpace(s)..];
    var k := TrailingSpace(l);
    assert k > 0 ==> l[0] == s[LeadingSpace(s)];
    l[..k]
  }

  /** What Strip removes is a whitespace-only prefix and suffix. */
  lemma StripCutsSpace(s: string)
    ensures exists i, j :: 0 <= i <= j <= |s| && AllSpace(s[..i]) && AllSpace(s[j..]) && Strip(s) == s[i..j]
  {
    var i := LeadingSpace(s);
    var l := s[i..];
    var k := TrailingSpace(l);
    assert l[k..] == s[i + k..] && l[..k] == s[i..i + k];
  }

  lemma {:induction false} StripLeftPadded(p: string, x: string)
    requires AllSpace(p)
    requires |x| == 0 || !IsSpace(x[0])
    ensures StripLeft(p + x) == x
  {
    if |p| > 0 {
      assert (p + x)[1..] == p[1..] + x;
      StripLeftPadded(p[1..], x);
    } else {
      assert p + x == x;
    }
  }

  lemma {:induction false} StripRightPadded(x: string, q: string)
    requires AllSpace(q)
    requires |x| == 0 || !IsSpace(x[|x| - 1])
    ensures StripRight(x + q) == x
  {
    if |q| > 0 {
      assert (x + q)[..|x + q| - 1] == x + q[..|q| - 1];
      StripRightPadded(x, q[..|q| - 1]);
    } else {
      assert x + q == x;
    }
  }

  /** Stripping a stripped string padded with whitespace on both sides gives
      the string back. */
  lemma StripPadded(p: string, x: string, q: string)
    requires AllSpace(p) && AllSpace(q) && Stripped(x)
    ensures Strip(p + x + q) == x
  {
    if |x| == 0 {
      assert p + x + q == p + q;
      StripLeftPadded(p + q, "");
      assert p + q + "" == p + q;
    } else {
      assert p + x + q == p + (x + q);
      StripLeftPadded(p, x + q);
      StripRightPadded(x, q);
    }
  }

  lemma {:induction false} LeadingSpaceAfterSpace(p: string, y: string)
    requires AllSpace(p)
    ensures LeadingSpace(p + y) == |p| + LeadingSpace(y)
    decreases |p|
  {
    if |p| > 0 {
      assert (p + y)[1..] == p[1..] + y;
      LeadingSpaceAfterSpace(p[1..], y);
    } else {
      assert p + y == y;
    }
  }

  /** Whitespace in front of a string makes no difference to its strip. */
  lemma StripSpacePrefix(p: string, y: string)
    requires AllSpace(p)
    ensures Strip(p + y) == Strip(y)
  {
    LeadingSpaceAfterSpace(p, y);
    assert (p + y)[|p| + LeadingSpace(y)..] == y[LeadingSpace(y)..];
  }

  /** A stripped string is its own strip, also with one space in front. */
  lemma StripTrimmed(x: string)
    requires Stripped(x)
    ensures Strip(x) == x && Strip(" " + x) == x
  {
    StripPadded(" ", x, "");
    assert " " + x + "" == " " + x;
    StripPadded("", x, "");
    assert "" + x + "" == x;
  }

  /** A stripped string with one space behind strips back to itself. */
  lemma StripTrimmedBefore(x: string)
    requires Stripped(x)
    ensures Strip(x + " ") == x && Strip(" " + x) == x
  {
    StripPadded("", x, " ");
    assert "" + x + " " == x + " ";
    StripTrimmed(x);
  }

  predicate StartsWith(s: string, prefix: string) {
    |prefix| <= |s| && s[..|prefix|] == prefix
  }

  /** The separator-joined concatenation of parts. */
  function Join(parts: seq<string>, sep: string): string {
    if |parts| == 0 then ""
    else if |parts| == 1 then parts[0]
    else parts[0] + sep + Join(parts[1..], sep)
  }

  /** Splits at every occurrence of sep; there is always at least one part,
      no part holds the separator, and joining the parts gives the input
      back. */
  function Split(s: string, sep: char): (parts: seq<string>)
    ensures |parts| >= 1
    ensures sep in s ==> |parts| >= 2
    ensures forall i :: 0 <= i < |parts| ==> sep !in parts[i]
    ensures Join(parts, [sep]) == s
    decreases |s|
  {
    if |s| == 0 then [""]
    else
      var rest := Split(s[1..], sep);
      if s[0] == sep then
        assert s == [sep] + s[1..];
        [""] + rest
      else
        var parts := [[s[0]] + rest[0]] + rest[1..];
        assert parts[1..] == rest[1..];
        assert s == [s[0]] + s[1..];
        parts
  }

  lemma {:induction false} SplitFirst(a: string, sep: char, b: string)
    requires sep !in a
    ensures Split(a + [sep] + b, sep) == [a] + Split(b, sep)
    decreases |a|
  {
    var s := a + [sep] + b;
    if |a| == 0 {
      assert s[1..] == b;
    } else {
      assert s[1..] == a[1..] + [sep] + b;
      SplitFirst(a[1..], sep, b);
      assert [a[0]] + a[1..] == a;
    }
  }

  lemma SplitAround(a: string, sep: char, b: string)
    requires sep !in a
    ensures Split(a + ([sep] + b), sep) == [a] + Split(b, sep)
  {
    assert a + ([sep] + b) == a + [sep] + b;
    SplitFirst(a, sep, b);
  }

  lemma {:induction false} SplitNoSeparator(s: string, sep: char)
    requires sep !in s
    ensures Split(s, sep) == [s]
    decreases |s|
  {
    if |s| > 0 {
      SplitNoSeparator(s[1..], sep);
      assert [s[0]] + s[1..] == s;
    }
  }

  /** Splitting what was joined gives the parts back, when no part holds the
      separator. */
  lemma {:induction false} SplitJoin(parts: seq<string>, sep: char)
    requires |parts| >= 1
    requires forall i :: 0 <= i < |parts| ==> sep !in parts[i]
    ensures Split(Join(parts, [sep]), sep) == parts
  {
    if |parts| == 1 {
      SplitNoSeparator(parts[0], sep);
    } else {
      SplitJoin(parts[1..], sep);
      SplitFirst(parts[0], sep, Join(parts[1..], [sep]));
      assert [parts[0]] + parts[1..] == parts;
    }
  }

  /** Whether pat occurs somewhere in s. */
  predicate Occurs(pat: string, s: string)
    decreases |s|
  {
    StartsWith(s, pat) || (|s| > 0 && Occurs(pat, s[1..]))
  }

  /** Deletes every non-overlapping occurrence of pat, scanning left to
      right (a string replace with the empty string). */
  function RemoveAll(s: string, pat: string): (r: string)
    requires |pat| > 0
    ensures |r| <= |s|
    decreases |s|
  {
    if |s| == 0 then s
    else if StartsWith(s, pat) then RemoveAll(s[|pat|..], pat)
    else [s[0]] + RemoveAll(s[1..], pat)
  }

  /** Removing a word that does not occur changes nothing. */
  lemma {:induction false} RemoveAbsent(s: string, pat: string)
    requires |pat| > 0 && !Occurs(pat, s)
    ensures RemoveAll(s, pat) == s
    decreases |s|
  {
    if |s| > 0 {
      RemoveAbsent(s[1..], pat);
      assert [s[0]] + s[1..] == s;
    }
  }

  /** Deleting removes whole copies of the word: the text shrinks by a
      multiple of the word's length, and by at least one copy when the word
      occurs. */
  lemma {:induction false} RemoveAllShrinks(s: string, pat: string)
    requires |pat| > 0
    ensures exists n: nat :: |s| - |RemoveAll(s, pat)| == n * |pat|
    ensures Occurs(pat, s) ==> |RemoveAll(s, pat)| <= |s| - |pat|
    decreases |s|
  {
    if |s| == 0 {
      assert |s| - |RemoveAll(s, pat)| == 0 * |pat|;
    } else if StartsWith(s, pat) {
      var rest := s[|pat|..];
      RemoveAllShrinks(rest, pat);
      var n: nat :| |rest| - |RemoveAll(rest, pat)| == n * |pat|;
      assert |s| - |RemoveAll(s, pat)| == (n + 1) * |pat|;
    } else {
      RemoveAllShrinks(s[1..], pat);
      var n: nat :| |s[1..]| - |RemoveAll(s[1..], pat)| == n * |pat|;
      assert |s| - |RemoveAll(s, pat)| == n * |pat|;
    }
  }

  /** Deleting a word changes the text exactly when the word occurs. */
  lemma RemoveAllUnchanged(s: string, pat: string)
    requires |pat| > 0
    ensures RemoveAll(s, pat) == s <==> !Occurs(pat, s)
  {
    RemoveAllShrinks(s, pat);
    if !Occurs(pat, s) {
      RemoveAbsent(s, pat);
    }
  }

  /** Replaces every occurrence of the character from by the character to. */
  function ReplaceChar(s: string, from: char, to: char): (r: string)
    ensures |r| == |s|
    ensures forall i :: 0 <= i < |s| ==> r[i] == if s[i] == from then to else s[i]
  {
    seq(|s|, i requires 0 <= i < |s| => if s[i] == from then to else s[i])
  }

  /** Removes the character c from both ends, as often as it occurs there. */
  function StripChar(s: string, c: char): (r: string)
    ensures |r| == 0 || (r[0] != c && r[|r| - 1] != c)
    decreases |s|
  {
    if |s| > 0 && s[0] == c then StripChar(s[1..], c)
    else if |s| > 0 && s[|s| - 1] == c then StripChar(s[..|s| - 1], c)
    else s
  }

  /** The input cut into three pieces: a run of c, the middle, a run of c. */
  predicate CutAround(s: string, c: char, i: int, j: int) {
    && 0 <= i <= j <= |s|
    && (forall k :: 0 <= k < i ==> s[k] == c)
    && (forall k :: j <= k < |s| ==> s[k] == c)
  }

  /** What StripChar leaves is the input with a run of c cut from the front
      and a run of c cut from the back; with StripChar's own ensures, the
      runs cut are the longest ones. */
  lemma {:induction false} StripCharSlice(s: string, c: char)
    ensures exists i, j :: CutAround(s, c, i, j) && StripChar(s, c) == s[i..j]
    decreases |s|
  {
    if |s| > 0 && s[0] == c {
      var tail := s[1..];
      StripCharSlice(tail, c);
      var i, j :| CutAround(tail, c, i, j) && StripChar(tail, c) == tail[i..j];
      assert tail[i..j] == s[i + 1..j + 1];
      forall k | 0 <= k < i + 1 ensures s[k] == c {
        if k > 0 { assert s[k] == tail[k - 1]; }
      }
      forall k | j + 1 <= k < |s| ensures s[k] == c {
        assert s[k] == tail[k - 1];
      }
      assert CutAround(s, c, i + 1, j + 1);
    } else if |s| > 0 && s[|s| - 1] == c {
      var init := s[..|s| - 1];
      StripCharSlice(init, c);
      var i, j :| CutAround(init, c, i, j) && StripChar(init, c) == init[i..j];
      assert init[i..j] == s[i..j];
      if |init| > 0 {
        assert s[0] == init[0];
      }
      forall k | j <= k < |s| ensures s[k] == c {
        if k < |s| - 1 { assert s[k] == init[k]; }
      }
      assert CutAround(s, c, i, j);
    } else {
      assert s == s[0..|s|];
      assert CutAround(s, c, 0, |s|);
    }
  }

  /** Stripping c leaves nothing exactly when every character is c. */
  lemma {:induction false} StripCharEmpty(s: string, c: char)
    ensures StripChar(s, c) == [] <==> forall i :: 0 <= i < |s| ==> s[i] == c
    decreases |s|
  {
    if |s| > 0 && s[0] == c {
      var tail := s[1..];
      StripCharEmpty(tail, c);
      if forall i :: 0 <= i < |tail| ==> tail[i] == c {
        forall i | 0 <= i < |s| ensures s[i] == c {
          if i > 0 { assert s[i] == tail[i - 1]; }
        }
      }
    } else if |s| > 0 && s[|s| - 1] == c {
      var init := s[..|s| - 1];
      StripCharEmpty(init, c);
      assert init[0] == s[0];
    }
  }

  predicate IsDigit(c: char) {
    '0' <= c <= '9'
  }

  /** The decimal numeral of n, without leading zeros. */
  function Decimal(n: nat): (r: string)
    ensures |r| >= 1 && (forall i :: 0 <= i < |r| ==> IsDigit(r[i]))
    ensures n >= 10 ==> r[0] != '0'
  {
    var d := ['0' + (n % 10) as char];
    if n < 10 then d else Decimal(n / 10) + d
  }

  /** Code-point lexicographic order on strings: the order in which the
      host language sorts them. */
  predicate LexLess(a: string, b: string)
    decreases |a|
  {
    if |a| == 0 then |b| > 0
    else if |b| == 0 then false
    else if a[0] == b[0] then LexLess(a[1..], b[1..])
    else a[0] < b[0]
  }

  lemma {:induction false} LexLessIrreflexive(a: string)
    ensures !LexLess(a, a)
    decreases |a|
  {
    if |a| > 0 {
      LexLessIrreflexive(a[1..]);
    }
  }

  lemma {:induction false} LexLessTransitive(a: string, b: string, c: string)
    requires LexLess(a, b) && LexLess(b, c)
    ensures LexLess(a, c)
    decreases |a|
  {
    if |a| > 0 && |b| > 0 && |c| > 0 && a[0] == b[0] && b[0] == c[0] {
      LexLessTransitive(a[1..], b[1..], c[1..]);
    }
  }

  lemma {:induction false} LexLessTotal(a: string, b: string)
    requires a != b
    ensures LexLess(a, b) || LexLess(b, a)
    decreases |a|
  {
    if |a| > 0 && |b| > 0 && a[0] == b[0] {
      assert a == [a[0]] + a[1..] && b == [b[0]] + b[1..];
      LexLessTotal(a[1..], b[1..]);
    }
  }
}
