/** Option, the one wrapper the model needs. */
module Wrappers {
  datatype Option<+T> = None | Some(value: T)
}

/**
 * The handful of Python string builtins the scripts rely on, written as
 * recursive functions over `seq<char>`: `str.replace`, `str.split`,
 * `str.strip`, `str.endswith`, `str(int)`, the `<` order on strings and the
 * character classes `\s` and `\w`.
 */
module Text {

  /** Python's `str.isspace()`, which is also the set `\s` matches in a `str` pattern. */
  predicate IsSpace(c: char) {
    c == ' ' || ('\t' <= c <= '\r') || ('\U{1C}' <= c <= '\U{1F}') || c == '\U{85}' || c == '\U{A0}'
    || c == '\U{1680}' || ('\U{2000}' <= c <= '\U{200A}') || c == '\U{2028}' || c == '\U{2029}'
    || c == '\U{202F}' || c == '\U{205F}' || c == '\U{3000}'
  }

  /** `\w`, restricted to ASCII: letters, digits and the underscore. */
  predicate IsWordChar(c: char) {
    ('a' <= c <= 'z') || ('A' <= c <= 'Z') || ('0' <= c <= '9') || c == '_'
  }

  predicate IsDigit(c: char) {
    '0' <= c <= '9'
  }

  predicate AllWordChars(s: string) {
    forall i :: 0 <= i < |s| ==> IsWordChar(s[i])
  }

  /** No character of `s` is `c`. */
  predicate Lacks(s: string, c: char) {
    forall i :: 0 <= i < |s| ==> s[i] != c
  }

  lemma LacksConcat(a: string, b: string, c: char)
    requires Lacks(a, c) && Lacks(b, c)
    ensures Lacks(a + b, c)
  {
    forall i | 0 <= i < |a + b|
      ensures (a + b)[i] != c
    {
      if i >= |a| {
        assert (a + b)[i] == b[i - |a|];
      }
    }
  }

  /** A non-empty prefix comes apart into its first character and the rest. */
  lemma ConsRegroup(p: string, t: string)
    requires p != []
    ensures p + t == [p[0]] + (p[1..] + t)
  {
  }

  /** `s` never has `a` immediately followed by `b`. */
  predicate NoPair(s: string, a: char, b: char) {
    forall i :: 0 <= i < |s| - 1 ==> !(s[i] == a && s[i + 1] == b)
  }

  predicate EndsWith(s: string, suffix: string) {
    |suffix| <= |s| && s[|s| - |suffix|..] == suffix
  }

  function CountChar(s: string, c: char): nat {
    if s == [] then 0 else (if s[0] == c then 1 else 0) + CountChar(s[1..], c)
  }

  /** Keep the characters satisfying `keep`, in order. */
  function Filter(s: string, keep: char -> bool): (r: string)
    ensures |r| <= |s|
    ensures forall i :: 0 <= i < |r| ==> keep(r[i])
  {
    if s == [] then [] else (if keep(s[0]) then [s[0]] else []) + Filter(s[1..], keep)
  }

  lemma {:induction false} FilterAppend(a: string, b: string, keep: char -> bool)
    ensures Filter(a + b, keep) == Filter(a, keep) + Filter(b, keep)
  {
    if a == [] {
      assert a + b == b;
    } else {
      assert (a + b)[0] == a[0] && (a + b)[1..] == a[1..] + b;
      FilterAppend(a[1..], b, keep);
    }
  }

  lemma {:induction false} FilterKeepsAll(s: string, keep: char -> bool)
    requires forall i :: 0 <= i < |s| ==> keep(s[i])
    ensures Filter(s, keep) == s
  {
    if s != [] {
      FilterKeepsAll(s[1..], keep);
    }
  }

  /** Two filters in a row are one filter by the conjunction. */
  lemma {:induction false} FilterTwice(s: string, p: char -> bool, q: char -> bool, both: char -> bool)
    requires forall c :: both(c) == (p(c) && q(c))
    ensures Filter(Filter(s, p), q) == Filter(s, both)
  {
    if s != [] {
      FilterTwice(s[1..], p, q, both);
      assert both(s[0]) == (p(s[0]) && q(s[0]));
      var x := Filter(s[1..], p);
      if p(s[0]) {
        assert Filter(s, p) == [s[0]] + x;
        assert ([s[0]] + x)[0] == s[0] && ([s[0]] + x)[1..] == x;
        assert Filter([s[0]] + x, q) == (if q(s[0]) then [s[0]] else []) + Filter(x, q);
      } else {
        assert Filter(s, p) == x;
      }
      assert Filter(s, both) == (if both(s[0]) then [s[0]] else []) + Filter(s[1..], both);
    }
  }

  /** Python's `t in s` for strings: `t` occurs in `s` as a contiguous piece. */
  predicate Contains(s: string, t: string)
    decreases |s|
  {
    |t| <= |s| && (s[..|t|] == t || Contains(s[1..], t))
  }

  /**
   * Python's `s.replace(pat, rep)`: scan left to right, replace each
   * leftmost occurrence of `pat` and resume after it (occurrences never overlap).
   */
  function ReplaceAll(s: string, pat: string, rep: string): string
    requires |pat| > 0
    decreases |s|
  {
    if |s| < |pat| then s
    else if s[..|pat|] == pat then rep + ReplaceAll(s[|pat|..], pat, rep)
    else [s[0]] + ReplaceAll(s[1..], pat, rep)
  }

  /** Replacing one character by one character is a pointwise map. */
  lemma {:induction false} ReplaceCharAt(s: string, a: char, b: char)
    ensures |ReplaceAll(s, [a], [b])| == |s|
    ensures forall i :: 0 <= i < |s| ==> ReplaceAll(s, [a], [b])[i] == if s[i] == a then b else s[i]
  {
    if s != [] {
      ReplaceCharAt(s[1..], a, b);
    }
  }

  /** Replacing one character by another distributes over concatenation. */
  lemma ReplaceCharConcat(p: string, q: string, a: char, b: char)
    ensures ReplaceAll(p + q, [a], [b]) == ReplaceAll(p, [a], [b]) + ReplaceAll(q, [a], [b])
  {
    ReplaceCharAt(p + q, a, b);
    ReplaceCharAt(p, a, b);
    ReplaceCharAt(q, a, b);
  }

  /** Replacing one character by nothing deletes exactly that character. */
  lemma {:induction false} ReplaceCharByNothing(s: string, a: char, others: char -> bool)
    requires forall c :: others(c) == (c != a)
    ensures ReplaceAll(s, [a], []) == Filter(s, others)
  {
    if s != [] {
      ReplaceCharByNothing(s[1..], a, others);
      assert others(s[0]) == (s[0] != a);
    }
  }

  /** Where the pattern does not start, one character is copied and the scan moves on. */
  lemma ReplaceMiss(s: string, pat: string, rep: string)
    requires |pat| > 0 && s != [] && s[0] != pat[0]
    ensures ReplaceAll(s, pat, rep) == [s[0]] + ReplaceAll(s[1..], pat, rep)
  {
    if |s| >= |pat| {
      assert s[..|pat|][0] == s[0];
    }
  }

  /** A string none of whose characters starts the pattern is left alone. */
  lemma {:induction false} ReplaceAbsent(s: string, pat: string, rep: string)
    requires |pat| > 0 && Lacks(s, pat[0])
    ensures ReplaceAll(s, pat, rep) == s
  {
    if s != [] {
      ReplaceMiss(s, pat, rep);
      ReplaceAbsent(s[1..], pat, rep);
    }
  }

  /** A pattern after a piece free of its first character is replaced there, and the scan resumes after it. */
  lemma {:induction false} ReplaceAfter(a: string, pat: string, rep: string, b: string)
    requires |pat| > 0 && Lacks(a, pat[0])
    ensures ReplaceAll(a + pat + b, pat, rep) == a + rep + ReplaceAll(b, pat, rep)
  {
    var s := a + pat + b;
    if a == [] {
      assert s == pat + b;
      assert s[..|pat|] == pat && s[|pat|..] == b;
    } else {
      var s' := a[1..] + pat + b;
      assert s[0] == a[0] && s[1..] == s';
      ReplaceMiss(s, pat, rep);
      ReplaceAfter(a[1..], pat, rep, b);
      assert a == [a[0]] + a[1..];
    }
  }

  /** `pat` occurs in `s` starting at index `i`. */
  predicate OccursAt(s: string, pat: string, i: nat) {
    i + |pat| <= |s| && s[i..i + |pat|] == pat
  }

  /** Where the pattern does not occur at the front, one character is copied and the scan moves on. */
  lemma ReplaceNoMatchHere(s: string, pat: string, rep: string)
    requires |pat| > 0 && s != [] && !OccursAt(s, pat, 0)
    ensures ReplaceAll(s, pat, rep) == [s[0]] + ReplaceAll(s[1..], pat, rep)
  {
    if |s| >= |pat| {
      assert s[..|pat|] == s[0..0 + |pat|];
    }
  }

  lemma OccursShift(s: string, pat: string, i: nat)
    requires s != []
    ensures OccursAt(s[1..], pat, i) == OccursAt(s, pat, i + 1)
  {
    if i + |pat| <= |s| - 1 {
      assert s[1..][i..i + |pat|] == s[i + 1..i + 1 + |pat|];
    }
  }

  /** Where no occurrence of the pattern starts inside `a`, `a` is copied and the scan resumes after it. */
  lemma {:induction false} ReplaceSkip(a: string, b: string, pat: string, rep: string)
    requires |pat| > 0
    requires forall i :: 0 <= i < |a| ==> !OccursAt(a + b, pat, i)
    ensures ReplaceAll(a + b, pat, rep) == a + ReplaceAll(b, pat, rep)
  {
    if a == [] {
      assert a + b == b;
    } else {
      var s := a + b;
      var u := a[1..] + b;
      assert s[1..] == u;
      assert !OccursAt(s, pat, 0);
      ReplaceNoMatchHere(s, pat, rep);
      forall i | 0 <= i < |a| - 1
        ensures !OccursAt(u, pat, i)
      {
        OccursShift(s, pat, i);
      }
      ReplaceSkip(a[1..], b, pat, rep);
      assert [s[0]] + (a[1..] + ReplaceAll(b, pat, rep)) == a + ReplaceAll(b, pat, rep);
    }
  }

  /** A string in which the pattern never occurs is left alone. */
  lemma ReplaceNone(s: string, pat: string, rep: string)
    requires |pat| > 0
    ensures (forall i :: 0 <= i < |s| ==> !OccursAt(s, pat, i)) ==> ReplaceAll(s, pat, rep) == s
  {
    if forall i :: 0 <= i < |s| ==> !OccursAt(s, pat, i) {
      assert s + [] == s;
      ReplaceSkip(s, [], pat, rep);
    }
  }

  /** ... so a pattern glued on its end is the only thing replaced. */
  lemma ReplaceAtEnd(s: string, pat: string, rep: string)
    requires |pat| > 0 && Lacks(s, pat[0])
    ensures ReplaceAll(s + pat, pat, rep) == s + rep
  {
    ReplaceAfter(s, pat, rep, []);
    assert s + pat + [] == s + pat && s + rep + [] == s + rep;
  }

  /** Replacing the pair `ab` by a character other than `a` and `b` leaves no `ab` behind. */
  lemma {:induction false} ReplacePairLeavesNone(s: string, a: char, b: char, c: char)
    requires c != a && c != b
    ensures NoPair(ReplaceAll(s, [a, b], [c]), a, b)
    decreases |s|
  {
    if |s| >= 2 {
      if s[..2] == [a, b] {
        ReplacePairLeavesNone(s[2..], a, b, c);
      } else {
        ReplacePairLeavesNone(s[1..], a, b, c);
        var rest := ReplaceAll(s[1..], [a, b], [c]);
        if |s| == 2 {
          assert rest == s[1..];
        } else {
          assert rest[0] == if s[1..][..2] == [a, b] then c else s[1];
        }
      }
    }
  }

  /** Replacing the pair `ab` by a character other than `a` and `d` creates no `ad`. */
  lemma {:induction false} ReplacePairKeepsNone(s: string, a: char, b: char, c: char, d: char)
    requires c != a && c != d && NoPair(s, a, d)
    ensures NoPair(ReplaceAll(s, [a, b], [c]), a, d)
    decreases |s|
  {
    if |s| >= 2 {
      if s[..2] == [a, b] {
        ReplacePairKeepsNone(s[2..], a, b, c, d);
      } else {
        ReplacePairKeepsNone(s[1..], a, b, c, d);
        var rest := ReplaceAll(s[1..], [a, b], [c]);
        if |s| == 2 {
          assert rest == s[1..];
        } else {
          assert rest[0] == if s[1..][..2] == [a, b] then c else s[1];
        }
      }
    }
  }

  /**
   * Python's `s.split(sep)`: the pieces between the leftmost non-overlapping
   * occurrences of `sep`; there is always at least one piece.
   */
  function Split(s: string, sep: string): (parts: seq<string>)
    requires |sep| > 0
    ensures |parts| >= 1
    decreases |s|
  {
    if |s| < |sep| then [s]
    else if s[..|sep|] == sep then [""] + Split(s[|sep|..], sep)
    else
      var rest := Split(s[1..], sep);
      [[s[0]] + rest[0]] + rest[1..]
  }

  /** A string with no character that starts the separator is one piece. */
  lemma {:induction false} SplitWhole(s: string, sep: string)
    requires |sep| > 0 && Lacks(s, sep[0])
    ensures Split(s, sep) == [s]
  {
    if |s| >= |sep| {
      assert s[..|sep|][0] == s[0];
      SplitWhole(s[1..], sep);
      assert [s[0]] + s[1..] == s;
    }
  }

  /** A separator after a piece free of its first character splits exactly there. */
  lemma {:induction false} SplitAfter(a: string, sep: string, b: string)
    requires |sep| > 0 && Lacks(a, sep[0])
    ensures Split(a + sep + b, sep) == [a] + Split(b, sep)
  {
    var s := a + sep + b;
    if a == [] {
      assert s[..|sep|] == sep && s[|sep|..] == b;
    } else {
      assert s[..|sep|][0] == a[0];
      assert s[1..] == a[1..] + sep + b;
      SplitAfter(a[1..], sep, b);
      assert [a[0]] + a[1..] == a;
    }
  }

  /** Drop leading whitespace (the left half of `str.strip()`). */
  function TrimStart(s: string): (r: string)
    ensures |r| <= |s| && r == s[|s| - |r|..]
    ensures r == [] || !IsSpace(r[0])
  {
    if s != [] && IsSpace(s[0]) then TrimStart(s[1..]) else s
  }

  /** Drop trailing whitespace (the right half of `str.strip()`). */
  function TrimEnd(s: string): (r: string)
    ensures |r| <= |s| && r == s[..|r|]
    ensures r == [] || !IsSpace(r[|r| - 1])
  {
    if s != [] && IsSpace(s[|s| - 1]) then TrimEnd(s[..|s| - 1]) else s
  }

  /** Python's `s.strip()` with no argument. */
  function Strip(s: string): (r: string)
    ensures r == [] || (!IsSpace(r[0]) && !IsSpace(r[|r| - 1]))
    ensures |r| <= |s|
  {
    var t := TrimStart(s);
    TrimEnd(t)
  }

  /** Every character of `strip()`'s result is one of the input's: a property all of them have survives. */
  lemma StripKeepsAll(s: string, keep: char -> bool)
    requires forall i :: 0 <= i < |s| ==> keep(s[i])
    ensures forall i :: 0 <= i < |Strip(s)| ==> keep(Strip(s)[i])
  {
    var t := TrimStart(s);
    assert forall i :: 0 <= i < |t| ==> t[i] == s[|s| - |t| + i];
    var r := TrimEnd(t);
    assert forall i :: 0 <= i < |r| ==> r[i] == t[i];
  }

  /** A string that neither starts nor ends with whitespace is its own `strip()`. */
  lemma StripUnchanged(s: string)
    requires s != [] && !IsSpace(s[0]) && !IsSpace(s[|s| - 1])
    ensures Strip(s) == s
  {
    assert TrimStart(s) == s;
  }

  /** Trailing whitespace is trimmed from the end only: a prefix ending in a non-space survives. */
  lemma {:induction false} TrimEndKeepsPrefix(p: string, q: string)
    requires p != [] && !IsSpace(p[|p| - 1])
    ensures TrimEnd(p + q) == p + TrimEnd(q)
    decreases |q|
  {
    if q != [] && IsSpace(q[|q| - 1]) {
      assert (p + q)[..|p + q| - 1] == p + q[..|q| - 1];
      TrimEndKeepsPrefix(p, q[..|q| - 1]);
    } else if q == [] {
      assert p + q == p;
    }
  }

  /** Stripping a string that opens with a non-blank piece keeps that piece whole. */
  lemma StripKeepsPrefix(p: string, q: string)
    requires p != [] && !IsSpace(p[0]) && !IsSpace(p[|p| - 1])
    ensures Strip(p + q) == p + TrimEnd(q)
  {
    assert (p + q)[0] == p[0];
    assert TrimStart(p + q) == p + q;
    TrimEndKeepsPrefix(p, q);
  }

  /**
   * Filtering, stripping and turning spaces into `_` leave alone a head that
   * survives the filter and has no whitespace at either end and no space.
   */
  lemma CleanNameKeepsHead(head: string, tail: string, keep: char -> bool)
    requires head != [] && (forall i :: 0 <= i < |head| ==> keep(head[i]))
    requires !IsSpace(head[0]) && !IsSpace(head[|head| - 1]) && Lacks(head, ' ')
    ensures ReplaceAll(Strip(Filter(head + tail, keep)), " ", "_") ==
      head + ReplaceAll(TrimEnd(Filter(tail, keep)), " ", "_")
  {
    var f := Filter(tail, keep);
    assert Filter(head + tail, keep) == head + f by {
      FilterAppend(head, tail, keep);
      FilterKeepsAll(head, keep);
    }
    var t := TrimEnd(f);
    StripKeepsPrefix(head, f);
    ReplaceCharConcat(head, t, ' ', '_');
    ReplaceAbsent(head, " ", "_");
  }

  /** `str(n)` for a non-negative integer: its decimal digits, without leading zeros. */
  function NatToString(n: nat): (r: string)
    ensures |r| >= 1
    ensures forall i :: 0 <= i < |r| ==> IsDigit(r[i])
  {
    var d := ['0' + (n % 10) as char];
    if n < 10 then d else NatToString(n / 10) + d
  }

  lemma {:induction false} NatToStringInjective(m: nat, n: nat)
    requires NatToString(m) == NatToString(n)
    ensures m == n
  {
    var a, b := NatToString(m), NatToString(n);
    assert a[|a| - 1] == b[|b| - 1];
    assert m % 10 == n % 10;
    if m >= 10 && n >= 10 {
      assert NatToString(m / 10) == a[..|a| - 1] == b[..|b| - 1] == NatToString(n / 10);
      NatToStringInjective(m / 10, n / 10);
    }
  }

  /**
   * Two names made of a number, then `-`, then anything, agree only if the
   * numbers agree: the digits end at the first `-`.
   */
  lemma NumberedPrefixInjective(m: nat, x: string, n: nat, y: string)
    requires NatToString(m) + "-" + x == NatToString(n) + "-" + y
    ensures m == n
  {
    var a, b := NatToString(m), NatToString(n);
    var s := a + "-" + x;
    assert s[|a|] == '-' && (b + "-" + y)[|b|] == '-';
    assert |a| <= |b| ==> s[|a|] == (b + "-" + y)[|a|];
    assert |b| <= |a| ==> s[|b|] == (a + "-" + x)[|b|];
    assert |a| == |b|;
    assert a == s[..|a|] == b;
    NatToStringInjective(m, n);
  }

  /** Python's `<` on strings: lexicographic by code point, a proper prefix coming first. */
  predicate Below(a: string, b: string) {
    b != [] && (a == [] || a[0] < b[0] || (a[0] == b[0] && Below(a[1..], b[1..])))
  }

  lemma {:induction false} BelowIrreflexive(a: string)
    ensures !Below(a, a)
  {
    if a != [] {
      BelowIrreflexive(a[1..]);
    }
  }

  lemma {:induction false} BelowTransitive(a: string, b: string, c: string)
    requires Below(a, b) && Below(b, c)
    ensures Below(a, c)
  {
    if a != [] && a[0] == b[0] && b[0] == c[0] {
      BelowTransitive(a[1..], b[1..], c[1..]);
    }
  }

  lemma {:induction false} BelowTotal(a: string, b: string)
    requires a != b
    ensures Below(a, b) || Below(b, a)
  {
    if a != [] && b != [] && a[0] == b[0] {
      assert a == [a[0]] + a[1..] && b == [b[0]] + b[1..];
      BelowTotal(a[1..], b[1..]);
    }
  }
}
