/**
 * utils.py: the SQL text normaliser `robust_clean_sql`, the object key
 * `get_hash_for_object`, the scan `build_processed_hashes` that rebuilds the
 * set of finished keys from artifact file names, and the prompt substitution
 * of `get_lineage_prompt`.
 */
module Utils {
  import opened Wrappers
  import opened Text
  import opened Seqs

  // ---------------------------------------------------------------------
  // robust_clean_sql: five text passes, then strip
  // ---------------------------------------------------------------------

  /** Pass 1: each literal backslash-n / backslash-t pair becomes a real newline / tab. */
  function DecodeEscapes(s: string): (r: string)
    ensures NoPair(r, '\\', 'n') && NoPair(r, '\\', 't')
  {
    var once := ReplaceAll(s, "\\n", "\n");
    ReplacePairLeavesNone(s, '\\', 'n', '\n');
    ReplacePairKeepsNone(once, '\\', 't', '\t', 'n');
    ReplacePairLeavesNone(once, '\\', 't', '\t');
    ReplaceAll(once, "\\t", "\t")
  }

  /**
   * The escapes decoded in one left-to-right scan: a backslash followed by
   * `n` or `t` becomes a newline or a tab; every other character is copied.
   */
  function Unescape(s: string): string
    decreases |s|
  {
    if |s| < 2 then s
    else if s[0] == '\\' && s[1] == 'n' then "\n" + Unescape(s[2..])
    else if s[0] == '\\' && s[1] == 't' then "\t" + Unescape(s[2..])
    else [s[0]] + Unescape(s[1..])
  }

  /** The first character left by the newline replacement. */
  lemma NewlineDecodeHead(t: string)
    requires t != []
    ensures var n := ReplaceAll(t, "\\n", "\n");
      n != [] && n[0] == if |t| >= 2 && t[0] == '\\' && t[1] == 'n' then '\n' else t[0]
  {
    if |t| >= 2 {
      assert t[..2] == "\\n" <==> t[0] == '\\' && t[1] == 'n';
    }
  }

  /** Pass 1's two `replace` calls decode exactly as the one scan does. */
  lemma {:induction false} DecodeEscapesIsUnescape(s: string)
    ensures DecodeEscapes(s) == Unescape(s)
    decreases |s|
  {
    if |s| >= 2 {
      var n := ReplaceAll(s, "\\n", "\n");
      assert s[..2] == "\\n" <==> s[0] == '\\' && s[1] == 'n';
      if s[0] == '\\' && s[1] == 'n' {
        var m := ReplaceAll(s[2..], "\\n", "\n");
        assert n == "\n" + m;
        ReplaceMiss(n, "\\t", "\t");
        assert n[1..] == m;
        DecodeEscapesIsUnescape(s[2..]);
      } else {
        var m := ReplaceAll(s[1..], "\\n", "\n");
        assert n == [s[0]] + m;
        assert n[1..] == m;
        NewlineDecodeHead(s[1..]);
        DecodeEscapesIsUnescape(s[1..]);
        if s[0] == '\\' && s[1] == 't' {
          assert s[1..][1..] == s[2..];
          ReplaceMiss(s[1..], "\\n", "\n");
          assert m == "t" + ReplaceAll(s[2..], "\\n", "\n");
          assert n[..2] == "\\t" && n[2..] == ReplaceAll(s[2..], "\\n", "\n");
          DecodeEscapesIsUnescape(s[2..]);
        } else if s[0] == '\\' {
          assert n[..2] != "\\t" by { assert n[1] == m[0]; }
        } else {
          ReplaceMiss(n, "\\t", "\t");
        }
      }
    }
  }

  /** The part of `s` from its first newline on (empty if there is none): what `.*` leaves standing. */
  function FromNewline(s: string): (r: string)
    ensures |r| <= |s| && r == s[|s| - |r|..]
    ensures r == [] || r[0] == '\n'
    ensures CountChar(r, '\n') == CountChar(s, '\n')
  {
    if s == [] || s[0] == '\n' then s else FromNewline(s[1..])
  }

  /**
   * Pass 2, `re.sub(r'--.*', '', s)`: delete every `--` and the rest of its
   * line; the newline itself stays, so no deletion crosses a line.
   */
  function StripLineComments(s: string): (r: string)
    ensures |r| <= |s|
    ensures NoPair(r, '-', '-')
    ensures CountChar(r, '\n') == CountChar(s, '\n')
    ensures |s| >= 2 && s[0] == '-' && s[1] == '-' ==> r == [] || r[0] == '\n'
    ensures s != [] && !(|s| >= 2 && s[0] == '-' && s[1] == '-') ==> r != [] && r[0] == s[0]
    decreases |s|
  {
    if |s| < 2 then s
    else if s[0] == '-' && s[1] == '-' then
      assert s[1..][1..] == s[2..];
      StripLineComments(FromNewline(s[2..]))
    else
      var rest := StripLineComments(s[1..]);
      assert ([s[0]] + rest)[1..] == rest;
      [s[0]] + rest
  }

  /**
   * A comment that runs to a newline is cut out and the newline kept, when it
   * is the first `--` of the text: `p` holds no `--` and does not end in `-`.
   */
  lemma LineCommentRemoved(p: string, c: string, q: string)
    requires NoPair(p, '-', '-') && (p == [] || p[|p| - 1] != '-') && Lacks(c, '\n')
    ensures StripLineComments(p + "--" + c + "\n" + q) == p + "\n" + StripLineComments(q)
  {
    LineCommentsKeepPrefix(p, "--" + (c + ("\n" + q)));
    LineCommentAtStart(c, q);
    LineCommentRegroups(p, c, q);
  }

  /** A comment on the text's last line, with no newline after it, is cut to the end. */
  lemma LineCommentAtEnd(p: string, c: string)
    requires NoPair(p, '-', '-') && (p == [] || p[|p| - 1] != '-') && Lacks(c, '\n')
    ensures StripLineComments(p + "--" + c) == p
  {
    ConcatAssoc(p, "--", c);
    LineCommentsKeepPrefix(p, "--" + c);
    LineCommentToEnd(c);
    assert p + [] == p;
  }

  lemma LineCommentToEnd(c: string)
    requires Lacks(c, '\n')
    ensures StripLineComments("--" + c) == []
  {
    var s := "--" + c;
    assert |s| >= 2 && s[0] == '-' && s[1] == '-';
    assert s[2..] == c;
    FromNewlineNone(c);
  }

  lemma {:induction false} FromNewlineNone(c: string)
    requires Lacks(c, '\n')
    ensures FromNewline(c) == []
  {
    if c != [] {
      FromNewlineNone(c[1..]);
    }
  }

  lemma LineCommentRegroups(p: string, c: string, q: string)
    ensures p + "--" + c + "\n" + q == p + ("--" + (c + ("\n" + q)))
    ensures p + "\n" + StripLineComments(q) == p + ("\n" + StripLineComments(q))
  {
  }

  lemma LineCommentAtStart(c: string, q: string)
    requires Lacks(c, '\n')
    ensures StripLineComments("--" + (c + ("\n" + q))) == "\n" + StripLineComments(q)
  {
    var s := "--" + (c + ("\n" + q));
    assert |s| >= 2 && s[0] == '-' && s[1] == '-';
    assert s[2..] == c + ("\n" + q);
    FromNewlineSkips(c, "\n" + q);
    NewlineKept(q);
  }

  lemma LineCommentsKeepFirst(x: char, t: string)
    requires !(x == '-' && t != [] && t[0] == '-')
    ensures StripLineComments([x] + t) == [x] + StripLineComments(t)
  {
    if t != [] {
      assert ([x] + t)[1..] == t;
    }
  }

  lemma {:induction false} LineCommentsKeepPrefix(p: string, t: string)
    requires NoPair(p, '-', '-') && (p == [] || t == [] || p[|p| - 1] != '-' || t[0] != '-')
    ensures StripLineComments(p + t) == p + StripLineComments(t)
  {
    if p != [] {
      ConsRegroup(p, t);
      if |p| >= 2 {
        assert (p[1..] + t)[0] == p[1];
      } else {
        assert p[1..] + t == t;
      }
      LineCommentsKeepFirst(p[0], p[1..] + t);
      LineCommentsKeepPrefix(p[1..], t);
      ConsRegroup(p, StripLineComments(t));
    } else {
      assert p + t == t;
    }
  }

  lemma NewlineKept(q: string)
    ensures StripLineComments("\n" + q) == "\n" + StripLineComments(q)
  {
    if q != [] {
      assert ("\n" + q)[1..] == q;
    }
  }

  lemma {:induction false} FromNewlineSkips(c: string, rest: string)
    requires Lacks(c, '\n') && rest != [] && rest[0] == '\n'
    ensures FromNewline(c + rest) == rest
  {
    if c != [] {
      assert (c + rest)[1..] == c[1..] + rest;
      FromNewlineSkips(c[1..], rest);
    }
  }

  // The length of `s` up to and including its first `*` `/` pair, if it has one.
  function CloseEnd(s: string): (r: Option<nat>)
    ensures r.Some? ==> 2 <= r.value <= |s| && s[r.value - 2] == '*' && s[r.value - 1] == '/'
    ensures r.Some? ==> NoPair(s[..r.value - 1], '*', '/')
    ensures r.None? ==> NoPair(s, '*', '/')
  {
    if |s| < 2 then None
    else if s[0] == '*' && s[1] == '/' then Some(2)
    else match CloseEnd(s[1..])
      case None => None
      case Some(n) => Some(n + 1)
  }

  // Pass 3, `re.sub(r'/\*.*?\*/', '', s, flags=re.DOTALL)`: delete each
  // comment opener through the nearest closer after it, across lines; an
  // unclosed opener and everything after it stay.
  function StripBlockComments(s: string): (r: string)
    ensures |r| <= |s|
    decreases |s|
  {
    if |s| < 2 then s
    else if s[0] == '/' && s[1] == '*' then
      match CloseEnd(s[2..])
      case None => s
      case Some(n) => StripBlockComments(s[2 + n..])
    else [s[0]] + StripBlockComments(s[1..])
  }

  lemma {:induction false} CloseEndAt(c: string, q: string)
    requires NoPair(c, '*', '/')
    ensures CloseEnd(c + "*/" + q) == Some(|c| + 2)
  {
    var s := c + "*/" + q;
    if c != [] {
      assert s[1..] == c[1..] + "*/" + q;
      CloseEndAt(c[1..], q);
      assert !(s[0] == '*' && s[1] == '/') by {
        if |c| >= 2 { assert s[1] == c[1]; }
      }
    }
  }

  /**
   * A closed block comment is cut out entirely, newlines inside it included,
   * when it is the first comment opener of the text: `p` holds no slash
   * followed by a star.
   */
  lemma BlockCommentRemoved(p: string, c: string, q: string)
    requires NoPair(p, '/', '*') && NoPair(c, '*', '/')
    ensures StripBlockComments(p + "/*" + c + "*/" + q) == p + StripBlockComments(q)
  {
    var t := "/*" + (c + "*/" + q);
    BlockCommentsKeepPrefix(p, t);
    BlockCommentAtStart(c, q);
    CommentRegroups(p, c, q);
  }

  /** An opener with no closer after it stays, with everything after it. */
  lemma BlockCommentUnclosed(p: string, c: string)
    requires NoPair(p, '/', '*') && NoPair(c, '*', '/')
    ensures StripBlockComments(p + "/*" + c) == p + "/*" + c
  {
    var s := "/*" + c;
    BlockCommentsKeepPrefix(p, s);
    assert s[2..] == c;
    ConcatAssoc(p, "/*", c);
  }

  lemma CommentRegroups(p: string, c: string, q: string)
    ensures p + "/*" + c + "*/" + q == p + ("/*" + (c + "*/" + q))
  {
  }

  lemma {:induction false} BlockCommentsKeepPrefix(p: string, t: string)
    requires NoPair(p, '/', '*') && (p == [] || t == [] || p[|p| - 1] != '/' || t[0] != '*')
    ensures StripBlockComments(p + t) == p + StripBlockComments(t)
  {
    if p != [] {
      ConsRegroup(p, t);
      if |p| >= 2 {
        assert (p[1..] + t)[0] == p[1];
      } else {
        assert p[1..] + t == t;
      }
      BlockCommentsKeepFirst(p[0], p[1..] + t);
      BlockCommentsKeepPrefix(p[1..], t);
      ConsRegroup(p, StripBlockComments(t));
    } else {
      assert p + t == t;
    }
  }

  /** Text without a comment opener passes unchanged. */
  lemma {:induction false} NoBlockCommentUnchanged(s: string)
    requires NoPair(s, '/', '*')
    ensures StripBlockComments(s) == s
  {
    if |s| >= 2 {
      NoBlockCommentUnchanged(s[1..]);
    }
  }

  lemma BlockCommentsKeepFirst(x: char, t: string)
    requires !(x == '/' && t != [] && t[0] == '*')
    ensures StripBlockComments([x] + t) == [x] + StripBlockComments(t)
  {
    if t != [] {
      assert ([x] + t)[1..] == t;
    }
  }

  lemma BlockCommentAtStart(c: string, q: string)
    requires NoPair(c, '*', '/')
    ensures StripBlockComments("/*" + (c + "*/" + q)) == StripBlockComments(q)
  {
    var u := c + "*/" + q;
    assert u == c + ("*/" + q);
    var s := "/*" + u;
    assert s[0] == '/' && s[1] == '*' && s[2..] == u;
    CloseEndAt(c, q);
    var n := |c| + 2;
    assert CloseEnd(s[2..]) == Some(n);
    assert StripBlockComments(s) == StripBlockComments(s[2 + n..]);
    assert s[2 + n..] == q;
  }

  /** Length of the longest prefix of `s` that is all whitespace and ends in a newline (0 if none). */
  function BlankRunEnd(s: string): (n: nat)
    ensures n <= |s|
    ensures n > 0 ==> s[n - 1] == '\n' && forall i :: 0 <= i < n ==> IsSpace(s[i])
  {
    if s == [] || !IsSpace(s[0]) then 0
    else
      var m := BlankRunEnd(s[1..]);
      if m > 0 then m + 1 else if s[0] == '\n' then 1 else 0
  }

  /**
   * Pass 4, `re.sub(r'\n\s*\n', '\n', s)`: a newline followed by a
   * whitespace run that holds further newlines is replaced, through the last
   * of them, by one newline (the greedy `\s*` backs off to that last one).
   */
  function CollapseBlankLines(s: string): (r: string)
    ensures |r| <= |s|
    decreases |s|
  {
    if s == [] then []
    else if s[0] == '\n' then "\n" + CollapseBlankLines(s[1 + BlankRunEnd(s[1..])..])
    else [s[0]] + CollapseBlankLines(s[1..])
  }

  predicate IsBlank(c: char) {
    c == ' ' || c == '\t'
  }

  /** `s` without its leading spaces and tabs. */
  function DropBlanks(s: string): (r: string)
    ensures |r| <= |s| && r == s[|s| - |r|..]
    ensures r == [] || !IsBlank(r[0])
    ensures s != [] && IsBlank(s[0]) ==> |r| < |s|
    ensures forall i :: 0 <= i < |s| - |r| ==> IsBlank(s[i])
  {
    if s != [] && IsBlank(s[0]) then DropBlanks(s[1..]) else s
  }

  /** Pass 5, `re.sub(r'[ \t]+', ' ', s)`: every run of spaces and tabs becomes one space. */
  function CollapseBlanks(s: string): (r: string)
    ensures |r| <= |s|
    ensures Lacks(r, '\t') && NoPair(r, ' ', ' ')
    ensures s != [] ==> r != [] && r[0] == if IsBlank(s[0]) then ' ' else s[0]
    decreases |s|
  {
    if s == [] then []
    else if IsBlank(s[0]) then
      var rest := CollapseBlanks(DropBlanks(s));
      assert (" " + rest)[1..] == rest;
      " " + rest
    else
      var rest := CollapseBlanks(s[1..]);
      assert ([s[0]] + rest)[1..] == rest;
      [s[0]] + rest
  }

  /** Dropping blanks from a piece that ends in a non-blank stops inside that piece. */
  lemma {:induction false} DropBlanksAppend(p: string, q: string)
    requires p != [] && !IsBlank(p[|p| - 1])
    ensures DropBlanks(p + q) == DropBlanks(p) + q
  {
    if IsBlank(p[0]) {
      assert (p + q)[1..] == p[1..] + q;
      DropBlanksAppend(p[1..], q);
    }
  }

  /** A whole run of blanks is dropped up to the first character that is not one. */
  lemma {:induction false} DropBlanksRun(b: string, q: string)
    requires forall i :: 0 <= i < |b| ==> IsBlank(b[i])
    requires q == [] || !IsBlank(q[0])
    ensures DropBlanks(b + q) == q
  {
    if b == [] {
      assert b + q == q;
    } else {
      assert (b + q)[1..] == b[1..] + q;
      DropBlanksRun(b[1..], q);
    }
  }

  lemma CollapseBlanksStep(s: string)
    requires s != []
    ensures CollapseBlanks(s) == if IsBlank(s[0]) then " " + CollapseBlanks(DropBlanks(s)) else [s[0]] + CollapseBlanks(s[1..])
  {
  }

  /** Pass 5 works piece by piece across a boundary that a non-blank closes. */
  lemma {:induction false} CollapseBlanksAppend(p: string, q: string)
    requires p == [] || !IsBlank(p[|p| - 1])
    ensures CollapseBlanks(p + q) == CollapseBlanks(p) + CollapseBlanks(q)
    decreases |p|
  {
    if p == [] {
      assert p + q == q;
    } else if IsBlank(p[0]) {
      var d := DropBlanks(p);
      assert d != [] && d[|d| - 1] == p[|p| - 1];
      CollapseBlanksAppend(d, q);
      BlankHeadJoin(p, q);
    } else {
      var t := p[1..];
      assert t == [] || t[|t| - 1] == p[|p| - 1];
      CollapseBlanksAppend(t, q);
      OtherHeadJoin(p[0], t, q);
      assert p == [p[0]] + t;
    }
  }

  lemma BlankHeadJoin(p: string, q: string)
    requires p != [] && IsBlank(p[0]) && !IsBlank(p[|p| - 1])
    requires CollapseBlanks(DropBlanks(p) + q) == CollapseBlanks(DropBlanks(p)) + CollapseBlanks(q)
    ensures CollapseBlanks(p + q) == CollapseBlanks(p) + CollapseBlanks(q)
  {
    var s := p + q;
    assert s[0] == p[0];
    CollapseBlanksStep(s);
    CollapseBlanksStep(p);
    DropBlanksAppend(p, q);
    ConcatAssoc(" ", CollapseBlanks(DropBlanks(p)), CollapseBlanks(q));
  }

  lemma OtherHeadJoin(c: char, t: string, q: string)
    requires !IsBlank(c)
    requires CollapseBlanks(t + q) == CollapseBlanks(t) + CollapseBlanks(q)
    ensures CollapseBlanks([c] + t + q) == CollapseBlanks([c] + t) + CollapseBlanks(q)
  {
    ConcatAssoc([c], t, q);
    CollapseBlanksKeepsHead(c, t + q);
    CollapseBlanksKeepsHead(c, t);
    ConcatAssoc([c], CollapseBlanks(t), CollapseBlanks(q));
  }

  lemma CollapseBlanksKeepsHead(c: char, t: string)
    requires !IsBlank(c)
    ensures CollapseBlanks([c] + t) == [c] + CollapseBlanks(t)
  {
    assert ([c] + t)[1..] == t;
  }

  /**
   * Pass 5 on `p + b + q`, where `b` is a whole run of spaces and tabs: the
   * run becomes one space, and the text on either side is collapsed on its own.
   */
  lemma CollapseBlanksRun(p: string, b: string, q: string)
    requires p == [] || !IsBlank(p[|p| - 1])
    requires b != [] && forall i :: 0 <= i < |b| ==> IsBlank(b[i])
    requires q == [] || !IsBlank(q[0])
    ensures CollapseBlanks(p + b + q) == CollapseBlanks(p) + " " + CollapseBlanks(q)
  {
    assert p + b + q == p + (b + q);
    CollapseBlanksAppend(p, b + q);
    DropBlanksRun(b, q);
    assert (b + q)[0] == b[0];
    CollapseBlanksStep(b + q);
    ConcatAssoc(CollapseBlanks(p), " ", CollapseBlanks(q));
  }

  /** Text without spaces and tabs passes pass 5 unchanged. */
  lemma {:induction false} CollapseBlanksNoBlanks(s: string)
    requires Lacks(s, ' ') && Lacks(s, '\t')
    ensures CollapseBlanks(s) == s
  {
    if s != [] {
      CollapseBlanksNoBlanks(s[1..]);
    }
  }

  /**
   * Reading `s` left to right with `open` meaning "a newline has been read
   * and only whitespace since": no newline is read while open. So no two
   * newlines of `s` are separated by whitespace alone.
   */
  predicate NoBlankFrom(s: string, open: bool)
    decreases |s|
  {
    s == [] ||
    if s[0] == '\n' then !open && NoBlankFrom(s[1..], true)
    else NoBlankFrom(s[1..], open && IsSpace(s[0]))
  }

  predicate NoBlankLine(s: string) {
    NoBlankFrom(s, false)
  }

  /** The whitespace `s` starts with holds no newline. */
  predicate NoNewlineLead(s: string)
    decreases |s|
  {
    s == [] || !IsSpace(s[0]) || (s[0] != '\n' && NoNewlineLead(s[1..]))
  }

  lemma {:induction false} AfterBlankRun(s: string)
    ensures NoNewlineLead(s[BlankRunEnd(s)..])
  {
    if s != [] && IsSpace(s[0]) {
      AfterBlankRun(s[1..]);
      var m := BlankRunEnd(s[1..]);
      if m > 0 {
        assert s[m + 1..] == s[1..][m..];
      }
    }
  }

  lemma {:induction false} CollapseBlankLinesNoBlank(s: string, open: bool)
    requires open ==> NoNewlineLead(s)
    ensures NoBlankFrom(CollapseBlankLines(s), open)
    decreases |s|
  {
    if s != [] {
      var r := CollapseBlankLines(s);
      if s[0] == '\n' {
        var t := s[1 + BlankRunEnd(s[1..])..];
        assert t == s[1..][BlankRunEnd(s[1..])..];
        AfterBlankRun(s[1..]);
        CollapseBlankLinesNoBlank(t, true);
        assert r[1..] == CollapseBlankLines(t);
      } else {
        CollapseBlankLinesNoBlank(s[1..], open && IsSpace(s[0]));
        assert r[1..] == CollapseBlankLines(s[1..]);
      }
    }
  }

  lemma {:induction false} NoBlankRelax(s: string)
    requires NoBlankFrom(s, true)
    ensures NoBlankFrom(s, false)
  {
    if s != [] && s[0] != '\n' && IsSpace(s[0]) {
      NoBlankRelax(s[1..]);
    }
  }

  /** Pass 4 changes a text exactly when the text has a blank line. */
  lemma {:induction false} CollapseBlankLinesUnchanged(s: string)
    ensures CollapseBlankLines(s) == s <==> NoBlankLine(s)
    decreases |s|
  {
    CollapseBlankLinesNoBlank(s, false);
    if s != [] && NoBlankLine(s) {
      if s[0] == '\n' {
        BlankRunEndNone(s[1..]);
        NoBlankRelax(s[1..]);
      }
      CollapseBlankLinesUnchanged(s[1..]);
      assert s == [s[0]] + s[1..];
    }
  }

  lemma {:induction false} BlankRunEndNone(t: string)
    requires NoBlankFrom(t, true) || NoNewlineLead(t)
    ensures BlankRunEnd(t) == 0
  {
    if t != [] && IsSpace(t[0]) {
      BlankRunEndNone(t[1..]);
    }
  }

  /**
   * A blank-line run becomes one newline: a newline, then whitespace `w`
   * ending in a newline, then text `q` whose leading whitespace holds no
   * newline, is replaced by one newline. The text `p` before it, which does
   * not end in whitespace, is collapsed on its own.
   */
  lemma CollapseBlankLinesRun(p: string, w: string, q: string)
    requires p == [] || !IsSpace(p[|p| - 1])
    requires w != [] && w[|w| - 1] == '\n' && forall i :: 0 <= i < |w| ==> IsSpace(w[i])
    requires NoNewlineLead(q)
    ensures CollapseBlankLines(p + "\n" + w + q) == CollapseBlankLines(p) + "\n" + CollapseBlankLines(q)
  {
    ConcatAssoc(p + "\n", w, q);
    ConcatAssoc(p, "\n", w + q);
    CollapseBlankLinesAppend(p, "\n" + (w + q));
    BlankRunAtStart(w, q);
    ConcatAssoc(CollapseBlankLines(p), "\n", CollapseBlankLines(q));
  }

  lemma BlankRunAtStart(w: string, q: string)
    requires w != [] && w[|w| - 1] == '\n' && forall i :: 0 <= i < |w| ==> IsSpace(w[i])
    requires NoNewlineLead(q)
    ensures CollapseBlankLines("\n" + (w + q)) == "\n" + CollapseBlankLines(q)
  {
    var t := "\n" + (w + q);
    BlankRunEndNone(q);
    BlankRunEndAll(w, q);
    assert t[1..] == w + q && (w + q)[|w|..] == q;
  }

  lemma {:induction false} BlankRunEndAll(w: string, q: string)
    requires w != [] && w[|w| - 1] == '\n' && forall i :: 0 <= i < |w| ==> IsSpace(w[i])
    requires BlankRunEnd(q) == 0
    ensures BlankRunEnd(w + q) == |w|
  {
    assert (w + q)[1..] == w[1..] + q;
    if |w| > 1 {
      BlankRunEndAll(w[1..], q);
    }
  }

  lemma {:induction false} BlankRunEndWithin(x: string, t: string)
    requires x != [] && !IsSpace(x[|x| - 1])
    ensures BlankRunEnd(x + t) == BlankRunEnd(x)
  {
    if IsSpace(x[0]) {
      assert (x + t)[1..] == x[1..] + t;
      BlankRunEndWithin(x[1..], t);
    }
  }

  lemma NewlineHeadOf(p: string, t: string, n: nat)
    requires p != [] && p[0] == '\n' && n < |p| - 1 && n == BlankRunEnd(p[1..] + t)
    ensures CollapseBlankLines(p + t) == "\n" + CollapseBlankLines(p[1 + n..] + t)
  {
    var s := p + t;
    assert s[1..] == p[1..] + t;
    assert s[1 + n..] == p[1 + n..] + t;
  }

  /** Text split after a character that is not whitespace is collapsed as its two pieces. */
  lemma {:induction false} CollapseBlankLinesAppend(p: string, t: string)
    requires p == [] || !IsSpace(p[|p| - 1])
    ensures CollapseBlankLines(p + t) == CollapseBlankLines(p) + CollapseBlankLines(t)
    decreases |p|
  {
    if p == [] {
      assert p + t == t;
    } else if p[0] == '\n' {
      BlankRunEndWithin(p[1..], t);
      var n := BlankRunEnd(p[1..]);
      assert n < |p| - 1;
      CollapseBlankLinesAppend(p[1 + n..], t);
      NewlineHeadOf(p, t, n);
      ConcatAssoc("\n", CollapseBlankLines(p[1 + n..]), CollapseBlankLines(t));
    } else {
      var x := p[1..];
      assert (p + t)[1..] == x + t;
      CollapseBlankLinesAppend(x, t);
      ConcatAssoc([p[0]], CollapseBlankLines(x), CollapseBlankLines(t));
    }
  }

  lemma {:induction false} NoBlankDropBlanks(s: string, open: bool)
    requires NoBlankFrom(s, open)
    ensures NoBlankFrom(DropBlanks(s), open)
    decreases |s|
  {
    if s != [] && IsBlank(s[0]) {
      NoBlankDropBlanks(s[1..], open);
    }
  }

  lemma {:induction false} CollapseBlanksKeepsNoBlank(s: string, open: bool)
    requires NoBlankFrom(s, open)
    ensures NoBlankFrom(CollapseBlanks(s), open)
    decreases |s|
  {
    if s != [] {
      var r := CollapseBlanks(s);
      if IsBlank(s[0]) {
        NoBlankDropBlanks(s, open);
        CollapseBlanksKeepsNoBlank(DropBlanks(s), open);
        assert r[1..] == CollapseBlanks(DropBlanks(s));
      } else {
        CollapseBlanksKeepsNoBlank(s[1..], if s[0] == '\n' then true else open && IsSpace(s[0]));
        assert r[1..] == CollapseBlanks(s[1..]);
      }
    }
  }

  lemma {:induction false} NoBlankPrefix(s: string, n: nat, open: bool)
    requires NoBlankFrom(s, open) && n <= |s|
    ensures NoBlankFrom(s[..n], open)
  {
    if n > 0 {
      assert s[..n][1..] == s[1..][..n - 1];
      NoBlankPrefix(s[1..], n - 1, if s[0] == '\n' then true else open && IsSpace(s[0]));
    }
  }

  lemma {:induction false} NoBlankTrimStart(s: string)
    requires NoBlankFrom(s, false)
    ensures NoBlankFrom(TrimStart(s), false)
  {
    if s != [] && IsSpace(s[0]) {
      if s[0] == '\n' {
        NoBlankRelax(s[1..]);
      }
      NoBlankTrimStart(s[1..]);
    }
  }

  lemma SuffixKeepsShape(s: string, k: nat)
    requires k <= |s| && Lacks(s, '\t') && NoPair(s, ' ', ' ')
    ensures Lacks(s[k..], '\t') && NoPair(s[k..], ' ', ' ')
  {
    var t := s[k..];
    assert forall i :: 0 <= i < |t| ==> t[i] == s[k + i];
  }

  lemma PrefixKeepsShape(s: string, k: nat)
    requires k <= |s| && Lacks(s, '\t') && NoPair(s, ' ', ' ')
    ensures Lacks(s[..k], '\t') && NoPair(s[..k], ' ', ' ')
  {
  }

  /** Stripping keeps a string free of tabs, double spaces and blank lines. */
  lemma StripKeepsShape(s: string)
    requires Lacks(s, '\t') && NoPair(s, ' ', ' ') && NoBlankLine(s)
    ensures var r := Strip(s); Lacks(r, '\t') && NoPair(r, ' ', ' ') && NoBlankLine(r)
  {
    var t := TrimStart(s);
    SuffixKeepsShape(s, |s| - |t|);
    NoBlankTrimStart(s);
    var r := TrimEnd(t);
    PrefixKeepsShape(t, |r|);
    NoBlankPrefix(t, |r|, false);
  }

  /**
   * `robust_clean_sql`. The result has no tab, no two spaces in a row, no
   * two newlines with only whitespace between them, and no whitespace at
   * either end.
   */
  function RobustCleanSql(sql: string): (r: string)
    ensures Lacks(r, '\t') && NoPair(r, ' ', ' ')
    ensures NoBlankLine(r)
    ensures r == [] || (!IsSpace(r[0]) && !IsSpace(r[|r| - 1]))
  {
    var s1 := DecodeEscapes(sql);
    var s2 := StripLineComments(s1);
    var s3 := StripBlockComments(s2);
    var s4 := CollapseBlankLines(s3);
    var s5 := CollapseBlanks(s4);
    CollapseBlankLinesNoBlank(s3, false);
    CollapseBlanksKeepsNoBlank(s4, false);
    StripKeepsShape(s5);
    Strip(s5)
  }

  // ---------------------------------------------------------------------
  // get_hash_for_object and build_processed_hashes
  // ---------------------------------------------------------------------

  /** A hex digest. */
  type Digest = string

  /**
   * `get_hash_for_object`: the digest of `schema + "::" + obj`. The digest
   * function (MD5) is a parameter; only the string it is applied to matters.
   */
  function ObjectKey(schema: string, obj: string, md5: string -> Digest): Digest {
    md5(schema + "::" + obj)
  }

  /** In `schema::obj` with a colon-free schema, the first colon stands right after the schema. */
  lemma ColonAfterSchema(schema: string, obj: string)
    requires Lacks(schema, ':')
    ensures (schema + "::" + obj)[|schema|] == ':'
    ensures forall i :: 0 <= i < |schema| ==> (schema + "::" + obj)[i] != ':'
  {
  }

  /**
   * With a digest that tells its inputs apart, two objects share a key only
   * when schema and name agree, provided schema names hold no `:`.
   */
  lemma ObjectKeysDiffer(s1: string, o1: string, s2: string, o2: string, md5: string -> Digest)
    requires forall x, y :: md5(x) == md5(y) ==> x == y
    requires Lacks(s1, ':') && Lacks(s2, ':')
    ensures ObjectKey(s1, o1, md5) == ObjectKey(s2, o2, md5) <==> s1 == s2 && o1 == o2
  {
    if ObjectKey(s1, o1, md5) == ObjectKey(s2, o2, md5) {
      var c1, c2 := s1 + "::" + o1, s2 + "::" + o2;
      assert c1 == c2;
      ColonAfterSchema(s1, o1);
      ColonAfterSchema(s2, o2);
      if |s1| != |s2| {
        assert false;
      }
      assert s1 == c1[..|s1|] && s2 == c2[..|s2|];
      assert o1 == c1[|s1| + 2..] && o2 == c2[|s2| + 2..];
    }
  }

  /**
   * The key `build_processed_hashes` reads off one file name: only names
   * ending in `.json` count; every `.json` in the name is removed, the rest is
   * split on `--`, and parts 1 and 2 are schema and object (part 0, the row
   * index, and any further parts are ignored). Fewer than three parts: no key.
   */
  function KeyOfName(name: string, md5: string -> Digest): (k: Option<Digest>)
    ensures k.Some? ==> EndsWith(name, ".json")
  {
    if !EndsWith(name, ".json") then None
    else
      var parts := Split(ReplaceAll(name, ".json", ""), "--");
      if |parts| >= 3 then Some(ObjectKey(parts[1], parts[2], md5)) else None
  }

  /**
   * A name `{tag}--{schema}--{object}.json` whose three parts hold no `-`
   * and no `.` reads back to the key of that schema and object.
   */
  lemma KeyOfNameReadsBack(tag: string, schema: string, obj: string, md5: string -> Digest)
    requires Lacks(tag, '-') && Lacks(schema, '-') && Lacks(obj, '-')
    requires Lacks(tag, '.') && Lacks(schema, '.') && Lacks(obj, '.')
    ensures KeyOfName(tag + "--" + schema + "--" + obj + ".json", md5) == Some(ObjectKey(schema, obj, md5))
  {
    var raw := tag + "--" + schema + "--" + obj;
    assert tag + "--" + schema + "--" + obj + ".json" == raw + ".json";
    StemLacksDot(tag, schema, obj);
    ReplaceAtEnd(raw, ".json", "");
    assert raw + "" == raw;
    SplitThree(tag, schema, obj);
  }

  lemma StemLacksDot(tag: string, schema: string, obj: string)
    requires Lacks(tag, '.') && Lacks(schema, '.') && Lacks(obj, '.')
    ensures Lacks(tag + "--" + schema + "--" + obj, '.')
  {
    LacksConcat(tag, "--", '.');
    LacksConcat(tag + "--", schema, '.');
    LacksConcat(tag + "--" + schema, "--", '.');
    LacksConcat(tag + "--" + schema + "--", obj, '.');
  }

  lemma SplitThree(tag: string, schema: string, obj: string)
    requires Lacks(tag, '-') && Lacks(schema, '-') && Lacks(obj, '-')
    ensures Split(tag + "--" + schema + "--" + obj, "--") == [tag, schema, obj]
  {
    var rest := schema + "--" + obj;
    ConcatAssoc(tag + "--", schema + "--", obj);
    ConcatAssoc(tag + "--", schema, "--");
    assert tag + "--" + schema + "--" + obj == tag + "--" + rest;
    SplitAfter(tag, "--", rest);
    SplitAfter(schema, "--", obj);
    SplitWhole(obj, "--");
  }

  /** Names with one or two parts give no key. */
  lemma KeyOfNameNeedsThreeParts(tag: string, schema: string, md5: string -> Digest)
    requires Lacks(tag, '-') && Lacks(schema, '-') && Lacks(tag, '.') && Lacks(schema, '.')
    ensures KeyOfName(tag + ".json", md5).None?
    ensures KeyOfName(tag + "--" + schema + ".json", md5).None?
  {
    assert EndsWith(tag + ".json", ".json");
    ReplaceAtEnd(tag, ".json", "");
    assert tag + "" == tag;
    SplitWhole(tag, "--");
    var raw := tag + "--" + schema;
    LacksConcat(tag, "--", '.');
    LacksConcat(tag + "--", schema, '.');
    assert EndsWith(raw + ".json", ".json");
    ReplaceAtEnd(raw, ".json", "");
    assert raw + "" == raw;
    SplitAfter(tag, "--", schema);
    SplitWhole(schema, "--");
  }

  /** Parts after the third are ignored. */
  lemma KeyOfNameIgnoresExtraParts(tag: string, schema: string, obj: string, extra: string, md5: string -> Digest)
    requires Lacks(tag, '-') && Lacks(schema, '-') && Lacks(obj, '-')
    requires Lacks(tag, '.') && Lacks(schema, '.') && Lacks(obj, '.') && Lacks(extra, '.')
    ensures KeyOfName(tag + "--" + schema + "--" + obj + "--" + extra + ".json", md5) == Some(ObjectKey(schema, obj, md5))
  {
    var raw := tag + "--" + schema + "--" + obj + "--" + extra;
    assert EndsWith(raw + ".json", ".json");
    FourPartsLackDot(tag, schema, obj, extra);
    ReplaceAtEnd(raw, ".json", "");
    assert raw + "" == raw;
    SplitFour(tag, schema, obj, extra);
  }

  lemma FourPartsLackDot(tag: string, schema: string, obj: string, extra: string)
    requires Lacks(tag, '.') && Lacks(schema, '.') && Lacks(obj, '.') && Lacks(extra, '.')
    ensures Lacks(tag + "--" + schema + "--" + obj + "--" + extra, '.')
  {
    StemLacksDot(tag, schema, obj);
    LacksConcat(tag + "--" + schema + "--" + obj, "--", '.');
    LacksConcat(tag + "--" + schema + "--" + obj + "--", extra, '.');
  }

  lemma SplitFour(tag: string, schema: string, obj: string, extra: string)
    requires Lacks(tag, '-') && Lacks(schema, '-') && Lacks(obj, '-')
    ensures Split(tag + "--" + schema + "--" + obj + "--" + extra, "--") == [tag, schema, obj] + Split(extra, "--")
  {
    var mid := schema + "--" + (obj + "--" + extra);
    FourRegroup(tag, schema, obj, extra);
    SplitTail(schema, obj, extra);
    SplitAfter(tag, "--", mid);
    assert [tag] + ([schema, obj] + Split(extra, "--")) == [tag, schema, obj] + Split(extra, "--");
  }

  lemma FourRegroup(tag: string, schema: string, obj: string, extra: string)
    ensures tag + "--" + schema + "--" + obj + "--" + extra == tag + "--" + (schema + "--" + (obj + "--" + extra))
  {
    var tail := obj + "--" + extra;
    ConcatAssoc(tag + "--" + schema + "--", obj, "--" + extra);
    ConcatAssoc(tag + "--" + schema, "--", tail);
    ConcatAssoc(tag + "--", schema, "--" + tail);
    ConcatAssoc(schema, "--", tail);
    ConcatAssoc(obj, "--", extra);
  }

  lemma SplitTail(schema: string, obj: string, extra: string)
    requires Lacks(schema, '-') && Lacks(obj, '-')
    ensures Split(schema + "--" + (obj + "--" + extra), "--") == [schema, obj] + Split(extra, "--")
  {
    assert "--"[0] == '-';
    SplitAfter(obj, "--", extra);
    SplitAfter(schema, "--", obj + "--" + extra);
  }

  /** Every `.json` in the name is removed before the split, not only the suffix. */
  lemma KeyOfNameDropsInnerJson(tag: string, schema: string, obj: string, md5: string -> Digest)
    requires Lacks(tag, '-') && Lacks(schema, '-') && Lacks(obj, '-')
    requires Lacks(tag, '.') && Lacks(schema, '.') && Lacks(obj, '.')
    ensures KeyOfName(tag + "--" + schema + ".json--" + obj + ".json", md5) == Some(ObjectKey(schema, obj, md5))
  {
    var name := tag + "--" + schema + ".json--" + obj + ".json";
    assert EndsWith(name, ".json");
    InnerJsonStem(tag, schema, obj);
    SplitThree(tag, schema, obj);
  }

  lemma InnerJsonStem(tag: string, schema: string, obj: string)
    requires Lacks(tag, '.') && Lacks(schema, '.') && Lacks(obj, '.')
    ensures ReplaceAll(tag + "--" + schema + ".json--" + obj + ".json", ".json", "") == tag + "--" + schema + "--" + obj
  {
    var a := tag + "--" + schema;
    var b := "--" + obj;
    InnerJsonRegroup(tag, schema, obj);
    LacksConcat(tag, "--", '.');
    LacksConcat(tag + "--", schema, '.');
    LacksConcat("--", obj, '.');
    ReplaceAfter(a, ".json", "", b + ".json");
    ReplaceAtEnd(b, ".json", "");
    assert a + "" == a && b + "" == b;
    ConcatAssoc(a, "--", obj);
  }

  lemma InnerJsonRegroup(tag: string, schema: string, obj: string)
    ensures tag + "--" + schema + ".json--" + obj + ".json" == (tag + "--" + schema) + ".json" + (("--" + obj) + ".json")
  {
  }

  /** Every key read off the names in a directory listing. */
  ghost function ProcessedKeys(names: set<string>, md5: string -> Digest): set<Digest> {
    set n | n in names && KeyOfName(n, md5).Some? :: KeyOfName(n, md5).value
  }

  lemma ProcessedKeysMonotone(a: set<string>, b: set<string>, md5: string -> Digest)
    requires a <= b
    ensures ProcessedKeys(a, md5) <= ProcessedKeys(b, md5)
  {
  }

  /**
   * `build_processed_hashes`: no folder gives the empty set; otherwise every
   * directory entry is looked at once and its key, if any, is collected.
   */
  method BuildProcessedHashes(folder: Option<set<string>>, md5: string -> Digest)
    returns (processed: set<Digest>)
    ensures folder.None? ==> processed == {}
    ensures folder.Some? ==> processed == ProcessedKeys(folder.value, md5)
  {
    processed := {};
    if folder.None? {
      return;
    }
    var remaining := folder.value;
    while remaining != {}
      invariant remaining <= folder.value
      invariant processed == ProcessedKeys(folder.value - remaining, md5)
      decreases remaining
    {
      var name :| name in remaining;
      var key := KeyOfName(name, md5);
      if key.Some? {
        processed := processed + {key.value};
      }
      remaining := remaining - {name};
      assert folder.value - remaining == (folder.value - (remaining + {name})) + {name};
    }
    assert folder.value - remaining == folder.value;
  }

  // ---------------------------------------------------------------------
  // get_lineage_prompt
  // ---------------------------------------------------------------------

  const Placeholder := "__SQL_TEXT__"

  /**
   * The prompt: the template with each `__SQL_TEXT__` replaced by the cleaned
   * SQL. A template without the placeholder is sent as it is.
   */
  function LineagePrompt(template: string, sqlText: string): (r: string)
    ensures (forall i :: 0 <= i < |template| ==> !OccursAt(template, Placeholder, i)) ==> r == template
  {
    ReplaceNone(template, Placeholder, sqlText);
    ReplaceAll(template, Placeholder, sqlText)
  }

  /**
   * A template whose first placeholder follows `before`, and which has no
   * other placeholder after it, gives the text around the placeholder with
   * the SQL verbatim in its place, even when the SQL itself contains the
   * placeholder.
   */
  lemma LineagePromptInsertsSql(before: string, after: string, sqlText: string)
    requires forall i :: 0 <= i < |before| ==> !OccursAt(before + Placeholder + after, Placeholder, i)
    requires forall i :: 0 <= i < |after| ==> !OccursAt(after, Placeholder, i)
    ensures LineagePrompt(before + Placeholder + after, sqlText) == before + sqlText + after
  {
    var t := Placeholder + after;
    assert before + Placeholder + after == before + t;
    ReplaceSkip(before, t, Placeholder, sqlText);
    assert t[..|Placeholder|] == Placeholder && t[|Placeholder|..] == after;
    ReplaceNone(after, Placeholder, sqlText);
  }
}
