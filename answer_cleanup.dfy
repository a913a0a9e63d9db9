/**
 The answer post-processing step of the `ask_me` view: the answer text is
 passed through `re.sub('([(].*?[)])', "", answer)` before it is rendered.

 The regular expression matches a `(`, then as few characters as possible
 (`.*?`, where `.` is any character except a line feed), then a `)`.  The
 substitution scans left to right: where a match starts, the matched span is
 dropped and scanning resumes after its `)`; elsewhere the character is kept.
 The pattern never matches the empty string.
 */
module AnswerCleanup {

  datatype Option<T> = None | Some(value: T)

  /** Where the lazy `.*?[)]` part of the pattern ends when it is tried at the
      start of `t`: the index of the first `)` in `t`, provided no line feed
      comes before it.  `None` when the pattern cannot close on this line.
      FindCloseSome and FindCloseNone characterise the result. */
  function FindClose(t: string): (r: Option<nat>)
    ensures r.Some? ==> r.value < |t|
  {
    if |t| == 0 then None
    else if t[0] == ')' then Some(0)
    else if t[0] == '\n' then None
    else
      match FindClose(t[1..])
      case None => None
      case Some(j) => Some(j + 1)
  }

  /** `re.sub('([(].*?[)])', "", s)`: every span from a `(` to the first `)`
      after it on the same line is deleted; everything else is kept. */
  function StripParens(s: string): (r: string)
    ensures |r| <= |s|
    decreases |s|
  {
    if |s| == 0 then ""
    else if s[0] == '(' then
      match FindClose(s[1..])
      case Some(j) => StripParens(s[j + 2..])
      case None => [s[0]] + StripParens(s[1..])
    else [s[0]] + StripParens(s[1..])
  }

  /** The pattern matches nowhere in `s`: no `(` in it is followed by a `)`
      on the same line. */
  ghost predicate NoClosedSpan(s: string)
    decreases |s|
  {
    |s| == 0 || ((s[0] == '(' ==> FindClose(s[1..]) == None) && NoClosedSpan(s[1..]))
  }

  /** The same, read directly off the text: between any `(` and any later
      `)` there is a line feed.  NoClosedSpanIff shows the two agree. */
  ghost predicate NoParenPairOnOneLine(s: string)
  {
    forall i, j :: 0 <= i < j < |s| && s[i] == '(' && s[j] == ')' ==> '\n' in s[i + 1..j]
  }

  /** `a` is obtained from `b` by deleting characters (order kept). */
  ghost predicate IsSubsequence(a: string, b: string)
    decreases |b|
  {
    if |a| == 0 then true
    else if |b| == 0 then false
    else (a[0] == b[0] && IsSubsequence(a[1..], b[1..])) || IsSubsequence(a, b[1..])
  }

  // ---------------------------------------------------------------------
  // Subsequences
  // ---------------------------------------------------------------------

  lemma {:induction false} SubsequenceBounds(a: string, b: string)
    requires IsSubsequence(a, b)
    ensures |a| <= |b|
    ensures multiset(a) <= multiset(b)
    decreases |b|
  {
    if |a| == 0 {
    } else if a[0] == b[0] && IsSubsequence(a[1..], b[1..]) {
      SubsequenceBounds(a[1..], b[1..]);
      assert a == [a[0]] + a[1..];
      assert b == [b[0]] + b[1..];
    } else {
      SubsequenceBounds(a, b[1..]);
      assert b == [b[0]] + b[1..];
    }
  }

  lemma {:induction false} SubsequenceDropPrefix(a: string, p: string, b: string)
    requires IsSubsequence(a, b)
    ensures IsSubsequence(a, p + b)
    decreases |p|
  {
    if |p| == 0 {
      assert p + b == b;
    } else if |a| > 0 {
      SubsequenceDropPrefix(a, p[1..], b);
      assert (p + b)[1..] == p[1..] + b;
    }
  }

  lemma SubsequenceCons(c: char, a: string, b: string)
    requires IsSubsequence(a, b)
    ensures IsSubsequence([c] + a, [c] + b)
  {
  }

  // ---------------------------------------------------------------------
  // What the substitution deletes and what it keeps
  // ---------------------------------------------------------------------

  /** Characters are only deleted, never added or reordered; hence the
      result is never longer than the answer and holds no new characters. */
  lemma {:induction false} StripIsSubsequence(s: string)
    ensures IsSubsequence(StripParens(s), s)
    ensures |StripParens(s)| <= |s|
    ensures multiset(StripParens(s)) <= multiset(s)
    decreases |s|
  {
    if |s| == 0 {
    } else if s[0] == '(' && FindClose(s[1..]).Some? {
      var j := FindClose(s[1..]).value;
      StripIsSubsequence(s[j + 2..]);
      SubsequenceDropPrefix(StripParens(s[j + 2..]), s[..j + 2], s[j + 2..]);
      assert s[..j + 2] + s[j + 2..] == s;
    } else {
      StripIsSubsequence(s[1..]);
      SubsequenceCons(s[0], StripParens(s[1..]), s[1..]);
      assert [s[0]] + s[1..] == s;
    }
    SubsequenceBounds(StripParens(s), s);
  }

  /** A removed span holds no line feed, so every line feed of the answer
      survives the substitution. */
  lemma {:induction false} LineFeedsKept(s: string)
    ensures multiset(StripParens(s))['\n'] == multiset(s)['\n']
    decreases |s|
  {
    if |s| == 0 {
    } else if s[0] == '(' && FindClose(s[1..]).Some? {
      var j := FindClose(s[1..]).value;
      assert StripParens(s) == StripParens(s[j + 2..]);
      LineFeedsKept(s[j + 2..]);
      SpanLineFeeds(s, j);
    } else {
      assert StripParens(s) == [s[0]] + StripParens(s[1..]);
      LineFeedsKept(s[1..]);
      LineFeedsOfCons(s[0], StripParens(s[1..]));
      LineFeedsOfCons(s[0], s[1..]);
      assert [s[0]] + s[1..] == s;
    }
  }

  /** Deleting the span of a match at the start of `s` deletes no line
      feed. */
  lemma SpanLineFeeds(s: string, j: nat)
    requires |s| > 0 && s[0] == '(' && FindClose(s[1..]) == Some(j)
    ensures j + 2 <= |s|
    ensures multiset(s)['\n'] == multiset(s[j + 2..])['\n']
  {
    SpanHasNoLineFeed(s[1..], j);
    var span := s[..j + 2];
    assert s == span + s[j + 2..];
    forall k | 1 <= k < j + 2
      ensures span[k] != '\n'
    {
      assert span[k] == s[1..][k - 1];
    }
    assert '\n' !in span;
  }

  lemma LineFeedsOfCons(c: char, t: string)
    ensures multiset([c] + t)['\n'] == multiset([c])['\n'] + multiset(t)['\n']
  {
  }

  /** The span a match at `(` removes, `(` included, holds no line feed. */
  lemma SpanHasNoLineFeed(t: string, j: nat)
    requires FindClose(t) == Some(j)
    ensures |t| > j
    ensures forall k :: 0 <= k <= j ==> t[k] != '\n'
  {
    FindCloseSome(t, j);
    assert forall k :: 0 <= k < j ==> t[k] == t[..j][k];
  }

  /** Text before the first `(` passes through untouched. */
  lemma {:induction false} PrefixWithoutParenKept(p: string, rest: string)
    requires '(' !in p
    ensures StripParens(p + rest) == p + StripParens(rest)
    decreases |p|
  {
    if |p| == 0 {
      assert p + rest == rest;
    } else {
      var s := p + rest;
      assert p == [p[0]] + p[1..];
      assert s[0] == p[0] && p[0] != '(';
      assert StripParens(s) == [p[0]] + StripParens(s[1..]);
      assert s[1..] == p[1..] + rest;
      PrefixWithoutParenKept(p[1..], rest);
    }
  }

  /** An answer with no `(` is returned unchanged. */
  lemma NoParenUnchanged(s: string)
    requires '(' !in s
    ensures StripParens(s) == s
  {
  }

  /** The lazy `.*?`: a span `(` m `)` whose interior holds no `)` and no
      line feed is deleted as a whole, and scanning resumes right after its
      `)`.  The interior may hold further `(`: spans do not nest. */
  lemma SpanRemoved(m: string, rest: string)
    requires ')' !in m && '\n' !in m
    ensures StripParens("(" + m + ")" + rest) == StripParens(rest)
  {
    var s := "(" + m + ")" + rest;
    var t := m + ")" + rest;
    assert s[1..] == t;
    assert t[..|m|] == m;
    FindCloseSome(t, |m|);
    assert s[|m| + 2..] == rest;
  }

  /** The lazy match closes at `k` exactly when `t[k]` is a `)` and neither
      a `)` nor a line feed comes before it. */
  lemma {:induction false} FindCloseSome(t: string, k: nat)
    ensures FindClose(t) == Some(k) <==>
      k < |t| && t[k] == ')' && ')' !in t[..k] && '\n' !in t[..k]
    decreases k
  {
    if k < |t| && k > 0 {
      assert t[1..][..k - 1] == t[1..k];
      assert t[..k] == [t[0]] + t[1..k];
      FindCloseSome(t[1..], k - 1);
    }
  }

  /** The lazy match fails exactly when every `)` in `t` has a line feed
      before it. */
  lemma {:induction false} FindCloseNone(t: string)
    ensures FindClose(t) == None <==>
      forall j :: 0 <= j < |t| && t[j] == ')' ==> '\n' in t[..j]
    decreases |t|
  {
    if |t| > 0 && t[0] != ')' && t[0] != '\n' {
      FindCloseNone(t[1..]);
      assert forall j :: 1 <= j <= |t| ==> t[..j] == [t[0]] + t[1..][..j - 1];
      if FindClose(t) != None {
        var k := FindClose(t).value;
        FindCloseSome(t, k);
        assert t[k] == ')' && '\n' !in t[..k];
      }
    } else if |t| > 0 && t[0] == ')' {
      assert t[..0] == [];
    } else if |t| > 0 {
      assert forall j :: 1 <= j <= |t| ==> t[0] in t[..j];
    }
  }

  /** A `(` that is not closed before the next line feed (or the end of the
      answer) is kept verbatim, and scanning resumes right after it. */
  lemma UnclosedParenKept(t: string)
    requires FindClose(t) == None
    ensures StripParens("(" + t) == "(" + StripParens(t)
  {
  }

  /** Deleting spans never brings a `)` onto the line of an earlier unclosed
      `(`: removed spans hold no line feed, and every line feed is kept. */
  lemma {:induction false} StripKeepsUnclosed(t: string)
    requires FindClose(t) == None
    ensures FindClose(StripParens(t)) == None
    decreases |t|
  {
    if |t| == 0 {
    } else if t[0] == '\n' {
      assert StripParens(t) == [t[0]] + StripParens(t[1..]);
    } else {
      assert t[0] != ')';
      // FindClose(t) steps over t[0], so its tail cannot close either;
      // in particular a leading `(` is kept.
      assert FindClose(t[1..]) == None;
      StripKeepsUnclosed(t[1..]);
      var r := StripParens(t);
      assert r == [t[0]] + StripParens(t[1..]);
      assert r[1..] == StripParens(t[1..]);
    }
  }

  /** The result contains no `(` followed by a `)` on the same line: the
      pattern matches nowhere in it. */
  lemma {:induction false} StripLeavesNoClosedSpan(s: string)
    ensures NoClosedSpan(StripParens(s))
    decreases |s|
  {
    if |s| == 0 {
    } else if s[0] == '(' && FindClose(s[1..]).Some? {
      StripLeavesNoClosedSpan(s[FindClose(s[1..]).value + 2..]);
    } else {
      StripLeavesNoClosedSpan(s[1..]);
      if s[0] == '(' {
        StripKeepsUnclosed(s[1..]);
      }
      assert ([s[0]] + StripParens(s[1..]))[1..] == StripParens(s[1..]);
    }
  }

  /** NoClosedSpan says what its name promises: no `(` is followed by a `)`
      on the same line. */
  lemma NoClosedSpanIff(s: string)
    ensures NoClosedSpan(s) <==> NoParenPairOnOneLine(s)
  {
    if NoClosedSpan(s) {
      forall i, j | 0 <= i < j < |s| && s[i] == '(' && s[j] == ')'
        ensures '\n' in s[i + 1..j]
      {
        NoClosedSpanPair(s, i, j);
      }
    }
    if NoParenPairOnOneLine(s) {
      PairsGiveNoClosedSpan(s);
    }
  }

  lemma {:induction false} NoClosedSpanPair(s: string, i: nat, j: nat)
    requires NoClosedSpan(s)
    requires i < j < |s| && s[i] == '(' && s[j] == ')'
    ensures '\n' in s[i + 1..j]
    decreases i
  {
    var t := s[1..];
    if i == 0 {
      FindCloseNone(t);
      assert t[j - 1] == ')';
      assert t[..j - 1] == s[1..j];
    } else {
      NoClosedSpanPair(t, i - 1, j - 1);
      assert t[i..j - 1] == s[i + 1..j];
    }
  }

  lemma {:induction false} PairsGiveNoClosedSpan(s: string)
    requires NoParenPairOnOneLine(s)
    ensures NoClosedSpan(s)
    decreases |s|
  {
    if |s| > 0 {
      var t := s[1..];
      forall i, j | 0 <= i < j < |t| && t[i] == '(' && t[j] == ')'
        ensures '\n' in t[i + 1..j]
      {
        assert s[i + 1] == '(' && s[j + 1] == ')';
        assert t[i + 1..j] == s[i + 2..j + 1];
      }
      PairsGiveNoClosedSpan(t);
      if s[0] == '(' {
        FindCloseNone(t);
        forall j | 0 <= j < |t| && t[j] == ')'
          ensures '\n' in t[..j]
        {
          assert s[j + 1] == ')';
          assert t[..j] == s[1..j + 1];
        }
      }
    }
  }

  /** Where the pattern matches nowhere, the substitution changes nothing. */
  lemma {:induction false} NoClosedSpanUnchanged(s: string)
    requires NoClosedSpan(s)
    ensures StripParens(s) == s
    decreases |s|
  {
    if |s| > 0 {
      NoClosedSpanUnchanged(s[1..]);
      assert s == [s[0]] + s[1..];
    }
  }

  /** The substitution leaves an answer unchanged exactly when the pattern
      matches nowhere in it. */
  lemma FixedPointIff(s: string)
    ensures StripParens(s) == s <==> NoClosedSpan(s)
  {
    StripLeavesNoClosedSpan(s);
    if NoClosedSpan(s) {
      NoClosedSpanUnchanged(s);
    }
  }

  /** Applying the substitution twice is the same as applying it once. */
  lemma StripIdempotent(s: string)
    ensures StripParens(StripParens(s)) == StripParens(s)
  {
    StripLeavesNoClosedSpan(s);
    NoClosedSpanUnchanged(StripParens(s));
  }

  // ---------------------------------------------------------------------
  // Worked cases
  // ---------------------------------------------------------------------

  /** A line feed inside the parentheses stops the match: kept unchanged. */
  lemma NewlineStopsSpan()
    ensures StripParens("(a\nb)") == "(a\nb)"
  {
    var t := "a\nb)";
    assert t[..1] == "a" && t[1] == '\n' && t[3] == ')';
    assert FindClose(t) == None;
    UnclosedParenKept(t);
    NoParenUnchanged(t);
    assert "(" + t == "(a\nb)";
  }

  /** Spans do not nest: the inner `(` is swallowed and the text after the
      first `)` survives. */
  lemma SpansDoNotNest()
    ensures StripParens("(a(b)c)") == "c)"
  {
    SpanRemoved("a(b", "c)");
    NoParenUnchanged("c)");
    assert "(" + "a(b" + ")" + "c)" == "(a(b)c)";
  }

  /** A citation between two runs of plain text is cut out exactly: the
      text around it is kept as it is, and no whitespace is collapsed. */
  lemma CitationCut(p: string, m: string, rest: string)
    requires '(' !in p && '(' !in rest
    requires ')' !in m && '\n' !in m
    ensures StripParens(p + ("(" + m + ")" + rest)) == p + rest
  {
    PrefixWithoutParenKept(p, "(" + m + ")" + rest);
    SpanRemoved(m, rest);
    NoParenUnchanged(rest);
  }

  /** The example answer loses its parenthetical, and the space before it
      stays. */
  lemma CitationRemovedVerbatim()
    ensures StripParens("Newton was born (1642).") == "Newton was born ."
  {
    var p, m, rest := "Newton was born ", "1642", ".";
    var t := "(" + m + ")" + rest;
    assert t == "(1642).";
    var s := p + t;
    assert s == "Newton was born (1642).";
    CitationCut(p, m, rest);
    assert StripParens(s) == p + rest;
  }
}
