/** The two kinds of regular-expression substitution the renderer performs,
    written out for their fixed literal patterns:

      - `open.*?close` with DOTALL: each span from an `open` to the nearest
        `close` after it is replaced by a fixed text (`SubSpan`);
      - `tok\s*`: each `tok` is deleted together with the whitespace run
        that follows it (`DropSpaced`).

    Like `re.sub`, both scan left to right, resume right after a match and
    never rescan the text they insert. */
module Splice {
  import opened TextSearch

  /** Each span of `s` from an occurrence of `open` to the first occurrence
      of `close` that begins after it, both included, replaced by `rep`. */
  function SubSpan(s: string, open: string, close: string, rep: string): string
    requires |open| > 0
    decreases |s|
  {
    if |s| == 0 then ""
    else if open <= s then
      match FindFrom(s, close, |open|)
      case None => s
      case Some(j) => rep + SubSpan(s[j + |close|..], open, close, rep)
    else [s[0]] + SubSpan(s[1..], open, close, rep)
  }

  /** The characters Python's `\s` matches in a `str` pattern: those for
      which `str.isspace` holds. */
  predicate IsSpace(c: char) {
    var n := c as int;
    (0x09 <= n <= 0x0D) || (0x1C <= n <= 0x20) || n == 0x85 || n == 0xA0 ||
    n == 0x1680 || (0x2000 <= n <= 0x200A) || n == 0x2028 || n == 0x2029 ||
    n == 0x202F || n == 0x205F || n == 0x3000
  }

  /** `s` without its leading whitespace run: what a greedy `\s*` consumes
      is exactly the longest whitespace prefix. */
  function SkipSpace(s: string): (r: string)
    ensures |r| <= |s| && r == s[|s| - |r|..]
    ensures forall k :: 0 <= k < |s| - |r| ==> IsSpace(s[k])
    ensures r == [] || !IsSpace(r[0])
  {
    if |s| > 0 && IsSpace(s[0]) then SkipSpace(s[1..]) else s
  }

  /** Each occurrence of `tok`, left to right, deleted together with the
      whitespace run right after it. */
  function DropSpaced(s: string, tok: string): string
    requires |tok| > 0
    decreases |s|
  {
    if |s| == 0 then ""
    else if tok <= s then DropSpaced(SkipSpace(s[|tok|..]), tok)
    else [s[0]] + DropSpaced(s[1..], tok)
  }

  /** A prefix with no occurrence of `open` passes through `SubSpan` unchanged. */
  lemma {:induction false} SubSpanSkip(x: string, y: string, open: string, close: string, rep: string)
    requires |open| > 0 && NoneBefore(x + y, open, |x|)
    ensures SubSpan(x + y, open, close, rep) == x + SubSpan(y, open, close, rep)
    decreases |x|
  {
    if |x| > 0 {
      var s := x + y;
      PrefixIsOccurrence(s, open);
      assert s[1..] == x[1..] + y;
      forall i: nat | i < |x| - 1 ensures !OccursAt(x[1..] + y, open, i) {
        OccursShift(s, open, 1, i);
      }
      SubSpanSkip(x[1..], y, open, close, rep);
      assert s[0] == x[0];
      calc {
        SubSpan(s, open, close, rep);
        [x[0]] + (x[1..] + SubSpan(y, open, close, rep));
        { assert x == [x[0]] + x[1..]; }
        x + SubSpan(y, open, close, rep);
      }
    } else {
      assert x + y == y;
    }
  }

  /** A text without `open` is left unchanged. */
  lemma SubSpanNoOpen(s: string, open: string, close: string, rep: string)
    requires |open| > 0 && Find(s, open).None?
    ensures SubSpan(s, open, close, rep) == s
  {
    assert s + "" == s;
    SubSpanSkip(s, "", open, close, rep);
  }

  /** From an `open` at index `i` with no `close` after it, `SubSpan`
      leaves the rest of the text unchanged. */
  lemma SubSpanFrom(s: string, open: string, close: string, rep: string, i: nat)
    requires |open| > 0 && OccursAt(s, open, i) && FindFrom(s, close, i + |open|).None?
    ensures SubSpan(s[i..], open, close, rep) == s[i..]
  {
    OccursShift(s, open, i, 0);
    PrefixIsOccurrence(s[i..], open);
    FindNoneInSuffix(s, close, i, |open|);
  }

  /** The span from the `open` at index `i` to the first `close` after it
      (index `j`) becomes `rep`, and the scan resumes after it. */
  lemma SubSpanAt(s: string, open: string, close: string, rep: string, i: nat, j: nat)
    requires |open| > 0 && OccursAt(s, open, i) && FindFrom(s, close, i + |open|) == Some(j)
    ensures SubSpan(s[i..], open, close, rep) == rep + SubSpan(s[j + |close|..], open, close, rep)
  {
    var t, u, k := s[i..], s[i + |open|..], j - i - |open|;
    FindInSuffix(s, close, i + |open|, j);
    calc {
      SubSpan(t, open, close, rep);
      { assert t[..|open|] == s[i..i + |open|] && t[|open|..] == u;
        assert t == t[..|open|] + t[|open|..]; }
      SubSpan(open + u, open, close, rep);
      { SubSpanOpening(u, open, close, rep, k); }
      rep + SubSpan(u[k + |close|..], open, close, rep);
      { assert u[k + |close|..] == s[j + |close|..]; }
      rep + SubSpan(s[j + |close|..], open, close, rep);
    }
  }

  /** A text that opens with `open` has its first span closed by the first
      `close` after that `open`. */
  lemma SubSpanOpening(t: string, open: string, close: string, rep: string, k: nat)
    requires |open| > 0 && FindFrom(t, close, 0) == Some(k)
    ensures SubSpan(open + t, open, close, rep) == rep + SubSpan(t[k + |close|..], open, close, rep)
  {
    var y := open + t;
    assert y[|open|..] == t;
    FindFromSuffix(y, close, |open|, k);
    assert open <= y;
    assert y[|open| + k + |close|..] == t[k + |close|..];
  }

  /** Everything before the first `open` (index `i`) is kept as it is. */
  lemma SubSpanBeforeFirst(s: string, open: string, close: string, rep: string, i: nat)
    requires |open| > 0 && Find(s, open) == Some(i)
    ensures SubSpan(s, open, close, rep) == s[..i] + SubSpan(s[i..], open, close, rep)
  {
    var x, y := s[..i], s[i..];
    assert x + y == s;
    assert NoneBefore(x + y, open, |x|);
    SubSpanSkip(x, y, open, close, rep);
  }

  /** When the first `open` has no `close` after it, no span matches and
      the text is left unchanged. */
  lemma SubSpanUnclosed(s: string, open: string, close: string, rep: string, i: nat)
    requires |open| > 0 && Find(s, open) == Some(i) && FindFrom(s, close, i + |open|).None?
    ensures SubSpan(s, open, close, rep) == s
  {
    SubSpanBeforeFirst(s, open, close, rep, i);
    SubSpanFrom(s, open, close, rep, i);
    assert s[..i] + s[i..] == s;
  }

  /** The first match runs from the first `open` (index `i`) to the first
      `close` after it (index `j`): the text before it is kept byte for
      byte, the span becomes `rep`, and the scan resumes after the span. */
  lemma SubSpanFirstMatch(s: string, open: string, close: string, rep: string, i: nat, j: nat)
    requires |open| > 0 && Find(s, open) == Some(i) && FindFrom(s, close, i + |open|) == Some(j)
    ensures SubSpan(s, open, close, rep) == s[..i] + rep + SubSpan(s[j + |close|..], open, close, rep)
  {
    var rest := SubSpan(s[j + |close|..], open, close, rep);
    SubSpanBeforeFirst(s, open, close, rep, i);
    SubSpanAt(s, open, close, rep, i, j);
    ConcatAssoc(s[..i], rep, rest);
  }

  /** A prefix with no occurrence of `tok` passes through `DropSpaced` unchanged. */
  lemma {:induction false} DropSpacedSkip(x: string, y: string, tok: string)
    requires |tok| > 0 && NoneBefore(x + y, tok, |x|)
    ensures DropSpaced(x + y, tok) == x + DropSpaced(y, tok)
    decreases |x|
  {
    if |x| > 0 {
      var s := x + y;
      PrefixIsOccurrence(s, tok);
      assert s[1..] == x[1..] + y;
      forall i: nat | i < |x| - 1 ensures !OccursAt(x[1..] + y, tok, i) {
        OccursShift(s, tok, 1, i);
      }
      DropSpacedSkip(x[1..], y, tok);
      assert s[0] == x[0];
      calc {
        DropSpaced(s, tok);
        [x[0]] + (x[1..] + DropSpaced(y, tok));
        { assert x == [x[0]] + x[1..]; }
        x + DropSpaced(y, tok);
      }
    } else {
      assert x + y == y;
    }
  }

  /** A text without `tok` is left unchanged. */
  lemma DropSpacedFree(s: string, tok: string)
    requires |tok| > 0 && Free(s, tok)
    ensures DropSpaced(s, tok) == s
  {
    assert s + "" == s;
    DropSpacedSkip(s, "", tok);
  }

  /** The first `tok` (index `i`) and the whole whitespace run after it are
      deleted; the text before it is kept and the scan resumes at the first
      character that is not whitespace. */
  lemma DropSpacedFirstMatch(s: string, tok: string, i: nat)
    requires |tok| > 0 && Find(s, tok) == Some(i)
    ensures DropSpaced(s, tok) == s[..i] + DropSpaced(SkipSpace(s[i + |tok|..]), tok)
  {
    var x, y := s[..i], s[i..];
    assert s == x + y;
    assert y[|tok|..] == s[i + |tok|..];
    calc {
      DropSpaced(s, tok);
      { DropSpacedSkip(x, y, tok); }
      x + DropSpaced(y, tok);
      { OccursShift(s, tok, i, 0); PrefixIsOccurrence(y, tok); }
      x + DropSpaced(SkipSpace(s[i + |tok|..]), tok);
    }
  }
}
