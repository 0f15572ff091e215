/** Literal substring search and replacement over strings, the way Python's
    `str.replace` and `re.sub` with a fixed literal pattern perform them:
    one left-to-right pass over non-overlapping occurrences, never rescanning
    the text that has been inserted. */
module TextSearch {

  datatype Option<T> = None | Some(value: T)

  /** `pat` occurs in `s` starting at index `i`. */
  predicate OccursAt(s: string, pat: string, i: nat) {
    i + |pat| <= |s| && s[i..i + |pat|] == pat
  }

  /** `s` ends with `pat`. */
  predicate EndsWith(s: string, pat: string) {
    |pat| <= |s| && s[|s| - |pat|..] == pat
  }

  /** No occurrence of `pat` in `s` starts before index `n`. */
  predicate NoneBefore(s: string, pat: string, n: nat) {
    forall i: nat :: i < n ==> !OccursAt(s, pat, i)
  }

  /** `pat` occurs nowhere in `s`. */
  predicate Free(s: string, pat: string) {
    NoneBefore(s, pat, |s|)
  }

  /** No occurrence of `pat` in `x + y` starts inside `x` and ends inside `y`. */
  predicate NoStraddle(x: string, y: string, pat: string) {
    forall i: nat :: i < |x| < i + |pat| ==> !OccursAt(x + y, pat, i)
  }

  /** The first index at or after `from` where `pat` occurs in `s`. */
  function FindFrom(s: string, pat: string, from: nat): (r: Option<nat>)
    decreases |s| - from
    ensures r.Some? ==> from <= r.value && OccursAt(s, pat, r.value)
    ensures r.Some? ==> forall j: nat :: from <= j < r.value ==> !OccursAt(s, pat, j)
    ensures r.None? ==> forall j: nat :: from <= j ==> !OccursAt(s, pat, j)
  {
    if |s| < from + |pat| then None
    else if OccursAt(s, pat, from) then Some(from)
    else FindFrom(s, pat, from + 1)
  }

  /** The first index where `pat` occurs in `s`. */
  function Find(s: string, pat: string): Option<nat> {
    FindFrom(s, pat, 0)
  }

  /** Every occurrence of `pat` in `s`, left to right and without overlap,
      replaced by `rep`; the text after an occurrence is scanned next, `rep`
      never is. */
  function ReplaceAll(s: string, pat: string, rep: string): string
    requires |pat| > 0
    decreases |s|
  {
    if |s| == 0 then ""
    else if pat <= s then rep + ReplaceAll(s[|pat|..], pat, rep)
    else [s[0]] + ReplaceAll(s[1..], pat, rep)
  }

  /** The pieces of `s` between its leftmost non-overlapping occurrences
      of `pat`; `Join` with `pat` puts them back together. */
  function Split(s: string, pat: string): (parts: seq<string>)
    requires |pat| > 0
    decreases |s|
    ensures |parts| >= 1
    ensures Free(parts[|parts| - 1], pat)
    ensures forall k :: 0 <= k < |parts| - 1 ==> NoneBefore(parts[k] + pat, pat, |parts[k]|)
  {
    match Find(s, pat)
    case None => [s]
    case Some(i) =>
      var rest := Split(s[i + |pat|..], pat);
      FirstPieceBeforePattern(s, pat, i);
      [s[..i]] + rest
  }

  /** The piece before a first occurrence, followed by the pattern, has its
      first occurrence right after the piece. */
  lemma FirstPieceBeforePattern(s: string, pat: string, i: nat)
    requires Find(s, pat) == Some(i)
    ensures NoneBefore(s[..i] + pat, pat, i)
  {
    var p := s[..i + |pat|];
    assert s[..i] + pat == p;
    assert p + s[i + |pat|..] == s;
    forall j: nat | j < i ensures !OccursAt(p, pat, j) {
      OccursInPrefix(p, s[i + |pat|..], pat, j);
    }
  }

  /** The pieces joined back together, with `sep` between neighbours. */
  function Join(parts: seq<string>, sep: string): string {
    if |parts| == 0 then ""
    else if |parts| == 1 then parts[0]
    else parts[0] + sep + Join(parts[1..], sep)
  }

  /** An occurrence that fits inside `x` is the same in `x` and in `x + y`. */
  lemma OccursInPrefix(x: string, y: string, pat: string, i: nat)
    requires i + |pat| <= |x|
    ensures OccursAt(x + y, pat, i) <==> OccursAt(x, pat, i)
  {
    assert (x + y)[i..i + |pat|] == x[i..i + |pat|];
  }

  /** Regrouping a concatenation, stated over plain parameters so that a
      caller's slices and literals stay opaque terms to the solver. */
  lemma ConcatAssoc(a: string, b: string, c: string)
    ensures a + (b + c) == a + b + c
  {
  }

  /** A prefix is an occurrence at index 0. */
  lemma PrefixIsOccurrence(s: string, pat: string)
    ensures pat <= s <==> OccursAt(s, pat, 0)
  {
    if |pat| <= |s| {
      assert s[0..|pat|] == s[..|pat|];
    }
  }

  /** Occurrences in a suffix are occurrences in the whole, shifted by `k`. */
  lemma OccursShift(s: string, pat: string, k: nat, i: nat)
    requires k <= |s|
    ensures OccursAt(s[k..], pat, i) <==> OccursAt(s, pat, k + i)
  {
    if i + |pat| <= |s| - k {
      assert s[k..][i..i + |pat|] == s[k + i..k + i + |pat|];
    }
  }

  /** No occurrence at or after `k + from` means none in the suffix from
      `k` at or after `from`. */
  lemma FindNoneInSuffix(s: string, pat: string, k: nat, from: nat)
    requires k <= |s| && FindFrom(s, pat, k + from).None?
    ensures FindFrom(s[k..], pat, from).None?
  {
    var r := FindFrom(s[k..], pat, from);
    if r.Some? {
      OccursShift(s, pat, k, r.value);
    }
  }

  /** The first occurrence at or after `k` is the first one in the suffix
      from `k`, shifted. */
  lemma FindInSuffix(s: string, pat: string, k: nat, j: nat)
    requires k <= |s| && FindFrom(s, pat, k) == Some(j)
    ensures FindFrom(s[k..], pat, 0) == Some(j - k)
  {
    OccursShift(s, pat, k, j - k);
    forall i: nat | i < j - k ensures !OccursAt(s[k..], pat, i) {
      OccursShift(s, pat, k, i);
    }
    FindFromIs(s[k..], pat, 0, j - k);
  }

  /** The first occurrence in the suffix from `k`, shifted, is the first
      one at or after `k`. */
  lemma FindFromSuffix(s: string, pat: string, k: nat, j: nat)
    requires k <= |s| && FindFrom(s[k..], pat, 0) == Some(j)
    ensures FindFrom(s, pat, k) == Some(k + j)
  {
    OccursShift(s, pat, k, j);
    forall i: nat | k <= i < k + j ensures !OccursAt(s, pat, i) {
      OccursShift(s, pat, k, i - k);
    }
    FindFromIs(s, pat, k, k + j);
  }

  /** When `x` holds no occurrence and none straddles into `y`, the first
      `|x|` positions of `x + y` hold no occurrence. */
  lemma NoneBeforeConcat(x: string, y: string, pat: string)
    requires Free(x, pat) && NoStraddle(x, y, pat)
    ensures NoneBefore(x + y, pat, |x|)
  {
    forall i: nat | i < |x| ensures !OccursAt(x + y, pat, i) {
      if i + |pat| <= |x| {
        OccursInPrefix(x, y, pat, i);
      }
    }
  }

  /** Concatenating two pieces free of `pat` with no straddling occurrence
      gives a string free of `pat`. */
  lemma FreeConcat(x: string, y: string, pat: string)
    requires Free(x, pat) && Free(y, pat) && NoStraddle(x, y, pat)
    ensures Free(x + y, pat)
  {
    NoneBeforeConcat(x, y, pat);
    forall i: nat | |x| <= i < |x + y| ensures !OccursAt(x + y, pat, i) {
      assert (x + y)[|x|..] == y;
      OccursShift(x + y, pat, |x|, i - |x|);
    }
  }

  /** Replacement leaves a prefix without occurrences untouched. */
  lemma {:induction false} ReplaceAllSkip(x: string, y: string, pat: string, rep: string)
    requires |pat| > 0 && NoneBefore(x + y, pat, |x|)
    ensures ReplaceAll(x + y, pat, rep) == x + ReplaceAll(y, pat, rep)
    decreases |x|
  {
    if |x| > 0 {
      var s := x + y;
      PrefixIsOccurrence(s, pat);
      assert s[1..] == x[1..] + y;
      forall i: nat | i < |x| - 1 ensures !OccursAt(x[1..] + y, pat, i) {
        OccursShift(s, pat, 1, i);
      }
      ReplaceAllSkip(x[1..], y, pat, rep);
      assert s[0] == x[0];
      calc {
        ReplaceAll(s, pat, rep);
        [s[0]] + ReplaceAll(x[1..] + y, pat, rep);
        [x[0]] + (x[1..] + ReplaceAll(y, pat, rep));
        { assert x == [x[0]] + x[1..]; }
        x + ReplaceAll(y, pat, rep);
      }
    } else {
      assert x + y == y;
    }
  }

  /** A string without occurrences of `pat` comes out of the replacement
      unchanged. */
  lemma ReplaceAllFree(s: string, pat: string, rep: string)
    requires |pat| > 0 && Free(s, pat)
    ensures ReplaceAll(s, pat, rep) == s
  {
    assert s + "" == s;
    ReplaceAllSkip(s, "", pat, rep);
  }

  /** Replacement is splitting at the leftmost non-overlapping occurrences
      and joining the pieces with `rep`: literal, and never recursive. */
  lemma {:induction false} ReplaceAllIsSplitJoin(s: string, pat: string, rep: string)
    requires |pat| > 0
    ensures ReplaceAll(s, pat, rep) == Join(Split(s, pat), rep)
    decreases |s|
  {
    match Find(s, pat)
    case None =>
      ReplaceAllFree(s, pat, rep);
    case Some(i) =>
      var tail := s[i + |pat|..];
      var parts := Split(tail, pat);
      assert Split(s, pat) == [s[..i]] + parts;
      calc {
        ReplaceAll(s, pat, rep);
        { ReplaceAllFirst(s, pat, rep, i); }
        s[..i] + (rep + ReplaceAll(tail, pat, rep));
        { ReplaceAllIsSplitJoin(tail, pat, rep); }
        s[..i] + (rep + Join(parts, rep));
        { JoinCons(s[..i], parts, rep); }
        Join([s[..i]] + parts, rep);
      }
  }

  /** The first occurrence (index `i`) is replaced, the text before it is
      kept, and the replacement resumes after it. */
  lemma ReplaceAllFirst(s: string, pat: string, rep: string, i: nat)
    requires |pat| > 0 && Find(s, pat) == Some(i)
    ensures ReplaceAll(s, pat, rep) == s[..i] + (rep + ReplaceAll(s[i + |pat|..], pat, rep))
  {
    assert s == s[..i] + s[i..];
    ReplaceAllSkip(s[..i], s[i..], pat, rep);
    OccursShift(s, pat, i, 0);
    PrefixIsOccurrence(s[i..], pat);
    assert s[i..][|pat|..] == s[i + |pat|..];
  }

  lemma JoinCons(p: string, parts: seq<string>, sep: string)
    requires |parts| >= 1
    ensures Join([p] + parts, sep) == p + (sep + Join(parts, sep))
  {
    assert ([p] + parts)[1..] == parts;
  }

  /** Joining the pieces of a split with the pattern itself gives the
      original string back. */
  lemma {:induction false} SplitJoinRoundTrip(s: string, pat: string)
    requires |pat| > 0
    ensures Join(Split(s, pat), pat) == s
    decreases |s|
  {
    match Find(s, pat)
    case None =>
    case Some(i) =>
      var tail := s[i + |pat|..];
      var rest := Split(tail, pat);
      assert Split(s, pat) == [s[..i]] + rest;
      SplitJoinRoundTrip(tail, pat);
      JoinCons(s[..i], rest, pat);
      OccurrenceSplits(s, pat, i);
  }

  /** An occurrence cuts `s` into the text before it, the pattern, and the
      text after it. */
  lemma OccurrenceSplits(s: string, pat: string, i: nat)
    requires OccursAt(s, pat, i)
    ensures s == s[..i] + (pat + s[i + |pat|..])
  {
    assert s[..i + |pat|] == s[..i] + pat;
    assert s == s[..i + |pat|] + s[i + |pat|..];
  }

  /** Replacement distributes over a concatenation when no occurrence
      straddles the seam. */
  lemma {:induction false} ReplaceAllConcat(x: string, y: string, pat: string, rep: string)
    requires |pat| > 0 && NoStraddle(x, y, pat)
    ensures ReplaceAll(x + y, pat, rep) == ReplaceAll(x, pat, rep) + ReplaceAll(y, pat, rep)
    decreases |x|
  {
    if |x| > 0 {
      var s := x + y;
      PrefixIsOccurrence(s, pat);
      PrefixIsOccurrence(x, pat);
      var k := if pat <= s then |pat| else 1;
      if pat <= s {
        OccursInPrefix(x, y, pat, 0);
      } else if |pat| <= |x| {
        OccursInPrefix(x, y, pat, 0);
      }
      var head := if pat <= s then rep else [x[0]];
      NoStraddleSuffix(x, y, pat, k);
      ReplaceAllConcat(x[k..], y, pat, rep);
      calc {
        ReplaceAll(s, pat, rep);
        head + ReplaceAll(x[k..] + y, pat, rep);
        head + (ReplaceAll(x[k..], pat, rep) + ReplaceAll(y, pat, rep));
        (head + ReplaceAll(x[k..], pat, rep)) + ReplaceAll(y, pat, rep);
        { assert ReplaceAll(x, pat, rep) == head + ReplaceAll(x[k..], pat, rep); }
        ReplaceAll(x, pat, rep) + ReplaceAll(y, pat, rep);
      }
    } else {
      assert x + y == y;
    }
  }

  /** Dropping the first `k` characters of `x` keeps the seam free of
      straddling occurrences. */
  lemma NoStraddleSuffix(x: string, y: string, pat: string, k: nat)
    requires k <= |x| && NoStraddle(x, y, pat)
    ensures (x + y)[k..] == x[k..] + y
    ensures NoStraddle(x[k..], y, pat)
  {
    var s := x + y;
    assert s[k..] == x[k..] + y;
    forall i: nat | i < |x| - k < i + |pat| ensures !OccursAt(x[k..] + y, pat, i) {
      OccursShift(s, pat, k, i);
    }
  }

  /** A first occurrence is what `FindFrom` returns. */
  lemma FindFromIs(s: string, pat: string, from: nat, i: nat)
    requires from <= i && OccursAt(s, pat, i) && forall j: nat :: from <= j < i ==> !OccursAt(s, pat, j)
    ensures FindFrom(s, pat, from) == Some(i)
  {
  }

  // Marker-level reasoning: when can an occurrence of `pat` run into or out
  // of a copy of the fixed string `m`?

  /** No occurrence of `pat` can begin before a copy of `m` and cover its
      first character. */
  predicate EntrySafe(pat: string, m: string) {
    |m| >= 2 && forall k :: 0 < k < |pat| && pat[k] == m[0] ==> k + 1 < |pat| && pat[k + 1] != m[1]
  }

  /** No occurrence of `pat` can cover the last character of a copy of `m`
      and continue past it. */
  predicate ExitSafe(m: string, pat: string) {
    |m| >= 2 && forall k :: 0 <= k < |pat| - 1 && pat[k] == m[|m| - 1] ==> 0 < k && pat[k - 1] != m[|m| - 2]
  }

  lemma EntryNoStraddle(x: string, m: string, z: string, pat: string)
    requires EntrySafe(pat, m)
    ensures NoStraddle(x, m + z, pat)
  {
    var s := x + (m + z);
    forall i: nat | i < |x| < i + |pat| ensures !OccursAt(s, pat, i) {
      if i + |pat| <= |s| {
        var w, k := s[i..i + |pat|], |x| - i;
        assert w[k] == s[|x|] == m[0];
        if pat[k] == m[0] {
          assert w[k + 1] == s[|x| + 1] == m[1];
        }
      }
    }
  }

  lemma ExitNoStraddle(x: string, m: string, z: string, pat: string)
    requires ExitSafe(m, pat)
    ensures NoStraddle(x + m, z, pat)
  {
    var s := x + m + z;
    forall i: nat | i < |x + m| < i + |pat| ensures !OccursAt(s, pat, i) {
      if i + |pat| <= |s| {
        var last := |x| + |m| - 1;
        var w, k := s[i..i + |pat|], last - i;
        assert w[k] == s[last] == m[|m| - 1];
        if pat[k] == m[|m| - 1] {
          assert w[k - 1] == s[last - 1] == m[|m| - 2];
        }
      }
    }
  }

  /** A witness that `pat` never occurs in `s`: wherever `s` has the first
      character of `pat`, the character `d` places later differs. */
  predicate FreeWitness(s: string, pat: string, d: nat) {
    d < |pat| && forall k :: 0 <= k < |s| && k + d < |s| ==> s[k] != pat[0] || s[k + d] != pat[d]
  }

  lemma FreeByWitness(s: string, pat: string, d: nat)
    requires FreeWitness(s, pat, d)
    ensures Free(s, pat)
  {
    forall i: nat | i < |s| ensures !OccursAt(s, pat, i) {
      if i + |pat| <= |s| {
        var w := s[i..i + |pat|];
        assert w[0] == s[i] && w[d] == s[i + d];
      }
    }
  }

  /** The first `|x| + |m| + n` positions of `x + (m + z)` hold no
      occurrence of `pat` when `x` and `m` hold none, `pat` can neither run
      into nor out of `m`, and the first `n` positions of `z` hold none. */
  lemma NoneBeforeAcross(x: string, m: string, z: string, pat: string, n: nat)
    requires Free(x, pat) && Free(m, pat) && EntrySafe(pat, m) && ExitSafe(m, pat)
    requires NoneBefore(z, pat, n)
    ensures NoneBefore(x + (m + z), pat, |x| + |m| + n)
  {
    var s := x + (m + z);
    assert s == x + m + z;
    EntryNoStraddle(x, m, z, pat);
    NoneBeforeConcat(x, m + z, pat);
    ExitNoStraddle(x, m, z, pat);
    forall i: nat | |x| <= i < |x| + |m| + n ensures !OccursAt(s, pat, i) {
      if i < |x| + |m| && i + |pat| <= |x| + |m| {
        assert (x + m)[|x|..] == m;
        OccursInPrefix(x + m, z, pat, i);
        OccursShift(x + m, pat, |x|, i - |x|);
      } else if |x| + |m| <= i {
        assert s[|x| + |m|..] == z;
        OccursShift(s, pat, |x| + |m|, i - |x| - |m|);
      }
    }
  }

  /** A string free of `pat` stays free of it when a copy of the fixed
      string `m` is placed between two such strings, provided `pat` can
      neither run into nor out of `m`. */
  lemma FreeAcross(x: string, m: string, z: string, pat: string)
    requires Free(x, pat) && Free(m, pat) && Free(z, pat)
    requires EntrySafe(pat, m) && ExitSafe(m, pat)
    ensures Free(x + (m + z), pat)
  {
    NoneBeforeAcross(x, m, z, pat, |z|);
  }

  /** An occurrence in `z` is an occurrence in `x + (m + z)`, shifted. */
  lemma OccursAfter(x: string, m: string, z: string, pat: string, k: nat)
    requires OccursAt(z, pat, k)
    ensures OccursAt(x + (m + z), pat, |x| + |m| + k)
  {
    var s := x + (m + z);
    assert s[|x| + |m|..] == z;
    OccursShift(s, pat, |x| + |m|, k);
  }

  /** The first occurrence in `z` is the first in `x m z` when neither `x`
      nor the fixed string `m` holds one and none can cross `m`'s edges. */
  lemma FindAcross(x: string, m: string, z: string, pat: string, k: nat)
    requires Free(x, pat) && Free(m, pat) && EntrySafe(pat, m) && ExitSafe(m, pat)
    requires FindFrom(z, pat, 0) == Some(k)
    ensures FindFrom(x + (m + z), pat, 0) == Some(|x| + |m| + k)
  {
    NoneBeforeAcross(x, m, z, pat, k);
    OccursAfter(x, m, z, pat, k);
    FindFromIs(x + (m + z), pat, 0, |x| + |m| + k);
  }

  /** Replacement passes a copy of the fixed string `m` through untouched
      and works on each side of it separately. */
  lemma ReplaceAcross(x: string, m: string, z: string, pat: string, rep: string)
    requires |pat| > 0 && Free(m, pat) && EntrySafe(pat, m) && ExitSafe(m, pat)
    ensures ReplaceAll(x + (m + z), pat, rep) == ReplaceAll(x, pat, rep) + (m + ReplaceAll(z, pat, rep))
  {
    EntryNoStraddle(x, m, z, pat);
    ReplaceAllConcat(x, m + z, pat, rep);
    ExitNoStraddle("", m, z, pat);
    assert "" + m == m;
    ReplaceAllConcat(m, z, pat, rep);
    ReplaceAllFree(m, pat, rep);
  }

  /** A string free of `pat` has no first occurrence of it. */
  lemma FindFree(s: string, pat: string, from: nat)
    requires |pat| > 0 && Free(s, pat)
    ensures FindFrom(s, pat, from).None?
  {
  }
}
