/** The JavaScript string and array built-ins the report code uses: `indexOf` (as used by
    `replace`), `lastIndexOf` of one character, `replace` with a string pattern, `Array.join`
    and `split` on a one-character separator. */
module Strings {
  import opened Wrappers

  /** `pat` occurs in `s` starting at index `i`. */
  predicate OccursAt(s: string, pat: string, i: nat) {
    i + |pat| <= |s| && s[i..i + |pat|] == pat
  }

  ghost predicate Contains(s: string, pat: string) {
    exists i: nat :: OccursAt(s, pat, i)
  }

  /** `i` is where `pat` occurs first in `s`. */
  ghost predicate IsFirstOccurrence(s: string, pat: string, i: nat) {
    OccursAt(s, pat, i) && forall j: nat :: j < i ==> !OccursAt(s, pat, j)
  }

  /** `r` is a suffix of `s`. */
  predicate IsSuffix(r: string, s: string) {
    |r| <= |s| && s[|s| - |r|..] == r
  }

  /** `s.indexOf(pat, from)`, with `None` for JavaScript's -1. */
  function IndexOfFrom(s: string, pat: string, from: nat): (r: Option<nat>)
    ensures r.Some? ==> from <= r.value && OccursAt(s, pat, r.value)
    ensures forall j: nat :: from <= j && (r.None? || j < r.value) ==> !OccursAt(s, pat, j)
    decreases |s| - from
  {
    if |s| < from + |pat| then None
    else if s[from..from + |pat|] == pat then Some(from)
    else IndexOfFrom(s, pat, from + 1)
  }

  /** `s.indexOf(pat)`: the first occurrence, or `None` exactly when there is none. */
  function IndexOf(s: string, pat: string): (r: Option<nat>)
    ensures r.None? <==> !Contains(s, pat)
    ensures r.Some? ==> IsFirstOccurrence(s, pat, r.value)
  {
    IndexOfFrom(s, pat, 0)
  }

  /** `s.lastIndexOf(c)`: the index of the last `c`, or -1 when `s` has none. */
  function LastIndexOf(s: string, c: char): (r: int)
    ensures -1 <= r < |s|
    ensures r >= 0 ==> s[r] == c
    ensures forall k :: r < k < |s| ==> s[k] != c
  {
    if |s| == 0 then -1
    else if s[|s| - 1] == c then |s| - 1
    else LastIndexOf(s[..|s| - 1], c)
  }

  /** The replacement text of a string-pattern `replace` (GetSubstitution with no capture groups):
      `$$` is `$`, `$&` the matched text, `` $` `` the text before the match, `$'` the text after
      it; any other `$` stays as it is. The expansion invents no character: each one comes from the
      replacement, the match or the text around it. */
  function Substitute(repl: string, matched: string, before: string, after: string): (r: string)
    ensures forall ch :: ch in r ==> ch in repl || ch in matched || ch in before || ch in after
    decreases |repl|
  {
    if |repl| == 0 then ""
    else if repl[0] == '$' && 2 <= |repl| && repl[1] == '$' then
      "$" + Substitute(repl[2..], matched, before, after)
    else if repl[0] == '$' && 2 <= |repl| && repl[1] == '&' then
      matched + Substitute(repl[2..], matched, before, after)
    else if repl[0] == '$' && 2 <= |repl| && repl[1] == '`' then
      before + Substitute(repl[2..], matched, before, after)
    else if repl[0] == '$' && 2 <= |repl| && repl[1] == '\'' then
      after + Substitute(repl[2..], matched, before, after)
    else
      [repl[0]] + Substitute(repl[1..], matched, before, after)
  }

  /** A `$`-free prefix of the replacement is copied through unchanged. */
  lemma {:induction false} SubstitutePlainPrefix(a: string, rest: string, matched: string, before: string, after: string)
    requires '$' !in a
    ensures Substitute(a + rest, matched, before, after) == a + Substitute(rest, matched, before, after)
    decreases |a|
  {
    if |a| == 0 {
      assert a + rest == rest;
    } else {
      assert (a + rest)[0] == a[0];
      assert (a + rest)[1..] == a[1..] + rest;
      SubstitutePlainPrefix(a[1..], rest, matched, before, after);
    }
  }

  /** A replacement with no `$` is inserted literally. */
  lemma {:induction false} SubstituteLiteral(repl: string, matched: string, before: string, after: string)
    requires '$' !in repl
    ensures Substitute(repl, matched, before, after) == repl
  {
    SubstitutePlainPrefix(repl, "", matched, before, after);
    assert repl + "" == repl;
  }

  /** A `$&` in an otherwise `$`-free replacement inserts the matched text in its place. */
  lemma {:induction false} SubstituteMatchPattern(a: string, b: string, matched: string, before: string, after: string)
    requires '$' !in a && '$' !in b
    ensures Substitute(a + "$&" + b, matched, before, after) == a + matched + b
  {
    SubstitutePlainPrefix(a, "$&" + b, matched, before, after);
    assert a + "$&" + b == a + ("$&" + b);
    assert ("$&" + b)[2..] == b;
    SubstituteLiteral(b, matched, before, after);
  }

  /** `s.replace(pat, repl)` with a string pattern: only the first occurrence is replaced, the text
      around it is kept, and a missing pattern leaves `s` unchanged. */
  function ReplaceFirst(s: string, pat: string, repl: string): (r: string)
    ensures !Contains(s, pat) ==> r == s
    ensures forall i: nat {:trigger IsFirstOccurrence(s, pat, i)} :: IsFirstOccurrence(s, pat, i) ==>
      r == s[..i] + Substitute(repl, pat, s[..i], s[i + |pat|..]) + s[i + |pat|..]
  {
    match IndexOf(s, pat)
    case None => s
    case Some(i) => s[..i] + Substitute(repl, pat, s[..i], s[i + |pat|..]) + s[i + |pat|..]
  }

  /** If `pat` starts with a character found nowhere else in it and does not occur in `a`, its
      first occurrence in `a + pat + b` is right after `a`: no occurrence straddles the seam. */
  lemma {:induction false} FirstOccurrenceAfter(a: string, pat: string, b: string)
    requires 1 <= |pat| && pat[0] !in pat[1..]
    requires !Contains(a, pat)
    ensures IsFirstOccurrence(a + pat + b, pat, |a|)
  {
    var s := a + pat + b;
    assert s[|a|..|a| + |pat|] == pat;
    forall j: nat | j < |a|
      ensures !OccursAt(s, pat, j)
    {
      if j + |pat| <= |a| {
        assert !OccursAt(a, pat, j);
        assert a[j..j + |pat|] == s[j..j + |pat|];
      } else if j + |pat| <= |s| {
        var k := |a| - j;
        assert s[j..j + |pat|][k] == s[|a|] == pat[0];
        assert pat[1..][k - 1] == pat[k];
        assert pat[k] != pat[0];
      }
    }
  }

  /** Replacing in `a + pat + b`, when the first occurrence is right after `a`: the expanded
      replacement goes between `a` and `b`. */
  lemma {:induction false} ReplaceFirstAfter(a: string, pat: string, b: string, repl: string)
    requires 1 <= |pat| && pat[0] !in pat[1..]
    requires !Contains(a, pat)
    ensures ReplaceFirst(a + pat + b, pat, repl) == a + Substitute(repl, pat, a, b) + b
  {
    var s := a + pat + b;
    FirstOccurrenceAfter(a, pat, b);
    assert s[..|a|] == a;
    assert s[|a| + |pat|..] == b;
  }

  /** Replacing in `a + pat + b`, when the first occurrence is right after `a` and `repl` has no
      `$`, gives `a + repl + b`. */
  lemma {:induction false} ReplaceFirstAt(a: string, pat: string, b: string, repl: string)
    requires 1 <= |pat| && pat[0] !in pat[1..]
    requires !Contains(a, pat)
    requires '$' !in repl
    ensures ReplaceFirst(a + pat + b, pat, repl) == a + repl + b
  {
    ReplaceFirstAfter(a, pat, b, repl);
    SubstituteLiteral(repl, pat, a, b);
  }

  /** Regrouping a five-part concatenation, kept apart from `ReplaceFirst` so that the solver sees
      only the concatenations. */
  lemma {:induction false} Regroup(p: string, a: string, m: string, b: string, s: string)
    ensures p + (a + m + b) + s == p + a + m + b + s
  {
  }

  /** The summed length of the pieces. */
  function TotalLength(parts: seq<string>): nat {
    if |parts| == 0 then 0 else |parts[0]| + TotalLength(parts[1..])
  }

  /** `parts.join(sep)`: it starts with the first piece. */
  function Join(parts: seq<string>, sep: string): (r: string)
    ensures 1 <= |parts| ==> parts[0] <= r
  {
    if |parts| == 0 then ""
    else if |parts| == 1 then parts[0]
    else parts[0] + sep + Join(parts[1..], sep)
  }

  /** A join is as long as its pieces plus one separator between each two neighbours: nothing is
      added or dropped. */
  lemma {:induction false} JoinLength(parts: seq<string>, sep: string)
    ensures |Join(parts, sep)| == TotalLength(parts) + (if |parts| == 0 then 0 else (|parts| - 1) * |sep|)
    decreases |parts|
  {
    if |parts| >= 2 {
      JoinLength(parts[1..], sep);
      assert (|parts| - 1) * |sep| == |sep| + (|parts| - 2) * |sep|;
    }
  }

  /** Joining a list of two or more splits off its last element after the final separator. */
  lemma {:induction false} JoinLast(parts: seq<string>, sep: string)
    requires 2 <= |parts|
    ensures Join(parts, sep) == Join(parts[..|parts| - 1], sep) + sep + parts[|parts| - 1]
    decreases |parts|
  {
    if |parts| > 2 {
      JoinLast(parts[1..], sep);
      assert parts[1..][..|parts| - 2] == parts[..|parts| - 1][1..];
    }
  }

  /** `s.indexOf(c)` for one character: the index of the first `c`, or -1 when there is none. */
  function IndexOfChar(s: string, c: char): (r: int)
    ensures -1 <= r < |s|
    ensures r == -1 ==> c !in s
    ensures r >= 0 ==> s[r] == c && c !in s[..r]
  {
    if |s| == 0 then -1
    else if s[0] == c then 0
    else
      var r := IndexOfChar(s[1..], c);
      assert s == [s[0]] + s[1..];
      if r == -1 then -1
      else
        assert s[..r + 1] == [s[0]] + s[1..][..r];
        r + 1
  }

  /** `s.split(c)` for a one-character separator: the pieces between the separators, in order. */
  function Split(s: string, c: char): (parts: seq<string>)
    ensures 1 <= |parts|
    ensures forall i :: 0 <= i < |parts| ==> c !in parts[i]
    decreases |s|
  {
    var i := IndexOfChar(s, c);
    if i == -1 then [s] else [s[..i]] + Split(s[i + 1..], c)
  }

  /** Joining the pieces of `split` with the separator gives back the string. */
  lemma {:induction false} JoinSplit(s: string, c: char)
    ensures Join(Split(s, c), [c]) == s
    decreases |s|
  {
    var i := IndexOfChar(s, c);
    if i == -1 {
      assert Split(s, c) == [s];
    } else {
      JoinSplit(s[i + 1..], c);
      JoinSplitStep(s, c, i);
    }
  }

  /** The step of `JoinSplit` at the first separator `i`. */
  lemma {:induction false} JoinSplitStep(s: string, c: char, i: nat)
    requires i < |s| && s[i] == c && c !in s[..i]
    requires Join(Split(s[i + 1..], c), [c]) == s[i + 1..]
    ensures Join(Split(s, c), [c]) == s
  {
    SplitAt(s, c, i);
    JoinCons(s[..i], Split(s[i + 1..], c), [c]);
    assert s == s[..i] + [c] + s[i + 1..];
  }

  /** Joining a list with a first element in front. */
  lemma {:induction false} JoinCons(head: string, rest: seq<string>, sep: string)
    requires 1 <= |rest|
    ensures Join([head] + rest, sep) == head + sep + Join(rest, sep)
  {
    assert ([head] + rest)[1..] == rest;
  }

  /** A `c` with no `c` before it is the one `IndexOfChar` finds. */
  lemma {:induction false} IndexOfCharUnique(s: string, c: char, j: nat)
    requires j < |s| && s[j] == c && c !in s[..j]
    ensures IndexOfChar(s, c) == j
  {
    var r := IndexOfChar(s, c);
    assert s[j] in s;
  }

  /** One step of `split` at a known first separator. */
  lemma {:induction false} SplitAt(s: string, c: char, i: nat)
    requires i < |s| && s[i] == c && c !in s[..i]
    ensures Split(s, c) == [s[..i]] + Split(s[i + 1..], c)
  {
    IndexOfCharUnique(s, c, i);
  }

  /** Splitting around one separator splits each side separately. */
  lemma {:induction false} SplitConcat(a: string, b: string, c: char)
    ensures Split(a + [c] + b, c) == Split(a, c) + Split(b, c)
    decreases |a|
  {
    if c !in a {
      SplitConcatNoSeparator(a, b, c);
    } else {
      var i := IndexOfChar(a, c);
      SplitConcat(a[i + 1..], b, c);
      SplitConcatStep(a, b, c, i);
    }
  }

  /** `SplitConcat` when `a` holds no separator. */
  lemma {:induction false} SplitConcatNoSeparator(a: string, b: string, c: char)
    requires c !in a
    ensures Split(a + [c] + b, c) == Split(a, c) + Split(b, c)
  {
    var s := a + [c] + b;
    assert s[..|a|] == a && s[|a|] == c && s[|a| + 1..] == b;
    SplitAt(s, c, |a|);
    SplitNone(a, c);
  }

  /** The step of `SplitConcat` at the first separator `i` of `a`. */
  lemma {:induction false} SplitConcatStep(a: string, b: string, c: char, i: nat)
    requires i < |a| && a[i] == c && c !in a[..i]
    requires Split(a[i + 1..] + [c] + b, c) == Split(a[i + 1..], c) + Split(b, c)
    ensures Split(a + [c] + b, c) == Split(a, c) + Split(b, c)
  {
    SplitAtConcat(a, b, c, i);
    SplitAt(a, c, i);
    ConsConcat(Split(a + [c] + b, c), Split(a[i + 1..] + [c] + b, c), Split(a, c),
               a[..i], Split(a[i + 1..], c), Split(b, c));
  }

  /** Sequence algebra for the step of `SplitConcat`, kept apart from `Split` so that the solver
      sees only the concatenations. */
  lemma {:induction false} ConsConcat<T>(whole: seq<T>, tail: seq<T>, first: seq<T>, head: T, left: seq<T>, right: seq<T>)
    requires whole == [head] + tail && tail == left + right && first == [head] + left
    ensures whole == first + right
  {
  }

  /** The first separator of `a` is also the first of `a + [c] + b`. */
  lemma {:induction false} SplitAtConcat(a: string, b: string, c: char, i: nat)
    requires i < |a| && a[i] == c && c !in a[..i]
    ensures Split(a + [c] + b, c) == [a[..i]] + Split(a[i + 1..] + [c] + b, c)
  {
    var s := a + [c] + b;
    assert s[..i] == a[..i] && s[i] == c && s[i + 1..] == a[i + 1..] + [c] + b by {
      assert s == a + ([c] + b);
    }
    SplitAt(s, c, i);
  }

  /** Without the separator, `split` gives the string itself. */
  lemma {:induction false} SplitNone(s: string, c: char)
    requires c !in s
    ensures Split(s, c) == [s]
  {
  }

  /** `split` undoes `join` when no piece contains the separator. */
  lemma {:induction false} SplitJoin(parts: seq<string>, c: char)
    requires 1 <= |parts|
    requires forall i :: 0 <= i < |parts| ==> c !in parts[i]
    ensures Split(Join(parts, [c]), c) == parts
    decreases |parts|
  {
    var first := parts[0];
    SplitNone(first, c);
    if |parts| > 1 {
      var tail := parts[1..];
      var joinedTail := Join(tail, [c]);
      assert Join(parts, [c]) == first + [c] + joinedTail;
      SplitJoin(tail, c);
      SplitConcat(first, joinedTail, c);
      assert parts == [first] + tail;
    }
  }
}
