/**
  The Python `str` operations the two maintenance scripts rely on, over `seq<char>`:
  `startswith`, the substring test `in`, `split(sep)[0]` and `split(sep)[1]`,
  `replace` and `strip`.
*/
module Strings {

  /** `s.startswith(p)` */
  predicate StartsWith(s: string, p: string) {
    |p| <= |s| && s[..|p|] == p
  }

  /** `s.endswith(p)` */
  predicate EndsWith(s: string, p: string) {
    |p| <= |s| && s[|s| - |p|..] == p
  }

  /** `p` occurs in `s` at offset `i`: the reference meaning of a substring match. */
  ghost predicate OccursAt(s: string, p: string, i: int) {
    0 <= i && i + |p| <= |s| && s[i..i + |p|] == p
  }

  /** `p in s`: Python's substring test, scanning `s` from the left. The empty string occurs in every string. */
  predicate Contains(s: string, p: string)
    decreases |s|
  {
    StartsWith(s, p) || (|s| > 0 && Contains(s[1..], p))
  }

  /** An occurrence at offset `i` is found by the scan. */
  lemma {:induction false} ContainsAt(s: string, p: string, i: int)
    requires OccursAt(s, p, i)
    ensures Contains(s, p)
    decreases i
  {
    if i == 0 {
      assert s[..|p|] == s[i..i + |p|];
    } else {
      assert s[1..][i - 1..i - 1 + |p|] == s[i..i + |p|];
      ContainsAt(s[1..], p, i - 1);
    }
  }

  /** What the scan finds is an occurrence. */
  lemma {:induction false} ContainsOccurs(s: string, p: string)
    requires Contains(s, p)
    ensures exists i :: OccursAt(s, p, i)
    decreases |s|
  {
    if StartsWith(s, p) {
      assert OccursAt(s, p, 0);
    } else {
      ContainsOccurs(s[1..], p);
      var i :| OccursAt(s[1..], p, i);
      assert s[i + 1..i + 1 + |p|] == s[1..][i..i + |p|];
      assert OccursAt(s, p, i + 1);
    }
  }

  /** The scan finds `p` exactly when `p` occurs somewhere in `s`. */
  lemma ContainsIffOccurs(s: string, p: string)
    ensures Contains(s, p) <==> exists i :: OccursAt(s, p, i)
  {
    if Contains(s, p) {
      ContainsOccurs(s, p);
    }
    forall i | OccursAt(s, p, i)
      ensures Contains(s, p)
    {
      ContainsAt(s, p, i);
    }
  }

  /** A one-character pattern is found exactly when the character is in the text. */
  lemma {:induction false} ContainsChar(s: string, c: char)
    ensures Contains(s, [c]) <==> c in s
    decreases |s|
  {
    if |s| > 0 {
      ContainsChar(s[1..], c);
      assert s == [s[0]] + s[1..];
    }
  }

  /** A match in either part is still a match in the concatenation. */
  lemma ContainsConcat(a: string, b: string, p: string)
    ensures Contains(a, p) ==> Contains(a + b, p)
    ensures Contains(b, p) ==> Contains(a + b, p)
  {
    ContainsIffOccurs(a, p);
    ContainsIffOccurs(b, p);
    ContainsIffOccurs(a + b, p);
    if Contains(a, p) {
      var i :| OccursAt(a, p, i);
      assert (a + b)[i..i + |p|] == a[i..i + |p|];
      assert OccursAt(a + b, p, i);
    }
    if Contains(b, p) {
      var i :| OccursAt(b, p, i);
      assert (a + b)[|a| + i..|a| + i + |p|] == b[i..i + |p|];
      assert OccursAt(a + b, p, |a| + i);
    }
  }

  /**
    `s.split(sep)[0]`: the text of `s` before the first occurrence of `sep`,
    or all of `s` when `sep` does not occur.
  */
  function Before(s: string, sep: string): (r: string)
    requires |sep| > 0
    ensures StartsWith(s, r)
    ensures !Contains(r, sep)
    ensures r == s || StartsWith(s[|r|..], sep)
    decreases |s|
  {
    if |s| == 0 || StartsWith(s, sep) then []
    else
      var rest := Before(s[1..], sep);
      assert s[1..][..|rest|] == rest;
      assert !StartsWith([s[0]] + rest, sep) by {
        if |sep| <= 1 + |rest| {
          assert ([s[0]] + rest)[..|sep|] == s[..|sep|];
        }
      }
      assert s[1..][|rest|..] == s[1 + |rest|..];
      [s[0]] + rest
  }

  /** The text of `s` after the first occurrence of `sep`, so that `s.split(sep)[1]` is `Before(AfterFirst(s, sep), sep)`. */
  function AfterFirst(s: string, sep: string): (r: string)
    requires |sep| > 0 && Contains(s, sep)
    ensures s == Before(s, sep) + sep + r
    decreases |s|
  {
    if StartsWith(s, sep) then s[|sep|..]
    else AfterFirst(s[1..], sep)
  }

  /** A text that differs from `p` at some position within both does not start with `p`. */
  lemma Mismatch(s: string, p: string, i: nat)
    requires i < |p| && i < |s| && s[i] != p[i]
    ensures !StartsWith(s, p)
  {
    if |p| <= |s| {
      assert s[..|p|][i] == s[i];
    }
  }

  /** Positions where `sep` does not start are passed over by `split`: the first occurrence lies beyond them. */
  lemma {:induction false} AfterFirstSkip(s: string, sep: string, k: nat)
    requires |sep| > 0 && k <= |s| && Contains(s[k..], sep)
    requires forall j :: 0 <= j < k ==> !StartsWith(s[j..], sep)
    ensures Contains(s, sep) && AfterFirst(s, sep) == AfterFirst(s[k..], sep)
    decreases k
  {
    if k > 0 {
      var t := s[1..];
      assert t[k - 1..] == s[k..];
      forall j | 0 <= j < k - 1
        ensures !StartsWith(t[j..], sep)
      {
        assert t[j..] == s[j + 1..];
      }
      AfterFirstSkip(t, sep, k - 1);
      assert s[0..] == s;
    }
  }

  /** `split(sep)[0]` of `a + b` runs through `a` when no occurrence of `sep` starts inside `a`. */
  lemma {:induction false} BeforeAppend(a: string, b: string, sep: string)
    requires |sep| > 0
    requires forall k :: 0 <= k < |a| ==> !StartsWith((a + b)[k..], sep)
    ensures Before(a + b, sep) == a + Before(b, sep)
    decreases |a|
  {
    if |a| > 0 {
      assert (a + b)[0..] == a + b;
      assert (a + b)[1..] == a[1..] + b;
      forall k | 0 <= k < |a[1..]|
        ensures !StartsWith((a[1..] + b)[k..], sep)
      {
        assert (a[1..] + b)[k..] == (a + b)[k + 1..];
      }
      BeforeAppend(a[1..], b, sep);
    }
  }

  /**
    `s.replace(pat, rep)`: every occurrence of `pat`, found left to right without
    overlapping, is replaced by `rep`. The scripts only pass non-empty literals as `pat`.
  */
  function Replace(s: string, pat: string, rep: string): (r: string)
    requires |pat| > 0
    ensures !Contains(s, pat) ==> r == s
    decreases |s|
  {
    if |s| == 0 then []
    else if StartsWith(s, pat) then rep + Replace(s[|pat|..], pat, rep)
    else [s[0]] + Replace(s[1..], pat, rep)
  }

  /** Replacing one character by another rewrites exactly the positions holding it. */
  lemma {:induction false} ReplaceCharPointwise(s: string, c: char, d: char)
    ensures |Replace(s, [c], [d])| == |s|
    ensures forall k :: 0 <= k < |s| ==> Replace(s, [c], [d])[k] == (if s[k] == c then d else s[k])
    decreases |s|
  {
    if |s| > 0 {
      ReplaceCharPointwise(s[1..], c, d);
      var r := Replace(s, [c], [d]);
      var tail := Replace(s[1..], [c], [d]);
      assert StartsWith(s, [c]) <==> s[0] == c;
      assert r == [if s[0] == c then d else s[0]] + tail;
      forall k | 0 <= k < |s|
        ensures r[k] == (if s[k] == c then d else s[k])
      {
        if k > 0 {
          assert r[k] == tail[k - 1];
          assert s[k] == s[1..][k - 1];
        }
      }
    }
  }

  /** Replacing a character by a text that does not hold it leaves no copy of it behind, and brings in nothing but `rep`. */
  lemma {:induction false} ReplaceCharRemoves(s: string, c: char, rep: string)
    requires c !in rep
    ensures c !in Replace(s, [c], rep)
    ensures forall x :: x in Replace(s, [c], rep) ==> x in s || x in rep
    decreases |s|
  {
    if |s| > 0 {
      ReplaceCharRemoves(s[1..], c, rep);
      assert StartsWith(s, [c]) <==> s[0] == c;
      var tail := Replace(s[1..], [c], rep);
      if s[0] == c {
        assert Replace(s, [c], rep) == rep + tail;
        assert s[1..] == s[|[c]|..];
      } else {
        assert Replace(s, [c], rep) == [s[0]] + tail;
      }
      forall x | x in tail
        ensures x in s || x in rep
      {
        if x in s[1..] {
          var k :| 0 <= k < |s[1..]| && s[1..][k] == x;
          assert s[k + 1] == x;
        }
      }
    }
  }

  /**
    Removing or replacing one character works file piece by piece: the result on
    `a + b` is the result on `a` followed by the result on `b`, so the characters
    other than `c` keep their order.
  */
  lemma ReplaceCharAppend(a: string, b: string, c: char, rep: string)
    ensures Replace(a + b, [c], rep) == Replace(a, [c], rep) + Replace(b, [c], rep)
  {
    ReplaceAppend(a, b, [c], rep);
  }

  /** No occurrence of `pat` in `a + b` starts inside `a` and ends inside `b`. */
  predicate NoStraddle(a: string, b: string, pat: string) {
    forall k :: 0 <= k < |a| < k + |pat| ==> !StartsWith((a + b)[k..], pat)
  }

  /** Dropping a prefix of `a` keeps the seam free of straddling occurrences. */
  lemma NoStraddleDrop(a: string, b: string, pat: string, m: nat)
    requires m <= |a| && NoStraddle(a, b, pat)
    ensures NoStraddle(a[m..], b, pat)
  {
    var a' := a[m..];
    forall k | 0 <= k < |a'| < k + |pat|
      ensures !StartsWith((a' + b)[k..], pat)
    {
      assert (a' + b)[k..] == (a + b)[m + k..];
    }
  }

  // The lemmas from here to `ReplaceAppend` carry no property of their own: each
  // restates one unfolding of `Replace` or one sequence identity, so that the two
  // steps of `ReplaceAppend` are proved from a few small facts and stay cheap
  // for the solver.

  lemma ReplaceAtMatch(s: string, pat: string, rep: string)
    requires |pat| > 0 && StartsWith(s, pat)
    ensures Replace(s, pat, rep) == rep + Replace(s[|pat|..], pat, rep)
  {
  }

  lemma PrefixStart(a: string, b: string, pat: string)
    requires |pat| <= |a| && StartsWith(a + b, pat)
    ensures StartsWith(a, pat) && (a + b)[|pat|..] == a[|pat|..] + b
  {
    assert a[..|pat|] == (a + b)[..|pat|];
  }

  lemma Regroup(p: string, x: string, y: string)
    ensures p + (x + y) == (p + x) + y
  {
  }

  lemma ReplaceAppendMatch(a: string, b: string, pat: string, rep: string)
    requires 0 < |pat| <= |a| && StartsWith(a + b, pat)
    requires Replace(a[|pat|..] + b, pat, rep) == Replace(a[|pat|..], pat, rep) + Replace(b, pat, rep)
    ensures Replace(a + b, pat, rep) == Replace(a, pat, rep) + Replace(b, pat, rep)
  {
    PrefixStart(a, b, pat);
    ReplaceAtMatch(a, pat, rep);
    ReplaceAtMatch(a + b, pat, rep);
    Regroup(rep, Replace(a[|pat|..], pat, rep), Replace(b, pat, rep));
  }

  lemma ReplaceKeepsFirst(s: string, pat: string, rep: string)
    requires |pat| > 0 && s != [] && !StartsWith(s, pat)
    ensures Replace(s, pat, rep) == [s[0]] + Replace(s[1..], pat, rep)
  {
  }

  lemma PrefixNoStart(a: string, b: string, pat: string)
    requires !StartsWith(a + b, pat)
    ensures !StartsWith(a, pat)
  {
    if |pat| <= |a| {
      assert a[..|pat|] == (a + b)[..|pat|];
    }
  }

  lemma AppendTail(a: string, b: string)
    requires a != []
    ensures (a + b)[0] == a[0] && (a + b)[1..] == a[1..] + b
  {
  }

  lemma ReplaceAppendSkip(a: string, b: string, pat: string, rep: string)
    requires |pat| > 0 && a != [] && !StartsWith(a + b, pat)
    requires Replace(a[1..] + b, pat, rep) == Replace(a[1..], pat, rep) + Replace(b, pat, rep)
    ensures Replace(a + b, pat, rep) == Replace(a, pat, rep) + Replace(b, pat, rep)
  {
    AppendTail(a, b);
    PrefixNoStart(a, b, pat);
    ReplaceKeepsFirst(a, pat, rep);
    ReplaceKeepsFirst(a + b, pat, rep);
    Regroup([a[0]], Replace(a[1..], pat, rep), Replace(b, pat, rep));
  }

  /** When no occurrence of `pat` straddles the seam, replacing in `a + b` replaces in each part on its own. */
  lemma {:induction false} ReplaceAppend(a: string, b: string, pat: string, rep: string)
    requires |pat| > 0 && NoStraddle(a, b, pat)
    ensures Replace(a + b, pat, rep) == Replace(a, pat, rep) + Replace(b, pat, rep)
    decreases |a|
  {
    if a == [] {
      assert a + b == b;
    } else if StartsWith(a + b, pat) {
      assert (a + b)[0..] == a + b;
      NoStraddleDrop(a, b, pat, |pat|);
      ReplaceAppend(a[|pat|..], b, pat, rep);
      ReplaceAppendMatch(a, b, pat, rep);
    } else {
      NoStraddleDrop(a, b, pat, 1);
      ReplaceAppend(a[1..], b, pat, rep);
      ReplaceAppendSkip(a, b, pat, rep);
    }
  }

  /** Python's `str.isspace()` characters, which `strip()` removes. */
  predicate IsSpace(c: char) {
    || ('\t' <= c <= '\r')
    || ('\U{001C}' <= c <= ' ')
    || c == '\U{0085}' || c == '\U{00A0}' || c == '\U{1680}'
    || ('\U{2000}' <= c <= '\U{200A}')
    || c == '\U{2028}' || c == '\U{2029}' || c == '\U{202F}' || c == '\U{205F}' || c == '\U{3000}'
  }

  /** `s.lstrip()` */
  function TrimStart(s: string): (r: string)
    decreases |s|
  {
    if |s| > 0 && IsSpace(s[0]) then TrimStart(s[1..]) else s
  }

  lemma {:induction false} TrimStartSpec(s: string)
    ensures var r := TrimStart(s);
            |r| <= |s| && r == s[|s| - |r|..] &&
            (r == [] || !IsSpace(r[0])) &&
            forall k :: 0 <= k < |s| - |r| ==> IsSpace(s[k])
    decreases |s|
  {
    if |s| > 0 && IsSpace(s[0]) {
      TrimStartSpec(s[1..]);
    }
  }

  /** `s.rstrip()` */
  function TrimEnd(s: string): (r: string)
    decreases |s|
  {
    if |s| > 0 && IsSpace(s[|s| - 1]) then TrimEnd(s[..|s| - 1]) else s
  }

  lemma {:induction false} TrimEndSpec(s: string)
    ensures var r := TrimEnd(s);
            |r| <= |s| && r == s[..|r|] &&
            (r == [] || !IsSpace(r[|r| - 1])) &&
            forall k :: |r| <= k < |s| ==> IsSpace(s[k])
    decreases |s|
  {
    if |s| > 0 && IsSpace(s[|s| - 1]) {
      TrimEndSpec(s[..|s| - 1]);
    }
  }

  /** `s.strip()` */
  function Strip(s: string): string {
    TrimEnd(TrimStart(s))
  }

  /**
    `strip()` returns the piece of `s` left after dropping whitespace at both
    ends: everything before it and after it is whitespace, and it neither starts
    nor ends with whitespace.
  */
  lemma StripSpec(s: string)
    ensures var r := Strip(s);
            && |r| <= |s|
            && (exists i :: OccursAt(s, r, i)
                            && (forall k :: 0 <= k < i ==> IsSpace(s[k]))
                            && (forall k :: i + |r| <= k < |s| ==> IsSpace(s[k])))
            && (r == [] || (!IsSpace(r[0]) && !IsSpace(r[|r| - 1])))
  {
    var t := TrimStart(s);
    TrimStartSpec(s);
    TrimEndSpec(t);
    var r := TrimEnd(t);
    var i := |s| - |t|;
    assert OccursAt(s, r, i) by {
      assert s[i..][..|r|] == r;
    }
    forall k | i + |r| <= k < |s|
      ensures IsSpace(s[k])
    {
      assert s[k] == t[k - i];
    }
  }

  /** A line as read from a file, with its newline, strips back to the unpadded line. */
  lemma StripNewline(line: string)
    requires line != [] && !IsSpace(line[0]) && !IsSpace(line[|line| - 1])
    ensures Strip(line + "\n") == line
  {
    var s := line + "\n";
    assert s[0] == line[0];
    assert TrimStart(s) == s;
    assert s[..|s| - 1] == line;
    assert TrimEnd(s) == TrimEnd(line);
  }

  /** `strip()` removes only whitespace at the two ends: it leaves alone a text that neither starts nor ends with whitespace. */
  lemma StripUnpadded(s: string)
    requires s == [] || (!IsSpace(s[0]) && !IsSpace(s[|s| - 1]))
    ensures Strip(s) == s
  {
    TrimStartSpec(s);
    var t := TrimStart(s);
    assert t == s;
    TrimEndSpec(t);
  }
}
