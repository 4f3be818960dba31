/** Text primitives of Python's `str` that the pipeline relies on:
    `startswith`, the `in` substring test and `str.replace`. */
module Strings {

  /** `s.startswith(p)`. */
  predicate StartsWith(s: string, p: string) {
    |p| <= |s| && s[..|p|] == p
  }

  /** `t` occurs in `s` starting at index `k`. */
  predicate OccursAt(s: string, t: string, k: int) {
    0 <= k && k + |t| <= |s| && s[k..k + |t|] == t
  }

  /** Python's `t in s` for strings (the empty string occurs everywhere). */
  predicate Contains(s: string, t: string)
    decreases |s|
  {
    StartsWith(s, t) || (|s| > 0 && Contains(s[1..], t))
  }

  lemma {:induction false} ContainsIffOccurs(s: string, t: string)
    ensures Contains(s, t) <==> exists k :: OccursAt(s, t, k)
    decreases |s|
  {
    if StartsWith(s, t) {
      assert OccursAt(s, t, 0);
    } else if |s| > 0 {
      ContainsIffOccurs(s[1..], t);
      if Contains(s[1..], t) {
        var k :| OccursAt(s[1..], t, k);
        assert s[k + 1..k + 1 + |t|] == s[1..][k..k + |t|];
        assert OccursAt(s, t, k + 1);
      }
      if k :| OccursAt(s, t, k) {
        assert k != 0;
        assert s[1..][k - 1..k - 1 + |t|] == s[k..k + |t|];
        assert OccursAt(s[1..], t, k - 1);
      }
    } else {
      assert |t| > 0;
    }
  }

  /** A string occurs in any text that has it in the middle. */
  lemma ContainsMiddle(a: string, x: string, b: string)
    ensures Contains(a + x + b, x)
  {
    assert OccursAt(a + x + b, x, |a|) by {
      assert (a + x + b)[|a|..|a| + |x|] == x;
    }
    ContainsIffOccurs(a + x + b, x);
  }

  /** Three blocks inert with respect to `t`, in a row, do not contain `t`. */
  lemma InertRow(t: string, a: string, b: string, c: string)
    requires Inert(t, a) && Inert(t, b) && Inert(t, c)
    ensures !Contains(a + b + c, t)
  {
    InertJoin(t, a, b);
    InertJoin(t, a + b, c);
  }

  /** A character absent from `s` starts no occurrence in it. */
  lemma NotContainsFirstChar(s: string, t: string)
    requires |t| > 0 && t[0] !in s
    ensures !Contains(s, t)
  {
    ContainsIffOccurs(s, t);
  }

  /** A string lacking one of the characters of `t` does not contain `t`. */
  lemma NotContainsChar(s: string, t: string, i: nat)
    requires i < |t| && t[i] !in s
    ensures !Contains(s, t)
  {
    ContainsIffOccurs(s, t);
  }

  /** Python's `s.replace(p, rep)`: every non-overlapping occurrence of `p`,
      found from left to right, is replaced by `rep`. */
  function ReplaceAll(s: string, p: string, rep: string): string
    requires |p| > 0
    decreases |s|
  {
    if |s| == 0 then ""
    else if StartsWith(s, p) then rep + ReplaceAll(s[|p|..], p, rep)
    else [s[0]] + ReplaceAll(s[1..], p, rep)
  }

  /** Where `p` does not occur, `replace` changes nothing. */
  lemma {:induction false} ReplaceAllAbsent(s: string, p: string, rep: string)
    requires |p| > 0 && !Contains(s, p)
    ensures ReplaceAll(s, p, rep) == s
    decreases |s|
  {
    if |s| > 0 {
      ReplaceAllAbsent(s[1..], p, rep);
    }
  }

  /** An occurrence past the end of `a` in `a + b` is one in `b`. */
  lemma OccursRight(a: string, b: string, t: string, k: int)
    requires k >= |a|
    ensures OccursAt(a + b, t, k) <==> OccursAt(b, t, k - |a|)
  {
    if k + |t| <= |a| + |b| {
      assert (a + b)[k..k + |t|] == b[k - |a|..k - |a| + |t|];
    }
  }

  /** An occurrence that ends within `a` in `a + b` is one in `a`. */
  lemma OccursLeft(a: string, b: string, t: string, k: int)
    requires 0 <= k && k + |t| <= |a|
    ensures OccursAt(a + b, t, k) <==> OccursAt(a, t, k)
  {
    assert (a + b)[k..k + |t|] == a[k..k + |t|];
  }

  lemma FirstInPrefix(r: string, n: int)
    ensures 0 < n <= |r| ==> r[0] in r[..n]
  {
    if 0 < n <= |r| {
      assert r[..n][0] == r[0];
    }
  }

  lemma ElementInPrefix(r: string, n: int, j: int)
    ensures 0 <= n < j <= |r| ==> r[n] in r[..j]
  {
    if 0 <= n < j <= |r| {
      assert r[..j][n] == r[n];
    }
  }

  /** An occurrence of `t` in `a + b` that starts in `a` and ends in `b`
      makes a suffix of `a` a prefix of `t`. */
  lemma StraddlingOccurrence(a: string, b: string, t: string, k: int)
    ensures 0 <= k < |a| < k + |t| && OccursAt(a + b, t, k) ==> a[k..] == t[..|a| - k]
  {
    if 0 <= k < |a| < k + |t| && OccursAt(a + b, t, k) {
      assert a[k..] == (a + b)[k..k + |t|][..|a| - k];
    }
  }

  /** A prefix of the output that holds no first character of `rep` was
      copied from the input unchanged. */
  lemma {:induction false} ReplaceAllPrefix(s: string, p: string, rep: string, n: nat)
    requires |p| > 0 && |rep| > 0
    requires n <= |ReplaceAll(s, p, rep)|
    requires rep[0] !in ReplaceAll(s, p, rep)[..n]
    ensures n <= |s| && ReplaceAll(s, p, rep)[..n] == s[..n]
    decreases |s|
  {
    var r := ReplaceAll(s, p, rep);
    if n > 0 {
      if StartsWith(s, p) {
        FirstInPrefix(r, n);
      } else {
        var r' := ReplaceAll(s[1..], p, rep);
        assert r == [s[0]] + r';
        assert r'[..n - 1] == r[1..n];
        ReplaceAllPrefix(s[1..], p, rep, n - 1);
        assert r[..n] == [s[0]] + r'[..n - 1];
      }
    }
  }

  /** No non-empty suffix of `a` is a proper prefix of `t`: an occurrence
      of `t` cannot begin inside `a` and end after it. */
  ghost predicate NoPartialEnd(a: string, t: string) {
    forall l :: 0 < l < |t| && l <= |a| ==> a[|a| - l..] != t[..l]
  }

  /** The conditions under which `rep` cannot help form a new `p`: it does
      not contain `p`, no non-empty suffix of it is a proper prefix of `p`,
      and its first character is not among the later characters of `p`. */
  ghost predicate Inert(p: string, rep: string) {
    && |p| > 0 && |rep| > 0
    && rep[0] !in p[1..]
    && !Contains(rep, p)
    && NoPartialEnd(rep, p)
  }

  /** A suffix of a string without `t` is without `t`. */
  lemma {:induction false} ContainsSuffix(s: string, i: nat, t: string)
    requires i <= |s| && Contains(s[i..], t)
    ensures Contains(s, t)
    decreases i
  {
    if i > 0 {
      assert s[1..][i - 1..] == s[i..];
      ContainsSuffix(s[1..], i - 1, t);
    }
  }

  /** A slice of a string without `t` is without `t`. */
  lemma ContainsSlice(s: string, i: nat, j: nat, t: string)
    requires i <= j <= |s| && Contains(s[i..j], t)
    ensures Contains(s, t)
  {
    ContainsIffOccurs(s[i..j], t);
    var k :| OccursAt(s[i..j], t, k);
    assert s[i..j] + s[j..] == s[i..];
    OccursLeft(s[i..j], s[j..], t, k);
    ContainsIffOccurs(s[i..], t);
    ContainsSuffix(s, i, t);
  }

  lemma NothingInEmpty(t: string)
    requires !Contains("", t) || |t| > 0
    ensures |t| > 0 && !Contains("", t)
  {
  }

  /** An inert block followed by text without `t` is without `t`. */
  lemma SliceAbsent(s: string, i: nat, j: nat, t: string)
    requires i <= j <= |s| && !Contains(s, t)
    ensures !Contains(s[i..j], t)
  {
    if Contains(s[i..j], t) {
      ContainsSlice(s, i, j, t);
    }
  }

  lemma SuffixAbsent(s: string, i: nat, t: string)
    requires i <= |s| && !Contains(s, t)
    ensures !Contains(s[i..], t)
  {
    if Contains(s[i..], t) {
      ContainsSuffix(s, i, t);
    }
  }

  lemma BlockThen(rep: string, m: string, t: string)
    requires Inert(t, rep) && !Contains(m, t)
    ensures !Contains(rep + m, t)
  {
    ContainsIffOccurs(rep + m, t);
    ContainsIffOccurs(rep, t);
    ContainsIffOccurs(m, t);
    forall k ensures !OccursAt(rep + m, t, k) {
      if k >= |rep| {
        OccursRight(rep, m, t, k);
      } else if 0 <= k && k + |t| <= |rep| {
        OccursLeft(rep, m, t, k);
      } else {
        StraddlingOccurrence(rep, m, t, k);
      }
    }
  }

  lemma ElementInTail(t: string, i: int)
    ensures 1 <= i < |t| ==> t[i] in t[1..]
  {
    if 1 <= i < |t| {
      assert t[1..][i - 1] == t[i];
    }
  }

  /** Text without `t` followed by text without `t` whose first character
      cannot continue an occurrence is without `t`. */
  lemma LiteralThen(u: string, m: string, t: string)
    requires !Contains(u, t) && |m| > 0 && m[0] !in t[1..] && !Contains(m, t)
    ensures !Contains(u + m, t)
  {
    ContainsIffOccurs(u + m, t);
    ContainsIffOccurs(u, t);
    ContainsIffOccurs(m, t);
    forall k ensures !OccursAt(u + m, t, k) {
      if k >= |u| {
        OccursRight(u, m, t, k);
      } else if 0 <= k && k + |t| <= |u| {
        OccursLeft(u, m, t, k);
      } else {
        ElementInTail(t, |u| - k);
      }
    }
  }

  /** A character followed by a text without `t` is without `t`, when the
      text starts with the rest of `t` only where the input did. */
  lemma ConsKeepsAbsent(s: string, r: string, t: string)
    requires |s| > 0 && |t| > 0 && !Contains(s, t) && !Contains(r, t)
    requires StartsWith(r, t[1..]) ==> StartsWith(s[1..], t[1..])
    ensures !Contains([s[0]] + r, t)
  {
    var r0 := [s[0]] + r;
    assert r0[1..] == r;
  }

  /** A text that starts with the rest of `t` holds, in that prefix, no
      character `t` lacks. */
  lemma RestPrefixAvoids(r: string, t: string, ch: char)
    requires |t| > 0 && ch !in t && StartsWith(r, t[1..])
    ensures |t| - 1 <= |r| && ch !in r[..|t| - 1]
  {
  }

  /** A start with `p` carries over to a text that shares the prefix. */
  lemma PrefixCarries(r: string, s: string, p: string)
    requires StartsWith(r, p) && |p| <= |s| && r[..|p|] == s[..|p|]
    ensures StartsWith(s, p)
  {
  }

  /** A start with the rest of `t` carries over to `u` when every prefix
      of `r` without `ch` was copied from `u`. */
  lemma CopiedPrefixCarries(r: string, u: string, t: string, ch: char)
    requires |t| > 0 && ch !in t && StartsWith(r, t[1..])
    requires |t| - 1 <= |r| && ch !in r[..|t| - 1] ==> |t| - 1 <= |u| && r[..|t| - 1] == u[..|t| - 1]
    ensures StartsWith(u, t[1..])
  {
    RestPrefixAvoids(r, t, ch);
    PrefixCarries(r, u, t[1..]);
  }

  /** An inert block, text without `t`, another inert block, text without
      `t`, a third inert block and text without `t`, in a row, are without
      `t` when neither later block can continue an occurrence. */
  lemma ThreeBlocksKeepAbsent(a: string, x: string, b: string, y: string, c: string, r: string, t: string)
    requires Inert(t, a) && Inert(t, b) && Inert(t, c)
    requires b[0] !in t[1..] && c[0] !in t[1..]
    requires !Contains(x, t) && !Contains(y, t) && !Contains(r, t)
    ensures !Contains(a + x + b + y + c + r, t)
  {
    BlockThen(c, r, t);
    LiteralThen(y, c + r, t);
    BlockThen(b, y + (c + r), t);
    LiteralThen(x, b + (y + (c + r)), t);
    BlockThen(a, x + (b + (y + (c + r))), t);
    AppendAssoc(a + x + b + y, c, r);
    AppendAssoc(a + x + b, y, c + r);
    AppendAssoc(a + x, b, y + (c + r));
    AppendAssoc(a, x, b + (y + (c + r)));
  }

  /** A prefix of a character followed by `r` is copied from `s` when the
      shorter prefix of `r` is copied from the rest of `s`. */
  lemma ConsPrefix(s: string, r: string, n: nat, ch: char)
    requires |s| > 0 && 0 < n <= 1 + |r| && ch !in ([s[0]] + r)[..n]
    ensures ch !in r[..n - 1]
    ensures n - 1 <= |s| - 1 && r[..n - 1] == s[1..][..n - 1] ==> ([s[0]] + r)[..n] == s[..n]
  {
    assert ([s[0]] + r)[..n] == [s[0]] + r[..n - 1];
    if n - 1 <= |s| - 1 && r[..n - 1] == s[1..][..n - 1] {
      assert s[..n] == [s[0]] + s[1..][..n - 1];
    }
  }

  lemma DropEmpties(a: string, b: string, c: string)
    ensures a + "" + b + "" + c + "" == a + b + c
  {
    assert a + "" == a;
  }

  lemma NotInThree(a: string, b: string, c: string, ch: char)
    requires ch !in a && ch !in b && ch !in c
    ensures ch !in a + b + c
  {
  }

  lemma SliceOfTail(s: string, a: int, b: int)
    requires |s| > 0 && 0 <= a <= b <= |s| - 1
    ensures s[1..][a..b] == s[a + 1..b + 1]
  {
    forall m | 0 <= m < b - a ensures s[1..][a..b][m] == s[a + 1..b + 1][m] {
    }
  }

  lemma AppendAssoc(a: string, b: string, c: string)
    ensures a + b + c == a + (b + c)
  {
  }

  /** A string is inert with respect to a tag when it opens with `<`, holds
      no other `<`, and differs from the tag at some index `i`. */
  lemma InertLed(t: string, rep: string, i: nat)
    requires |t| > 0 && t[0] == '<' && '<' !in t[1..]
    requires |rep| > 0 && rep[0] == '<' && '<' !in rep[1..]
    requires i < |rep| && i < |t| && rep[i] != t[i]
    ensures Inert(t, rep)
  {
    ContainsIffOccurs(rep, t);
    forall k | OccursAt(rep, t, k) ensures false {
      ElementInTail(rep, k);
    }
    forall l | 0 < l < |t| && l <= |rep| ensures rep[|rep| - l..] != t[..l] {
      ElementInTail(rep, |rep| - l);
    }
  }

  /** A string without the first character of `t` is inert with respect to
      `t`, unless its own first character could continue `t`. */
  lemma InertPlain(t: string, rep: string)
    requires |t| > 0 && |rep| > 0 && t[0] !in rep && rep[0] !in t[1..]
    ensures Inert(t, rep)
  {
    NotContainsFirstChar(rep, t);
    forall l | 0 < l < |t| && l <= |rep| ensures rep[|rep| - l..] != t[..l] {
      assert rep[|rep| - l..][0] == rep[|rep| - l];
    }
  }

  /** Two inert blocks in a row form an inert block. */
  lemma InertJoin(t: string, a: string, b: string)
    requires Inert(t, a) && Inert(t, b)
    ensures Inert(t, a + b)
  {
    BlockThen(a, b, t);
    PartialEndJoin(t, a, b);
  }

  lemma PartialEndJoin(t: string, a: string, b: string)
    requires NoPartialEnd(a, t) && NoPartialEnd(b, t)
    ensures NoPartialEnd(a + b, t)
  {
    forall l | 0 < l < |t| && l <= |a + b| ensures (a + b)[|a + b| - l..] != t[..l] {
      PartialEndJoinAt(t, a, b, l);
    }
  }

  lemma PartialEndJoinAt(t: string, a: string, b: string, l: nat)
    requires NoPartialEnd(a, t) && NoPartialEnd(b, t)
    requires 0 < l < |t| && l <= |a + b|
    ensures (a + b)[|a + b| - l..] != t[..l]
  {
    if l <= |b| {
      assert (a + b)[|a + b| - l..] == b[|b| - l..];
    } else {
      var d := l - |b|;
      assert (a + b)[|a + b| - l..][..d] == a[|a| - d..];
      assert t[..l][..d] == t[..d];
    }
  }

  lemma {:induction false} ReplaceAllNoneAt(s: string, p: string, rep: string, k: int)
    requires Inert(p, rep)
    ensures !OccursAt(ReplaceAll(s, p, rep), p, k)
    decreases |s|
  {
    var r := ReplaceAll(s, p, rep);
    if StartsWith(s, p) {
      var r' := ReplaceAll(s[|p|..], p, rep);
      assert r == rep + r';
      if k >= |rep| {
        ReplaceAllNoneAt(s[|p|..], p, rep, k - |rep|);
        OccursRight(rep, r', p, k);
      } else if 0 <= k && k + |p| <= |rep| {
        OccursLeft(rep, r', p, k);
        ContainsIffOccurs(rep, p);
      } else if 0 <= k {
        StraddlingOccurrence(rep, r', p, k);
      }
    } else if |s| > 0 {
      var r' := ReplaceAll(s[1..], p, rep);
      assert r == [s[0]] + r';
      if k >= 1 {
        ReplaceAllNoneAt(s[1..], p, rep, k - 1);
        OccursRight([s[0]], r', p, k);
      } else if k == 0 && OccursAt(r, p, 0) {
        assert r'[..|p| - 1] == r[1..|p|] == p[1..];
        ReplaceAllPrefix(s[1..], p, rep, |p| - 1);
      }
    }
  }

  /** After `replace`, no bare occurrence of `p` is left when `rep` is inert
      with respect to `p`. */
  lemma ReplaceAllLeavesNone(s: string, p: string, rep: string)
    requires Inert(p, rep)
    ensures !Contains(ReplaceAll(s, p, rep), p)
  {
    var r := ReplaceAll(s, p, rep);
    ContainsIffOccurs(r, p);
    forall k ensures !OccursAt(r, p, k) {
      ReplaceAllNoneAt(s, p, rep, k);
    }
  }

  /** `replace` does not create an occurrence of a `t` its replacement is
      inert with respect to. */
  lemma {:induction false} ReplaceAllKeepsAbsent(s: string, p: string, rep: string, t: string)
    requires |p| > 0 && Inert(t, rep) && !Contains(s, t)
    ensures !Contains(ReplaceAll(s, p, rep), t)
    decreases |s|
  {
    if |s| == 0 {
      NothingInEmpty(t);
    } else if StartsWith(s, p) {
      if Contains(s[|p|..], t) { ContainsSuffix(s, |p|, t); }
      ReplaceAllKeepsAbsent(s[|p|..], p, rep, t);
      BlockThen(rep, ReplaceAll(s[|p|..], p, rep), t);
    } else {
      var r' := ReplaceAll(s[1..], p, rep);
      ReplaceAllKeepsAbsent(s[1..], p, rep, t);
      if StartsWith(r', t[1..]) {
        ReplaceAllPrefix(s[1..], p, rep, |t| - 1);
      }
      ConsKeepsAbsent(s, r', t);
    }
  }

  /** Replacing an inert pattern a second time changes nothing. */
  lemma ReplaceAllIdempotent(s: string, p: string, rep: string)
    requires Inert(p, rep)
    ensures ReplaceAll(ReplaceAll(s, p, rep), p, rep) == ReplaceAll(s, p, rep)
  {
    ReplaceAllLeavesNone(s, p, rep);
    ReplaceAllAbsent(ReplaceAll(s, p, rep), p, rep);
  }
}
