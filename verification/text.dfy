/**
 * The handful of Python `str` operations the script relies on: `isspace`
 * (as used by `strip()` and by the regex class `\s`), ASCII `lower()`,
 * `startswith`, the `in` substring test and single-character `replace`.
 */
module Text {

  /** Python's `str.isspace()`, which is also what `\s` matches in a `str` pattern. */
  predicate IsSpace(c: char) {
    || c == ' '
    || ('\t' <= c <= '\r')
    || ('\U{1C}' <= c <= '\U{1F}')
    || c == '\U{85}' || c == '\U{A0}' || c == '\U{1680}'
    || ('\U{2000}' <= c <= '\U{200A}')
    || c == '\U{2028}' || c == '\U{2029}' || c == '\U{202F}' || c == '\U{205F}' || c == '\U{3000}'
  }

  predicate SpaceBetween(s: string, lo: nat, hi: nat)
    requires hi <= |s|
  {
    forall j :: lo <= j < hi ==> IsSpace(s[j])
  }

  predicate AllSpace(s: string) {
    SpaceBetween(s, 0, |s|)
  }

  /** `lower()` restricted to the ASCII letters. */
  function Lower(c: char): (d: char)
    ensures 'A' <= c <= 'Z' ==> 'a' <= d <= 'z' && d as int - c as int == 'a' as int - 'A' as int
    ensures !('A' <= c <= 'Z') ==> d == c
  {
    if 'A' <= c <= 'Z' then (c as int - 'A' as int + 'a' as int) as char else c
  }

  function LowerStr(s: string): (r: string)
    ensures |r| == |s|
    ensures forall k :: 0 <= k < |s| ==> r[k] == Lower(s[k])
  {
    seq(|s|, k requires 0 <= k < |s| => Lower(s[k]))
  }

  /** Python's `s.startswith(p)`; every string starts with `""`. */
  predicate StartsWith(s: string, p: string) {
    |p| <= |s| && s[..|p|] == p
  }

  /** Python's `sub in s`. */
  predicate Contains(s: string, sub: string)
    decreases |s|
  {
    StartsWith(s, sub) || (|s| > 0 && Contains(s[1..], sub))
  }

  lemma {:induction false} ContainsInfix(a: string, sub: string, b: string)
    ensures Contains(a + sub + b, sub)
    decreases |a|
  {
    if a == [] {
      assert (a + sub + b)[..|sub|] == sub;
    } else {
      assert (a + sub + b)[1..] == a[1..] + sub + b;
      ContainsInfix(a[1..], sub, b);
    }
  }

  // ---------------------------------------------------------------------
  // strip()

  /** The end of the maximal whitespace run starting at `k`. */
  function SpaceRunEnd(s: string, k: nat): (w: nat)
    requires k <= |s|
    ensures k <= w <= |s|
    ensures SpaceBetween(s, k, w)
    ensures w == |s| || !IsSpace(s[w])
    decreases |s| - k
  {
    if k < |s| && IsSpace(s[k]) then SpaceRunEnd(s, k + 1) else k
  }

  /** The start of the maximal whitespace run ending at `k`. */
  function SpaceRunStart(s: string, k: nat): (w: nat)
    requires k <= |s|
    ensures w <= k
    ensures SpaceBetween(s, w, k)
    ensures w == 0 || !IsSpace(s[w - 1])
    decreases k
  {
    if k > 0 && IsSpace(s[k - 1]) then SpaceRunStart(s, k - 1) else k
  }

  /** Python's `lstrip()`. */
  function TrimLeft(s: string): string {
    s[SpaceRunEnd(s, 0)..]
  }

  /** Python's `rstrip()`. */
  function TrimRight(s: string): string {
    s[..SpaceRunStart(s, |s|)]
  }

  /** Python's `strip()`. */
  function Strip(s: string): string {
    TrimRight(TrimLeft(s))
  }

  /** A string with no whitespace at either end. */
  predicate Trimmed(r: string) {
    r == [] || (!IsSpace(r[0]) && !IsSpace(r[|r| - 1]))
  }

  lemma TrimLeftOf(a: string, m: string)
    requires AllSpace(a)
    requires m == [] || !IsSpace(m[0])
    ensures TrimLeft(a + m) == m
  {
    var s := a + m;
    assert forall k :: 0 <= k < |a| ==> s[k] == a[k];
    assert |m| > 0 ==> s[|a|] == m[0];
    assert SpaceRunEnd(s, 0) == |a|;
  }

  lemma TrimRightOf(m: string, b: string)
    requires AllSpace(b)
    requires m == [] || !IsSpace(m[|m| - 1])
    ensures TrimRight(m + b) == m
  {
    var s := m + b;
    assert forall k :: |m| <= k < |s| ==> s[k] == b[k - |m|];
    assert |m| > 0 ==> s[|m| - 1] == m[|m| - 1];
    assert SpaceRunStart(s, |s|) == |m|;
  }

  /** `strip()` is characterised by its result: the unique trimmed middle between two whitespace runs. */
  lemma StripOf(a: string, r: string, b: string)
    requires AllSpace(a) && AllSpace(b) && Trimmed(r)
    ensures Strip(a + r + b) == r
  {
    if r == [] {
      assert a + r + b == a + b;
      TrimLeftOf(a + b, []);
      assert a + b + [] == a + b;
    } else {
      assert a + r + b == a + (r + b);
      TrimLeftOf(a, r + b);
      TrimRightOf(r, b);
    }
  }

  lemma TrimLeftSplits(s: string) returns (a: string)
    ensures AllSpace(a) && s == a + TrimLeft(s)
    ensures TrimLeft(s) == [] || !IsSpace(TrimLeft(s)[0])
  {
    var w := SpaceRunEnd(s, 0);
    a := s[..w];
    assert s == a + s[w..];
    assert forall k :: 0 <= k < |a| ==> a[k] == s[k];
  }

  lemma TrimRightSplits(s: string) returns (b: string)
    ensures AllSpace(b) && s == TrimRight(s) + b
    ensures TrimRight(s) == [] || !IsSpace(TrimRight(s)[|TrimRight(s)| - 1])
  {
    var e := SpaceRunStart(s, |s|);
    b := s[e..];
    assert s == s[..e] + b;
    assert forall k :: 0 <= k < |b| ==> b[k] == s[e + k];
  }

  lemma TrimRightKeepsHead(l: string)
    requires l == [] || !IsSpace(l[0])
    ensures Trimmed(TrimRight(l))
  {
    var e := SpaceRunStart(l, |l|);
    assert TrimRight(l) == l[..e];
    assert e > 0 ==> l[..e][0] == l[0] && l[..e][e - 1] == l[e - 1];
  }

  /** The result of `strip()` is trimmed and sits between two whitespace runs of its input. */
  lemma StripSplits(s: string) returns (a: string, b: string)
    ensures AllSpace(a) && AllSpace(b) && Trimmed(Strip(s))
    ensures s == a + Strip(s) + b
  {
    a := TrimLeftSplits(s);
    var l := TrimLeft(s);
    b := TrimRightSplits(l);
    var r := TrimRight(l);
    TrimRightKeepsHead(l);
    assert Strip(s) == r;
    SeqAssoc([], a, r, b);
  }

  lemma StripIdempotent(s: string)
    ensures Strip(Strip(s)) == Strip(s)
  {
    var _, _ := StripSplits(s);
    StripOf([], Strip(s), []);
    assert [] + Strip(s) + [] == Strip(s);
  }

  lemma SeqAssoc(w: string, a: string, m: string, b: string)
    ensures w + (a + m + b) == (w + a) + m + b
  {
  }

  /** Leading whitespace never changes what `strip()` returns. */
  lemma StripIgnoresLeadingSpace(w: string, s: string)
    requires AllSpace(w)
    ensures Strip(w + s) == Strip(s)
  {
    var a, b := StripSplits(s);
    var m := Strip(s);
    assert AllSpace(w + a) by {
      forall k | 0 <= k < |w + a|
        ensures IsSpace((w + a)[k])
      {
        if k < |w| { assert (w + a)[k] == w[k]; } else { assert (w + a)[k] == a[k - |w|]; }
      }
    }
    calc {
      w + s;
      w + (a + m + b);
      { SeqAssoc(w, a, m, b); }
      (w + a) + m + b;
    }
    StripOf(w + a, m, b);
  }

  // ---------------------------------------------------------------------
  // replace() of a single character

  /** Python's `s.replace(c, rep)` where `c` is a one-character string. */
  function Replace(s: string, c: char, rep: string): (r: string)
    decreases |s|
  {
    if s == [] then [] else (if s[0] == c then rep else [s[0]]) + Replace(s[1..], c, rep)
  }

  function Count(s: string, c: char): nat
    decreases |s|
  {
    if s == [] then 0 else (if s[0] == c then 1 else 0) + Count(s[1..], c)
  }

  lemma {:induction false} ReplaceLength(s: string, c: char, rep: string)
    ensures |Replace(s, c, rep)| == |s| + Count(s, c) * (|rep| - 1)
    decreases |s|
  {
    if s != [] {
      ReplaceLength(s[1..], c, rep);
    }
  }

  /** After the replacement no `c` is left, unless `rep` itself brings one back. */
  lemma {:induction false} ReplaceRemoves(s: string, c: char, rep: string)
    requires c !in rep
    ensures c !in Replace(s, c, rep)
    decreases |s|
  {
    if s != [] {
      ReplaceRemoves(s[1..], c, rep);
    }
  }

  /** Replacing by a one-character string leaves `s` unchanged exactly when `c` does not occur. */
  lemma {:induction false} ReplaceIdentity(s: string, c: char, d: char)
    requires c != d
    ensures |Replace(s, c, [d])| == |s|
    ensures Replace(s, c, [d]) == s <==> c !in s
    decreases |s|
  {
    if s != [] {
      ReplaceIdentity(s[1..], c, d);
      var r := Replace(s, c, [d]);
      assert r == [if s[0] == c then d else s[0]] + Replace(s[1..], c, [d]);
      if r == s {
        assert r[0] == s[0];
        assert r[1..] == s[1..];
      }
      if c !in s {
        assert c !in s[1..];
      }
    }
  }

  /** A one-for-one replacement changes exactly the positions holding `c`. */
  lemma {:induction false} ReplacePointwise(s: string, c: char, d: char)
    ensures |Replace(s, c, [d])| == |s|
    ensures forall k :: 0 <= k < |s| ==> Replace(s, c, [d])[k] == (if s[k] == c then d else s[k])
    decreases |s|
  {
    if s != [] {
      ReplacePointwise(s[1..], c, d);
    }
  }
}
