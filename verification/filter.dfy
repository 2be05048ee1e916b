/**
 * `extract_bash_code_blocks`: strip every regex capture and keep it when it
 * is non-empty and its lower-case form starts with none of the lower-cased
 * exclusion prefixes.
 */
module Filter {
  import opened Text
  import Scanner

  /** The inner loop over the prefixes, which stops at the first one that matches. */
  function Excluded(block: string, prefixes: seq<string>): (b: bool)
    ensures b <==> exists p :: p in prefixes && StartsWith(LowerStr(block), LowerStr(p))
    decreases |prefixes|
  {
    if prefixes == [] then false
    else if StartsWith(LowerStr(block), LowerStr(prefixes[0])) then true
    else Excluded(block, prefixes[1..])
  }

  /** The test `not should_exclude and block`. */
  predicate Keep(block: string, prefixes: seq<string>) {
    block != "" && !Excluded(block, prefixes)
  }

  function StripAll(raw: seq<string>): (r: seq<string>)
    ensures |r| == |raw|
    ensures forall k :: 0 <= k < |raw| ==> r[k] == Strip(raw[k])
  {
    seq(|raw|, k requires 0 <= k < |raw| => Strip(raw[k]))
  }

  /** `a` is obtained from `b` by deleting elements. */
  predicate IsSubseq(a: seq<string>, b: seq<string>)
    decreases |b|
  {
    && |a| <= |b|
    && (a == [] || (b != [] && ((a[0] == b[0] && IsSubseq(a[1..], b[1..])) || IsSubseq(a, b[1..]))))
  }

  /** How many of `xs` pass the test. */
  function CountKept(xs: seq<string>, prefixes: seq<string>): nat
    decreases |xs|
  {
    if xs == [] then 0 else (if Keep(xs[0], prefixes) then 1 else 0) + CountKept(xs[1..], prefixes)
  }

  /**
   * The loop over the raw captures. Its result is the subsequence of the
   * stripped captures that pass the test: every element passes, and there
   * are as many elements as stripped captures that pass.
   */
  function FilterBlocks(raw: seq<string>, prefixes: seq<string>): (out: seq<string>)
    ensures forall x :: x in out ==> Keep(x, prefixes)
    ensures IsSubseq(out, StripAll(raw))
    ensures |out| == CountKept(StripAll(raw), prefixes)
    decreases |raw|
  {
    if raw == [] then []
    else
      var b := Strip(raw[0]);
      var rest := FilterBlocks(raw[1..], prefixes);
      assert StripAll(raw) == [b] + StripAll(raw[1..]);
      if Keep(b, prefixes) then [b] + rest else rest
  }

  /** `extract_bash_code_blocks(content, prefixes)`. */
  function ExtractBashCodeBlocks(content: string, prefixes: seq<string>): (codes: seq<string>)
    ensures forall x :: x in codes ==> Keep(x, prefixes)
    ensures IsSubseq(codes, StripAll(Scanner.Matches(content)))
  {
    FilterBlocks(Scanner.Matches(content), prefixes)
  }

  /** Only the set of prefixes matters, not their order or repetition. */
  lemma {:induction false} PrefixOrderIrrelevant(raw: seq<string>, ps: seq<string>, qs: seq<string>)
    requires forall p :: p in ps <==> p in qs
    ensures FilterBlocks(raw, ps) == FilterBlocks(raw, qs)
    decreases |raw|
  {
    if raw != [] {
      PrefixOrderIrrelevant(raw[1..], ps, qs);
      assert Excluded(Strip(raw[0]), ps) == Excluded(Strip(raw[0]), qs);
    }
  }

  /** The empty prefix starts every string, so it excludes every block. */
  lemma {:induction false} EmptyPrefixExcludesAll(raw: seq<string>, ps: seq<string>)
    requires "" in ps
    ensures FilterBlocks(raw, ps) == []
    decreases |raw|
  {
    if raw != [] {
      assert StartsWith(LowerStr(Strip(raw[0])), LowerStr(""));
      EmptyPrefixExcludesAll(raw[1..], ps);
    }
  }

  /** More prefixes can only drop blocks: the output shrinks to a subsequence. */
  lemma {:induction false} MorePrefixesShrink(raw: seq<string>, ps: seq<string>, qs: seq<string>)
    requires forall p :: p in ps ==> p in qs
    ensures IsSubseq(FilterBlocks(raw, qs), FilterBlocks(raw, ps))
    decreases |raw|
  {
    if raw != [] {
      var b := Strip(raw[0]);
      var a' := FilterBlocks(raw[1..], qs);
      var b' := FilterBlocks(raw[1..], ps);
      MorePrefixesShrink(raw[1..], ps, qs);
      assert Keep(b, qs) ==> Keep(b, ps);
      if Keep(b, qs) {
        assert ([b] + a')[1..] == a' && ([b] + b')[1..] == b';
      } else if Keep(b, ps) {
        assert ([b] + b')[1..] == b';
      }
    }
  }

  /** Filtering the output again with the same prefixes changes nothing. */
  lemma {:induction false} RefilterIdempotent(raw: seq<string>, ps: seq<string>)
    ensures FilterBlocks(FilterBlocks(raw, ps), ps) == FilterBlocks(raw, ps)
    decreases |raw|
  {
    if raw != [] {
      var b := Strip(raw[0]);
      var rest := FilterBlocks(raw[1..], ps);
      RefilterIdempotent(raw[1..], ps);
      if Keep(b, ps) {
        StripIdempotent(raw[0]);
        assert ([b] + rest)[0] == b && ([b] + rest)[1..] == rest;
      }
    }
  }

  /** The prefix test is textual and ignores ASCII case: "ssr" also removes "SSRdeploy ...". */
  lemma PartialWordExcluded()
    ensures Excluded("SSRdeploy --all", ["ssr"])
    ensures !Excluded("echo ssr", ["ssr"])
  {
    assert LowerStr("SSRdeploy --all")[..3] == "ssr";
    assert LowerStr("echo ssr")[0] == 'e';
  }

  /** A block tagged with another language is never extracted. */
  lemma OtherLanguageIgnored(ps: seq<string>)
    ensures ExtractBashCodeBlocks("```python\nls\n```", ps) == []
  {
    var w := "python\nls\n";
    var s := "```" + w + "```";
    assert s == "```python\nls\n```";
    assert |s| == 16 && '`' !in w;
    forall p | 0 <= p < |s|
      ensures Scanner.MatchAt(s, p).None?
    {
      if p == 0 {
        assert Lower(s[3 + 0]) == 'p' && "bash"[0] == 'b' && "sh"[0] == 's' && "shell"[0] == 's';
        assert !Scanner.TagAt(s, 3, "bash") && !Scanner.TagAt(s, 3, "sh") && !Scanner.TagAt(s, 3, "shell");
      } else if p < 13 {
        var j := if p < 3 then 0 else p - 3;
        assert s[j + 3] == w[j] && w[j] in w;
        assert !Scanner.FenceAt(s, p);
      } else {
        assert !Scanner.TagAt(s, p + 3, "bash") && !Scanner.TagAt(s, p + 3, "sh") && !Scanner.TagAt(s, p + 3, "shell");
      }
    }
    Scanner.ScanEmptyIff(s);
  }
}
