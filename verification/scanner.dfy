/**
 * `re.findall(r'```(?:bash|sh|shell)\s*\n(.*?)```', text, DOTALL | IGNORECASE)`
 * written out as a left-to-right scanner.
 *
 * At a position the regex needs an opening fence, one of the tags (ASCII
 * case-insensitive), a whitespace run that holds a newline and, after that
 * newline, a closing fence. The greedy `\s*` backtracks to the LAST newline
 * of the maximal whitespace run, so the capture starts just after it; the
 * lazy `.*?` stops at the FIRST closing fence. After a match the scan resumes
 * behind the closing fence, otherwise one character further on.
 */
module Scanner {
  import opened Wrappers
  import opened Text

  const Tags: seq<string> := ["bash", "sh", "shell"]

  /** Three backticks start at `i`. */
  predicate FenceAt(s: string, i: int) {
    0 <= i && i + 3 <= |s| && s[i] == '`' && s[i + 1] == '`' && s[i + 2] == '`'
  }

  /** The text at `j` spells the lower-case `tag` up to ASCII case. */
  predicate TagAt(s: string, j: nat, tag: string) {
    j + |tag| <= |s| && forall k :: 0 <= k < |tag| ==> Lower(s[j + k]) == tag[k]
  }

  /**
   * The regex can match at `i` choosing `tag`, consuming the newline at `q`
   * for `\n`, and closing with the fence at `f`.
   */
  predicate IsMatch(s: string, i: nat, tag: string, q: nat, f: nat) {
    && tag in Tags
    && FenceAt(s, i)
    && TagAt(s, i + 3, tag)
    && i + 3 + |tag| <= q < f
    && FenceAt(s, f)
    && SpaceBetween(s, i + 3 + |tag|, q + 1)
    && s[q] == '\n'
  }

  /** Read as text, a regex match is a fence, the tag up to case, whitespace ending in the newline, and, later, a fence. */
  lemma IsMatchSpelled(s: string, i: nat, tag: string, q: nat, f: nat)
    requires IsMatch(s, i, tag, q, f)
    ensures s[i..i + 3] == "```"
    ensures LowerStr(s[i + 3..i + 3 + |tag|]) == tag
    ensures AllSpace(s[i + 3 + |tag|..q + 1]) && s[q] == '\n'
    ensures s[f..f + 3] == "```"
  {
  }

  /** Where a match sits: the opening fence at `start`, the tag up to `tagEnd`, the capture `[capStart, capEnd)`, the closing fence up to `end`. */
  datatype Span = Span(start: nat, tagEnd: nat, capStart: nat, capEnd: nat, end: nat)

  /** The shape every reported span has: `IsMatch` with the capture starting after the newline and ending at the first closing fence. */
  predicate Opens(s: string, sp: Span, tag: string) {
    && sp.tagEnd == sp.start + 3 + |tag|
    && 1 <= sp.capStart <= sp.capEnd
    && IsMatch(s, sp.start, tag, sp.capStart - 1, sp.capEnd)
    && sp.end == sp.capEnd + 3
    && (forall j :: sp.capStart <= j < sp.capEnd ==> !FenceAt(s, j))
    && (forall j :: sp.capStart <= j < SpaceRunEnd(s, sp.tagEnd) ==> s[j] != '\n')
  }

  function FindFence(s: string, k: nat): (r: Option<nat>)
    ensures r.Some? ==> k <= r.value && FenceAt(s, r.value)
    ensures r.Some? ==> forall j :: k <= j < r.value ==> !FenceAt(s, j)
    ensures r.None? ==> forall j :: k <= j ==> !FenceAt(s, j)
    decreases |s| - k
  {
    if k + 3 > |s| then None
    else if FenceAt(s, k) then Some(k)
    else FindFence(s, k + 1)
  }

  /** The last newline in `[lo, hi)`. */
  function LastNewline(s: string, lo: nat, hi: nat): (r: Option<nat>)
    requires lo <= hi <= |s|
    ensures r.Some? ==> lo <= r.value < hi && s[r.value] == '\n'
    ensures r.Some? ==> forall j :: r.value < j < hi ==> s[j] != '\n'
    ensures r.None? ==> forall j :: lo <= j < hi ==> s[j] != '\n'
    decreases hi - lo
  {
    if lo == hi then None
    else if s[hi - 1] == '\n' then Some(hi - 1)
    else LastNewline(s, lo, hi - 1)
  }

  /** One branch of the alternation: the regex with `tag` in place of the group. */
  function TryTag(s: string, i: nat, tag: string): (r: Option<Span>)
    requires tag in Tags
    ensures r.Some? ==> r.value.start == i && Opens(s, r.value, tag)
  {
    if !(FenceAt(s, i) && TagAt(s, i + 3, tag)) then None
    else
      var t := i + 3 + |tag|;
      var w := SpaceRunEnd(s, t);
      match LastNewline(s, t, w)
      case None => None
      case Some(p) =>
        match FindFence(s, p + 1)
        case None => None
        case Some(f) => Some(Span(i, t, p + 1, f, f + 3))
  }

  /** The regex tried at position `i`, alternatives in their written order. */
  function MatchAt(s: string, i: nat): (r: Option<Span>)
    ensures r.Some? ==> r.value.start == i && r.value.end <= |s|
    ensures r.Some? ==> Opens(s, r.value, "bash") || Opens(s, r.value, "sh") || Opens(s, r.value, "shell")
  {
    var a := TryTag(s, i, "bash");
    if a.Some? then a
    else
      var b := TryTag(s, i, "sh");
      if b.Some? then b else TryTag(s, i, "shell")
  }

  /** Whenever the regex has a way to match with `tag`, that branch of the scanner finds a match. */
  lemma TryTagComplete(s: string, i: nat, tag: string, q: nat, f: nat)
    requires IsMatch(s, i, tag, q, f)
    ensures TryTag(s, i, tag).Some?
  {
    var t := i + 3 + |tag|;
    var w := SpaceRunEnd(s, t);
    assert q < w;
    var p := LastNewline(s, t, w);
    assert p.Some?;
    assert w <= f;
    assert FindFence(s, p.value + 1).Some?;
  }

  /** The scanner matches at `i` exactly when the regex can. */
  lemma MatchAtComplete(s: string, i: nat, tag: string, q: nat, f: nat)
    requires IsMatch(s, i, tag, q, f)
    ensures MatchAt(s, i).Some?
  {
    TryTagComplete(s, i, tag, q, f);
  }

  /** A table of attempts: every success starts where it was tried and ends after that, inside the text. */
  predicate Advancing(t: seq<Option<Span>>) {
    forall k :: 0 <= k < |t| && t[k].Some? ==> t[k].value.start == k < t[k].value.end <= |t|
  }

  /** The regex tried at every position of `s`. */
  function Attempts(s: string): (t: seq<Option<Span>>)
    ensures |t| == |s| && Advancing(t)
  {
    seq(|s|, k requires 0 <= k < |s| => MatchAt(s, k))
  }

  /** The `finditer` loop over a table of attempts: take a match and resume behind it, or move on by one. */
  function Walk(t: seq<Option<Span>>, i: nat): (spans: seq<Span>)
    requires Advancing(t) && i <= |t|
    ensures forall k :: 0 <= k < |spans| ==> i <= spans[k].start < |t| && t[spans[k].start] == Some(spans[k])
    ensures forall k :: 0 <= k < |spans| - 1 ==> spans[k].end <= spans[k + 1].start
    decreases |t| - i
  {
    if i == |t| then []
    else
      match t[i]
      case Some(sp) => [sp] + Walk(t, sp.end)
      case None => Walk(t, i + 1)
  }

  /** `re.findall` from position `i`: the spans of all matches, left to right. */
  function Scan(s: string, i: nat): (spans: seq<Span>)
    requires i <= |s|
    ensures forall k :: 0 <= k < |spans| ==> i <= spans[k].start && MatchAt(s, spans[k].start) == Some(spans[k])
    ensures forall k :: 0 <= k < |spans| ==> spans[k].end <= |s|
    ensures forall k :: 0 <= k < |spans| - 1 ==> spans[k].end <= spans[k + 1].start
  {
    Walk(Attempts(s), i)
  }

  /** The captured group of every match, in text order. */
  function Matches(s: string): (ms: seq<string>)
    ensures |ms| == |Scan(s, 0)|
    ensures forall k :: 0 <= k < |ms| ==> ms[k] == s[Scan(s, 0)[k].capStart..Scan(s, 0)[k].capEnd]
  {
    var spans := Scan(s, 0);
    seq(|spans|, k requires 0 <= k < |spans| => s[spans[k].capStart..spans[k].capEnd])
  }

  /** Some span of `spans` contains position `p`. */
  predicate Covers(spans: seq<Span>, p: nat) {
    exists k :: 0 <= k < |spans| && spans[k].start <= p < spans[k].end
  }

  lemma CoversCons(sp: Span, rest: seq<Span>, p: nat)
    requires Covers(rest, p)
    ensures Covers([sp] + rest, p)
  {
    var k :| 0 <= k < |rest| && rest[k].start <= p < rest[k].end;
    assert ([sp] + rest)[k + 1] == rest[k];
  }

  lemma CoversHead(sp: Span, rest: seq<Span>, p: nat)
    requires sp.start <= p < sp.end
    ensures Covers([sp] + rest, p)
  {
    assert ([sp] + rest)[0] == sp;
  }

  lemma {:induction false} WalkCovers(t: seq<Option<Span>>, i: nat, p: nat)
    requires Advancing(t) && i <= p < |t| && t[p].Some?
    ensures Covers(Walk(t, i), p)
    decreases |t| - i
  {
    match t[i]
    case Some(sp) =>
      if p < sp.end {
        CoversHead(sp, Walk(t, sp.end), p);
      } else {
        WalkCovers(t, sp.end, p);
        CoversCons(sp, Walk(t, sp.end), p);
      }
    case None =>
      WalkCovers(t, i + 1, p);
  }

  /**
   * No match is skipped: every position where the regex could match lies
   * inside a reported span, so the spans are the leftmost non-overlapping ones.
   */
  lemma ScanCovers(s: string, i: nat, p: nat)
    requires i <= p < |s|
    requires MatchAt(s, p).Some?
    ensures Covers(Scan(s, i), p)
  {
    assert Attempts(s)[p] == MatchAt(s, p);
    WalkCovers(Attempts(s), i, p);
  }

  /** The scan is empty exactly when the regex matches nowhere. */
  lemma ScanEmptyIff(s: string)
    ensures Scan(s, 0) == [] <==> forall p :: 0 <= p < |s| ==> MatchAt(s, p).None?
  {
    forall p | 0 <= p < |s| && MatchAt(s, p).Some?
      ensures Scan(s, 0) != []
    {
      ScanCovers(s, 0, p);
    }
    if Scan(s, 0) != [] {
      var sp := Scan(s, 0)[0];
      assert MatchAt(s, sp.start).Some? && sp.start < |s|;
    }
  }

  /** A capture never contains three backticks. */
  lemma CaptureHasNoFence(s: string)
    ensures forall k, j :: 0 <= k < |Matches(s)| ==> !FenceAt(Matches(s)[k], j)
  {
    var spans := Scan(s, 0);
    forall k, j | 0 <= k < |Matches(s)|
      ensures !FenceAt(Matches(s)[k], j)
    {
      var sp := spans[k];
      var m := Matches(s)[k];
      assert m == s[sp.capStart..sp.capEnd];
      assert MatchAt(s, sp.start) == Some(sp);
      assert FenceAt(m, j) ==> FenceAt(s, sp.capStart + j);
    }
  }

  /** The layout of a reported span, whichever tag it used. */
  lemma SpanShape(s: string, sp: Span)
    requires MatchAt(s, sp.start) == Some(sp)
    ensures sp.start + 3 < sp.tagEnd < sp.capStart <= sp.capEnd && sp.end == sp.capEnd + 3 <= |s|
    ensures SpaceBetween(s, sp.tagEnd, sp.capStart) && s[sp.capStart - 1] == '\n'
    ensures FenceAt(s, sp.start) && FenceAt(s, sp.capEnd)
    ensures forall j :: sp.capStart <= j < sp.capEnd ==> !FenceAt(s, j)
    ensures forall j :: sp.capStart <= j < SpaceRunEnd(s, sp.tagEnd) ==> s[j] != '\n'
  {
    if Opens(s, sp, "bash") {
      OpensShape(s, sp, "bash");
    } else if Opens(s, sp, "sh") {
      OpensShape(s, sp, "sh");
    } else {
      OpensShape(s, sp, "shell");
    }
  }

  /** The layout `Opens` gives for one tag. */
  lemma OpensShape(s: string, sp: Span, tag: string)
    requires Opens(s, sp, tag) && |tag| >= 2
    ensures sp.start + 3 < sp.tagEnd < sp.capStart <= sp.capEnd && sp.end == sp.capEnd + 3 <= |s|
    ensures SpaceBetween(s, sp.tagEnd, sp.capStart) && s[sp.capStart - 1] == '\n'
    ensures FenceAt(s, sp.start) && FenceAt(s, sp.capEnd)
    ensures forall j :: sp.capStart <= j < sp.capEnd ==> !FenceAt(s, j)
    ensures forall j :: sp.capStart <= j < SpaceRunEnd(s, sp.tagEnd) ==> s[j] != '\n'
  {
  }

  /**
   * Stripped, a capture is the text after the tag up to the first closing
   * fence: where the newline sits inside the whitespace run no longer matters.
   */
  lemma CaptureStripsLikeTagTail(s: string, sp: Span)
    requires MatchAt(s, sp.start) == Some(sp)
    ensures Strip(s[sp.capStart..sp.capEnd]) == Strip(s[sp.tagEnd..sp.capEnd])
    ensures FindFence(s, sp.tagEnd) == Some(sp.capEnd)
  {
    SpanShape(s, sp);
    StripPastSpaces(s, sp.tagEnd, sp.capStart, sp.capEnd);
    FirstFenceFrom(s, sp.tagEnd, sp.capStart, sp.capEnd);
  }

  lemma StripPastSpaces(s: string, a: nat, b: nat, c: nat)
    requires a <= b <= c <= |s| && SpaceBetween(s, a, b)
    ensures Strip(s[b..c]) == Strip(s[a..c])
  {
    var w := s[a..b];
    assert AllSpace(w);
    assert s[a..c] == w + s[b..c];
    StripIgnoresLeadingSpace(w, s[b..c]);
  }

  lemma FirstFenceFrom(s: string, a: nat, b: nat, c: nat)
    requires a <= b <= c && FenceAt(s, c) && SpaceBetween(s, a, b)
    requires forall j :: b <= j < c ==> !FenceAt(s, j)
    ensures FindFence(s, a) == Some(c)
  {
    assert forall j :: a <= j < b ==> !FenceAt(s, j);
  }

  /** A block opened by "```bash" and a newline, whose body has no backticks, ends at the next fence. */
  lemma BashBlockAt(s: string, i: nat, c: nat)
    requires FenceAt(s, i) && TagAt(s, i + 3, "bash") && i + 8 <= c && FenceAt(s, c)
    requires s[i + 7] == '\n' && (c == i + 8 || !IsSpace(s[i + 8]))
    requires forall j :: i + 8 <= j < c ==> s[j] != '`'
    ensures MatchAt(s, i) == Some(Span(i, i + 7, i + 8, c, c + 3))
  {
    assert SpaceRunEnd(s, i + 8) == i + 8;
    assert SpaceRunEnd(s, i + 7) == i + 8;
    assert LastNewline(s, i + 7, i + 8) == Some(i + 7);
    assert FindFence(s, i + 8) == Some(c);
  }

  /** Where the pieces of `pre + "```bash\n" + body + "```" + post` sit. */
  lemma BashLayout(pre: string, body: string, post: string)
    ensures var s := pre + "```bash\n" + body + "```" + post;
      var i, c := |pre|, |pre| + 8 + |body|;
      && c + 3 <= |s|
      && FenceAt(s, i) && TagAt(s, i + 3, "bash") && s[i + 7] == '\n' && FenceAt(s, c)
      && (forall j :: i + 8 <= j < c ==> s[j] == body[j - (i + 8)])
  {
    var open := "```bash\n";
    var s := pre + open + body + "```" + post;
    var i := |pre|;
    var c := i + 8 + |body|;
    assert s == pre + (open + (body + ("```" + post)));
    assert s[i..i + 8] == open;
    assert s[i + 8..c] == body;
    assert s[c..c + 3] == "```";
    assert s[i] == open[0] && s[i + 1] == open[1] && s[i + 2] == open[2];
    assert s[i + 3] == open[3] && s[i + 4] == open[4] && s[i + 5] == open[5] && s[i + 6] == open[6];
    assert s[i + 7] == open[7];
    assert s[c] == '`' && s[c + 1] == '`' && s[c + 2] == '`';
  }

  /**
   * A well-formed block, the opening line "```bash" followed by a body without
   * backticks and the closing fence, matches with the body as its capture.
   */
  lemma BashBlockMatches(pre: string, body: string, post: string)
    requires '`' !in body
    requires body == [] || !IsSpace(body[0])
    ensures var s := pre + "```bash\n" + body + "```" + post;
      var i := |pre|;
      MatchAt(s, i) == Some(Span(i, i + 7, i + 8, i + 8 + |body|, i + 11 + |body|))
  {
    var s := pre + "```bash\n" + body + "```" + post;
    var i := |pre|;
    var c := i + 8 + |body|;
    BashLayout(pre, body, post);
    assert forall j :: i + 8 <= j < c ==> s[j] == body[j - (i + 8)] && body[j - (i + 8)] in body;
    assert c > i + 8 ==> s[i + 8] == body[0];
    BashBlockAt(s, i, c);
  }

  /** Any match needs an opening fence and a later, separate closing fence. */
  lemma MatchNeedsTwoFences(s: string)
    ensures Scan(s, 0) != [] ==> exists i, f :: FenceAt(s, i) && FenceAt(s, f) && i + 3 <= f
  {
    if Scan(s, 0) != [] {
      var sp := Scan(s, 0)[0];
      assert MatchAt(s, sp.start) == Some(sp);
      assert FenceAt(s, sp.start) && FenceAt(s, sp.capEnd);
    }
  }

  /** A text with no closing fence after any opening one yields no match. */
  lemma UnterminatedYieldsNothing(s: string)
    requires forall i, f :: FenceAt(s, i) && FenceAt(s, f) ==> f < i + 3
    ensures Matches(s) == []
  {
    MatchNeedsTwoFences(s);
  }

  /** Text after the tag other than whitespace stops the match: "```bash title" opens nothing. */
  lemma TrailingWordBlocksMatch()
    ensures Matches("```bash title\necho\n```") == []
  {
    var w := "bash title\necho\n";
    var s := "```" + w + "```";
    assert s == "```bash title\necho\n```";
    assert |s| == 22 && '`' !in w;
    forall p | 0 <= p < |s|
      ensures MatchAt(s, p).None?
    {
      if p == 0 {
        assert SpaceRunEnd(s, 8) == 8;
        assert SpaceRunEnd(s, 7) == 8;
        assert LastNewline(s, 7, 8).None?;
        assert TryTag(s, 0, "bash").None?;
        assert Lower(s[3]) == 'b' && "sh"[0] == 's' && "shell"[0] == 's';
        assert !TagAt(s, 3, "sh") && !TagAt(s, 3, "shell");
      } else if p < 19 {
        var j := if p < 3 then 0 else p - 3;
        assert s[j + 3] == w[j] && w[j] in w;
        assert !FenceAt(s, p);
      } else {
        assert !TagAt(s, p + 3, "bash") && !TagAt(s, p + 3, "sh") && !TagAt(s, p + 3, "shell");
      }
    }
    ScanEmptyIff(s);
  }
}
