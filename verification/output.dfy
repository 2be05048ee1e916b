/**
 * `save_results`: one script file per project. The file name is the project
 * path with `/` turned into `_` plus `_bash.sh`; the content is every code of
 * every page, each followed by a newline, pages and codes in insertion order.
 */
module Output {
  import opened Text
  import opened Assoc
  import Pipeline

  const Suffix: string := "_bash.sh"

  function RepoFileName(repo: string): (name: string)
    ensures '/' !in name
    ensures |name| == |repo| + |Suffix| && name[|repo|..] == Suffix
    ensures forall k :: 0 <= k < |repo| ==> name[k] == (if repo[k] == '/' then '_' else repo[k])
  {
    ReplaceRemoves(repo, '/', "_");
    ReplacePointwise(repo, '/', '_');
    Replace(repo, '/', "_") + Suffix
  }

  /** The writes for one page: `f.write(f"{code}\n")` for each code. */
  function RenderCodes(codes: seq<string>): (r: string)
    ensures r == "" <==> codes == []
    ensures codes != [] ==> r[|r| - 1] == '\n'
    decreases |codes|
  {
    if codes == [] then "" else codes[0] + "\n" + RenderCodes(codes[1..])
  }

  /** The content of one project's file. */
  function RenderPages(pages: Pipeline.PageResults): (r: string)
    ensures r == "" <==> forall k :: 0 <= k < |pages| ==> pages[k].1 == []
    decreases |pages|
  {
    if pages == [] then ""
    else (if pages[0].1 != [] then RenderCodes(pages[0].1) else "") + RenderPages(pages[1..])
  }

  /** The (file name, content) pair written for each project, in the order of `results`. */
  function SaveResults(results: Pipeline.Results): (files: seq<(string, string)>)
    ensures |files| == |results|
    ensures forall k :: 0 <= k < |results| ==> '/' !in files[k].0
    ensures forall k :: 0 <= k < |results| ==>
      files[k].0 == RepoFileName(results[k].0) && files[k].1 == RenderCodes(AllCodes(results[k].1))
  {
    EveryFileIsAllCodes(results);
    seq(|results|, k requires 0 <= k < |results| => (RepoFileName(results[k].0), RenderPages(results[k].1)))
  }

  /** All codes of all pages, in order. */
  function AllCodes(pages: Pipeline.PageResults): seq<string>
    decreases |pages|
  {
    if pages == [] then [] else pages[0].1 + AllCodes(pages[1..])
  }

  /** Writing codes in two batches writes their concatenation. */
  lemma {:induction false} RenderCodesAppend(a: seq<string>, b: seq<string>)
    ensures RenderCodes(a + b) == RenderCodes(a) + RenderCodes(b)
    decreases |a|
  {
    if a == [] {
      assert a + b == b;
    } else {
      assert (a + b)[0] == a[0] && (a + b)[1..] == a[1..] + b;
      RenderCodesAppend(a[1..], b);
      assert RenderCodes(a + b) == a[0] + "\n" + (RenderCodes(a[1..]) + RenderCodes(b));
    }
  }

  /** A file is the newline-terminated codes of all its pages, with no header or separator. */
  lemma {:induction false} RenderPagesIsAllCodes(pages: Pipeline.PageResults)
    ensures RenderPages(pages) == RenderCodes(AllCodes(pages))
    decreases |pages|
  {
    if pages != [] {
      RenderPagesIsAllCodes(pages[1..]);
      RenderCodesAppend(pages[0].1, AllCodes(pages[1..]));
    }
  }

  lemma EveryFileIsAllCodes(results: Pipeline.Results)
    ensures forall k :: 0 <= k < |results| ==> RenderPages(results[k].1) == RenderCodes(AllCodes(results[k].1))
  {
    forall k | 0 <= k < |results|
      ensures RenderPages(results[k].1) == RenderCodes(AllCodes(results[k].1))
    {
      RenderPagesIsAllCodes(results[k].1);
    }
  }

  /** Each code takes its own length plus one newline. */
  lemma {:induction false} RenderCodesLength(codes: seq<string>)
    ensures |RenderCodes(codes)| == |codes| + SumLengths(codes)
    decreases |codes|
  {
    if codes != [] {
      RenderCodesLength(codes[1..]);
    }
  }

  function SumLengths(codes: seq<string>): nat
    decreases |codes|
  {
    if codes == [] then 0 else |codes[0]| + SumLengths(codes[1..])
  }

  /** A page with no codes contributes nothing wherever it sits. */
  lemma {:induction false} EmptyPageContributesNothing(a: Pipeline.PageResults, page: string, b: Pipeline.PageResults)
    ensures RenderPages(a + [(page, [])] + b) == RenderPages(a) + RenderPages(b)
    decreases |a|
  {
    if a == [] {
      assert a + [(page, [])] + b == [(page, [])] + b;
      assert ([(page, [])] + b)[1..] == b;
    } else {
      assert (a + [(page, [])] + b)[1..] == a[1..] + [(page, [])] + b;
      EmptyPageContributesNothing(a[1..], page, b);
    }
  }

  /** A project whose pages all have no codes still gets a file, and it is empty. */
  lemma {:induction false} AllEmptyGivesEmptyFile(pages: Pipeline.PageResults)
    requires forall k :: 0 <= k < |pages| ==> pages[k].1 == []
    ensures RenderPages(pages) == ""
    decreases |pages|
  {
    if pages != [] {
      AllEmptyGivesEmptyFile(pages[1..]);
    }
  }

  /** No later pair of `files` has the name of pair `k`. */
  predicate LastWrite(files: seq<(string, string)>, k: nat)
    requires k < |files|
  {
    forall j :: k < j < |files| ==> files[j].0 != files[k].0
  }

  /** The names written by `files`. */
  function Names(files: seq<(string, string)>): set<string> {
    set k | 0 <= k < |files| :: files[k].0
  }

  /** The names of a non-empty batch: its first name and those of the rest. */
  lemma NamesCons(files: seq<(string, string)>)
    requires files != []
    ensures Names(files) == {files[0].0} + Names(files[1..])
  {
    var tail := files[1..];
    assert forall k :: 0 <= k < |tail| ==> tail[k] == files[k + 1];
    forall name | name in Names(files)
      ensures name == files[0].0 || name in Names(tail)
    {
      var k :| 0 <= k < |files| && files[k].0 == name;
      if k > 0 { assert tail[k - 1].0 == name; }
    }
  }

  /**
   * The directory after the writes, starting from the files `before` already
   * in it: nothing is deleted, a written name holds the content of its last
   * write, and every other file is left as it was.
   */
  function WriteAll(before: map<string, string>, files: seq<(string, string)>): (disk: map<string, string>)
    ensures disk.Keys == before.Keys + Names(files)
    ensures forall k :: 0 <= k < |files| && LastWrite(files, k) ==> disk[files[k].0] == files[k].1
    ensures forall name :: name in before && name !in Names(files) ==> disk[name] == before[name]
    decreases |files|
  {
    if files == [] then before
    else
      var first, rest := files[0], files[1..];
      var disk := WriteAll(before[first.0 := first.1], rest);
      NamesCons(files);
      assert forall k :: 0 <= k < |rest| ==> rest[k] == files[k + 1];
      assert forall k :: 1 <= k < |files| && LastWrite(files, k) ==> LastWrite(rest, k - 1);
      assert LastWrite(files, 0) ==> first.0 !in Names(rest);
      disk
  }

  /** Two projects whose file names coincide leave only the later one's file. */
  lemma LaterWriteWins(before: map<string, string>, r1: string, p: Pipeline.PageResults, r2: string, q: Pipeline.PageResults)
    requires RepoFileName(r1) == RepoFileName(r2)
    ensures WriteAll(before, SaveResults([(r1, p), (r2, q)])) == before[RepoFileName(r2) := RenderPages(q)]
  {
    var name := RepoFileName(r2);
    assert SaveResults([(r1, p), (r2, q)]) == [(name, RenderPages(p)), (name, RenderPages(q))];
    WriteTwice(before, name, RenderPages(p), RenderPages(q));
  }

  /** Writing the same name twice leaves the second content. */
  lemma WriteTwice(before: map<string, string>, name: string, a: string, b: string)
    ensures WriteAll(before, [(name, a), (name, b)]) == before[name := b]
  {
    var files := [(name, a), (name, b)];
    assert files[1..] == [(name, b)] && files[1..][1..] == [];
    assert WriteAll(before, files) == before[name := a][name := b];
  }

  /** The projects `a/b` and `a_b` share a file name, so the later one overwrites the earlier file. */
  lemma FileNameCollision(before: map<string, string>, p: Pipeline.PageResults, q: Pipeline.PageResults)
    ensures RepoFileName("a/b") == RepoFileName("a_b") == "a_b_bash.sh"
    ensures WriteAll(before, SaveResults([("a/b", p), ("a_b", q)])) == before["a_b_bash.sh" := RenderPages(q)]
  {
    CollidingName();
    LaterWriteWins(before, "a/b", p, "a_b", q);
  }

  /** `a/b` and `a_b` give the same file name. */
  lemma CollidingName()
    ensures RepoFileName("a/b") == "a_b_bash.sh" && RepoFileName("a_b") == "a_b_bash.sh"
  {
    var ab := "a_b";
    assert Replace("a/b", '/', "_") == ab;
    assert Replace(ab, '/', "_") == ab;
    assert ab + Suffix == "a_b_bash.sh";
  }
}
