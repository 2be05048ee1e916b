/**
 * The loop of `main`: for every configured project reset its entry to an
 * empty dict, then fetch, extract and filter every configured page and
 * record the codes under the page name. A page whose content is `None` or
 * empty is recorded with no codes.
 */
module Pipeline {
  import opened Wrappers
  import opened Assoc
  import Fetch
  import Filter
  import Endpoints

  /** One entry of `wiki_pages`: a project path and its page names. */
  datatype WikiSource = WikiSource(repo: string, pages: seq<string>)

  /** The configuration keys the loop reads; an absent key is `None`. */
  datatype Config = Config(wikiPages: Option<seq<WikiSource>>, excludePrefix: Option<seq<string>>)

  const DefaultExcludePrefixes: seq<string> := ["ssr"]

  function Sources(c: Config): seq<WikiSource> {
    c.wikiPages.GetOr([])
  }

  function ExcludePrefixes(c: Config): seq<string> {
    c.excludePrefix.GetOr(DefaultExcludePrefixes)
  }

  type PageResults = Dict<seq<string>>
  type Results = Dict<PageResults>

  /** What the loop stores for a page, given the fetched content. */
  function PageCodes(content: Option<string>, prefixes: seq<string>): (codes: seq<string>)
    ensures content.None? || content == Some("") ==> codes == []
    ensures forall x :: x in codes ==> Filter.Keep(x, prefixes)
  {
    if content.Some? && content.value != "" then Filter.ExtractBashCodeBlocks(content.value, prefixes) else []
  }

  /** The codes one page gets, fetch included. */
  function CodesFor(repo: string, page: string, prefixes: seq<string>, token: Option<string>, oracle: Fetch.Oracle): (codes: seq<string>)
    ensures Fetch.FetchWikiPage(repo, page, token, oracle).result.None? ==> codes == []
    ensures forall x :: x in codes ==> Filter.Keep(x, prefixes)
  {
    PageCodes(Fetch.FetchWikiPage(repo, page, token, oracle).result, prefixes)
  }

  /** The inner loop: `results[repo][page] = codes` for each page in turn. */
  function ProcessPages(repo: string, pages: seq<string>, prefixes: seq<string>, token: Option<string>,
                        oracle: Fetch.Oracle, acc: PageResults): (r: PageResults)
    ensures Keys(r) == InsertionOrder(Keys(acc), pages)
    decreases |pages|
  {
    if pages == [] then acc
    else ProcessPages(repo, pages[1..], prefixes, token, oracle,
                      Put(acc, pages[0], CodesFor(repo, pages[0], prefixes, token, oracle)))
  }

  /** The dict a project ends up with, starting from `results[repo] = {}`. */
  function RepoPages(src: WikiSource, prefixes: seq<string>, token: Option<string>, oracle: Fetch.Oracle): PageResults {
    ProcessPages(src.repo, src.pages, prefixes, token, oracle, [])
  }

  /** The outer loop over the configured projects. */
  function ProcessRepos(sources: seq<WikiSource>, prefixes: seq<string>, token: Option<string>,
                        oracle: Fetch.Oracle, results: Results): (r: Results)
    ensures Keys(r) == InsertionOrder(Keys(results), Repos(sources))
    decreases |sources|
  {
    if sources == [] then results
    else
      var src := sources[0];
      assert Repos(sources) == [src.repo] + Repos(sources[1..]);
      var reset := Put(results, src.repo, []);
      ProcessRepos(sources[1..], prefixes, token, oracle,
                   Put(reset, src.repo, RepoPages(src, prefixes, token, oracle)))
  }

  /** `results` as `main` hands it to `save_results`. */
  function BuildResults(config: Config, token: Option<string>, oracle: Fetch.Oracle): (r: Results)
    ensures Keys(r) == InsertionOrder([], Repos(Sources(config)))
  {
    ProcessRepos(Sources(config), ExcludePrefixes(config), token, oracle, [])
  }

  function Repos(sources: seq<WikiSource>): (rs: seq<string>)
    ensures |rs| == |sources|
    ensures forall k :: 0 <= k < |sources| ==> rs[k] == sources[k].repo
  {
    seq(|sources|, k requires 0 <= k < |sources| => sources[k].repo)
  }

  /**
   * Every configured page gets an entry holding its codes, pages are keyed
   * in the order of their first mention, and keys not configured keep what
   * they had.
   */
  lemma {:induction false} PagesRecorded(repo: string, pages: seq<string>, prefixes: seq<string>,
                                         token: Option<string>, oracle: Fetch.Oracle, acc: PageResults)
    ensures var r := ProcessPages(repo, pages, prefixes, token, oracle, acc);
      && (forall p :: p in pages ==> Get(r, p) == Some(CodesFor(repo, p, prefixes, token, oracle)))
      && (forall p :: p !in pages ==> Get(r, p) == Get(acc, p))
      && Keys(r) == InsertionOrder(Keys(acc), pages)
    decreases |pages|
  {
    if pages != [] {
      var acc' := Put(acc, pages[0], CodesFor(repo, pages[0], prefixes, token, oracle));
      PagesRecorded(repo, pages[1..], prefixes, token, oracle, acc');
      assert forall p :: p in pages <==> p == pages[0] || p in pages[1..];
    }
  }

  /**
   * Keys not configured keep their value, and projects are keyed in the
   * order of their first mention: a repeated project keeps its place.
   */
  lemma {:induction false} ReposKeyed(sources: seq<WikiSource>, prefixes: seq<string>, token: Option<string>,
                                      oracle: Fetch.Oracle, acc: Results)
    ensures var r := ProcessRepos(sources, prefixes, token, oracle, acc);
      && (forall x :: x !in Repos(sources) ==> Get(r, x) == Get(acc, x))
      && Keys(r) == InsertionOrder(Keys(acc), Repos(sources))
    decreases |sources|
  {
    if sources != [] {
      var src, tail := sources[0], sources[1..];
      var reset := Put(acc, src.repo, []);
      var filled := Put(reset, src.repo, RepoPages(src, prefixes, token, oracle));
      var r := ProcessRepos(sources, prefixes, token, oracle, acc);
      assert r == ProcessRepos(tail, prefixes, token, oracle, filled);
      ReposKeyed(tail, prefixes, token, oracle, filled);
      assert Repos(sources) == [src.repo] + Repos(tail);
      forall x | x !in Repos(sources)
        ensures Get(r, x) == Get(acc, x)
      {
        assert x != src.repo && x !in Repos(tail);
      }
    }
  }

  /**
   * A project's entry is the dict built from its LAST configuration entry:
   * a repeated project is reset, losing the pages of its earlier entries.
   */
  lemma {:induction false} LastSourceWins(sources: seq<WikiSource>, prefixes: seq<string>, token: Option<string>,
                                          oracle: Fetch.Oracle, acc: Results, k: nat)
    requires k < |sources|
    requires forall j :: k < j < |sources| ==> sources[j].repo != sources[k].repo
    ensures Get(ProcessRepos(sources, prefixes, token, oracle, acc), sources[k].repo)
         == Some(RepoPages(sources[k], prefixes, token, oracle))
    decreases |sources|
  {
    var src, tail := sources[0], sources[1..];
    var reset := Put(acc, src.repo, []);
    var filled := Put(reset, src.repo, RepoPages(src, prefixes, token, oracle));
    assert ProcessRepos(sources, prefixes, token, oracle, acc) == ProcessRepos(tail, prefixes, token, oracle, filled);
    assert forall j :: 0 <= j < |tail| ==> tail[j] == sources[j + 1];
    if k == 0 {
      ReposKeyed(tail, prefixes, token, oracle, filled);
      assert src.repo !in Repos(tail);
    } else {
      assert tail[k - 1] == sources[k];
      LastSourceWins(tail, prefixes, token, oracle, filled, k - 1);
    }
  }

  /**
   * End to end over `main`'s loop: every page of a project's last
   * configuration entry is present with its codes, and a page only named in
   * an earlier entry of the same project is gone.
   */
  lemma EveryPageOfLastEntryRecorded(config: Config, token: Option<string>, oracle: Fetch.Oracle, k: nat, page: string)
    requires k < |Sources(config)|
    requires forall j :: k < j < |Sources(config)| ==> Sources(config)[j].repo != Sources(config)[k].repo
    ensures var src := Sources(config)[k];
      var entry := Get(BuildResults(config, token, oracle), src.repo);
      && entry.Some?
      && (page in src.pages ==> Get(entry.value, page) == Some(CodesFor(src.repo, page, ExcludePrefixes(config), token, oracle)))
      && (page !in src.pages ==> Get(entry.value, page).None?)
  {
    var src := Sources(config)[k];
    LastSourceWins(Sources(config), ExcludePrefixes(config), token, oracle, [], k);
    PagesRecorded(src.repo, src.pages, ExcludePrefixes(config), token, oracle, []);
  }

  /** Every configured project has an entry, in the order of first mention. */
  lemma EveryRepoRecorded(config: Config, token: Option<string>, oracle: Fetch.Oracle)
    ensures Keys(BuildResults(config, token, oracle)) == InsertionOrder([], Repos(Sources(config)))
    ensures forall x :: x in Repos(Sources(config)) ==> Get(BuildResults(config, token, oracle), x).Some?
  {
    var ss := Sources(config);
    ReposKeyed(ss, ExcludePrefixes(config), token, oracle, []);
    forall x | x in Repos(ss)
      ensures Get(BuildResults(config, token, oracle), x).Some?
    {
      var k :| 0 <= k < |ss| && ss[k].repo == x;
      var last := LastIndex(ss, x, k);
      LastSourceWins(ss, ExcludePrefixes(config), token, oracle, [], last);
    }
  }

  /** The last index at or after `k` whose project is `x`. */
  function LastIndex(ss: seq<WikiSource>, x: string, k: nat): (last: nat)
    requires k < |ss| && ss[k].repo == x
    ensures k <= last < |ss| && ss[last].repo == x
    ensures forall j :: last < j < |ss| ==> ss[j].repo != x
    decreases |ss| - k
  {
    if exists j :: k < j < |ss| && ss[j].repo == x then
      var j :| k < j < |ss| && ss[j].repo == x;
      LastIndex(ss, x, j)
    else k
  }

  /** A page none of whose four candidates answers 200 is recorded with no codes. */
  lemma UnobtainablePageHasNoCodes(repo: string, page: string, prefixes: seq<string>, token: Option<string>, oracle: Fetch.Oracle)
    requires forall k :: 0 <= k < 4 ==>
      !Fetch.Succeeds(oracle(Fetch.Request(Endpoints.CandidateUrls(repo, page)[k], Fetch.Headers(token))))
    ensures CodesFor(repo, page, prefixes, token, oracle) == []
  {
    Fetch.FetchAllFail(repo, page, token, oracle);
  }

  /** The default exclusion list applies only when the key is absent; an empty list excludes nothing. */
  lemma DefaultPrefixes(pages: Option<seq<WikiSource>>)
    ensures ExcludePrefixes(Config(pages, None)) == ["ssr"]
    ensures ExcludePrefixes(Config(pages, Some([]))) == []
  {
  }
}
