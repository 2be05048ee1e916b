/**
 * A worked example of the whole pipeline: project `g/p` with page `Install`, exclusion prefix
 * `danger`, and a server that answers only the raw-page URL with two bash
 * blocks. The second block is excluded and the file holds `echo hi\n`.
 */
module Scenario {
  import opened Wrappers
  import opened Text
  import opened Scanner
  import Endpoints
  import Fetch
  import Filter
  import Assoc
  import Pipeline
  import Output

  const Body1: string := "echo hi\n"
  const Body2: string := "danger_rm -rf /\n"
  const Opening: string := "```bash\n"
  const Gap: string := "\n\n"

  /** The markdown "```bash\necho hi\n```\n\n```bash\ndanger_rm -rf /\n```". */
  const Page: string := Opening + Body1 + "```" + Gap + Opening + Body2 + "```"

  /** "https://gitlab.com/g/p/-/wikis/Install/raw" */
  const RawInstall: string := Endpoints.RawUrl("g/p", "Install")

  /** The server: 200 with the page for the raw URL, 404 for everything else. */
  function Server(req: Fetch.Request): Fetch.Outcome {
    if req.url == RawInstall then Fetch.Response(200, Page, None) else Fetch.Response(404, "", None)
  }

  const Config: Pipeline.Config :=
    Pipeline.Config(Some([Pipeline.WikiSource("g/p", ["Install"])]), Some(["danger"]))

  /** A string lacking a character of `sub` cannot contain `sub`. */
  lemma {:induction false} MissingCharNotContained(s: string, sub: string, c: char)
    requires c in sub && c !in s
    ensures !Contains(s, sub)
    decreases |s|
  {
    assert !StartsWith(s, sub) by {
      if |sub| <= |s| {
        var k :| 0 <= k < |sub| && sub[k] == c;
        assert s[k] == c ==> c in s;
      }
    }
    if |s| > 0 {
      assert c !in s[1..] by { assert forall j :: 0 <= j < |s| - 1 ==> s[1..][j] == s[j + 1]; }
      MissingCharNotContained(s[1..], sub, c);
    }
  }

  /** The ways the page's seven pieces are regrouped below. */
  lemma Regroup(a: string, b: string, c: string, d: string, e: string, f: string, g: string)
    ensures a + b + c + d + e + f + g == [] + a + b + c + (d + e + f + g)
    ensures a + b + c + d + e + f + g == (a + b + c + d) + e + f + g + []
    ensures a + b + c + d + e + f + g == a + (b + (c + d + e + f + g))
    ensures a + b + c + d + e + f + g == (a + b + c + d + e) + (f + g)
  {
  }

  lemma FirstSpan()
    ensures MatchAt(Page, 0) == Some(Span(0, 7, 8, 16, 19))
  {
    Regroup(Opening, Body1, "```", Gap, Opening, Body2, "```");
    assert '`' !in Body1 && !IsSpace(Body1[0]);
    BashBlockMatches([], Body1, Gap + Opening + Body2 + "```");
  }

  lemma SecondSpan()
    ensures MatchAt(Page, 21) == Some(Span(21, 28, 29, 45, 48))
  {
    Regroup(Opening, Body1, "```", Gap, Opening, Body2, "```");
    assert '`' !in Body2 && !IsSpace(Body2[0]);
    BashBlockMatches(Opening + Body1 + "```" + Gap, Body2, []);
  }

  lemma PageShape()
    ensures |Page| == 48 && Page[19] == '\n' && Page[20] == '\n'
    ensures Page[8..16] == Body1 && Page[29..45] == Body2
  {
    Regroup(Opening, Body1, "```", Gap, Opening, Body2, "```");
    assert Page[19] == Gap[0] && Page[20] == Gap[1];
    assert Page[8..16] == (Opening + (Body1 + ("```" + Gap + Opening + Body2 + "```")))[8..16];
    assert Page[29..45] == ((Opening + Body1 + "```" + Gap + Opening) + (Body2 + "```"))[29..45];
  }

  lemma ScanFromGap()
    ensures Scan(Page, 19) == [Span(21, 28, 29, 45, 48)]
  {
    PageShape();
    SecondSpan();
    assert MatchAt(Page, 19).None? && MatchAt(Page, 20).None?;
    assert Scan(Page, 48) == [];
    assert Scan(Page, 21) == [Span(21, 28, 29, 45, 48)];
    assert Scan(Page, 20) == Scan(Page, 21);
  }

  /** The regex finds the two blocks of the page, in order. */
  lemma PageMatches()
    ensures Matches(Page) == [Body1, Body2]
  {
    FirstSpan();
    ScanFromGap();
    PageShape();
    assert Scan(Page, 0) == [Span(0, 7, 8, 16, 19), Span(21, 28, 29, 45, 48)];
  }

  lemma StrippedBody1()
    ensures Strip(Body1) == "echo hi"
  {
    var r := "echo hi";
    assert r[0] == 'e' && r[|r| - 1] == 'i';
    assert Trimmed(r);
    assert AllSpace("\n");
    StripOf([], r, "\n");
    assert [] + r + "\n" == Body1;
  }

  lemma StrippedBody2()
    ensures Strip(Body2) == "danger_rm -rf /"
  {
    var r := "danger_rm -rf /";
    assert r[0] == 'd' && r[|r| - 1] == '/';
    assert Trimmed(r);
    assert AllSpace("\n");
    StripOf([], r, "\n");
    assert [] + r + "\n" == Body2;
  }

  lemma Decisions()
    ensures Filter.Keep("echo hi", ["danger"])
    ensures !Filter.Keep("danger_rm -rf /", ["danger"])
  {
    assert LowerStr("echo hi")[0] == 'e' && LowerStr("danger")[0] == 'd';
    assert LowerStr("danger_rm -rf /")[..6] == "danger";
    assert LowerStr("danger") == "danger";
  }

  lemma FilterSecond()
    ensures Filter.FilterBlocks([Body2], ["danger"]) == []
  {
    StrippedBody2();
    Decisions();
    assert [Body2][1..] == [];
  }

  lemma FilterBoth()
    ensures Filter.FilterBlocks([Body1, Body2], ["danger"]) == ["echo hi"]
  {
    StrippedBody1();
    Decisions();
    FilterSecond();
    assert [Body1, Body2][1..] == [Body2];
  }

  /** Extraction yields both blocks, the filter drops the one starting with "danger". */
  lemma PageCodes()
    ensures Filter.ExtractBashCodeBlocks(Page, ["danger"]) == ["echo hi"]
  {
    PageMatches();
    FilterBoth();
  }

  lemma ApiUrlChar(repo: string, name: string)
    ensures |Endpoints.ApiUrl(repo, name)| > 19 && Endpoints.ApiUrl(repo, name)[19] == 'a'
  {
    var head := Endpoints.Host + Endpoints.ApiMarker;
    assert |Endpoints.Host| == 18 && |Endpoints.ApiMarker| == 8;
    assert head[19] == Endpoints.ApiMarker[1] == 'a';
  }

  lemma RawUrlChar(repo: string, name: string)
    requires repo != []
    ensures |Endpoints.RawUrl(repo, name)| > 19 && Endpoints.RawUrl(repo, name)[19] == repo[0]
  {
    var host := Endpoints.Host + "/";
    assert |host| == 19;
    assert Endpoints.RawUrl(repo, name) == host + (repo + "/-/wikis/" + name + "/raw");
  }

  lemma ApiUrlIsNotRaw(name: string)
    ensures Endpoints.ApiUrl("g/p", name) != RawInstall
  {
    ApiUrlChar("g/p", name);
    RawUrlChar("g/p", "Install");
  }

  lemma InstallCandidates()
    ensures Endpoints.CandidateUrls("g/p", "Install")[2] == RawInstall
    ensures Endpoints.CandidateUrls("g/p", "Install")[0] != RawInstall
    ensures Endpoints.CandidateUrls("g/p", "Install")[1] != RawInstall
  {
    assert ' ' !in "Install";
    assert Endpoints.Slug("Install") == "Install";
    ApiUrlIsNotRaw("Install");
  }

  lemma RawInstallIsNotApi()
    ensures !Contains(RawInstall, Endpoints.ApiMarker)
  {
    var host := Endpoints.Host + "/";
    var path := "g/p/-/wikis/Install/raw";
    assert RawInstall == host + path;
    assert 'v' !in host && 'v' !in path;
    assert 'v' !in RawInstall;
    assert Endpoints.ApiMarker[5] == 'v';
    MissingCharNotContained(RawInstall, Endpoints.ApiMarker, 'v');
  }

  lemma ServerRejects(u: string, h: map<string, string>)
    requires u != RawInstall
    ensures !Fetch.Succeeds(Server(Fetch.Request(u, h)))
  {
  }

  lemma ServerServes(h: map<string, string>)
    ensures Fetch.Succeeds(Server(Fetch.Request(RawInstall, h)))
    ensures Fetch.SuccessValue(RawInstall, Server(Fetch.Request(RawInstall, h))) == Page
  {
    RawInstallIsNotApi();
  }

  /** The first two candidates fail and the third answers: three requests, the third one's value. */
  lemma ThirdCandidateAnswers(repo: string, page: string, token: Option<string>, oracle: Fetch.Oracle)
    requires var urls := Endpoints.CandidateUrls(repo, page);
      && !Fetch.Succeeds(oracle(Fetch.Request(urls[0], Fetch.Headers(token))))
      && !Fetch.Succeeds(oracle(Fetch.Request(urls[1], Fetch.Headers(token))))
      && Fetch.Succeeds(oracle(Fetch.Request(urls[2], Fetch.Headers(token))))
    ensures var urls := Endpoints.CandidateUrls(repo, page);
      var f := Fetch.FetchWikiPage(repo, page, token, oracle);
      && f.result == Some(Fetch.SuccessValue(urls[2], oracle(Fetch.Request(urls[2], Fetch.Headers(token)))))
      && |f.requested| == 3
  {
    Fetch.FetchShortCircuits(repo, page, token, oracle, 2);
  }

  /** Both API candidates get 404, the raw slug URL answers with the page body. */
  lemma FetchInstall()
    ensures Fetch.FetchWikiPage("g/p", "Install", None, Server).result == Some(Page)
    ensures |Fetch.FetchWikiPage("g/p", "Install", None, Server).requested| == 3
  {
    var repo, page, token := "g/p", "Install", None;
    var urls := Endpoints.CandidateUrls(repo, page);
    var h := Fetch.Headers(token);
    InstallCandidates();
    ServerRejects(urls[0], h);
    ServerRejects(urls[1], h);
    ServerServes(h);
    ThirdCandidateAnswers(repo, page, token, Server);
  }

  lemma InstallCodes()
    ensures Pipeline.CodesFor("g/p", "Install", ["danger"], None, Server) == ["echo hi"]
  {
    FetchInstall();
    PageCodes();
  }

  lemma OnePage(repo: string, page: string, ps: seq<string>, token: Option<string>, oracle: Fetch.Oracle)
    ensures Pipeline.ProcessPages(repo, [page], ps, token, oracle, [])
         == [(page, Pipeline.CodesFor(repo, page, ps, token, oracle))]
  {
    assert [page][1..] == [];
  }

  lemma OneSource(src: Pipeline.WikiSource, ps: seq<string>, token: Option<string>, oracle: Fetch.Oracle)
    ensures Pipeline.ProcessRepos([src], ps, token, oracle, [])
         == [(src.repo, Pipeline.RepoPages(src, ps, token, oracle))]
  {
    assert [src][1..] == [];
  }

  lemma InstallResults()
    ensures Pipeline.BuildResults(Config, None, Server) == [("g/p", [("Install", ["echo hi"])])]
  {
    InstallCodes();
    var src := Pipeline.WikiSource("g/p", ["Install"]);
    OnePage("g/p", "Install", ["danger"], None, Server);
    OneSource(src, ["danger"], None, Server);
  }

  lemma InstallFile()
    ensures Output.SaveResults([("g/p", [("Install", ["echo hi"])])]) == [("g_p_bash.sh", "echo hi\n")]
  {
    assert Replace("g/p", '/', "_") == "g_p";
    assert Output.RepoFileName("g/p") == "g_p" + "_bash.sh" == "g_p_bash.sh";
    assert Output.RenderCodes(["echo hi"]) == "echo hi\n";
    assert Output.RenderPages([("Install", ["echo hi"])]) == "echo hi\n";
    var files := Output.SaveResults([("g/p", [("Install", ["echo hi"])])]);
    assert |files| == 1 && files[0] == ("g_p_bash.sh", "echo hi\n");
  }

  /** The whole pipeline writes one file, `g_p_bash.sh`, holding `echo hi\n`. */
  lemma EndToEnd()
    ensures Output.SaveResults(Pipeline.BuildResults(Config, None, Server)) == [("g_p_bash.sh", "echo hi\n")]
  {
    InstallResults();
    InstallFile();
  }
}
