/**
 * The four candidate URLs tried for one wiki page of one GitLab project:
 * two calls to the wiki API, then two raw-page URLs. Each pair tries the
 * slug first and then the page name as written.
 */
module Endpoints {
  import opened Text

  const Host: string := "https://gitlab.com"
  const ApiMarker: string := "/api/v4/"

  /** The project path as the API expects it: every `/` becomes `%2F`. */
  function EncodeRepo(repo: string): (e: string)
    ensures '/' !in e
    ensures |e| == |repo| + 2 * Count(repo, '/')
  {
    ReplaceRemoves(repo, '/', "%2F");
    ReplaceLength(repo, '/', "%2F");
    Replace(repo, '/', "%2F")
  }

  /** Reverses `EncodeRepo` by turning each `%2F`, read left to right, back into `/`. */
  function DecodeRepo(e: string): string
    decreases |e|
  {
    if |e| >= 3 && e[..3] == "%2F" then "/" + DecodeRepo(e[3..])
    else if e == [] then []
    else [e[0]] + DecodeRepo(e[1..])
  }

  /** A project path with no `%` of its own survives the encoding. */
  lemma {:induction false} DecodeEncode(repo: string)
    requires '%' !in repo
    ensures DecodeRepo(EncodeRepo(repo)) == repo
    decreases |repo|
  {
    if repo != [] {
      var rest := Replace(repo[1..], '/', "%2F");
      assert EncodeRepo(repo) == Replace(repo, '/', "%2F");
      assert Replace(repo, '/', "%2F") == (if repo[0] == '/' then "%2F" else [repo[0]]) + rest;
      assert '%' !in repo[1..];
      DecodeEncode(repo[1..]);
      if repo[0] == '/' {
        var e := "%2F" + rest;
        assert e[..3] == "%2F" && e[3..] == rest;
      } else {
        var e := [repo[0]] + rest;
        assert e[0] == repo[0] && e[1..] == rest;
      }
    }
  }

  /** The wiki slug of a page name: every space becomes `-`. */
  function Slug(page: string): (s: string)
    ensures ' ' !in s
    ensures |s| == |page|
    ensures forall k :: 0 <= k < |page| && page[k] != ' ' ==> s[k] == page[k]
    ensures s == page <==> ' ' !in page
  {
    ReplaceRemoves(page, ' ', "-");
    ReplaceIdentity(page, ' ', '-');
    ReplacePointwise(page, ' ', '-');
    Replace(page, ' ', "-")
  }

  /** `https://gitlab.com/api/v4/projects/{encoded}/wikis/{name}`. */
  function ApiUrl(repo: string, name: string): string {
    Host + ApiMarker + "projects/" + EncodeRepo(repo) + "/wikis/" + name
  }

  /** `https://gitlab.com/{repo}/-/wikis/{name}/raw`. */
  function RawUrl(repo: string, name: string): string {
    Host + "/" + repo + "/-/wikis/" + name + "/raw"
  }

  /** The candidate list, in the order the fetch loop tries it. */
  function CandidateUrls(repo: string, page: string): (urls: seq<string>)
    ensures |urls| == 4
    ensures Contains(urls[0], ApiMarker) && Contains(urls[1], ApiMarker)
  {
    ApiUsesMarker(repo, Slug(page));
    ApiUsesMarker(repo, page);
    [ApiUrl(repo, Slug(page)), ApiUrl(repo, page), RawUrl(repo, Slug(page)), RawUrl(repo, page)]
  }

  lemma ApiUsesMarker(repo: string, name: string)
    ensures Contains(ApiUrl(repo, name), ApiMarker)
  {
    var tail := "projects/" + EncodeRepo(repo) + "/wikis/" + name;
    assert ApiUrl(repo, name) == Host + ApiMarker + tail;
    ContainsInfix(Host, ApiMarker, tail);
  }

  lemma SameFrame(p: string, x: string, y: string, q: string)
    requires |x| == |y|
    ensures p + x + q == p + y + q <==> x == y
  {
    if p + x + q == p + y + q {
      assert x == (p + x + q)[|p|..|p| + |x|];
      assert y == (p + y + q)[|p|..|p| + |y|];
    }
  }

  /**
   * The slug and the verbatim candidate of each pair coincide exactly when
   * the page name has no space; such a page is asked for twice per style.
   */
  lemma CandidatesCoincide(repo: string, page: string)
    ensures var urls := CandidateUrls(repo, page);
      && (urls[0] == urls[1] <==> ' ' !in page)
      && (urls[2] == urls[3] <==> ' ' !in page)
  {
    var api := Host + ApiMarker + "projects/" + EncodeRepo(repo) + "/wikis/";
    var raw := Host + "/" + repo + "/-/wikis/";
    SameFrame(api, Slug(page), page, "");
    assert ApiUrl(repo, Slug(page)) == api + Slug(page) + "";
    assert ApiUrl(repo, page) == api + page + "";
    SameFrame(raw, Slug(page), page, "/raw");
  }

  /**
   * The API test is textual: a project path beginning with `api/v4/` makes
   * even the raw candidates look like API calls.
   */
  lemma RawUrlCanLookLikeApi(rest: string, page: string)
    ensures Contains(CandidateUrls("api/v4/" + rest, page)[2], ApiMarker)
    ensures Contains(CandidateUrls("api/v4/" + rest, page)[3], ApiMarker)
  {
    var repo := "api/v4/" + rest;
    assert "/" + "api/v4/" == ApiMarker;
    forall name | name in {Slug(page), page}
      ensures Contains(RawUrl(repo, name), ApiMarker)
    {
      var tail := rest + "/-/wikis/" + name + "/raw";
      assert RawUrl(repo, name) == Host + ApiMarker + tail;
      ContainsInfix(Host, ApiMarker, tail);
    }
  }
}
