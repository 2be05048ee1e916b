# fetch_wiki_bash: a Dafny model

`fetch_wiki_bash.py` collects shell snippets from GitLab wiki pages. For every
configured project and page it does four things:

1. It builds four candidate URLs: two wiki-API calls, then two raw-page URLs, slug before verbatim in each pair.
2. It asks for them in order until one answers 200.
3. It extracts every fenced `bash`/`sh`/`shell` block with a regular expression and drops blocks that are empty after stripping or that start with an exclusion prefix.
4. It writes one `<project>_bash.sh` file per project that holds every kept block, each followed by a newline.

This project models that pipeline as pure functions and proves what each
step guarantees.

| module | file | what it models |
|---|---|---|
| `Wrappers` | wrappers.dfy | `Option` |
| `Text` | text.dfy | `str.isspace`, ASCII `lower()`, `startswith`, `in`, `strip()`, single-character `replace` |
| `Endpoints` | endpoints.dfy | project-path encoding, page slug, the four candidate URLs |
| `Fetch` | fetch.dfy | the fallback loop of `fetch_wiki_page`, with the network as an oracle `Request -> Outcome` |
| `Scanner` | scanner.dfy | `re.findall(r'```(?:bash\|sh\|shell)\s*\n(.*?)```', …, DOTALL \| IGNORECASE)` as a left-to-right scanner |
| `Filter` | filter.dfy | the strip and prefix-exclusion loop of `extract_bash_code_blocks` |
| `Assoc` | assoc.dfy | a Python `dict` as an association list: re-assigning a key keeps its position |
| `Pipeline` | pipeline.dfy | the results loop of `main` |
| `Output` | output.dfy | `save_results` as (file name, content) pairs, and the last-write-wins effect of writing them |
| `Scenario` | scenario.dfy | a worked example of the whole pipeline: one project, one page, a server that only answers the raw URL |

The scanner follows the regex engine rather than idealised Markdown.

- **Where a match starts.** A match starts only at three backticks followed by a tag. The tags are tried in the order `bash`, `sh`, `shell`, compared ASCII case-insensitively. The tag must be followed by a whitespace run that holds a newline.
- **The whitespace run.** Because `\s*` is greedy and backtracks, the capture starts after the LAST newline of the maximal whitespace run.
- **Where the capture ends.** Because `.*?` is lazy, the capture ends at the first later fence.
- **Resuming.** After a match the scan resumes behind the closing fence. Otherwise it moves on by one character.

`Scanner.IsMatch` restates the regex as a relation, independently of the scanner. The scanner is proved sound against it (`Scanner.MatchAt`) and complete (`Scanner.MatchAtComplete`). The scan is also proved to skip no match (`Scanner.ScanCovers`).

The network, the configuration and the token are parameters. The network is an oracle function from a request (URL and headers) to an outcome:

- a transport error;
- or a response with a status, a body text and an optional JSON `content` field.

The configuration is a `Pipeline.Config` whose absent keys are `None`. The token is an `Option<string>`.

The opening-fence line is handled the way the code handles it. After the tag, the regular expression allows only whitespace before the newline. "```bash title" therefore opens no block (`Scanner.TrailingWordBlocksMatch`).

## Model

| member | source | states |
|---|---|---|
| Text.StripOf | fetch_wiki_bash.py:95 | `strip()` of whitespace + a trimmed middle + whitespace is that middle: the result is characterised without reference to how it is computed |
| Text.StripSplits | fetch_wiki_bash.py:95 | the result of `strip()` is trimmed at both ends and the input is whitespace + result + whitespace |
| Text.StripIdempotent | fetch_wiki_bash.py:95 | stripping twice is stripping once |
| Text.StripIgnoresLeadingSpace | fetch_wiki_bash.py:95 | leading whitespace never changes the stripped result |
| Text.ReplaceLength | fetch_wiki_bash.py:32 | replacing a character by `rep` changes the length by the length of `rep` minus one, per occurrence |
| Text.ReplaceRemoves | fetch_wiki_bash.py:32 | after `replace(c, rep)` with `c` not in `rep` no `c` is left |
| Text.ReplacePointwise | fetch_wiki_bash.py:35 | a one-for-one replacement keeps the length and changes exactly the positions holding the replaced character |
| Text.ReplaceIdentity | fetch_wiki_bash.py:35 | a one-for-one replacement keeps the length and leaves the string unchanged exactly when the character does not occur |
| Endpoints.EncodeRepo | fetch_wiki_bash.py:32 | the encoded project path contains no `/` and is two characters longer per `/` |
| Endpoints.DecodeEncode | fetch_wiki_bash.py:32 | decoding `%2F` back to `/` recovers every project path that has no `%` of its own |
| Endpoints.Slug | fetch_wiki_bash.py:35 | the slug has no space, the same length, the same characters at non-space positions, and equals the page name exactly when the name has no space |
| Endpoints.CandidateUrls | fetch_wiki_bash.py:42-49 | there are exactly four candidates and the first two are API URLs (contain `/api/v4/`) |
| Endpoints.ApiUsesMarker | fetch_wiki_bash.py:44-45 | every API candidate contains `/api/v4/`, so it always takes the JSON branch |
| Endpoints.CandidatesCoincide | fetch_wiki_bash.py:44-48 | candidate 0 equals candidate 1, and candidate 2 equals candidate 3, exactly when the page name has no space |
| Endpoints.RawUrlCanLookLikeApi | fetch_wiki_bash.py:47-58 | a project path beginning with `api/v4/` makes both raw candidates contain `/api/v4/` as well, so they too take the JSON branch |
| Fetch.Headers | fetch_wiki_bash.py:37-39 | the `PRIVATE-TOKEN` header is present exactly when the token is truthy, holds the token, and is the only header |
| Fetch.SuccessValue | fetch_wiki_bash.py:57-62 | an API URL yields the `content` field or `""` when it is absent; any other URL yields the body text |
| Fetch.TryUrls | fetch_wiki_bash.py:51-68 | the requests sent are a prefix of the candidates with the same headers; all but the last failed; a result exists exactly when the last succeeded and is its success value; no result means every candidate was asked and failed |
| Fetch.FetchWikiPage | fetch_wiki_bash.py:27-68 | at most four requests are sent, request `k` is candidate `k` with the token headers, and no result means all four were sent; `Fetch.FetchShortCircuits` and `Fetch.FetchAllFail` fix the result |
| Fetch.FetchShortCircuits | fetch_wiki_bash.py:51-62 | when candidate `n` is the first to answer 200, exactly candidates `0..n` are requested and the result is candidate `n`'s value |
| Fetch.FetchAllFail | fetch_wiki_bash.py:63-68 | when no candidate answers 200, errors and non-200 statuses alike, all four are asked and the result is `None` |
| Fetch.ApiCandidatesYieldContent | fetch_wiki_bash.py:44-60 | a success within the first two requests is always the JSON `content` value |
| Fetch.TokenOnEveryRequest | fetch_wiki_bash.py:37-53 | every request sent carries the token header exactly when the token is truthy |
| Fetch.FailingUrlRequestedTwice | fetch_wiki_bash.py:44-65 | for a page name without a space, a failing first API URL is requested twice in a row |
| Scanner.TryTag | fetch_wiki_bash.py:90 | a match found for one alternative starts at the tried position and has the regex's shape: fence, tag, whitespace ending in a newline that is the last one of the whitespace run, capture with no fence, closing fence |
| Scanner.MatchAt | fetch_wiki_bash.py:90-91 | a match at `i` starts at `i`, ends inside the text and has that shape for one of `bash`, `sh`, `shell` |
| Scanner.TryTagComplete | fetch_wiki_bash.py:90 | whenever the regex relation `IsMatch` holds for a tag, that alternative finds a match |
| Scanner.MatchAtComplete | fetch_wiki_bash.py:90-91 | whenever the regex can match at `i`, the scanner matches at `i` |
| Scanner.Walk | fetch_wiki_bash.py:91 | the `findall` loop reports only successful attempts, at or after its start, in order and without overlap |
| Scanner.Scan | fetch_wiki_bash.py:91 | every reported span is the scanner's match at its own start, lies in the text, and spans are ordered and disjoint |
| Scanner.ScanCovers | fetch_wiki_bash.py:91 | every position where the regex could match lies inside a reported span: no match is skipped |
| Scanner.ScanEmptyIff | fetch_wiki_bash.py:91 | `findall` returns nothing exactly when the regex matches at no position |
| Scanner.CaptureHasNoFence | fetch_wiki_bash.py:90-91 | no capture contains three backticks |
| Scanner.SpanShape | fetch_wiki_bash.py:90 | a reported span is fence, tag, whitespace ending in a newline, capture, closing fence, with no fence inside the capture and no newline between the capture start and the end of the whitespace run |
| Scanner.CaptureStripsLikeTagTail | fetch_wiki_bash.py:90-95 | stripped, a capture equals the stripped text from the end of the tag to the first following fence |
| Scanner.BashBlockMatches | fetch_wiki_bash.py:90-91 | "```bash", a newline, a body without backticks that starts with a non-space, and a fence match with exactly the body captured |
| Scanner.MatchNeedsTwoFences | fetch_wiki_bash.py:90 | any match needs an opening fence and a separate later closing fence |
| Scanner.UnterminatedYieldsNothing | fetch_wiki_bash.py:90-91 | a text without two separate fences yields no capture |
| Scanner.TrailingWordBlocksMatch | fetch_wiki_bash.py:90 | a word after the tag on the opening line prevents the match |
| Scanner.IsMatchSpelled | fetch_wiki_bash.py:90 | the regex relation `Scanner.IsMatch`, read as text: three backticks, the tag up to ASCII case, whitespace ending in the consumed newline, and a later closing fence; the scanner is tied to it by `Scanner.MatchAt`, `Scanner.MatchAtComplete` and `Scanner.ScanCovers` |
| Scanner.Matches | fetch_wiki_bash.py:91 | `findall`'s result is the captures of the reported spans in order; what they are is stated by `Scanner.Scan`, `Scanner.ScanCovers` and `Scanner.CaptureStripsLikeTagTail` |
| Filter.Excluded | fetch_wiki_bash.py:97-103 | the prefix loop excludes a block exactly when some prefix, lower-cased, starts the lower-cased block |
| Filter.FilterBlocks | fetch_wiki_bash.py:93-108 | the output is a subsequence of the stripped captures, every element non-empty and not excluded, with as many elements as stripped captures passing that test |
| Filter.ExtractBashCodeBlocks | fetch_wiki_bash.py:71-108 | every returned block passes the prefix and emptiness test, and the result is a subsequence of the stripped captures of the scan; `Filter.FilterBlocks` gives its exact count and `Filter.RefilterIdempotent` its idempotence |
| Filter.PrefixOrderIrrelevant | fetch_wiki_bash.py:99-103 | only the set of prefixes matters, not their order or repetition |
| Filter.EmptyPrefixExcludesAll | fetch_wiki_bash.py:100 | an empty prefix excludes every block |
| Filter.MorePrefixesShrink | fetch_wiki_bash.py:99-106 | more prefixes give a subsequence of the output |
| Filter.RefilterIdempotent | fetch_wiki_bash.py:93-108 | filtering the output again with the same prefixes changes nothing |
| Filter.PartialWordExcluded | fetch_wiki_bash.py:100 | the test is textual and ignores ASCII case: `ssr` removes `SSRdeploy --all` but not `echo ssr` |
| Filter.OtherLanguageIgnored | fetch_wiki_bash.py:90-91 | a block tagged `python` yields nothing |
| Assoc.Get | fetch_wiki_bash.py:207-210 | a lookup succeeds exactly when the key is present; `Assoc.GetStored` states what it returns |
| Assoc.GetStored | fetch_wiki_bash.py:207-210 | the value a lookup returns is stored under the key, and in a dict with distinct keys the value stored under the key is what the lookup returns |
| Assoc.Put | fetch_wiki_bash.py:207-210 | assignment keeps the key order and appends a new key at the end; the key then maps to the value; other keys are unchanged |
| Assoc.PutKeepsKeysDistinct | fetch_wiki_bash.py:207-210 | assignments never create a duplicate key |
| Assoc.PutPut | fetch_wiki_bash.py:207-210 | assigning twice to a key equals assigning the second value once |
| Pipeline.PageCodes | fetch_wiki_bash.py:204-210 | no content and empty content alike give no codes, and every code kept passes the prefix test |
| Pipeline.CodesFor | fetch_wiki_bash.py:202-210 | a page whose fetch has no result gets no codes, and every code kept passes the prefix test; `Pipeline.UnobtainablePageHasNoCodes` ties it to the four failed candidates |
| Pipeline.ProcessPages | fetch_wiki_bash.py:198-210 | the page keys after the loop are the previous keys followed by the new pages in order of first mention; `Pipeline.PagesRecorded` gives each page's value |
| Pipeline.ProcessRepos | fetch_wiki_bash.py:189-210 | the project keys after the loop are the previous keys followed by the new projects in order of first mention; `Pipeline.LastSourceWins` gives each project's value |
| Pipeline.BuildResults | fetch_wiki_bash.py:187-210 | the result is keyed by the configured projects in order of first mention; `Pipeline.EveryPageOfLastEntryRecorded` gives the pages |
| Pipeline.PagesRecorded | fetch_wiki_bash.py:198-210 | every configured page maps to its codes, other keys keep their value, and pages are keyed in order of first mention |
| Pipeline.ReposKeyed | fetch_wiki_bash.py:189-196 | projects are keyed in order of first mention and unconfigured keys keep their value |
| Pipeline.LastSourceWins | fetch_wiki_bash.py:189-210 | a project's entry is built from its last configuration entry only, because `results[repo] = {}` resets it |
| Pipeline.EveryPageOfLastEntryRecorded | fetch_wiki_bash.py:187-210 | after the loop, a page of a project's last entry maps to its codes, and a page only named in an earlier entry of the same project is absent |
| Pipeline.EveryRepoRecorded | fetch_wiki_bash.py:187-196 | every configured project has an entry, keyed in order of first mention |
| Pipeline.UnobtainablePageHasNoCodes | fetch_wiki_bash.py:202-210 | a page none of whose candidates answers 200 is recorded with no codes |
| Pipeline.DefaultPrefixes | fetch_wiki_bash.py:177-178 | the exclusion list defaults to `["ssr"]` only when the key is absent; an explicit empty list excludes nothing |
| Output.RepoFileName | fetch_wiki_bash.py:151 | the file name is the project path with every `/` turned into `_` and every other character kept, followed by `_bash.sh`; it contains no `/` |
| Output.SaveResults | fetch_wiki_bash.py:150-164 | one file per project, in order: file `k` is named after project `k` and holds the newline-terminated codes of all its pages in order; no name has a `/` |
| Output.RenderCodes | fetch_wiki_bash.py:163-164 | nothing is written exactly when there are no codes, and otherwise the text ends with a newline; `Output.RenderCodesLength` and `Output.RenderCodesAppend` give its length and concatenation |
| Output.RenderPages | fetch_wiki_bash.py:160-164 | a project's file is empty exactly when none of its pages has a code; `Output.RenderPagesIsAllCodes` characterises its content |
| Output.RenderCodesAppend | fetch_wiki_bash.py:163-164 | writing codes in two batches writes their concatenation |
| Output.RenderPagesIsAllCodes | fetch_wiki_bash.py:160-164 | a file is the newline-terminated codes of all its pages in order, with no header or separator |
| Output.RenderCodesLength | fetch_wiki_bash.py:163-164 | each code adds its length plus one newline |
| Output.EmptyPageContributesNothing | fetch_wiki_bash.py:160-164 | a page with no codes contributes nothing wherever it sits |
| Output.AllEmptyGivesEmptyFile | fetch_wiki_bash.py:150-164 | a project whose pages have no codes still gets a file, and it is empty |
| Output.WriteAll | fetch_wiki_bash.py:150-154 | starting from the files already in the output directory (which `mkdir(exist_ok=True)` keeps), nothing is deleted: the directory holds the earlier files plus the written names, each written name holds the content of its last write, and every other file keeps its earlier content |
| Output.LaterWriteWins | fetch_wiki_bash.py:150-154 | two projects with the same file name leave only the later project's content under that name, whatever the directory held before, and every other file untouched |
| Output.FileNameCollision | fetch_wiki_bash.py:151 | projects `a/b` and `a_b` both write `a_b_bash.sh`, and only the second survives, whatever the directory held before |
| Scenario.PageMatches | fetch_wiki_bash.py:90-91 | the two blocks of the sample page are found, in order |
| Scenario.PageCodes | fetch_wiki_bash.py:90-108 | of the sample page's two blocks, the one starting with `danger` is dropped |
| Scenario.FetchInstall | fetch_wiki_bash.py:42-62 | with both API URLs answering 404, three requests are sent and the raw slug URL supplies the page |
| Scenario.InstallResults | fetch_wiki_bash.py:187-210 | the sample configuration produces `{"g/p": {"Install": ["echo hi"]}}` |
| Scenario.EndToEnd | fetch_wiki_bash.py:150-210 | the sample configuration leads to one file `g_p_bash.sh` holding `echo hi\n` |

## Left out

- The HTTP call, its 30-second timeout and JSON decoding (fetch_wiki_bash.py:53, 59) are replaced by the oracle outcome with an optional `content` string. A body that is not valid JSON, JSON that is not an object, and `content: null` are not modelled.
- Console output (`print`) is left out because it does not affect the results.
- `load_config` and the `GITHUB_TOKEN` lookup (fetch_wiki_bash.py:15-18, 182) are left out. The configuration and the token are parameters.
- The path of `output_dir` (fetch_wiki_bash.py:179), `Path.mkdir`, the unused timestamp and the I/O of each `open`/`write` (fetch_wiki_bash.py:113-116, 152-154) are not modelled. The directory is a map from file name to content; `Output.WriteAll` applies the (file name, content) pairs to the files already there.
- The commented-out summary, JSON and header writers (fetch_wiki_bash.py:119-147, 155-158, 162) are left out because they are inactive code.
- Python's Unicode case mapping is left out. `lower()` and `IGNORECASE` are modelled for ASCII letters only, so foldings such as `ſ` matching `s` under `IGNORECASE` are not modelled. Whitespace is the full `str.isspace` set, which is also what `\s` and `strip()` use.
- The `KeyError` raised by a configuration entry without `repo` or `pages` (fetch_wiki_bash.py:190-191) is not modelled. `Pipeline.WikiSource` always has both fields.
- Endpoints.CandidateUrls: its contract gives the count and which entries are API URLs. The exact strings are its definition, and `Endpoints.CandidatesCoincide`, `Endpoints.ApiUsesMarker` and `Endpoints.RawUrlCanLookLikeApi` relate them to each other.
- Fetch.Oracle: the network is a function of the request, so an identical request always gets the same answer. A transient failure followed by a success of the same URL is therefore not modelled. This affects candidates 0 and 1, or 2 and 3, of a page name without a space, and a page named twice.
