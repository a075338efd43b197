# Flavortown search core in Dafny

Flavortown is a small Flask application that finds recipes on the web. It takes a
free-text query, asks a search backend for candidate URLs, ranks them, scrapes up
to twelve of them into recipe records, and keeps up to eight. Results are cached
per query. A second entry point checks a user-supplied URL against an allowlist of
recipe sites before scraping it.

This project models the deterministic string and list logic of `app.py` that sits
between the web layer and the external services. It proves what that logic
promises.

| file | module | what it models |
|---|---|---|
| `wrappers.dfy` | `Wrappers` | `Option` and `Result` |
| `text.dfy` | `Text` | Python `str.isspace`, ASCII `lower`, `in`, `endswith`, `find`, `strip` |
| `seqs.dfy` | `Seqs` | slicing `xs[:n]`, filtering comprehensions, subsequences |
| `domains.dfy` | `Domains` | the 19 supported domains and the 5 blocked sites |
| `query.dfy` | `Query` | `normalize_query`, `is_valid_query` and its anchored pattern |
| `url.dfy` | `Url` | `is_valid_url` and the part of `urlsplit` it relies on, plus the corrected host check |
| `search.dfy` | `Search` | `search_recipes` (ranking loop) and `search_allrecipes` (link loop) |
| `recipe.dfy` | `Recipe` | `extract_recipe`, including the instruction split |
| `collect.dfy` | `Collect` | the extract-and-collect loop of `api_search` |
| `cache.dfy` | `Cache` | the SQLite cache as a class holding a map |
| `api.dfy` | `Api` | `api_search` end to end |

Modelling choices:

- Whitespace is exactly the code points for which Python's `str.isspace()` holds. This governs `str.split()`, `str.strip()` and the regular-expression class `\s`.
- `\w` and `str.lower()` are restricted to ASCII.
- The pattern `^[\w\s,.'-]+$` is modelled as the `re` engine runs it. The greedy `+` backs off, and `$` also matches just before a final newline. The model proves this equals "non-empty, and every character in the class", since a newline is itself in the class.
- `urlsplit` follows CPython 3.12:
  - Leading C0 controls and spaces are stripped, then every tab, CR and LF is deleted.
  - The scheme is the text before the first `:` when it starts with an ASCII letter and holds only scheme characters. It is lower-cased.
  - The netloc follows `//` up to the first `/`, `?` or `#`.
  - A netloc with only one of `[` and `]` raises `ValueError`, modelled as a `Failure`.
- The search backend, the fallback page and the scraper are inputs:
  - The backend and the fallback page are sequences of hrefs. A failing backend or page is an empty sequence.
  - The scraper is a function from URL to the outcome of each accessor.
- `executor.map` returns results in candidate order, not in the order extractions finish, so extraction is a sequential map over the candidates and the cached list is in that order.
- `search_allrecipes` tests the count only after appending a link, so it can return one link when asked for none. The model states this as a cap of `max(n, 1)`. `search_recipes` always asks for 10.

## Model

| member | source | states |
|---|---|---|
| Query.Words | app.py:45 | `str.split()`: every piece is a non-empty run without whitespace |
| Query.Gaps | app.py:45 | the whitespace runs around the words of a text: one more than there are words, each whitespace only, the inner ones non-empty |
| Query.WordsInterleave | app.py:45 | where `split()` breaks: the text is exactly its words interleaved with those whitespace runs |
| Query.WordsContent | app.py:45 | the words, put together, are exactly the non-whitespace characters of the text, in order |
| Query.JoinWords | app.py:45 | `' '.join`; it has no contract of its own: Query.WordsOfJoin proves that `Words` undoes it |
| Query.NormalizeQuery | app.py:44-45 | the result has no whitespace at either end, and no whitespace but single spaces between words |
| Query.NormalizeKeepsWords | app.py:44-45 | the normalised query splits into exactly the words of the original |
| Query.WordsOfJoin | app.py:45 | `split()` undoes `' '.join` on whitespace-free words |
| Query.NormalizeKeepsText | app.py:44-45 | normalising keeps every non-whitespace character of the query, in order, and adds none |
| Query.NormalizeKeepsChars | app.py:44-45 | normalising adds no character but the space: any character class holding of the query and of `' '` holds of the result |
| Query.NormalizeIdempotent | app.py:44-45 | normalising twice equals normalising once |
| Query.NormalizeFixedPoints | app.py:44-45 | a query is unchanged by normalisation exactly when it already has the normalised shape |
| Query.QueryPatternMatches | app.py:31 | the anchored, backtracking match of `^[\w\s,.'-]+$`; a match needs a non-empty string starting with a class character |
| Query.QueryPatternMatchesIff | app.py:31 | the anchored pattern matches exactly the non-empty strings whose characters are all word characters, whitespace, `,`, `.`, `'` or `-` |
| Query.IsValidQuery | app.py:48-51 | `is_valid_query`: an accepted query has 1 to 160 characters and matches the pattern |
| Query.IsValidQueryIff | app.py:48-51 | `is_valid_query` holds exactly for non-empty queries of at most 160 characters drawn from that class; so it is false for the empty string and anything longer |
| Query.ValidQueryExample | app.py:48-51 | `soup, v-2` is accepted |
| Query.InvalidQueryExample | app.py:48-51 | `a;b` is refused because of the semicolon |
| Url.Split | app.py:60 | `urlsplit` as far as scheme and netloc go: a netloc it returns holds no `/`, `?` or `#`, and `[` exactly when `]` |
| Url.IsValidUrl | app.py:54-64 | `is_valid_url` as written: an accepted URL is non-empty, at most 500 characters and has no CR or LF; an empty, over-long or CR/LF URL is refused (`False`) before parsing; an exception comes only from `urlsplit` |
| Url.SplitComposed | app.py:60 | `urlsplit` takes `scheme://netloc` plus path, query and fragment apart again into the lower-cased scheme, the netloc and the rest |
| Url.AcceptedUrlShape | app.py:54-64 | an accepted URL is non-empty, at most 500 characters and free of CR and LF. After cleaning it reads `http(s)://authority` followed by nothing or a path, query or fragment. The authority is non-empty, and its text before the first `:`, lower-cased, is a supported domain or a subdomain of one |
| Url.ComposedVerdict | app.py:61-64 | for an http(s) URL within the guards, the verdict is exactly whether the host part of the netloc is trusted |
| Url.UserinfoBypass | app.py:63 | for every trusted host name `d`, and every password `pw` and host `evil`, all three made of lower-case ASCII letters, digits, dots and hyphens and at most 400 characters together, `https://d:pw@evil/` is accepted while the host a client would connect to is `evil`; the corrected check judges `evil` itself |
| Url.UserinfoBypassExample | app.py:63 | `https://food.com:x@evil.com/` is accepted by the check as written and refused by the corrected check |
| Url.IsValidUrlByHost | app.py:54-64 | the corrected check, comparing the host after the userinfo: the same guards, the same `False` for an empty, over-long or CR/LF URL, and the same exception as `is_valid_url` |
| Url.AcceptedByHostShape | app.py:63-64 | the corrected check accepts only URLs whose request host, after any userinfo and without the port, is a supported domain or a subdomain of one |
| Url.ComposedVerdictByHost | app.py:63-64 | the corrected verdict on an http(s) URL within the guards is whether its request host is trusted and is no IP literal |
| Url.ByHostAgreesWithoutUserinfo | app.py:63-64 | without `@` and brackets in the netloc, the corrected check gives the original verdict |
| Search.Ranked | app.py:96-106 | `priority_urls + other_urls`: no longer than the backend list, and every URL in it mentions a supported domain or no blocked site |
| Search.RankCandidates | app.py:96-106 | the partition loop returns the priority URLs followed by the other kept URLs, each group in backend order |
| Search.RankedCount | app.py:99-104 | every URL is kept as often as the backend returned it unless it mentions a blocked site and no supported domain, in which case it is dropped; a URL mentioning a supported domain is never dropped |
| Search.RankedMember | app.py:99-106 | a URL is in the ranked list exactly when the backend returned it and it mentions a supported domain or no blocked site |
| Search.RankedShape | app.py:96-106 | the ranked list is a block of priority URLs then a block of other URLs, each an order-preserving subsequence of the backend list |
| Search.DistinctLinks | app.py:123-126 | the collected links are recipe links with no repeats |
| Search.DistinctLinksMember | app.py:123-126 | a link is collected exactly when the page has it and it contains `allrecipes.com/recipe/` |
| Search.DistinctLinksOrder | app.py:123-126 | collected links appear in the order of their first occurrence on the page |
| Search.FallbackLinks | app.py:118-131 | what `search_allrecipes` returns: at most `max(n, 1)` links, each a recipe link |
| Search.CollectFallback | app.py:118-131 | the link loop with its early `break` returns the first `max(n, 1)` distinct recipe links of the page |
| Search.FallbackLinksProperties | app.py:123-128 | the fallback list has at most `max(n, 1)` links, no repeats, each a recipe link from the page, in first-occurrence order; it holds all of them when there are fewer |
| Search.SearchResult | app.py:89-114 | what `search_recipes` returns: at most 20 URLs, none when neither the backend nor the fallback page gives a usable link (its content is stated by `SearchResultSources`) |
| Search.SearchRecipes | app.py:89-114 | `search_recipes` returns the ranked list, or the fallback links only when the ranked list is empty, cut to 20 |
| Search.SearchResultSources | app.py:111-114 | the ranked list cut to its first min(20, n) URLs when it is non-empty, otherwise the fallback links cut to their first min(20, n); each URL a kept backend href or a recipe link from the fallback page |
| Recipe.SplitLines | app.py:139 | `split('\n')` yields at least one piece and no piece holds a newline |
| Recipe.JoinSplitLines | app.py:139 | joining the pieces with newlines gives back the text |
| Recipe.SplitJoinLines | app.py:139 | splitting undoes joining newline-free pieces |
| Recipe.CleanSteps | app.py:139 | each kept piece is non-empty and has no whitespace at either end |
| Recipe.CleanStepsIsFilter | app.py:139 | the comprehension walked from the front equals the reference filter: the stripped pieces, in order, with the empty ones left out |
| Recipe.SplitInstructions | app.py:138-139 | the steps are the lines of the block, stripped, with the blank ones left out, in order |
| Recipe.SplitInstructionsKeepsLines | app.py:138-139 | the steps are an order-preserving subsequence of the stripped lines that keeps each non-blank line as often as it occurs and drops the blank ones |
| Recipe.SplitInstructionsShape | app.py:138-139 | every step of a split block is non-empty, stripped and free of newlines |
| Recipe.SplitInstructionsOfJoin | app.py:138-139 | clean steps joined with newlines split back into the same steps, the empty list included |
| Recipe.SplitInstructionsIdempotent | app.py:138-139 | splitting the joined result of a split gives the same steps |
| Recipe.BlankLineDropped | app.py:139 | a whitespace-only line between two steps disappears |
| Recipe.SplitLinesExample | app.py:139 | two adjacent newlines leave an empty piece for the filter to drop |
| Recipe.ExtractRecipe | app.py:133-161 | a record comes back exactly when the scraper and every accessor but `nutrients()` returned, and it carries the requested URL |
| Recipe.NutrientsOptional | app.py:141-145 | a failing `nutrients()` never loses the record; it only sets the nutrients to none |
| Recipe.ExtractedInstructions | app.py:137-152 | a record built from a text block stores its lines stripped, in order, every non-blank one as often as it occurs and no blank one; each step is non-empty, stripped and free of newlines |
| Collect.ExtractAll | app.py:191 | one extraction result per candidate, in input order |
| Collect.Successes | app.py:193-195 | the records among the results, never more than there are results; Collect.SuccessIndices gives their positions and order |
| Collect.SuccessIndices | app.py:193-195 | the successes sit at increasing positions of the results, which are exactly the positions holding a record |
| Collect.CollectRecipes | app.py:187-197 | the collect loop with its early `break` returns the first 8 successes in result order |
| Collect.CollectedProperties | app.py:193-197 | at most 8 records, each one a result that is not `None`, at increasing positions; every success when fewer than 8 succeed, and exactly 8 otherwise |
| Collect.CollectedFromCandidates | app.py:188-197 | every collected record was extracted from one of the first 12 candidates and carries its URL |
| Cache.RecipeCache.constructor | app.py:33-41 | a fresh cache is empty |
| Cache.RecipeCache.Get | app.py:66-75 | the stored list for the query, or none when there is no row |
| Cache.RecipeCache.Put | app.py:77-83 | the row for the query is replaced; every other row is unchanged |
| Api.CacheKey | app.py:174 | the cache key is normalised and holds no upper-case ASCII letter |
| Api.FreshRecipes | app.py:187-197 | the recipes of a search that missed the cache: at most 8 |
| Api.CacheKeyNormalized | app.py:174 | normalising the key again leaves it unchanged |
| Api.ApiSearch | app.py:167-202 | an invalid query changes nothing. A non-empty cached list is returned as is. Otherwise the response holds the first 8 records extracted from the first 12 search results, and the cache is written only when that list is non-empty. Every cache row keeps a valid normalised key and 1 to 8 records |
| Api.SearchTwice | app.py:178-181 | repeating a search returns the same answer, whatever the network says the second time, unless the first answer was an empty list |
| Api.FreshRecipesProperties | app.py:187-197 | a fresh answer has at most 8 records, each from one of the first 12 candidate URLs, and is empty when there are no candidates |

## Left out

- Flask routing, JSON bodies and HTTP status codes (app.py:163-236). The non-text query error is excluded by typing the query as a string.
- `api_extract` and `api_random` (app.py:204-232). They are web plumbing around `is_valid_url`, `extract_recipe` and a random cache row. `random.choice` is nondeterministic.
- The DuckDuckGo client, `requests.get` and BeautifulSoup (app.py:93-94, 117-123). They are network I/O and foreign libraries, so their hrefs are inputs. The backend's `max_results=30`, the search phrase `"<query> recipe"` and the fallback search URL are not modelled.
- `scrape_me` and the scraper accessors (app.py:135-157). The scraper is a foreign library, so its answers are an input. Its values are not inspected beyond the instruction split.
- SQLite errors, JSON encoding and the timestamp column (app.py:33-41, 66-83). A failed read would act as a miss and a failed write as a no-op. Neither is modelled.
- `ThreadPoolExecutor` concurrency (app.py:190-191). The only observable effect is the input-ordered result list, which is modelled.
- Logging.
- Query.IsValidQuery: `\w` covers only ASCII letters, digits and `_`. Python's `\w` also accepts non-ASCII letters and digits.
- Api.CacheKey: only ASCII letters are lower-cased before normalising; Python lower-cases every cased letter.
- Url.IsValidUrl: CPython's checks on bracketed hosts and its NFKC check on non-ASCII netlocs are not modelled; they can only turn a verdict into a `ValueError`. The host is lower-cased in ASCII only, so a host such as `\u212Aingarthurbaking.com` (KELVIN SIGN), which Python lower-cases to a supported domain, is not trusted by the model.

## Findings

| source | as written | input that shows it | evidently intended | confidence | as-written member | corrected member |
|---|---|---|---|---|---|---|
| app.py:63 | the host compared with the allowlist is the text of the whole netloc before its first `:`, so any userinfo stays in it | `https://food.com:x@evil.com/` | compare the host a client connects to: the text after the last `@`, without the port, not an IP literal (proved in Url.AcceptedByHostShape) | high; not executed | Url.UserinfoBypassExample | Url.IsValidUrlByHost |
