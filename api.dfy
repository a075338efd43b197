/**
 * `api_search` (app.py:167-202): normalise and validate the query, answer
 * from the cache when it holds a non-empty list for the query, otherwise
 * search, extract the first 12 candidates, collect up to 8 recipes and
 * store them when there are any. What the search backend, the fallback page
 * and the scraper answer for this query are inputs.
 */
module Api {
  import opened Wrappers
  import opened Text
  import opened Seqs
  import opened Query
  import opened Search
  import opened Recipe
  import opened Collect
  import opened Cache

  /** The JSON body `api_search` answers with: the "Invalid query" error, or a
      recipe list. */
  datatype SearchResponse = InvalidQuery | Recipes(recipes: seq<Recipe>)

  /** The key `api_search` validates and caches under: lower-cased and
      normalised. */
  function CacheKey(rawQuery: string): (q: string)
    ensures IsNormalized(q)
    ensures forall i :: 0 <= i < |q| ==> !IsAsciiUpper(q[i])
  {
    var lowered := Lower(rawQuery);
    NormalizeKeepsChars(lowered, c => !IsAsciiUpper(c));
    NormalizeQuery(lowered)
  }

  /** The recipes found for the candidate URLs when the cache has none. */
  function FreshRecipes(urls: seq<string>, scrape: string -> Outcome<ScrapedPage>): (r: seq<Recipe>)
    ensures |r| <= MAX_RECIPES
  {
    Take(Successes(ExtractAll(Take(urls, MAX_CANDIDATES), scrape)), MAX_RECIPES)
  }

  /** What every row of the cache satisfies once only `api_search` writes it:
      the key is a normalised valid query, the list holds 1 to 8 recipes. */
  predicate CacheInvariant(entries: map<string, seq<Recipe>>) {
    forall q :: q in entries ==>
      IsValidQuery(q) && IsNormalized(q) && 0 < |entries[q]| <= MAX_RECIPES
  }

  /** `api_search` (app.py:167-202). */
  method ApiSearch(cache: RecipeCache, rawQuery: string, backend: seq<string>,
                   fallbackPage: seq<string>, scrape: string -> Outcome<ScrapedPage>)
    returns (resp: SearchResponse)
    modifies cache
    ensures var q := CacheKey(rawQuery);
      !IsValidQuery(q) ==> resp == InvalidQuery && cache.entries == old(cache.entries)
    ensures var q := CacheKey(rawQuery);
      IsValidQuery(q) && q in old(cache.entries) && old(cache.entries)[q] != [] ==>
        resp == Recipes(old(cache.entries)[q]) && cache.entries == old(cache.entries)
    ensures var q := CacheKey(rawQuery);
      IsValidQuery(q) && !(q in old(cache.entries) && old(cache.entries)[q] != []) ==>
        var found := FreshRecipes(SearchResult(backend, fallbackPage, FALLBACK_RESULTS), scrape);
        && resp == Recipes(found)
        && cache.entries == if found != [] then old(cache.entries)[q := found] else old(cache.entries)
    ensures CacheInvariant(old(cache.entries)) ==> CacheInvariant(cache.entries)
  {
    var query := NormalizeQuery(Lower(rawQuery));
    if !IsValidQuery(query) {
      return InvalidQuery;
    }
    var cached := cache.Get(query);
    if cached.Some? && cached.value != [] {
      return Recipes(cached.value);
    }
    var urls := SearchRecipes(backend, fallbackPage, FALLBACK_RESULTS);
    if urls == [] {
      return Recipes([]);
    }
    var candidates := Take(urls, MAX_CANDIDATES);
    var results := ExtractAll(candidates, scrape);
    var recipes := CollectRecipes(results);
    if recipes != [] {
      cache.Put(query, recipes);
    }
    resp := Recipes(recipes);
  }

  /** The same search twice: unless the first answer was an empty list, the
      second is the same answer, whatever the network says the second time. */
  method SearchTwice(cache: RecipeCache, rawQuery: string,
                     backend1: seq<string>, page1: seq<string>, scrape1: string -> Outcome<ScrapedPage>,
                     backend2: seq<string>, page2: seq<string>, scrape2: string -> Outcome<ScrapedPage>)
    returns (first: SearchResponse, second: SearchResponse)
    modifies cache
    ensures first != Recipes([]) ==> second == first
  {
    first := ApiSearch(cache, rawQuery, backend1, page1, scrape1);
    second := ApiSearch(cache, rawQuery, backend2, page2, scrape2);
  }

  /** A fresh answer holds at most 8 recipes, each extracted from one of the
      first 12 candidate URLs; with no candidates it is empty. */
  lemma FreshRecipesProperties(urls: seq<string>, scrape: string -> Outcome<ScrapedPage>)
    ensures var r := FreshRecipes(urls, scrape);
      && |r| <= MAX_RECIPES
      && (urls == [] ==> r == [])
      && forall k :: 0 <= k < |r| ==> r[k].url in Take(urls, MAX_CANDIDATES)
  {
    CollectedFromCandidates(urls, scrape);
    var candidates := Take(urls, MAX_CANDIDATES);
    var r := FreshRecipes(urls, scrape);
    assert r == Take(Successes(ExtractAll(candidates, scrape)), MAX_RECIPES);
    assert var c := Take(Successes(ExtractAll(candidates, scrape)), MAX_RECIPES);
      forall k :: 0 <= k < |c| ==> c[k].url in candidates;
    assert forall k :: 0 <= k < |r| ==> r[k].url in candidates;
  }

  /** The cache key is a fixed point of the key computation on it: storing
      under the key and looking it up again agree. */
  lemma CacheKeyNormalized(rawQuery: string)
    ensures NormalizeQuery(CacheKey(rawQuery)) == CacheKey(rawQuery)
  {
    NormalizeFixedPoints(CacheKey(rawQuery));
  }
}
