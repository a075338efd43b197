/**
 * The batch step of `api_search` (app.py:187-197): extraction over the first
 * 12 candidate URLs, results in input order as `executor.map` yields them,
 * then the successes appended one by one until there are 8.
 */
module Collect {
  import opened Wrappers
  import opened Seqs
  import opened Recipe

  /** `urls[:12]`. */
  const MAX_CANDIDATES: nat := 12

  /** The loop stops once this many recipes are collected. */
  const MAX_RECIPES: nat := 8

  /** `list(executor.map(extract_recipe, candidates))`, where `scrape` is what
      the scraper does for each URL. */
  function ExtractAll(candidates: seq<string>, scrape: string -> Outcome<ScrapedPage>)
    : (rs: seq<Option<Recipe>>)
    ensures |rs| == |candidates|
    ensures forall i :: 0 <= i < |rs| ==> rs[i] == ExtractRecipe(candidates[i], scrape(candidates[i]))
  {
    seq(|candidates|, i requires 0 <= i < |candidates| => ExtractRecipe(candidates[i], scrape(candidates[i])))
  }

  /** The recipes among the results, in order. */
  function Successes(rs: seq<Option<Recipe>>): (r: seq<Recipe>)
    ensures |r| <= |rs|
  {
    if rs == [] then []
    else Successes(rs[..|rs| - 1]) + (if rs[|rs| - 1].Some? then [rs[|rs| - 1].value] else [])
  }

  /** Where in `rs` each success sits: increasing positions, exactly the
      positions holding a recipe, and the recipe there is the success. */
  function SuccessIndices(rs: seq<Option<Recipe>>): (idx: seq<nat>)
    ensures |idx| == |Successes(rs)|
    ensures forall k :: 0 <= k < |idx| ==> idx[k] < |rs| && rs[idx[k]] == Some(Successes(rs)[k])
    ensures forall k, l :: 0 <= k < l < |idx| ==> idx[k] < idx[l]
    ensures forall j :: 0 <= j < |rs| && rs[j].Some? ==> j in idx
  {
    if rs == [] then []
    else
      var init := rs[..|rs| - 1];
      var prev := SuccessIndices(init);
      assert forall k :: 0 <= k < |prev| ==> rs[prev[k]] == init[prev[k]];
      if rs[|rs| - 1].Some? then prev + [|rs| - 1] else prev
  }

  /** The collect loop of `api_search` (app.py:187-197). */
  method CollectRecipes(results: seq<Option<Recipe>>) returns (recipes: seq<Recipe>)
    ensures recipes == Take(Successes(results), MAX_RECIPES)
  {
    recipes := [];
    var i := 0;
    while i < |results|
      invariant 0 <= i <= |results|
      invariant recipes == Successes(results[..i])
      invariant |recipes| < MAX_RECIPES
    {
      assert results[..i + 1][..i] == results[..i];
      if results[i].Some? {
        recipes := recipes + [results[i].value];
        if |recipes| >= MAX_RECIPES {
          SuccessesPrefix(results, i + 1);
          return;
        }
      }
      i := i + 1;
    }
    assert results[..|results|] == results;
  }

  /** The successes of a prefix of the results are a prefix of all successes. */
  lemma {:induction false} SuccessesPrefix(rs: seq<Option<Recipe>>, i: nat)
    requires i <= |rs|
    ensures IsPrefixOf(Successes(rs[..i]), Successes(rs))
    decreases |rs| - i
  {
    if i < |rs| {
      SuccessesPrefix(rs, i + 1);
      assert rs[..i + 1][..i] == rs[..i];
    } else {
      assert rs[..i] == rs;
    }
  }

  /** What the collect loop promises: at most 8 recipes, each a result that
      is not `None`, in the order of the results; every success when there
      are fewer than 8, and exactly 8 otherwise. */
  lemma CollectedProperties(rs: seq<Option<Recipe>>)
    ensures var c, idx := Take(Successes(rs), MAX_RECIPES), SuccessIndices(rs);
      && |c| <= MAX_RECIPES
      && (forall k :: 0 <= k < |c| ==> idx[k] < |rs| && rs[idx[k]] == Some(c[k]))
      && (forall k, l :: 0 <= k < l < |c| ==> idx[k] < idx[l])
      && (|Successes(rs)| < MAX_RECIPES ==> c == Successes(rs))
      && (|Successes(rs)| >= MAX_RECIPES ==> |c| == MAX_RECIPES)
  {
    var s := Successes(rs);
    var c := Take(s, MAX_RECIPES);
    assert forall k :: 0 <= k < |c| ==> c[k] == s[k];
  }

  /** Each recipe in the batch was extracted from one of the first 12
      candidates, and carries that candidate's URL. */
  lemma CollectedFromCandidates(urls: seq<string>, scrape: string -> Outcome<ScrapedPage>)
    ensures var candidates := Take(urls, MAX_CANDIDATES);
      var c := Take(Successes(ExtractAll(candidates, scrape)), MAX_RECIPES);
      && (forall k :: 0 <= k < |c| ==> c[k].url in candidates)
      && forall k :: 0 <= k < |c| ==>
        exists j :: (0 <= j < |candidates| && c[k].url == candidates[j]
          && Some(c[k]) == ExtractRecipe(candidates[j], scrape(candidates[j])))
  {
    var candidates := Take(urls, MAX_CANDIDATES);
    var rs := ExtractAll(candidates, scrape);
    var c := Take(Successes(rs), MAX_RECIPES);
    CollectedProperties(rs);
    forall k | 0 <= k < |c|
      ensures exists j :: (0 <= j < |candidates| && c[k].url == candidates[j]
        && Some(c[k]) == ExtractRecipe(candidates[j], scrape(candidates[j])))
    {
      var j := SuccessIndices(rs)[k];
      assert rs[j] == Some(c[k]);
    }
    forall k | 0 <= k < |c| ensures c[k].url in candidates {
      var j := SuccessIndices(rs)[k];
      assert rs[j] == Some(c[k]);
      assert c[k].url == candidates[j];
    }
  }
}
