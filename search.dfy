/**
 * Candidate URLs for a query (app.py:89-131). `search_recipes` ranks the
 * search backend's hrefs: first those that mention a supported domain, then
 * those that mention no blocked social or video site, each group in backend
 * order. When nothing is left it falls back to the recipe links of an
 * AllRecipes search page (`search_allrecipes`). The result is cut to 20.
 * The backend's hrefs and the fallback page's hrefs are inputs here.
 */
module Search {
  import opened Text
  import opened Seqs
  import opened Domains

  /** `urls[:20]` in `search_recipes`. */
  const MAX_URLS: nat := 20

  /** The `num_results` that `search_recipes` passes to `search_allrecipes`. */
  const FALLBACK_RESULTS: nat := 10

  /** The substring that marks an AllRecipes recipe link. */
  const RECIPE_PATH_MARKER: string := "allrecipes.com/recipe/"

  /** `any(domain in url for domain in ds)`. */
  predicate MentionsAny(url: string, ds: seq<string>) {
    exists i :: 0 <= i < |ds| && Contains(url, ds[i])
  }

  predicate IsPriority(url: string) { MentionsAny(url, SUPPORTED_DOMAINS) }

  predicate IsBlocked(url: string) { MentionsAny(url, BLOCKED_DOMAINS) }

  /** Goes to `other_urls`: no supported domain, no blocked one. */
  predicate IsOther(url: string) { !IsPriority(url) && !IsBlocked(url) }

  /** Survives the ranking at all. */
  predicate IsKept(url: string) { IsPriority(url) || !IsBlocked(url) }

  /** `priority_urls + other_urls` after the loop over the backend results. */
  function Ranked(hrefs: seq<string>): (r: seq<string>)
    ensures |r| <= |hrefs|
    ensures forall i :: 0 <= i < |r| ==> IsKept(r[i])
  {
    FilterDisjointLength(IsPriority, IsOther, hrefs);
    Filter(IsPriority, hrefs) + Filter(IsOther, hrefs)
  }

  /** The partition loop of `search_recipes` (app.py:96-106). */
  method RankCandidates(hrefs: seq<string>) returns (urls: seq<string>)
    ensures urls == Ranked(hrefs)
  {
    var priority: seq<string> := [];
    var other: seq<string> := [];
    for i := 0 to |hrefs|
      invariant priority == Filter(IsPriority, hrefs[..i])
      invariant other == Filter(IsOther, hrefs[..i])
    {
      var url := hrefs[i];
      assert hrefs[..i + 1][..i] == hrefs[..i];
      if IsPriority(url) {
        priority := priority + [url];
      } else if !IsBlocked(url) {
        other := other + [url];
      }
    }
    assert hrefs[..|hrefs|] == hrefs;
    urls := priority + other;
  }

  /** The ranking drops exactly the URLs that mention a blocked site and no
      supported one, and keeps every other URL as often as the backend
      returned it; in particular a URL mentioning a supported domain is never
      dropped, whatever else it mentions. */
  lemma RankedCount(hrefs: seq<string>, u: string)
    ensures multiset(Ranked(hrefs))[u] == if IsKept(u) then multiset(hrefs)[u] else 0
  {
    FilterCount(IsPriority, hrefs, u);
    FilterCount(IsOther, hrefs, u);
  }

  lemma RankedMember(hrefs: seq<string>, u: string)
    ensures u in Ranked(hrefs) <==> u in hrefs && IsKept(u)
  {
    RankedCount(hrefs, u);
    assert u in Ranked(hrefs) <==> multiset(Ranked(hrefs))[u] > 0;
    assert u in hrefs <==> multiset(hrefs)[u] > 0;
  }

  /** The ranked list is the priority URLs in backend order, then the other
      kept URLs in backend order. */
  lemma RankedShape(hrefs: seq<string>)
    ensures var r, k := Ranked(hrefs), |Filter(IsPriority, hrefs)|;
      && k <= |r| <= |hrefs|
      && (forall i :: 0 <= i < k ==> IsPriority(r[i]))
      && (forall i :: k <= i < |r| ==> IsOther(r[i]))
      && IsSubsequence(r[..k], hrefs)
      && IsSubsequence(r[k..], hrefs)
  {
    var p, o := Filter(IsPriority, hrefs), Filter(IsOther, hrefs);
    var r := p + o;
    assert Ranked(hrefs) == r;
    assert r[..|p|] == p && r[|p|..] == o;
    FilterIsSubsequence(IsPriority, hrefs);
    FilterIsSubsequence(IsOther, hrefs);
    forall i | |p| <= i < |r| ensures IsOther(r[i]) {
      assert r[i] == o[i - |p|];
    }
  }

  /** The first index of `x` in `s`. */
  function FirstIndex(s: seq<string>, x: string): (i: nat)
    requires x in s
    ensures i < |s| && s[i] == x && x !in s[..i]
  {
    if s[0] == x then 0
    else
      var j := FirstIndex(s[1..], x);
      assert s[1..][..j] == s[1..j + 1];
      1 + j
  }

  /** The recipe links of `hrefs` without repeats, in first-occurrence order. */
  function DistinctLinks(hrefs: seq<string>): (r: seq<string>)
    ensures |r| <= |hrefs|
    ensures forall i :: 0 <= i < |r| ==> Contains(r[i], RECIPE_PATH_MARKER)
    ensures forall i, j :: 0 <= i < j < |r| ==> r[i] != r[j]
  {
    if hrefs == [] then []
    else
      var prev := DistinctLinks(hrefs[..|hrefs| - 1]);
      var h := hrefs[|hrefs| - 1];
      if Contains(h, RECIPE_PATH_MARKER) && h !in prev then prev + [h] else prev
  }

  /** `search_allrecipes` collects at most `max(n, 1)` links: it tests the
      count only after an append. */
  function FallbackLinks(hrefs: seq<string>, n: nat): (r: seq<string>)
    ensures |r| <= Max(n, 1)
    ensures forall i :: 0 <= i < |r| ==> Contains(r[i], RECIPE_PATH_MARKER)
  {
    var d := DistinctLinks(hrefs);
    assert forall i :: 0 <= i < |Take(d, Max(n, 1))| ==> Take(d, Max(n, 1))[i] == d[i];
    Take(d, Max(n, 1))
  }

  /** The link loop of `search_allrecipes` (app.py:118-131). */
  method CollectFallback(hrefs: seq<string>, numResults: nat) returns (urls: seq<string>)
    ensures urls == FallbackLinks(hrefs, numResults)
  {
    urls := [];
    var i := 0;
    while i < |hrefs|
      invariant 0 <= i <= |hrefs|
      invariant urls == DistinctLinks(hrefs[..i])
      invariant |urls| < Max(numResults, 1)
    {
      var href := hrefs[i];
      assert hrefs[..i + 1][..i] == hrefs[..i];
      if Contains(href, RECIPE_PATH_MARKER) && href !in urls {
        urls := urls + [href];
        if |urls| >= numResults {
          DistinctLinksPrefix(hrefs, i + 1);
          return;
        }
      }
      i := i + 1;
    }
    assert hrefs[..|hrefs|] == hrefs;
  }

  /** Links collected from a prefix of the page are a prefix of those
      collected from the whole page. */
  lemma {:induction false} DistinctLinksPrefix(hrefs: seq<string>, i: nat)
    requires i <= |hrefs|
    ensures IsPrefixOf(DistinctLinks(hrefs[..i]), DistinctLinks(hrefs))
    decreases |hrefs| - i
  {
    if i < |hrefs| {
      DistinctLinksPrefix(hrefs, i + 1);
      assert hrefs[..i + 1][..i] == hrefs[..i];
    } else {
      assert hrefs[..i] == hrefs;
    }
  }

  /** A link is collected exactly when the page has it and it is a recipe link. */
  lemma {:induction false} DistinctLinksMember(hrefs: seq<string>, x: string)
    ensures x in DistinctLinks(hrefs) <==> x in hrefs && Contains(x, RECIPE_PATH_MARKER)
  {
    if hrefs != [] {
      var init := hrefs[..|hrefs| - 1];
      DistinctLinksMember(init, x);
      assert hrefs == init + [hrefs[|hrefs| - 1]];
    }
  }

  lemma FirstIndexOfPrefix(init: seq<string>, h: string, x: string)
    requires x in init
    ensures FirstIndex(init + [h], x) == FirstIndex(init, x)
  {
    var s := init + [h];
    assert s[FirstIndex(init, x)] == x;
  }

  /** Every element of `r` occurs in `hrefs`, and `r` lists them in the order
      of their first occurrence there. */
  predicate InFirstOccurrenceOrder(r: seq<string>, hrefs: seq<string>) {
    forall i, j :: 0 <= i < j < |r| ==>
      r[i] in hrefs && r[j] in hrefs && FirstIndex(hrefs, r[i]) < FirstIndex(hrefs, r[j])
  }

  /** The collected links appear in the order of their first occurrence on
      the page. */
  lemma {:induction false} DistinctLinksOrder(hrefs: seq<string>)
    ensures InFirstOccurrenceOrder(DistinctLinks(hrefs), hrefs)
  {
    if hrefs != [] {
      var init, h := hrefs[..|hrefs| - 1], hrefs[|hrefs| - 1];
      assert hrefs == init + [h];
      DistinctLinksOrder(init);
      DistinctLinksStep(init, h);
    }
  }

  lemma DistinctLinksStep(init: seq<string>, h: string)
    requires InFirstOccurrenceOrder(DistinctLinks(init), init)
    ensures InFirstOccurrenceOrder(DistinctLinks(init + [h]), init + [h])
  {
    var hrefs := init + [h];
    assert hrefs[..|hrefs| - 1] == init;
    var prev := DistinctLinks(init);
    var r := DistinctLinks(hrefs);
    forall k | 0 <= k < |prev|
      ensures prev[k] in init && FirstIndex(hrefs, prev[k]) == FirstIndex(init, prev[k])
    {
      DistinctLinksMember(init, prev[k]);
      FirstIndexOfPrefix(init, h, prev[k]);
    }
    if Contains(h, RECIPE_PATH_MARKER) && h !in prev {
      DistinctLinksMember(init, h);
      assert FirstIndex(hrefs, h) == |init| by {
        assert hrefs[..|init|] == init;
      }
      assert r == prev + [h];
      forall i, j | 0 <= i < j < |r|
        ensures r[i] in hrefs && r[j] in hrefs && FirstIndex(hrefs, r[i]) < FirstIndex(hrefs, r[j])
      {
        assert r[i] == prev[i];
        if j < |prev| { assert r[j] == prev[j]; }
      }
    } else {
      assert r == prev;
      forall i, j | 0 <= i < j < |r|
        ensures r[i] in hrefs && r[j] in hrefs && FirstIndex(hrefs, r[i]) < FirstIndex(hrefs, r[j])
      {
        assert FirstIndex(init, prev[i]) < FirstIndex(init, prev[j]);
      }
    }
  }

  /** What `search_allrecipes` promises: at most `max(n, 1)` links, no
      repeats, each a recipe link found on the page, in first-occurrence
      order; when the page has fewer distinct recipe links, all of them. */
  lemma FallbackLinksProperties(hrefs: seq<string>, n: nat)
    ensures var r := FallbackLinks(hrefs, n);
      && |r| <= Max(n, 1)
      && (forall i, j :: 0 <= i < j < |r| ==> r[i] != r[j])
      && (forall i :: 0 <= i < |r| ==> r[i] in hrefs && Contains(r[i], RECIPE_PATH_MARKER))
      && InFirstOccurrenceOrder(r, hrefs)
      && (|DistinctLinks(hrefs)| < Max(n, 1) ==> r == DistinctLinks(hrefs))
  {
    var d := DistinctLinks(hrefs);
    var r := FallbackLinks(hrefs, n);
    assert forall i :: 0 <= i < |r| ==> r[i] == d[i];
    forall i | 0 <= i < |r| ensures r[i] in hrefs {
      DistinctLinksMember(hrefs, r[i]);
    }
    DistinctLinksOrder(hrefs);
    forall i, j | 0 <= i < j < |r|
      ensures r[i] in hrefs && r[j] in hrefs && FirstIndex(hrefs, r[i]) < FirstIndex(hrefs, r[j])
    {
      assert r[i] == d[i] && r[j] == d[j];
    }
  }

  /** The list `search_recipes` returns, for the backend's hrefs and the
      fallback page's hrefs. */
  function SearchResult(backend: seq<string>, fallbackPage: seq<string>, n: nat): (r: seq<string>)
    ensures |r| <= MAX_URLS
    ensures Ranked(backend) == [] && DistinctLinks(fallbackPage) == [] ==> r == []
  {
    var ranked := Ranked(backend);
    Take(if ranked != [] then ranked else FallbackLinks(fallbackPage, n), MAX_URLS)
  }

  /** `search_recipes` (app.py:89-114). */
  method SearchRecipes(backend: seq<string>, fallbackPage: seq<string>, numResults: nat)
    returns (urls: seq<string>)
    ensures urls == SearchResult(backend, fallbackPage, numResults)
  {
    urls := RankCandidates(backend);
    if urls == [] {
      urls := CollectFallback(fallbackPage, numResults);
    }
    urls := Take(urls, MAX_URLS);
  }

  /** At most 20 URLs. Each is a kept backend href, or, only when no backend
      href was kept, a recipe link from the fallback page. */
  lemma SearchResultSources(backend: seq<string>, fallbackPage: seq<string>, n: nat)
    ensures var r := SearchResult(backend, fallbackPage, n);
      && |r| <= MAX_URLS
      && (Ranked(backend) != [] ==> IsPrefixOf(r, Ranked(backend)) && |r| == Min(|Ranked(backend)|, MAX_URLS))
      && (Ranked(backend) == [] ==>
            IsPrefixOf(r, FallbackLinks(fallbackPage, n)) && |r| == Min(|FallbackLinks(fallbackPage, n)|, MAX_URLS))
      && (Ranked(backend) != [] ==> forall i :: 0 <= i < |r| ==> r[i] in backend && IsKept(r[i]))
      && (Ranked(backend) == [] ==>
            forall i :: 0 <= i < |r| ==> r[i] in fallbackPage && Contains(r[i], RECIPE_PATH_MARKER))
  {
    var r := SearchResult(backend, fallbackPage, n);
    var ranked := Ranked(backend);
    if ranked != [] {
      forall i | 0 <= i < |r| ensures r[i] in backend && IsKept(r[i]) {
        assert r[i] == ranked[i];
        RankedMember(backend, r[i]);
      }
    } else {
      FallbackLinksProperties(fallbackPage, n);
      var f := FallbackLinks(fallbackPage, n);
      assert forall i :: 0 <= i < |r| ==> r[i] == f[i];
    }
  }
}
