/**
 * `extract_recipe` (app.py:133-161): the record built from what a recipe
 * scraper returns for a page. The scraper is a foreign library, so its
 * answers are an input: each accessor either returns a value or raises.
 * A string block of instructions is split into its non-blank lines, each
 * stripped.
 */
module Recipe {
  import opened Wrappers
  import opened Text
  import opened Seqs

  /** What `scraper.instructions()` returns: one text block, or a list. */
  datatype Instructions = Block(text: string) | Steps(steps: seq<string>)

  /** The result of a call into the scraper: a value, or an exception. */
  datatype Outcome<+T> = Returned(value: T) | Raised

  /** The scraper's answer for every accessor `extract_recipe` calls. */
  datatype ScrapedPage = ScrapedPage(
    title: Outcome<string>,
    totalTime: Outcome<int>,
    servings: Outcome<string>,  // `scraper.yields()`; `yields` is a Dafny keyword
    ingredients: Outcome<seq<string>>,
    instructions: Outcome<Instructions>,
    image: Outcome<string>,
    host: Outcome<string>,
    nutrients: Outcome<map<string, string>>)

  /** The dictionary `extract_recipe` returns. */
  datatype Recipe = Recipe(
    title: string,
    totalTime: int,
    servings: string,  // the `yields` entry
    ingredients: seq<string>,
    instructions: seq<string>,
    image: string,
    host: string,
    url: string,
    nutrients: Option<map<string, string>>)

  /** `s.split('\n')`: the pieces between newlines, at least one. */
  function SplitLines(s: string): (r: seq<string>)
    ensures |r| >= 1
    ensures forall i :: 0 <= i < |r| ==> '\n' !in r[i]
    decreases |s|
  {
    var i := IndexOf(s, '\n');
    if i == |s| then [s] else [s[..i]] + SplitLines(s[i + 1..])
  }

  /** `'\n'.join(ps)`. */
  function JoinLines(ps: seq<string>): string
  {
    if ps == [] then []
    else if |ps| == 1 then ps[0]
    else ps[0] + "\n" + JoinLines(ps[1..])
  }

  /** Joining the pieces gives back the text. */
  lemma {:induction false} JoinSplitLines(s: string)
    ensures JoinLines(SplitLines(s)) == s
    decreases |s|
  {
    var i := IndexOf(s, '\n');
    if i < |s| {
      var rest := SplitLines(s[i + 1..]);
      JoinSplitLines(s[i + 1..]);
      var ps := [s[..i]] + rest;
      assert ps[1..] == rest;
      assert JoinLines(ps) == s[..i] + "\n" + JoinLines(rest);
      NewlineSplit(s, i);
    }
  }

  lemma NewlineSplit(s: string, i: nat)
    requires i < |s| && s[i] == '\n'
    ensures s == s[..i] + "\n" + s[i + 1..]
  {
    assert s == s[..i] + s[i..];
    assert s[i..] == [s[i]] + s[i + 1..];
  }

  /** Splitting undoes joining pieces that hold no newline. */
  lemma {:induction false} SplitJoinLines(ps: seq<string>)
    requires |ps| >= 1
    requires forall i :: 0 <= i < |ps| ==> '\n' !in ps[i]
    ensures SplitLines(JoinLines(ps)) == ps
  {
    var p := ps[0];
    if |ps| == 1 {
      assert IndexOf(p, '\n') == |p|;
    } else {
      assert JoinLines(ps) == p + "\n" + JoinLines(ps[1..]);
      SplitLinesCons(p, JoinLines(ps[1..]));
      SplitJoinLines(ps[1..]);
      assert [p] + ps[1..] == ps;
    }
  }

  /** A first line without a newline is the first piece. */
  lemma SplitLinesCons(p: string, rest: string)
    requires '\n' !in p
    ensures SplitLines(p + "\n" + rest) == [p] + SplitLines(rest)
  {
    var s := p + "\n" + rest;
    assert s[|p|] == '\n';
    forall j | 0 <= j < |p| ensures s[j] != '\n' { assert s[j] == p[j]; }
    assert IndexOf(s, '\n') == |p|;
    assert s[..|p|] == p && s[|p| + 1..] == rest;
  }

  /** `[s.strip() for s in pieces if s.strip()]`. */
  function CleanSteps(pieces: seq<string>): (r: seq<string>)
    ensures |r| <= |pieces|
    ensures forall i :: 0 <= i < |r| ==> r[i] != [] && IsStripped(r[i])
  {
    if pieces == [] then []
    else
      var s := Strip(pieces[0]);
      StripIsStripped(pieces[0]);
      (if s != [] then [s] else []) + CleanSteps(pieces[1..])
  }

  predicate NonBlank(s: string) { s != [] }

  /** The cleaned steps are the stripped pieces with the empty ones left out,
      in order: the filter written as a loop over the front of the pieces
      agrees with the reference filter. */
  lemma {:induction false} CleanStepsIsFilter(pieces: seq<string>)
    ensures CleanSteps(pieces) == Filter(NonBlank, Map(Strip, pieces))
  {
    if pieces != [] {
      var rest := pieces[1..];
      CleanStepsIsFilter(rest);
      MapCons(Strip, pieces);
      FilterCons(NonBlank, Strip(pieces[0]), Map(Strip, rest));
    }
  }

  /** The instruction split of `extract_recipe` (app.py:138-139): the lines
      of the block, stripped, with the blank ones left out, in order. */
  function SplitInstructions(block: string): (steps: seq<string>)
    ensures steps == Filter(NonBlank, Map(Strip, SplitLines(block)))
  {
    CleanStepsIsFilter(SplitLines(block));
    CleanSteps(SplitLines(block))
  }

  /** `Strip` only removes characters, so it adds no newline. */
  lemma StripNoNewline(s: string)
    requires '\n' !in s
    ensures '\n' !in Strip(s)
  {
    var l := TrimLeft(s, IsSpace);
    var r := TrimRight(l, IsSpace);
    forall j | 0 <= j < |r| ensures r[j] != '\n' {
      assert r[j] == l[j] == s[|s| - |l| + j];
    }
  }

  /** Each step is a non-blank line of the block, stripped: non-empty, with
      nothing to strip at either end, and free of newlines. */
  lemma {:induction false} CleanStepsShape(pieces: seq<string>)
    requires forall i :: 0 <= i < |pieces| ==> '\n' !in pieces[i]
    ensures forall i :: 0 <= i < |CleanSteps(pieces)| ==> '\n' !in CleanSteps(pieces)[i]
  {
    if pieces != [] {
      StripNoNewline(pieces[0]);
      CleanStepsShape(pieces[1..]);
    }
  }

  lemma SplitInstructionsShape(block: string)
    ensures var steps := SplitInstructions(block);
      forall i :: 0 <= i < |steps| ==> steps[i] != [] && IsStripped(steps[i]) && '\n' !in steps[i]
  {
    CleanStepsShape(SplitLines(block));
  }

  /** Steps that are already clean survive a join and a split unchanged:
      the partner of `SplitInstructions`. */
  lemma {:induction false} CleanStepsOfClean(steps: seq<string>)
    requires forall i :: 0 <= i < |steps| ==> steps[i] != [] && IsStripped(steps[i])
    ensures CleanSteps(steps) == steps
  {
    if steps != [] {
      StripStripped(steps[0]);
      CleanStepsOfClean(steps[1..]);
      assert [steps[0]] + steps[1..] == steps;
    }
  }

  lemma SplitInstructionsOfJoin(steps: seq<string>)
    requires forall i :: 0 <= i < |steps| ==>
      steps[i] != [] && IsStripped(steps[i]) && '\n' !in steps[i]
    ensures SplitInstructions(JoinLines(steps)) == steps
  {
    if steps == [] {
      EmptyBlockNoSteps();
    } else {
      SplitJoinLines(steps);
      CleanStepsOfClean(steps);
    }
  }

  /** An empty block has no steps. */
  lemma EmptyBlockNoSteps()
    ensures SplitInstructions("") == []
  {
    assert IndexOf("", '\n') == 0;
    assert SplitLines("") == [""];
    StripBlank("");
    assert CleanSteps([""]) == [] + CleanSteps([]);
  }

  /** Splitting the joined steps of a block gives the same steps again. */
  lemma SplitInstructionsIdempotent(block: string)
    ensures SplitInstructions(JoinLines(SplitInstructions(block))) == SplitInstructions(block)
  {
    SplitInstructionsShape(block);
    SplitInstructionsOfJoin(SplitInstructions(block));
  }

  /** The instruction list stored in the record. */
  function InstructionList(ins: Instructions): seq<string> {
    match ins
    case Block(text) => SplitInstructions(text)
    case Steps(steps) => steps
  }

  /** Every accessor outside the `try` around `nutrients()` returned. */
  predicate MandatoryReturned(p: ScrapedPage) {
    && p.title.Returned? && p.totalTime.Returned? && p.servings.Returned?
    && p.ingredients.Returned? && p.instructions.Returned?
    && p.image.Returned? && p.host.Returned?
  }

  /** `extract_recipe(url)`, given what `scrape_me(url)` did: `None` when
      `scrape_me` or any accessor but `nutrients()` raised. */
  function ExtractRecipe(url: string, page: Outcome<ScrapedPage>): (r: Option<Recipe>)
    ensures r.Some? <==> page.Returned? && MandatoryReturned(page.value)
    ensures r.Some? ==> r.value.url == url
  {
    match page
    case Raised => None
    case Returned(p) =>
      if !MandatoryReturned(p) then None
      else
        var nutrients := if p.nutrients.Returned? then Some(p.nutrients.value) else None;
        Some(Recipe(p.title.value, p.totalTime.value, p.servings.value,
                    p.ingredients.value, InstructionList(p.instructions.value),
                    p.image.value, p.host.value, url, nutrients))
  }

  /** A failing `nutrients()` never loses the recipe: with the nutrients
      outcome replaced, extraction succeeds or fails alike and the record
      differs at most in its nutrients. */
  lemma NutrientsOptional(url: string, p: ScrapedPage, n: Outcome<map<string, string>>)
    ensures var a, b := ExtractRecipe(url, Returned(p)), ExtractRecipe(url, Returned(p.(nutrients := n)));
      && a.Some? == b.Some?
      && (a.Some? ==> a.value.(nutrients := b.value.nutrients) == b.value)
      && (a.Some? ==> (b.value.nutrients == None <==> n == Raised))
  {
  }

  /** The instructions of a record built from a text block are its non-blank
      lines, stripped, in order. */
  lemma ExtractedInstructions(url: string, p: ScrapedPage)
    requires MandatoryReturned(p) && p.instructions.value.Block?
    ensures var steps, lines := ExtractRecipe(url, Returned(p)).value.instructions,
                                SplitLines(p.instructions.value.text);
      && IsSubsequence(steps, Map(Strip, lines))
      && (forall x :: multiset(steps)[x] == if x != [] then multiset(Map(Strip, lines))[x] else 0)
      && forall i :: 0 <= i < |steps| ==> steps[i] != [] && IsStripped(steps[i]) && '\n' !in steps[i]
  {
    var text := p.instructions.value.text;
    assert ExtractRecipe(url, Returned(p)).value.instructions == SplitInstructions(text);
    SplitInstructionsShape(text);
    SplitInstructionsKeepsLines(text);
  }

  /** The steps are the stripped lines in order, each non-blank one kept as
      often as it occurs and the blank ones dropped. */
  lemma SplitInstructionsKeepsLines(block: string)
    ensures var steps, stripped := SplitInstructions(block), Map(Strip, SplitLines(block));
      && IsSubsequence(steps, stripped)
      && forall x :: multiset(steps)[x] == if x != [] then multiset(stripped)[x] else 0
  {
    FilterKeeps(NonBlank, Map(Strip, SplitLines(block)));
  }

  /** `split('\n')` keeps the empty piece between two adjacent newlines. */
  lemma SplitLinesExample()
    ensures SplitLines("Mix.\n\nBake.") == ["Mix.", "", "Bake."]
  {
    var pieces := ["Mix.", "", "Bake."];
    assert "Mix.\n\nBake." == JoinLines(pieces);
    SplitJoinLines(pieces);
  }

  lemma StripBlank(w: string)
    requires forall i :: 0 <= i < |w| ==> IsSpace(w[i])
    ensures Strip(w) == []
  {
  }

  lemma CleanStepsCons(p: string, ps: seq<string>)
    ensures CleanSteps([p] + ps) == (if Strip(p) != [] then [Strip(p)] else []) + CleanSteps(ps)
  {
    assert ([p] + ps)[1..] == ps;
  }

  /** A blank line between two steps vanishes, whatever whitespace it holds. */
  lemma BlankLineDropped(a: string, w: string, b: string)
    requires a != [] && IsStripped(a) && '\n' !in a
    requires b != [] && IsStripped(b) && '\n' !in b
    requires '\n' !in w && forall i :: 0 <= i < |w| ==> IsSpace(w[i])
    ensures SplitInstructions(a + "\n" + w + "\n" + b) == [a, b]
  {
    JoinThree(a, w, b);
    SplitJoinLines([a, w, b]);
    CleanThree(a, w, b);
  }

  lemma JoinThree(a: string, w: string, b: string)
    ensures JoinLines([a, w, b]) == a + "\n" + w + "\n" + b
  {
    var ps := [a, w, b];
    assert ps[1..] == [w, b] && ps[1..][1..] == [b];
    assert JoinLines([w, b]) == w + "\n" + b;
    assert JoinLines(ps) == a + "\n" + (w + "\n" + b);
  }

  lemma CleanThree(a: string, w: string, b: string)
    requires a != [] && IsStripped(a) && b != [] && IsStripped(b)
    requires forall i :: 0 <= i < |w| ==> IsSpace(w[i])
    ensures CleanSteps([a, w, b]) == [a, b]
  {
    Displays(a, w, b);
    CleanKept(b, []);
    CleanBlank(w, [b]);
    CleanKept(a, [w, b]);
  }

  /** The sequence displays `CleanThree` assembles, kept apart so that
      the solver meets them in a small context. */
  lemma Displays(a: string, w: string, b: string)
    ensures [b] + [] == [b] && [w] + [b] == [w, b] && [a] + [w, b] == [a, w, b]
    ensures [a] + [b] == [a, b]
  {
  }

  lemma CleanKept(p: string, ps: seq<string>)
    requires p != [] && IsStripped(p)
    ensures CleanSteps([p] + ps) == [p] + CleanSteps(ps)
  {
    StripStripped(p);
    CleanStepsCons(p, ps);
  }

  lemma CleanBlank(w: string, ps: seq<string>)
    requires forall i :: 0 <= i < |w| ==> IsSpace(w[i])
    ensures CleanSteps([w] + ps) == CleanSteps(ps)
  {
    StripBlank(w);
    CleanStepsCons(w, ps);
  }
}
