/**
 * Query normalisation and validation: `normalize_query` is
 * `' '.join(query.split())`, and `is_valid_query` accepts a non-empty query of
 * at most 160 characters that the anchored pattern `^[\w\s,.'-]+$` matches.
 */
module Query {
  import opened Text
  import opened Seqs

  const MAX_QUERY_LENGTH: nat := 160

  /** A piece `str.split()` can produce: non-empty, no whitespace. */
  predicate IsWord(w: string) {
    w != [] && forall i :: 0 <= i < |w| ==> !IsSpace(w[i])
  }

  /** Length of the longest whitespace-free prefix of `s`. */
  function WordLength(s: string): (n: nat)
    ensures n <= |s|
    ensures forall i :: 0 <= i < n ==> !IsSpace(s[i])
    ensures n < |s| ==> IsSpace(s[n])
  {
    if s == [] || IsSpace(s[0]) then 0 else 1 + WordLength(s[1..])
  }

  /** `s.split()`: the maximal whitespace-free runs of `s`, in order. */
  function Words(s: string): (ws: seq<string>)
    ensures forall i :: 0 <= i < |ws| ==> IsWord(ws[i])
    decreases |s|
  {
    if s == [] then []
    else if IsSpace(s[0]) then Words(s[1..])
    else
      var n := WordLength(s);
      [s[..n]] + Words(s[n..])
  }

  /** `' '.join(ws)`. */
  function JoinWords(ws: seq<string>): string
  {
    if ws == [] then []
    else if |ws| == 1 then ws[0]
    else ws[0] + " " + JoinWords(ws[1..])
  }

  /** The shape `normalize_query` promises: no whitespace at either end, no
      whitespace other than a single space between words. */
  predicate IsNormalized(t: string) {
    && (t != [] ==> !IsSpace(t[0]) && !IsSpace(t[|t| - 1]))
    && (forall i :: 0 <= i < |t| && IsSpace(t[i]) ==> t[i] == ' ')
    && (forall i :: 0 <= i < |t| - 1 ==> NoDoubleSpaceAt(t, i))
  }

  /** Characters `i` and `i + 1` of `t` are not both whitespace. */
  predicate NoDoubleSpaceAt(t: string, i: nat)
    requires i + 1 < |t|
  {
    !(IsSpace(t[i]) && IsSpace(t[i + 1]))
  }

  /** `normalize_query` (app.py:44-45). */
  function NormalizeQuery(q: string): (r: string)
    ensures IsNormalized(r)
  {
    var ws := Words(q);
    JoinNormalized(ws);
    JoinWords(ws)
  }

  lemma {:induction false} JoinNormalized(ws: seq<string>)
    requires forall i :: 0 <= i < |ws| ==> IsWord(ws[i])
    ensures IsNormalized(JoinWords(ws))
    ensures ws != [] ==> JoinWords(ws) != []
  {
    if |ws| > 1 {
      var w, r := ws[0], JoinWords(ws[1..]);
      JoinNormalized(ws[1..]);
      var t := w + " " + r;
      assert JoinWords(ws) == t;
      forall i | 0 <= i < |t| && IsSpace(t[i]) ensures t[i] == ' ' {
        if i > |w| { assert t[i] == r[i - |w| - 1]; }
      }
      forall i | 0 <= i < |t| - 1 ensures NoDoubleSpaceAt(t, i) {
        if i < |w| - 1 {
          assert t[i] == w[i];
        } else if i == |w| - 1 {
          assert t[i] == w[i];
        } else if i == |w| {
          assert t[i + 1] == r[0];
        } else {
          assert NoDoubleSpaceAt(r, i - |w| - 1);
          assert t[i] == r[i - |w| - 1] && t[i + 1] == r[i - |w|];
        }
      }
      assert t[|t| - 1] == r[|r| - 1];
    }
  }

  /** Splitting a word followed by whitespace (or nothing) yields that word first. */
  lemma WordsAfterWord(w: string, t: string)
    requires IsWord(w)
    requires t == [] || IsSpace(t[0])
    ensures Words(w + t) == [w] + Words(t)
  {
    var s := w + t;
    var n := WordLength(s);
    assert forall k :: 0 <= k < |w| ==> s[k] == w[k];
    assert |w| < |s| ==> s[|w|] == t[0];
    assert n == |w|;
    assert s[..n] == w && s[n..] == t;
  }

  /** `str.split()` undoes `' '.join` on words: the partner of `JoinWords`. */
  lemma {:induction false} WordsOfJoin(ws: seq<string>)
    requires forall i :: 0 <= i < |ws| ==> IsWord(ws[i])
    ensures Words(JoinWords(ws)) == ws
  {
    if |ws| == 1 {
      WordsAfterWord(ws[0], []);
      assert ws[0] + [] == ws[0];
    } else if |ws| > 1 {
      var r := JoinWords(ws[1..]);
      WordsOfJoin(ws[1..]);
      WordsAfterWord(ws[0], " " + r);
      assert ws[0] + " " + r == ws[0] + (" " + r);
      assert (" " + r)[1..] == r;
      assert [ws[0]] + ws[1..] == ws;
    }
  }

  /** Every character of a word `split()` returns comes from the text. */
  lemma {:induction false} WordsKeepChars(s: string, keep: char -> bool)
    requires forall i :: 0 <= i < |s| ==> keep(s[i])
    ensures forall k, i :: 0 <= k < |Words(s)| && 0 <= i < |Words(s)[k]| ==> keep(Words(s)[k][i])
    decreases |s|
  {
    if s != [] {
      if IsSpace(s[0]) {
        WordsKeepChars(s[1..], keep);
      } else {
        var n := WordLength(s);
        WordsKeepChars(s[n..], keep);
        var ws := [s[..n]] + Words(s[n..]);
        forall k, i | 0 <= k < |ws| && 0 <= i < |ws[k]| ensures keep(ws[k][i]) {
          if k == 0 { assert ws[k][i] == s[i]; } else { assert ws[k] == Words(s[n..])[k - 1]; }
        }
      }
    }
  }

  /** `' '.join` adds only spaces to the characters of its words. */
  lemma {:induction false} JoinKeepsChars(ws: seq<string>, keep: char -> bool)
    requires keep(' ')
    requires forall k, i :: 0 <= k < |ws| && 0 <= i < |ws[k]| ==> keep(ws[k][i])
    ensures forall i :: 0 <= i < |JoinWords(ws)| ==> keep(JoinWords(ws)[i])
  {
    if |ws| == 1 {
      assert forall i :: 0 <= i < |ws[0]| ==> keep(ws[0][i]);
    } else if |ws| > 1 {
      var w, r := ws[0], JoinWords(ws[1..]);
      JoinKeepsChars(ws[1..], keep);
      var t := w + " " + r;
      forall i | 0 <= i < |t| ensures keep(t[i]) {
        if i < |w| { assert t[i] == ws[0][i]; }
        else if i > |w| { assert t[i] == r[i - |w| - 1]; }
      }
    }
  }

  /** Normalising adds no character but the space: a character class that
      holds of the query and of `' '` holds of its normal form. */
  lemma NormalizeKeepsChars(q: string, keep: char -> bool)
    requires keep(' ')
    requires forall i :: 0 <= i < |q| ==> keep(q[i])
    ensures forall i :: 0 <= i < |NormalizeQuery(q)| ==> keep(NormalizeQuery(q)[i])
  {
    WordsKeepChars(q, keep);
    JoinKeepsChars(Words(q), keep);
  }

  predicate NotSpace(c: char) { !IsSpace(c) }

  /** A run of whitespace, possibly empty. */
  predicate IsBlank(g: string) {
    forall i :: 0 <= i < |g| ==> IsSpace(g[i])
  }

  /** The words joined with nothing between them. */
  function Concat(ws: seq<string>): string {
    if ws == [] then [] else ws[0] + Concat(ws[1..])
  }

  /** The whitespace runs around and between the words of `s`: one before
      the first word, one after each word, the inner ones non-empty. */
  function Gaps(s: string): (gs: seq<string>)
    ensures |gs| == |Words(s)| + 1
    ensures forall i :: 0 <= i < |gs| ==> IsBlank(gs[i])
    ensures forall i :: 0 < i < |gs| - 1 ==> gs[i] != []
    ensures s != [] && IsSpace(s[0]) ==> gs[0] != []
    decreases |s|
  {
    if s == [] then [[]]
    else if IsSpace(s[0]) then
      var g := Gaps(s[1..]);
      [[s[0]] + g[0]] + g[1..]
    else
      var n := WordLength(s);
      [[]] + Gaps(s[n..])
  }

  /** `gs[0] + ws[0] + gs[1] + ... + ws[k - 1] + gs[k]`. */
  function Interleave(gs: seq<string>, ws: seq<string>): string
    requires |gs| == |ws| + 1
  {
    if ws == [] then gs[0] else gs[0] + ws[0] + Interleave(gs[1..], ws[1..])
  }

  /** Where `split()` breaks the text: `s` is its words with whitespace runs
      between them, non-empty between two words. */
  lemma {:induction false} WordsInterleave(s: string)
    ensures s == Interleave(Gaps(s), Words(s))
    decreases |s|
  {
    if s != [] {
      if IsSpace(s[0]) {
        WordsInterleave(s[1..]);
        GapsSpaceStep(s);
        InterleaveSpace(s[0], Gaps(s[1..]), Words(s[1..]));
        assert s == [s[0]] + s[1..];
      } else {
        var n := WordLength(s);
        WordsInterleave(s[n..]);
        GapsWordStep(s);
        InterleaveWord(s[..n], Gaps(s[n..]), Words(s[n..]));
        assert s == s[..n] + s[n..];
      }
    }
  }

  lemma GapsSpaceStep(s: string)
    requires s != [] && IsSpace(s[0])
    ensures Words(s) == Words(s[1..])
    ensures Gaps(s) == [[s[0]] + Gaps(s[1..])[0]] + Gaps(s[1..])[1..]
  {
  }

  lemma GapsWordStep(s: string)
    requires s != [] && !IsSpace(s[0])
    ensures Words(s) == [s[..WordLength(s)]] + Words(s[WordLength(s)..])
    ensures Gaps(s) == [[]] + Gaps(s[WordLength(s)..])
  {
  }

  lemma InterleaveSpace(c: char, g: seq<string>, ws: seq<string>)
    requires |g| == |ws| + 1
    ensures Interleave([[c] + g[0]] + g[1..], ws) == [c] + Interleave(g, ws)
  {
    var gs := [[c] + g[0]] + g[1..];
    assert gs[0] == [c] + g[0] && gs[1..] == g[1..];
  }

  lemma InterleaveWord(w: string, g: seq<string>, ws: seq<string>)
    requires |g| == |ws| + 1
    ensures Interleave([[]] + g, [w] + ws) == w + Interleave(g, ws)
  {
    var gs, vs := [[]] + g, [w] + ws;
    assert gs[0] == [] && gs[1..] == g && vs[0] == w && vs[1..] == ws;
    assert Interleave(gs, vs) == gs[0] + vs[0] + Interleave(gs[1..], vs[1..]);
    assert [] + w == w;
  }

  lemma ConcatCons(w: string, ws: seq<string>)
    ensures Concat([w] + ws) == w + Concat(ws)
  {
    assert ([w] + ws)[1..] == ws;
  }

  lemma {:induction false} FilterAppend<T>(keep: T -> bool, a: seq<T>, b: seq<T>)
    ensures Filter(keep, a + b) == Filter(keep, a) + Filter(keep, b)
    decreases |b|
  {
    if b != [] {
      var init := b[..|b| - 1];
      FilterAppend(keep, a, init);
      assert (a + b)[..|a + b| - 1] == a + init;
    } else {
      assert a + b == a;
    }
  }

  lemma {:induction false} FilterWord(w: string)
    requires forall i :: 0 <= i < |w| ==> !IsSpace(w[i])
    ensures Filter(NotSpace, w) == w
    decreases |w|
  {
    if w != [] {
      FilterWord(w[..|w| - 1]);
      assert w[..|w| - 1] + [w[|w| - 1]] == w;
    }
  }

  /** The words hold every non-whitespace character of the text, in order,
      and nothing else. */
  lemma {:induction false} WordsContent(s: string)
    ensures Concat(Words(s)) == Filter(NotSpace, s)
    decreases |s|
  {
    if s != [] {
      if IsSpace(s[0]) {
        WordsContent(s[1..]);
        WordsContentSpace(s);
      } else {
        WordsContent(s[WordLength(s)..]);
        WordsContentWord(s);
      }
    }
  }

  lemma WordsContentSpace(s: string)
    requires s != [] && IsSpace(s[0])
    requires Concat(Words(s[1..])) == Filter(NotSpace, s[1..])
    ensures Concat(Words(s)) == Filter(NotSpace, s)
  {
    WordsStartingWithSpace(s);
    FilterCons(NotSpace, s[0], s[1..]);
    assert [s[0]] + s[1..] == s;
  }

  lemma WordsContentWord(s: string)
    requires s != [] && !IsSpace(s[0])
    requires Concat(Words(s[WordLength(s)..])) == Filter(NotSpace, s[WordLength(s)..])
    ensures Concat(Words(s)) == Filter(NotSpace, s)
  {
    WordsStartingWithWord(s);
    ContentStep(s, WordLength(s), Words(s[WordLength(s)..]));
  }

  lemma ContentStep(s: string, n: nat, ws: seq<string>)
    requires n <= |s| && forall i :: 0 <= i < n ==> !IsSpace(s[i])
    requires Concat(ws) == Filter(NotSpace, s[n..])
    ensures Concat([s[..n]] + ws) == Filter(NotSpace, s)
  {
    var w, rest := s[..n], s[n..];
    assert w + rest == s;
    assert forall i :: 0 <= i < |w| ==> w[i] == s[i];
    FilterWord(w);
    FilterAppend(NotSpace, w, rest);
    ConcatCons(w, ws);
  }

  /** Normalising keeps every non-whitespace character of the query, in
      order, and adds none. */
  lemma NormalizeKeepsText(q: string)
    ensures Filter(NotSpace, NormalizeQuery(q)) == Filter(NotSpace, q)
  {
    NormalizeKeepsWords(q);
    WordsContent(NormalizeQuery(q));
    WordsContent(q);
  }

  /** Normalising keeps exactly the words of the query. */
  lemma NormalizeKeepsWords(q: string)
    ensures Words(NormalizeQuery(q)) == Words(q)
  {
    WordsOfJoin(Words(q));
  }

  /** `normalize_query` is idempotent. */
  lemma NormalizeIdempotent(q: string)
    ensures NormalizeQuery(NormalizeQuery(q)) == NormalizeQuery(q)
  {
    NormalizeKeepsWords(q);
  }

  /** A query is left unchanged by normalisation exactly when it is already
      normalised. */
  lemma NormalizeFixedPoints(q: string)
    ensures NormalizeQuery(q) == q <==> IsNormalized(q)
  {
    if IsNormalized(q) {
      NormalizedIsJoin(q);
    }
  }

  /** A suffix of a normalised text that starts with a non-space is normalised. */
  lemma NormalizedSuffix(q: string, k: nat)
    requires IsNormalized(q) && k < |q| && !IsSpace(q[k])
    ensures IsNormalized(q[k..])
  {
    var rest := q[k..];
    assert forall i :: 0 <= i < |rest| ==> rest[i] == q[k + i];
    forall i | 0 <= i < |rest| - 1 ensures NoDoubleSpaceAt(rest, i) {
      assert NoDoubleSpaceAt(q, k + i);
    }
  }

  /** After the first word of a normalised text come one space and a
      normalised remainder that starts with a word. */
  lemma NormalizedTail(q: string)
    requires IsNormalized(q) && WordLength(q) < |q|
    ensures var n := WordLength(q);
      && q[n] == ' ' && n + 1 < |q|
      && !IsSpace(q[n + 1]) && IsNormalized(q[n + 1..])
  {
    var n := WordLength(q);
    assert n + 1 < |q| by { assert !IsSpace(q[|q| - 1]); }
    assert NoDoubleSpaceAt(q, n);
    NormalizedSuffix(q, n + 1);
  }

  lemma WordsStartingWithWord(q: string)
    requires q != [] && !IsSpace(q[0])
    ensures Words(q) == [q[..WordLength(q)]] + Words(q[WordLength(q)..])
  {
  }

  lemma WordsStartingWithSpace(t: string)
    requires t != [] && IsSpace(t[0])
    ensures Words(t) == Words(t[1..])
  {
  }

  lemma SplitAtSpace(q: string, n: nat)
    requires n < |q| && q[n] == ' '
    ensures q == q[..n] + " " + q[n + 1..]
  {
  }

  lemma {:induction false} NormalizedIsJoin(q: string)
    requires IsNormalized(q)
    ensures JoinWords(Words(q)) == q
    decreases |q|
  {
    if q != [] {
      var n := WordLength(q);
      var w := q[..n];
      WordsStartingWithWord(q);
      if n == |q| {
        assert q[n..] == [];
      } else {
        NormalizedTail(q);
        var rest := q[n + 1..];
        WordsStartingWithSpace(q[n..]);
        assert q[n..][1..] == rest;
        WordsStartingWithWord(rest);
        var ws := Words(rest);
        NormalizedIsJoin(rest);
        assert Words(q) == [w] + ws;
        assert ws != [];
        assert ([w] + ws)[1..] == ws;
        assert JoinWords([w] + ws) == w + " " + rest;
        SplitAtSpace(q, n);
      }
    }
  }

  /** The `\w` class, restricted to ASCII letters, digits and underscore. */
  predicate IsWordChar(c: char) {
    IsAsciiAlpha(c) || IsAsciiDigit(c) || c == '_'
  }

  /** The class `[\w\s,.'-]` of the query pattern (app.py:31). */
  predicate InQueryClass(c: char) {
    IsWordChar(c) || IsSpace(c) || c == ',' || c == '.' || c == '\'' || c == '-'
  }

  /** How far the greedy `[...]+` runs from the start of `s`. */
  function ClassRun(s: string): (n: nat)
    ensures n <= |s|
    ensures forall i :: 0 <= i < n ==> InQueryClass(s[i])
    ensures n < |s| ==> !InQueryClass(s[n])
  {
    if s == [] || !InQueryClass(s[0]) then 0 else 1 + ClassRun(s[1..])
  }

  /** Where `$` (without MULTILINE) matches: at the end, or just before a final
      newline. */
  predicate EndAnchorAt(s: string, k: nat)
    requires k <= |s|
  {
    k == |s| || (k == |s| - 1 && s[k] == '\n')
  }

  /** The matcher backing off the greedy `+` one character at a time, down to
      its minimum of one, until `$` matches. */
  predicate BacktrackFrom(s: string, k: nat)
    requires k <= |s|
    decreases k
  {
    k > 0 && (EndAnchorAt(s, k) || BacktrackFrom(s, k - 1))
  }

  /** `QUERY_PATTERN.match(s)` succeeds. */
  predicate QueryPatternMatches(s: string)
    ensures QueryPatternMatches(s) ==> s != [] && InQueryClass(s[0])
  {
    BacktrackFrom(s, ClassRun(s))
  }

  /** `is_valid_query` (app.py:48-51). */
  predicate IsValidQuery(q: string)
    ensures IsValidQuery(q) ==> 0 < |q| <= MAX_QUERY_LENGTH && QueryPatternMatches(q)
  {
    if q == [] || |q| > MAX_QUERY_LENGTH then false
    else QueryPatternMatches(q)
  }

  lemma {:induction false} BacktrackFromIff(s: string, k: nat)
    requires k <= |s|
    ensures BacktrackFrom(s, k) <==>
      (0 < k == |s|) || (0 < |s| - 1 <= k && s[|s| - 1] == '\n')
    decreases k
  {
    if k > 0 {
      BacktrackFromIff(s, k - 1);
    }
  }

  /** The pattern matches exactly the non-empty strings drawn from its class:
      the newline `$` may leave unmatched is itself in the class. */
  lemma QueryPatternMatchesIff(s: string)
    ensures QueryPatternMatches(s) <==>
      s != [] && forall i :: 0 <= i < |s| ==> InQueryClass(s[i])
  {
    var n := ClassRun(s);
    BacktrackFromIff(s, n);
    assert InQueryClass('\n');
  }

  /** `is_valid_query` accepts exactly the non-empty queries of at most 160
      characters made only of word characters, whitespace, `,`, `.`, `'` and `-`. */
  lemma IsValidQueryIff(q: string)
    ensures IsValidQuery(q) <==>
      && 0 < |q| <= MAX_QUERY_LENGTH
      && forall i :: 0 <= i < |q| ==> InQueryClass(q[i])
  {
    QueryPatternMatchesIff(q);
  }

  /** Letters, digits, a comma, spaces and a hyphen are all accepted. */
  lemma ValidQueryExample()
    ensures IsValidQuery("soup, v-2")
  {
    var q := "soup, v-2";
    IsValidQueryIff(q);
    forall i | 0 <= i < |q| ensures InQueryClass(q[i]) {
      assert q[i] in "soup, v-2";
    }
  }

  /** A semicolon is outside the class, so the whole query is refused. */
  lemma InvalidQueryExample()
    ensures !IsValidQuery("a;b")
  {
    var q := "a;b";
    IsValidQueryIff(q);
    assert !InQueryClass(q[1]);
  }
}
