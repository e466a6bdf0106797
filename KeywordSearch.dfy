/**
 * The "Original Text Keyword Search" block: the corpus is cut into
 * paragraphs, and the first three paragraphs that contain the search term
 * are shown stripped; a warning is raised when none contains it.
 */
module KeywordSearch {
  import opened PyString
  import opened SeqFacts

  /** The two-character texts backslash-r and backslash-n (not the control characters). */
  const LiteralCR: string := ['\\', 'r']
  const LiteralLF: string := ['\\', 'n']

  /** The loop stops once this many paragraphs have been shown. */
  const MaxShown: nat := 3

  /**
   * The paragraphs: drop every literal backslash-r, split on literal
   * backslash-n, and fall back to splitting the untouched text on real
   * newlines when that split gives fewer than two pieces.
   */
  function Paragraphs(text: string): seq<string>
  {
    var escaped := Split(Remove(text, LiteralCR), LiteralLF);
    if |escaped| < 2 then Split(text, "\n") else escaped
  }

  /**
   * The fallback is taken exactly when the cleaned text holds no literal
   * backslash-n; either way the paragraphs joined with their separator give
   * back the text that was split, and no paragraph holds that separator.
   */
  lemma ParagraphsShape(text: string)
    ensures var cleaned := Remove(text, LiteralCR);
      Contains(cleaned, LiteralLF) ==>
        Paragraphs(text) == Split(cleaned, LiteralLF)
        && Join(Paragraphs(text), LiteralLF) == cleaned
        && forall k :: 0 <= k < |Paragraphs(text)| ==> !Contains(Paragraphs(text)[k], LiteralLF)
    ensures var cleaned := Remove(text, LiteralCR);
      !Contains(cleaned, LiteralLF) ==>
        Paragraphs(text) == Split(text, "\n")
        && Join(Paragraphs(text), "\n") == text
        && forall k :: 0 <= k < |Paragraphs(text)| ==> '\n' !in Paragraphs(text)[k]
  {
    var cleaned := Remove(text, LiteralCR);
    SplitLength(cleaned, LiteralLF);
    CountBounds(cleaned, LiteralLF);
    if Contains(cleaned, LiteralLF) {
      SplitJoin(cleaned, LiteralLF);
      SplitPiecesFree(cleaned, LiteralLF);
    } else {
      SplitJoin(text, "\n");
      SplitPiecesFree(text, "\n");
      forall k | 0 <= k < |Paragraphs(text)| ensures '\n' !in Paragraphs(text)[k] {
        ContainsChar(Paragraphs(text)[k], '\n');
      }
    }
  }

  /**
   * Every paragraph that contains the term, stripped, in the order of the
   * paragraphs.
   */
  function Matches(ps: seq<string>, term: string): seq<string>
  {
    if ps == [] then []
    else
      var last := ps[|ps| - 1];
      Matches(ps[..|ps| - 1], term) + (if Contains(last, term) then [Strip(last)] else [])
  }

  /** The matches of two runs of paragraphs, the first run's before the second's. */
  lemma {:induction false} MatchesConcat(a: seq<string>, b: seq<string>, term: string)
    ensures Matches(a + b, term) == Matches(a, term) + Matches(b, term)
    decreases |b|
  {
    if b == [] {
      AppendEmpty(a, b);
    } else {
      var init := b[..|b| - 1];
      AppendFront(a, b);
      MatchesConcat(a, init, term);
    }
  }

  /** There are no matches exactly when no paragraph contains the term. */
  lemma {:induction false} MatchesEmptyIff(ps: seq<string>, term: string)
    ensures Matches(ps, term) == [] <==> forall k :: 0 <= k < |ps| ==> !Contains(ps[k], term)
    decreases |ps|
  {
    if ps != [] {
      var init := ps[..|ps| - 1];
      MatchesEmptyIff(init, term);
      assert forall k :: 0 <= k < |init| ==> init[k] == ps[k];
    }
  }

  /** Each match is the stripped form of a paragraph that contains the term. */
  lemma {:induction false} MatchesSound(ps: seq<string>, term: string, x: string)
    requires x in Matches(ps, term)
    ensures exists k :: 0 <= k < |ps| && Contains(ps[k], term) && x == Strip(ps[k])
    decreases |ps|
  {
    var init, last := ps[..|ps| - 1], ps[|ps| - 1];
    var tail := if Contains(last, term) then [Strip(last)] else [];
    assert Matches(ps, term) == Matches(init, term) + tail;
    if x in Matches(init, term) {
      MatchesSound(init, term, x);
      var k :| 0 <= k < |init| && Contains(init[k], term) && x == Strip(init[k]);
      assert ps[k] == init[k];
    } else {
      assert x in tail;
      assert ps[|ps| - 1] == last;
    }
  }

  /** Every paragraph that contains the term gives a match. */
  lemma {:induction false} MatchesComplete(ps: seq<string>, term: string, k: nat)
    requires k < |ps| && Contains(ps[k], term)
    ensures Strip(ps[k]) in Matches(ps, term)
    decreases |ps|
  {
    var init, last := ps[..|ps| - 1], ps[|ps| - 1];
    var tail := if Contains(last, term) then [Strip(last)] else [];
    assert Matches(ps, term) == Matches(init, term) + tail;
    if k < |init| {
      assert init[k] == ps[k];
      MatchesComplete(init, term, k);
    } else {
      assert tail == [Strip(ps[k])];
    }
  }

  /** One match per paragraph that contains the term, so never more matches than paragraphs. */
  lemma {:induction false} MatchesLength(ps: seq<string>, term: string)
    ensures |Matches(ps, term)| <= |ps|
    ensures |Matches(ps, term)| == |ps| <==> forall k :: 0 <= k < |ps| ==> Contains(ps[k], term)
    decreases |ps|
  {
    if ps != [] {
      var init, last := ps[..|ps| - 1], ps[|ps| - 1];
      var tail := if Contains(last, term) then [Strip(last)] else [];
      assert Matches(ps, term) == Matches(init, term) + tail;
      MatchesLength(init, term);
      assert forall k :: 0 <= k < |init| ==> init[k] == ps[k];
    }
  }

  /** The first `n` elements of `s`, or all of `s` when it is shorter. */
  function Take<T>(s: seq<T>, n: nat): (r: seq<T>)
    ensures |r| == Min(n, |s|) && r <= s
  {
    if |s| <= n then s else s[..n]
  }

  /**
   * The search with term `term`: nothing happens for an empty term;
   * otherwise the shown paragraphs are the first three matches in paragraph
   * order, and the warning is raised exactly when there are no matches.
   */
  method Search(text: string, term: string) returns (shown: seq<string>, warned: bool)
    ensures term == [] ==> shown == [] && !warned
    ensures term != [] ==> shown == Take(Matches(Paragraphs(text), term), MaxShown)
    ensures term != [] ==> (warned <==> Matches(Paragraphs(text), term) == [])
  {
    shown, warned := [], false;
    if term == [] {
      return;
    }
    var paragraphs := Split(Remove(text, LiteralCR), LiteralLF);
    if |paragraphs| < 2 {
      paragraphs := Split(text, "\n");
    }
    assert paragraphs == Paragraphs(text);
    var count := 0;
    for i := 0 to |paragraphs|
      invariant shown == Matches(paragraphs[..i], term)
      invariant count == |shown| < MaxShown
    {
      var p := paragraphs[i];
      TakeSnoc(paragraphs, i);
      if Contains(p, term) {
        shown := shown + [Strip(p)];
        count := count + 1;
        if count >= MaxShown {
          ShownAreFirst(paragraphs, i + 1, term);
          break;
        }
      }
    }
    TakeAll(paragraphs);
    warned := count == 0;
  }

  /** After `n` paragraphs with three matches, those three are the first three matches of all. */
  lemma ShownAreFirst(ps: seq<string>, n: nat, term: string)
    requires n <= |ps| && |Matches(ps[..n], term)| == MaxShown
    ensures Take(Matches(ps, term), MaxShown) == Matches(ps[..n], term)
    ensures Matches(ps, term) != []
  {
    CutAt(ps, n);
    MatchesConcat(ps[..n], ps[n..], term);
  }
}
