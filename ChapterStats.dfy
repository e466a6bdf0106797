/**
 * The chapter statistics aggregator `process_chapter_stats` of app.py: the
 * corpus is cut before every chapter-title marker, blank chunks are dropped,
 * and each remaining chunk becomes one row holding its title, a short label
 * and, for each of the nine locations, how often its aliases occur.
 */
module ChapterStats {
  import opened PyString
  import opened SeqFacts

  // ---------------------------------------------------------------------
  // Segmentation: the regular-expression split before title markers
  // ---------------------------------------------------------------------

  /**
   * The zero-width pattern `(?=\*[^\n]+)` matches at index `i`: a `*`
   * followed by at least one character other than a newline. It is not
   * anchored to the start of a line.
   */
  predicate IsSplitPoint(s: string, i: int) {
    0 <= i && i + 1 < |s| && s[i] == '*' && s[i + 1] != '\n'
  }

  /** The first split point at or after `from`, or `|s|` if there is none. */
  function NextSplit(s: string, from: nat): (j: nat)
    requires from <= |s|
    decreases |s| - from
    ensures from <= j <= |s|
    ensures j < |s| ==> IsSplitPoint(s, j)
    ensures forall k :: from <= k < j ==> !IsSplitPoint(s, k)
  {
    if from == |s| then |s|
    else if IsSplitPoint(s, from) then from
    else NextSplit(s, from + 1)
  }

  /**
   * `pieces` is a split of `s` before each of its split points, where the
   * split point at index 0 is ignored when `from` is 1 (the text is then
   * already known to start after a cut):
   * the pieces concatenate to `s`; every piece after the first is non-empty
   * and, together with everything after it, starts at a split point; and no
   * position inside a piece other than its first (for the first piece, no
   * position from `from` on) is a split point.
   */
  ghost predicate IsSplitFrom(s: string, pieces: seq<string>, from: nat) {
    |pieces| > 0 && Join(pieces, "") == s
    && (from == 1 ==> pieces[0] != [])
    && (forall k :: 1 <= k < |pieces| ==> pieces[k] != [])
    && (forall k :: 1 <= k < |pieces| ==> IsSplitPoint(Join(pieces[k..], ""), 0))
    && (forall k, j :: 0 <= k < |pieces| && (if k == 0 then from else 1) <= j < |pieces[k]|
          ==> !IsSplitPoint(Join(pieces[k..], ""), j))
  }

  /** A regular-expression split of the corpus on the chapter-title lookahead. */
  ghost predicate IsChapterSplit(text: string, chunks: seq<string>) {
    IsSplitFrom(text, chunks, 0)
  }

  lemma JoinConsEmpty(a: string, rest: seq<string>)
    requires |rest| > 0
    ensures Join([a] + rest, "") == a + Join(rest, "")
  {
    JoinCons(a, rest, "");
    AppendEmpty(a, "");
  }

  /** Cutting `s` every time a split point is reached, starting at `from`. */
  function Pieces(s: string, from: nat): seq<string>
    requires from <= 1 && from <= |s|
    decreases |s|, 1 - from
  {
    var j := NextSplit(s, from);
    if j == |s| then [s] else [s[..j]] + Pieces(s[j..], 1)
  }

  /** The cuts `Pieces` makes form a split of `s` in the sense of `IsSplitFrom`. */
  lemma {:induction false} PiecesSplit(s: string, from: nat)
    requires from <= 1 && from <= |s|
    ensures IsSplitFrom(s, Pieces(s, from), from)
    decreases |s|, 1 - from
  {
    var j := NextSplit(s, from);
    if j == |s| {
      assert [s][0..] == [s];
    } else {
      PiecesSplit(s[j..], 1);
      PiecesCons(s, from, j, Pieces(s[j..], 1));
    }
  }

  /** The inductive step of `Pieces`: one more piece in front. */
  lemma PiecesCons(s: string, from: nat, j: nat, t: seq<string>)
    requires from <= 1 && from <= j < |s|
    requires IsSplitPoint(s, j)
    requires forall k :: from <= k < j ==> !IsSplitPoint(s, k)
    requires IsSplitFrom(s[j..], t, 1)
    ensures IsSplitFrom(s, [s[..j]] + t, from)
  {
    PiecesConsHeads(s, j, t);
    PiecesConsInside(s, from, j, t);
  }

  /** With one more piece in front, the pieces still rejoin to the text and each later one starts at a split point. */
  lemma PiecesConsHeads(s: string, j: nat, t: seq<string>)
    requires j < |s| && IsSplitPoint(s, j)
    requires IsSplitFrom(s[j..], t, 1)
    ensures var r := [s[..j]] + t;
      Join(r, "") == s
      && (forall k :: 1 <= k < |r| ==> r[k] != [])
      && (forall k :: 1 <= k < |r| ==> IsSplitPoint(Join(r[k..], ""), 0))
  {
    var r := [s[..j]] + t;
    JoinConsEmpty(s[..j], t);
    assert s == s[..j] + s[j..];
    forall k | 1 <= k < |r|
      ensures r[k..] == t[k - 1..]
    {
    }
    assert IsSplitPoint(Join(t[0..], ""), 0) by {
      assert t[0..] == t;
    }
  }

  /** With one more piece in front, no position inside a piece is a split point. */
  lemma PiecesConsInside(s: string, from: nat, j: nat, t: seq<string>)
    requires from <= 1 && from <= j < |s|
    requires forall k :: from <= k < j ==> !IsSplitPoint(s, k)
    requires IsSplitFrom(s[j..], t, 1)
    ensures var r := [s[..j]] + t;
      Join(r, "") == s
      && forall k, i :: 0 <= k < |r| && (if k == 0 then from else 1) <= i < |r[k]|
           ==> !IsSplitPoint(Join(r[k..], ""), i)
  {
    var r := [s[..j]] + t;
    JoinConsEmpty(s[..j], t);
    assert s == s[..j] + s[j..];
    assert r[0..] == r;
    forall k, i | 0 <= k < |r| && (if k == 0 then from else 1) <= i < |r[k]|
      ensures !IsSplitPoint(Join(r[k..], ""), i)
    {
      if k > 0 {
        assert r[k..] == t[k - 1..];
      }
    }
  }

  /**
   * The chunks of the corpus as the lookahead split returns them. A split at
   * index 0 yields a leading empty chunk.
   */
  function SplitChapters(text: string): seq<string>
  {
    Pieces(text, 0)
  }

  /**
   * The chunks concatenate to the corpus, every chunk after the first is
   * non-empty and starts at a split point, and no other index is one.
   */
  lemma SplitChaptersSpec(text: string)
    ensures IsChapterSplit(text, SplitChapters(text))
  {
    PiecesSplit(text, 0);
  }

  /** The chunks are determined: any split of the text satisfying the specification is `SplitChapters`'s. */
  lemma {:induction false} SplitUnique(s: string, q: seq<string>, from: nat)
    requires from <= 1 && from <= |s|
    requires IsSplitFrom(s, q, from)
    ensures q == Pieces(s, from)
    decreases |s|, 1 - from
  {
    var j := NextSplit(s, from);
    assert q[0..] == q;
    if |q| == 1 {
      assert q[0] == s;
    } else {
      var a, t := q[0], q[1..];
      assert q == [a] + t;
      JoinConsEmpty(a, t);
      var rest := Join(t, "");
      assert s == a + rest;
      assert IsSplitPoint(Join(q[1..], ""), 0);
      assert IsSplitPoint(s, |a|) by {
        assert s[|a|] == rest[0] && s[|a| + 1] == rest[1];
      }
      forall i | from <= i < |a|
        ensures !IsSplitPoint(s, i)
      {
        assert !IsSplitPoint(Join(q[0..], ""), i);
      }
      assert j == |a|;
      assert s[..j] == a && s[j..] == rest;
      forall k | 1 <= k < |t|
        ensures t[k..] == q[k + 1..]
      {
      }
      forall k, i | 0 <= k < |t| && 1 <= i < |t[k]|
        ensures !IsSplitPoint(Join(t[k..], ""), i)
      {
        assert t[k..] == q[k + 1..];
        assert !IsSplitPoint(Join(q[k + 1..], ""), i);
      }
      forall k | 1 <= k < |t|
        ensures IsSplitPoint(Join(t[k..], ""), 0)
      {
        assert t[k..] == q[k + 1..];
      }
      assert IsSplitFrom(rest, t, 1);
      SplitUnique(rest, t, 1);
    }
  }

  /** Every chunk after the first starts with `*`. */
  lemma ChunksStartWithStar(text: string, k: nat)
    requires 1 <= k < |SplitChapters(text)|
    ensures SplitChapters(text)[k] != [] && SplitChapters(text)[k][0] == '*'
  {
    var chunks := SplitChapters(text);
    SplitChaptersSpec(text);
    var rest := chunks[k..];
    if |rest| > 1 {
      JoinConsEmpty(rest[0], rest[1..]);
      assert [rest[0]] + rest[1..] == rest;
    }
    assert IsSplitPoint(Join(rest, ""), 0);
  }

  /**
   * The lookahead is not anchored to line starts and every star followed by
   * a non-newline is a cut, so a doubled marker cuts twice: a text starting
   * with a split point also gives a leading empty chunk, and the first star
   * becomes a chunk of its own.
   */
  lemma DoubledMarkerCutsTwice()
    ensures SplitChapters("**x") == ["", "*", "*x"]
  {
    var s := "**x";
    assert NextSplit(s, 0) == 0;
    assert s[0..] == s;
    assert NextSplit(s, 1) == 1;
    assert s[1..] == "*x";
    assert NextSplit("*x", 1) == 2;
    assert Pieces("*x", 1) == ["*x"];
    assert s[..1] == "*";
    assert Pieces(s, 1) == [s[..1]] + Pieces(s[1..], 1);
  }

  // ---------------------------------------------------------------------
  // Dropping blank chunks
  // ---------------------------------------------------------------------

  /** The chunk is empty or whitespace only once stripped. */
  predicate IsBlank(chunk: string) {
    Strip(chunk) == []
  }

  /** The chunks that yield a row, in their order. */
  function NonBlank(chunks: seq<string>): seq<string>
  {
    if chunks == [] then []
    else
      var last := chunks[|chunks| - 1];
      NonBlank(chunks[..|chunks| - 1]) + (if IsBlank(last) then [] else [last])
  }

  /** One more chunk is kept at the end unless it is blank. */
  lemma NonBlankSnoc(chunks: seq<string>, c: string)
    ensures NonBlank(chunks + [c]) == NonBlank(chunks) + if IsBlank(c) then [] else [c]
  {
    SnocFront(chunks, c);
  }

  /** A chunk is kept exactly when it is not all whitespace. */
  lemma NonBlankOne(c: string)
    ensures NonBlank([c]) == if AllSpace(c) then [] else [c]
  {
    assert [c][..0] == [];
    StripShape(c);
  }

  /** Keeping the non-blank chunks preserves their order across a concatenation. */
  lemma {:induction false} NonBlankConcat(a: seq<string>, b: seq<string>)
    ensures NonBlank(a + b) == NonBlank(a) + NonBlank(b)
    decreases |b|
  {
    if b == [] {
      AppendEmpty(a, b);
    } else {
      var init, last := b[..|b| - 1], b[|b| - 1];
      ConcatSnoc(a, b);
      NonBlankSnoc(a + init, last);
      NonBlankSnoc(init, last);
      NonBlankConcat(a, init);
    }
  }

  /**
   * Every chunk that is not blank yields exactly one kept copy, and a blank
   * chunk none.
   */
  lemma {:induction false} NonBlankCounts(chunks: seq<string>, c: string)
    ensures multiset(NonBlank(chunks))[c] == if IsBlank(c) then 0 else multiset(chunks)[c]
    decreases |chunks|
  {
    if chunks != [] {
      var init, last := chunks[..|chunks| - 1], chunks[|chunks| - 1];
      NonBlankCounts(init, c);
      var tail := if IsBlank(last) then [] else [last];
      assert multiset(NonBlank(chunks)) == multiset(NonBlank(init)) + multiset(tail);
      FrontLast(chunks);
    }
  }

  // ---------------------------------------------------------------------
  // Titles and short labels
  // ---------------------------------------------------------------------

  /** The first element of the chunk split on newlines: the text before the first newline. */
  function FirstLine(chunk: string): string
  {
    Split(chunk, "\n")[0]
  }

  /** `Full_Title`: the first line with every `*` removed, stripped. */
  function Title(chunk: string): string
  {
    Strip(Remove(FirstLine(chunk), "*"))
  }

  /**
   * The first line is the longest newline-free prefix of the chunk: a
   * prefix without newline, followed by a newline unless it is the whole
   * chunk.
   */
  lemma FirstLineShape(chunk: string)
    ensures FirstLine(chunk) <= chunk && '\n' !in FirstLine(chunk)
    ensures |FirstLine(chunk)| < |chunk| ==> chunk[|FirstLine(chunk)|] == '\n'
  {
    var line := FirstLine(chunk);
    SplitFirst(chunk, "\n");
    ContainsChar(line, '\n');
    if |line| < |chunk| {
      assert (line + "\n")[|line|] == '\n';
    }
  }

  /**
   * The title is what is left of the first line once the stars are removed
   * and the surrounding whitespace stripped: it holds no star and no
   * newline, has no whitespace at either end, and the first line minus its
   * stars is the title with only whitespace around it.
   */
  lemma TitleShape(chunk: string)
    ensures '*' !in Title(chunk) && '\n' !in Title(chunk)
    ensures Title(chunk) != [] ==> !IsSpace(Title(chunk)[0]) && !IsSpace(Title(chunk)[|Title(chunk)| - 1])
    ensures var noStars := Remove(FirstLine(chunk), "*");
      var i := LeadingSpaces(noStars);
      noStars == noStars[..i] + Title(chunk) + noStars[i + |Title(chunk)|..]
      && AllSpace(noStars[..i]) && AllSpace(noStars[i + |Title(chunk)|..])
  {
    TitleChars(chunk);
    TitleFrame(chunk);
  }

  lemma TitleChars(chunk: string)
    ensures '*' !in Title(chunk) && '\n' !in Title(chunk)
  {
    var line := FirstLine(chunk);
    FirstLineShape(chunk);
    var noStars := Remove(line, "*");
    RemoveCharGone(line, '*');
    RemoveCharKeepsAbsent(line, '*', '\n');
    StripKeepsAbsent(noStars, '*');
    StripKeepsAbsent(noStars, '\n');
  }

  lemma TitleFrame(chunk: string)
    ensures Title(chunk) != [] ==> !IsSpace(Title(chunk)[0]) && !IsSpace(Title(chunk)[|Title(chunk)| - 1])
    ensures var noStars := Remove(FirstLine(chunk), "*");
      var i := LeadingSpaces(noStars);
      noStars == noStars[..i] + Title(chunk) + noStars[i + |Title(chunk)|..]
      && AllSpace(noStars[..i]) && AllSpace(noStars[i + |Title(chunk)|..])
  {
    var noStars := Remove(FirstLine(chunk), "*");
    StripAround(noStars);
    StripConcat(noStars);
    StripEnds(noStars);
  }

  /**
   * The `Chapter` label: the first piece of the title split on ASCII spaces
   * (the text before the first space) when it holds a space, and
   * otherwise the first six characters, or the whole title when shorter.
   */
  function ShortLabel(title: string): (short: string)
    ensures short <= title
    ensures ' ' in title ==> ' ' !in short && |short| < |title| && title[|short|] == ' '
    ensures ' ' !in title ==> |short| == Min(6, |title|)
  {
    ContainsChar(title, ' ');
    if Contains(title, " ") then
      var first := Split(title, " ")[0];
      SplitFirst(title, " ");
      SplitLength(title, " ");
      ContainsChar(first, ' ');
      assert (first + " ")[|first|] == ' ';
      first
    else title[..Min(6, |title|)]
  }

  // ---------------------------------------------------------------------
  // The location table and the alias counts
  // ---------------------------------------------------------------------

  /** A location: its canonical name and the surface forms that refer to it. */
  datatype Location = Location(name: string, aliases: seq<string>)

  /** Two of Hangzhou's aliases, one the start of the other. */
  const Qiantang: string := "錢塘"
  const QiantangGate: string := "錢塘門"

  const Hangzhou := Location("Hangzhou", ["杭州", "杭城", "西湖", "省城", "武林", Qiantang, "斷河頭", "清波門", "仁和",
                                          QiantangGate, "靈隱", "天竺", "蘇堤", "雷峰", "淨慈", "城隍山", "吳山"])
  const Huzhou := Location("Huzhou", ["湖州", "鶯脰湖", "新市鎮", "雙林", "婁府", "烏程"])
  const Beijing := Location("Beijing", ["北京", "京師", "京裏", "京城", "都門", "魏闕", "長安", "順天府", "內廷", "入京",
                                        "進京"])
  const Nanjing := Location("Nanjing", ["南京", "金陵", "白下", "建康", "應天"])
  const Yangzhou := Location("Yangzhou", ["揚州", "廣陵", "維揚", "江都"])
  const Jinan := Location("Jinan", ["濟南", "歷下"])
  const Suzhou := Location("Suzhou", ["蘇州", "姑蘇", "吳門", "平江"])
  const Wenzhou := Location("Wenzhou", ["溫州", "樂清"])
  const Shaoxing := Location("Shaoxing", ["紹興", "會稽", "越城"])

  /** `LOCATIONS_DB`, in its order. */
  const LocationsDb: seq<Location> := [Hangzhou, Huzhou, Beijing, Nanjing, Yangzhou, Jinan, Suzhou, Wenzhou, Shaoxing]

  /** The row keys that are not location names. */
  const ChapterKey: string := "Chapter"
  const FullTitleKey: string := "Full_Title"

  function LocationNames(locs: seq<Location>): set<string> {
    set i | 0 <= i < |locs| :: locs[i].name
  }

  /** No two locations share a name, and none is named like a title column. */
  predicate DistinctNames(locs: seq<Location>) {
    (forall i, j :: 0 <= i < j < |locs| ==> locs[i].name != locs[j].name)
    && (forall i :: 0 <= i < |locs| ==> locs[i].name != ChapterKey && locs[i].name != FullTitleKey)
  }

  /** No alias of the location is the empty text. */
  predicate NoEmptyAlias(l: Location) {
    forall k :: 0 <= k < |l.aliases| ==> l.aliases[k] != []
  }

  predicate AliasesNonEmpty(locs: seq<Location>) {
    forall i :: 0 <= i < |locs| ==> NoEmptyAlias(locs[i])
  }

  /**
   * The nine names differ pairwise (already in length or first letter) and
   * from the title columns, and no alias is empty.
   */
  lemma LocationsDbWellFormed()
    ensures DistinctNames(LocationsDb) && AliasesNonEmpty(LocationsDb)
  {
    var db := LocationsDb;
    forall i, j | 0 <= i < j < |db| ensures db[i].name != db[j].name {
      assert |db[i].name| != |db[j].name| || db[i].name[0] != db[j].name[0];
    }
    forall i | 0 <= i < |db| ensures db[i].name != ChapterKey && db[i].name != FullTitleKey {
      assert |db[i].name| != |ChapterKey| || db[i].name[0] != ChapterKey[0];
    }
    LocationsDbAliases();
  }

  lemma LocationsDbAliases()
    ensures AliasesNonEmpty(LocationsDb)
  {
    ZhejiangAliases();
    NorthernAliases();
    JiangsuAliases();
  }

  lemma ZhejiangAliases()
    ensures NoEmptyAlias(Hangzhou) && NoEmptyAlias(Huzhou) && NoEmptyAlias(Wenzhou) && NoEmptyAlias(Shaoxing)
  {
  }

  lemma NorthernAliases()
    ensures NoEmptyAlias(Beijing) && NoEmptyAlias(Jinan)
  {
  }

  lemma JiangsuAliases()
    ensures NoEmptyAlias(Nanjing) && NoEmptyAlias(Yangzhou) && NoEmptyAlias(Suzhou)
  {
  }

  /** The sum over the aliases of their occurrence counts in the chunk, accumulated in the aliases' order. */
  function AliasTotal(chunk: string, aliases: seq<string>): (n: int)
    ensures n >= 0
  {
    if aliases == [] then 0
    else AliasTotal(chunk, aliases[..|aliases| - 1]) + Count(chunk, aliases[|aliases| - 1])
  }

  /** The total is positive exactly when some (non-empty) alias occurs in the chunk. */
  lemma {:induction false} AliasTotalPositive(chunk: string, aliases: seq<string>)
    requires forall k :: 0 <= k < |aliases| ==> aliases[k] != []
    ensures AliasTotal(chunk, aliases) > 0 <==> exists k :: 0 <= k < |aliases| && Contains(chunk, aliases[k])
    decreases |aliases|
  {
    if aliases != [] {
      var init, last := aliases[..|aliases| - 1], aliases[|aliases| - 1];
      AliasTotalPositive(chunk, init);
      CountBounds(chunk, last);
      if AliasTotal(chunk, init) > 0 {
        var k :| 0 <= k < |init| && Contains(chunk, init[k]);
        assert aliases[k] == init[k];
      }
      forall k | 0 <= k < |aliases| - 1 ensures aliases[k] == init[k] { }
    }
  }

  /** The total over a concatenation of alias lists is the sum of the totals. */
  lemma {:induction false} AliasTotalConcat(chunk: string, a: seq<string>, b: seq<string>)
    ensures AliasTotal(chunk, a + b) == AliasTotal(chunk, a) + AliasTotal(chunk, b)
    decreases |b|
  {
    if b == [] {
      AppendEmpty(a, b);
    } else {
      AppendFront(a, b);
      AliasTotalConcat(chunk, a, b[..|b| - 1]);
    }
  }

  /** Aliases whose first character never occurs in the chunk add nothing. */
  lemma {:induction false} AliasTotalAbsent(chunk: string, aliases: seq<string>)
    requires forall k :: 0 <= k < |aliases| ==> aliases[k] != [] && aliases[k][0] !in chunk
    ensures AliasTotal(chunk, aliases) == 0
    decreases |aliases|
  {
    if aliases != [] {
      var init, last := aliases[..|aliases| - 1], aliases[|aliases| - 1];
      assert forall k :: 0 <= k < |init| ==> init[k] == aliases[k];
      AliasTotalAbsent(chunk, init);
      CountAbsent(chunk, last);
    }
  }

  /** The total counts every alias of the list, whatever the others match. */
  lemma {:induction false} AliasTotalCountsEach(chunk: string, aliases: seq<string>, i: nat, j: nat)
    requires i < j < |aliases|
    ensures AliasTotal(chunk, aliases) >= Count(chunk, aliases[i]) + Count(chunk, aliases[j])
    decreases |aliases|
  {
    var init := aliases[..|aliases| - 1];
    if j < |aliases| - 1 {
      AliasTotalCountsEach(chunk, init, i, j);
    } else {
      AliasTotalAtLeast(chunk, init, i);
    }
  }

  lemma {:induction false} AliasTotalAtLeast(chunk: string, aliases: seq<string>, i: nat)
    requires i < |aliases|
    ensures AliasTotal(chunk, aliases) >= Count(chunk, aliases[i])
    decreases |aliases|
  {
    if i < |aliases| - 1 {
      AliasTotalAtLeast(chunk, aliases[..|aliases| - 1], i);
    }
  }

  /**
   * Nested aliases are counted independently: when one alias of a location
   * begins another, a chunk that is the longer alias counts at least twice.
   */
  lemma NestedAliasesCountTwice(aliases: seq<string>, i: nat, j: nat)
    requires i < |aliases| && j < |aliases| && i != j
    requires aliases[i] != [] && aliases[i] <= aliases[j]
    ensures AliasTotal(aliases[j], aliases) >= 2
  {
    var x, y := aliases[i], aliases[j];
    assert y[..|x|] == x;
    assert Count(y, x) >= 1;
    assert y[..|y|] == y;
    assert Count(y, y) >= 1;
    if i < j {
      AliasTotalCountsEach(y, aliases, i, j);
    } else {
      AliasTotalCountsEach(y, aliases, j, i);
    }
  }

  /**
   * When no alias other than those at `i` and `j` can occur, the total is
   * the counts of those two (of the ones the list reaches).
   */
  lemma {:induction false} AliasTotalTwo(chunk: string, aliases: seq<string>, i: nat, j: nat)
    requires i < j
    requires forall k :: 0 <= k < |aliases| && k != i && k != j ==> aliases[k] != [] && aliases[k][0] !in chunk
    ensures AliasTotal(chunk, aliases)
         == (if i < |aliases| then Count(chunk, aliases[i]) else 0) + (if j < |aliases| then Count(chunk, aliases[j]) else 0)
    decreases |aliases|
  {
    if aliases != [] {
      var init, last := aliases[..|aliases| - 1], aliases[|aliases| - 1];
      assert forall k :: 0 <= k < |init| ==> init[k] == aliases[k];
      AliasTotalTwo(chunk, init, i, j);
      if |init| != i && |init| != j {
        CountAbsent(chunk, last);
      }
    }
  }

  /** In Hangzhou's list, one `錢塘門` adds exactly 2: once for `錢塘`, once for `錢塘門`. */
  lemma QiantangGateCountsTwice()
    ensures AliasTotal(QiantangGate, Hangzhou.aliases) == 2
  {
    var c, a := QiantangGate, Hangzhou.aliases;
    AliasTotalTwo(c, a, 5, 9);
    assert a[5] == Qiantang && a[9] == QiantangGate;
    assert c[..2] == Qiantang && c[2..] == "門";
    assert Count("門", Qiantang) == 0;
    assert c[..3] == c && c[3..] == [];
  }

  // ---------------------------------------------------------------------
  // Rows
  // ---------------------------------------------------------------------

  /** A cell of a row: a title string or a location count. */
  datatype Cell = Text(text: string) | Num(count: int)

  /** One row of `chapter_data`: the dict from column name to cell. */
  type Row = map<string, Cell>

  /**
   * The row filled key by key: `Chapter` and `Full_Title`, then one count
   * per location of `locs`, in the table's order.
   */
  function RowFor(chunk: string, locs: seq<Location>): Row
  {
    if locs == [] then
      map[ChapterKey := Text(ShortLabel(Title(chunk))), FullTitleKey := Text(Title(chunk))]
    else
      var last := locs[|locs| - 1];
      RowFor(chunk, locs[..|locs| - 1])[last.name := Num(AliasTotal(chunk, last.aliases))]
  }

  /**
   * With distinct location names, the row has exactly the keys `Chapter`,
   * `Full_Title` and the location names; the first two hold the short label
   * and the title, and the count under each location's name is the total of
   * its aliases' counts in the whole chunk.
   */
  lemma {:induction false} RowForShape(chunk: string, locs: seq<Location>)
    requires DistinctNames(locs)
    ensures RowFor(chunk, locs).Keys == {ChapterKey, FullTitleKey} + LocationNames(locs)
    ensures RowFor(chunk, locs)[ChapterKey] == Text(ShortLabel(Title(chunk)))
    ensures RowFor(chunk, locs)[FullTitleKey] == Text(Title(chunk))
    ensures forall i :: 0 <= i < |locs| ==>
      RowFor(chunk, locs)[locs[i].name] == Num(AliasTotal(chunk, locs[i].aliases))
    decreases |locs|
  {
    if locs != [] {
      var init, last := locs[..|locs| - 1], locs[|locs| - 1];
      var before, after := RowFor(chunk, init), RowFor(chunk, locs);
      assert after == before[last.name := Num(AliasTotal(chunk, last.aliases))];
      DistinctNamesInit(locs);
      RowForShape(chunk, init);
      assert forall i :: 0 <= i < |init| ==> init[i] == locs[i];
      RowForStep(chunk, locs, ShortLabel(Title(chunk)), Title(chunk), before, after);
    }
  }

  lemma DistinctNamesInit(locs: seq<Location>)
    requires locs != [] && DistinctNames(locs)
    ensures DistinctNames(locs[..|locs| - 1])
    ensures LocationNames(locs) == LocationNames(locs[..|locs| - 1]) + {locs[|locs| - 1].name}
    ensures locs[|locs| - 1].name !in LocationNames(locs[..|locs| - 1]) + {ChapterKey, FullTitleKey}
  {
    var init := locs[..|locs| - 1];
    forall x | x in LocationNames(locs) ensures x in LocationNames(init) + {locs[|locs| - 1].name} {
      var i :| 0 <= i < |locs| && locs[i].name == x;
      if i < |init| {
        assert init[i].name == x;
      }
    }
  }

  /** One step of the fold: an untouched key keeps its cell, the new key gets its count. */
  lemma RowForStep(chunk: string, locs: seq<Location>, short: string, title: string, before: Row, after: Row)
    requires locs != []
    requires after == before[locs[|locs| - 1].name := Num(AliasTotal(chunk, locs[|locs| - 1].aliases))]
    requires before.Keys == {ChapterKey, FullTitleKey} + LocationNames(locs[..|locs| - 1])
    requires before[ChapterKey] == Text(short) && before[FullTitleKey] == Text(title)
    requires forall i :: 0 <= i < |locs| - 1 ==>
      before[locs[i].name] == Num(AliasTotal(chunk, locs[i].aliases))
    requires LocationNames(locs) == LocationNames(locs[..|locs| - 1]) + {locs[|locs| - 1].name}
    requires locs[|locs| - 1].name !in LocationNames(locs[..|locs| - 1]) + {ChapterKey, FullTitleKey}
    requires forall i :: 0 <= i < |locs| - 1 ==> locs[i].name != locs[|locs| - 1].name
    ensures after.Keys == {ChapterKey, FullTitleKey} + LocationNames(locs)
    ensures after[ChapterKey] == Text(short) && after[FullTitleKey] == Text(title)
    ensures forall i :: 0 <= i < |locs| ==> after[locs[i].name] == Num(AliasTotal(chunk, locs[i].aliases))
  {
  }

  /** The row of one kept chunk, with the nine locations of `LOCATIONS_DB`. */
  function RowOf(chunk: string): Row
  {
    RowFor(chunk, LocationsDb)
  }

  /**
   * Every row has exactly the keys `Chapter`, `Full_Title` and the nine
   * location names, and every count in it is the non-negative alias total
   * of that location in the chunk.
   */
  lemma RowOfShape(chunk: string)
    ensures RowOf(chunk).Keys == {ChapterKey, FullTitleKey} + LocationNames(LocationsDb)
    ensures forall i :: 0 <= i < |LocationsDb| ==>
      RowOf(chunk)[LocationsDb[i].name] == Num(AliasTotal(chunk, LocationsDb[i].aliases))
      && RowOf(chunk)[LocationsDb[i].name].count >= 0
  {
    LocationsDbWellFormed();
    RowForShape(chunk, LocationsDb);
  }

  /** The rows of a list of kept chunks, one per chunk, in order. */
  function RowsOf(chunks: seq<string>, locs: seq<Location>): seq<Row>
  {
    seq(|chunks|, k requires 0 <= k < |chunks| => RowFor(chunks[k], locs))
  }

  /** One more kept chunk adds its row at the end. */
  lemma RowsOfSnoc(chunks: seq<string>, c: string, locs: seq<Location>)
    ensures RowsOf(chunks + [c], locs) == RowsOf(chunks, locs) + [RowFor(c, locs)]
  {
    var a, b := RowsOf(chunks + [c], locs), RowsOf(chunks, locs) + [RowFor(c, locs)];
    assert |a| == |b|;
    forall k | 0 <= k < |a| ensures a[k] == b[k] {
      if k < |chunks| {
        assert (chunks + [c])[k] == chunks[k];
      }
    }
  }

  // ---------------------------------------------------------------------
  // process_chapter_stats
  // ---------------------------------------------------------------------

  /** The innermost loop: a location's count, alias by alias. */
  method LocationCount(chapter: string, aliases: seq<string>) returns (count: int)
    ensures count == AliasTotal(chapter, aliases)
  {
    count := 0;
    for a := 0 to |aliases|
      invariant count == AliasTotal(chapter, aliases[..a])
    {
      TakeSnoc(aliases, a);
      count := count + Count(chapter, aliases[a]);
    }
    TakeAll(aliases);
  }

  /** The loop body for one kept chunk: the row dict, filled key by key. */
  method ChapterRow(chapter: string, locs: seq<Location>) returns (row: Row)
    ensures row == RowFor(chapter, locs)
  {
    var title := Title(chapter);
    var shortTitle := ShortLabel(title);
    row := map[ChapterKey := Text(shortTitle), FullTitleKey := Text(title)];
    for l := 0 to |locs|
      invariant row == RowFor(chapter, locs[..l])
    {
      var loc := locs[l];
      var count := LocationCount(chapter, loc.aliases);
      TakeSnoc(locs, l);
      row := row[loc.name := Num(count)];
    }
    TakeAll(locs);
  }

  /**
   * The loops of `process_chapter_stats` over a location table `locs`:
   * one row per non-blank chunk of the corpus, in the order of the chunks.
   */
  method ChapterRows(text: string, locs: seq<Location>) returns (rows: seq<Row>)
    ensures rows == RowsOf(NonBlank(SplitChapters(text)), locs)
  {
    var chapters := SplitChapters(text);
    rows := [];
    for i := 0 to |chapters|
      invariant rows == RowsOf(NonBlank(chapters[..i]), locs)
    {
      var chapter := chapters[i];
      TakeSnoc(chapters, i);
      NonBlankSnoc(chapters[..i], chapter);
      if IsBlank(chapter) {
        continue;
      }
      RowsOfSnoc(NonBlank(chapters[..i]), chapter, locs);
      var row := ChapterRow(chapter, locs);
      rows := rows + [row];
    }
    TakeAll(chapters);
  }

  /**
   * `process_chapter_stats(text)` with `LOCATIONS_DB`: one row per
   * non-blank chunk of the corpus, in the order of the chunks.
   */
  method ProcessChapterStats(text: string) returns (rows: seq<Row>)
    ensures |rows| == |NonBlank(SplitChapters(text))|
    ensures forall i :: 0 <= i < |rows| ==> rows[i] == RowOf(NonBlank(SplitChapters(text))[i])
  {
    rows := ChapterRows(text, LocationsDb);
  }
}
