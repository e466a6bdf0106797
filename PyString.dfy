/**
 * The Python `str` operations the dashboard relies on, over Dafny strings.
 * With Dafny 4's Unicode `char`, one `char` is one code point, as one index
 * of a Python `str` is.
 *
 *   c.isspace()        IsSpace
 *   s.strip()          Strip
 *   sub in s           Contains
 *   s.count(sub)       Count
 *   s.split(sep)       Split      (explicit, non-empty separator)
 *   sep.join(pieces)   Join
 *   s.replace(p, "")   Remove     (non-empty pattern)
 */
module PyString {
  import opened SeqFacts

  /** Python's `str.isspace()` for a single character. */
  predicate IsSpace(c: char) {
    c == ' ' || ('\t' <= c <= '\r') || ('\U{1C}' <= c <= '\U{1F}')
    || c == '\U{85}' || c == '\U{A0}' || c == '\U{1680}'
    || ('\U{2000}' <= c <= '\U{200A}') || c == '\U{2028}' || c == '\U{2029}'
    || c == '\U{202F}' || c == '\U{205F}' || c == '\U{3000}'
  }

  predicate AllSpace(s: string) {
    forall i :: 0 <= i < |s| ==> IsSpace(s[i])
  }

  /** The length of the longest all-whitespace prefix. */
  function LeadingSpaces(s: string): (n: nat)
    ensures n <= |s|
  {
    if |s| > 0 && IsSpace(s[0]) then 1 + LeadingSpaces(s[1..]) else 0
  }

  /** The length of the longest all-whitespace suffix. */
  function TrailingSpaces(s: string): (n: nat)
    ensures n <= |s|
  {
    if |s| > 0 && IsSpace(s[|s| - 1]) then 1 + TrailingSpaces(s[..|s| - 1]) else 0
  }

  /** The leading whitespace is whitespace, and the character after it is not. */
  lemma LeadingSpacesShape(s: string)
    ensures forall i :: 0 <= i < LeadingSpaces(s) ==> IsSpace(s[i])
    ensures LeadingSpaces(s) < |s| ==> !IsSpace(s[LeadingSpaces(s)])
  {
    LeadingSpacesAll(s);
    LeadingSpacesStop(s);
  }

  lemma {:induction false} LeadingSpacesAll(s: string)
    ensures forall i :: 0 <= i < LeadingSpaces(s) ==> IsSpace(s[i])
    decreases |s|
  {
    if |s| > 0 && IsSpace(s[0]) {
      var t := s[1..];
      LeadingSpacesAll(t);
      forall i | 0 < i < LeadingSpaces(s) ensures IsSpace(s[i]) {
        assert s[i] == t[i - 1];
      }
    }
  }

  lemma {:induction false} LeadingSpacesStop(s: string)
    ensures LeadingSpaces(s) < |s| ==> !IsSpace(s[LeadingSpaces(s)])
    decreases |s|
  {
    if |s| > 0 && IsSpace(s[0]) {
      var t := s[1..];
      LeadingSpacesStop(t);
      if LeadingSpaces(s) < |s| {
        assert s[LeadingSpaces(s)] == t[LeadingSpaces(t)];
      }
    }
  }

  /** The trailing whitespace is whitespace, and the character before it is not. */
  lemma TrailingSpacesShape(s: string)
    ensures forall i :: |s| - TrailingSpaces(s) <= i < |s| ==> IsSpace(s[i])
    ensures TrailingSpaces(s) < |s| ==> !IsSpace(s[|s| - TrailingSpaces(s) - 1])
  {
    TrailingSpacesAll(s);
    TrailingSpacesStop(s);
  }

  lemma {:induction false} TrailingSpacesAll(s: string)
    ensures forall i :: |s| - TrailingSpaces(s) <= i < |s| ==> IsSpace(s[i])
    decreases |s|
  {
    if |s| > 0 && IsSpace(s[|s| - 1]) {
      var t := s[..|s| - 1];
      TrailingSpacesAll(t);
      forall i | |s| - TrailingSpaces(s) <= i < |s| - 1 ensures IsSpace(s[i]) {
        assert s[i] == t[i];
      }
    }
  }

  lemma {:induction false} TrailingSpacesStop(s: string)
    ensures TrailingSpaces(s) < |s| ==> !IsSpace(s[|s| - TrailingSpaces(s) - 1])
    decreases |s|
  {
    if |s| > 0 && IsSpace(s[|s| - 1]) {
      var t := s[..|s| - 1];
      TrailingSpacesStop(t);
      if TrailingSpaces(s) < |s| {
        assert s[|s| - TrailingSpaces(s) - 1] == t[|t| - TrailingSpaces(t) - 1];
      }
    }
  }

  /** `s.strip()`: the text between the leading and the trailing whitespace. */
  function Strip(s: string): (r: string)
    ensures LeadingSpaces(s) + |r| <= |s|
  {
    var i := LeadingSpaces(s);
    if i == |s| then []
    else
      SpacesDisjoint(s);
      s[i..|s| - TrailingSpaces(s)]
  }

  /**
   * What `strip()` leaves: a slice of `s` with only whitespace around it,
   * neither beginning nor ending with whitespace, and empty exactly when
   * `s` is all whitespace.
   */
  lemma StripShape(s: string)
    ensures var r, i := Strip(s), LeadingSpaces(s);
      i + |r| <= |s| && s[i..i + |r|] == r && AllSpace(s[..i]) && AllSpace(s[i + |r|..])
    ensures var r := Strip(s); r != [] ==> !IsSpace(r[0])
    ensures var r := Strip(s); r != [] ==> !IsSpace(r[|r| - 1])
    ensures Strip(s) == [] <==> AllSpace(s)
  {
    StripSlice(s);
    StripAround(s);
    StripEnds(s);
    StripEmpty(s);
  }

  /** `strip()` leaves the slice of `s` that starts after the leading whitespace. */
  lemma StripSlice(s: string)
    ensures var r, i := Strip(s), LeadingSpaces(s);
      i + |r| <= |s| && s[i..i + |r|] == r
  {
    if LeadingSpaces(s) < |s| {
      SpacesDisjoint(s);
    }
  }

  /** Only whitespace lies before and after that slice. */
  lemma StripAround(s: string)
    ensures var r, i := Strip(s), LeadingSpaces(s);
      i + |r| <= |s| && AllSpace(s[..i]) && AllSpace(s[i + |r|..])
  {
    LeadingAllSpace(s);
    if LeadingSpaces(s) < |s| {
      SpacesDisjoint(s);
      TrailingAllSpace(s);
    }
  }

  /** Unless the text is all whitespace, its whitespace prefix and suffix do not meet. */
  lemma SpacesDisjoint(s: string)
    requires LeadingSpaces(s) < |s|
    ensures LeadingSpaces(s) < |s| - TrailingSpaces(s)
  {
    LeadingSpacesShape(s);
    TrailingSpacesShape(s);
  }

  /** The whitespace prefix that `strip()` drops is all whitespace. */
  lemma LeadingAllSpace(s: string)
    ensures AllSpace(s[..LeadingSpaces(s)])
  {
    LeadingSpacesAll(s);
    var head := s[..LeadingSpaces(s)];
    forall k | 0 <= k < |head| ensures IsSpace(head[k]) {
      assert head[k] == s[k];
    }
  }

  /** The whitespace suffix that `strip()` drops is all whitespace. */
  lemma TrailingAllSpace(s: string)
    ensures AllSpace(s[|s| - TrailingSpaces(s)..])
  {
    TrailingSpacesAll(s);
    var t := TrailingSpaces(s);
    var tail := s[|s| - t..];
    forall k | 0 <= k < |tail| ensures IsSpace(tail[k]) {
      assert tail[k] == s[|s| - t + k];
    }
  }

  /** The text is its leading whitespace, its stripped form and its trailing whitespace. */
  lemma StripConcat(s: string)
    ensures var r, i := Strip(s), LeadingSpaces(s);
      i + |r| <= |s| && s == s[..i] + r + s[i + |r|..]
  {
    StripSlice(s);
    CutTwice(s, LeadingSpaces(s), LeadingSpaces(s) + |Strip(s)|);
  }

  lemma StripEnds(s: string)
    ensures var r := Strip(s); r != [] ==> !IsSpace(r[0]) && !IsSpace(r[|r| - 1])
  {
    var i := LeadingSpaces(s);
    if i < |s| {
      LeadingSpacesShape(s);
      TrailingSpacesShape(s);
      SpacesDisjoint(s);
    }
  }

  lemma StripEmpty(s: string)
    ensures Strip(s) == [] <==> AllSpace(s)
  {
    var i := LeadingSpaces(s);
    if i < |s| {
      LeadingSpacesShape(s);
      SpacesDisjoint(s);
    } else {
      LeadingAllSpace(s);
    }
  }

  /** Stripping adds no character: one absent from the text is absent from its stripped form. */
  lemma StripKeepsAbsent(s: string, c: char)
    requires c !in s
    ensures c !in Strip(s)
  {
    StripSlice(s);
    var r, i := Strip(s), LeadingSpaces(s);
    forall x | 0 <= x < |r| ensures r[x] != c {
      assert r[x] == s[i + x];
    }
  }

  /** `sub` occurs in `s` starting at index `i`. */
  predicate OccursAt(s: string, sub: string, i: int) {
    0 <= i && i + |sub| <= |s| && s[i..i + |sub|] == sub
  }

  /** Python's `sub in s`. */
  predicate Contains(s: string, sub: string)
    decreases |s|
  {
    |sub| <= |s| && (s[..|sub|] == sub || (|s| > 0 && Contains(s[1..], sub)))
  }

  /** An occurrence at any index makes `sub in s` true. */
  lemma {:induction false} OccursImpliesContains(s: string, sub: string, i: int)
    requires OccursAt(s, sub, i)
    ensures Contains(s, sub)
    decreases i
  {
    if i > 0 {
      assert s[1..][i - 1..i - 1 + |sub|] == s[i..i + |sub|];
      OccursImpliesContains(s[1..], sub, i - 1);
    }
  }

  /** When `sub in s` holds, `sub` occurs at some index (the leftmost one). */
  lemma {:induction false} ContainsImpliesOccurs(s: string, sub: string) returns (i: nat)
    requires Contains(s, sub)
    ensures OccursAt(s, sub, i)
    decreases |s|
  {
    if s[..|sub|] == sub {
      i := 0;
    } else {
      var j := ContainsImpliesOccurs(s[1..], sub);
      assert s[1..][j..j + |sub|] == s[j + 1..j + 1 + |sub|];
      i := j + 1;
    }
  }

  /** `sub in s` holds exactly when `sub` occurs in `s` at some index. */
  lemma ContainsIffOccurs(s: string, sub: string)
    ensures Contains(s, sub) <==> exists i :: OccursAt(s, sub, i)
  {
    if Contains(s, sub) {
      var i := ContainsImpliesOccurs(s, sub);
    }
    forall i | OccursAt(s, sub, i) ensures Contains(s, sub) {
      OccursImpliesContains(s, sub, i);
    }
  }

  /** For a single character, `[c] in s` is membership of `c`. */
  lemma {:induction false} ContainsChar(s: string, c: char)
    ensures Contains(s, [c]) <==> c in s
    decreases |s|
  {
    if |s| > 0 {
      ContainsChar(s[1..], c);
      assert s == [s[0]] + s[1..];
    }
  }

  /**
   * Python's `s.count(sub)`: the number of non-overlapping occurrences found
   * scanning left to right; for the empty `sub`, `|s| + 1`.
   */
  function Count(s: string, sub: string): nat
    decreases |s|
  {
    if |sub| == 0 then |s| + 1
    else if |s| < |sub| then 0
    else if s[..|sub|] == sub then 1 + Count(s[|sub|..], sub)
    else Count(s[1..], sub)
  }

  /**
   * Non-overlapping occurrences of a non-empty `sub` fit in `s`, and there
   * is at least one exactly when `sub in s`.
   */
  lemma {:induction false} CountBounds(s: string, sub: string)
    requires |sub| > 0
    ensures Count(s, sub) * |sub| <= |s|
    ensures Count(s, sub) > 0 <==> Contains(s, sub)
    decreases |s|
  {
    if |s| < |sub| {
    } else if s[..|sub|] == sub {
      var m := Count(s[|sub|..], sub);
      CountBounds(s[|sub|..], sub);
      MulSucc(m, |sub|);
    } else {
      CountBounds(s[1..], sub);
    }
  }

  lemma MulSucc(m: nat, k: nat)
    ensures (1 + m) * k == k + m * k
  {
  }

  /** A string in which the first character of `sub` never occurs holds no copy of `sub`. */
  lemma CountAbsent(s: string, sub: string)
    requires |sub| > 0 && sub[0] !in s
    ensures Count(s, sub) == 0
  {
    CountBounds(s, sub);
  }

  /** The smaller of two integers: the length of a prefix slice taken with a bound past the end. */
  function Min(a: int, b: int): int {
    if a < b then a else b
  }

  /** Python's `sep.join(pieces)`. */
  function Join(pieces: seq<string>, sep: string): string
  {
    if |pieces| == 0 then ""
    else if |pieces| == 1 then pieces[0]
    else pieces[0] + sep + Join(pieces[1..], sep)
  }

  lemma JoinCons(a: string, rest: seq<string>, sep: string)
    requires |rest| > 0
    ensures Join([a] + rest, sep) == a + sep + Join(rest, sep)
  {
    assert ([a] + rest)[1..] == rest;
  }

  /**
   * Python's `s.split(sep)` with an explicit non-empty separator: the text
   * between the non-overlapping occurrences of `sep`, found left to right.
   */
  function Split(s: string, sep: string): (r: seq<string>)
    requires |sep| > 0
    decreases |s|
    ensures |r| > 0
  {
    if |s| < |sep| then [s]
    else if s[..|sep|] == sep then [""] + Split(s[|sep|..], sep)
    else
      var t := Split(s[1..], sep);
      [[s[0]] + t[0]] + t[1..]
  }

  /** There is one piece more than `s.count(sep)`. */
  lemma {:induction false} SplitLength(s: string, sep: string)
    requires |sep| > 0
    ensures |Split(s, sep)| == Count(s, sep) + 1
    decreases |s|
  {
    if |s| < |sep| {
    } else if s[..|sep|] == sep {
      SplitLength(s[|sep|..], sep);
    } else {
      SplitLength(s[1..], sep);
    }
  }

  /** Joining the pieces with the separator gives the text back. */
  lemma {:induction false} SplitJoin(s: string, sep: string)
    requires |sep| > 0
    ensures Join(Split(s, sep), sep) == s
    decreases |s|
  {
    var r := Split(s, sep);
    if |s| < |sep| {
    } else if s[..|sep|] == sep {
      var t := Split(s[|sep|..], sep);
      assert r == [""] + t;
      SplitJoin(s[|sep|..], sep);
      JoinCons("", t, sep);
      assert s == s[..|sep|] + s[|sep|..];
    } else {
      var t := Split(s[1..], sep);
      SplitJoin(s[1..], sep);
      JoinGrowHead(s[0], t, sep);
      assert s == [s[0]] + s[1..];
    }
  }

  /** Putting a character in front of the first piece puts it in front of the joined text. */
  lemma JoinGrowHead(c: char, t: seq<string>, sep: string)
    requires |t| > 0
    ensures Join([[c] + t[0]] + t[1..], sep) == [c] + Join(t, sep)
  {
    var head := [c] + t[0];
    if |t| > 1 {
      calc {
        Join([head] + t[1..], sep);
      == { JoinCons(head, t[1..], sep); }
        head + sep + Join(t[1..], sep);
      == [c] + (t[0] + sep + Join(t[1..], sep));
      == { JoinCons(t[0], t[1..], sep); assert [t[0]] + t[1..] == t; }
        [c] + Join(t, sep);
      }
    } else {
      assert [head] + t[1..] == [head];
      assert t == [t[0]];
    }
  }

  /**
   * The first piece is the text before the leftmost occurrence of `sep`: a
   * prefix of `s` holding no `sep`, and unless it is all of `s` the separator
   * follows it.
   */
  lemma {:induction false} SplitFirst(s: string, sep: string)
    requires |sep| > 0
    ensures Split(s, sep)[0] <= s
    ensures !Contains(Split(s, sep)[0], sep)
    ensures |Split(s, sep)| > 1 <==> |Split(s, sep)[0]| < |s|
    ensures |Split(s, sep)| > 1 ==> Split(s, sep)[0] + sep <= s
    ensures forall i :: 0 <= i < |Split(s, sep)[0]| ==> !OccursAt(s, sep, i)
    decreases |s|
  {
    SplitFirstLeftmost(s, sep);
    if |s| < |sep| {
    } else if s[..|sep|] == sep {
    } else {
      SplitFirst(s[1..], sep);
      var t := Split(s[1..], sep);
      assert s == [s[0]] + s[1..];
      NotContainsExtend(s, sep, t[0]);
      if |t| > 1 {
        assert [s[0]] + (t[0] + sep) == [s[0]] + t[0] + sep;
      }
    }
  }

  /** No occurrence of `sep` starts inside the first piece, so the piece ends at the leftmost one. */
  lemma {:induction false} SplitFirstLeftmost(s: string, sep: string)
    requires |sep| > 0
    ensures forall i :: 0 <= i < |Split(s, sep)[0]| ==> !OccursAt(s, sep, i)
    decreases |s|
  {
    if |s| >= |sep| && s[..|sep|] != sep {
      var t := Split(s[1..], sep);
      SplitFirstLeftmost(s[1..], sep);
      assert Split(s, sep)[0] == [s[0]] + t[0];
      forall i | 0 < i < |Split(s, sep)[0]| ensures !OccursAt(s, sep, i) {
        assert i - 1 < |t[0]| && !OccursAt(s[1..], sep, i - 1);
        if i + |sep| <= |s| {
          assert s[1..][i - 1..i - 1 + |sep|] == s[i..i + |sep|];
        }
      }
    }
  }

  /** No piece contains the separator. */
  lemma {:induction false} SplitPiecesFree(s: string, sep: string)
    requires |sep| > 0
    ensures forall k :: 0 <= k < |Split(s, sep)| ==> !Contains(Split(s, sep)[k], sep)
    decreases |s|
  {
    if |s| < |sep| {
    } else if s[..|sep|] == sep {
      SplitPiecesFree(s[|sep|..], sep);
      var t := Split(s[|sep|..], sep);
      assert Split(s, sep) == [""] + t;
    } else {
      SplitPiecesFree(s[1..], sep);
      SplitFirst(s, sep);
      var t := Split(s[1..], sep);
      assert Split(s, sep) == [[s[0]] + t[0]] + t[1..];
    }
  }

  /**
   * Prepending the first character of `s` to a prefix of `s[1..]` that does
   * not contain `sep` gives a string without `sep`, when `s` does not start
   * with `sep`.
   */
  lemma NotContainsExtend(s: string, sep: string, p: string)
    requires |sep| > 0 && |s| > 0
    requires !(|sep| <= |s| && s[..|sep|] == sep)
    requires p <= s[1..] && !Contains(p, sep)
    ensures !Contains([s[0]] + p, sep)
  {
    var h := [s[0]] + p;
    assert h[1..] == p;
    if |sep| <= |h| {
      assert h <= s by { assert s == [s[0]] + s[1..]; }
      assert h[..|sep|] == s[..|sep|];
    }
  }

  /**
   * Python's `s.replace(pat, "")` for a non-empty pattern: every
   * non-overlapping occurrence, found left to right, is deleted.
   */
  function Remove(s: string, pat: string): string
    requires |pat| > 0
    decreases |s|
  {
    if |s| < |pat| then s
    else if s[..|pat|] == pat then Remove(s[|pat|..], pat)
    else [s[0]] + Remove(s[1..], pat)
  }

  /** Each deleted occurrence shortens the text by the pattern's length. */
  lemma {:induction false} RemoveLength(s: string, pat: string)
    requires |pat| > 0
    ensures |Remove(s, pat)| == |s| - Count(s, pat) * |pat|
    decreases |s|
  {
    if |s| < |pat| {
    } else if s[..|pat|] == pat {
      var m := Count(s[|pat|..], pat);
      RemoveLength(s[|pat|..], pat);
      MulSucc(m, |pat|);
    } else {
      RemoveLength(s[1..], pat);
    }
  }

  /**
   * Deleting every occurrence equals joining, with the empty string, the
   * pieces that `split` leaves between the occurrences.
   */
  lemma {:induction false} RemoveIsJoinOfSplit(s: string, pat: string)
    requires |pat| > 0
    ensures Remove(s, pat) == Join(Split(s, pat), "")
    decreases |s|
  {
    if |s| < |pat| {
    } else if s[..|pat|] == pat {
      var t := Split(s[|pat|..], pat);
      assert Split(s, pat) == [""] + t;
      RemoveIsJoinOfSplit(s[|pat|..], pat);
      JoinCons("", t, "");
    } else {
      var t := Split(s[1..], pat);
      var head := [s[0]] + t[0];
      assert Split(s, pat) == [head] + t[1..];
      RemoveIsJoinOfSplit(s[1..], pat);
      if |t| > 1 {
        calc {
          Join(Split(s, pat), "");
        == { JoinCons(head, t[1..], ""); }
          head + "" + Join(t[1..], "");
        == [s[0]] + (t[0] + "" + Join(t[1..], ""));
        == { JoinCons(t[0], t[1..], ""); assert [t[0]] + t[1..] == t; }
          [s[0]] + Join(t, "");
        }
      } else {
        assert t == [t[0]];
      }
    }
  }

  /** Removing a single character leaves no occurrence of it. */
  lemma {:induction false} RemoveCharGone(s: string, c: char)
    ensures c !in Remove(s, [c])
    decreases |s|
  {
    if |s| >= 1 {
      RemoveCharGone(s[1..], c);
      if s[..1] != [c] {
        assert s[0] != c by { assert s[..1] == [s[0]]; }
      }
    }
  }

  /** Removing a character keeps every other character as often as it occurs. */
  lemma {:induction false} RemoveCharKeepsOthers(s: string, c: char, d: char)
    requires d != c
    ensures multiset(Remove(s, [c]))[d] == multiset(s)[d]
    decreases |s|
  {
    if |s| >= 1 {
      RemoveCharKeepsOthers(s[1..], c, d);
      assert s == [s[0]] + s[1..];
      assert s[..1] == [s[0]];
    }
  }

  /** Removing one character adds no other: a character absent from the text stays absent. */
  lemma RemoveCharKeepsAbsent(s: string, c: char, d: char)
    requires d != c && d !in s
    ensures d !in Remove(s, [c])
  {
    RemoveCharKeepsOthers(s, c, d);
    assert multiset(s)[d] == 0;
  }
}
