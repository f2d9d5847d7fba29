/**
 * Substring and whole-word search over lowercased text: Java's `String.indexOf`,
 * `SearchEngine.indexOfWholeWord` and `SearchEngine.satisfiesQuery`.
 */
module TextSearch {
  import opened Collaborators

  /** `word` occurs in `text` starting at offset `p`. */
  predicate MatchesAt(text: string, word: string, p: int)
  {
    0 <= p && p + |word| <= |text| && SameFrom(text, word, p, 0)
  }

  /** `text` agrees with `word` from the `i`-th character of `word` on, `word` placed at `p`. */
  predicate SameFrom(text: string, word: string, p: nat, i: nat)
    requires p + |word| <= |text|
    decreases |word| - i
  {
    i >= |word| || (text[p + i] == word[i] && SameFrom(text, word, p, i + 1))
  }

  lemma {:induction false} SameFromMeans(text: string, word: string, p: nat, i: nat)
    requires p + |word| <= |text|
    ensures SameFrom(text, word, p, i) <==> forall k :: i <= k < |word| ==> text[p + k] == word[k]
    decreases |word| - i
  {
    if i < |word| {
      SameFromMeans(text, word, p, i + 1);
    }
  }

  /** A match is exactly a slice of `text` equal to `word`. */
  lemma MatchesAtMeans(text: string, word: string, p: int)
    ensures MatchesAt(text, word, p) <==> 0 <= p && p + |word| <= |text| && text[p..p + |word|] == word
  {
    if 0 <= p && p + |word| <= |text| {
      SameFromMeans(text, word, p, 0);
      assert text[p..p + |word|] == word <==> forall k :: 0 <= k < |word| ==> text[p + k] == word[k];
    }
  }

  /**
   * `text.indexOf(word, start)` as java.lang.String defines it: the first match at or
   * after `start`, or -1; an empty `word` is found at `start`, or at the end of the
   * text when `start` lies past it.  (The full characterization is IndexOfFindsFirst.)
   */
  function IndexOf(text: string, word: string, start: nat): (r: int)
    ensures -1 <= r <= |text|
    ensures |word| > 0 && r != -1 ==> start <= r && r + |word| <= |text|
    decreases |text| - start
  {
    if start >= |text| then (if |word| == 0 then |text| else -1)
    else if MatchesAt(text, word, start) then start
    else IndexOf(text, word, start + 1)
  }

  lemma {:induction false} IndexOfFindsFirst(text: string, word: string, start: nat)
    ensures var r := IndexOf(text, word, start);
      && (|word| == 0 ==> r == if start < |text| then start else |text|)
      && (|word| > 0 ==> (r == -1 <==> forall k :: start <= k ==> !MatchesAt(text, word, k)))
      && (|word| > 0 && r != -1 ==>
            MatchesAt(text, word, r) && forall k :: start <= k < r ==> !MatchesAt(text, word, k))
    decreases |text| - start
  {
    if start < |text| && !MatchesAt(text, word, start) {
      IndexOfFindsFirst(text, word, start + 1);
    }
  }

  /** `text.contains(word)`, which Java defines as `indexOf(word) >= 0`. */
  predicate Contains(text: string, word: string)
  {
    IndexOf(text, word, 0) != -1
  }

  lemma ContainsMeansMatch(text: string, word: string)
    ensures Contains(text, word) <==> exists k :: MatchesAt(text, word, k)
  {
    IndexOfFindsFirst(text, word, 0);
    if |word| == 0 {
      assert MatchesAt(text, word, 0);
    } else if Contains(text, word) {
      assert MatchesAt(text, word, IndexOf(text, word, 0));
    }
  }

  /** `text.indexOf(c, start)` for a single character. */
  function IndexOfChar(text: string, c: char, start: nat): (r: int)
    ensures r == -1 || (start <= r < |text| && text[r] == c)
    decreases |text| - start
  {
    if start >= |text| then -1
    else if text[start] == c then start
    else IndexOfChar(text, c, start + 1)
  }

  /** `IndexOfChar` finds the first `c` at or after `start`, and -1 exactly when there is none. */
  lemma {:induction false} IndexOfCharFindsFirst(text: string, c: char, start: nat)
    ensures IndexOfChar(text, c, start) == -1 <==> forall k :: start <= k < |text| ==> text[k] != c
    ensures IndexOfChar(text, c, start) != -1 ==> forall k :: start <= k < IndexOfChar(text, c, start) ==> text[k] != c
    decreases |text| - start
  {
    if start < |text| && text[start] != c {
      IndexOfCharFindsFirst(text, c, start + 1);
    }
  }

  /**
   * `word` occurs at `p` and is not glued to a letter on either side; the start and
   * the end of the text count as boundaries.
   */
  predicate WholeWordAt(isLetter: char -> bool, text: string, word: string, p: int)
  {
    && MatchesAt(text, word, p)
    && (p == 0 || !isLetter(text[p - 1]))
    && (p + |word| == |text| || !isLetter(text[p + |word|]))
  }

  /** The first whole-word occurrence of `word` at or after `start`, or -1. */
  function WholeWordIndex(isLetter: char -> bool, text: string, word: string, start: nat): (r: int)
    requires |word| > 0
    ensures r == -1 || (start <= r && r + |word| <= |text|)
    decreases |text| - start
  {
    if start >= |text| then -1
    else if WholeWordAt(isLetter, text, word, start) then start
    else WholeWordIndex(isLetter, text, word, start + 1)
  }

  lemma {:induction false} WholeWordIndexFindsFirst(isLetter: char -> bool, text: string, word: string, start: nat)
    requires |word| > 0
    ensures var r := WholeWordIndex(isLetter, text, word, start);
      && (r == -1 <==> forall k :: start <= k ==> !WholeWordAt(isLetter, text, word, k))
      && (r != -1 ==> WholeWordAt(isLetter, text, word, r) &&
                      forall k :: start <= k < r ==> !WholeWordAt(isLetter, text, word, k))
    decreases |text| - start
  {
    if start < |text| && !WholeWordAt(isLetter, text, word, start) {
      WholeWordIndexFindsFirst(isLetter, text, word, start + 1);
    }
  }

  /** No whole-word occurrence in `[from, q)`: the search may resume at `q`. */
  lemma {:induction false} WholeWordIndexSkip(isLetter: char -> bool, text: string, word: string, from: nat, q: nat)
    requires |word| > 0 && from <= q
    requires forall k :: from <= k < q ==> !WholeWordAt(isLetter, text, word, k)
    ensures WholeWordIndex(isLetter, text, word, from) == WholeWordIndex(isLetter, text, word, q)
    decreases q - from
  {
    if from < q && from < |text| {
      WholeWordIndexSkip(isLetter, text, word, from + 1, q);
    }
  }

  /** What one round of the loop in `indexOfWholeWord` learns from one `indexOf` call. */
  lemma WholeWordStep(isLetter: char -> bool, text: string, word: string, from: nat)
    requires |word| > 0
    ensures var pos := IndexOf(text, word, from);
      && (pos == -1 ==> WholeWordIndex(isLetter, text, word, from) == -1)
      && (pos != -1 ==> MatchesAt(text, word, pos))
      && (pos != -1 && WholeWordAt(isLetter, text, word, pos) ==> WholeWordIndex(isLetter, text, word, from) == pos)
      && (pos != -1 && !WholeWordAt(isLetter, text, word, pos) ==>
            WholeWordIndex(isLetter, text, word, from) == WholeWordIndex(isLetter, text, word, pos + 1))
  {
    var pos := IndexOf(text, word, from);
    IndexOfFindsFirst(text, word, from);
    if pos == -1 {
      WholeWordIndexFindsFirst(isLetter, text, word, from);
    } else {
      WholeWordIndexSkip(isLetter, text, word, from, pos);
      if !WholeWordAt(isLetter, text, word, pos) {
        WholeWordIndexSkip(isLetter, text, word, pos, pos + 1);
      }
    }
  }

  /** Only the first "cat" of "cat concatenate cats" stands as a whole word. */
  lemma WholeWordExample(isLetter: char -> bool)
    requires forall c :: 'a' <= c <= 'z' ==> isLetter(c)
    requires !isLetter(' ')
    ensures WholeWordIndex(isLetter, "cat concatenate cats", "cat", 0) == 0
    ensures WholeWordIndex(isLetter, "cat concatenate cats", "cat", 1) == -1
  {
    var text := "cat concatenate cats";
    assert SameFrom(text, "cat", 0, 0);
    assert !isLetter(text[3]);
    assert !SameFrom(text, "cat", 1, 0) && !SameFrom(text, "cat", 2, 0) && !SameFrom(text, "cat", 3, 0);
    assert !SameFrom(text, "cat", 4, 0) && !SameFrom(text, "cat", 5, 0) && !SameFrom(text, "cat", 6, 0);
    assert isLetter(text[6]);
    assert !SameFrom(text, "cat", 8, 0) && !SameFrom(text, "cat", 9, 0) && !SameFrom(text, "cat", 10, 0);
    assert !SameFrom(text, "cat", 11, 0) && !SameFrom(text, "cat", 12, 0) && !SameFrom(text, "cat", 13, 0);
    assert !SameFrom(text, "cat", 14, 0) && !SameFrom(text, "cat", 15, 0);
    assert isLetter(text[19]);
    assert !SameFrom(text, "cat", 17, 0);
    WholeWordIndexSkip(isLetter, text, "cat", 1, 18);
  }

  /**
   * The first offset in `[p, |text|]` where the empty word stands between
   * non-letters (the ends of the text count as such), or -1.
   */
  function EmptyWordIndex(isLetter: char -> bool, text: string, p: nat): (r: int)
    ensures r == -1 || (p <= r <= |text| && WholeWordAt(isLetter, text, "", r))
    decreases |text| + 1 - p
  {
    if p > |text| then -1
    else if WholeWordAt(isLetter, text, "", p) then p
    else EmptyWordIndex(isLetter, text, p + 1)
  }

  lemma {:induction false} EmptyWordIndexFindsFirst(isLetter: char -> bool, text: string, p: nat)
    ensures EmptyWordIndex(isLetter, text, p) == -1 <==> forall k :: p <= k ==> !WholeWordAt(isLetter, text, "", k)
    ensures forall k :: p <= k < EmptyWordIndex(isLetter, text, p) ==> !WholeWordAt(isLetter, text, "", k)
    decreases |text| + 1 - p
  {
    if p <= |text| && !WholeWordAt(isLetter, text, "", p) {
      EmptyWordIndexFindsFirst(isLetter, text, p + 1);
    }
  }

  /** How a call of `indexOfWholeWord` ends: with the position it returns (-1 for none), or never. */
  datatype Lookup = Returns(pos: int) | Endless

  /**
   * What `indexOfWholeWord(text, word, start)` comes to.  `String.indexOf` finds an
   * empty word wherever it is asked to look, clipped to the end of the text, so an
   * empty word is found at the first boundary from `start` on; when there is none,
   * the restart one past the end is clipped back to the end and the loop repeats
   * that round forever.
   */
  function WholeWordLookup(isLetter: char -> bool, text: string, word: string, start: nat): Lookup
  {
    if |word| > 0 then Returns(WholeWordIndex(isLetter, text, word, start))
    else
      var k := EmptyWordIndex(isLetter, text, if start <= |text| then start else |text|);
      if k == -1 then Endless else Returns(k)
  }

  /**
   * The search returns the first whole-word occurrence from `start` on (from the end
   * of the text when `start` lies past it), and -1 exactly when a non-empty word has
   * none; it never returns exactly when the word is empty and has none.
   */
  lemma WholeWordLookupMeans(isLetter: char -> bool, text: string, word: string, start: nat)
    ensures var r := WholeWordLookup(isLetter, text, word, start);
      var from := if start <= |text| then start else |text|;
      && (r.Endless? <==> |word| == 0 && forall k :: from <= k ==> !WholeWordAt(isLetter, text, word, k))
      && (r == Returns(-1) <==> |word| > 0 && forall k :: from <= k ==> !WholeWordAt(isLetter, text, word, k))
      && (r.Returns? && r.pos != -1 ==>
            && from <= r.pos && WholeWordAt(isLetter, text, word, r.pos)
            && forall k :: from <= k < r.pos ==> !WholeWordAt(isLetter, text, word, k))
  {
    var from := if start <= |text| then start else |text|;
    if |word| > 0 {
      WholeWordIndexFindsFirst(isLetter, text, word, start);
      if start > |text| {
        assert forall k :: from <= k ==> !MatchesAt(text, word, k);
      }
    } else {
      EmptyWordIndexFindsFirst(isLetter, text, from);
    }
  }

  /**
   * The empty word is found at the first boundary: at 0 in " a", where the text
   * starts before a space.  In "a" every offset touches the letter, so the search
   * never returns.
   */
  lemma EmptyWordExample(isLetter: char -> bool)
    requires isLetter('a') && !isLetter(' ')
    ensures WholeWordLookup(isLetter, " a", "", 0) == Returns(0)
    ensures WholeWordLookup(isLetter, "a", "", 0) == Endless
  {
    assert MatchesAt("a", "", 0) && MatchesAt("a", "", 1);
    assert !WholeWordAt(isLetter, "a", "", 0) && !WholeWordAt(isLetter, "a", "", 1);
    assert EmptyWordIndex(isLetter, "a", 1) == -1;
    assert MatchesAt(" a", "", 0);
  }

  /** What one round of the loop in `indexOfWholeWord` learns from one `indexOf` call, for an empty word. */
  lemma EmptyWordStep(isLetter: char -> bool, text: string, from: nat)
    ensures var pos := IndexOf(text, "", from);
      && pos == (if from <= |text| then from else |text|)
      && MatchesAt(text, "", pos)
      && (WholeWordAt(isLetter, text, "", pos) ==> WholeWordLookup(isLetter, text, "", from) == Returns(pos))
      && (!WholeWordAt(isLetter, text, "", pos) ==>
            WholeWordLookup(isLetter, text, "", from) == WholeWordLookup(isLetter, text, "", pos + 1))
      && (!WholeWordAt(isLetter, text, "", pos) && pos + 1 == from ==>
            WholeWordLookup(isLetter, text, "", from) == Endless)
  {
    IndexOfFindsFirst(text, "", from);
  }

  /**
   * `indexOfWholeWord(text, word, start)`: repeatedly asks `indexOf` for the next
   * occurrence and restarts one character past any occurrence glued to a letter.
   * When the restart point is the one just searched from, which happens only for
   * an empty word past the end of the text, the source repeats the same round
   * forever: the model stops there with `Endless`.
   */
  method IndexOfWholeWord(isLetter: char -> bool, text: string, word: string, start: nat) returns (r: Lookup)
    ensures r == WholeWordLookup(isLetter, text, word, start)
  {
    var from: nat := start;
    while true
      invariant WholeWordLookup(isLetter, text, word, from) == WholeWordLookup(isLetter, text, word, start)
      decreases if from <= |text| + 1 then |text| + 1 - from else |text| + 2
    {
      var pos := IndexOf(text, word, from);
      if |word| > 0 {
        WholeWordStep(isLetter, text, word, from);
      } else {
        EmptyWordStep(isLetter, text, from);
      }
      if pos == -1 {
        r := Returns(-1);
        break;
      }
      var end := pos + |word|;
      // glued to a letter on the left or on the right
      if (pos != 0 && isLetter(text[pos - 1])) || (end != |text| && isLetter(text[end])) {
        assert !WholeWordAt(isLetter, text, word, pos);
        if pos + 1 == from {
          r := Endless;
          break;
        }
        from := pos + 1;
        continue;
      }
      assert WholeWordAt(isLetter, text, word, pos);
      r := Returns(pos);
      break;
    }
  }

  /** The word occurs at `p` as a search for a token accepts it: as a whole word when the token was plussed, anywhere otherwise. */
  predicate Occurs(isLetter: char -> bool, text: string, word: string, hasPlus: bool, p: int)
  {
    if hasPlus then WholeWordAt(isLetter, text, word, p) else MatchesAt(text, word, p)
  }

  /** The next occurrence from `from` on: `indexOfWholeWord` for a plussed token, plain `indexOf` otherwise. */
  function Find(isLetter: char -> bool, text: string, word: string, hasPlus: bool, from: nat): (r: int)
    requires |word| > 0
    ensures r == -1 || (from <= r && r + |word| <= |text|)
  {
    if hasPlus then WholeWordIndex(isLetter, text, word, from) else IndexOf(text, word, from)
  }

  /** The search finds the first accepted occurrence at or after `from`, and -1 exactly when there is none. */
  lemma FindFindsFirst(isLetter: char -> bool, text: string, word: string, hasPlus: bool, from: nat)
    requires |word| > 0
    ensures Find(isLetter, text, word, hasPlus, from) == -1 ==>
      forall q :: from <= q ==> !Occurs(isLetter, text, word, hasPlus, q)
    ensures Find(isLetter, text, word, hasPlus, from) != -1 ==>
      && Occurs(isLetter, text, word, hasPlus, Find(isLetter, text, word, hasPlus, from))
      && forall q :: from <= q < Find(isLetter, text, word, hasPlus, from) ==> !Occurs(isLetter, text, word, hasPlus, q)
  {
    if hasPlus {
      WholeWordIndexFindsFirst(isLetter, text, word, from);
    } else {
      IndexOfFindsFirst(text, word, from);
    }
  }

  /** One call of `indexOfWholeWord` or `indexOf`, chosen by the plus. */
  method FindNext(isLetter: char -> bool, text: string, word: string, hasPlus: bool, from: nat) returns (p: int)
    requires |word| > 0
    ensures p == Find(isLetter, text, word, hasPlus, from)
  {
    if hasPlus {
      var found := IndexOfWholeWord(isLetter, text, word, from);
      p := found.pos;
    } else {
      p := IndexOf(text, word, from);
    }
  }

  /**
   * Whether one query token occurs in `s`: a plussed token, stripped of its plus,
   * as a whole word; any other token as a plain substring.
   */
  ghost predicate TokenOccurs(env: Env, s: string, token: string)
  {
    if env.isPlussedToken(token)
    then exists k :: WholeWordAt(env.isLetter, s, env.tokenWithoutPlus(token), k)
    else exists k :: MatchesAt(s, token, k)
  }

  /** A token as it is searched for: without its plus when it has one. */
  function Bare(env: Env, token: string): string
  {
    if env.isPlussedToken(token) then env.tokenWithoutPlus(token) else token
  }

  /** A plussed token must keep at least one character once its plus is stripped. */
  predicate Searchable(env: Env, token: string)
  {
    env.isPlussedToken(token) ==> |env.tokenWithoutPlus(token)| > 0
  }

  /** `satisfiesQuery(s, words)`: every token occurs in `s`. */
  method SatisfiesQuery(env: Env, s: string, words: seq<string>) returns (r: bool)
    requires forall w :: w in words ==> Searchable(env, w)
    ensures r <==> forall w :: w in words ==> TokenOccurs(env, s, w)
  {
    for i := 0 to |words|
      invariant forall j :: 0 <= j < i ==> TokenOccurs(env, s, words[j])
    {
      var word := words[i];
      assert Searchable(env, word) by { assert words[i] in words; }
      var hasPlus := env.isPlussedToken(word);
      if hasPlus {
        word := env.tokenWithoutPlus(word);
      }
      var wordPos;
      if hasPlus {
        var found := IndexOfWholeWord(env.isLetter, s, word, 0);
        wordPos := found.pos;
        WholeWordIndexFindsFirst(env.isLetter, s, word, 0);
      } else {
        wordPos := IndexOf(s, word, 0);
        ContainsMeansMatch(s, word);
      }
      if wordPos == -1 {
        assert !TokenOccurs(env, s, words[i]);
        return false;
      }
    }
    return true;
  }
}
