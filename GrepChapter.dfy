/**
 * `SearchEngine.searchByGrepForOneChapter`: scanning one chapter's text, whose
 * verses are joined by '\n', for a word and turning match offsets into verse
 * addresses by counting the newlines in front of each match.
 */
module GrepChapter {
  import opened Wrappers
  import opened Collaborators
  import opened TextSearch
  import opened SortedSets

  /** The 0-based verse holding offset `p`: the number of '\n' in front of it. */
  function VerseOf(text: string, p: nat): nat
    requires p <= |text|
  {
    if p == 0 then 0 else VerseOf(text, p - 1) + (if text[p - 1] == '\n' then 1 else 0)
  }

  lemma {:induction false} VerseOfMonotone(text: string, i: nat, j: nat)
    requires i <= j <= |text|
    ensures VerseOf(text, i) <= VerseOf(text, j)
    decreases j - i
  {
    if i < j {
      VerseOfMonotone(text, i, j - 1);
    }
  }

  /** A newline at `k` before `j` puts `j` in a later verse than `k`. */
  lemma VerseOfPast(text: string, k: nat, j: nat)
    requires k < j <= |text| && text[k] == '\n'
    ensures VerseOf(text, j) >= VerseOf(text, k) + 1
  {
    VerseOfMonotone(text, k + 1, j);
  }

  /** No newline in `[i, j)`: `i` and `j` lie in the same verse. */
  lemma {:induction false} VerseOfFlat(text: string, i: nat, j: nat)
    requires i <= j <= |text|
    requires forall k :: i <= k < j ==> text[k] != '\n'
    ensures VerseOf(text, j) == VerseOf(text, i)
    decreases j - i
  {
    if i < j {
      VerseOfFlat(text, i, j - 1);
    }
  }

  /** Some verse separator lies at or after offset `p`. */
  predicate NewlineFrom(text: string, p: nat)
    decreases |text| - p
  {
    p < |text| && (text[p] == '\n' || NewlineFrom(text, p + 1))
  }

  /** `indexOf('\n', p)` finds a newline exactly when one lies at or after `p`. */
  lemma {:induction false} NewlineFromFound(text: string, p: nat)
    ensures NewlineFrom(text, p) <==> IndexOfChar(text, '\n', p) != -1
    decreases |text| - p
  {
    if p < |text| && text[p] != '\n' {
      NewlineFromFound(text, p + 1);
    }
  }

  /** A token stripped of its plus must not be empty: the scan loops forever on "". */
  predicate Scannable(env: Env, token: string)
  {
    |Bare(env, token)| > 0
  }

  /**
   * The addresses recorded from the match at `p` on (none when `p` is -1): a match
   * counts only while a newline follows it, a verse equal to the last recorded one
   * (`lastV`) is skipped, and the next match is searched for right after this one.
   */
  function ScanHits(isLetter: char -> bool, text: string, word: string, hasPlus: bool, ariBc: int, p: int, lastV: int): seq<int>
    requires |word| > 0 && (p == -1 || (0 <= p && p + |word| <= |text|))
    decreases if p == -1 then 0 else |text| - p + 1
  {
    if p == -1 || !NewlineFrom(text, p) then []
    else
      var v := VerseOf(text, p);
      var rest := ScanHits(isLetter, text, word, hasPlus, ariBc, Find(isLetter, text, word, hasPlus, p + |word|), v);
      if v != lastV then [ariBc + v + 1] + rest else rest
  }

  /** What the scan appends for one chapter; nothing when the chapter cannot be loaded. */
  function ChapterHits(isLetter: char -> bool, text: Option<string>, word: string, hasPlus: bool, ariBc: int): seq<int>
    requires |word| > 0
  {
    if text.None? then []
    else ScanHits(isLetter, text.value, word, hasPlus, ariBc, Find(isLetter, text.value, word, hasPlus, 0), -1)
  }

  /**
   * The newline cursor of the scan: `posN` is -1 only when the chapter has no
   * newline at all (and then no verse has been passed), otherwise it sits on a
   * newline with `verse0` newlines in front of it.
   */
  predicate NewlineCursor(text: string, posN: int, verse0: int)
  {
    && -1 <= posN < |text|
    && (posN == -1 ==> verse0 == 0 && !NewlineFrom(text, 0))
    && (posN >= 0 ==> text[posN] == '\n' && VerseOf(text, posN) == verse0)
  }

  lemma FirstNewline(text: string)
    ensures NewlineCursor(text, IndexOfChar(text, '\n', 0), 0)
  {
    var posN := IndexOfChar(text, '\n', 0);
    IndexOfCharFindsFirst(text, '\n', 0);
    NewlineFromFound(text, 0);
    if posN >= 0 {
      VerseOfFlat(text, 0, posN);
    }
  }

  /** Passing the newline at `posN`, which lies before the match, moves to the next verse. */
  lemma NextNewline(text: string, posWord: nat, posN: int, verse0: int, newN: int)
    requires posWord <= |text| && posN < posWord
    requires NewlineCursor(text, posN, verse0) && verse0 <= VerseOf(text, posWord)
    requires newN == IndexOfChar(text, '\n', posN + 1)
    ensures newN == -1 ==> !NewlineFrom(text, posWord)
    ensures newN != -1 ==> NewlineCursor(text, newN, verse0 + 1) && verse0 + 1 <= VerseOf(text, posWord)
  {
    IndexOfCharFindsFirst(text, '\n', posN + 1);
    IndexOfCharFindsFirst(text, '\n', posWord);
    NewlineFromFound(text, posWord);
    if posN == -1 {
      IndexOfCharFindsFirst(text, '\n', 0);
      NewlineFromFound(text, 0);
    } else {
      VerseOfPast(text, posN, posWord);
      if newN != -1 {
        VerseOfFlat(text, posN + 1, newN);
      }
    }
  }

  /** A match at or before the cursor's newline lies in verse `verse0`, which a newline ends. */
  lemma MatchInVerse(text: string, posWord: nat, posN: int, verse0: int)
    requires posWord <= posN && NewlineCursor(text, posN, verse0) && verse0 <= VerseOf(text, posWord)
    ensures NewlineFrom(text, posWord) && VerseOf(text, posWord) == verse0
  {
    IndexOfCharFindsFirst(text, '\n', posWord);
    NewlineFromFound(text, posWord);
    VerseOfMonotone(text, posWord, posN);
  }

  /** Recording the match at `p` and moving on to the next match `next`. */
  lemma ScanHitsStep(isLetter: char -> bool, text: string, word: string, hasPlus: bool, ariBc: int,
                     p: nat, lastV: int, next: int)
    requires |word| > 0 && p + |word| <= |text| && NewlineFrom(text, p)
    requires next == Find(isLetter, text, word, hasPlus, p + |word|)
    ensures VerseOf(text, p) != lastV ==>
      ScanHits(isLetter, text, word, hasPlus, ariBc, p, lastV) ==
        [ariBc + VerseOf(text, p) + 1] + ScanHits(isLetter, text, word, hasPlus, ariBc, next, VerseOf(text, p))
    ensures VerseOf(text, p) == lastV ==>
      ScanHits(isLetter, text, word, hasPlus, ariBc, p, lastV) == ScanHits(isLetter, text, word, hasPlus, ariBc, next, lastV)
  {
  }

  lemma AppendAssociates(a: seq<int>, b: seq<int>, c: seq<int>)
    ensures a + b + c == a + (b + c)
  {
  }

  /** A newline after `q` is also after any earlier offset. */
  lemma {:induction false} NewlineFromEarlier(text: string, p: nat, q: nat)
    requires p <= q && NewlineFrom(text, q)
    ensures NewlineFrom(text, p)
    decreases q - p
  {
    if p < q {
      NewlineFromEarlier(text, p + 1, q);
    }
  }

  /** An offset with a newline after it lies before the last verse separator: its verse is one of those the separators close. */
  lemma {:induction false} NewlineFromBound(text: string, q: nat)
    requires NewlineFrom(text, q)
    ensures VerseOf(text, q) + 1 <= VerseOf(text, |text|)
    decreases |text| - q
  {
    if text[q] == '\n' {
      VerseOfPast(text, q, |text|);
    } else {
      NewlineFromBound(text, q + 1);
      VerseOfMonotone(text, q, q + 1);
    }
  }

  /** A match the scan can record: accepted, and with a newline somewhere after it. */
  predicate Recordable(isLetter: char -> bool, text: string, word: string, hasPlus: bool, q: int)
  {
    0 <= q < |text| && Occurs(isLetter, text, word, hasPlus, q) && NewlineFrom(text, q)
  }

  /** `x` is the address of the verse holding the recordable match at `q`. */
  predicate HitAt(isLetter: char -> bool, text: string, word: string, hasPlus: bool, ariBc: int, q: int, x: int)
  {
    Recordable(isLetter, text, word, hasPlus, q) && x == ariBc + VerseOf(text, q) + 1
  }

  /** From the match at `p` on, the recorded addresses ascend strictly, all past the last recorded verse. */
  lemma {:induction false} ScanHitsAscending(isLetter: char -> bool, text: string, word: string, hasPlus: bool,
                                            ariBc: int, p: int, lastV: int)
    requires |word| > 0 && (p == -1 || (0 <= p && p + |word| <= |text| && lastV <= VerseOf(text, p)))
    ensures StrictlyAscending(ScanHits(isLetter, text, word, hasPlus, ariBc, p, lastV))
    ensures Above(ScanHits(isLetter, text, word, hasPlus, ariBc, p, lastV), ariBc + lastV + 1)
    decreases if p == -1 then 0 else |text| - p + 1
  {
    if p != -1 && NewlineFrom(text, p) {
      var v := VerseOf(text, p);
      var next := Find(isLetter, text, word, hasPlus, p + |word|);
      if next != -1 {
        VerseOfMonotone(text, p, next);
      }
      ScanHitsAscending(isLetter, text, word, hasPlus, ariBc, next, v);
      var rest := ScanHits(isLetter, text, word, hasPlus, ariBc, next, v);
      if v != lastV {
        var r := [ariBc + v + 1] + rest;
        assert r == ScanHits(isLetter, text, word, hasPlus, ariBc, p, lastV);
        assert forall i :: 0 < i < |r| ==> r[i] == rest[i - 1];
      }
    }
  }

  /** Every address recorded from the match at `p` on belongs to a recordable match at or after `p`. */
  lemma {:induction false} ScanHitsSound(isLetter: char -> bool, text: string, word: string, hasPlus: bool,
                                        ariBc: int, p: int, lastV: int, x: int)
    requires |word| > 0 && (p == -1 || (0 <= p && p + |word| <= |text| && Occurs(isLetter, text, word, hasPlus, p)))
    requires x in ScanHits(isLetter, text, word, hasPlus, ariBc, p, lastV)
    ensures exists q :: p <= q && HitAt(isLetter, text, word, hasPlus, ariBc, q, x)
    decreases if p == -1 then 0 else |text| - p + 1
  {
    var v := VerseOf(text, p);
    var next := Find(isLetter, text, word, hasPlus, p + |word|);
    if x == ariBc + v + 1 {
      assert HitAt(isLetter, text, word, hasPlus, ariBc, p, x);
    } else {
      FindFindsFirst(isLetter, text, word, hasPlus, p + |word|);
      ScanHitsSound(isLetter, text, word, hasPlus, ariBc, next, v, x);
    }
  }

  /**
   * Completeness: when the word holds no newline, the verse of every recordable match
   * at or after `from` is either the last recorded one or recorded from the next match on.
   * A match the scan skips because it overlaps the previous one shares that one's verse.
   */
  lemma {:induction false} ScanHitsComplete(isLetter: char -> bool, text: string, word: string, hasPlus: bool,
                                           ariBc: int, from: nat, lastV: int, q: int)
    requires |word| > 0 && forall i :: 0 <= i < |word| ==> word[i] != '\n'
    requires from <= q && Recordable(isLetter, text, word, hasPlus, q)
    ensures VerseOf(text, q) == lastV ||
      ariBc + VerseOf(text, q) + 1 in ScanHits(isLetter, text, word, hasPlus, ariBc, Find(isLetter, text, word, hasPlus, from), lastV)
    decreases |text| - from
  {
    var p := Find(isLetter, text, word, hasPlus, from);
    FindFindsFirst(isLetter, text, word, hasPlus, from);
    assert p != -1 && p <= q;
    NewlineFromEarlier(text, p, q);
    var v := VerseOf(text, p);
    var next := Find(isLetter, text, word, hasPlus, p + |word|);
    ScanHitsStep(isLetter, text, word, hasPlus, ariBc, p, lastV, next);
    if q < p + |word| {
      OverlapSameVerse(text, word, p, q);
    } else {
      ScanHitsComplete(isLetter, text, word, hasPlus, ariBc, p + |word|, v, q);
    }
  }

  /** A match starting inside another match of a newline-free word lies in the same verse. */
  lemma OverlapSameVerse(text: string, word: string, p: nat, q: nat)
    requires forall i :: 0 <= i < |word| ==> word[i] != '\n'
    requires MatchesAt(text, word, p) && p <= q < p + |word|
    ensures VerseOf(text, q) == VerseOf(text, p)
  {
    SameFromMeans(text, word, p, 0);
    forall k | p <= k < q
      ensures text[k] != '\n'
    {
      assert text[p + (k - p)] == word[k - p];
    }
    VerseOfFlat(text, p, q);
  }

  /** One chapter contributes strictly ascending addresses: each verse at most once. */
  lemma ChapterHitsAscending(isLetter: char -> bool, text: string, word: string, hasPlus: bool, ariBc: int)
    requires |word| > 0
    ensures StrictlyAscending(ChapterHits(isLetter, Some(text), word, hasPlus, ariBc))
  {
    ScanHitsAscending(isLetter, text, word, hasPlus, ariBc, Find(isLetter, text, word, hasPlus, 0), -1);
  }

  /**
   * Every address a chapter contributes is `ariBc + k + 1` for a verse `k` holding a
   * recordable match; a newline closes that verse, so `k` is below the number of newlines.
   */
  lemma ChapterHitsSound(isLetter: char -> bool, text: string, word: string, hasPlus: bool, ariBc: int, x: int)
    requires |word| > 0 && x in ChapterHits(isLetter, Some(text), word, hasPlus, ariBc)
    ensures exists q :: HitAt(isLetter, text, word, hasPlus, ariBc, q, x)
    ensures ariBc + 1 <= x <= ariBc + VerseOf(text, |text|)
  {
    var p := Find(isLetter, text, word, hasPlus, 0);
    FindFindsFirst(isLetter, text, word, hasPlus, 0);
    ScanHitsSound(isLetter, text, word, hasPlus, ariBc, p, -1, x);
    var q :| p <= q && HitAt(isLetter, text, word, hasPlus, ariBc, q, x);
    NewlineFromBound(text, q);
  }

  /** When the word holds no newline, the verse of every recordable match is contributed. */
  lemma ChapterHitsComplete(isLetter: char -> bool, text: string, word: string, hasPlus: bool, ariBc: int, q: int)
    requires |word| > 0 && forall i :: 0 <= i < |word| ==> word[i] != '\n'
    requires Recordable(isLetter, text, word, hasPlus, q)
    ensures ariBc + VerseOf(text, q) + 1 in ChapterHits(isLetter, Some(text), word, hasPlus, ariBc)
  {
    ScanHitsComplete(isLetter, text, word, hasPlus, ariBc, 0, -1, q);
  }

  /**
   * `searchByGrepForOneChapter`: `posWord` walks the matches, `posN` the newlines,
   * and `verse_0` counts the newlines passed; an address is appended when the next
   * newline lies at or after the match and the verse differs from the last one.
   */
  method SearchByGrepForOneChapter(isLetter: char -> bool, version: Version, bookId: int, chapter: int,
                                   word: string, hasPlus: bool, ariBc: int, res: seq<int>)
    returns (res': seq<int>)
    requires |word| > 0
    ensures res' == res + ChapterHits(isLetter, ChapterText(version, bookId, chapter), word, hasPlus, ariBc)
  {
    res' := res;
    var oneChapter := ChapterText(version, bookId, chapter);
    if oneChapter.None? {
      return;
    }
    var text := oneChapter.value;
    ghost var target := res + ChapterHits(isLetter, oneChapter, word, hasPlus, ariBc);

    var verse0 := 0;
    var lastV := -1;
    var posWord := FindNext(isLetter, text, word, hasPlus, 0);
    if posWord == -1 {
      return;
    }
    var posN := IndexOfChar(text, '\n', 0);
    FirstNewline(text);

    while true
      invariant 0 <= posWord && posWord + |word| <= |text|
      invariant NewlineCursor(text, posN, verse0)
      invariant verse0 <= VerseOf(text, posWord)
      invariant res' + ScanHits(isLetter, text, word, hasPlus, ariBc, posWord, lastV) == target
      decreases 2 * |text| - posWord - posN
    {
      if posN < posWord {
        var newN := IndexOfChar(text, '\n', posN + 1);
        NextNewline(text, posWord, posN, verse0, newN);
        verse0 := verse0 + 1;
        posN := newN;
        if posN == -1 {
          return;
        }
      } else {
        MatchInVerse(text, posWord, posN, verse0);
        var next := FindNext(isLetter, text, word, hasPlus, posWord + |word|);
        ScanHitsStep(isLetter, text, word, hasPlus, ariBc, posWord, lastV, next);
        if verse0 != lastV {
          AppendAssociates(res', [ariBc + verse0 + 1], ScanHits(isLetter, text, word, hasPlus, ariBc, next, verse0));
          res' := res' + [ariBc + verse0 + 1];
          lastV := verse0;
        }
        if next == -1 {
          return;
        }
        VerseOfMonotone(text, posWord, next);
        posWord := next;
      }
    }
  }
}
