/**
 * The grep search above the per-chapter scan: `nextAri`, `searchByGrepInside` and
 * `searchByGrep`.  The first word is searched in every chapter of the selected
 * books; each further word only in the book-chapters of the previous result, and
 * the two results are intersected.
 */
module GrepSearch {
  import opened Wrappers
  import opened Collaborators
  import opened TextSearch
  import opened SortedSets
  import opened GrepChapter
  import opened QueryWords

  // ----- nextAri: walking the runs of a result list -----

  /**
   * The first index at or after `pos` whose book-chapter differs from `last`;
   * `pos` itself when `pos` is already past the end.
   */
  function SkipRun(bc: int -> int, source: seq<int>, pos: nat, last: int): (i: nat)
    ensures pos <= i
    ensures pos <= |source| ==> i <= |source|
    ensures i < |source| ==> bc(source[i]) != last
    decreases |source| - pos
  {
    if pos >= |source| then pos
    else if bc(source[pos]) != last then pos
    else SkipRun(bc, source, pos + 1, last)
  }

  /** Everything `SkipRun` passes over belongs to the run of `last`. */
  lemma {:induction false} SkipRunSkipsRun(bc: int -> int, source: seq<int>, pos: nat, last: int)
    ensures forall j :: pos <= j < SkipRun(bc, source, pos, last) ==> bc(source[j]) == last
    decreases |source| - pos
  {
    if pos < |source| && bc(source[pos]) == last {
      SkipRunSkipsRun(bc, source, pos + 1, last);
    }
  }

  /**
   * `nextAri(source, ppos, lastAriBc)`: the book-chapter of the first entry at or after
   * `ppos[0]` that lies outside the run of `lastAriBc`, with `ppos[0]` moved one past
   * it; 0, with `ppos[0]` untouched, when the list ends first.
   */
  method NextAri(bc: int -> int, source: seq<int>, ppos: array<int>, lastAriBc: int) returns (r: int)
    requires ppos.Length >= 1 && ppos[0] >= 0
    modifies ppos
    ensures var i := SkipRun(bc, source, old(ppos[0]), lastAriBc);
      if i < |source| then r == bc(source[i]) && ppos[0] == i + 1
      else r == 0 && ppos[0] == old(ppos[0])
    ensures forall j :: 1 <= j < ppos.Length ==> ppos[j] == old(ppos[j])
  {
    var pos := ppos[0];
    while true
      invariant old(ppos[0]) <= pos
      invariant SkipRun(bc, source, pos, lastAriBc) == SkipRun(bc, source, old(ppos[0]), lastAriBc)
      invariant unchanged(ppos)
      decreases |source| - pos
    {
      if pos >= |source| {
        return 0;
      }
      var curAriBc := bc(source[pos]);
      if curAriBc != lastAriBc {
        pos := pos + 1;
        ppos[0] := pos;
        return curAriBc;
      }
      pos := pos + 1;
    }
  }

  /**
   * The book-chapters the source-driven loop of `searchByGrepInside` visits, from
   * index `pos` on, after book-chapter `last`: one per run, until the list ends or
   * `nextAri` yields the end marker 0.
   */
  function RunKeys(bc: int -> int, source: seq<int>, pos: nat, last: int): seq<int>
    decreases |source| - pos
  {
    var i := SkipRun(bc, source, pos, last);
    if i >= |source| || bc(source[i]) == 0 then []
    else [bc(source[i])] + RunKeys(bc, source, i + 1, bc(source[i]))
  }

  /** From `pos` on, the book-chapters never decrease, never fall below `last` and are never 0. */
  predicate KeysFrom(bc: int -> int, source: seq<int>, pos: nat, last: int)
  {
    && (forall i, j :: pos <= i <= j < |source| ==> bc(source[i]) <= bc(source[j]))
    && (forall j :: pos <= j < |source| ==> last <= bc(source[j]) && bc(source[j]) != 0)
  }

  /** Taking the entry at `i` as the new last book-chapter keeps the ordering facts. */
  lemma KeysFromAdvance(bc: int -> int, source: seq<int>, pos: nat, last: int, i: nat)
    requires KeysFrom(bc, source, pos, last) && pos <= i < |source|
    ensures KeysFrom(bc, source, i + 1, bc(source[i]))
  {
  }

  lemma {:induction false} RunKeysAscending(bc: int -> int, source: seq<int>, pos: nat, last: int)
    requires KeysFrom(bc, source, pos, last)
    ensures StrictlyAscending(RunKeys(bc, source, pos, last))
    ensures Above(RunKeys(bc, source, pos, last), last)
    decreases |source| - pos
  {
    var i := SkipRun(bc, source, pos, last);
    if i < |source| && bc(source[i]) != 0 {
      var k := bc(source[i]);
      KeysFromAdvance(bc, source, pos, last, i);
      RunKeysAscending(bc, source, i + 1, k);
      ConsAscending(k, RunKeys(bc, source, i + 1, k));
    }
  }

  lemma {:induction false} RunKeysMembers(bc: int -> int, source: seq<int>, pos: nat, last: int, k: int)
    requires KeysFrom(bc, source, pos, last)
    ensures k in RunKeys(bc, source, pos, last) <==>
      k != last && exists j :: pos <= j < |source| && bc(source[j]) == k
    decreases |source| - pos
  {
    var i := SkipRun(bc, source, pos, last);
    SkipRunSkipsRun(bc, source, pos, last);
    if i < |source| {
      var c := bc(source[i]);
      KeysFromAdvance(bc, source, pos, last, i);
      RunKeysMembers(bc, source, i + 1, c, k);
      if k != last && exists j :: pos <= j < |source| && bc(source[j]) == k {
        var j :| pos <= j < |source| && bc(source[j]) == k;
        assert i <= j;
        if k != c {
          assert i < j;
        }
      }
    }
  }

  /**
   * On an ascending result list, with an ordering-preserving `toBookChapter` that
   * never yields 0, the source-driven loop visits every book-chapter of the list
   * exactly once, in ascending order.
   */
  lemma DriverVisitsEachChapterOnce(bc: int -> int, source: seq<int>)
    requires StrictlyAscending(source)
    requires forall x, y :: x <= y ==> bc(x) <= bc(y)
    requires forall x :: x in source ==> bc(x) > 0
    ensures StrictlyAscending(RunKeys(bc, source, 0, 0))
    ensures forall k :: k in RunKeys(bc, source, 0, 0) <==> exists x :: x in source && bc(x) == k
  {
    assert KeysFrom(bc, source, 0, 0) by {
      forall j | 0 <= j < |source|
        ensures 0 <= bc(source[j]) && bc(source[j]) != 0
      {
        assert source[j] in source;
      }
    }
    RunKeysAscending(bc, source, 0, 0);
    forall k
      ensures k in RunKeys(bc, source, 0, 0) <==> exists x :: x in source && bc(x) == k
    {
      RunKeysMembers(bc, source, 0, 0, k);
      if exists x :: x in source && bc(x) == k {
        var x :| x in source && bc(x) == k;
        var j :| 0 <= j < |source| && source[j] == x;
        assert bc(source[j]) == k;
      }
    }
  }

  // ----- searchByGrepInside -----

  /** The hits of chapters `chapter`..`count` of one book, each at address `encode(bookId, chapter, 0)`. */
  function ChaptersHits(env: Env, version: Version, bookId: int, chapter: int, count: int,
                        word: string, hasPlus: bool): seq<int>
    requires |word| > 0
    decreases if chapter <= count then count - chapter + 1 else 0
  {
    if chapter > count then []
    else
      var here := ChapterHits(env.isLetter, ChapterText(version, bookId, chapter), word, hasPlus, env.encode(bookId, chapter, 0));
      here + ChaptersHits(env, version, bookId, chapter + 1, count, word, hasPlus)
  }

  /** The hits of every selected book from the `i`-th on, in book order. */
  function BooksHits(env: Env, version: Version, ids: set<int>, word: string, hasPlus: bool, i: nat): seq<int>
    requires |word| > 0
    decreases |version.books| - i
  {
    if i >= |version.books| then []
    else if version.books[i].bookId in ids then
      ChaptersHits(env, version, version.books[i].bookId, 1, version.books[i].chapterCount, word, hasPlus)
        + BooksHits(env, version, ids, word, hasPlus, i + 1)
    else BooksHits(env, version, ids, word, hasPlus, i + 1)
  }

  /** The hits of the listed book-chapters, each at its own book-chapter address. */
  function KeyedHits(env: Env, version: Version, keys: seq<int>, word: string, hasPlus: bool): seq<int>
    requires |word| > 0
  {
    if keys == [] then []
    else
      var here := ChapterHits(env.isLetter, ChapterText(version, env.toBook(keys[0]), env.toChapter(keys[0])), word, hasPlus, keys[0]);
      here + KeyedHits(env, version, keys[1..], word, hasPlus)
  }

  /**
   * What `searchByGrepInside(version, token, source, bookIds)` returns: with no
   * source, the hits in every chapter of the selected books; with a source, the
   * hits in the book-chapters it visits through `nextAri`.
   */
  function InsideHits(env: Env, version: Version, token: string, source: Option<seq<int>>, bookIds: Option<set<int>>): seq<int>
    requires Scannable(env, token) && (source.Some? || bookIds.Some?)
  {
    var word := Bare(env, token);
    var hasPlus := env.isPlussedToken(token);
    if source.None? then BooksHits(env, version, bookIds.value, word, hasPlus, 0)
    else KeyedHits(env, version, RunKeys(env.toBookChapter, source.value, 0, 0), word, hasPlus)
  }

  /** Every address of a selected book's chapters is a scan hit of one of its chapters. */
  lemma {:induction false} ChaptersHitsSound(env: Env, version: Version, bookId: int, chapter: int, count: int,
                                             word: string, hasPlus: bool, x: int)
    requires |word| > 0 && x in ChaptersHits(env, version, bookId, chapter, count, word, hasPlus)
    ensures exists c :: (chapter <= c <= count &&
      x in ChapterHits(env.isLetter, ChapterText(version, bookId, c), word, hasPlus, env.encode(bookId, c, 0)))
    decreases if chapter <= count then count - chapter + 1 else 0
  {
    var here := ChapterHits(env.isLetter, ChapterText(version, bookId, chapter), word, hasPlus, env.encode(bookId, chapter, 0));
    if x !in here {
      ChaptersHitsSound(env, version, bookId, chapter + 1, count, word, hasPlus, x);
    }
  }

  /** A hit in any chapter of the range is kept. */
  lemma {:induction false} ChaptersHitsComplete(env: Env, version: Version, bookId: int, chapter: int, count: int,
                                                word: string, hasPlus: bool, c: int, x: int)
    requires |word| > 0 && chapter <= c <= count
    requires x in ChapterHits(env.isLetter, ChapterText(version, bookId, c), word, hasPlus, env.encode(bookId, c, 0))
    ensures x in ChaptersHits(env, version, bookId, chapter, count, word, hasPlus)
    decreases count - chapter + 1
  {
    if c != chapter {
      ChaptersHitsComplete(env, version, bookId, chapter + 1, count, word, hasPlus, c, x);
    }
  }

  /** A selected book's hits in chapters 1..`chapterCount`, as the all-books loop finds them. */
  predicate BookChapterHit(env: Env, version: Version, ids: set<int>, word: string, hasPlus: bool, b: nat, c: int, x: int)
    requires |word| > 0
  {
    && b < |version.books|
    && version.books[b].bookId in ids
    && 1 <= c <= version.books[b].chapterCount
    && x in ChapterHits(env.isLetter, ChapterText(version, version.books[b].bookId, c), word, hasPlus,
                        env.encode(version.books[b].bookId, c, 0))
  }

  lemma {:induction false} BooksHitsSound(env: Env, version: Version, ids: set<int>, word: string, hasPlus: bool, i: nat, x: int)
    requires |word| > 0 && x in BooksHits(env, version, ids, word, hasPlus, i)
    ensures exists b, c :: i <= b && BookChapterHit(env, version, ids, word, hasPlus, b, c, x)
    decreases |version.books| - i
  {
    var book := version.books[i];
    if book.bookId in ids && x in ChaptersHits(env, version, book.bookId, 1, book.chapterCount, word, hasPlus) {
      ChaptersHitsSound(env, version, book.bookId, 1, book.chapterCount, word, hasPlus, x);
      var c :| 1 <= c <= book.chapterCount &&
        x in ChapterHits(env.isLetter, ChapterText(version, book.bookId, c), word, hasPlus, env.encode(book.bookId, c, 0));
      assert BookChapterHit(env, version, ids, word, hasPlus, i, c, x);
    } else {
      BooksHitsSound(env, version, ids, word, hasPlus, i + 1, x);
    }
  }

  lemma {:induction false} BooksHitsComplete(env: Env, version: Version, ids: set<int>, word: string, hasPlus: bool,
                                             i: nat, b: nat, c: int, x: int)
    requires |word| > 0 && i <= b && BookChapterHit(env, version, ids, word, hasPlus, b, c, x)
    ensures x in BooksHits(env, version, ids, word, hasPlus, i)
    decreases b - i
  {
    var book := version.books[i];
    if b == i {
      ChaptersHitsComplete(env, version, book.bookId, 1, book.chapterCount, word, hasPlus, c, x);
    } else {
      BooksHitsComplete(env, version, ids, word, hasPlus, i + 1, b, c, x);
    }
  }

  /**
   * Without a source, an address is found exactly when it is a scan hit in some
   * chapter 1..`chapter_count` of some selected book.
   */
  lemma BooksHitsMembers(env: Env, version: Version, ids: set<int>, word: string, hasPlus: bool, x: int)
    requires |word| > 0
    ensures x in BooksHits(env, version, ids, word, hasPlus, 0) <==>
      exists b, c :: BookChapterHit(env, version, ids, word, hasPlus, b, c, x)
  {
    if x in BooksHits(env, version, ids, word, hasPlus, 0) {
      BooksHitsSound(env, version, ids, word, hasPlus, 0, x);
    }
    if exists b, c :: BookChapterHit(env, version, ids, word, hasPlus, b, c, x) {
      var b, c :| BookChapterHit(env, version, ids, word, hasPlus, b, c, x);
      BooksHitsComplete(env, version, ids, word, hasPlus, 0, b, c, x);
    }
  }

  /** With a source, an address is found exactly when it is a scan hit of a visited book-chapter. */
  lemma {:induction false} KeyedHitsMembers(env: Env, version: Version, keys: seq<int>, word: string, hasPlus: bool, x: int)
    requires |word| > 0
    ensures x in KeyedHits(env, version, keys, word, hasPlus) <==>
      exists k :: k in keys &&
        x in ChapterHits(env.isLetter, ChapterText(version, env.toBook(k), env.toChapter(k)), word, hasPlus, k)
  {
    if keys != [] {
      KeyedHitsMembers(env, version, keys[1..], word, hasPlus, x);
      assert keys == [keys[0]] + keys[1..];
    }
  }

  /** The chapter loop for one selected book: chapters 1..`chapter_count`, appended to `res`. */
  method ScanBook(env: Env, version: Version, bookId: int, count: int, word: string, hasPlus: bool, res: seq<int>)
    returns (res': seq<int>)
    requires |word| > 0
    ensures res' == res + ChaptersHits(env, version, bookId, 1, count, word, hasPlus)
  {
    res' := res;
    var chapter := 1;
    while chapter <= count
      invariant chapter >= 1
      invariant res' + ChaptersHits(env, version, bookId, chapter, count, word, hasPlus)
                == res + ChaptersHits(env, version, bookId, 1, count, word, hasPlus)
      decreases count - chapter
    {
      var ariBc := env.encode(bookId, chapter, 0);
      var next := SearchByGrepForOneChapter(env.isLetter, version, bookId, chapter, word, hasPlus, ariBc, res');
      AppendAssociates(res', ChapterHits(env.isLetter, ChapterText(version, bookId, chapter), word, hasPlus, ariBc),
                       ChaptersHits(env, version, bookId, chapter + 1, count, word, hasPlus));
      res' := next;
      chapter := chapter + 1;
    }
  }

  /** The loop over the consecutive books, skipping the books not selected. */
  method ScanSelectedBooks(env: Env, version: Version, ids: set<int>, word: string, hasPlus: bool) returns (res: seq<int>)
    requires |word| > 0
    ensures res == BooksHits(env, version, ids, word, hasPlus, 0)
  {
    res := [];
    var books := version.books;
    for i := 0 to |books|
      invariant res + BooksHits(env, version, ids, word, hasPlus, i) == BooksHits(env, version, ids, word, hasPlus, 0)
    {
      var book := books[i];
      if book.bookId !in ids {
        continue;
      }
      var next := ScanBook(env, version, book.bookId, book.chapterCount, word, hasPlus, res);
      AppendAssociates(res, ChaptersHits(env, version, book.bookId, 1, book.chapterCount, word, hasPlus),
                       BooksHits(env, version, ids, word, hasPlus, i + 1));
      res := next;
    }
  }

  /** One call of `nextAri` in terms of the visited keys: the next key and the keys after it, or none. */
  lemma RunKeysStep(bc: int -> int, source: seq<int>, pos: nat, last: int, i: nat)
    requires i == SkipRun(bc, source, pos, last)
    ensures i < |source| && bc(source[i]) != 0 ==>
      RunKeys(bc, source, pos, last) == [bc(source[i])] + RunKeys(bc, source, i + 1, bc(source[i]))
    ensures !(i < |source| && bc(source[i]) != 0) ==> RunKeys(bc, source, pos, last) == []
  {
  }

  lemma KeyedHitsCons(env: Env, version: Version, k: int, rest: seq<int>, word: string, hasPlus: bool)
    requires |word| > 0
    ensures KeyedHits(env, version, [k] + rest, word, hasPlus)
      == ChapterHits(env.isLetter, ChapterText(version, env.toBook(k), env.toChapter(k)), word, hasPlus, k)
         + KeyedHits(env, version, rest, word, hasPlus)
  {
    assert ([k] + rest)[1..] == rest;
  }

  /** The loop over the book-chapters of `source`, one `nextAri` call per chapter. */
  method ScanSourceChapters(env: Env, version: Version, source: seq<int>, word: string, hasPlus: bool) returns (res: seq<int>)
    requires |word| > 0
    ensures res == KeyedHits(env, version, RunKeys(env.toBookChapter, source, 0, 0), word, hasPlus)
  {
    res := [];
    var ppos := new int[1](_ => 0);
    var curAriBc := 0;
    ghost var keys := RunKeys(env.toBookChapter, source, 0, 0);
    while true
      invariant ppos.Length == 1 && 0 <= ppos[0] <= |source|
      invariant keys == RunKeys(env.toBookChapter, source, ppos[0], curAriBc)
      invariant res + KeyedHits(env, version, keys, word, hasPlus)
                == KeyedHits(env, version, RunKeys(env.toBookChapter, source, 0, 0), word, hasPlus)
      decreases |source| - ppos[0]
    {
      ghost var i := SkipRun(env.toBookChapter, source, ppos[0], curAriBc);
      RunKeysStep(env.toBookChapter, source, ppos[0], curAriBc, i);
      curAriBc := NextAri(env.toBookChapter, source, ppos, curAriBc);
      if curAriBc == 0 {
        break;
      }
      KeyedHitsCons(env, version, curAriBc, keys[1..], word, hasPlus);
      var bookId := env.toBook(curAriBc);
      var chapter := env.toChapter(curAriBc);
      var next := SearchByGrepForOneChapter(env.isLetter, version, bookId, chapter, word, hasPlus, curAriBc, res);
      AppendAssociates(res, ChapterHits(env.isLetter, ChapterText(version, bookId, chapter), word, hasPlus, curAriBc),
                       KeyedHits(env, version, keys[1..], word, hasPlus));
      res := next;
      keys := keys[1..];
    }
  }

  /**
   * `searchByGrepInside`: strips the plus, then scans either every chapter of the
   * selected books or the book-chapters of `source`.  The source dereferences
   * `bookIds` only when there is no source.
   */
  method SearchByGrepInside(env: Env, version: Version, token: string, source: Option<seq<int>>, bookIds: Option<set<int>>)
    returns (res: seq<int>)
    requires Scannable(env, token) && (source.Some? || bookIds.Some?)
    ensures res == InsideHits(env, version, token, source, bookIds)
  {
    var word := token;
    var hasPlus := env.isPlussedToken(word);
    if hasPlus {
      word := env.tokenWithoutPlus(word);
    }
    if source.None? {
      res := ScanSelectedBooks(env, version, bookIds.value, word, hasPlus);
    } else {
      res := ScanSourceChapters(env, version, source.value, word, hasPlus);
    }
  }

  // ----- searchByGrep -----

  /**
   * The narrowing loop of `searchByGrep`: each word is searched inside the previous
   * result (all selected books for the first word) and intersected with it; null
   * (`None`) when there are no words.
   */
  function Narrow(env: Env, version: Version, bookIds: Option<set<int>>, words: seq<string>, prev: Option<seq<int>>): Option<seq<int>>
    requires forall w :: w in words ==> Scannable(env, w)
    requires prev.None? && words != [] ==> bookIds.Some?
  {
    if words == [] then prev
    else
      var result := InsideHits(env, version, words[0], prev, bookIds);
      Narrow(env, version, bookIds, words[1..], Some(if prev.Some? then MergeJoin(prev.value, result) else result))
  }

  /** Narrowing a previous result only ever deletes addresses from it, keeping their order. */
  lemma {:induction false} NarrowSubsequence(env: Env, version: Version, bookIds: Option<set<int>>, words: seq<string>, prev: seq<int>)
    requires forall w :: w in words ==> Scannable(env, w)
    ensures Narrow(env, version, bookIds, words, Some(prev)).Some?
    ensures IsSubsequence(Narrow(env, version, bookIds, words, Some(prev)).value, prev)
  {
    if words == [] {
      SubsequenceReflexive(prev);
    } else {
      var result := InsideHits(env, version, words[0], Some(prev), bookIds);
      var next := MergeJoin(prev, result);
      assert forall w :: w in words[1..] ==> w in words;
      NarrowSubsequence(env, version, bookIds, words[1..], next);
      MergeJoinSubsequence(prev, result);
      SubsequenceTransitive(Narrow(env, version, bookIds, words[1..], Some(next)).value, next, prev);
    }
  }

  /**
   * `searchByGrep` returns null exactly when there are no words; otherwise its result
   * is drawn, in order, from the hits of the first word in the selected books, and is
   * ascending whenever those are.
   */
  lemma NarrowResult(env: Env, version: Version, bookIds: Option<set<int>>, words: seq<string>)
    requires forall w :: w in words ==> Scannable(env, w)
    requires words != [] ==> bookIds.Some?
    ensures Narrow(env, version, bookIds, words, None).None? <==> words == []
    ensures words != [] ==>
      var first := InsideHits(env, version, words[0], None, bookIds);
      && IsSubsequence(Narrow(env, version, bookIds, words, None).value, first)
      && (StrictlyAscending(first) ==> StrictlyAscending(Narrow(env, version, bookIds, words, None).value))
  {
    if words != [] {
      var first := InsideHits(env, version, words[0], None, bookIds);
      assert forall w :: w in words[1..] ==> w in words;
      NarrowSubsequence(env, version, bookIds, words[1..], first);
      if StrictlyAscending(first) {
        SubsequenceOfAscending(Narrow(env, version, bookIds, words, None).value, first);
      }
    }
  }

  /**
   * `searchByGrep(version, query)`: tokenizes, sorts the tokens longest first and
   * alphabetically, drops repeated words, then narrows word by word.  The source
   * reads `query.bookIds` only for the first word, and never when there is none.
   */
  method SearchByGrep(env: Env, version: Version, query: Query) returns (result: Option<seq<int>>)
    requires forall w :: w in env.tokenize(query.queryString) ==> Scannable(env, w)
    requires |env.tokenize(query.queryString)| > 0 ==> query.bookIds.Some?
    ensures result == Narrow(env, version, query.bookIds, SearchWords(env.tokenize(query.queryString)), None)
    ensures result.None? <==> |env.tokenize(query.queryString)| == 0
  {
    var tokens := env.tokenize(query.queryString);
    SortTokensSorts(tokens);
    var sorted := SortTokens(tokens);
    var words := RemoveDuplicates(sorted);
    SearchWordsMeaning(tokens);

    result := None;
    for i := 0 to |words|
      invariant forall w :: w in words ==> Scannable(env, w)
      invariant i > 0 ==> result.Some?
      invariant Narrow(env, version, query.bookIds, words[i..], result) == Narrow(env, version, query.bookIds, words, None)
    {
      assert words[i] in words;
      assert words[i..][1..] == words[i + 1..];
      var prev := result;
      var found := SearchByGrepInside(env, version, words[i], prev, query.bookIds);
      if prev.Some? {
        var narrowed := Intersect(prev.value, found);
        result := Some(narrowed);
      } else {
        result := Some(found);
      }
    }
    NarrowResult(env, version, query.bookIds, words);
  }
}
