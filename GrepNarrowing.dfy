/**
 * What `SearchEngine.searchByGrep` finds: under the packing laws of `Ari` and a
 * corpus whose numbers fit its fields, narrowing word by word keeps exactly the
 * verse addresses that are hits of every word, in ascending order.
 */
module GrepNarrowing {
  import opened Wrappers
  import opened Collaborators
  import opened TextSearch
  import opened SortedSets
  import opened QueryWords
  import opened GrepChapter
  import opened GrepSearch

  /**
   * The laws of `Ari` the narrowing relies on, for 8-bit books, chapters and verses:
   * a verse address is its book-chapter address plus the verse number, the
   * book-chapter of a verse address is that base, a base decodes back to its book and
   * chapter, and bases ascend with (book, chapter), each above every verse of the one
   * before it.
   */
  ghost predicate AriLaws(env: Env)
  {
    && (forall b, c, v :: 0 <= b < 256 && 0 <= c < 256 && 0 <= v < 256 ==>
          && env.encode(b, c, v) == env.encode(b, c, 0) + v
          && env.toBookChapter(env.encode(b, c, v)) == env.encode(b, c, 0))
    && (forall b, c :: 0 <= b < 256 && 0 <= c < 256 ==>
          && 0 <= env.encode(b, c, 0)
          && env.toBook(env.encode(b, c, 0)) == b
          && env.toChapter(env.encode(b, c, 0)) == c)
    && (forall b, c, b', c' ::
          && 0 <= b < 256 && 0 <= c < 256 && 0 <= b' < 256 && 0 <= c' < 256
          && (b < b' || (b == b' && c < c'))
          ==> env.encode(b, c, 255) < env.encode(b', c', 0))
  }

  /**
   * `Ari`'s packing written arithmetically: the book above bit 16, the chapter in
   * bits 8..15, the verse in bits 0..7.
   */
  function AriPacking(env: Env): Env
  {
    env.(encode := (b, c, v) => (b * 0x100 + c) * 0x100 + v,
         toBookChapter := a => a - a % 0x100,
         toBook := a => a / 0x10000 % 0x100,
         toChapter := a => a / 0x100 % 0x100)
  }

  lemma SplitByte(q: int, r: int)
    requires 0 <= r < 0x100
    ensures (q * 0x100 + r) / 0x100 == q && (q * 0x100 + r) % 0x100 == r
  {
  }

  /** The packing satisfies the laws, so they describe a real encoding and not an empty one. */
  lemma AriPackingLaws(env: Env)
    ensures AriLaws(AriPacking(env))
  {
    var p := AriPacking(env);
    forall b, c, v | 0 <= b < 256 && 0 <= c < 256 && 0 <= v < 256
      ensures p.encode(b, c, v) == p.encode(b, c, 0) + v
      ensures p.toBookChapter(p.encode(b, c, v)) == p.encode(b, c, 0)
    {
      SplitByte(b * 0x100 + c, v);
    }
    forall b, c | 0 <= b < 256 && 0 <= c < 256
      ensures 0 <= p.encode(b, c, 0)
      ensures p.toBook(p.encode(b, c, 0)) == b && p.toChapter(p.encode(b, c, 0)) == c
    {
      var a := (b * 0x100 + c) * 0x100;
      SplitByte(b * 0x100 + c, 0);
      SplitByte(b, c);
      SplitByte(0, b);
      assert a / 0x10000 == (a / 0x100) / 0x100;
    }
    forall b, c, b', c' | && 0 <= b < 256 && 0 <= c < 256 && 0 <= b' < 256 && 0 <= c' < 256
                          && (b < b' || (b == b' && c < c'))
      ensures p.encode(b, c, 255) < p.encode(b', c', 0)
    {
    }
  }

  /**
   * Book ids and chapter counts fit the address fields, the books come in ascending
   * id order, and no chapter text holds more than 255 verse separators.
   */
  predicate Addressable(version: Version)
  {
    && (forall i :: 0 <= i < |version.books| ==>
          0 <= version.books[i].bookId < 256 && version.books[i].chapterCount < 256)
    && (forall i, j :: 0 <= i < j < |version.books| ==> version.books[i].bookId < version.books[j].bookId)
    && (forall key :: key in version.chapterText ==>
          VerseOf(version.chapterText[key], |version.chapterText[key]|) < 256)
  }

  /** `x` is a verse where `token`, without its plus, is found in some chapter of a selected book. */
  ghost predicate WordHit(env: Env, version: Version, ids: set<int>, token: string, x: int)
    requires Scannable(env, token)
  {
    exists b, c :: BookChapterHit(env, version, ids, Bare(env, token), env.isPlussedToken(token), b, c, x)
  }

  /** `x` is a hit of every word. */
  ghost predicate HitsAll(env: Env, version: Version, ids: set<int>, words: seq<string>, x: int)
    requires forall w :: w in words ==> Scannable(env, w)
  {
    forall w :: w in words ==> WordHit(env, version, ids, w, x)
  }

  /** `k` is the book-chapter address of a chapter 1..`chapter_count` of a selected book. */
  ghost predicate ChapterKey(env: Env, version: Version, ids: set<int>, k: int)
  {
    exists b: nat, c :: && b < |version.books| && version.books[b].bookId in ids
                        && 1 <= c <= version.books[b].chapterCount
                        && k == env.encode(version.books[b].bookId, c, 0)
  }

  /** Two book-chapter bases in ascending order leave room for every verse of the lower one. */
  lemma BasesSeparate(env: Env, b: int, c: int, b': int, c': int)
    requires AriLaws(env)
    requires 0 <= b < 256 && 0 <= c < 256 && 0 <= b' < 256 && 0 <= c' < 256
    ensures env.encode(b, c, 255) == env.encode(b, c, 0) + 255
    ensures env.encode(b, c, 0) < env.encode(b', c', 0) ==> env.encode(b, c, 255) < env.encode(b', c', 0)
  {
    assert env.encode(b, c, 255) == env.encode(b, c, 0) + 255;
    assert env.encode(b', c', 255) == env.encode(b', c', 0) + 255;
    if !(b == b' && c == c') && !(b < b' || (b == b' && c < c')) {
      assert env.encode(b', c', 255) < env.encode(b, c, 0);
    }
  }

  /** A hit of chapter (`b`, `c`) at its base address is one of that chapter's verse addresses. */
  lemma ChapterHitRange(env: Env, version: Version, b: int, c: int, word: string, hasPlus: bool, x: int)
    requires AriLaws(env) && Addressable(version)
    requires 0 <= b < 256 && 0 <= c < 256 && |word| > 0
    requires x in ChapterHits(env.isLetter, ChapterText(version, b, c), word, hasPlus, env.encode(b, c, 0))
    ensures env.encode(b, c, 0) < x <= env.encode(b, c, 0) + 255
    ensures env.toBookChapter(x) == env.encode(b, c, 0)
  {
    var base := env.encode(b, c, 0);
    var text := version.chapterText[(b, c)];
    ChapterHitsSound(env.isLetter, text, word, hasPlus, base, x);
    var v := x - base;
    assert env.encode(b, c, v) == x;
  }

  /** A hit of a selected book's chapter lies in that chapter, whose base is a positive chapter key. */
  lemma HitKey(env: Env, version: Version, ids: set<int>, word: string, hasPlus: bool, b: nat, c: int, x: int)
    requires AriLaws(env) && Addressable(version) && |word| > 0
    requires BookChapterHit(env, version, ids, word, hasPlus, b, c, x)
    ensures var k := env.encode(version.books[b].bookId, c, 0);
      && ChapterKey(env, version, ids, k)
      && 0 < k < x <= k + 255
      && env.toBookChapter(x) == k
      && env.toBook(k) == version.books[b].bookId && env.toChapter(k) == c
  {
    var id := version.books[b].bookId;
    ChapterHitRange(env, version, id, c, word, hasPlus, x);
    assert env.encode(id, 0, 255) == env.encode(id, 0, 0) + 255;
    assert env.encode(id, 0, 255) < env.encode(id, c, 0);
  }

  /** Distinct chapter keys lie more than a chapter's verse range apart. */
  lemma KeysGap(env: Env, version: Version, ids: set<int>, k: int, k': int)
    requires AriLaws(env) && Addressable(version)
    requires ChapterKey(env, version, ids, k) && ChapterKey(env, version, ids, k') && k < k'
    ensures k + 255 < k'
  {
    var b: nat, c :| && b < |version.books| && version.books[b].bookId in ids
                     && 1 <= c <= version.books[b].chapterCount
                     && k == env.encode(version.books[b].bookId, c, 0);
    var b': nat, c' :| && b' < |version.books| && version.books[b'].bookId in ids
                       && 1 <= c' <= version.books[b'].chapterCount
                       && k' == env.encode(version.books[b'].bookId, c', 0);
    BasesSeparate(env, version.books[b].bookId, c, version.books[b'].bookId, c');
  }

  /** A word hit's book-chapter is a positive chapter key within a verse range below it. */
  lemma ListedKey(env: Env, version: Version, ids: set<int>, w: string, y: int)
    requires AriLaws(env) && Addressable(version) && Scannable(env, w)
    requires WordHit(env, version, ids, w, y)
    ensures var k := env.toBookChapter(y); ChapterKey(env, version, ids, k) && 0 < k < y <= k + 255
  {
    var b: nat, c :| BookChapterHit(env, version, ids, Bare(env, w), env.isPlussedToken(w), b, c, y);
    HitKey(env, version, ids, Bare(env, w), env.isPlussedToken(w), b, c, y);
  }

  lemma {:induction false} ChaptersHitsAscending(env: Env, version: Version, id: int, chapter: int, count: int,
                                                 word: string, hasPlus: bool)
    requires AriLaws(env) && Addressable(version) && |word| > 0
    requires 0 <= id < 256 && 0 <= chapter && count < 256
    ensures StrictlyAscending(ChaptersHits(env, version, id, chapter, count, word, hasPlus))
    decreases if chapter <= count then count - chapter + 1 else 0
  {
    if chapter <= count {
      var here := ChapterHits(env.isLetter, ChapterText(version, id, chapter), word, hasPlus, env.encode(id, chapter, 0));
      var rest := ChaptersHits(env, version, id, chapter + 1, count, word, hasPlus);
      ChaptersHitsAscending(env, version, id, chapter + 1, count, word, hasPlus);
      if (id, chapter) in version.chapterText {
        ChapterHitsAscending(env.isLetter, version.chapterText[(id, chapter)], word, hasPlus, env.encode(id, chapter, 0));
      }
      forall x, y | x in here && y in rest
        ensures x < y
      {
        ChapterHitRange(env, version, id, chapter, word, hasPlus, x);
        ChaptersHitsSound(env, version, id, chapter + 1, count, word, hasPlus, y);
        var c :| chapter + 1 <= c <= count &&
          y in ChapterHits(env.isLetter, ChapterText(version, id, c), word, hasPlus, env.encode(id, c, 0));
        ChapterHitRange(env, version, id, c, word, hasPlus, y);
        BasesSeparate(env, id, chapter, id, c);
      }
      AppendAscending(here, rest);
    }
  }

  /** With books in ascending id order, the all-books scan yields ascending addresses. */
  lemma {:induction false} BooksHitsAscending(env: Env, version: Version, ids: set<int>, word: string, hasPlus: bool, i: nat)
    requires AriLaws(env) && Addressable(version) && |word| > 0
    ensures StrictlyAscending(BooksHits(env, version, ids, word, hasPlus, i))
    decreases |version.books| - i
  {
    if i < |version.books| {
      var book := version.books[i];
      var rest := BooksHits(env, version, ids, word, hasPlus, i + 1);
      BooksHitsAscending(env, version, ids, word, hasPlus, i + 1);
      if book.bookId in ids {
        var here := ChaptersHits(env, version, book.bookId, 1, book.chapterCount, word, hasPlus);
        ChaptersHitsAscending(env, version, book.bookId, 1, book.chapterCount, word, hasPlus);
        forall x, y | x in here && y in rest
          ensures x < y
        {
          ChaptersHitsSound(env, version, book.bookId, 1, book.chapterCount, word, hasPlus, x);
          var c :| 1 <= c <= book.chapterCount &&
            x in ChapterHits(env.isLetter, ChapterText(version, book.bookId, c), word, hasPlus, env.encode(book.bookId, c, 0));
          ChapterHitRange(env, version, book.bookId, c, word, hasPlus, x);
          BooksHitsSound(env, version, ids, word, hasPlus, i + 1, y);
          var b': nat, c' :| i + 1 <= b' && BookChapterHit(env, version, ids, word, hasPlus, b', c', y);
          HitKey(env, version, ids, word, hasPlus, b', c', y);
          assert book.bookId < version.books[b'].bookId;
          BasesSeparate(env, book.bookId, c, version.books[b'].bookId, c');
        }
        AppendAscending(here, rest);
      }
    }
  }

  /** Every hit of scanning chapter keys lies above the first key. */
  lemma KeyedHitAbove(env: Env, version: Version, ids: set<int>, keys: seq<int>, word: string, hasPlus: bool, y: int)
    requires AriLaws(env) && Addressable(version) && |word| > 0
    requires StrictlyAscending(keys) && forall k :: k in keys ==> ChapterKey(env, version, ids, k)
    requires y in KeyedHits(env, version, keys, word, hasPlus)
    ensures keys != [] && keys[0] < y
  {
    KeyedHitsMembers(env, version, keys, word, hasPlus, y);
    var k :| k in keys &&
      y in ChapterHits(env.isLetter, ChapterText(version, env.toBook(k), env.toChapter(k)), word, hasPlus, k);
    var b: nat, c :| && b < |version.books| && version.books[b].bookId in ids
                     && 1 <= c <= version.books[b].chapterCount
                     && k == env.encode(version.books[b].bookId, c, 0);
    assert env.toBook(k) == version.books[b].bookId && env.toChapter(k) == c;
    ChapterHitRange(env, version, version.books[b].bookId, c, word, hasPlus, y);
    assert keys[0] <= k;
  }

  /** Scanning ascending chapter keys, each at its own base, yields ascending addresses. */
  lemma {:induction false} KeyedHitsAscending(env: Env, version: Version, ids: set<int>, keys: seq<int>,
                                              word: string, hasPlus: bool)
    requires AriLaws(env) && Addressable(version) && |word| > 0
    requires StrictlyAscending(keys) && forall k :: k in keys ==> ChapterKey(env, version, ids, k)
    ensures StrictlyAscending(KeyedHits(env, version, keys, word, hasPlus))
  {
    if keys != [] {
      var k := keys[0];
      assert k in keys;
      var b: nat, c :| && b < |version.books| && version.books[b].bookId in ids
                       && 1 <= c <= version.books[b].chapterCount
                       && k == env.encode(version.books[b].bookId, c, 0);
      var id := version.books[b].bookId;
      var here := ChapterHits(env.isLetter, ChapterText(version, env.toBook(k), env.toChapter(k)), word, hasPlus, k);
      var rest := KeyedHits(env, version, keys[1..], word, hasPlus);
      assert here == ChapterHits(env.isLetter, ChapterText(version, id, c), word, hasPlus, env.encode(id, c, 0));
      assert forall k' :: k' in keys[1..] ==> k' in keys;
      KeyedHitsAscending(env, version, ids, keys[1..], word, hasPlus);
      if (id, c) in version.chapterText {
        ChapterHitsAscending(env.isLetter, version.chapterText[(id, c)], word, hasPlus, k);
      }
      forall x, y | x in here && y in rest
        ensures x < y
      {
        ChapterHitRange(env, version, id, c, word, hasPlus, x);
        KeyedHitAbove(env, version, ids, keys[1..], word, hasPlus, y);
        assert keys[1] in keys;
        KeysGap(env, version, ids, k, keys[1]);
      }
      AppendAscending(here, rest);
    }
  }

  /**
   * On a previous result that is ascending and made of hits of the earlier words,
   * the book-chapters fed to the source-driven scan never decrease and are never 0,
   * and each is a chapter key.
   */
  lemma PreviousKeys(env: Env, version: Version, ids: set<int>, done: seq<string>, prev: seq<int>)
    requires AriLaws(env) && Addressable(version)
    requires done != [] && forall w :: w in done ==> Scannable(env, w)
    requires StrictlyAscending(prev)
    requires forall y :: y in prev ==> HitsAll(env, version, ids, done, y)
    ensures KeysFrom(env.toBookChapter, prev, 0, 0)
    ensures forall k :: k in RunKeys(env.toBookChapter, prev, 0, 0) ==> ChapterKey(env, version, ids, k)
  {
    var w := done[0];
    assert w in done;
    forall j | 0 <= j < |prev|
      ensures var k := env.toBookChapter(prev[j]); ChapterKey(env, version, ids, k) && 0 < k < prev[j] <= k + 255
    {
      assert prev[j] in prev;
      ListedKey(env, version, ids, w, prev[j]);
    }
    forall i, j | 0 <= i <= j < |prev|
      ensures env.toBookChapter(prev[i]) <= env.toBookChapter(prev[j])
    {
      var k, k' := env.toBookChapter(prev[i]), env.toBookChapter(prev[j]);
      if k' < k {
        KeysGap(env, version, ids, k', k);
      }
    }
    forall k | k in RunKeys(env.toBookChapter, prev, 0, 0)
      ensures ChapterKey(env, version, ids, k)
    {
      RunKeysMembers(env.toBookChapter, prev, 0, 0, k);
    }
  }

  /** A hit of the next word in a chapter key's chapter is a hit of that word in a selected book. */
  lemma KeyedHitIsWordHit(env: Env, version: Version, ids: set<int>, keys: seq<int>, w: string, y: int)
    requires AriLaws(env) && Addressable(version) && Scannable(env, w)
    requires forall k :: k in keys ==> ChapterKey(env, version, ids, k)
    requires y in KeyedHits(env, version, keys, Bare(env, w), env.isPlussedToken(w))
    ensures WordHit(env, version, ids, w, y)
  {
    var word, hasPlus := Bare(env, w), env.isPlussedToken(w);
    KeyedHitsMembers(env, version, keys, word, hasPlus, y);
    var k :| k in keys &&
      y in ChapterHits(env.isLetter, ChapterText(version, env.toBook(k), env.toChapter(k)), word, hasPlus, k);
    var b: nat, c :| && b < |version.books| && version.books[b].bookId in ids
                     && 1 <= c <= version.books[b].chapterCount
                     && k == env.encode(version.books[b].bookId, c, 0);
    assert env.toBook(k) == version.books[b].bookId && env.toChapter(k) == c;
    assert BookChapterHit(env, version, ids, word, hasPlus, b, c, y);
  }

  /** A hit of the next word that is on the previous list lies in a chapter the scan visits. */
  lemma WordHitIsKeyed(env: Env, version: Version, ids: set<int>, prev: seq<int>, w: string, y: int)
    requires AriLaws(env) && Addressable(version) && Scannable(env, w)
    requires KeysFrom(env.toBookChapter, prev, 0, 0)
    requires y in prev && WordHit(env, version, ids, w, y)
    ensures y in KeyedHits(env, version, RunKeys(env.toBookChapter, prev, 0, 0), Bare(env, w), env.isPlussedToken(w))
  {
    var word, hasPlus := Bare(env, w), env.isPlussedToken(w);
    var keys := RunKeys(env.toBookChapter, prev, 0, 0);
    var b: nat, c :| BookChapterHit(env, version, ids, word, hasPlus, b, c, y);
    HitKey(env, version, ids, word, hasPlus, b, c, y);
    var k := env.toBookChapter(y);
    var j :| 0 <= j < |prev| && prev[j] == y;
    RunKeysMembers(env.toBookChapter, prev, 0, 0, k);
    KeyedHitsMembers(env, version, keys, word, hasPlus, y);
  }

  /**
   * One narrowing step: when `prev` is ascending and holds exactly the hits of the
   * words `done`, intersecting it with the next word's source-driven hits gives an
   * ascending list of exactly the hits of `done` and that word.
   */
  lemma NarrowStep(env: Env, version: Version, ids: set<int>, done: seq<string>, w: string, prev: seq<int>)
    requires AriLaws(env) && Addressable(version)
    requires done != [] && forall d :: d in done ==> Scannable(env, d)
    requires Scannable(env, w)
    requires StrictlyAscending(prev)
    requires forall y :: y in prev <==> HitsAll(env, version, ids, done, y)
    ensures var next := MergeJoin(prev, InsideHits(env, version, w, Some(prev), Some(ids)));
      && StrictlyAscending(next)
      && forall y :: y in next <==> HitsAll(env, version, ids, done + [w], y)
  {
    var word, hasPlus := Bare(env, w), env.isPlussedToken(w);
    var keys := RunKeys(env.toBookChapter, prev, 0, 0);
    var result := KeyedHits(env, version, keys, word, hasPlus);
    PreviousKeys(env, version, ids, done, prev);
    RunKeysAscending(env.toBookChapter, prev, 0, 0);
    KeyedHitsAscending(env, version, ids, keys, word, hasPlus);
    MergeJoinIntersects(prev, result);
    var all := done + [w];
    forall y
      ensures y in prev && y in result <==> HitsAll(env, version, ids, all, y)
    {
      if y in prev && y in result {
        KeyedHitIsWordHit(env, version, ids, keys, w, y);
        assert forall d :: d in all ==> d in done || d == w;
      }
      if HitsAll(env, version, ids, all, y) {
        assert forall d :: d in done ==> d in all;
        assert w in all;
        WordHitIsKeyed(env, version, ids, prev, w, y);
      }
    }
  }

  lemma {:induction false} NarrowFrom(env: Env, version: Version, ids: set<int>, done: seq<string>,
                                      words: seq<string>, prev: seq<int>)
    requires AriLaws(env) && Addressable(version)
    requires done != [] && forall d :: d in done + words ==> Scannable(env, d)
    requires StrictlyAscending(prev)
    requires forall y :: y in prev <==> HitsAll(env, version, ids, done, y)
    ensures var r := Narrow(env, version, Some(ids), words, Some(prev));
      && r.Some? && StrictlyAscending(r.value)
      && forall y :: y in r.value <==> HitsAll(env, version, ids, done + words, y)
    decreases |words|
  {
    if words == [] {
      assert done + words == done;
    } else {
      var w := words[0];
      assert forall d :: d in done ==> d in done + words;
      assert w in done + words;
      NarrowStep(env, version, ids, done, w, prev);
      var next := MergeJoin(prev, InsideHits(env, version, w, Some(prev), Some(ids)));
      assert done + [w] + words[1..] == done + words;
      NarrowFrom(env, version, ids, done + [w], words[1..], next);
    }
  }

  /**
   * Narrowing from the selected books: the result is ascending and holds exactly the
   * verse addresses that are hits of every word.
   */
  lemma NarrowMeaning(env: Env, version: Version, ids: set<int>, words: seq<string>)
    requires AriLaws(env) && Addressable(version)
    requires words != [] && forall w :: w in words ==> Scannable(env, w)
    ensures var r := Narrow(env, version, Some(ids), words, None);
      && r.Some? && StrictlyAscending(r.value)
      && forall x :: x in r.value <==> HitsAll(env, version, ids, words, x)
  {
    var w := words[0];
    assert w in words;
    var word, hasPlus := Bare(env, w), env.isPlussedToken(w);
    var first := BooksHits(env, version, ids, word, hasPlus, 0);
    BooksHitsAscending(env, version, ids, word, hasPlus, 0);
    forall y
      ensures y in first <==> HitsAll(env, version, ids, [w], y)
    {
      BooksHitsMembers(env, version, ids, word, hasPlus, y);
      assert forall d :: d in [w] <==> d == w;
      assert HitsAll(env, version, ids, [w], y) <==> WordHit(env, version, ids, w, y);
    }
    assert [w] + words[1..] == words;
    NarrowFrom(env, version, ids, [w], words[1..], first);
  }

  /**
   * `searchByGrep` on a query with words and selected books returns, in ascending
   * order, exactly the verse addresses where every token of the query is found.
   */
  lemma SearchByGrepMeaning(env: Env, version: Version, query: Query, x: int)
    requires AriLaws(env) && Addressable(version)
    requires forall w :: w in env.tokenize(query.queryString) ==> Scannable(env, w)
    requires |env.tokenize(query.queryString)| > 0 && query.bookIds.Some?
    ensures var tokens := env.tokenize(query.queryString);
      var r := Narrow(env, version, query.bookIds, SearchWords(tokens), None);
      && r.Some? && StrictlyAscending(r.value)
      && (x in r.value <==> HitsAll(env, version, query.bookIds.value, tokens, x))
  {
    var tokens := env.tokenize(query.queryString);
    SearchWordsMeaning(tokens);
    NarrowMeaning(env, version, query.bookIds.value, SearchWords(tokens));
  }
}
