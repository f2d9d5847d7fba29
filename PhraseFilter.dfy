/**
 * The last pass of `searchByRevIndex`: the index knows single words only, so an
 * address found for the words of a phrase is kept only if the phrase itself
 * occurs in the verse text.  Chapters are loaded one at a time and reused while
 * consecutive addresses stay in the same book-chapter.
 */
module PhraseFilter {
  import opened Wrappers
  import opened Collaborators
  import opened TextSearch
  import opened SortedSets

  /** One phrase, plus stripped, occurs in the verse: as a whole word when plussed, as a substring otherwise. */
  ghost predicate PhraseOccurs(env: Env, text: string, phrase: string)
  {
    var bare := env.tokenWithoutPlus(phrase);
    if env.isPlussedToken(phrase) then exists k :: WholeWordAt(env.isLetter, text, bare, k)
    else exists k :: MatchesAt(text, bare, k)
  }

  ghost predicate AllPhrasesOccur(env: Env, text: string, phrases: seq<string>)
  {
    forall p :: p in phrases ==> PhraseOccurs(env, text, p)
  }

  /**
   * The test of one phrase against a verse: whether the search finds it, or `None`
   * when the whole-word search for it never returns.
   */
  function PhraseCheck(env: Env, text: string, phrase: string): Option<bool>
  {
    var bare := env.tokenWithoutPlus(phrase);
    if env.isPlussedToken(phrase) then
      var found := WholeWordLookup(env.isLetter, text, bare, 0);
      if found.Endless? then None else Some(found.pos >= 0)
    else Some(Contains(text, bare))
  }

  /**
   * A phrase passes exactly when it occurs; the test never returns exactly for a
   * plussed phrase that is empty once stripped and finds no boundary in the verse.
   */
  lemma PhraseCheckMeans(env: Env, text: string, phrase: string)
    ensures PhraseCheck(env, text, phrase) == Some(true) <==> PhraseOccurs(env, text, phrase)
    ensures PhraseCheck(env, text, phrase).None? <==>
      env.isPlussedToken(phrase) && env.tokenWithoutPlus(phrase) == "" && !PhraseOccurs(env, text, phrase)
  {
    var bare := env.tokenWithoutPlus(phrase);
    if env.isPlussedToken(phrase) {
      WholeWordLookupMeans(env.isLetter, text, bare, 0);
      assert forall k :: WholeWordAt(env.isLetter, text, bare, k) ==> 0 <= k;
    } else {
      ContainsMeansMatch(text, bare);
    }
  }

  /**
   * The phrase loop on one verse: true when every phrase passes, false at the first
   * one that fails, `None` when the search for a phrase before that never returns.
   */
  function VerseVerdict(env: Env, text: string, phrases: seq<string>): Option<bool>
    decreases |phrases|
  {
    if phrases == [] then Some(true)
    else
      var c := PhraseCheck(env, text, phrases[0]);
      if c == Some(true) then VerseVerdict(env, text, phrases[1..]) else c
  }

  /** The verse passes exactly when every phrase occurs in it. */
  lemma {:induction false} VerseVerdictPasses(env: Env, text: string, phrases: seq<string>)
    ensures VerseVerdict(env, text, phrases) == Some(true) <==> AllPhrasesOccur(env, text, phrases)
    decreases |phrases|
  {
    if phrases != [] {
      VerseVerdictPasses(env, text, phrases[1..]);
      PhraseCheckMeans(env, text, phrases[0]);
      assert forall p :: p in phrases <==> p == phrases[0] || p in phrases[1..];
    }
  }

  /** The search for phrase `i` never returns, and every phrase before it passes. */
  predicate HangsAt(env: Env, text: string, phrases: seq<string>, i: int)
  {
    && 0 <= i < |phrases|
    && PhraseCheck(env, text, phrases[i]).None?
    && forall j :: 0 <= j < i ==> PhraseCheck(env, text, phrases[j]) == Some(true)
  }

  lemma HangsAtTail(env: Env, text: string, phrases: seq<string>, i: int)
    requires phrases != [] && PhraseCheck(env, text, phrases[0]) == Some(true)
    ensures HangsAt(env, text, phrases, i + 1) <==> HangsAt(env, text, phrases[1..], i)
  {
    if 0 <= i < |phrases| - 1 {
      assert forall j :: 0 <= j < i ==> phrases[1..][j] == phrases[j + 1];
    }
  }

  /** The loop never returns exactly when some phrase's search never returns and every phrase before it passes. */
  lemma {:induction false} VerseVerdictHangs(env: Env, text: string, phrases: seq<string>)
    ensures VerseVerdict(env, text, phrases).None? <==> exists i :: HangsAt(env, text, phrases, i)
    decreases |phrases|
  {
    if phrases != [] {
      var c := PhraseCheck(env, text, phrases[0]);
      if c == Some(true) {
        VerseVerdictHangs(env, text, phrases[1..]);
        if exists i :: HangsAt(env, text, phrases[1..], i) {
          var i :| HangsAt(env, text, phrases[1..], i);
          HangsAtTail(env, text, phrases, i);
        }
        if exists i :: HangsAt(env, text, phrases, i) {
          var i :| HangsAt(env, text, phrases, i);
          HangsAtTail(env, text, phrases, i - 1);
        }
      } else if c.None? {
        assert HangsAt(env, text, phrases, 0);
      } else {
        assert forall i :: !HangsAt(env, text, phrases, i) by {
          forall i | 0 < i < |phrases| ensures !HangsAt(env, text, phrases, i) {
            assert 0 <= 0 < i;
          }
        }
      }
    }
  }

  /** A plussed phrase that keeps a character once its plus is stripped. */
  predicate AllSearchable(env: Env, phrases: seq<string>)
  {
    forall p :: p in phrases ==> Searchable(env, p)
  }

  /** When no plussed phrase is empty once stripped, the loop on a verse always returns. */
  lemma {:induction false} SearchableVerdict(env: Env, text: string, phrases: seq<string>)
    requires AllSearchable(env, phrases)
    ensures VerseVerdict(env, text, phrases).Some?
    decreases |phrases|
  {
    if phrases != [] {
      assert phrases[0] in phrases;
      assert forall p :: p in phrases[1..] ==> p in phrases;
      PhraseCheckMeans(env, text, phrases[0]);
      SearchableVerdict(env, text, phrases[1..]);
    }
  }

  /** `multiwords_bare` and `multiwords_plussed`: each phrase split into its bare text and its plus. */
  method SplitPlusses(env: Env, phrases: seq<string>) returns (bares: array<string>, plussed: array<bool>)
    ensures fresh(bares) && fresh(plussed) && bares.Length == plussed.Length == |phrases|
    ensures forall j :: 0 <= j < |phrases| ==>
      bares[j] == env.tokenWithoutPlus(phrases[j]) && plussed[j] == env.isPlussedToken(phrases[j])
  {
    bares := new string[|phrases|](_ => "");
    plussed := new bool[|phrases|](_ => false);
    for j := 0 to |phrases|
      invariant forall k :: 0 <= k < j ==>
        bares[k] == env.tokenWithoutPlus(phrases[k]) && plussed[k] == env.isPlussedToken(phrases[k])
    {
      bares[j] := env.tokenWithoutPlus(phrases[j]);
      plussed[j] := env.isPlussedToken(phrases[j]);
    }
  }

  /**
   * The inner loop: stops at the first phrase the verse lacks.  `None` stands for a
   * whole-word search that never returns, where the source hangs.
   */
  method PassesPhrases(env: Env, text: string, phrases: seq<string>, bares: array<string>, plussed: array<bool>)
    returns (passed: Option<bool>)
    requires bares.Length == plussed.Length == |phrases|
    requires forall j :: 0 <= j < |phrases| ==>
      bares[j] == env.tokenWithoutPlus(phrases[j]) && plussed[j] == env.isPlussedToken(phrases[j])
    ensures passed == VerseVerdict(env, text, phrases)
  {
    for j := 0 to |phrases|
      invariant VerseVerdict(env, text, phrases[j..]) == VerseVerdict(env, text, phrases)
    {
      assert phrases[j..][0] == phrases[j] && phrases[j..][1..] == phrases[j + 1..];
      var bare := bares[j];
      var missing;
      if plussed[j] {
        var at := IndexOfWholeWord(env.isLetter, text, bare, 0);
        if at.Endless? {
          return None;
        }
        missing := at.pos < 0;
      } else {
        missing := !Contains(text, bare);
      }
      if missing {
        return Some(false);
      }
    }
    assert phrases[|phrases|..] == [];
    return Some(true);
  }

  /** How the phrase pass ends: with the addresses kept, in a `NullPointerException`, or never. */
  datatype PassEnd = Done(aris: seq<int>) | Crashed | Hung

  /** The addresses kept so far in front of whatever the rest yields; a crash or a hang stays one. */
  function PrependKept(kept: seq<int>, rest: PassEnd): PassEnd
  {
    if rest.Done? then Done(kept + rest.aris) else rest
  }

  /**
   * The chapter held after moving to `ari`: its own chapter, loaded afresh when its
   * book-chapter differs from the one held and its book exists; otherwise the one
   * held, even if it belongs to another book-chapter.
   */
  function NextChapter(env: Env, version: Version, ari: int, loaded: Option<seq<string>>, loadedCv: int): (Option<seq<string>>, int)
  {
    var cv := env.toBookChapter(ari);
    if cv != loadedCv && GetBook(version.books, env.toBook(ari)).Some? then
      (ChapterVerses(version, env.toBook(ari), env.toChapter(ari)), cv)
    else (loaded, loadedCv)
  }

  /** The chapter-switching step of the loop. */
  method SwitchChapter(env: Env, version: Version, ari: int, loaded: Option<seq<string>>, loadedCv: int)
    returns (chapter: Option<seq<string>>, chapterCv: int)
    ensures (chapter, chapterCv) == NextChapter(env, version, ari, loaded, loadedCv)
  {
    chapter, chapterCv := loaded, loadedCv;
    var ariCv := env.toBookChapter(ari);
    if ariCv != loadedCv {
      var book := GetBook(version.books, env.toBook(ari));
      if book.Some? {
        chapter := ChapterVerses(version, book.value.bookId, env.toChapter(ari));
        chapterCv := ariCv;
      }
    }
  }

  /** What one address does to the pass: its address is kept or dropped, or the pass ends there. */
  datatype Step = Keep | Drop | Stop(end: PassEnd)

  /**
   * The step for verse `v` of the chapter held: dropped when the verse number is out
   * of range, kept when its text passes every phrase.  Asking a chapter that is not
   * there for its verse count is the `NullPointerException`, `Crashed`; a verse on
   * which the phrase loop never returns ends the pass in `Hung`.
   */
  function VerseStep(env: Env, chapter: Option<seq<string>>, v: int, phrases: seq<string>): Step
  {
    if v < 1 then Drop
    else if chapter.None? then Stop(Crashed)
    else if v > |chapter.value| then Drop
    else
      var verdict := VerseVerdict(env, chapter.value[v - 1], phrases);
      if verdict.None? then Stop(Hung)
      else if verdict.value then Keep
      else Drop
  }

  /**
   * The phrase pass from the address list on, with `loaded` the chapter currently
   * held (null is `None`) and `loadedCv` its book-chapter (0 before any load).
   * A chapter is (re)loaded when the book-chapter changes and the book exists;
   * otherwise the chapter held is kept, even one of another book-chapter.
   */
  function PhrasePass(env: Env, version: Version, aris: seq<int>, phrases: seq<string>,
                      loaded: Option<seq<string>>, loadedCv: int): PassEnd
    decreases |aris|
  {
    if aris == [] then Done([])
    else
      var (chapter, chapterCv) := NextChapter(env, version, aris[0], loaded, loadedCv);
      var rest := PhrasePass(env, version, aris[1..], phrases, chapter, chapterCv);
      match VerseStep(env, chapter, env.toVerse(aris[0]), phrases)
      case Keep => PrependKept([aris[0]], rest)
      case Drop => rest
      case Stop(end) => end
  }

  /** The phrase pass only ever drops addresses, keeping the order of the rest. */
  lemma {:induction false} PhrasePassSubsequence(env: Env, version: Version, aris: seq<int>, phrases: seq<string>,
                                                  loaded: Option<seq<string>>, loadedCv: int)
    ensures var r := PhrasePass(env, version, aris, phrases, loaded, loadedCv);
      r.Done? ==> IsSubsequence(r.aris, aris)
    decreases |aris|
  {
    if aris != [] {
      var ari := aris[0];
      var (chapter, chapterCv) := NextChapter(env, version, ari, loaded, loadedCv);
      PhrasePassSubsequence(env, version, aris[1..], phrases, chapter, chapterCv);
      var rest := PhrasePass(env, version, aris[1..], phrases, chapter, chapterCv);
      if rest.Done? {
        assert ([ari] + rest.aris)[1..] == rest.aris;
      }
    }
  }

  /** With no plussed phrase empty once stripped, the pass never hangs. */
  lemma {:induction false} SearchablePassEnds(env: Env, version: Version, aris: seq<int>, phrases: seq<string>,
                                              loaded: Option<seq<string>>, loadedCv: int)
    requires AllSearchable(env, phrases)
    ensures !PhrasePass(env, version, aris, phrases, loaded, loadedCv).Hung?
    decreases |aris|
  {
    if aris != [] {
      var (chapter, chapterCv) := NextChapter(env, version, aris[0], loaded, loadedCv);
      SearchablePassEnds(env, version, aris[1..], phrases, chapter, chapterCv);
      var v := env.toVerse(aris[0]);
      if v >= 1 && chapter.Some? && v <= |chapter.value| {
        SearchableVerdict(env, chapter.value[v - 1], phrases);
      }
    }
  }

  /** The verse an address names exists in its chapter and passes every phrase. */
  predicate VerseKept(env: Env, version: Version, ari: int, phrases: seq<string>)
  {
    var verses := ChapterVerses(version, env.toBook(ari), env.toChapter(ari));
    var v := env.toVerse(ari);
    verses.Some? && 1 <= v <= |verses.value| && VerseVerdict(env, verses.value[v - 1], phrases) == Some(true)
  }

  /** The verse an address names exists in its chapter, and the phrase loop on it never returns. */
  predicate VerseHangs(env: Env, version: Version, ari: int, phrases: seq<string>)
  {
    var verses := ChapterVerses(version, env.toBook(ari), env.toChapter(ari));
    var v := env.toVerse(ari);
    verses.Some? && 1 <= v <= |verses.value| && VerseVerdict(env, verses.value[v - 1], phrases).None?
  }

  ghost predicate AnyHangs(env: Env, version: Version, aris: seq<int>, phrases: seq<string>)
  {
    exists a :: a in aris && VerseHangs(env, version, a, phrases)
  }

  lemma AnyHangsCons(env: Env, version: Version, aris: seq<int>, phrases: seq<string>)
    requires aris != []
    ensures AnyHangs(env, version, aris, phrases) <==>
      VerseHangs(env, version, aris[0], phrases) || AnyHangs(env, version, aris[1..], phrases)
  {
    assert forall a :: a in aris <==> a == aris[0] || a in aris[1..];
  }

  /** The addresses whose verse is kept, in order: what the pass computes when every chapter is at hand. */
  function Kept(env: Env, version: Version, aris: seq<int>, phrases: seq<string>): seq<int>
  {
    if aris == [] then []
    else (if VerseKept(env, version, aris[0], phrases) then [aris[0]] else []) + Kept(env, version, aris[1..], phrases)
  }

  /** Book-chapter numbers identify the book and the chapter. */
  ghost predicate BookChapterLaws(env: Env)
  {
    forall a, b :: env.toBookChapter(a) == env.toBookChapter(b) ==>
      env.toBook(a) == env.toBook(b) && env.toChapter(a) == env.toChapter(b)
  }

  /** The address names a book of the version and a chapter it can load, and never book-chapter 0. */
  predicate Loadable(env: Env, version: Version, ari: int)
  {
    && env.toBookChapter(ari) != 0
    && GetBook(version.books, env.toBook(ari)).Some?
    && ChapterVerses(version, env.toBook(ari), env.toChapter(ari)).Some?
  }

  predicate AllLoadable(env: Env, version: Version, aris: seq<int>)
  {
    forall a :: a in aris ==> Loadable(env, version, a)
  }

  /** The pass keeps exactly the listed addresses whose verse is kept. */
  lemma {:induction false} KeptMembers(env: Env, version: Version, aris: seq<int>, phrases: seq<string>, x: int)
    ensures x in Kept(env, version, aris, phrases) <==> x in aris && VerseKept(env, version, x, phrases)
  {
    if aris != [] {
      KeptMembers(env, version, aris[1..], phrases, x);
      assert forall y :: y in aris <==> y == aris[0] || y in aris[1..];
    }
  }

  /**
   * When every address is loadable, the pass never crashes: it hangs exactly when
   * the phrase loop hangs on the verse of some address, and otherwise keeps exactly
   * the addresses whose verse passes every phrase.  Reusing the chapter held is then
   * the same as loading the address's own chapter.
   */
  lemma {:induction false} PhrasePassKept(env: Env, version: Version, aris: seq<int>, phrases: seq<string>,
                                          loaded: Option<seq<string>>, loadedCv: int, from: int)
    requires BookChapterLaws(env) && AllLoadable(env, version, aris)
    requires loadedCv == 0 ||
      (loadedCv == env.toBookChapter(from) && loaded == ChapterVerses(version, env.toBook(from), env.toChapter(from)))
    ensures PhrasePass(env, version, aris, phrases, loaded, loadedCv) ==
      if AnyHangs(env, version, aris, phrases) then Hung else Done(Kept(env, version, aris, phrases))
    decreases |aris|
  {
    if aris != [] {
      var ari := aris[0];
      assert ari in aris;
      var (chapter, chapterCv) := NextChapter(env, version, ari, loaded, loadedCv);
      if env.toBookChapter(ari) == loadedCv {
        assert loadedCv != 0;
        assert env.toBook(from) == env.toBook(ari) && env.toChapter(from) == env.toChapter(ari);
      }
      assert chapter == ChapterVerses(version, env.toBook(ari), env.toChapter(ari));
      assert forall a :: a in aris[1..] ==> a in aris;
      PhrasePassKept(env, version, aris[1..], phrases, chapter, chapterCv, ari);
      AnyHangsCons(env, version, aris, phrases);
      var rest := Kept(env, version, aris[1..], phrases);
      assert Kept(env, version, aris, phrases) == (if VerseKept(env, version, ari, phrases) then [ari] else []) + rest;
      if !VerseKept(env, version, ari, phrases) {
        assert [] + rest == rest;
      }
    }
  }

  /** `res2` and the phrase loop of `searchByRevIndex`. */
  method FilterPhrases(env: Env, version: Version, aris: seq<int>, phrases: seq<string>) returns (r: PassEnd)
    ensures r == PhrasePass(env, version, aris, phrases, None, 0)
  {
    var bares, plussed := SplitPlusses(env, phrases);
    var res2: seq<int> := [];
    var loadedChapter: Option<seq<string>> := None;
    var loadedAriCv := 0;
    assert aris[0..] == aris;
    assert PrependKept([], PhrasePass(env, version, aris, phrases, None, 0)) == PhrasePass(env, version, aris, phrases, None, 0) by {
      var r := PhrasePass(env, version, aris, phrases, None, 0);
      if r.Done? {
        assert [] + r.aris == r.aris;
      }
    }
    for i := 0 to |aris|
      modifies {}
      invariant PrependKept(res2, PhrasePass(env, version, aris[i..], phrases, loadedChapter, loadedAriCv))
             == PhrasePass(env, version, aris, phrases, None, 0)
    {
      ghost var (before, chapterBefore, cvBefore) := (res2, loadedChapter, loadedAriCv);
      var ari := aris[i];
      loadedChapter, loadedAriCv := SwitchChapter(env, version, ari, loadedChapter, loadedAriCv);
      var verse1 := env.toVerse(ari);
      if verse1 >= 1 {
        if loadedChapter.None? {
          PhrasePassStep(env, version, aris[i..], phrases, chapterBefore, cvBefore, before);
          return Crashed;
        }
        if verse1 <= |loadedChapter.value| {
          var text := loadedChapter.value[verse1 - 1];
          var passed := PassesPhrases(env, text, phrases, bares, plussed);
          if passed.None? {
            PhrasePassStep(env, version, aris[i..], phrases, chapterBefore, cvBefore, before);
            return Hung;
          }
          if passed.value {
            res2 := res2 + [ari];
          }
        }
      }
      PhrasePassStep(env, version, aris[i..], phrases, chapterBefore, cvBefore, before);
      assert aris[i..][1..] == aris[i + 1..];
    }
    assert aris[|aris|..] == [] && res2 + [] == res2;
    r := Done(res2);
  }

  /** One address of the pass, as the loop takes it. */
  lemma PhrasePassStep(env: Env, version: Version, aris: seq<int>, phrases: seq<string>,
                       loaded: Option<seq<string>>, loadedCv: int, kept: seq<int>)
    requires aris != []
    ensures var (chapter, chapterCv) := NextChapter(env, version, aris[0], loaded, loadedCv);
      var rest := PhrasePass(env, version, aris[1..], phrases, chapter, chapterCv);
      var step := VerseStep(env, chapter, env.toVerse(aris[0]), phrases);
      PrependKept(kept, PhrasePass(env, version, aris, phrases, loaded, loadedCv)) ==
        if step.Stop? then step.end
        else PrependKept(if step.Keep? then kept + [aris[0]] else kept, rest)
  {
    var (chapter, chapterCv) := NextChapter(env, version, aris[0], loaded, loadedCv);
    var rest := PhrasePass(env, version, aris[1..], phrases, chapter, chapterCv);
    if rest.Done? {
      assert kept + ([aris[0]] + rest.aris) == (kept + [aris[0]]) + rest.aris;
    }
  }
}
