/**
 * `searchByRevIndex`: the search through the reverse index, put together from its
 * passes (loading, retokenizing, the book scope, the bitmaps, the conversion to
 * addresses and the phrase check), with the fall-back to `searchByGrep` when no
 * index can be loaded.  Its result is specified by one function of the query and
 * the index, and the lemmas below say what that function keeps: the addresses of
 * the verses whose rows every word hits, in the selected books, whose text then
 * contains every phrase.
 */
module IndexedSearch {
  import opened Wrappers
  import opened Collaborators
  import opened SortedSets
  import opened TextSearch
  import opened RevIndexFormat
  import opened RevIndexLoader
  import opened IndexedQuery
  import opened LidBitmap
  import opened PhraseFilter
  import opened GrepChapter
  import opened QueryWords
  import opened GrepSearch
  import opened GrepNarrowing

  /**
   * How a search ends: with its address list, with the `null` of the grep fall-back,
   * in a `NullPointerException`, or never (a phrase search that does not return).
   */
  datatype Outcome = Aris(aris: seq<int>) | Null | Crash | Hang

  /** The index `loadRevIndex` hands back: the cached one, else the asset decoded, else none. */
  function LoadedIndex(cached: Option<RevIndex>, asset: Option<seq<Byte>>): Option<RevIndex>
  {
    if cached.Some? then cached else if asset.None? then None else DecodeRevIndex(asset.value)
  }

  /** Every one of the 66 books is selected, so the book check is skipped. */
  predicate WholeBible(bookIds: Option<set<int>>)
  {
    forall b :: 0 <= b < 66 ==> InScope(bookIds, b)
  }

  /** `searchedBookIds` as a sequence. */
  function Scope(bookIds: Option<set<int>>): seq<bool>
  {
    seq(66, b => InScope(bookIds, b))
  }

  /** Every row of the lid table names one of the 66 books, or none. */
  predicate LidBooksFit(env: Env)
  {
    forall lid :: 0 <= lid < LidLimit ==> env.bookIdForLid(lid) < 66
  }

  /** Every phrase of the query has something left once its plus is stripped. */
  predicate PhrasesSearchable(env: Env, query: Query)
  {
    forall t :: t in env.tokenize(query.queryString) && env.isMultiwordToken(t) ==> Searchable(env, t)
  }

  /**
   * What the index pass needs to stay within its arrays: every stored lid is a
   * bitmap row, and the book table stays within the 66 flags when they are consulted.
   */
  predicate IndexReady(env: Env, query: Query, index: RevIndex)
  {
    && LidsFit(index)
    && (!WholeBible(query.bookIds) ==> LidBooksFit(env))
  }

  /**
   * What the grep fall-back needs: when a book selection is given, no token stripped
   * to nothing (without one, no chapter is ever scanned).
   */
  predicate GrepReady(env: Env, query: Query)
  {
    query.bookIds.Some? ==> forall w :: w in env.tokenize(query.queryString) ==> Scannable(env, w)
  }

  /**
   * `searchByGrep` on a query with tokens and a null book selection: the first word's
   * book loop asks the null selection about the first book and throws.  With no book
   * at all, the first word finds nothing, every later word scans an empty list, and
   * the result is empty.
   */
  function UnselectedGrep(version: Version): Outcome
  {
    if version.books == [] then Aris([]) else Crash
  }

  predicate CanSearch(env: Env, query: Query, index: Option<RevIndex>)
  {
    if index.Some? then IndexReady(env, query, index.value) else GrepReady(env, query)
  }

  /** The AND bitmap after every lookup token: a row survives when each token hits it. */
  ghost function Survivors(env: Env, index: RevIndex, tokens: seq<string>): seq<bool>
  {
    seq(LidLimit, lid => forall t :: t in tokens ==> LidHit(env, index, t, lid))
  }

  /** The address list before the phrase check. */
  ghost function IndexedAris(env: Env, query: Query, index: RevIndex): seq<int>
    requires IndexReady(env, query, index)
  {
    var tokens := Retokenized(env, query.queryString).0;
    Converted(env, Survivors(env, index, tokens), Scope(query.bookIds), WholeBible(query.bookIds), 0)
  }

  /** The outcome of the index pass: the address list, filtered by the phrases when there are any. */
  ghost function IndexedOutcome(env: Env, version: Version, query: Query, index: RevIndex): Outcome
    requires IndexReady(env, query, index)
  {
    var phrases := Retokenized(env, query.queryString).1;
    var aris := IndexedAris(env, query, index);
    if phrases.None? then Aris(aris)
    else PassOutcome(PhrasePass(env, version, aris, phrases.value, None, 0))
  }

  /** The end of the phrase pass as the end of the search. */
  function PassOutcome(r: PassEnd): Outcome
  {
    match r
    case Done(kept) => Aris(kept)
    case Crashed => Crash
    case Hung => Hang
  }

  /** The phrases of the query, in the order the phrase pass tests them (none when there are none). */
  function QueryPhrases(env: Env, query: Query): seq<string>
  {
    var phrases := Retokenized(env, query.queryString).1;
    if phrases.Some? then phrases.value else []
  }

  /** The outcome of `searchByRevIndex` given the index it loads, if any. */
  ghost function SearchOutcome(env: Env, version: Version, query: Query, index: Option<RevIndex>): Outcome
    requires CanSearch(env, query, index)
  {
    if index.Some? then IndexedOutcome(env, version, query, index.value)
    else
      var tokens := env.tokenize(query.queryString);
      if |tokens| > 0 && query.bookIds.None? then UnselectedGrep(version)
      else
        SearchWordsMeaning(tokens);
        var r := Narrow(env, version, query.bookIds, SearchWords(tokens), None);
        if r.Some? then Aris(r.value) else Null
  }

  /**
   * `searchByRevIndex(version, query)`, with the process-wide cache and the index
   * asset (`None` when it cannot be opened) passed in.  The cache ends up holding
   * the index loaded, and the outcome is the one specified for that index.
   */
  method SearchByRevIndex(env: Env, version: Version, query: Query, cache: RevIndexCache, asset: Option<seq<Byte>>)
    returns (result: Outcome)
    requires CanSearch(env, query, LoadedIndex(cache.cached, asset))
    modifies cache
    ensures cache.cached == LoadedIndex(old(cache.cached), asset)
    ensures result == SearchOutcome(env, version, query, LoadedIndex(old(cache.cached), asset))
  {
    var loaded := cache.Load(asset);
    if loaded.None? {
      if |env.tokenize(query.queryString)| > 0 && query.bookIds.None? {
        result := UnselectedGrep(version);
        return;
      }
      var r := SearchByGrep(env, version, query);
      result := if r.Some? then Aris(r.value) else Null;
      return;
    }
    var index := loaded.value;
    var tokens, multiwords := Retokenize(env, query.queryString);
    var searched, whole := SearchedBooks(query.bookIds);
    assert searched[..] == Scope(query.bookIds);
    assert whole == WholeBible(query.bookIds);
    var passAnd := MatchTokens(env, index, tokens);
    assert passAnd[..] == Survivors(env, index, tokens);
    var res := ConvertLids(env, passAnd, searched, whole);
    if multiwords.None? {
      return Aris(res);
    }
    var r := FilterPhrases(env, version, res, multiwords.value);
    result := PassOutcome(r);
  }

  /**
   * With no index, the search is `searchByGrep`: null exactly when the query has no
   * token, a crash exactly when it has tokens, no book selection and the version has a
   * book, never a hang; with a selection, under the address laws, exactly the ascending
   * addresses hit by every token.
   */
  lemma FallbackMeaning(env: Env, version: Version, query: Query, x: int)
    requires GrepReady(env, query)
    ensures var o := SearchOutcome(env, version, query, None);
      var tokens := env.tokenize(query.queryString);
      && (o.Null? <==> |tokens| == 0)
      && (o.Crash? <==> |tokens| > 0 && query.bookIds.None? && version.books != [])
      && !o.Hang?
      && (o.Aris? && query.bookIds.None? ==> o.aris == [])
      && (|tokens| > 0 && query.bookIds.Some? && AriLaws(env) && Addressable(version) ==>
            o.Aris? && StrictlyAscending(o.aris) && (x in o.aris <==> HitsAll(env, version, query.bookIds.value, tokens, x)))
  {
    var tokens := env.tokenize(query.queryString);
    SearchWordsMeaning(tokens);
    if !(|tokens| > 0 && query.bookIds.None?) {
      NarrowResult(env, version, query.bookIds, SearchWords(tokens));
      if |tokens| > 0 && AriLaws(env) && Addressable(version) {
        SearchByGrepMeaning(env, version, query, x);
      }
    }
  }

  /** A row every word of every token hits, a phrase contributing each of its words. */
  ghost predicate RowMatches(env: Env, index: RevIndex, query: Query, lid: int)
  {
    forall t :: t in env.tokenize(query.queryString) ==>
      forall w :: w in Expand(env, t) ==> LidHit(env, index, w, lid)
  }

  /** The address of a matching row in a selected book (any row when all books are selected). */
  ghost predicate Matched(env: Env, index: RevIndex, query: Query, x: int)
  {
    exists lid :: 0 <= lid < LidLimit && RowMatches(env, index, query, lid)
      && (WholeBible(query.bookIds) || (env.bookIdForLid(lid) >= 0 && InScope(query.bookIds, env.bookIdForLid(lid))))
      && env.lidToAri(lid) == x && x > 0
  }

  /** The lookup tokens hit a row exactly when every word of every query token does. */
  lemma SurvivorsMeaning(env: Env, index: RevIndex, query: Query, lid: int)
    requires 0 <= lid < LidLimit
    ensures Survivors(env, index, Retokenized(env, query.queryString).0)[lid] <==> RowMatches(env, index, query, lid)
  {
    RetokenizedMeaning(env, query.queryString);
    var tokens := Retokenized(env, query.queryString).0;
    if RowMatches(env, index, query, lid) {
      forall t | t in tokens
        ensures LidHit(env, index, t, lid)
      {
        var raw :| raw in env.tokenize(query.queryString) && t in Expand(env, raw);
      }
    }
  }

  /** Before the phrase check, an address is listed exactly when it is matched. */
  lemma {:induction false} IndexedArisMembers(env: Env, query: Query, index: RevIndex, x: int)
    requires IndexReady(env, query, index)
    ensures x in IndexedAris(env, query, index) <==> Matched(env, index, query, x)
  {
    if x in IndexedAris(env, query, index) {
      IndexedArisSound(env, query, index, x);
    }
    if Matched(env, index, query, x) {
      IndexedArisComplete(env, query, index, x);
    }
  }

  lemma IndexedArisSound(env: Env, query: Query, index: RevIndex, x: int)
    requires IndexReady(env, query, index) && x in IndexedAris(env, query, index)
    ensures Matched(env, index, query, x)
  {
    var tokens := Retokenized(env, query.queryString).0;
    var pass := Survivors(env, index, tokens);
    var searched, whole := Scope(query.bookIds), WholeBible(query.bookIds);
    ConvertedMembers(env, pass, searched, whole, 0, x);
    var lid :| 0 <= lid < |pass| && pass[lid] && InSearchedBook(env, searched, whole, lid) &&
               env.lidToAri(lid) > 0 && env.lidToAri(lid) == x;
    SurvivorsMeaning(env, index, query, lid);
  }

  lemma IndexedArisComplete(env: Env, query: Query, index: RevIndex, x: int)
    requires IndexReady(env, query, index) && Matched(env, index, query, x)
    ensures x in IndexedAris(env, query, index)
  {
    var tokens := Retokenized(env, query.queryString).0;
    var pass := Survivors(env, index, tokens);
    var searched, whole := Scope(query.bookIds), WholeBible(query.bookIds);
    ConvertedMembers(env, pass, searched, whole, 0, x);
    var lid :| 0 <= lid < LidLimit && RowMatches(env, index, query, lid)
      && (whole || (env.bookIdForLid(lid) >= 0 && InScope(query.bookIds, env.bookIdForLid(lid))))
      && env.lidToAri(lid) == x && x > 0;
    SurvivorsMeaning(env, index, query, lid);
    assert pass[lid] && InSearchedBook(env, searched, whole, lid);
  }

  /**
   * Whatever the index pass lists is matched, and in ascending order
   * when the lid table maps rows to addresses in order; with no phrase in the query
   * it lists every matched address and never crashes; it never hangs when no
   * plussed phrase is empty once stripped.
   */
  lemma IndexedOutcomeSound(env: Env, version: Version, query: Query, index: RevIndex)
    requires IndexReady(env, query, index)
    ensures var o := IndexedOutcome(env, version, query, index);
      && (o.Aris? ==> forall x :: x in o.aris ==> Matched(env, index, query, x))
      && (o.Aris? && AriOrderFollowsLids(env) ==> StrictlyAscending(o.aris))
      && ((forall t :: t in env.tokenize(query.queryString) ==> !env.isMultiwordToken(t)) ==>
            o.Aris? && forall x :: x in o.aris <==> Matched(env, index, query, x))
      && (PhrasesSearchable(env, query) ==> !o.Hang?)
      && o != Null
  {
    RetokenizedMeaning(env, query.queryString);
    var phrases := Retokenized(env, query.queryString).1;
    var aris := IndexedAris(env, query, index);
    var o := IndexedOutcome(env, version, query, index);
    forall x
      ensures x in aris <==> Matched(env, index, query, x)
    {
      IndexedArisMembers(env, query, index, x);
    }
    if AriOrderFollowsLids(env) {
      var tokens := Retokenized(env, query.queryString).0;
      ConvertedAscending(env, Survivors(env, index, tokens), Scope(query.bookIds), WholeBible(query.bookIds), 0);
    }
    if phrases.Some? {
      PhrasePassSubsequence(env, version, aris, phrases.value, None, 0);
      if o.Aris? {
        SubsequenceMembers(o.aris, aris);
        if AriOrderFollowsLids(env) {
          SubsequenceOfAscending(o.aris, aris);
        }
      }
      if PhrasesSearchable(env, query) {
        SearchablePassEnds(env, version, aris, phrases.value, None, 0);
      }
    }
  }

  /** The verse an address names exists and contains every phrase of the query. */
  ghost predicate VerseHasPhrases(env: Env, version: Version, query: Query, x: int)
  {
    var verses := ChapterVerses(version, env.toBook(x), env.toChapter(x));
    var v := env.toVerse(x);
    && verses.Some? && 1 <= v <= |verses.value|
    && forall m :: m in env.tokenize(query.queryString) && env.isMultiwordToken(m) ==>
         PhraseOccurs(env, verses.value[v - 1], m)
  }

  /**
   * When every address the lid table yields can be loaded, the phrase check never
   * crashes.  It hangs exactly when the phrase loop hangs on the verse of some
   * matched address; otherwise it keeps exactly the matched addresses whose verse
   * contains every phrase.
   */
  lemma IndexedOutcomeWithPhrases(env: Env, version: Version, query: Query, index: RevIndex)
    requires IndexReady(env, query, index) && BookChapterLaws(env)
    requires forall lid :: 0 <= lid < LidLimit && env.lidToAri(lid) > 0 ==> Loadable(env, version, env.lidToAri(lid))
    requires exists t :: t in env.tokenize(query.queryString) && env.isMultiwordToken(t)
    ensures var o := IndexedOutcome(env, version, query, index);
      && (o.Hang? <==> exists x :: Matched(env, index, query, x) && VerseHangs(env, version, x, QueryPhrases(env, query)))
      && (!o.Hang? ==> o.Aris? && forall x :: x in o.aris <==> Matched(env, index, query, x) && VerseHasPhrases(env, version, query, x))
  {
    RetokenizedMeaning(env, query.queryString);
    var phrases := QueryPhrases(env, query);
    var aris := IndexedAris(env, query, index);
    assert IndexedOutcome(env, version, query, index) == PassOutcome(PhrasePass(env, version, aris, phrases, None, 0));
    forall a | a in aris
      ensures Loadable(env, version, a)
    {
      IndexedArisMembers(env, query, index, a);
    }
    PhrasePassKept(env, version, aris, phrases, None, 0, 0);
    IndexedPassHangs(env, version, query, index);
    forall x
      ensures x in Kept(env, version, aris, phrases) <==> Matched(env, index, query, x) && VerseHasPhrases(env, version, query, x)
    {
      KeptIsMatchedWithPhrases(env, version, query, index, x);
    }
  }

  /** Some listed address has a verse the phrase loop hangs on exactly when some matched one does. */
  lemma IndexedPassHangs(env: Env, version: Version, query: Query, index: RevIndex)
    requires IndexReady(env, query, index)
    ensures AnyHangs(env, version, IndexedAris(env, query, index), QueryPhrases(env, query)) <==>
      exists x :: Matched(env, index, query, x) && VerseHangs(env, version, x, QueryPhrases(env, query))
  {
    var aris := IndexedAris(env, query, index);
    var phrases := QueryPhrases(env, query);
    forall x
      ensures x in aris && VerseHangs(env, version, x, phrases) <==> Matched(env, index, query, x) && VerseHangs(env, version, x, phrases)
    {
      IndexedArisMembers(env, query, index, x);
    }
  }

  /** The query's phrases occur in a text exactly when those the pass tests all do. */
  lemma QueryPhrasesOccur(env: Env, query: Query, text: string)
    requires exists t :: t in env.tokenize(query.queryString) && env.isMultiwordToken(t)
    ensures AllPhrasesOccur(env, text, QueryPhrases(env, query)) <==>
      forall m :: m in env.tokenize(query.queryString) && env.isMultiwordToken(m) ==> PhraseOccurs(env, text, m)
  {
    RetokenizedMeaning(env, query.queryString);
  }

  /** The verse of an address passes the phrase loop exactly when it exists and contains every phrase of the query. */
  lemma VerseKeptMeans(env: Env, version: Version, query: Query, x: int)
    requires exists t :: t in env.tokenize(query.queryString) && env.isMultiwordToken(t)
    ensures VerseKept(env, version, x, QueryPhrases(env, query)) <==> VerseHasPhrases(env, version, query, x)
  {
    var verses := ChapterVerses(version, env.toBook(x), env.toChapter(x));
    var v := env.toVerse(x);
    if verses.Some? && 1 <= v <= |verses.value| {
      VerseVerdictPasses(env, verses.value[v - 1], QueryPhrases(env, query));
      QueryPhrasesOccur(env, query, verses.value[v - 1]);
    }
  }

  /** An address the pass keeps is a matched one whose verse has every phrase, and the other way round. */
  lemma KeptIsMatchedWithPhrases(env: Env, version: Version, query: Query, index: RevIndex, x: int)
    requires IndexReady(env, query, index)
    requires exists t :: t in env.tokenize(query.queryString) && env.isMultiwordToken(t)
    ensures x in Kept(env, version, IndexedAris(env, query, index), QueryPhrases(env, query)) <==>
      Matched(env, index, query, x) && VerseHasPhrases(env, version, query, x)
  {
    KeptMembers(env, version, IndexedAris(env, query, index), QueryPhrases(env, query), x);
    IndexedArisMembers(env, query, index, x);
    VerseKeptMeans(env, version, query, x);
  }
}
