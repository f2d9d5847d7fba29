/**
 * The query preparation of `searchByRevIndex`: the tokens are kept in insertion
 * order without repeats (`LinkedHashSet`), every multiword token (a quoted phrase)
 * is replaced by its words, carrying its plus over to each of them, and the
 * multiword tokens themselves are set aside for a final check on the verse text.
 * Also the book scope: one flag per canonical book.
 */
module IndexedQuery {
  import opened Wrappers
  import opened Collaborators

  predicate NoDuplicates(s: seq<string>)
  {
    forall i, j :: 0 <= i < j < |s| ==> s[i] != s[j]
  }

  /** `LinkedHashSet.add` of each of `xs` in turn: a new element goes last, a repeated one is ignored. */
  function AddAll(acc: seq<string>, xs: seq<string>): seq<string>
    decreases |xs|
  {
    if xs == [] then acc
    else AddAll(if xs[0] in acc then acc else acc + [xs[0]], xs[1..])
  }

  /** The set keeps no repeats, holds exactly what was added, and never moves an element already in it. */
  lemma {:induction false} AddAllMeans(acc: seq<string>, xs: seq<string>)
    requires NoDuplicates(acc)
    ensures NoDuplicates(AddAll(acc, xs))
    ensures forall x :: x in AddAll(acc, xs) <==> x in acc || x in xs
    ensures acc <= AddAll(acc, xs)
    decreases |xs|
  {
    if xs != [] {
      var next := if xs[0] in acc then acc else acc + [xs[0]];
      AddAllMeans(next, xs[1..]);
      assert forall x :: x in xs <==> x == xs[0] || x in xs[1..];
    }
  }

  /** Adding two lists one after the other is adding their concatenation. */
  lemma {:induction false} AddAllAppend(acc: seq<string>, xs: seq<string>, ys: seq<string>)
    ensures AddAll(acc, xs + ys) == AddAll(AddAll(acc, xs), ys)
    decreases |xs|
  {
    if xs != [] {
      assert (xs + ys)[0] == xs[0] && (xs + ys)[1..] == xs[1..] + ys;
      AddAllAppend(if xs[0] in acc then acc else acc + [xs[0]], xs[1..], ys);
    } else {
      assert xs + ys == ys;
    }
  }

  /** `add` called on a linked hash set for each of `xs` in turn. */
  method AddEach(acc: seq<string>, xs: seq<string>) returns (r: seq<string>)
    ensures r == AddAll(acc, xs)
  {
    r := acc;
    for k := 0 to |xs|
      invariant r == AddAll(acc, xs[..k])
    {
      AddAllAppend(acc, xs[..k], [xs[k]]);
      assert xs[..k + 1] == xs[..k] + [xs[k]];
      if xs[k] !in r {
        r := r + [xs[k]];
      }
    }
    assert xs[..|xs|] == xs;
  }

  /** Each word of a phrase, with a plus in front. */
  function WithPlus(parts: seq<string>): (r: seq<string>)
    ensures |r| == |parts| && forall i :: 0 <= i < |r| ==> r[i] == "+" + parts[i]
  {
    if parts == [] then [] else ["+" + parts[0]] + WithPlus(parts[1..])
  }

  /** What one token contributes to the index lookup: its words if it is a phrase, otherwise itself. */
  function Expand(env: Env, token: string): seq<string>
  {
    if env.isMultiwordToken(token) then
      var parts := env.tokenizeMultiwordToken(env.tokenWithoutPlus(token));
      if env.isPlussedToken(token) then WithPlus(parts) else parts
    else [token]
  }

  function ExpandAll(env: Env, ts: seq<string>): seq<string>
  {
    if ts == [] then [] else ExpandAll(env, ts[..|ts| - 1]) + Expand(env, ts[|ts| - 1])
  }

  /** The phrases among the tokens, in order. */
  function Phrases(env: Env, ts: seq<string>): seq<string>
  {
    if ts == [] then []
    else Phrases(env, ts[..|ts| - 1]) + (if env.isMultiwordToken(ts[|ts| - 1]) then [ts[|ts| - 1]] else [])
  }

  lemma {:induction false} ExpandAllMembers(env: Env, ts: seq<string>, x: string)
    ensures x in ExpandAll(env, ts) <==> exists t :: t in ts && x in Expand(env, t)
  {
    if ts != [] {
      var init, last := ts[..|ts| - 1], ts[|ts| - 1];
      ExpandAllMembers(env, init, x);
      assert ts == init + [last];
      if x in Expand(env, last) {
        assert last in ts;
      }
      if exists t :: t in ts && x in Expand(env, t) {
        var t :| t in ts && x in Expand(env, t);
        if t != last {
          assert t in init;
        }
      }
    }
  }

  lemma {:induction false} PhrasesMembers(env: Env, ts: seq<string>)
    requires NoDuplicates(ts)
    ensures NoDuplicates(Phrases(env, ts))
    ensures forall m :: m in Phrases(env, ts) <==> m in ts && env.isMultiwordToken(m)
  {
    if ts != [] {
      var init, last := ts[..|ts| - 1], ts[|ts| - 1];
      assert ts == init + [last];
      assert NoDuplicates(init);
      PhrasesMembers(env, init);
      assert last !in init;
      assert forall m :: m in ts <==> m in init || m == last;
    }
  }

  /** The tokens looked up in the index and the phrases checked afterwards, from the raw tokens. */
  function Retokenized(env: Env, queryString: string): (seq<string>, Option<seq<string>>)
  {
    var tokenSet := AddAll([], env.tokenize(queryString));
    var phrases := Phrases(env, tokenSet);
    (AddAll([], ExpandAll(env, tokenSet)), if phrases == [] then None else Some(phrases))
  }

  /**
   * What retokenizing means: the lookup tokens are the words of all tokens, each
   * once; the phrases are the multiword tokens, each once, and are null when there
   * is none.
   */
  lemma RetokenizedMeaning(env: Env, queryString: string)
    ensures var (tokens, phrases) := Retokenized(env, queryString);
      && NoDuplicates(tokens)
      && (forall x :: x in tokens <==> exists t :: t in env.tokenize(queryString) && x in Expand(env, t))
      && (phrases.None? <==> forall t :: t in env.tokenize(queryString) ==> !env.isMultiwordToken(t))
      && (phrases.Some? ==> NoDuplicates(phrases.value))
      && (phrases.Some? ==>
            forall m :: m in phrases.value <==> m in env.tokenize(queryString) && env.isMultiwordToken(m))
  {
    var raw := env.tokenize(queryString);
    var tokenSet := AddAll([], raw);
    AddAllMeans([], raw);
    AddAllMeans([], ExpandAll(env, tokenSet));
    PhrasesMembers(env, tokenSet);
    forall x
      ensures x in AddAll([], ExpandAll(env, tokenSet)) <==> exists t :: t in raw && x in Expand(env, t)
    {
      ExpandAllMembers(env, tokenSet, x);
    }
    if Phrases(env, tokenSet) != [] {
      assert Phrases(env, tokenSet)[0] in Phrases(env, tokenSet);
    }
  }

  lemma RetokenizeStep(env: Env, ts: seq<string>, i: nat)
    requires i < |ts|
    ensures ExpandAll(env, ts[..i + 1]) == ExpandAll(env, ts[..i]) + Expand(env, ts[i])
    ensures Phrases(env, ts[..i + 1]) == Phrases(env, ts[..i]) + if env.isMultiwordToken(ts[i]) then [ts[i]] else []
    ensures !env.isMultiwordToken(ts[i]) ==> Expand(env, ts[i]) == [ts[i]]
    ensures forall acc :: AddAll(acc, [ts[i]]) == if ts[i] in acc then acc else acc + [ts[i]]
  {
    assert ts[..i + 1][..i] == ts[..i];
    forall acc
      ensures AddAll(acc, [ts[i]]) == if ts[i] in acc then acc else acc + [ts[i]]
    {
      assert [ts[i]][1..] == [];
    }
  }

  /**
   * The retokenization loops of `searchByRevIndex`: a first set from the raw
   * tokens, then the second set and the phrase list from the first set.
   */
  method Retokenize(env: Env, queryString: string) returns (tokens: seq<string>, multiwords: Option<seq<string>>)
    ensures (tokens, multiwords) == Retokenized(env, queryString)
  {
    var tokenSet := AddEach([], env.tokenize(queryString));
    var tokenSet2: seq<string> := [];
    var phrases: seq<string> := [];
    multiwords := None;
    for i := 0 to |tokenSet|
      invariant tokenSet2 == AddAll([], ExpandAll(env, tokenSet[..i]))
      invariant phrases == Phrases(env, tokenSet[..i])
      invariant multiwords == if phrases == [] then None else Some(phrases)
    {
      var token := tokenSet[i];
      RetokenizeStep(env, tokenSet, i);
      AddAllAppend([], ExpandAll(env, tokenSet[..i]), Expand(env, token));
      if env.isMultiwordToken(token) {
        phrases := phrases + [token];
        multiwords := Some(phrases);
        var plussed := env.isPlussedToken(token);
        var parts := env.tokenizeMultiwordToken(env.tokenWithoutPlus(token));
        tokenSet2 := AddEach(tokenSet2, if plussed then WithPlus(parts) else parts);
      } else {
        if token !in tokenSet2 {
          tokenSet2 := tokenSet2 + [token];
        }
      }
    }
    assert tokenSet[..|tokenSet|] == tokenSet;
    tokens := tokenSet2;
  }

  /** The book is searched: no selection was given, or it selects the book. */
  predicate InScope(bookIds: Option<set<int>>, bookId: int)
  {
    bookIds.None? || bookId in bookIds.value
  }

  /**
   * `searchedBookIds` and `wholeBibleSearched`: one flag per canonical book, and
   * whether every one of the 66 books is selected.
   */
  method SearchedBooks(bookIds: Option<set<int>>) returns (searched: array<bool>, whole: bool)
    ensures fresh(searched) && searched.Length == 66
    ensures forall b :: 0 <= b < 66 ==> searched[b] == InScope(bookIds, b)
    ensures whole <==> forall b :: 0 <= b < 66 ==> InScope(bookIds, b)
  {
    whole := true;
    searched := new bool[66](_ => true);
    if bookIds.Some? {
      for i := 0 to 66
        invariant forall b :: 0 <= b < i ==> searched[b] == InScope(bookIds, b)
        invariant forall b :: i <= b < 66 ==> searched[b]
        invariant whole <==> forall b :: 0 <= b < i ==> InScope(bookIds, b)
      {
        searched[i] := i in bookIds.value;
        if !searched[i] {
          whole := false;
        }
      }
    }
  }
}
