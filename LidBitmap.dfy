/**
 * The bitmap pass of `searchByRevIndex`: one row per lid (a dense verse number
 * below 32768).  For each token the rows of every index word answering it are
 * set in an OR bitmap, which is then ANDed into the running result; finally the
 * rows still set are turned into verse addresses in lid order, within the book
 * scope.
 */
module LidBitmap {
  import opened Collaborators
  import opened TextSearch
  import opened SortedSets
  import opened RevIndexFormat

  /** The number of rows of both bitmaps. */
  const LidLimit := 0x8000

  /** Every lid stored in the index is a row of the bitmaps. */
  predicate LidsFit(index: RevIndex)
  {
    forall w :: w in index ==> forall l :: l in index[w] ==> 0 <= l < LidLimit
  }

  /**
   * An index word answers a token: it is the bare word of a plussed token, or it
   * contains the token with any plus stripped.
   */
  predicate WordMatches(env: Env, word: string, token: string)
  {
    var bare := env.tokenWithoutPlus(token);
    if env.isPlussedToken(token) then word == bare else Contains(word, bare)
  }

  /** Some word among `words` answers the token and lists the lid. */
  ghost predicate HitAmong(env: Env, index: RevIndex, token: string, words: set<string>, lid: int)
  {
    exists w :: w in words && w in index && WordMatches(env, w, token) && lid in index[w]
  }

  /** The lid's row in the OR bitmap of a token. */
  ghost predicate LidHit(env: Env, index: RevIndex, token: string, lid: int)
  {
    HitAmong(env, index, token, index.Keys, lid)
  }

  lemma HitAmongAdd(env: Env, index: RevIndex, token: string, words: set<string>, w: string, lid: int)
    requires w in index
    ensures HitAmong(env, index, token, words + {w}, lid)
        <==> HitAmong(env, index, token, words, lid) || (WordMatches(env, w, token) && lid in index[w])
  {
  }

  /**
   * The OR pass for one token: the bitmap is cleared, then every row listed by an
   * index word answering the token is set.  The order in which the map yields its
   * words does not matter.
   */
  method MarkToken(env: Env, index: RevIndex, token: string, bitmap: array<bool>)
    requires bitmap.Length == LidLimit && LidsFit(index)
    modifies bitmap
    ensures forall lid :: 0 <= lid < LidLimit ==> bitmap[lid] == LidHit(env, index, token, lid)
  {
    var plussed := env.isPlussedToken(token);
    var bare := env.tokenWithoutPlus(token);
    for i := 0 to LidLimit
      invariant forall lid :: 0 <= lid < i ==> !bitmap[lid]
    {
      bitmap[i] := false;
    }
    var keys := index.Keys;
    ghost var done: set<string> := {};
    while keys != {}
      invariant keys !! done && keys + done == index.Keys
      invariant forall lid :: 0 <= lid < LidLimit ==> bitmap[lid] == HitAmong(env, index, token, done, lid)
      decreases keys
    {
      var word :| word in keys;
      var matched := if plussed then word == bare else IndexOf(word, bare, 0) != -1;
      assert matched == WordMatches(env, word, token);
      if matched {
        var lids := index[word];
        for k := 0 to |lids|
          invariant forall lid :: 0 <= lid < LidLimit ==>
            bitmap[lid] == (HitAmong(env, index, token, done, lid) || lid in lids[..k])
        {
          assert lids[k] in index[word];
          assert lids[..k + 1] == lids[..k] + [lids[k]];
          bitmap[lids[k]] := true;
        }
        assert lids[..|lids|] == lids;
      }
      forall lid | 0 <= lid < LidLimit
        ensures bitmap[lid] == HitAmong(env, index, token, done + {word}, lid)
      {
        HitAmongAdd(env, index, token, done, word, lid);
      }
      keys := keys - {word};
      done := done + {word};
    }
  }

  /** The AND pass, walking the rows from the last one down. */
  method AndInto(passAnd: array<bool>, passOr: array<bool>)
    requires passAnd.Length == passOr.Length && passAnd != passOr
    modifies passAnd
    ensures forall i :: 0 <= i < passAnd.Length ==> passAnd[i] == (old(passAnd[i]) && passOr[i])
  {
    var i := passOr.Length - 1;
    while i >= 0
      invariant -1 <= i < passAnd.Length
      invariant forall k :: i < k < passAnd.Length ==> passAnd[k] == (old(passAnd[k]) && passOr[k])
      invariant forall k :: 0 <= k <= i ==> passAnd[k] == old(passAnd[k])
    {
      passAnd[i] := passAnd[i] && passOr[i];
      i := i - 1;
    }
  }

  /**
   * The token loop: a row survives when every token hits it; with no token at all
   * every row survives.
   */
  method MatchTokens(env: Env, index: RevIndex, tokens: seq<string>) returns (passAnd: array<bool>)
    requires LidsFit(index)
    ensures fresh(passAnd) && passAnd.Length == LidLimit
    ensures forall lid :: 0 <= lid < LidLimit ==>
      passAnd[lid] == forall t :: t in tokens ==> LidHit(env, index, t, lid)
  {
    var passOr := new bool[LidLimit](_ => false);
    passAnd := new bool[LidLimit](_ => true);
    for i := 0 to |tokens|
      invariant forall lid :: 0 <= lid < LidLimit ==>
        passAnd[lid] == forall t :: t in tokens[..i] ==> LidHit(env, index, t, lid)
    {
      MarkToken(env, index, tokens[i], passOr);
      AndInto(passAnd, passOr);
      assert forall t :: t in tokens[..i + 1] <==> t in tokens[..i] || t == tokens[i] by {
        assert tokens[..i + 1] == tokens[..i] + [tokens[i]];
      }
    }
    assert tokens[..|tokens|] == tokens;
  }

  /** Whether a row's lid lies in the searched books (the book check is skipped when all are searched). */
  predicate InSearchedBook(env: Env, searched: seq<bool>, whole: bool, lid: int)
    requires |searched| == 66
    requires !whole && env.bookIdForLid(lid) >= 0 ==> env.bookIdForLid(lid) < 66
  {
    whole || (env.bookIdForLid(lid) >= 0 && searched[env.bookIdForLid(lid)])
  }

  /** The book table names one of the 66 books for every row the conversion asks it about. */
  predicate BooksFit(env: Env, pass: seq<bool>, whole: bool)
  {
    !whole ==> forall lid :: 0 <= lid < |pass| && pass[lid] && env.bookIdForLid(lid) >= 0 ==> env.bookIdForLid(lid) < 66
  }

  /** The addresses of the surviving rows from row `i` on, in row order. */
  function Converted(env: Env, pass: seq<bool>, searched: seq<bool>, whole: bool, i: nat): seq<int>
    requires |searched| == 66 && i <= |pass| && BooksFit(env, pass, whole)
    decreases |pass| - i
  {
    if i == |pass| then []
    else
      var keep := pass[i] && InSearchedBook(env, searched, whole, i) && env.lidToAri(i) > 0;
      (if keep then [env.lidToAri(i)] else []) + Converted(env, pass, searched, whole, i + 1)
  }

  /** An address is in the result exactly when some surviving, searched row from `i` on maps to it. */
  lemma {:induction false} ConvertedMembers(env: Env, pass: seq<bool>, searched: seq<bool>, whole: bool, i: nat, x: int)
    requires |searched| == 66 && i <= |pass| && BooksFit(env, pass, whole)
    ensures x in Converted(env, pass, searched, whole, i) <==>
      exists lid :: i <= lid < |pass| && pass[lid] && InSearchedBook(env, searched, whole, lid) &&
                    env.lidToAri(lid) > 0 && env.lidToAri(lid) == x
    decreases |pass| - i
  {
    if i < |pass| {
      ConvertedMembers(env, pass, searched, whole, i + 1, x);
    }
  }

  /** The table maps rows to addresses in increasing order wherever it maps them at all. */
  predicate AriOrderFollowsLids(env: Env)
  {
    forall a, b :: 0 <= a < b < LidLimit && env.lidToAri(a) > 0 && env.lidToAri(b) > 0 ==> env.lidToAri(a) < env.lidToAri(b)
  }

  /** With such a table the result is strictly ascending, the order the rest of the engine expects. */
  lemma {:induction false} ConvertedAscending(env: Env, pass: seq<bool>, searched: seq<bool>, whole: bool, i: nat)
    requires |searched| == 66 && i <= |pass| <= LidLimit && BooksFit(env, pass, whole)
    requires AriOrderFollowsLids(env)
    ensures StrictlyAscending(Converted(env, pass, searched, whole, i))
    decreases |pass| - i
  {
    if i < |pass| {
      ConvertedAscending(env, pass, searched, whole, i + 1);
      var rest := Converted(env, pass, searched, whole, i + 1);
      if pass[i] && InSearchedBook(env, searched, whole, i) && env.lidToAri(i) > 0 {
        forall k | 0 <= k < |rest|
          ensures env.lidToAri(i) < rest[k]
        {
          ConvertedMembers(env, pass, searched, whole, i + 1, rest[k]);
        }
        ConsAscending(env.lidToAri(i), rest);
      }
    }
  }

  /** The conversion loop: each surviving row in the searched books whose address is positive, in row order. */
  method ConvertLids(env: Env, pass: array<bool>, searched: array<bool>, whole: bool) returns (res: seq<int>)
    requires searched.Length == 66 && BooksFit(env, pass[..], whole)
    ensures res == Converted(env, pass[..], searched[..], whole, 0)
  {
    ghost var p, sb := pass[..], searched[..];
    res := [];
    for i := 0 to pass.Length
      invariant res + Converted(env, p, sb, whole, i) == Converted(env, p, sb, whole, 0)
    {
      ghost var before := res;
      if pass[i] {
        if whole {
          var ari := env.lidToAri(i);
          if ari > 0 {
            res := res + [ari];
          }
        } else {
          var bookId := env.bookIdForLid(i);
          if bookId >= 0 && searched[bookId] {
            var ari := env.lidToAri(i);
            if ari > 0 {
              res := res + [ari];
            }
          }
        }
      }
      ConvertedStep(env, p, sb, whole, i, before, res);
    }
  }

  lemma ConvertedStep(env: Env, pass: seq<bool>, searched: seq<bool>, whole: bool, i: nat, before: seq<int>, after: seq<int>)
    requires |searched| == 66 && i < |pass| && BooksFit(env, pass, whole)
    requires after == before + if pass[i] && InSearchedBook(env, searched, whole, i) && env.lidToAri(i) > 0 then [env.lidToAri(i)] else []
    ensures before + Converted(env, pass, searched, whole, i) == after + Converted(env, pass, searched, whole, i + 1)
  {
  }
}
