/**
 * How `searchByGrep` prepares its words: the tokens are sorted longest first, equal
 * lengths alphabetically (`String.compareTo`), and then adjacent duplicates are
 * dropped.  On a sorted list every duplicate is adjacent, so the words that remain
 * are distinct.
 */
module QueryWords {
  import opened Wrappers

  /**
   * `String.compareTo`: the difference of the first differing UTF-16 units, or of
   * the lengths when one string is a prefix of the other.
   */
  function CompareTo(a: string, b: string): int
  {
    if a == [] || b == [] then |a| - |b|
    else if a[0] != b[0] then a[0] as int - b[0] as int
    else CompareTo(a[1..], b[1..])
  }

  /** The comparator `searchByGrep` hands to `Arrays.sort`: longer first, equal lengths alphabetically. */
  function CompareTokens(a: string, b: string): int
  {
    if |a| > |b| then -1
    else if |a| == |b| then CompareTo(a, b)
    else 1
  }

  lemma {:induction false} CompareToZero(a: string, b: string)
    ensures CompareTo(a, b) == 0 <==> a == b
  {
    if a != [] && b != [] && a[0] == b[0] {
      CompareToZero(a[1..], b[1..]);
      assert a == [a[0]] + a[1..] && b == [b[0]] + b[1..];
    }
  }

  lemma {:induction false} CompareToFlips(a: string, b: string)
    ensures CompareTo(b, a) == -CompareTo(a, b)
  {
    if a != [] && b != [] && a[0] == b[0] {
      CompareToFlips(a[1..], b[1..]);
    }
  }

  lemma {:induction false} CompareToTransitive(a: string, b: string, c: string)
    requires CompareTo(a, b) <= 0 && CompareTo(b, c) <= 0
    ensures CompareTo(a, c) <= 0
  {
    if a != [] && b != [] && c != [] && a[0] == b[0] && b[0] == c[0] {
      CompareToTransitive(a[1..], b[1..], c[1..]);
    }
  }

  /** The comparator is a total order: it is zero only on equal tokens ... */
  lemma CompareTokensZero(a: string, b: string)
    ensures CompareTokens(a, b) == 0 <==> a == b
  {
    CompareToZero(a, b);
  }

  /** ... swapping its arguments flips its sign ... */
  lemma CompareTokensFlips(a: string, b: string)
    ensures CompareTokens(b, a) == -CompareTokens(a, b)
  {
    CompareToFlips(a, b);
  }

  /** ... and it is transitive. */
  lemma CompareTokensTransitive(a: string, b: string, c: string)
    requires CompareTokens(a, b) <= 0 && CompareTokens(b, c) <= 0
    ensures CompareTokens(a, c) <= 0
  {
    if |a| == |b| == |c| {
      CompareToTransitive(a, b, c);
    }
  }

  /** Strictly before and at-or-before combine to strictly before. */
  lemma CompareTokensStrict(a: string, b: string, c: string)
    requires CompareTokens(a, b) <= 0 && CompareTokens(b, c) < 0
    ensures CompareTokens(a, c) < 0
  {
    CompareTokensTransitive(a, b, c);
    CompareTokensZero(a, c);
    CompareTokensFlips(b, c);
  }

  /** Every token is at or before every later one. */
  predicate Sorted(s: seq<string>)
  {
    forall i, j :: 0 <= i < j < |s| ==> CompareTokens(s[i], s[j]) <= 0
  }

  /** Every token is strictly before every later one (so no token appears twice). */
  predicate StrictlySorted(s: seq<string>)
  {
    forall i, j :: 0 <= i < j < |s| ==> CompareTokens(s[i], s[j]) < 0
  }

  function Insert(w: string, s: seq<string>): seq<string>
  {
    if s == [] then [w]
    else if CompareTokens(w, s[0]) <= 0 then [w] + s
    else [s[0]] + Insert(w, s[1..])
  }

  /**
   * The order `Arrays.sort` leaves the tokens in.  The library's algorithm is not
   * part of this model; any sort yields this same list (SortedPermutationUnique).
   */
  function SortTokens(ws: seq<string>): seq<string>
  {
    if ws == [] then [] else Insert(ws[0], SortTokens(ws[1..]))
  }

  lemma {:induction false} InsertPermutes(w: string, s: seq<string>)
    ensures multiset(Insert(w, s)) == multiset(s) + multiset{w}
  {
    if s != [] && CompareTokens(w, s[0]) > 0 {
      InsertPermutes(w, s[1..]);
      assert s == [s[0]] + s[1..];
    }
  }

  /** `w` placed in front of a sorted list it does not exceed keeps it sorted. */
  lemma ConsSorted(w: string, s: seq<string>)
    requires Sorted(s) && (s != [] ==> CompareTokens(w, s[0]) <= 0)
    ensures Sorted([w] + s)
  {
    forall j | 0 < j < |s| + 1
      ensures CompareTokens(w, ([w] + s)[j]) <= 0
    {
      if j > 1 {
        CompareTokensTransitive(w, s[0], s[j - 1]);
      }
    }
  }

  lemma {:induction false} InsertSorted(w: string, s: seq<string>)
    requires Sorted(s)
    ensures Sorted(Insert(w, s))
  {
    if s == [] {
    } else if CompareTokens(w, s[0]) <= 0 {
      ConsSorted(w, s);
    } else {
      var rest := Insert(w, s[1..]);
      assert Sorted(s[1..]);
      InsertSorted(w, s[1..]);
      InsertPermutes(w, s[1..]);
      CompareTokensFlips(w, s[0]);
      assert rest != [] && CompareTokens(s[0], rest[0]) <= 0 by {
        assert rest[0] in multiset(rest);
        if rest[0] != w {
          assert rest[0] in s[1..];
        }
      }
      ConsSorted(s[0], rest);
    }
  }

  /** The sorted tokens are in comparator order and are a permutation of the input. */
  lemma {:induction false} SortTokensSorts(ws: seq<string>)
    ensures Sorted(SortTokens(ws))
    ensures multiset(SortTokens(ws)) == multiset(ws)
  {
    if ws != [] {
      SortTokensSorts(ws[1..]);
      InsertSorted(ws[0], SortTokens(ws[1..]));
      InsertPermutes(ws[0], SortTokens(ws[1..]));
      assert ws == [ws[0]] + ws[1..];
    }
  }

  /** Two sorted lists with the same tokens start with the same token. */
  lemma SortedHeadsEqual(s: seq<string>, t: seq<string>)
    requires Sorted(s) && Sorted(t) && s != [] && multiset(s) == multiset(t)
    ensures t != [] && s[0] == t[0]
  {
    assert s[0] in multiset(t);
    assert t != [] && t[0] in multiset(s);
    var i :| 0 <= i < |t| && t[i] == s[0];
    var j :| 0 <= j < |s| && s[j] == t[0];
    assert CompareTokens(t[0], s[0]) <= 0 by {
      if i > 0 { assert CompareTokens(t[0], t[i]) <= 0; } else { CompareTokensZero(t[0], s[0]); }
    }
    assert CompareTokens(s[0], t[0]) <= 0 by {
      if j > 0 { assert CompareTokens(s[0], s[j]) <= 0; } else { CompareTokensZero(s[0], t[0]); }
    }
    CompareTokensFlips(s[0], t[0]);
    CompareTokensZero(s[0], t[0]);
  }

  lemma SortedTail(s: seq<string>)
    requires Sorted(s) && s != []
    ensures Sorted(s[1..])
  {
  }

  lemma SameHeadTails(s: seq<string>, t: seq<string>)
    requires s != [] && t != [] && s[0] == t[0] && multiset(s) == multiset(t)
    ensures multiset(s[1..]) == multiset(t[1..])
    ensures s[1..] == t[1..] ==> s == t
  {
    assert s == [s[0]] + s[1..] && t == [t[0]] + t[1..];
    assert multiset(s[1..]) == multiset(s) - multiset{s[0]};
    assert multiset(t[1..]) == multiset(t) - multiset{t[0]};
  }

  /** Two sorted permutations of the same tokens are the same list: the comparator leaves no ties. */
  lemma {:induction false} SortedPermutationUnique(s: seq<string>, t: seq<string>)
    requires Sorted(s) && Sorted(t) && multiset(s) == multiset(t)
    ensures s == t
    decreases |s|
  {
    if s != [] {
      SortedHeadsEqual(s, t);
      SameHeadTails(s, t);
      SortedTail(s);
      SortedTail(t);
      SortedPermutationUnique(s[1..], t[1..]);
    }
  }

  /**
   * The duplicate-removal loop of `searchByGrep` as a function: a word equal to the
   * previous one (`last`; none before the first word) is dropped.
   */
  function Dedup(ws: seq<string>, last: Option<string>): seq<string>
  {
    if ws == [] then []
    else if last == Some(ws[0]) then Dedup(ws[1..], Some(ws[0]))
    else [ws[0]] + Dedup(ws[1..], Some(ws[0]))
  }

  /** Duplicate removal only drops words, and drops a word only when it equals the previous one. */
  lemma {:induction false} DedupMembers(ws: seq<string>, last: Option<string>, x: string)
    ensures x in Dedup(ws, last) ==> x in ws
    ensures x in ws ==> x in Dedup(ws, last) || last == Some(x)
  {
    if ws != [] {
      DedupMembers(ws[1..], Some(ws[0]), x);
      assert ws == [ws[0]] + ws[1..];
    }
  }

  /**
   * On sorted words duplicate removal leaves every word strictly before the next,
   * and strictly after `last`.
   */
  lemma {:induction false} DedupStrictlySorted(ws: seq<string>, last: Option<string>)
    requires Sorted(ws)
    requires last.Some? && ws != [] ==> CompareTokens(last.value, ws[0]) <= 0
    ensures StrictlySorted(Dedup(ws, last))
    ensures last.Some? ==> forall x :: x in Dedup(ws, last) ==> CompareTokens(last.value, x) < 0
  {
    if ws != [] {
      var rest := Dedup(ws[1..], Some(ws[0]));
      assert Sorted(ws[1..]);
      DedupStrictlySorted(ws[1..], Some(ws[0]));
      if last.Some? {
        forall x | x in rest
          ensures CompareTokens(last.value, x) < 0
        {
          CompareTokensStrict(last.value, ws[0], x);
        }
      }
      if last != Some(ws[0]) {
        if last.Some? {
          CompareTokensZero(last.value, ws[0]);
        }
        forall i, j | 0 <= i < j < |rest| + 1
          ensures CompareTokens(([ws[0]] + rest)[i], ([ws[0]] + rest)[j]) < 0
        {
          if i == 0 {
            assert rest[j - 1] in rest;
          }
        }
      }
    }
  }

  /** Sorting and duplicate removal keep exactly the tokens there were. */
  lemma SortDedupMembers(tokens: seq<string>)
    ensures forall x :: x in Dedup(SortTokens(tokens), None) <==> x in tokens
  {
    SortTokensSorts(tokens);
    forall x
      ensures x in Dedup(SortTokens(tokens), None) <==> x in tokens
    {
      DedupMembers(SortTokens(tokens), None, x);
      assert x in SortTokens(tokens) <==> x in multiset(SortTokens(tokens));
    }
  }

  /** The words `searchByGrep` searches for, in the order it searches them: the distinct tokens. */
  function SearchWords(tokens: seq<string>): (words: seq<string>)
    ensures forall x :: x in words <==> x in tokens
  {
    SortDedupMembers(tokens);
    Dedup(SortTokens(tokens), None)
  }

  /** The search words are the distinct tokens, longest first, each strictly before the next. */
  lemma SearchWordsMeaning(tokens: seq<string>)
    ensures StrictlySorted(SearchWords(tokens))
    ensures |SearchWords(tokens)| == 0 <==> |tokens| == 0
  {
    SortTokensSorts(tokens);
    DedupStrictlySorted(SortTokens(tokens), None);
    if tokens != [] {
      assert tokens[0] in tokens;
    }
  }

  /** Repeated words collapse and the result is in ascending order. */
  lemma DedupExample()
    ensures SearchWords(["love", "love", "faith"]) == ["faith", "love"]
  {
  }

  /** The duplicate-removal loop: `last` is the previous word, null before the first. */
  method RemoveDuplicates(words: seq<string>) returns (awords: seq<string>)
    ensures awords == Dedup(words, None)
  {
    awords := [];
    var last: Option<string> := None;
    for i := 0 to |words|
      invariant awords + Dedup(words[i..], last) == Dedup(words, None)
      invariant i > 0 ==> last == Some(words[i - 1])
    {
      var word := words[i];
      assert words[i..][1..] == words[i + 1..];
      if last != Some(word) {
        awords := awords + [word];
      }
      last := Some(word);
    }
  }
}
