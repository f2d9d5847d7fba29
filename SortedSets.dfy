/**
 * `SearchEngine.intersect`: the two-cursor merge-join of two ascending address
 * lists, and what it computes when both lists are ascending and duplicate-free.
 */
module SortedSets {

  /** The invariant every result list of the search engine is meant to keep. */
  predicate StrictlyAscending(s: seq<int>)
  {
    forall i, j :: 0 <= i < j < |s| ==> s[i] < s[j]
  }

  /** Every element of `s` lies above `b`. */
  predicate Above(s: seq<int>, b: int)
  {
    forall i :: 0 <= i < |s| ==> b < s[i]
  }

  lemma ConsAscending(x: int, rest: seq<int>)
    requires StrictlyAscending(rest) && Above(rest, x)
    ensures StrictlyAscending([x] + rest)
  {
    var r := [x] + rest;
    assert forall i :: 0 < i < |r| ==> r[i] == rest[i - 1];
  }

  /** Two ascending lists, the first wholly below the second, join into an ascending list. */
  lemma AppendAscending(a: seq<int>, b: seq<int>)
    requires StrictlyAscending(a) && StrictlyAscending(b)
    requires forall x, y :: x in a && y in b ==> x < y
    ensures StrictlyAscending(a + b)
  {
    var r := a + b;
    forall i, j | 0 <= i < j < |r|
      ensures r[i] < r[j]
    {
      if i < |a| && |a| <= j {
        assert r[i] in a && r[j] in b;
      }
    }
  }

  /** `s` is obtained from `t` by deleting elements, keeping the order of the rest. */
  predicate IsSubsequence(s: seq<int>, t: seq<int>)
    decreases |t|
  {
    if s == [] then true
    else if t == [] then false
    else (s[0] == t[0] && IsSubsequence(s[1..], t[1..])) || IsSubsequence(s, t[1..])
  }

  lemma {:induction false} SubsequenceReflexive(s: seq<int>)
    ensures IsSubsequence(s, s)
  {
    if s != [] {
      SubsequenceReflexive(s[1..]);
    }
  }

  lemma {:induction false} SubsequenceTransitive(a: seq<int>, b: seq<int>, c: seq<int>)
    requires IsSubsequence(a, b) && IsSubsequence(b, c)
    ensures IsSubsequence(a, c)
    decreases |c|
  {
    if a == [] {
    } else if b[0] == c[0] && IsSubsequence(b[1..], c[1..]) {
      if a[0] == b[0] && IsSubsequence(a[1..], b[1..]) {
        SubsequenceTransitive(a[1..], b[1..], c[1..]);
      } else {
        SubsequenceTransitive(a, b[1..], c[1..]);
      }
    } else {
      SubsequenceTransitive(a, b, c[1..]);
    }
  }

  lemma {:induction false} SubsequenceMembers(s: seq<int>, t: seq<int>)
    requires IsSubsequence(s, t)
    ensures forall x :: x in s ==> x in t
    decreases |t|
  {
    if s != [] {
      if s[0] == t[0] && IsSubsequence(s[1..], t[1..]) {
        SubsequenceMembers(s[1..], t[1..]);
        assert forall x :: x in s ==> x == s[0] || x in s[1..];
      } else {
        SubsequenceMembers(s, t[1..]);
      }
    }
  }

  lemma {:induction false} SubsequenceOfAscending(s: seq<int>, t: seq<int>)
    requires IsSubsequence(s, t) && StrictlyAscending(t)
    ensures StrictlyAscending(s)
    decreases |t|
  {
    if s != [] {
      if s[0] == t[0] && IsSubsequence(s[1..], t[1..]) {
        SubsequenceOfAscending(s[1..], t[1..]);
        SubsequenceMembers(s[1..], t[1..]);
        assert forall k :: 0 < k < |s| ==> s[k] in t[1..];
      } else {
        SubsequenceOfAscending(s, t[1..]);
      }
    }
  }

  /** The merge-join the loop of `intersect` performs, written as a recursion. */
  function MergeJoin(a: seq<int>, b: seq<int>): seq<int>
    decreases |a| + |b|
  {
    if a == [] || b == [] then []
    else if a[0] == b[0] then [a[0]] + MergeJoin(a[1..], b[1..])
    else if a[0] > b[0] then MergeJoin(a, b[1..])
    else MergeJoin(a[1..], b)
  }

  /** Whatever the inputs, the merge-join only keeps elements of both, in their order. */
  lemma {:induction false} MergeJoinSubsequence(a: seq<int>, b: seq<int>)
    ensures IsSubsequence(MergeJoin(a, b), a)
    ensures IsSubsequence(MergeJoin(a, b), b)
    decreases |a| + |b|
  {
    if a == [] || b == [] {
    } else if a[0] == b[0] {
      MergeJoinSubsequence(a[1..], b[1..]);
      var r := MergeJoin(a, b);
      assert r[0] == a[0] && r[1..] == MergeJoin(a[1..], b[1..]);
    } else if a[0] > b[0] {
      MergeJoinSubsequence(a, b[1..]);
      var r := MergeJoin(a, b);
      if r != [] {
        SubsequenceDropHead(r, b);
      }
    } else {
      MergeJoinSubsequence(a[1..], b);
      var r := MergeJoin(a, b);
      if r != [] {
        SubsequenceDropHead(r, a);
      }
    }
  }

  lemma SubsequenceDropHead(s: seq<int>, t: seq<int>)
    requires s != [] && t != [] && IsSubsequence(s, t[1..])
    ensures IsSubsequence(s, t)
  {
  }

  /**
   * On ascending duplicate-free inputs the merge-join is the set intersection, again
   * ascending and duplicate-free.
   */
  lemma {:induction false} MergeJoinIntersects(a: seq<int>, b: seq<int>)
    requires StrictlyAscending(a) && StrictlyAscending(b)
    ensures StrictlyAscending(MergeJoin(a, b))
    ensures forall x :: x in MergeJoin(a, b) <==> x in a && x in b
    decreases |a| + |b|
  {
    MergeJoinSubsequence(a, b);
    SubsequenceOfAscending(MergeJoin(a, b), a);
    SubsequenceMembers(MergeJoin(a, b), a);
    SubsequenceMembers(MergeJoin(a, b), b);
    if a == [] || b == [] {
    } else if a[0] == b[0] {
      MergeJoinIntersects(a[1..], b[1..]);
      assert forall x :: x in a <==> x == a[0] || x in a[1..];
      assert forall x :: x in b <==> x == b[0] || x in b[1..];
    } else if a[0] > b[0] {
      MergeJoinIntersects(a, b[1..]);
      assert forall x :: x in b <==> x == b[0] || x in b[1..];
      assert b[0] !in a;
    } else {
      MergeJoinIntersects(a[1..], b);
      assert forall x :: x in a <==> x == a[0] || x in a[1..];
      assert a[0] !in b;
    }
  }

  /** An ascending duplicate-free list is determined by its elements. */
  lemma {:induction false} AscendingDeterminedByMembers(s: seq<int>, t: seq<int>)
    requires StrictlyAscending(s) && StrictlyAscending(t)
    requires forall x :: x in s <==> x in t
    ensures s == t
    decreases |s|
  {
    if s != [] || t != [] {
      var x := if s != [] then s[0] else t[0];
      assert x in s && x in t;
      assert s[0] in s && t[0] in t;
      assert s[0] == t[0];
      forall y
        ensures y in s[1..] <==> y in t[1..]
      {
        assert y in s <==> y == s[0] || y in s[1..];
        assert y in t <==> y == t[0] || y in t[1..];
      }
      AscendingDeterminedByMembers(s[1..], t[1..]);
      assert s == [s[0]] + s[1..] && t == [t[0]] + t[1..];
    }
  }

  lemma MergeJoinCommutes(a: seq<int>, b: seq<int>)
    requires StrictlyAscending(a) && StrictlyAscending(b)
    ensures MergeJoin(a, b) == MergeJoin(b, a)
  {
    MergeJoinIntersects(a, b);
    MergeJoinIntersects(b, a);
    AscendingDeterminedByMembers(MergeJoin(a, b), MergeJoin(b, a));
  }

  /** Intersecting a list with itself gives it back, sorted or not. */
  lemma {:induction false} MergeJoinIdempotent(a: seq<int>)
    ensures MergeJoin(a, a) == a
  {
    if a != [] {
      MergeJoinIdempotent(a[1..]);
    }
  }

  /**
   * `intersect(a, b)`: advance the cursor with the smaller current value, emit and
   * advance both on equality.  The source does not check that the inputs are
   * ascending, so neither does this method; the intersection property is stated
   * for ascending inputs.
   */
  method Intersect(a: seq<int>, b: seq<int>) returns (res: seq<int>)
    ensures res == MergeJoin(a, b)
    ensures IsSubsequence(res, a) && IsSubsequence(res, b)
    ensures StrictlyAscending(a) && StrictlyAscending(b) ==>
      StrictlyAscending(res) && forall x :: x in res <==> x in a && x in b
  {
    res := [];
    var apos, bpos := 0, 0;
    while true
      invariant 0 <= apos <= |a| && 0 <= bpos <= |b|
      invariant res + MergeJoin(a[apos..], b[bpos..]) == MergeJoin(a, b)
      decreases |a| - apos + |b| - bpos
    {
      if apos >= |a| { break; }
      if bpos >= |b| { break; }
      var av := a[apos];
      var bv := b[bpos];
      assert a[apos..][1..] == a[apos + 1..] && b[bpos..][1..] == b[bpos + 1..];
      if av == bv {
        res := res + [av];
        apos := apos + 1;
        bpos := bpos + 1;
      } else if av > bv {
        bpos := bpos + 1;
      } else {
        apos := apos + 1;
      }
    }
    MergeJoinSubsequence(a, b);
    if StrictlyAscending(a) && StrictlyAscending(b) {
      MergeJoinIntersects(a, b);
    }
  }
}
