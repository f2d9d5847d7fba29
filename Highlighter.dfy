/**
 * `hilite`: the spans of a text to show in bold and in the highlight colour.  The
 * text is lowercased, every word loses its plus (a plussed word must occur as a
 * whole word), and a cursor walks the text: each round finds every word's next
 * occurrence at or after the cursor, marks the earliest one (the lowest word index
 * on a tie) and moves the cursor to its end.  A span is the pair (start, end) with
 * the end exclusive; the Android span objects are not modelled.
 */
module Highlighter {
  import opened Wrappers
  import opened Collaborators
  import opened TextSearch

  /** `Integer.MAX_VALUE`, the "nothing found yet" value of `minpos`; no Java string is longer. */
  const IntMax := 0x7fff_ffff

  type Span = (int, int)

  /** The fast path of the lowercasing: `(char) (c | 0x20)` for an ASCII capital. */
  function AsciiLower(c: char): (r: char)
    requires 'A' <= c <= 'Z'
    ensures 'a' <= r <= 'z' && r as int - 'a' as int == c as int - 'A' as int
  {
    var n := c as int;
    OrSetsCaseBit(n);
    var lower := ((n as bv8) | 0x20) as int;
    lower as char
  }

  /** For an ASCII capital the case bit is clear, so setting it adds 0x20. */
  lemma OrSetsCaseBit(n: int)
    requires 0x41 <= n <= 0x5a
    ensures ((n as bv8) | 0x20) as int == n + 0x20
  {
    var b := n as bv8;
    assert 0x41 <= b <= 0x5a;
  }

  /** One character of the plain text: the fast path for ASCII capitals, `Character.toLowerCase` otherwise. */
  function LowerChar(env: Env, c: char): char
  {
    if 'A' <= c <= 'Z' then AsciiLower(c) else env.toLowerCase(c)
  }

  /** The lowercased copy of the text that the words are looked for in. */
  function Lowered(env: Env, s: string): (t: string)
    ensures |t| == |s| && forall i :: 0 <= i < |s| ==> t[i] == LowerChar(env, s[i])
  {
    seq(|s|, i requires 0 <= i < |s| => LowerChar(env, s[i]))
  }

  /** The words with any plus stripped, and which of them had one. */
  function Stripped(env: Env, words: seq<string>): (r: seq<string>)
    ensures |r| == |words| && forall i :: 0 <= i < |words| ==> r[i] == Bare(env, words[i])
  {
    seq(|words|, i requires 0 <= i < |words| => Bare(env, words[i]))
  }

  function Plussed(env: Env, words: seq<string>): (r: seq<bool>)
    ensures |r| == |words| && forall i :: 0 <= i < |words| ==> r[i] == env.isPlussedToken(words[i])
  {
    seq(|words|, i requires 0 <= i < |words| => env.isPlussedToken(words[i]))
  }

  predicate AllNonEmpty(words: seq<string>)
  {
    forall i :: 0 <= i < |words| ==> |words[i]| > 0
  }

  /**
   * `(minpos, minword)` after a round has scanned the attempts of the first `n`
   * words: a found attempt replaces the one kept only when strictly smaller, so the
   * first of equal ones stays.
   */
  function Round(isLetter: char -> bool, text: string, words: seq<string>, plussed: seq<bool>, pos: nat, n: nat): (r: (int, int))
    requires |words| == |plussed| && AllNonEmpty(words) && n <= |words|
    ensures r.1 == -1 ==> r.0 == IntMax
    ensures r.1 != -1 ==> 0 <= r.1 < n && r.0 == Find(isLetter, text, words[r.1], plussed[r.1], pos)
    ensures r.1 != -1 ==> pos <= r.0 && r.0 + |words[r.1]| <= |text|
  {
    if n == 0 then (IntMax, -1)
    else
      var r := Round(isLetter, text, words, plussed, pos, n - 1);
      var a := Find(isLetter, text, words[n - 1], plussed[n - 1], pos);
      if a >= 0 && a < r.0 then (a, n - 1) else r
  }

  /**
   * In a text no longer than `Integer.MAX_VALUE`, a round picks no word exactly when
   * none is found, and otherwise the least position found, for the lowest word found
   * there.
   */
  lemma {:induction false} RoundLeast(isLetter: char -> bool, text: string, words: seq<string>, plussed: seq<bool>, pos: nat, n: nat)
    requires |words| == |plussed| && AllNonEmpty(words) && n <= |words| && |text| <= IntMax
    ensures var r := Round(isLetter, text, words, plussed, pos, n);
      && (r.1 == -1 <==> forall j :: 0 <= j < n ==> Find(isLetter, text, words[j], plussed[j], pos) == -1)
      && (r.1 != -1 ==> forall j :: 0 <= j < n && Find(isLetter, text, words[j], plussed[j], pos) != -1 ==>
                          r.0 <= Find(isLetter, text, words[j], plussed[j], pos))
      && (r.1 != -1 ==> forall j :: 0 <= j < r.1 ==> Find(isLetter, text, words[j], plussed[j], pos) != r.0)
  {
    if n > 0 {
      RoundLeast(isLetter, text, words, plussed, pos, n - 1);
    }
  }

  /** No word occurs at any position in `[lo, hi)`. */
  predicate NoneBetween(isLetter: char -> bool, text: string, words: seq<string>, plussed: seq<bool>, lo: int, hi: int)
    requires |words| == |plussed|
  {
    forall i, k :: 0 <= i < |words| && lo <= k < hi ==> !Occurs(isLetter, text, words[i], plussed[i], k)
  }

  /** No word occurs at or after `lo`. */
  ghost predicate NoneFrom(isLetter: char -> bool, text: string, words: seq<string>, plussed: seq<bool>, lo: int)
    requires |words| == |plussed|
  {
    forall i, k :: 0 <= i < |words| && lo <= k ==> !Occurs(isLetter, text, words[i], plussed[i], k)
  }

  /** `(a, b)` is an occurrence of the lowest-numbered word occurring at `a`. */
  predicate SpanChosen(isLetter: char -> bool, text: string, words: seq<string>, plussed: seq<bool>, a: int, b: int)
    requires |words| == |plussed|
  {
    exists w :: 0 <= w < |words| && Occurs(isLetter, text, words[w], plussed[w], a) && b == a + |words[w]|
      && forall j :: 0 <= j < w ==> !Occurs(isLetter, text, words[j], plussed[j], a)
  }

  /** What one round decides: nothing from the cursor on, or the chosen span with nothing before it. */
  lemma RoundMeans(isLetter: char -> bool, text: string, words: seq<string>, plussed: seq<bool>, pos: nat)
    requires |words| == |plussed| && AllNonEmpty(words) && |text| <= IntMax
    ensures var (minpos, minword) := Round(isLetter, text, words, plussed, pos, |words|);
      && (minword == -1 ==> NoneFrom(isLetter, text, words, plussed, pos))
      && (minword != -1 ==>
            && NoneBetween(isLetter, text, words, plussed, pos, minpos)
            && SpanChosen(isLetter, text, words, plussed, minpos, minpos + |words[minword]|))
  {
    forall i | 0 <= i < |words|
      ensures var r := Find(isLetter, text, words[i], plussed[i], pos);
        && (r == -1 <==> forall k :: pos <= k ==> !Occurs(isLetter, text, words[i], plussed[i], k))
        && (r != -1 ==> Occurs(isLetter, text, words[i], plussed[i], r) &&
                        forall k :: pos <= k < r ==> !Occurs(isLetter, text, words[i], plussed[i], k))
    {
      FindFindsFirst(isLetter, text, words[i], plussed[i], pos);
    }
    RoundLeast(isLetter, text, words, plussed, pos, |words|);
  }

  /**
   * The spans marked from cursor `pos` on.  The cursor strictly advances, since
   * every word is non-empty.
   */
  function Spans(isLetter: char -> bool, text: string, words: seq<string>, plussed: seq<bool>, pos: nat): seq<Span>
    requires |words| == |plussed| && AllNonEmpty(words) && pos <= |text|
    decreases |text| - pos
  {
    var (minpos, minword) := Round(isLetter, text, words, plussed, pos, |words|);
    if minword == -1 then []
    else
      var end := minpos + |words[minword]|;
      [(minpos, end)] + Spans(isLetter, text, words, plussed, end)
  }

  /** One round of the loop: nothing more when no word is found, else the chosen span and the spans after it. */
  lemma SpansStep(isLetter: char -> bool, text: string, words: seq<string>, plussed: seq<bool>, pos: nat, minpos: int, minword: int)
    requires |words| == |plussed| && AllNonEmpty(words) && pos <= |text|
    requires (minpos, minword) == Round(isLetter, text, words, plussed, pos, |words|)
    ensures minword == -1 ==> Spans(isLetter, text, words, plussed, pos) == []
    ensures minword != -1 ==> 0 <= minword < |words| && pos < minpos + |words[minword]| <= |text|
  {
  }

  lemma SpansUnfold(isLetter: char -> bool, text: string, words: seq<string>, plussed: seq<bool>, pos: nat,
                    minpos: int, minword: int, end: nat)
    requires |words| == |plussed| && AllNonEmpty(words) && pos <= |text|
    requires (minpos, minword) == Round(isLetter, text, words, plussed, pos, |words|)
    requires minword != -1 && 0 <= minword < |words| && end == minpos + |words[minword]| <= |text|
    ensures Spans(isLetter, text, words, plussed, pos) == [(minpos, end)] + Spans(isLetter, text, words, plussed, end)
  {
  }

  /** The spans lie in `[pos, len)`, each non-empty, each ending before the next begins. */
  predicate InOrder(sp: seq<Span>, pos: int, len: int)
  {
    && (forall k :: 0 <= k < |sp| ==> pos <= sp[k].0 < sp[k].1 <= len)
    && (forall k :: 0 <= k < |sp| - 1 ==> sp[k].1 <= sp[k + 1].0)
  }

  lemma ConsInOrder(span: Span, rest: seq<Span>, pos: int, len: int)
    requires pos <= span.0 < span.1 <= len && InOrder(rest, span.1, len)
    ensures InOrder([span] + rest, pos, len)
  {
    var sp := [span] + rest;
    forall k | 0 <= k < |sp| - 1
      ensures sp[k].1 <= sp[k + 1].0
    {
      assert sp[k + 1] == rest[k];
      if k > 0 {
        assert sp[k] == rest[k - 1];
      }
    }
  }

  /** The spans lie from the cursor to the end of the text, each non-empty, each ending before the next begins. */
  lemma {:induction false} SpansOrdered(isLetter: char -> bool, text: string, words: seq<string>, plussed: seq<bool>, pos: nat)
    requires |words| == |plussed| && AllNonEmpty(words) && pos <= |text|
    ensures InOrder(Spans(isLetter, text, words, plussed, pos), pos, |text|)
    decreases |text| - pos
  {
    var (minpos, minword) := Round(isLetter, text, words, plussed, pos, |words|);
    SpansStep(isLetter, text, words, plussed, pos, minpos, minword);
    if minword != -1 {
      var end := minpos + |words[minword]|;
      SpansOrdered(isLetter, text, words, plussed, end);
      SpansUnfold(isLetter, text, words, plussed, pos, minpos, minword, end);
      ConsInOrder((minpos, end), Spans(isLetter, text, words, plussed, end), pos, |text|);
    }
  }

  /** Every span is an occurrence of the lowest-numbered word occurring where it starts. */
  lemma {:induction false} SpansChosen(isLetter: char -> bool, text: string, words: seq<string>, plussed: seq<bool>, pos: nat)
    requires |words| == |plussed| && AllNonEmpty(words) && pos <= |text| <= IntMax
    ensures var sp := Spans(isLetter, text, words, plussed, pos);
      forall k :: 0 <= k < |sp| ==> SpanChosen(isLetter, text, words, plussed, sp[k].0, sp[k].1)
    decreases |text| - pos
  {
    RoundMeans(isLetter, text, words, plussed, pos);
    var (minpos, minword) := Round(isLetter, text, words, plussed, pos, |words|);
    if minword != -1 {
      var end := minpos + |words[minword]|;
      SpansChosen(isLetter, text, words, plussed, end);
      var sp := Spans(isLetter, text, words, plussed, pos);
      assert sp == [(minpos, end)] + Spans(isLetter, text, words, plussed, end);
    }
  }

  /**
   * No word occurs between `pos` and the first span, between one span's end and the
   * next span, or after the last span's end (after `pos` when there is no span).
   */
  ghost predicate NothingSkipped(isLetter: char -> bool, text: string, words: seq<string>, plussed: seq<bool>,
                                 sp: seq<Span>, pos: int)
    requires |words| == |plussed|
  {
    && (sp == [] ==> NoneFrom(isLetter, text, words, plussed, pos))
    && (sp != [] ==> NoneBetween(isLetter, text, words, plussed, pos, sp[0].0))
    && (forall k :: 0 <= k < |sp| - 1 ==> NoneBetween(isLetter, text, words, plussed, sp[k].1, sp[k + 1].0))
    && (sp != [] ==> NoneFrom(isLetter, text, words, plussed, sp[|sp| - 1].1))
  }

  lemma ConsNothingSkipped(isLetter: char -> bool, text: string, words: seq<string>, plussed: seq<bool>,
                           span: Span, rest: seq<Span>, pos: int)
    requires |words| == |plussed|
    requires NoneBetween(isLetter, text, words, plussed, pos, span.0)
    requires NothingSkipped(isLetter, text, words, plussed, rest, span.1)
    ensures NothingSkipped(isLetter, text, words, plussed, [span] + rest, pos)
  {
    var sp := [span] + rest;
    if rest == [] {
      assert sp[|sp| - 1].1 == span.1;
    } else {
      assert sp[1].0 == rest[0].0 && sp[|sp| - 1] == rest[|rest| - 1];
      forall k | 1 <= k < |sp| - 1
        ensures NoneBetween(isLetter, text, words, plussed, sp[k].1, sp[k + 1].0)
      {
        assert sp[k] == rest[k - 1] && sp[k + 1] == rest[k];
      }
    }
  }

  /** Nothing is passed over from the cursor on. */
  lemma {:induction false} SpansGaps(isLetter: char -> bool, text: string, words: seq<string>, plussed: seq<bool>, pos: nat)
    requires |words| == |plussed| && AllNonEmpty(words) && pos <= |text| <= IntMax
    ensures NothingSkipped(isLetter, text, words, plussed, Spans(isLetter, text, words, plussed, pos), pos)
    decreases |text| - pos
  {
    RoundMeans(isLetter, text, words, plussed, pos);
    var (minpos, minword) := Round(isLetter, text, words, plussed, pos, |words|);
    SpansStep(isLetter, text, words, plussed, pos, minpos, minword);
    if minword != -1 {
      var end := minpos + |words[minword]|;
      SpansGaps(isLetter, text, words, plussed, end);
      SpansUnfold(isLetter, text, words, plussed, pos, minpos, minword, end);
      ConsNothingSkipped(isLetter, text, words, plussed, (minpos, end), Spans(isLetter, text, words, plussed, end), pos);
    }
  }

  /** The spans `hilite` marks: none when the word array is null. */
  function Highlights(env: Env, s: string, words: Option<seq<string>>): seq<Span>
    requires words.Some? ==> AllNonEmpty(Stripped(env, words.value))
  {
    if words.None? then []
    else Spans(env.isLetter, Lowered(env, s), Stripped(env, words.value), Plussed(env, words.value), 0)
  }

  /**
   * What `hilite` marks, in terms of the lowercased text and the stripped words:
   * spans in order within the text, each the lowest-numbered word occurring where it
   * starts, with no occurrence of any word passed over before, between or after them.
   */
  lemma HighlightsMeaning(env: Env, s: string, words: seq<string>)
    requires |s| <= IntMax && AllNonEmpty(Stripped(env, words))
    ensures var sp := Highlights(env, s, Some(words));
      var text, ws, ps := Lowered(env, s), Stripped(env, words), Plussed(env, words);
      && InOrder(sp, 0, |s|)
      && (forall k :: 0 <= k < |sp| ==> SpanChosen(env.isLetter, text, ws, ps, sp[k].0, sp[k].1))
      && NothingSkipped(env.isLetter, text, ws, ps, sp, 0)
  {
    var text, ws, ps := Lowered(env, s), Stripped(env, words), Plussed(env, words);
    SpansOrdered(env.isLetter, text, ws, ps, 0);
    SpansChosen(env.isLetter, text, ws, ps, 0);
    SpansGaps(env.isLetter, text, ws, ps, 0);
    var sp := Highlights(env, s, Some(words));
    assert sp == Spans(env.isLetter, text, ws, ps, 0);
  }

  /** The rounds of "abc" and "bc" over "abcabc" from the cursors 0, 3 and 6. */
  lemma ExampleRounds(isLetter: char -> bool)
    ensures Round(isLetter, "abcabc", ["abc", "bc"], [false, false], 0, 2) == (0, 0)
    ensures Round(isLetter, "abcabc", ["abc", "bc"], [false, false], 3, 2) == (3, 0)
    ensures Round(isLetter, "abcabc", ["abc", "bc"], [false, false], 6, 2) == (IntMax, -1)
  {
    var text := "abcabc";
    assert MatchesAt(text, "abc", 0) && MatchesAt(text, "bc", 1) && !MatchesAt(text, "bc", 0);
    assert MatchesAt(text, "abc", 3) && MatchesAt(text, "bc", 4) && !MatchesAt(text, "bc", 3);
    assert IndexOf(text, "abc", 0) == 0 && IndexOf(text, "bc", 0) == 1;
    assert IndexOf(text, "abc", 3) == 3 && IndexOf(text, "bc", 3) == 4;
    assert IndexOf(text, "abc", 6) == -1 && IndexOf(text, "bc", 6) == -1;
  }

  /**
   * Spans do not overlap: in "abcabc" the words "abc" and "bc" give the spans
   * [0, 3) and [3, 6), never the "bc" inside the first span.
   */
  lemma NoOverlapExample(isLetter: char -> bool)
    ensures Spans(isLetter, "abcabc", ["abc", "bc"], [false, false], 0) == [(0, 3), (3, 6)]
  {
    var text, words, plussed := "abcabc", ["abc", "bc"], [false, false];
    ExampleRounds(isLetter);
    SpansStep(isLetter, text, words, plussed, 6, IntMax, -1);
    SpansUnfold(isLetter, text, words, plussed, 3, 3, 0, 6);
    SpansUnfold(isLetter, text, words, plussed, 0, 0, 0, 3);
  }

  /** The lowercasing loop into `newString`. */
  method LowerText(env: Env, s: string) returns (plainText: string)
    ensures plainText == Lowered(env, s)
  {
    var newString := new char[|s|];
    for i := 0 to |s|
      invariant forall j :: 0 <= j < i ==> newString[j] == LowerChar(env, s[j])
    {
      var c := s[i];
      if 'A' <= c <= 'Z' {
        newString[i] := AsciiLower(c);
      } else {
        newString[i] := env.toLowerCase(c);
      }
    }
    plainText := newString[..];
  }

  /** The loop of the "point to copy" block: each plussed copy loses its plus and is flagged. */
  method StripPlusses(env: Env, words2: array<string>, hasPlusses: array<bool>)
    requires words2.Length == hasPlusses.Length
    requires forall j :: 0 <= j < hasPlusses.Length ==> !hasPlusses[j]
    modifies words2, hasPlusses
    ensures words2[..] == Stripped(env, old(words2[..])) && hasPlusses[..] == Plussed(env, old(words2[..]))
  {
    ghost var words := words2[..];
    ghost var stripped, plussed := Stripped(env, words), Plussed(env, words);
    for i := 0 to words2.Length
      invariant forall j :: 0 <= j < i ==> words2[j] == stripped[j] && hasPlusses[j] == plussed[j]
      invariant forall j :: i <= j < words2.Length ==> words2[j] == words[j] && !hasPlusses[j]
    {
      var word := words2[i];
      if env.isPlussedToken(word) {
        words2[i] := env.tokenWithoutPlus(word);
        hasPlusses[i] := true;
      }
    }
    assert words2[..] == stripped;
    assert hasPlusses[..] == plussed;
  }

  /** The "point to copy" block: a copy of the words with each plus stripped, and a flag per stripped plus. */
  method SplitWords(env: Env, words: seq<string>) returns (words2: array<string>, hasPlusses: array<bool>)
    ensures fresh(words2) && fresh(hasPlusses)
    ensures words2[..] == Stripped(env, words) && hasPlusses[..] == Plussed(env, words)
  {
    var wordCount := |words|;
    hasPlusses := new bool[wordCount](_ => false);
    words2 := new string[wordCount];
    forall i | 0 <= i < wordCount {
      words2[i] := words[i];
    }
    assert words2[..] == words;
    StripPlusses(env, words2, hasPlusses);
  }

  /** One round: `attempt` refilled from the cursor, then the scan for `minpos` and `minword`. */
  method NextSpan(isLetter: char -> bool, plainText: string, words: array<string>, hasPlusses: array<bool>,
                  attempt: array<int>, pos: nat) returns (minpos: int, minword: int)
    requires words.Length == hasPlusses.Length == attempt.Length && AllNonEmpty(words[..])
    modifies attempt
    ensures (minpos, minword) == Round(isLetter, plainText, words[..], hasPlusses[..], pos, words.Length)
  {
    ghost var ws, ps := words[..], hasPlusses[..];
    for i := 0 to attempt.Length
      modifies attempt
      invariant forall j :: 0 <= j < i ==> attempt[j] == Find(isLetter, plainText, ws[j], ps[j], pos)
    {
      if hasPlusses[i] {
        var found := IndexOfWholeWord(isLetter, plainText, words[i], pos);
        attempt[i] := found.pos;
      } else {
        attempt[i] := IndexOf(plainText, words[i], pos);
      }
    }

    minpos := IntMax;
    minword := -1;
    for i := 0 to attempt.Length
      modifies {}
      invariant (minpos, minword) == Round(isLetter, plainText, ws, ps, pos, i)
    {
      if attempt[i] >= 0 {
        if attempt[i] < minpos {
          minpos := attempt[i];
          minword := i;
        }
      }
    }
  }

  lemma AppendSpan(before: seq<Span>, span: Span, rest: seq<Span>)
    ensures before + ([span] + rest) == (before + [span]) + rest
  {
  }

  /** The cursor loop of `hilite`, from cursor 0 to the round that finds no word. */
  method MarkSpans(isLetter: char -> bool, plainText: string, words2: array<string>, hasPlusses: array<bool>)
    returns (spans: seq<Span>)
    requires words2.Length == hasPlusses.Length && AllNonEmpty(words2[..])
    ensures spans == Spans(isLetter, plainText, words2[..], hasPlusses[..], 0)
  {
    ghost var ws, ps := words2[..], hasPlusses[..];
    ghost var target := Spans(isLetter, plainText, ws, ps, 0);
    spans := [];
    var pos := 0;
    var attempt := new int[words2.Length];
    while true
      modifies attempt
      invariant pos <= |plainText|
      invariant spans + Spans(isLetter, plainText, ws, ps, pos) == target
      decreases |plainText| - pos
    {
      var minpos, minword := NextSpan(isLetter, plainText, words2, hasPlusses, attempt, pos);
      SpansStep(isLetter, plainText, ws, ps, pos, minpos, minword);
      if minword == -1 {
        assert spans + [] == spans;
        break;
      }
      assert words2[minword] == ws[minword];
      var end := minpos + |words2[minword]|;
      SpansUnfold(isLetter, plainText, ws, ps, pos, minpos, minword, end);
      AppendSpan(spans, (minpos, end), Spans(isLetter, plainText, ws, ps, end));
      spans := spans + [(minpos, end)];
      pos := end;
    }
  }

  /**
   * `hilite(s, words, color)`: the span list it marks, the same span being given
   * both styles.  Every word must keep a character once its plus is stripped (an
   * empty word would be found at the cursor forever), and the text, a Java string,
   * is shorter than `Integer.MAX_VALUE`.
   */
  method Hilite(env: Env, s: string, words: Option<seq<string>>) returns (spans: seq<Span>)
    requires |s| <= IntMax
    requires words.Some? ==> AllNonEmpty(Stripped(env, words.value))
    ensures spans == Highlights(env, s, words)
  {
    spans := [];
    if words.None? {
      return;
    }
    var words2, hasPlusses := SplitWords(env, words.value);
    var plainText := LowerText(env, s);
    spans := MarkSpans(env.isLetter, plainText, words2, hasPlusses);
  }
}
