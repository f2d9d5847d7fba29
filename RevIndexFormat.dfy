/**
 * The on-disk format of the reverse index ("revindex") that `loadRevIndex` reads,
 * as decoding functions over a byte sequence with a cursor, and an encoder that
 * writes the same format.
 *
 *   int total_word_count
 *   { uint8 word_len; int word_by_len_count;
 *     { byte[word_len] word; uint16 lid_count; verse_list } [word_by_len_count]
 *   } [] until total_word_count words are read
 *
 * A verse-list entry is one byte `0ddddddd` (7-bit difference to the previous
 * entry) or two bytes `1xxxxxxx xxxxxxxx` (15-bit absolute lid).  Multi-byte
 * integers are big-endian and `int` is signed 32-bit; the stream reader is not
 * part of this model, so this byte order is an assumption.
 */
module RevIndexFormat {
  import opened Wrappers

  type Byte = x: int | 0 <= x < 0x100

  /** A value read from the stream and the position right after it. */
  datatype Parsed<T> = Parsed(value: T, next: nat)

  /** The index: each word with the lids (dense verse numbers) it occurs in. */
  type RevIndex = map<string, seq<int>>

  // ----- the primitive reads; each fails at the end of the data -----

  function ReadUint8(data: seq<Byte>, pos: nat): (r: Option<Parsed<int>>)
    ensures r.Some? <==> pos < |data|
    ensures r.Some? ==> r.value.next == pos + 1 && 0 <= r.value.value < 0x100
  {
    if pos < |data| then Some(Parsed(data[pos], pos + 1)) else None
  }

  function ReadUint16(data: seq<Byte>, pos: nat): (r: Option<Parsed<int>>)
    ensures r.Some? <==> pos + 2 <= |data|
    ensures r.Some? ==> r.value.next == pos + 2 && 0 <= r.value.value < 0x10000
  {
    if pos + 2 <= |data| then Some(Parsed(data[pos] as int * 0x100 + data[pos + 1] as int, pos + 2)) else None
  }

  /** A big-endian two's-complement 32-bit integer. */
  function ReadInt(data: seq<Byte>, pos: nat): (r: Option<Parsed<int>>)
    ensures r.Some? <==> pos + 4 <= |data|
    ensures r.Some? ==> r.value.next == pos + 4 && -0x8000_0000 <= r.value.value < 0x8000_0000
  {
    if pos + 4 <= |data| then
      var raw := ((data[pos] as int * 0x100 + data[pos + 1] as int) * 0x100 + data[pos + 2] as int) * 0x100 + data[pos + 3] as int;
      Some(Parsed(if data[pos] >= 0x80 then raw - 0x1_0000_0000 else raw, pos + 4))
    else None
  }

  /** Bytes as characters, one per byte (the deprecated `String(byte[], hibyte = 0, ...)` constructor). */
  function BytesToString(bs: seq<Byte>): (s: string)
    ensures |s| == |bs|
  {
    if bs == [] then [] else [bs[0] as char] + BytesToString(bs[1..])
  }

  function ReadRaw(data: seq<Byte>, pos: nat, n: nat): (r: Option<Parsed<string>>)
    ensures r.Some? <==> pos + n <= |data|
    ensures r.Some? ==> r.value.next == pos + n && |r.value.value| == n
  {
    if pos + n <= |data| then Some(Parsed(BytesToString(data[pos..pos + n]), pos + n)) else None
  }

  // ----- verse lists -----

  /**
   * One verse-list entry after the entry `last`: a byte below 0x80 is a difference
   * to `last`; otherwise it and the next byte hold `((h << 8) | l) & 0x7fff`, which
   * for bytes `h >= 0x80` and `l` is `(h - 0x80) * 0x100 + l` (LidMask).
   */
  function DecodeLid(data: seq<Byte>, pos: nat, last: int): (r: Option<Parsed<int>>)
    ensures r.Some? ==> pos < |data|
    ensures r.Some? && data[pos] < 0x80 ==> r.value.value == last + data[pos] && r.value.next == pos + 1
    ensures r.Some? && data[pos] >= 0x80 ==> 0 <= r.value.value < 0x8000 && r.value.next == pos + 2
  {
    match ReadUint8(data, pos)
    case None => None
    case Some(h) =>
      if h.value < 0x80 then Some(Parsed(last + h.value, h.next))
      else
        match ReadUint8(data, h.next)
        case None => None
        case Some(l) => Some(Parsed((h.value - 0x80) * 0x100 + l.value, l.next))
  }

  /** Masking the two bytes to 15 bits only drops the marker bit of the high byte. */
  lemma LidMask(h: Byte, l: Byte)
    requires h >= 0x80
    ensures (h * 0x100 + l) % 0x8000 == (h - 0x80) * 0x100 + l
  {
    assert h * 0x100 + l == 0x8000 + ((h - 0x80) * 0x100 + l);
  }

  /** `count` verse-list entries, the first one relative to `last`. */
  function DecodeLids(data: seq<Byte>, pos: nat, count: nat, last: int): (r: Option<Parsed<seq<int>>>)
    ensures r.Some? ==> |r.value.value| == count && pos <= r.value.next
    decreases count
  {
    if count == 0 then Some(Parsed([], pos))
    else
      match DecodeLid(data, pos, last)
      case None => None
      case Some(e) =>
        match DecodeLids(data, e.next, count - 1, e.value)
        case None => None
        case Some(rest) => Some(Parsed([e.value] + rest.value, rest.next))
  }

  /**
   * Every decoded entry is at least its predecessor (`last` before the first) unless
   * it was written absolutely, in which case it is a 15-bit number; so from a
   * non-negative `last` every entry is non-negative.
   */
  lemma {:induction false} DecodeLidsSteps(data: seq<Byte>, pos: nat, count: nat, last: int)
    requires DecodeLids(data, pos, count, last).Some?
    ensures var lids := DecodeLids(data, pos, count, last).value.value;
      && (forall k :: 0 <= k < |lids| ==> (if k == 0 then last else lids[k - 1]) <= lids[k] || 0 <= lids[k] < 0x8000)
      && (last >= 0 ==> forall k :: 0 <= k < |lids| ==> lids[k] >= 0)
    decreases count
  {
    if count > 0 {
      var e := DecodeLid(data, pos, last).value;
      DecodeLidsSteps(data, e.next, count - 1, e.value);
      var lids := DecodeLids(data, pos, count, last).value.value;
      var rest := DecodeLids(data, e.next, count - 1, e.value).value.value;
      assert lids == [e.value] + rest;
      assert forall k :: 0 < k < |lids| ==> lids[k] == rest[k - 1];
    }
  }

  // ----- words and length groups -----

  /** A word's list replaces any earlier list of the same word (`HashMap.put`). */
  function DecodeEntries(data: seq<Byte>, pos: nat, remaining: int, wordLen: nat, index: RevIndex): (r: Option<Parsed<RevIndex>>)
    ensures r.Some? ==> pos <= r.value.next
    decreases if remaining > 0 then remaining else 0
  {
    if remaining <= 0 then Some(Parsed(index, pos))
    else
      match ReadRaw(data, pos, wordLen)
      case None => None
      case Some(w) =>
        match ReadUint16(data, w.next)
        case None => None
        case Some(c) =>
          match DecodeLids(data, c.next, c.value, 0)
          case None => None
          case Some(l) => DecodeEntries(data, l.next, remaining - 1, wordLen, index[w.value := l.value])
  }

  /**
   * Length groups from `pos` on, `wordCount` words having been read so far: a group
   * is always read, and reading stops as soon as the running count reaches or passes
   * `total`.
   */
  function DecodeGroups(data: seq<Byte>, pos: nat, total: int, wordCount: int, index: RevIndex): Option<RevIndex>
    decreases |data| - pos
  {
    match ReadUint8(data, pos)
    case None => None
    case Some(len) =>
      match ReadInt(data, len.next)
      case None => None
      case Some(n) =>
        match DecodeEntries(data, n.next, n.value, len.value, index)
        case None => None
        case Some(e) =>
          if wordCount + n.value >= total then Some(e.value)
          else DecodeGroups(data, e.next, total, wordCount + n.value, e.value)
  }

  /** The whole file; `None` for any read past the end, never a partial index. */
  function DecodeRevIndex(data: seq<Byte>): Option<RevIndex>
  {
    match ReadInt(data, 0)
    case None => None
    case Some(t) => DecodeGroups(data, t.next, t.value, 0, map[])
  }

  /**
   * A group header is read even when the total is not positive, so a file shorter
   * than the total and one group header (4 + 1 + 4 bytes) fails.
   */
  lemma HeaderOnlyFails(data: seq<Byte>)
    requires |data| < 9
    ensures DecodeRevIndex(data) == None
  {
    if |data| >= 5 {
      assert ReadInt(data, 5).None?;
    }
  }

  // ----- the writer -----

  datatype Entry = Entry(word: string, lids: seq<int>)
  datatype Group = Group(wordLen: nat, entries: seq<Entry>)

  function EncodeUint16(n: int): seq<Byte>
    requires 0 <= n < 0x10000
  {
    [n / 0x100, n % 0x100]
  }

  function EncodeInt(n: int): seq<Byte>
    requires -0x8000_0000 <= n < 0x8000_0000
  {
    var u := if n < 0 then n + 0x1_0000_0000 else n;
    var u1 := u / 0x100;
    var u2 := u1 / 0x100;
    [u2 / 0x100, u2 % 0x100, u1 % 0x100, u % 0x100]
  }

  /** Every character fits a byte. */
  predicate Latin1(w: string)
  {
    forall k :: 0 <= k < |w| ==> w[k] as int < 0x100
  }

  function StringToBytes(w: string): (bs: seq<Byte>)
    requires Latin1(w)
    ensures |bs| == |w|
  {
    if w == [] then [] else [w[0] as int] + StringToBytes(w[1..])
  }

  /** Lids that a two-byte entry can hold. */
  predicate LidsInRange(lids: seq<int>)
  {
    forall k :: 0 <= k < |lids| ==> 0 <= lids[k] < 0x8000
  }

  /** The first entry of a list is always absolute; later ones are differences when they fit in 7 bits. */
  function EncodeLid(lid: int, last: int, first: bool): seq<Byte>
    requires 0 <= lid < 0x8000
  {
    if !first && 0 <= lid - last < 0x80 then [lid - last]
    else [0x80 + lid / 0x100, lid % 0x100]
  }

  function EncodeLids(lids: seq<int>, last: int, first: bool): seq<Byte>
    requires LidsInRange(lids)
  {
    if lids == [] then []
    else EncodeLid(lids[0], last, first) + EncodeLids(lids[1..], lids[0], false)
  }

  /** A word that fits the byte-per-character encoding and a lid list whose count fits a `uint16`. */
  predicate ValidEntry(e: Entry)
  {
    Latin1(e.word) && |e.lids| < 0x10000 && LidsInRange(e.lids)
  }

  /** One word: its characters, its lid count, its verse list. */
  function EncodeEntry(e: Entry): seq<Byte>
    requires ValidEntry(e)
  {
    StringToBytes(e.word) + (EncodeUint16(|e.lids|) + EncodeLids(e.lids, 0, true))
  }

  /** Valid entries whose words all have length `wordLen`. */
  predicate ValidEntries(es: seq<Entry>, wordLen: nat)
    decreases |es|
  {
    es == [] || (|es[0].word| == wordLen && ValidEntry(es[0]) && ValidEntries(es[1..], wordLen))
  }

  function EncodeEntries(es: seq<Entry>, wordLen: nat): seq<Byte>
    requires ValidEntries(es, wordLen)
  {
    if es == [] then []
    else EncodeEntry(es[0]) + EncodeEntries(es[1..], wordLen)
  }

  /** The number of words in the groups. */
  function WordCount(gs: seq<Group>): nat
  {
    if gs == [] then 0 else |gs[0].entries| + WordCount(gs[1..])
  }

  /** A non-empty group of valid entries whose word length fits a byte. */
  predicate ValidGroup(g: Group)
  {
    g.wordLen < 0x100 && 1 <= |g.entries| < 0x8000_0000 && ValidEntries(g.entries, g.wordLen)
  }

  /** Valid groups holding a number of words that fits an `int`. */
  predicate ValidGroups(gs: seq<Group>)
  {
    WordCount(gs) < 0x8000_0000 && forall i :: 0 <= i < |gs| ==> ValidGroup(gs[i])
  }

  /** One length group: its word length, its word count, its words. */
  function EncodeGroup(g: Group): seq<Byte>
    requires ValidGroup(g)
  {
    [g.wordLen as Byte] + (EncodeInt(|g.entries|) + EncodeEntries(g.entries, g.wordLen))
  }

  function EncodeGroups(gs: seq<Group>): seq<Byte>
    requires ValidGroups(gs)
  {
    if gs == [] then []
    else
      ValidGroupsTail(gs);
      EncodeGroup(gs[0]) + EncodeGroups(gs[1..])
  }

  lemma {:induction false} ValidGroupsTail(gs: seq<Group>)
    requires ValidGroups(gs) && gs != []
    ensures ValidGroup(gs[0]) && ValidGroups(gs[1..])
    ensures WordCount(gs) == |gs[0].entries| + WordCount(gs[1..])
  {
    assert ValidGroup(gs[0]);
  }

  /** A revindex file holding the groups, in order. */
  function EncodeRevIndex(gs: seq<Group>): seq<Byte>
    requires ValidGroups(gs)
  {
    EncodeInt(WordCount(gs)) + EncodeGroups(gs)
  }

  /** The index the groups describe: every entry put in order, a later one replacing an earlier one. */
  function PutEntries(index: RevIndex, es: seq<Entry>): RevIndex
    decreases |es|
  {
    if es == [] then index else PutEntries(index[es[0].word := es[0].lids], es[1..])
  }

  function PutGroups(index: RevIndex, gs: seq<Group>): RevIndex
    decreases |gs|
  {
    if gs == [] then index else PutGroups(PutEntries(index, gs[0].entries), gs[1..])
  }

  // ----- round trip -----

  /** `bytes` sit in `data` at `pos`. */
  predicate At(data: seq<Byte>, pos: nat, bytes: seq<Byte>)
    decreases |bytes|
  {
    if bytes == [] then pos <= |data|
    else pos < |data| && data[pos] == bytes[0] && At(data, pos + 1, bytes[1..])
  }

  lemma {:induction false} AtMeans(data: seq<Byte>, pos: nat, bytes: seq<Byte>)
    ensures At(data, pos, bytes) <==> pos + |bytes| <= |data| && data[pos..pos + |bytes|] == bytes
    decreases |bytes|
  {
    if bytes != [] {
      AtMeans(data, pos + 1, bytes[1..]);
      if pos + |bytes| <= |data| {
        var slice := data[pos..pos + |bytes|];
        assert slice[0] == data[pos] && slice[1..] == data[pos + 1..pos + |bytes|];
        assert slice == bytes <==> slice[0] == bytes[0] && slice[1..] == bytes[1..];
      }
    }
  }

  lemma {:induction false} AtSplit(data: seq<Byte>, pos: nat, a: seq<Byte>, b: seq<Byte>)
    requires At(data, pos, a + b)
    ensures At(data, pos, a) && At(data, pos + |a|, b)
    decreases |a|
  {
    if a == [] {
      assert a + b == b;
      if b != [] {
        assert At(data, pos + 1, b[1..]);
      }
    } else {
      assert (a + b)[0] == a[0] && (a + b)[1..] == a[1..] + b;
      AtSplit(data, pos + 1, a[1..], b);
    }
  }

  lemma {:induction false} Uint16RoundTrip(data: seq<Byte>, pos: nat, n: int)
    requires 0 <= n < 0x10000 && At(data, pos, EncodeUint16(n))
    ensures ReadUint16(data, pos) == Some(Parsed(n, pos + 2))
  {
    AtMeans(data, pos, EncodeUint16(n));
    assert data[pos] == EncodeUint16(n)[0] && data[pos + 1] == EncodeUint16(n)[1];
  }

  lemma {:induction false} IntRoundTrip(data: seq<Byte>, pos: nat, n: int)
    requires -0x8000_0000 <= n < 0x8000_0000 && At(data, pos, EncodeInt(n))
    ensures ReadInt(data, pos) == Some(Parsed(n, pos + 4))
  {
    AtMeans(data, pos, EncodeInt(n));
    var bs := EncodeInt(n);
    assert data[pos] == bs[0] && data[pos + 1] == bs[1] && data[pos + 2] == bs[2] && data[pos + 3] == bs[3];
  }

  lemma {:induction false} StringRoundTrip(w: string)
    requires Latin1(w)
    ensures BytesToString(StringToBytes(w)) == w
  {
    if w != [] {
      assert Latin1(w[1..]);
      StringRoundTrip(w[1..]);
      assert StringToBytes(w)[1..] == StringToBytes(w[1..]);
    }
  }

  lemma {:induction false} RawRoundTrip(data: seq<Byte>, pos: nat, w: string)
    requires Latin1(w) && At(data, pos, StringToBytes(w))
    ensures ReadRaw(data, pos, |w|) == Some(Parsed(w, pos + |w|))
  {
    AtMeans(data, pos, StringToBytes(w));
    StringRoundTrip(w);
  }

  lemma {:induction false} LidRoundTrip(data: seq<Byte>, pos: nat, lid: int, last: int, first: bool)
    requires 0 <= lid < 0x8000 && At(data, pos, EncodeLid(lid, last, first))
    ensures DecodeLid(data, pos, last) == Some(Parsed(lid, pos + |EncodeLid(lid, last, first)|))
  {
    var bs := EncodeLid(lid, last, first);
    AtMeans(data, pos, bs);
    assert data[pos] == bs[0];
    if |bs| == 2 {
      assert data[pos + 1] == bs[1];
    }
  }

  /** Reading one more verse-list entry, whatever the bytes are. */
  lemma {:induction false} DecodeLidsStep(data: seq<Byte>, pos: nat, count: nat, last: int, e: Parsed<int>, rest: Parsed<seq<int>>)
    requires count > 0
    requires DecodeLid(data, pos, last) == Some(e)
    requires DecodeLids(data, e.next, count - 1, e.value) == Some(rest)
    ensures DecodeLids(data, pos, count, last) == Some(Parsed([e.value] + rest.value, rest.next))
  {
  }

  /** A written verse list reads back as the same list, whatever follows it. */
  lemma {:induction false} LidsRoundTrip(data: seq<Byte>, pos: nat, lids: seq<int>, last: int, first: bool)
    requires LidsInRange(lids) && At(data, pos, EncodeLids(lids, last, first))
    ensures DecodeLids(data, pos, |lids|, last) == Some(Parsed(lids, pos + |EncodeLids(lids, last, first)|))
    decreases |lids|
  {
    if lids == [] {
      assert EncodeLids(lids, last, first) == [];
    } else {
      var head := EncodeLid(lids[0], last, first);
      var tail := EncodeLids(lids[1..], lids[0], false);
      assert EncodeLids(lids, last, first) == head + tail;
      AtSplit(data, pos, head, tail);
      LidRoundTrip(data, pos, lids[0], last, first);
      LidsRoundTrip(data, pos + |head|, lids[1..], lids[0], false);
      DecodeLidsStep(data, pos, |lids|, last, Parsed(lids[0], pos + |head|),
        Parsed(lids[1..], pos + |head| + |tail|));
      assert [lids[0]] + lids[1..] == lids;
    }
  }

  /** The example of the format's documentation: lids 0xff, 0x100, 0x300, 0x305. */
  lemma {:induction false} DocumentedExample()
    ensures EncodeLids([0xff, 0x100, 0x300, 0x305], 0, true) == [0x80, 0xff, 0x01, 0x83, 0x00, 0x05]
    ensures DecodeLids([0x80, 0xff, 0x01, 0x83, 0x00, 0x05], 0, 4, 0) == Some(Parsed([0xff, 0x100, 0x300, 0x305], 6))
  {
    var lids := [0xff, 0x100, 0x300, 0x305];
    assert lids[1..] == [0x100, 0x300, 0x305] && lids[2..] == [0x300, 0x305] && lids[3..] == [0x305];
    assert EncodeLids([0x305], 0x300, false) == [0x05];
    assert EncodeLids([0x300, 0x305], 0x100, false) == [0x83, 0x00, 0x05];
    assert EncodeLids([0x100, 0x300, 0x305], 0xff, false) == [0x01, 0x83, 0x00, 0x05];
    var bytes: seq<Byte> := [0x80, 0xff, 0x01, 0x83, 0x00, 0x05];
    assert EncodeLids(lids, 0, true) == bytes;
    AtStart(bytes);
    LidsRoundTrip(bytes, 0, lids, 0, true);
  }

  /** What reading one word at `pos` yields: the entry `e`, ending at `next`. */
  predicate EntryReads(data: seq<Byte>, pos: nat, e: Entry, next: nat)
  {
    && ReadRaw(data, pos, |e.word|) == Some(Parsed(e.word, pos + |e.word|))
    && ReadUint16(data, pos + |e.word|) == Some(Parsed(|e.lids|, pos + |e.word| + 2))
    && DecodeLids(data, pos + |e.word| + 2, |e.lids|, 0) == Some(Parsed(e.lids, next))
  }

  lemma {:induction false} EntryRoundTrip(data: seq<Byte>, pos: nat, e: Entry)
    requires ValidEntry(e) && At(data, pos, EncodeEntry(e))
    ensures EntryReads(data, pos, e, pos + |EncodeEntry(e)|)
  {
    var w := StringToBytes(e.word);
    var c := EncodeUint16(|e.lids|);
    var l := EncodeLids(e.lids, 0, true);
    AtSplit(data, pos, w, c + l);
    AtSplit(data, pos + |w|, c, l);
    RawRoundTrip(data, pos, e.word);
    Uint16RoundTrip(data, pos + |w|, |e.lids|);
    LidsRoundTrip(data, pos + |w| + 2, e.lids, 0, true);
  }

  /** Reading one word of a group, whatever the bytes are. */
  lemma {:induction false} DecodeEntriesStep(data: seq<Byte>, pos: nat, remaining: int, wordLen: nat, index: RevIndex,
                                              w: Parsed<string>, c: Parsed<int>, l: Parsed<seq<int>>)
    requires remaining > 0
    requires ReadRaw(data, pos, wordLen) == Some(w)
    requires ReadUint16(data, w.next) == Some(c)
    requires DecodeLids(data, c.next, c.value, 0) == Some(l)
    ensures DecodeEntries(data, pos, remaining, wordLen, index)
      == DecodeEntries(data, l.next, remaining - 1, wordLen, index[w.value := l.value])
  {
  }

  /** The entries read back one after the other from `pos`, the `i`-th one ending at `ends[i]`. */
  predicate EntriesRead(data: seq<Byte>, pos: nat, es: seq<Entry>, ends: seq<nat>)
    decreases |es|
  {
    |ends| == |es| && (es == [] || (EntryReads(data, pos, es[0], ends[0]) && EntriesRead(data, ends[0], es[1..], ends[1..])))
  }

  /** Where the last of the entries ends. */
  function EndOf(pos: nat, ends: seq<nat>): nat
  {
    if ends == [] then pos else ends[|ends| - 1]
  }

  /** One more entry in front of entries that read back. */
  lemma {:induction false} EntriesReadCons(data: seq<Byte>, pos: nat, e: Entry, next: nat, es: seq<Entry>, rest: seq<nat>)
    returns (ends: seq<nat>)
    requires EntryReads(data, pos, e, next) && EntriesRead(data, next, es, rest)
    ensures EntriesRead(data, pos, [e] + es, ends) && EndOf(pos, ends) == EndOf(next, rest)
  {
    ends := [next] + rest;
    assert ([e] + es)[1..] == es && ends[1..] == rest;
  }

  /** The encoding of entries is the first entry's bytes followed by the others'. */
  lemma EntriesSplit(es: seq<Entry>, wordLen: nat)
    requires ValidEntries(es, wordLen) && es != []
    ensures ValidEntry(es[0]) && ValidEntries(es[1..], wordLen)
    ensures EncodeEntries(es, wordLen) == EncodeEntry(es[0]) + EncodeEntries(es[1..], wordLen)
  {
  }

  /** The first written entry reads back, and the others follow it. */
  lemma {:induction false} EntriesLayoutStep(data: seq<Byte>, pos: nat, es: seq<Entry>, wordLen: nat)
    requires ValidEntries(es, wordLen) && es != [] && At(data, pos, EncodeEntries(es, wordLen))
    ensures EntryReads(data, pos, es[0], pos + |EncodeEntry(es[0])|)
    ensures ValidEntries(es[1..], wordLen) && At(data, pos + |EncodeEntry(es[0])|, EncodeEntries(es[1..], wordLen))
    ensures |EncodeEntries(es, wordLen)| == |EncodeEntry(es[0])| + |EncodeEntries(es[1..], wordLen)|
  {
    EntriesSplit(es, wordLen);
    AtSplit(data, pos, EncodeEntry(es[0]), EncodeEntries(es[1..], wordLen));
    EntryRoundTrip(data, pos, es[0]);
  }

  /** Written entries lie one after the other. */
  lemma {:induction false} EntriesLayout(data: seq<Byte>, pos: nat, es: seq<Entry>, wordLen: nat) returns (ends: seq<nat>)
    requires ValidEntries(es, wordLen) && At(data, pos, EncodeEntries(es, wordLen))
    ensures EntriesRead(data, pos, es, ends) && EndOf(pos, ends) == pos + |EncodeEntries(es, wordLen)|
    decreases |es|
  {
    if es == [] {
      ends := [];
    } else {
      var e := es[0];
      EntriesLayoutStep(data, pos, es, wordLen);
      var rest := EntriesLayout(data, pos + |EncodeEntry(e)|, es[1..], wordLen);
      ends := EntriesReadCons(data, pos, e, pos + |EncodeEntry(e)|, es[1..], rest);
      assert es == [e] + es[1..];
    }
  }

  /** Entries that lie one after the other decode, each replacing its word's earlier list. */
  lemma {:induction false} EntriesDecode(data: seq<Byte>, pos: nat, es: seq<Entry>, ends: seq<nat>, wordLen: nat, index: RevIndex)
    requires EntriesRead(data, pos, es, ends) && ValidEntries(es, wordLen)
    ensures DecodeEntries(data, pos, |es|, wordLen, index) == Some(Parsed(PutEntries(index, es), EndOf(pos, ends)))
    decreases |es|
  {
    if es != [] {
      var e := es[0];
      assert |e.word| == wordLen;
      DecodeEntriesStep(data, pos, |es|, wordLen, index, Parsed(e.word, pos + wordLen),
        Parsed(|e.lids|, pos + wordLen + 2), Parsed(e.lids, ends[0]));
      EntriesDecode(data, ends[0], es[1..], ends[1..], wordLen, index[e.word := e.lids]);
      assert EndOf(ends[0], ends[1..]) == EndOf(pos, ends);
    }
  }

  /** Written entries read back. */
  lemma {:induction false} EntriesRoundTrip(data: seq<Byte>, pos: nat, es: seq<Entry>, wordLen: nat, index: RevIndex)
    requires ValidEntries(es, wordLen) && At(data, pos, EncodeEntries(es, wordLen))
    ensures DecodeEntries(data, pos, |es|, wordLen, index)
      == Some(Parsed(PutEntries(index, es), pos + |EncodeEntries(es, wordLen)|))
  {
    var ends := EntriesLayout(data, pos, es, wordLen);
    EntriesDecode(data, pos, es, ends, wordLen, index);
  }

  /** What reading one length group at `pos` yields, whatever index was read before it: the group `g`, ending at `next`. */
  ghost predicate GroupReads(data: seq<Byte>, pos: nat, g: Group, next: nat)
  {
    && ReadUint8(data, pos) == Some(Parsed(g.wordLen as int, pos + 1))
    && ReadInt(data, pos + 1) == Some(Parsed(|g.entries|, pos + 5))
    && forall index :: DecodeEntries(data, pos + 5, |g.entries|, g.wordLen, index)
                       == Some(Parsed(PutEntries(index, g.entries), next))
  }

  /** The groups read back one after the other from `pos`, the `i`-th one ending at `ends[i]`. */
  ghost predicate GroupsRead(data: seq<Byte>, pos: nat, gs: seq<Group>, ends: seq<nat>)
    decreases |gs|
  {
    |ends| == |gs| && (gs == [] || (GroupReads(data, pos, gs[0], ends[0]) && GroupsRead(data, ends[0], gs[1..], ends[1..])))
  }

  /** A written group reads back. */
  lemma {:induction false} GroupRoundTrip(data: seq<Byte>, pos: nat, g: Group)
    requires ValidGroup(g) && At(data, pos, EncodeGroup(g))
    ensures GroupReads(data, pos, g, pos + |EncodeGroup(g)|)
  {
    AtSplit(data, pos, [g.wordLen as Byte], EncodeInt(|g.entries|) + EncodeEntries(g.entries, g.wordLen));
    AtSplit(data, pos + 1, EncodeInt(|g.entries|), EncodeEntries(g.entries, g.wordLen));
    IntRoundTrip(data, pos + 1, |g.entries|);
    forall index
      ensures DecodeEntries(data, pos + 5, |g.entries|, g.wordLen, index)
              == Some(Parsed(PutEntries(index, g.entries), pos + |EncodeGroup(g)|))
    {
      EntriesRoundTrip(data, pos + 5, g.entries, g.wordLen, index);
    }
  }

  /** Written groups read back one after the other. */
  lemma {:induction false} GroupsLayout(data: seq<Byte>, pos: nat, gs: seq<Group>) returns (ends: seq<nat>)
    requires ValidGroups(gs) && At(data, pos, EncodeGroups(gs))
    ensures GroupsRead(data, pos, gs, ends)
    decreases |gs|
  {
    if gs == [] {
      ends := [];
    } else {
      var g := gs[0];
      ValidGroupsTail(gs);
      AtSplit(data, pos, EncodeGroup(g), EncodeGroups(gs[1..]));
      GroupRoundTrip(data, pos, g);
      var rest := GroupsLayout(data, pos + |EncodeGroup(g)|, gs[1..]);
      ends := [pos + |EncodeGroup(g)|] + rest;
      assert ends[1..] == rest;
    }
  }

  /** Reading a group that reads back, then stopping or going on. */
  lemma {:induction false} DecodeGroupsStep(data: seq<Byte>, pos: nat, g: Group, next: nat,
                                             total: int, wordCount: int, index: RevIndex)
    requires GroupReads(data, pos, g, next)
    ensures DecodeGroups(data, pos, total, wordCount, index)
      == if wordCount + |g.entries| >= total then Some(PutEntries(index, g.entries))
         else DecodeGroups(data, next, total, wordCount + |g.entries|, PutEntries(index, g.entries))
  {
    assert DecodeEntries(data, pos + 5, |g.entries|, g.wordLen, index)
           == Some(Parsed(PutEntries(index, g.entries), next));
  }

  /** Every group holds at least one word. */
  predicate NoEmptyGroup(gs: seq<Group>)
  {
    forall i :: 0 <= i < |gs| ==> |gs[i].entries| >= 1
  }

  /**
   * Groups that read back one after the other decode as the index they describe,
   * provided the count still to be reached, `total - wordCount`, is exactly the
   * number of words they hold.
   */
  lemma {:induction false} GroupsDecode(data: seq<Byte>, pos: nat, gs: seq<Group>, ends: seq<nat>,
                                         total: int, wordCount: int, index: RevIndex)
    requires GroupsRead(data, pos, gs, ends) && gs != [] && NoEmptyGroup(gs)
    requires total == wordCount + WordCount(gs)
    ensures DecodeGroups(data, pos, total, wordCount, index) == Some(PutGroups(index, gs))
    decreases |gs|
  {
    var g := gs[0];
    var index' := PutEntries(index, g.entries);
    assert PutGroups(index, gs) == PutGroups(index', gs[1..]);
    assert WordCount(gs) == |g.entries| + WordCount(gs[1..]);
    if gs[1..] == [] {
      DecodeLastGroup(data, pos, g, ends[0], total, wordCount, index);
    } else {
      assert WordCount(gs[1..]) >= |gs[1..][0].entries| >= 1;
      assert NoEmptyGroup(gs[1..]);
      DecodeNextGroup(data, pos, g, ends[0], total, wordCount, index);
      GroupsDecode(data, ends[0], gs[1..], ends[1..], total, wordCount + |g.entries|, index');
    }
  }

  lemma DecodeLastGroup(data: seq<Byte>, pos: nat, g: Group, next: nat, total: int, wordCount: int, index: RevIndex)
    requires GroupReads(data, pos, g, next) && wordCount + |g.entries| >= total
    ensures DecodeGroups(data, pos, total, wordCount, index) == Some(PutEntries(index, g.entries))
  {
    DecodeGroupsStep(data, pos, g, next, total, wordCount, index);
  }

  lemma DecodeNextGroup(data: seq<Byte>, pos: nat, g: Group, next: nat, total: int, wordCount: int, index: RevIndex)
    requires GroupReads(data, pos, g, next) && wordCount + |g.entries| < total
    ensures DecodeGroups(data, pos, total, wordCount, index)
            == DecodeGroups(data, next, total, wordCount + |g.entries|, PutEntries(index, g.entries))
  {
    DecodeGroupsStep(data, pos, g, next, total, wordCount, index);
  }

  /** The bytes of a sequence sit in it at position 0. */
  lemma {:induction false} AtStart(data: seq<Byte>)
    ensures At(data, 0, data)
  {
    AtMeans(data, 0, data);
  }

  /** Decoding inverts encoding: a written revindex reads back as the index its groups describe. */
  lemma {:induction false} RevIndexRoundTrip(gs: seq<Group>)
    requires ValidGroups(gs) && gs != []
    ensures DecodeRevIndex(EncodeRevIndex(gs)) == Some(PutGroups(map[], gs))
  {
    var data := EncodeRevIndex(gs);
    AtStart(data);
    AtSplit(data, 0, EncodeInt(WordCount(gs)), EncodeGroups(gs));
    IntRoundTrip(data, 0, WordCount(gs));
    var ends := GroupsLayout(data, 4, gs);
    assert NoEmptyGroup(gs) by {
      forall i | 0 <= i < |gs| ensures |gs[i].entries| >= 1 {
        assert ValidGroup(gs[i]);
      }
    }
    GroupsDecode(data, 4, gs, ends, WordCount(gs), 0, map[]);
  }
}
