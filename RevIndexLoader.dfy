/**
 * `loadRevIndex`: the cursor loop that reads the reverse index from its asset, and
 * the process-wide cache that keeps the last index read.  Each loop is proved to
 * compute the decoding function of the same name in RevIndexFormat, so the round
 * trip proved there carries over to the loader.
 */
module RevIndexLoader {
  import opened Wrappers
  import opened RevIndexFormat

  /** The lids read so far, in front of whatever the rest of the list decodes to. */
  function Prepend(lids: seq<int>, rest: Option<Parsed<seq<int>>>): Option<Parsed<seq<int>>>
  {
    match rest
    case None => None
    case Some(p) => Some(Parsed(lids + p.value, p.next))
  }

  lemma PrependNothing(rest: Option<Parsed<seq<int>>>)
    ensures Prepend([], rest) == rest
  {
    if rest.Some? {
      assert [] + rest.value.value == rest.value.value;
    }
  }

  /** Reading one more entry moves it from the undecoded rest to the lids read so far. */
  lemma {:induction false} PrependStep(data: seq<Byte>, pos: nat, count: nat, last: int, lids: seq<int>)
    requires count > 0
    ensures Prepend(lids, DecodeLids(data, pos, count, last)) ==
      match DecodeLid(data, pos, last)
      case None => None
      case Some(e) => Prepend(lids + [e.value], DecodeLids(data, e.next, count - 1, e.value))
  {
    match DecodeLid(data, pos, last)
    case None =>
    case Some(e) =>
      match DecodeLids(data, e.next, count - 1, e.value)
      case None =>
      case Some(rest) =>
        DecodeLidsStep(data, pos, count, last, e, rest);
        assert lids + ([e.value] + rest.value) == (lids + [e.value]) + rest.value;
  }

  /**
   * One verse-list entry: a byte below 0x80 is added to the previous lid; otherwise
   * it and the next byte, masked to 15 bits, are the lid itself.
   */
  method ReadLid(data: seq<Byte>, pos: nat, lastLid: int) returns (r: Option<Parsed<int>>)
    ensures r == DecodeLid(data, pos, lastLid)
  {
    var hr := ReadUint8(data, pos);
    if hr.None? {
      return None;
    }
    var h := hr.value.value;
    if h < 0x80 {
      return Some(Parsed(lastLid + h, hr.value.next));
    }
    var lr := ReadUint8(data, hr.value.next);
    if lr.None? {
      return None;
    }
    var l := lr.value.value;
    LidMask(h, l);
    return Some(Parsed((h * 0x100 + l) % 0x8000, lr.value.next));
  }

  /**
   * The verse list of one word: `lid_count` entries into a fresh array, each a
   * difference to the previous entry or an absolute lid masked to 15 bits.  A read
   * past the end of the data (an `IOException` in the source) yields `None`.
   */
  method ReadVerseList(data: seq<Byte>, start: nat, count: nat) returns (r: Option<Parsed<seq<int>>>)
    ensures r == DecodeLids(data, start, count, 0)
  {
    var lids := new int[count](_ => 0);
    var pos := start;
    var lastLid := 0;
    var j := 0;
    PrependNothing(DecodeLids(data, start, count, 0));
    assert lids[..0] == [];
    while j < count
      invariant 0 <= j <= count
      invariant Prepend(lids[..j], DecodeLids(data, pos, count - j, lastLid)) == DecodeLids(data, start, count, 0)
    {
      PrependStep(data, pos, count - j, lastLid, lids[..j]);
      var e := ReadLid(data, pos, lastLid);
      if e.None? {
        return None;
      }
      var lid := e.value.value;
      pos := e.value.next;
      ghost var before := lids[..j];
      assert Prepend(before + [lid], DecodeLids(data, pos, count - (j + 1), lid)) == DecodeLids(data, start, count, 0);
      lastLid := lid;
      lids[j] := lid;
      assert lids[..j + 1] == before + [lid];
      j := j + 1;
    }
    assert DecodeLids(data, pos, 0, lastLid) == Some(Parsed([], pos));
    assert lids[..count] + [] == lids[..];
    return Some(Parsed(lids[..], pos));
  }

  /**
   * The `word_by_len_count` words of one length group, each replacing any earlier
   * list of the same word; a negative count reads none.
   */
  method ReadWords(data: seq<Byte>, start: nat, count: int, wordLen: nat, index: RevIndex) returns (r: Option<Parsed<RevIndex>>)
    ensures r == DecodeEntries(data, start, count, wordLen, index)
  {
    var res := index;
    var pos := start;
    var i := 0;
    while i < count
      invariant DecodeEntries(data, pos, count - i, wordLen, res) == DecodeEntries(data, start, count, wordLen, index)
      decreases count - i
    {
      var w := ReadRaw(data, pos, wordLen);
      if w.None? {
        return None;
      }
      var c := ReadUint16(data, w.value.next);
      if c.None? {
        return None;
      }
      var lids := ReadVerseList(data, c.value.next, c.value.value);
      if lids.None? {
        return None;
      }
      res := res[w.value.value := lids.value.value];
      pos := lids.value.next;
      i := i + 1;
    }
    return Some(Parsed(res, pos));
  }

  /**
   * The whole loader loop: the total word count, then length groups until the
   * running count reaches or passes it.  `None` is the `null` the source returns
   * when the data ends early.
   */
  method ReadRevIndex(data: seq<Byte>) returns (r: Option<RevIndex>)
    ensures r == DecodeRevIndex(data)
  {
    var t := ReadInt(data, 0);
    if t.None? {
      return None;
    }
    var totalWordCount := t.value.value;
    var wordCount := 0;
    var res: RevIndex := map[];
    var pos := t.value.next;
    while true
      invariant DecodeGroups(data, pos, totalWordCount, wordCount, res) == DecodeRevIndex(data)
      decreases |data| - pos
    {
      var len := ReadUint8(data, pos);
      if len.None? {
        return None;
      }
      var n := ReadInt(data, len.value.next);
      if n.None? {
        return None;
      }
      var e := ReadWords(data, n.value.next, n.value.value, len.value.value, res);
      if e.None? {
        return None;
      }
      res := e.value.value;
      wordCount := wordCount + n.value.value;
      if wordCount >= totalWordCount {
        return Some(res);
      }
      pos := e.value.next;
    }
  }

  /**
   * `cache_revIndex`: the index read last, kept behind a soft reference.  `None`
   * stands for a reference never set or cleared by the garbage collector.
   */
  class RevIndexCache {
    var cached: Option<RevIndex>

    constructor()
      ensures cached.None?
    {
      cached := None;
    }

    /** The collector clearing the soft reference. */
    method Clear()
      modifies this
      ensures cached.None?
    {
      cached := None;
    }

    /**
     * `loadRevIndex()`: the cached index when there is one; otherwise the asset is
     * read (`None` when it cannot be opened) and a complete index is cached.
     */
    method Load(asset: Option<seq<Byte>>) returns (r: Option<RevIndex>)
      modifies this
      ensures old(cached).Some? ==> r == old(cached) && cached == old(cached)
      ensures old(cached).None? && asset.None? ==> r.None? && cached.None?
      ensures old(cached).None? && asset.Some? ==> r == DecodeRevIndex(asset.value) && cached == r
    {
      if cached.Some? {
        return cached;
      }
      if asset.None? {
        return None;
      }
      r := ReadRevIndex(asset.value);
      if r.Some? {
        cached := r;
      }
    }
  }
}
