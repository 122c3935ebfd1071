/**
  The entry points of the block decoder: with no history, with a prefix, with an external dictionary, and
  the streaming decoder that chooses between them. Whichever is chosen, a valid block is decoded to what
  it encodes.
*/
module DecoderApi {
  import opened Lz4Format
  import opened DecoderSpec
  import opened BlockDecoder

  /** The last part of `history` that a decoder is given decides as well as all of it. */
  lemma EncodesAfterWindow(b: Bytes, history: Bytes, content: Bytes, n: nat, given: Bytes)
    requires Encodes(b, history, content)
    requires n <= |history| && n <= |given| && history[|history| - n..] == given[|given| - n..]
    requires n >= DISTANCE_MAX || n == |history|
    ensures Encodes(b, given, content)
  {
    hide Encodes;
    var recent := history[|history| - n..];
    assert history == history[..|history| - n] + recent;
    assert given == given[..|given| - n] + recent;
    if n == |history| { assert history == recent; }
    EncodesWindow(b, history[..|history| - n], recent, content);
    EncodesWindow(b, given[..|given| - n], recent, content);
  }

  /** A decoder call on a valid block with enough room. */
  method DecompressValid(src: Bytes, buf: array<byte>, dst: nat, outputSize: nat, dict: DictMode, lowPrefix: int,
                         ext: Bytes, ghost content: Bytes)
    returns (r: int)
    requires dst + outputSize <= buf.Length && lowPrefix <= dst
    requires dict == UsingExtDict || ext == []
    requires if dict == WithPrefix64k then lowPrefix == dst - KB64 && lowPrefix >= -1 else lowPrefix >= 0
    requires Encodes(src, ext + buf[Low(lowPrefix)..dst], content)
    requires |content| <= outputSize && (outputSize > 0 || src == [0])
    modifies buf
    ensures r == |content| && buf[dst..dst + r] == content
    ensures forall i :: 0 <= i < dst || dst + outputSize <= i < buf.Length ==> buf[i] == old(buf[i])
  {
    hide SafeDecode, Encodes;
    ghost var history := ext + buf[Low(lowPrefix)..dst];
    SafeDecodeOfEncodes(src, history, content, |ext|, outputSize, false);
    assert content[..Min(outputSize, |content|)] == content;
    r := DecompressGeneric(src, buf, dst, outputSize, false, dict, lowPrefix, ext);
    assert (history + content)[|history|..] == content;
    assert (history + buf[dst..dst + r])[|history|..] == buf[dst..dst + r];
  }

  /** `LZ4_decompress_safe_partial`, without dictionary: any target gives the front of the full content. */
  method DecompressSafePartial(src: Bytes, buf: array<byte>, targetOutputSize: nat, dstCapacity: nat,
                               ghost content: Bytes)
    returns (r: int)
    requires dstCapacity <= buf.Length && Encodes(src, [], content)
    modifies buf
    ensures r == Min(Min(targetOutputSize, dstCapacity), |content|) && buf[..r] == content[..r]
  {
    r := DecompressPartial(src, buf, 0, Min(targetOutputSize, dstCapacity), NoDict, 0, [], content);
  }

  /** Partial decoding with any kind of history: `min(t, full size)` bytes, the front of the full decode. */
  method DecompressPartial(src: Bytes, buf: array<byte>, dst: nat, target: nat, dict: DictMode, lowPrefix: int,
                           ext: Bytes, ghost content: Bytes)
    returns (r: int)
    requires dst + target <= buf.Length && lowPrefix <= dst
    requires dict == UsingExtDict || ext == []
    requires if dict == WithPrefix64k then lowPrefix == dst - KB64 && lowPrefix >= -1 else lowPrefix >= 0
    requires Encodes(src, ext + buf[Low(lowPrefix)..dst], content)
    modifies buf
    ensures r == Min(target, |content|) && buf[dst..dst + r] == content[..r]
    ensures forall i :: 0 <= i < dst || dst + target <= i < buf.Length ==> buf[i] == old(buf[i])
  {
    hide SafeDecode, Encodes;
    ghost var history := ext + buf[Low(lowPrefix)..dst];
    SafeDecodeOfEncodes(src, history, content, |ext|, target, true);
    r := DecompressGeneric(src, buf, dst, target, true, dict, lowPrefix, ext);
    assert (history + content[..Min(target, |content|)])[|history|..] == content[..Min(target, |content|)];
    assert (history + buf[dst..dst + r])[|history|..] == buf[dst..dst + r];
  }

  /** What `given` ends with is all of `history`, or all of it that a block can refer to. */
  ghost predicate Covers(given: Bytes, history: Bytes) {
    var n := Min(|history|, DISTANCE_MAX);
    n <= |given| && given[|given| - n..] == history[|history| - n..]
  }

  lemma EncodesCovered(b: Bytes, given: Bytes, history: Bytes, content: Bytes)
    requires Covers(given, history) && Encodes(b, history, content)
    ensures Encodes(b, given, content)
  {
    hide Encodes;
    EncodesAfterWindow(b, history, content, Min(|history|, DISTANCE_MAX), given);
  }

  /** The result of a decoder call is the outcome specified: an error, or a count with the bytes at `dest`. */
  ghost predicate DecodedAs(outcome: Outcome, given: Bytes, result: int, mem: Bytes, dest: nat) {
    match outcome
    case Error => result < 0
    case Done(o) => 0 <= result && dest + result <= |mem| && o == given + mem[dest..dest + result]
    case Unspecified => true
  }

  /** The source is a valid block for a history that `given` covers, with room for its content. */
  ghost predicate Valued(source: Bytes, given: Bytes, size: nat, history: Bytes, content: Bytes) {
    Covers(given, history) && Encodes(source, history, content) && |content| <= size && (size > 0 || source == [0])
  }

  /** A decoder call on any source. */
  method DecodeGiven(source: Bytes, mem: array<byte>, dest: nat, size: nat, mode: DictMode, lowPrefix: int, dict: Bytes,
                     ghost given: Bytes, ghost good: bool, ghost history: Bytes, ghost content: Bytes)
    returns (result: int)
    requires dest + size <= mem.Length && lowPrefix <= dest
    requires mode == UsingExtDict || dict == []
    requires if mode == WithPrefix64k then lowPrefix == dest - KB64 && lowPrefix >= -1 else lowPrefix >= 0
    requires given == dict + mem[Low(lowPrefix)..dest]
    requires good ==> Valued(source, given, size, history, content)
    modifies mem
    ensures forall i :: 0 <= i < mem.Length && !(dest <= i < dest + size) ==> mem[i] == old(mem[i])
    ensures result <= size
    ensures DecodedAs(SafeDecode(source, given, |dict|, size, false), given, result, mem[..], dest)
    ensures good ==> result == |content| && mem[dest..dest + result] == content
  {
    hide Encodes, Covers, SafeDecode;
    result := DecompressGeneric(source, mem, dest, size, false, mode, lowPrefix, dict);
    if good {
      EncodesCovered(source, given, history, content);
      SafeDecodeOfEncodes(source, given, content, |dict|, size, false);
      assert content[..Min(size, |content|)] == content;
      assert (given + content)[|given|..] == content;
      assert (given + mem[dest..dest + result])[|given|..] == mem[dest..dest + result];
    }
  }

  /** The dictionary of a `usingDict` call: bytes elsewhere, or the `dictSize` bytes right before the output. */
  function GivenDict(adjacent: bool, before: Bytes, dictSize: nat, ext: Bytes): Bytes
    requires adjacent ==> dictSize <= |before|
  {
    if adjacent then before[|before| - dictSize..] else ext
  }

  /** What of it the block decoder is given: with a long one right before the output, the last 64 KB there. */
  function HandedDict(adjacent: bool, before: Bytes, dictSize: nat, ext: Bytes): Bytes
    requires adjacent ==> dictSize <= |before|
  {
    if adjacent && dictSize >= KB64 - 1 then before[Low(|before| - KB64)..]
    else GivenDict(adjacent, before, dictSize, ext)
  }

  lemma HandedCovers(adjacent: bool, before: Bytes, dictSize: nat, ext: Bytes)
    requires if adjacent then dictSize <= |before| && ext == [] else dictSize == |ext|
    ensures Covers(HandedDict(adjacent, before, dictSize, ext), GivenDict(adjacent, before, dictSize, ext))
  {
    var n := |before|;
    if adjacent && dictSize >= KB64 - 1 {
      TailOfTail(before, n - dictSize, DISTANCE_MAX);
      TailOfTail(before, Low(n - KB64), DISTANCE_MAX);
    }
  }

  lemma TailOfTail(a: Bytes, i: nat, n: nat)
    requires i + n <= |a|
    ensures a[i..][|a| - i - n..] == a[|a| - n..]
  {
  }

  /** `LZ4_decompress_safe_usingDict`. On any source it writes only the destination, and the outcome is that of the
      block decoder with the dictionary handed to it; a block that is valid for the dictionary given is decoded. */
  method DecompressUsingDict(src: Bytes, buf: array<byte>, dst: nat, maxOutputSize: nat, adjacent: bool, dictSize: nat,
                             ext: Bytes, ghost content: Bytes)
    returns (r: int)
    requires dst + maxOutputSize <= buf.Length
    requires if adjacent then dictSize <= dst && ext == [] else dictSize == |ext|
    modifies buf
    ensures r <= maxOutputSize
    ensures forall i :: 0 <= i < buf.Length && !(dst <= i < dst + maxOutputSize) ==> buf[i] == old(buf[i])
    ensures var given := HandedDict(adjacent, old(buf[..dst]), dictSize, ext);
      DecodedAs(SafeDecode(src, given, |ext|, maxOutputSize, false), given, r, buf[..], dst)
    ensures
      && |content| <= maxOutputSize && (maxOutputSize > 0 || src == [0])
      && Encodes(src, GivenDict(adjacent, old(buf[..dst]), dictSize, ext), content)
      ==> r == |content| && buf[dst..dst + r] == content
  {
    hide Encodes, GivenDict, DecodedAs, SafeDecode, Covers;
    ghost var before := buf[..dst];
    ghost var history := GivenDict(adjacent, before, dictSize, ext);
    var mode, lowPrefix, dict := NoDict, dst, [];
    if dictSize != 0 {
      if adjacent {
        if dictSize >= KB64 - 1 {
          mode, lowPrefix := WithPrefix64k, dst - KB64;
        } else {
          lowPrefix := dst - dictSize;
        }
      } else {
        mode, dict := UsingExtDict, ext;
      }
    }
    HandedCovers(adjacent, before, dictSize, ext);
    HandedAs(adjacent, before, dictSize, ext, Low(lowPrefix));
    assert buf[Low(lowPrefix)..dst] == before[Low(lowPrefix)..];
    ghost var good := |content| <= maxOutputSize && (maxOutputSize > 0 || src == [0]) && Encodes(src, history, content);
    r := DecodeGiven(src, buf, dst, maxOutputSize, mode, lowPrefix, dict, HandedDict(adjacent, before, dictSize, ext),
                     good, history, content);
  }

  lemma HandedAs(adjacent: bool, before: Bytes, dictSize: nat, ext: Bytes, low: nat)
    requires if adjacent then dictSize <= |before| && ext == [] else dictSize == |ext|
    requires low == if adjacent then (if dictSize >= KB64 - 1 then Low(|before| - KB64) else |before| - dictSize)
                    else |before|
    ensures HandedDict(adjacent, before, dictSize, ext) == ext + before[low..]
  {
    assert [] + before[low..] == before[low..] && ext + [] == ext;
  }

  // ---------------------------------------------------------------- streams

  lemma TailOfSum(a: Bytes, c: Bytes, n: nat)
    requires n <= |a| + |c|
    ensures (a + c)[|a| + |c| - n..] == if n <= |c| then c[|c| - n..] else a[|a| + |c| - n..] + c
  {
  }

  lemma SubTail(a: Bytes, k: nat, n: nat)
    requires k <= n <= |a|
    ensures a[|a| - n..][n - k..] == a[|a| - k..]
  {
  }

  /** What has been decoded is added to both. */
  lemma CoversMore(given: Bytes, history: Bytes, c: Bytes)
    requires Covers(given, history)
    ensures Covers(given + c, history + c)
  {
    var n, k := Min(|history|, DISTANCE_MAX), Min(|history| + |c|, DISTANCE_MAX);
    TailOfSum(given, c, k);
    TailOfSum(history, c, k);
    if k > |c| {
      SubTail(given, k - |c|, n);
      SubTail(history, k - |c|, n);
    }
  }

  /** Bytes in front of what covers the history may be overwritten. */
  lemma CoversKept(before: Bytes, after: Bytes, history: Bytes)
    requires Covers(before, history) && |after| == |before|
    requires forall i :: Max(0, |before| - Min(|history|, DISTANCE_MAX)) <= i < |before| ==> after[i] == before[i]
    ensures Covers(after, history)
  {
    var n := Min(|history|, DISTANCE_MAX);
    assert after[|after| - n..] == before[|before| - n..];
  }

  lemma CoversTail(a: Bytes, b: Bytes, history: Bytes)
    requires Covers(a, history) && |a| >= DISTANCE_MAX && |b| >= DISTANCE_MAX
    requires a[|a| - DISTANCE_MAX..] == b[|b| - DISTANCE_MAX..]
    ensures Covers(b, history)
  {
    var n := Min(|history|, DISTANCE_MAX);
    SubTail(a, n, DISTANCE_MAX);
    SubTail(b, n, DISTANCE_MAX);
  }

  /** More bytes in front do no harm. */
  lemma CoversLonger(x: Bytes, given: Bytes, history: Bytes)
    requires Covers(given, history)
    ensures Covers(x + given, history)
  {
    var n := Min(|history|, DISTANCE_MAX);
    TailOfSum(x, given, n);
  }

  /** `LZ4_streamDecode_t`: where the bytes decoded so far stand in memory. */
  class StreamDecode {
    var prefixEnd: nat
    var prefixSize: nat
    var externalDict: nat
    var extDictSize: nat

    ghost predicate Valid(size: nat)
      reads this
    {
      && prefixSize <= prefixEnd <= size && externalDict + extDictSize <= size
      && (prefixSize == 0 ==> extDictSize == 0)
    }

    ghost function External(mem: Bytes): Bytes
      requires Valid(|mem|)
      reads this
    {
      mem[externalDict..externalDict + extDictSize]
    }

    ghost function Prefix(mem: Bytes): Bytes
      requires Valid(|mem|)
      reads this
    {
      mem[prefixEnd - prefixSize..prefixEnd]
    }

    /** What the next block may refer to: everything known if it follows the prefix, else the prefix alone. */
    ghost function Available(mem: Bytes, dest: nat): Bytes
      requires Valid(|mem|)
      reads this
    {
      if dest == prefixEnd then External(mem) + Prefix(mem) else Prefix(mem)
    }

    /** The part of the last `needed` bytes known that a block can reach lies outside its destination; what stands
        further back may be overwritten, as happens when a ring buffer wraps around. */
    ghost predicate Apart(dest: nat, size: nat, needed: nat)
      reads this
    {
      var reach := Min(needed, DISTANCE_MAX);
      if dest == prefixEnd then Outside(externalDict, extDictSize, reach - prefixSize, dest, size)
      else Outside(prefixEnd - prefixSize, prefixSize, reach, dest, size)
    }

    /** The last `reach` of the `n` bytes at `at` are outside the destination. */
    static predicate Outside(at: int, n: nat, reach: int, dest: nat, size: nat) {
      var k := Max(0, Min(n, reach));
      k == 0 || size == 0 || dest >= at + n || dest + size <= at + n - k
    }

    /** `LZ4_setStreamDecode`: where to find the dictionary. */
    constructor (dictionary: nat, dictSize: nat)
      ensures prefixEnd == dictionary + dictSize && prefixSize == dictSize && extDictSize == 0 && externalDict == 0
    {
      prefixEnd, prefixSize, externalDict, extDictSize := dictionary + dictSize, dictSize, 0, 0;
    }

    /** What the block decoder is given as history, and how much of it as an external dictionary. */
    ghost function Handed(mem: Bytes, dest: nat): Bytes
      requires Valid(|mem|) && dest <= |mem|
      reads this
    {
      if prefixSize == 0 then []
      else if dest != prefixEnd then Prefix(mem)
      else if prefixSize >= KB64 - 1 then mem[Low(dest - KB64)..dest]
      else External(mem) + Prefix(mem)
    }

    ghost function HandedExt(dest: nat): nat
      reads this
    {
      if prefixSize == 0 then 0
      else if dest != prefixEnd then prefixSize
      else if prefixSize >= KB64 - 1 then 0
      else extDictSize
    }

    /**
      `LZ4_decompress_safe_continue`: the block goes on after the previous one, or elsewhere in memory, be it another
      buffer or the start of the same one. On any source the outcome is that of the block decoder with the history
      handed to it; without output the prefix stays what it was, but a block that was to start elsewhere has turned it
      into the external dictionary all the same. A block that is valid for `history` is decoded if the bytes
      available cover that; afterwards they cover the history with the new content, even where the destination has
      overwritten bytes too far back to be referred to.
    */
    method DecompressSafeContinue(source: Bytes, mem: array<byte>, dest: nat, maxOutputSize: nat, ghost history: Bytes,
                                  ghost content: Bytes)
      returns (result: int)
      requires Valid(mem.Length) && dest + maxOutputSize <= mem.Length
      modifies this, mem
      ensures forall i :: 0 <= i < mem.Length && !(dest <= i < dest + maxOutputSize) ==> mem[i] == old(mem[i])
      ensures Valid(mem.Length) && result <= maxOutputSize
      ensures DecodedAs(SafeDecode(source, old(Handed(mem[..], dest)), old(HandedExt(dest)), maxOutputSize, false),
                        old(Handed(mem[..], dest)), result, mem[..], dest)
      ensures if result > 0 then
          && prefixEnd == dest + result
          && prefixSize == if dest == old(prefixEnd) && old(prefixSize) > 0 then old(prefixSize) + result else result
        else prefixEnd == old(prefixEnd) && prefixSize == old(prefixSize)
      ensures
        if dest == old(prefixEnd) || old(prefixSize) == 0 then
          extDictSize == old(extDictSize) && externalDict == old(externalDict)
        else extDictSize == old(prefixSize) && externalDict == old(prefixEnd - prefixSize)
      ensures old(Ready(source, mem[..], dest, maxOutputSize, history, content)) ==>
        Delivered(mem[..], dest, result, history, content)
    {
      hide Encodes, Covers, DecodedAs, SafeDecode, Delivered;
      ghost var good := Ready(source, mem[..], dest, maxOutputSize, history, content);
      if prefixSize == 0 {
        if good { NothingKnown(mem[..], dest, history); }
        result := StartSegment(source, mem, dest, maxOutputSize, NoDict, [], good, history, content);
      } else if prefixEnd == dest {
        result := RollSegment(source, mem, dest, maxOutputSize, good, history, content);
      } else {
        extDictSize := prefixSize;
        externalDict := prefixEnd - extDictSize;
        var dict := mem[externalDict..externalDict + extDictSize];
        result := StartSegment(source, mem, dest, maxOutputSize, UsingExtDict, dict, good, history, content);
      }
    }

    /** The content has been decoded, and what is available again covers all of the history. */
    ghost predicate Delivered(mem: Bytes, dest: nat, result: int, history: Bytes, content: Bytes)
      requires Valid(|mem|)
      reads this
    {
      && result == |content| && dest + result <= |mem| && mem[dest..dest + result] == content
      && Covers(Available(mem, prefixEnd), history + content)
    }

    /** A block that is valid for a history that is available, with room for its content. */
    ghost predicate Ready(source: Bytes, mem: Bytes, dest: nat, maxOutputSize: nat, history: Bytes, content: Bytes)
      requires Valid(|mem|)
      reads this
    {
      && Apart(dest, maxOutputSize, |history|) && Covers(Available(mem, dest), history)
      && Encodes(source, history, content) && |content| <= maxOutputSize && (maxOutputSize > 0 || source == [0])
    }

    lemma NothingKnown(mem: Bytes, dest: nat, history: Bytes)
      requires Valid(|mem|) && prefixSize == 0 && Covers(Available(mem, dest), history)
      ensures Covers([], history)
    {
      hide Covers;
      assert External(mem) == [] && Prefix(mem) == [];
      assert Available(mem, dest) == [];
    }

    /** The block starts a new contiguous segment at `dest`; what it may refer to lies in the external dictionary. */
    method StartSegment(source: Bytes, mem: array<byte>, dest: nat, maxOutputSize: nat, mode: DictMode, dict: Bytes,
                        ghost good: bool, ghost history: Bytes, ghost content: Bytes)
      returns (result: int)
      requires Valid(mem.Length) && dest + maxOutputSize <= mem.Length
      requires dict == mem[externalDict..externalDict + extDictSize]
      requires (mode == UsingExtDict || (mode == NoDict && dict == []))
      requires extDictSize > 0 ==> prefixSize == extDictSize && prefixEnd == externalDict + extDictSize
      requires prefixSize == 0 || extDictSize > 0
      requires good ==>
        && Outside(externalDict, extDictSize, Min(|history|, DISTANCE_MAX), dest, maxOutputSize)
        && Valued(source, dict, maxOutputSize, history, content)
      modifies `prefixSize, `prefixEnd, mem
      ensures forall i :: 0 <= i < mem.Length && !(dest <= i < dest + maxOutputSize) ==> mem[i] == old(mem[i])
      ensures Valid(mem.Length) && result <= maxOutputSize
      ensures DecodedAs(SafeDecode(source, dict, |dict|, maxOutputSize, false), dict, result, mem[..], dest)
      ensures if result > 0 then prefixEnd == dest + result && prefixSize == result
              else prefixEnd == old(prefixEnd) && prefixSize == old(prefixSize)
      ensures good ==> Delivered(mem[..], dest, result, history, content)
    {
      hide Encodes, Covers, Outside, DecodedAs, SafeDecode, Delivered;
      ghost var before := mem[..];
      assert dict + mem[dest..dest] == dict;
      result := DecodeGiven(source, mem, dest, maxOutputSize, mode, dest, dict, dict, good, history, content);
      if result > 0 {
        prefixSize := result;
        prefixEnd := dest + result;
      }
      if good {
        FrontOverwritten(before, mem[..], externalDict, extDictSize, dest, maxOutputSize, history);
        SegmentDelivered(mem[..], dest, result, history, content);
      }
    }

    lemma SegmentDelivered(mem: Bytes, dest: nat, result: int, history: Bytes, content: Bytes)
      requires Valid(|mem|) && result == |content| && dest + result <= |mem| && mem[dest..dest + result] == content
      requires Covers(mem[externalDict..externalDict + extDictSize], history)
      requires result > 0 ==> prefixEnd == dest + result && prefixSize == result
      requires result == 0 ==> prefixSize == 0 || extDictSize > 0
      requires result == 0 && extDictSize > 0 ==>
        prefixSize == extDictSize && prefixEnd == externalDict + extDictSize
      ensures Delivered(mem, dest, result, history, content)
    {
      hide Covers;
      if result > 0 {
        CoversMore(mem[externalDict..externalDict + extDictSize], history, content);
      } else {
        StayedPut(mem, history, content);
      }
    }

    /** An empty block leaves the prefix in place. */
    lemma StayedPut(mem: Bytes, history: Bytes, content: Bytes)
      requires Valid(|mem|) && content == [] && (prefixSize == 0 || extDictSize > 0)
      requires extDictSize > 0 ==> prefixSize == extDictSize && prefixEnd == externalDict + extDictSize
      requires Covers(mem[externalDict..externalDict + extDictSize], history)
      ensures Covers(Available(mem, prefixEnd), history + content)
    {
      hide Covers;
      assert history + content == history;
      var dict := mem[externalDict..externalDict + extDictSize];
      if prefixSize == 0 {
        assert Available(mem, prefixEnd) == dict;
      } else {
        assert mem[prefixEnd - prefixSize..prefixEnd] == dict;
        CoversLonger(dict, dict, history);
      }
    }

    /** Writing to the destination leaves what can be reached of a dictionary as it was. */
    static lemma FrontOverwritten(before: Bytes, after: Bytes, at: nat, n: nat, dest: nat, size: nat, history: Bytes)
      requires |before| == |after| && at + n <= |before| && dest + size <= |before|
      requires forall i :: 0 <= i < |before| && !(dest <= i < dest + size) ==> after[i] == before[i]
      requires Outside(at, n, Min(|history|, DISTANCE_MAX), dest, size) && Covers(before[at..at + n], history)
      ensures Covers(after[at..at + n], history)
    {
      hide Covers;
      CoversKept(before[at..at + n], after[at..at + n], history);
    }

    /** A prefix of at least 65535 bytes is all a block can refer to, wherever it starts. */
    static lemma LongPrefix(mem: Bytes, ext: Bytes, start: nat, end: nat, history: Bytes)
      requires start + DISTANCE_MAX <= end <= |mem| && Covers(ext + mem[start..end], history)
      ensures Covers([] + mem[Low(end - KB64)..end], history)
    {
      hide Covers;
      var low := Low(end - KB64);
      var x, y := mem[start..end], mem[low..end];
      SubSlice(mem, start, end - DISTANCE_MAX, end);
      SubSlice(mem, low, end - DISTANCE_MAX, end);
      TailOfLonger(ext, x, y);
      assert [] + y == y;
      CoversTail(ext + x, y, history);
    }

    static lemma TailOfLonger(ext: Bytes, x: Bytes, y: Bytes)
      requires DISTANCE_MAX <= |x| && DISTANCE_MAX <= |y| && x[|x| - DISTANCE_MAX..] == y[|y| - DISTANCE_MAX..]
      ensures (ext + x)[|ext + x| - DISTANCE_MAX..] == y[|y| - DISTANCE_MAX..]
    {
      TailOfSum(ext, x, DISTANCE_MAX);
    }

    lemma HandedIs(mem: Bytes, dest: nat)
      requires Valid(|mem|) && prefixSize > 0 && prefixEnd == dest
      ensures Handed(mem, dest)
        == if prefixSize >= KB64 - 1 then [] + mem[Low(dest - KB64)..dest] else External(mem) + Prefix(mem)
    {
      hide External, Prefix;
      if prefixSize >= KB64 - 1 { NothingBefore(mem[Low(dest - KB64)..dest]); }
    }

    static lemma NothingBefore(x: Bytes)
      ensures [] + x == x
    {
    }

    lemma HandedValued(source: Bytes, mem: Bytes, dest: nat, size: nat, history: Bytes, content: Bytes)
      requires Valid(|mem|) && prefixSize > 0 && prefixEnd == dest
      requires Valued(source, External(mem) + Prefix(mem), size, history, content)
      ensures Valued(source, Handed(mem, dest), size, history, content)
    {
      hide Covers, Encodes;
      if prefixSize >= KB64 - 1 {
        LongPrefix(mem, External(mem), dest - prefixSize, dest, history);
        HandedIs(mem, dest);
      }
    }

    /** The block follows the previous one: a long prefix alone, a short prefix alone, or a short prefix
        preceded by an external dictionary. */
    method DecodeRolled(source: Bytes, mem: array<byte>, dest: nat, maxOutputSize: nat, ghost good: bool,
                        ghost history: Bytes, ghost content: Bytes)
      returns (result: int)
      requires Valid(mem.Length) && dest + maxOutputSize <= mem.Length && prefixSize > 0 && prefixEnd == dest
      requires good ==> Valued(source, External(mem[..]) + Prefix(mem[..]), maxOutputSize, history, content)
      modifies mem
      ensures forall i :: 0 <= i < mem.Length && !(dest <= i < dest + maxOutputSize) ==> mem[i] == old(mem[i])
      ensures result <= maxOutputSize
      ensures DecodedAs(SafeDecode(source, old(Handed(mem[..], dest)), HandedExt(dest), maxOutputSize, false),
                        old(Handed(mem[..], dest)), result, mem[..], dest)
      ensures good ==> result == |content| && mem[dest..dest + result] == content
    {
      hide Encodes, Covers, DecodedAs, SafeDecode, Handed, Valued;
      ghost var all := mem[..];
      HandedIs(all, dest);
      if good { HandedValued(source, all, dest, maxOutputSize, history, content); }
      var mode, lowPrefix, dict := NoDict, dest - prefixSize, [];
      if prefixSize >= KB64 - 1 {
        mode, lowPrefix := WithPrefix64k, dest - KB64;
      } else if extDictSize > 0 {
        mode, dict := UsingExtDict, mem[externalDict..externalDict + extDictSize];
      } else {
        assert External(all) == [];
      }
      assert mem[Low(lowPrefix)..dest] == all[Low(lowPrefix)..dest];
      ghost var given := Handed(all, dest);
      assert given == dict + mem[Low(lowPrefix)..dest] && |dict| == HandedExt(dest);
      hide HandedExt;
      result := DecodeGiven(source, mem, dest, maxOutputSize, mode, lowPrefix, dict, given, good, history, content);
    }

    method RollSegment(source: Bytes, mem: array<byte>, dest: nat, maxOutputSize: nat, ghost good: bool,
                       ghost history: Bytes, ghost content: Bytes)
      returns (result: int)
      requires Valid(mem.Length) && dest + maxOutputSize <= mem.Length && prefixSize > 0 && prefixEnd == dest
      requires good ==>
        && Outside(externalDict, extDictSize, Min(|history|, DISTANCE_MAX) - prefixSize, dest, maxOutputSize)
        && Valued(source, External(mem[..]) + Prefix(mem[..]), maxOutputSize, history, content)
      modifies `prefixSize, `prefixEnd, mem
      ensures forall i :: 0 <= i < mem.Length && !(dest <= i < dest + maxOutputSize) ==> mem[i] == old(mem[i])
      ensures Valid(mem.Length) && result <= maxOutputSize
      ensures DecodedAs(SafeDecode(source, old(Handed(mem[..], dest)), old(HandedExt(dest)), maxOutputSize, false),
                        old(Handed(mem[..], dest)), result, mem[..], dest)
      ensures if result > 0 then prefixEnd == dest + result && prefixSize == old(prefixSize) + result
              else prefixEnd == old(prefixEnd) && prefixSize == old(prefixSize)
      ensures good ==> Delivered(mem[..], dest, result, history, content)
    {
      hide Encodes, Covers, DecodedAs, SafeDecode, Handed;
      ghost var before, start := mem[..], prefixEnd - prefixSize;
      result := DecodeRolled(source, mem, dest, maxOutputSize, good, history, content);
      ghost var after := mem[..];
      if good { Rolled(before, after, start, dest, maxOutputSize, externalDict, extDictSize, history, content); }
      if result > 0 {
        prefixSize := prefixSize + result;
        prefixEnd := prefixEnd + result;
      }
    }

    static lemma Rolled(before: Bytes, after: Bytes, start: nat, dest: nat, size: nat, at: nat, n: nat, history: Bytes,
                        content: Bytes)
      requires |before| == |after| && start <= dest && dest + size <= |before| && at + n <= |before|
      requires |content| <= size
      requires forall i :: 0 <= i < |before| && !(dest <= i < dest + size) ==> after[i] == before[i]
      requires Outside(at, n, Min(|history|, DISTANCE_MAX) - (dest - start), dest, size)
      requires Covers(before[at..at + n] + before[start..dest], history) && after[dest..dest + |content|] == content
      ensures Covers(after[at..at + n] + after[start..dest + |content|], history + content)
    {
      hide Covers;
      var x, y := before[at..at + n] + before[start..dest], after[at..at + n] + after[start..dest];
      TailKept(before, after, start, dest, size, at, n, Min(|history|, DISTANCE_MAX));
      CoversKept(x, y, history);
      CoversMore(y, history, content);
      SliceJoin(after, start, dest, dest + |content|);
      Assoc(after[at..at + n], after[start..dest], content);
    }

    /** Writing at the destination changes nothing that can be reached of what precedes it. */
    static lemma TailKept(before: Bytes, after: Bytes, start: nat, dest: nat, size: nat, at: nat, n: nat, reach: nat)
      requires |before| == |after| && start <= dest && dest + size <= |before| && at + n <= |before|
      requires forall i :: 0 <= i < |before| && !(dest <= i < dest + size) ==> after[i] == before[i]
      requires Outside(at, n, reach - (dest - start), dest, size)
      ensures var x, y := before[at..at + n] + before[start..dest], after[at..at + n] + after[start..dest];
        |x| == |y| && forall i :: Max(0, |x| - reach) <= i < |x| ==> y[i] == x[i]
    {
      var x, y := before[at..at + n] + before[start..dest], after[at..at + n] + after[start..dest];
      forall i | Max(0, |x| - reach) <= i < |x|
        ensures y[i] == x[i]
      {
        if i < n {
          assert x[i] == before[at + i] && y[i] == after[at + i];
        } else {
          assert x[i] == before[start + (i - n)] && y[i] == after[start + (i - n)];
        }
      }
    }
  }
}
