/**
  A dictionary stream attached to a working stream, `LZ4_attach_dictionary`: the compressor looks into two tables at
  once, that of the working stream and, where it has nothing of the current block, that of the dictionary.
*/
module AttachedDictionary {
  import opened Wrappers
  import opened Lz4Format
  import opened BlockCompressor
  import opened IndexRescaling

  /** An attached stream as `LZ4_loadDict` has left it: its table, and where its dictionary lies. */
  datatype DictCtx = DictCtx(table: seq<nat>, dictionary: nat, dictSize: nat) {
    /** Indexes end at 64 KB and none lies before the dictionary. */
    predicate Valid() {
      |table| > 0 && Indexed(table, dictSize)
    }
  }

  /** All entries lie in a dictionary of that size that ends at 64 KB. */
  predicate Indexed(entries: seq<nat>, dictSize: nat) {
    && MINMATCH <= dictSize <= KB64
    && forall h :: 0 <= h < |entries| ==> entries[h] == 0 || KB64 - dictSize <= entries[h] <= KB64 - MINMATCH
  }

  /** The job of a block compressed with the two tables, at index `start` of the working stream. */
  function AttachedJob(dict: Bytes, src: Bytes, start: nat, entries: seq<nat>, hash: Bytes -> nat): Job
    requires start >= KB64
  {
    Job(dict + src, |dict|, start, ByU32, UsingDictCtx(entries, start - KB64), false, hash)
  }

  /** The job of the same block when the dictionary stream has been copied over the working stream. */
  function CopiedJob(dict: Bytes, src: Bytes, hash: Bytes -> nat): Job {
    Job(dict + src, |dict|, KB64, ByU32, UsingExtDict, false, hash)
  }

  /**
    Attaching is as good as copying: whatever the working stream's own table holds and wherever its indexes stand, the
    block is the one that would be written had the dictionary stream been copied over the working stream first.
  */
  lemma AttachedAsCopied(dict: Bytes, src: Bytes, start: nat, own: seq<nat>, entries: seq<nat>, hash: Bytes -> nat,
                         b: Budget, acceleration: nat)
    requires MINMATCH <= |dict| <= KB64 <= start && |own| == |entries| > 0 && acceleration >= 1
    requires forall h :: 0 <= h < |own| ==> own[h] < start
    ensures AttachedJob(dict, src, start, entries, hash).Valid() && CopiedJob(dict, src, hash).Valid()
    ensures Planned(AttachedJob(dict, src, start, entries, hash), own, b, acceleration).0
      == Planned(CopiedJob(dict, src, hash), entries, b, acceleration).0
  {
    hide Planned;
    var j, j2 := AttachedJob(dict, src, start, entries, hash), CopiedJob(dict, src, hash);
    assert j.v == [] + j2.v;
    PlannedSame(j, j2, [], start - KB64, own, b, acceleration);
    assert Seen(j, own, start - KB64) == entries;
  }

  // ---------------------------------------------------------------- the working stream's own table

  /** Every entry is an old one or was put while compressing this block. */
  ghost predicate OldOrNew(j: Job, before: seq<nat>, after: seq<nat>) {
    |after| == |before| && forall h :: 0 <= h < |after| ==> after[h] == before[h] || after[h] >= j.start
  }

  lemma OldOrNewPut(j: Job, before: seq<nat>, after: seq<nat>, h: nat, e: nat)
    requires OldOrNew(j, before, after) && h < |after| && e >= j.start
    ensures OldOrNew(j, before, after[h := e])
  {
  }

  lemma {:induction false} SearchOldOrNew(j: Job, before: seq<nat>, table: seq<nat>, p: nat, step: nat, nb: nat)
    requires j.s0 <= j.start && |table| > 0 && j.s0 <= p && p + MFLIMIT - 1 <= |j.v| && step >= 1 && nb >= 64
    requires OldOrNew(j, before, table)
    ensures OldOrNew(j, before, Search(j, table, p, step, nb).table)
    decreases |j.v| - p
  {
    hide OldOrNew, Taken, Search;
    SearchStep(j, table, p, step, nb);
    if p + step <= |j.v| - MFLIMIT + 1 {
      var h := j.HashAt(p, |table|);
      OldOrNewPut(j, before, table, h, p + j.Delta());
      if !Taken(j, j.Candidate(table[h], h), p) {
        SearchOldOrNew(j, before, table[h := p + j.Delta()], p + step, nb / 64, nb + 1);
      }
    }
  }

  lemma ChooseOldOrNew(j: Job, before: seq<nat>, table: seq<nat>, b: Budget, acceleration: nat, token: nat, anchor: nat,
                       ip: nat, at: Option<nat>)
    requires j.s0 <= j.start && |table| > 0 && acceleration >= 1 && j.s0 <= anchor <= ip && OldOrNew(j, before, table)
    requires if at.Some? then at.value < ip && ip + MFLIMIT <= |j.v| else ip + MFLIMIT - 1 <= |j.v|
    ensures OldOrNew(j, before, Choose(j, table, b, acceleration, token, anchor, ip, at).table)
  {
    hide OldOrNew, Search, Back, Common;
    if at.None? { SearchOldOrNew(j, before, table, ip, 1, acceleration * 64); }
  }

  lemma AfterMatchOldOrNew(j: Job, before: seq<nat>, table: seq<nat>, ip: nat)
    requires j.s0 <= j.start && |table| > 0 && j.s0 + 2 <= ip && ip + MFLIMIT <= |j.v| && OldOrNew(j, before, table)
    ensures OldOrNew(j, before, AfterMatch(j, table, ip).1)
  {
  }

  lemma {:induction false} SequencesOldOrNew(j: Job, before: seq<nat>, table: seq<nat>, b: Budget, acceleration: nat,
                                             token: nat, anchor: nat, ip: nat, at: Option<nat>)
    requires j.s0 <= j.start && |table| > 0 && acceleration >= 1 && j.s0 <= anchor <= ip && OldOrNew(j, before, table)
    requires if at.Some? then at.value < ip && ip + MFLIMIT <= |j.v| else ip + MFLIMIT - 1 <= |j.v|
    ensures OldOrNew(j, before, Sequences(j, table, b, acceleration, token, anchor, ip, at).table)
    decreases |j.v| - anchor
  {
    hide OldOrNew, Choose, AfterMatch, Sequences, WrittenSize, Covered;
    SequencesStep(j, table, b, acceleration, token, anchor, ip, at);
    ChooseOldOrNew(j, before, table, b, acceleration, token, anchor, ip, at);
    match Choose(j, table, b, acceleration, token, anchor, ip, at)
    case Stop(noRoom, t) =>
    case One(s, t) =>
      var end := anchor + |s.lits| + s.mlen;
      if end + MFLIMIT <= |j.v| {
        AfterMatchOldOrNew(j, before, t, end);
        var (at', t') := AfterMatch(j, t, end);
        SequencesOldOrNew(j, before, t', b, acceleration, token + WrittenSize(s), end,
                          if at'.Some? then end else end + 1, at');
      }
  }

  /** The table left behind by a whole block. */
  lemma PlannedOldOrNew(j: Job, table: seq<nat>, b: Budget, acceleration: nat)
    requires j.Valid() && |table| > 0 && acceleration >= 1
    ensures OldOrNew(j, table, Planned(j, table, b, acceleration).1)
  {
    hide Sequences;
    if |j.v| - j.s0 >= MFLIMIT + 1 {
      var t := table[j.HashAt(j.s0, |table|) := j.start];
      SequencesOldOrNew(j, table, t, b, acceleration, 0, j.s0, j.s0 + 1, None);
    }
  }
}
