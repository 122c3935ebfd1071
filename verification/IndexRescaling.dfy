/**
  Moving the index base of a hash table, as `LZ4_renormDictT` does before indexes grow too large: no decision of the
  compressor changes, and so no byte that it writes.
*/
module IndexRescaling {
  import opened Wrappers
  import opened Lz4Format
  import opened BlockCompressor

  const MAX_OFFSET := 0x8000_0000

  /** Whether a block may refer to less than the table could suggest (dictSmall). */
  predicate DictSmall(dictSize: nat, currentOffset: nat) {
    dictSize < KB64 && dictSize < currentOffset
  }

  /** A table entry after its index base has moved up by `delta`. */
  function Rescaled(e: nat, delta: nat): nat {
    if e < delta then 0 else e - delta
  }

  /** How far the index base moves: unsigned 32-bit subtraction. */
  function Delta32(currentOffset: nat): (d: nat)
    ensures KB64 <= currentOffset <= MAX_OFFSET ==> d == currentOffset - KB64
    ensures currentOffset < KB64 ==> d > MAX_OFFSET
  {
    (currentOffset - KB64) % 0x1_0000_0000
  }

  /** All entries of a table, rescaled. */
  function RescaledAll(table: seq<nat>, delta: nat): (t: seq<nat>)
    ensures |t| == |table| && forall h :: 0 <= h < |t| ==> t[h] == Rescaled(table[h], delta)
  {
    seq(|table|, h requires 0 <= h < |table| => Rescaled(table[h], delta))
  }

  /** The job of a streaming block after the dictionary bytes `dict`, at index `start`. */
  function StreamJob(dict: Bytes, src: Bytes, start: nat, mode: DictDirective, hash: Bytes -> nat): Job {
    Job(dict + src, |dict|, start, ByU32, mode, DictSmall(|dict|, start), hash)
  }

  /** The dictionary that is left after renormalisation. */
  function LastWindow(dict: Bytes): Bytes {
    if |dict| > KB64 then dict[|dict| - KB64..] else dict
  }

  /** The same block seen with indexes lower by `delta` and, if the dictionary reaches further back than a match can,
      without its first bytes `older`; an attached stream may have become an external dictionary. */
  ghost predicate Shifted(j: Job, j2: Job, older: Bytes, delta: nat) {
    && j.v == older + j2.v && j.s0 == |older| + j2.s0 && j.s0 <= j.start && j2.s0 <= j2.start
    && j.start == j2.start + delta && j2.start >= KB64
    && j.tableType == j2.tableType == ByU32 && j.small == j2.small && j.hash == j2.hash
    && j2.dict == (if j.dict.UsingDictCtx? then UsingExtDict else j.dict)
    && (older == [] || (j2.s0 >= KB64 && !j.small))
  }

  /** What the compressor sees in its table, rescaled. */
  function Seen(j: Job, table: seq<nat>, delta: nat): (t: seq<nat>)
    ensures |t| == |table| && forall h :: 0 <= h < |t| ==> t[h] == Rescaled(j.Candidate(table[h], h), delta)
  {
    seq(|table|, h requires 0 <= h < |table| => Rescaled(j.Candidate(table[h], h), delta))
  }

  lemma SeenAlone(j: Job, table: seq<nat>, delta: nat)
    requires !j.dict.UsingDictCtx?
    ensures Seen(j, table, delta) == RescaledAll(table, delta)
  {
  }

  lemma SliceShifted(older: Bytes, v: Bytes, i: nat, k: nat)
    requires i <= k <= |v|
    ensures (older + v)[|older| + i..|older| + k] == v[i..k]
  {
  }

  /** A candidate is taken before the rescaling exactly when it is taken after it, and is then the same match, too near
      for the bytes left out. */
  lemma TakenSame(j: Job, j2: Job, older: Bytes, delta: nat, e: nat, p: nat)
    requires Shifted(j, j2, older, delta) && j2.s0 <= p && p + MFLIMIT <= |j2.v|
    ensures Taken(j, e, |older| + p) <==> Taken(j2, Rescaled(e, delta), p)
    ensures Taken(j, e, |older| + p) ==>
      var m, m2 := e - j.Delta(), Rescaled(e, delta) - j2.Delta();
      m == |older| + m2 && |older| + p - m <= DISTANCE_MAX
  {
    var m2 := Rescaled(e, delta) - j2.Delta();
    if 0 <= m2 && m2 + 4 <= |j2.v| {
      SliceShifted(older, j2.v, m2, m2 + 4);
      SliceShifted(older, j2.v, p, p + 4);
    }
  }

  lemma HashSame(j: Job, j2: Job, older: Bytes, delta: nat, p: nat, size: nat)
    requires Shifted(j, j2, older, delta) && p + 8 <= |j2.v| && size > 0
    ensures j.HashAt(|older| + p, size) == j2.HashAt(p, size)
  {
    SliceShifted(older, j2.v, p, p + 8);
  }

  /** Putting a position into the table. */
  lemma RescaledPut(j: Job, table: seq<nat>, delta: nat, h: nat, e: nat)
    requires h < |table| && e >= delta && e >= j.start
    ensures Seen(j, table[h := e], delta) == Seen(j, table, delta)[h := e - delta]
  {
  }

  ghost predicate SameSearch(j: Job, r: Searched, r2: Searched, shift: nat, delta: nat) {
    && r2.table == Seen(j, r.table, delta)
    && match r
       case Miss(t) => r2.Miss?
       case Hit(ip, m, t) => r2.Hit? && ip == shift + r2.ip && m == shift + r2.m && ip - m <= DISTANCE_MAX
  }

  lemma {:induction false} SearchSame(j: Job, j2: Job, older: Bytes, delta: nat, table: seq<nat>, p: nat, step: nat,
                                      nb: nat)
    requires Shifted(j, j2, older, delta) && |table| > 0 && j2.s0 <= p && p + MFLIMIT - 1 <= |j2.v| && step >= 1
    requires nb >= 64
    ensures SameSearch(j, Search(j, table, |older| + p, step, nb), Search(j2, Seen(j, table, delta), p, step, nb),
                       |older|, delta)
    decreases |j2.v| - p
  {
    hide Taken, Search, Shifted, Seen;
    SameLength(j, j2, older, delta);
    SearchStep(j, table, |older| + p, step, nb);
    SearchStep(j2, Seen(j, table, delta), p, step, nb);
    if p + step <= |j2.v| - MFLIMIT + 1 {
      HashSame(j, j2, older, delta, p, |table|);
      var h := j.HashAt(|older| + p, |table|);
      var e := j.Candidate(table[h], h);
      TakenSame(j, j2, older, delta, e, p);
      var t := table[h := |older| + p + j.Delta()];
      RescaledPut(j, table, delta, h, |older| + p + j.Delta());
      if !Taken(j, e, |older| + p) { SearchSame(j, j2, older, delta, t, p + step, nb / 64, nb + 1); }
    }
  }

  lemma {:induction false} BackSame(older: Bytes, v: Bytes, anchor: nat, ip: nat, m: nat, low: nat, low2: nat)
    requires m < ip <= |v| && (low == |older| + low2 || (low == 0 && low2 == 0 && ip < anchor + m))
    ensures Back(older + v, |older| + anchor, |older| + ip, |older| + m, low) == Back(v, anchor, ip, m, low2)
    decreases m
  {
    var w := older + v;
    if m > 0 {
      assert w[|older| + ip - 1] == v[ip - 1] && w[|older| + m - 1] == v[m - 1];
      BackSame(older, v, anchor, ip - 1, m - 1, low, low2);
    }
  }

  lemma {:induction false} CommonSame(older: Bytes, v: Bytes, a: nat, b: nat, limit: nat)
    requires b <= a <= limit <= |v|
    ensures Common(older + v, |older| + a, |older| + b, |older| + limit) == Common(v, a, b, limit)
    decreases limit - a
  {
    var w := older + v;
    if a < limit {
      assert w[|older| + a] == v[a] && w[|older| + b] == v[b];
      CommonSame(older, v, a + 1, b + 1, limit);
    }
  }

  ghost predicate SameChosen(j: Job, c: Chosen, c2: Chosen, delta: nat) {
    && c2.table == Seen(j, c.table, delta)
    && match c
       case Stop(noRoom, t) => c2.Stop? && c2.noRoom == noRoom
       case One(s, t) => c2.One? && c2.s == s
  }

  lemma ChooseMatchSame(j: Job, j2: Job, older: Bytes, delta: nat, table: seq<nat>, b: Budget, token: nat, anchor: nat,
                        ip: nat, m: nat)
    requires Shifted(j, j2, older, delta) && anchor <= ip && m < ip && ip + MFLIMIT <= |j2.v|
    ensures SameChosen(j, ChooseMatch(j, table, b, token, |older| + anchor, |older| + ip, |older| + m),
                       ChooseMatch(j2, Seen(j, table, delta), b, token, anchor, ip, m), delta)
  {
    hide Seen, Common;
    CommonSame(older, j2.v, ip + MINMATCH, m + MINMATCH, |j2.v| - LASTLITERALS);
    SliceShifted(older, j2.v, anchor, ip);
  }

  lemma ChooseSame(j: Job, j2: Job, older: Bytes, delta: nat, table: seq<nat>, b: Budget, acceleration: nat, token: nat,
                   anchor: nat, ip: nat, at: Option<nat>)
    requires Shifted(j, j2, older, delta) && |table| > 0 && acceleration >= 1 && j2.s0 <= anchor <= ip
    requires if at.Some? then at.value < ip && ip + MFLIMIT <= |j2.v| else ip + MFLIMIT - 1 <= |j2.v|
    ensures SameChosen(
      j, Choose(j, table, b, acceleration, token, |older| + anchor, |older| + ip,
             if at.Some? then Some(|older| + at.value) else None),
      Choose(j2, Seen(j, table, delta), b, acceleration, token, anchor, ip, at), delta)
  {
    hide Search, ChooseMatch, Back, Seen;
    if at.Some? {
      ChooseMatchSame(j, j2, older, delta, table, b, token, anchor, ip, at.value);
    } else {
      SearchSame(j, j2, older, delta, table, ip, 1, acceleration * 64);
      match Search(j2, Seen(j, table, delta), ip, 1, acceleration * 64)
      case Miss(t) =>
      case Hit(p, m, t) =>
        var t1 := Search(j, table, |older| + ip, 1, acceleration * 64).table;
        BackSame(older, j2.v, anchor, p, m, j.LowLimit(|older| + m), j2.LowLimit(m));
        var k := Back(j2.v, anchor, p, m, j2.LowLimit(m));
        ChooseMatchSame(j, j2, older, delta, t1, b, token, anchor, p - k, m - k);
    }
  }

  /** The table after position `p` has been put into it. */
  function Filled(j: Job, table: seq<nat>, p: nat): (t: seq<nat>)
    requires j.s0 <= j.start && |table| > 0 && p + 8 <= |j.v|
    ensures |t| == |table|
  {
    table[j.HashAt(p, |table|) := p + j.Delta()]
  }

  lemma FilledSame(j: Job, j2: Job, older: Bytes, delta: nat, table: seq<nat>, p: nat)
    requires Shifted(j, j2, older, delta) && |table| > 0 && p + 8 <= |j2.v| && p >= j2.s0
    ensures Filled(j2, Seen(j, table, delta), p) == Seen(j, Filled(j, table, |older| + p), delta)
  {
    HashSame(j, j2, older, delta, p, |table|);
    RescaledPut(j, table, delta, j2.HashAt(p, |table|), |older| + p + j.Delta());
  }

  lemma AfterMatchSame(j: Job, j2: Job, older: Bytes, delta: nat, table: seq<nat>, ip: nat)
    requires Shifted(j, j2, older, delta) && |table| > 0 && j2.s0 + 2 <= ip && ip + MFLIMIT <= |j2.v|
    ensures var (at, t) := AfterMatch(j, table, |older| + ip);
      var (at2, t2) := AfterMatch(j2, Seen(j, table, delta), ip);
      t2 == Seen(j, t, delta) && at == if at2.Some? then Some(|older| + at2.value) else None
  {
    hide Taken, Shifted, Seen, Job.HashAt, AfterMatch;
    SameLength(j, j2, older, delta);
    var p := ip - 2;
    var t := Filled(j, table, |older| + p);
    FilledSame(j, j2, older, delta, table, p);
    FilledSame(j, j2, older, delta, t, ip);
    HashSame(j, j2, older, delta, ip, |table|);
    var h := j.HashAt(|older| + ip, |table|);
    TakenSame(j, j2, older, delta, j.Candidate(t[h], h), ip);
    AfterMatchParts(j, table, |older| + ip);
    AfterMatchParts(j2, Seen(j, table, delta), ip);
    RescaledAt(j, t, delta, h);
  }

  lemma AfterMatchParts(j: Job, table: seq<nat>, ip: nat)
    requires j.s0 <= j.start && |table| > 0 && 2 <= ip && ip + MFLIMIT <= |j.v|
    ensures var t := Filled(j, table, ip - 2);
      var h := j.HashAt(ip, |table|);
      var e := j.Candidate(t[h], h);
      AfterMatch(j, table, ip) == (if Taken(j, e, ip) then Some(e - j.Delta()) else None, Filled(j, t, ip))
  {
  }

  lemma RescaledAt(j: Job, table: seq<nat>, delta: nat, h: nat)
    requires h < |table|
    ensures Seen(j, table, delta)[h] == Rescaled(j.Candidate(table[h], h), delta)
  {
  }

  ghost predicate SameRun(j: Job, r: Run, r2: Run, delta: nat) {
    r2.noRoom == r.noRoom && r2.seqs == r.seqs && r2.table == Seen(j, r.table, delta) && r2.size == r.size
  }

  lemma {:induction false} SequencesSame(j: Job, j2: Job, older: Bytes, delta: nat, table: seq<nat>, b: Budget,
                                         acceleration: nat, token: nat, anchor: nat, ip: nat, at: Option<nat>)
    requires Shifted(j, j2, older, delta) && |table| > 0 && acceleration >= 1 && j2.s0 <= anchor <= ip
    requires if at.Some? then at.value < ip && ip + MFLIMIT <= |j2.v| else ip + MFLIMIT - 1 <= |j2.v|
    ensures SameRun(
      j, Sequences(j, table, b, acceleration, token, |older| + anchor, |older| + ip,
                if at.Some? then Some(|older| + at.value) else None),
      Sequences(j2, Seen(j, table, delta), b, acceleration, token, anchor, ip, at), delta)
    decreases |j2.v| - anchor
  {
    hide Choose, AfterMatch, Shifted, Sequences, WrittenSize, Covered;
    SameLength(j, j2, older, delta);
    var first := if at.Some? then Some(|older| + at.value) else None;
    SequencesStep(j, table, b, acceleration, token, |older| + anchor, |older| + ip, first);
    SequencesStep(j2, Seen(j, table, delta), b, acceleration, token, anchor, ip, at);
    ChooseSame(j, j2, older, delta, table, b, acceleration, token, anchor, ip, at);
    match Choose(j2, Seen(j, table, delta), b, acceleration, token, anchor, ip, at)
    case Stop(noRoom, t) =>
    case One(s, t2) =>
      var c := Choose(j, table, b, acceleration, token, |older| + anchor, |older| + ip, first);
      var end := anchor + |s.lits| + s.mlen;
      if end + MFLIMIT <= |j2.v| {
        AfterMatchSame(j, j2, older, delta, c.table, end);
        var (at', t') := AfterMatch(j, c.table, |older| + end);
        var at2 := AfterMatch(j2, t2, end).0;
        SequencesSame(j, j2, older, delta, t', b, acceleration, token + WrittenSize(s), end,
                      if at2.Some? then end else end + 1, at2);
      }
  }

  /** One sequence, and those behind it. */
  lemma SequencesStep(j: Job, table: seq<nat>, b: Budget, acceleration: nat, token: nat, anchor: nat, ip: nat,
                      at: Option<nat>)
    requires j.s0 <= j.start && |table| > 0 && acceleration >= 1 && anchor <= ip
    requires if at.Some? then at.value < ip && ip + MFLIMIT <= |j.v| else ip + MFLIMIT - 1 <= |j.v|
    ensures var r := Sequences(j, table, b, acceleration, token, anchor, ip, at);
      match Choose(j, table, b, acceleration, token, anchor, ip, at)
      case Stop(noRoom, t) => r == Run(noRoom, [], t, token)
      case One(s, t) =>
        var end := anchor + |s.lits| + s.mlen;
        if end + MFLIMIT > |j.v| then r == Run(false, [s], t, token + WrittenSize(s))
        else
          var (at', t') := AfterMatch(j, t, end);
          var rest := Sequences(j, t', b, acceleration, token + WrittenSize(s), end, if at'.Some? then end else end + 1,
                                at');
          r == Run(rest.noRoom, [s] + rest.seqs, rest.table, rest.size)
  {
    hide Choose, AfterMatch, Covered, WrittenSize;
  }

  lemma SameLength(j: Job, j2: Job, older: Bytes, delta: nat)
    requires Shifted(j, j2, older, delta)
    ensures |j.v| == |older| + |j2.v| && j.s0 == |older| + j2.s0 && j.s0 <= j.start && j2.s0 <= j2.start
    ensures j.start == j2.start + delta && !j2.dict.UsingDictCtx?
  {
  }

  /** The whole block: what is written is the same, and the tables left behind again differ by the rescaling only. */
  lemma PlannedSame(j: Job, j2: Job, older: Bytes, delta: nat, table: seq<nat>, b: Budget, acceleration: nat)
    requires Shifted(j, j2, older, delta) && j.Valid() && j2.Valid() && |table| > 0 && acceleration >= 1
    ensures Planned(j2, Seen(j, table, delta), b, acceleration).0 == Planned(j, table, b, acceleration).0
    ensures Planned(j2, Seen(j, table, delta), b,
                    acceleration).1 == Seen(j, Planned(j, table, b, acceleration).1, delta)
  {
    hide Sequences;
    if |j2.v| - j2.s0 >= MFLIMIT + 1 {
      HashSame(j, j2, older, delta, j2.s0, |table|);
      var h := j.HashAt(j.s0, |table|);
      var t := table[h := j.start];
      RescaledPut(j, table, delta, h, j.start);
      SequencesSame(j, j2, older, delta, t, b, acceleration, 0, j2.s0, j2.s0 + 1, None);
    }
    var run := if |j.v| - j.s0 >= MFLIMIT + 1 then AllSequences(j, table, b, acceleration)
      else Run(false, [], table, 0);
    var anchor := j2.s0 + Covered(run.seqs);
    RestShifted(older, j2.v, anchor);
  }

  lemma RestShifted(older: Bytes, v: Bytes, i: nat)
    requires i <= |v|
    ensures (older + v)[|older| + i..] == v[i..]
  {
  }

  // ---------------------------------------------------------------- a whole stream

  /** The part of the compressor's state that decides what is written. */
  datatype Encoder = Encoder(table: seq<nat>, start: nat, dict: Bytes) {
    ghost predicate Valid() {
      |table| > 0 && |dict| <= start
    }
  }

  /** A block is compressed, or the dictionary is cut to its last bytes (it is saved, or a block overwrites its front).
      */
  datatype Event = Compress(src: Bytes, mode: DictDirective, b: Budget, acceleration: nat) | Keep(n: nat) {
    predicate Valid() {
      match this
      case Compress(src, mode, b, acceleration) =>
        0 < |src| <= MAX_INPUT_SIZE && (mode == WithPrefix64k || mode == UsingExtDict) && acceleration >= 1
      case Keep(n) => n <= KB64
    }
  }

  predicate ValidEvents(events: seq<Event>) {
    forall i :: 0 <= i < |events| ==> events[i].Valid()
  }

  /** An external dictionary of less than four bytes is dropped. */
  function DictFor(dict: Bytes, mode: DictDirective): Bytes {
    if mode == UsingExtDict && |dict| < MINMATCH then [] else dict
  }

  function Step(e: Encoder, ev: Event, hash: Bytes -> nat): (r: (Option<Block>, Encoder))
    requires e.Valid() && ev.Valid()
    ensures r.1.Valid()
  {
    match ev
    case Keep(n) => (None, e.(dict := e.dict[|e.dict| - Min(n, |e.dict|)..]))
    case Compress(src, mode, b, acceleration) =>
      var d := DictFor(e.dict, mode);
      var (plan, table) := Planned(StreamJob(d, src, e.start, mode, hash), e.table, b, acceleration);
      (plan, Encoder(table, e.start + |src|, if mode == WithPrefix64k then d + src else src))
  }

  /** `LZ4_renormDictT` before a block of the given size. */
  function Renormed(e: Encoder, size: nat): (r: Encoder)
    requires e.Valid() && size <= MAX_INPUT_SIZE
    ensures r.Valid()
  {
    if e.start + size > MAX_OFFSET then Encoder(RescaledAll(e.table, e.start - KB64), KB64, LastWindow(e.dict)) else e
  }

  /** The blocks of a run, with or without moving the index base when indexes grow too large. */
  function Outputs(e: Encoder, events: seq<Event>, hash: Bytes -> nat, renorm: bool): seq<Option<Block>>
    requires e.Valid() && ValidEvents(events)
    decreases |events|
  {
    if |events| == 0 then []
    else
      var ev := events[0];
      var (block, next) := Step(if renorm && ev.Compress? then Renormed(e, |ev.src|) else e, ev, hash);
      [block] + Outputs(next, events[1..], hash, renorm)
  }

  /** The same state but for the index base and what is too far back to matter. */
  ghost predicate SameBut(e: Encoder, e2: Encoder, older: Bytes, delta: nat) {
    && e.Valid() && e2.Valid() && e.start == e2.start + delta && e2.table == RescaledAll(e.table, delta)
    && e.dict == older + e2.dict
    && (older == [] || |e2.dict| >= KB64)
    && (delta > 0 || older != [] ==> e2.start >= KB64)
  }

  lemma RescaledByNothing(table: seq<nat>)
    ensures RescaledAll(table, 0) == table
  {
  }

  lemma RescaledTwice(table: seq<nat>, a: nat, b: nat)
    ensures RescaledAll(RescaledAll(table, a), b) == RescaledAll(table, a + b)
  {
  }

  lemma WindowSplit(older: Bytes, dict: Bytes)
    ensures older + dict[..|dict| - |LastWindow(dict)|] + LastWindow(dict) == older + dict
  {
    var n := |dict| - |LastWindow(dict)|;
    assert dict == dict[..n] + dict[n..];
    Assoc(older, dict[..n], dict[n..]);
  }

  /** Moving the index base once more. */
  lemma RenormedSame(e: Encoder, e2: Encoder, older: Bytes, delta: nat, size: nat) returns (older': Bytes, delta': nat)
    requires SameBut(e, e2, older, delta) && size <= MAX_INPUT_SIZE
    ensures SameBut(e, Renormed(e2, size), older', delta')
  {
    older', delta' := older, delta;
    if e2.start + size > MAX_OFFSET {
      delta' := delta + (e2.start - KB64);
      older' := older + e2.dict[..|e2.dict| - |LastWindow(e2.dict)|];
      RescaledTwice(e.table, delta, e2.start - KB64);
      WindowSplit(older, e2.dict);
    }
  }

  /** The next event has the same effect. */
  lemma StepSame(e: Encoder, e2: Encoder, older: Bytes, delta: nat, ev: Event, hash: Bytes -> nat)
    returns (older': Bytes)
    requires SameBut(e, e2, older, delta) && ev.Valid()
    ensures Step(e2, ev, hash).0 == Step(e, ev, hash).0
    ensures SameBut(Step(e, ev, hash).1, Step(e2, ev, hash).1, older', delta)
  {
    hide Planned;
    if delta == 0 && older == [] {
      RescaledByNothing(e.table);
      assert e2 == e;
      older' := [];
      NothingOlder(Step(e, ev, hash).1);
    } else if ev.Keep? {
      older' := KeepSame(e.dict, e2.dict, older, ev.n);
    } else {
      older' := CompressSame(e, e2, older, delta, ev, hash);
    }
  }

  lemma NothingOlder(e: Encoder)
    requires e.Valid()
    ensures SameBut(e, e, [], 0)
  {
    RescaledByNothing(e.table);
    assert [] + e.dict == e.dict;
  }

  lemma KeepSame(dict: Bytes, dict2: Bytes, older: Bytes, n: nat) returns (older': Bytes)
    requires dict == older + dict2 && (older == [] || |dict2| >= KB64) && n <= KB64
    ensures older' == [] && dict[|dict| - Min(n, |dict|)..] == older' + dict2[|dict2| - Min(n, |dict2|)..]
  {
    older' := [];
    if older == [] {
      assert dict == dict2;
    } else {
      assert dict[|dict| - n..] == dict2[|dict2| - n..];
    }
    assert [] + dict2[|dict2| - Min(n, |dict2|)..] == dict2[|dict2| - Min(n, |dict2|)..];
  }

  lemma CompressSame(e: Encoder, e2: Encoder, older: Bytes, delta: nat, ev: Event, hash: Bytes -> nat)
    returns (older': Bytes)
    requires SameBut(e, e2, older, delta) && ev.Valid() && ev.Compress? && e2.start >= KB64
    ensures Step(e2, ev, hash).0 == Step(e, ev, hash).0
    ensures SameBut(Step(e, ev, hash).1, Step(e2, ev, hash).1, older', delta)
  {
    hide Planned;
    var d, d2 := DictFor(e.dict, ev.mode), DictFor(e2.dict, ev.mode);
    var o := if d == [] then [] else older;
    assert d == o + d2;
    var j, j2 := StreamJob(d, ev.src, e.start, ev.mode, hash), StreamJob(d2, ev.src, e2.start, ev.mode, hash);
    assert j.v == o + j2.v;
    PlannedSame(j, j2, o, delta, e.table, ev.b, ev.acceleration);
    SeenAlone(j, e.table, delta);
    SeenAlone(j, Planned(j, e.table, ev.b, ev.acceleration).1, delta);
    older' := if ev.mode == WithPrefix64k then o else [];
    assert [] + ev.src == ev.src;
  }

  /**
    Moving the index base is invisible: over any run, however often it happens, the blocks written are those of a
    compressor whose indexes grow without bound.
  */
  lemma {:induction false} RenormInvisible(e: Encoder, e2: Encoder, older: Bytes, delta: nat, events: seq<Event>,
                                           hash: Bytes -> nat)
    requires SameBut(e, e2, older, delta) && ValidEvents(events)
    ensures Outputs(e2, events, hash, true) == Outputs(e, events, hash, false)
    decreases |events|
  {
    hide SameBut, Step, Renormed;
    if |events| > 0 {
      var ev := events[0];
      var older1, delta1, e3 := older, delta, e2;
      StillValid(e, e2, older, delta);
      if ev.Compress? {
        older1, delta1 := RenormedSame(e, e2, older, delta, |ev.src|);
        e3 := Renormed(e2, |ev.src|);
      }
      var older2 := StepSame(e, e3, older1, delta1, ev, hash);
      RenormInvisible(Step(e, ev, hash).1, Step(e3, ev, hash).1, older2, delta1, events[1..], hash);
    }
  }

  lemma StillValid(e: Encoder, e2: Encoder, older: Bytes, delta: nat)
    requires SameBut(e, e2, older, delta)
    ensures e.Valid() && e2.Valid()
  {
  }

  /** In particular from any one state. */
  lemma RenormChangesNothing(e: Encoder, events: seq<Event>, hash: Bytes -> nat)
    requires e.Valid() && ValidEvents(events)
    ensures Outputs(e, events, hash, true) == Outputs(e, events, hash, false)
  {
    NothingOlder(e);
    RenormInvisible(e, e, [], 0, events, hash);
  }
}
