/**
  Runs of the stream compressor: what its caller does, where the dictionary then is, and what is written, which is what
  an encoder with unbounded indexes would write.
*/
module StreamRuns {
  import opened Wrappers
  import opened Lz4Format
  import opened BlockCompressor
  import opened IndexRescaling
  import opened FastStream

  /** What a caller of the compressor does: put a block somewhere in memory and compress it within a budget, or save the
      dictionary. */
  datatype Op = Block(source: nat, bytes: Bytes, capacity: nat, acceleration: int) | Save(safeBuffer: nat, size: int)

  /** The new block overwrites none of the dictionary, or only its front. */
  predicate Permitted(op: Op, size: nat, dictionary: nat, dictSize: nat) {
    match op
    case Block(source, bytes, capacity, acceleration) =>
      var dictEnd, sourceEnd := dictionary + dictSize, source + |bytes|;
      && sourceEnd <= size && |bytes| <= MAX_INPUT_SIZE
      && (|bytes| == 0 || dictSize == 0 || sourceEnd <= dictionary || source >= dictEnd || sourceEnd < dictEnd)
    case Save(safeBuffer, n) => safeBuffer + Min(dictSize, KB64) <= size
  }

  /** Where the dictionary of the compressor is after some steps: this depends on sizes and places only. */
  function PlaceAfter(ops: seq<Op>): Where {
    if |ops| == 0 then Where(0, 0, 0)
    else
      var w := PlaceAfter(ops[..|ops| - 1]);
      match ops[|ops| - 1]
      case Block(source, bytes, capacity, acceleration) => w.After(source, |bytes|)
      case Save(safeBuffer, size) => w.Saved(safeBuffer, size)
  }

  lemma PlaceNext(ops: seq<Op>, n: nat)
    requires n < |ops|
    ensures PlaceAfter(ops[..n + 1])
      == match ops[n]
         case Block(source, bytes, capacity, acceleration) => PlaceAfter(ops[..n]).After(source, |bytes|)
         case Save(safeBuffer, size) => PlaceAfter(ops[..n]).Saved(safeBuffer, size)
  {
    assert ops[..n + 1][..n] == ops[..n];
  }

  /** Step `i` of a run keeps the rules. */
  predicate Allowed(ops: seq<Op>, i: nat, size: nat)
    requires i < |ops|
  {
    var w := PlaceAfter(ops[..i]);
    Permitted(ops[i], size, w.dictionary, w.dictSize)
  }

  /** A block always leaves a dictionary that ends with it. */
  lemma EndAfter(w: Where, source: nat, size: nat)
    ensures w.After(source, size).DictEnd() == source + size
  {
  }

  /** One way to keep the rules: blocks at ascending places that do not overlap. */
  lemma AscendingAllowed(ops: seq<Op>, i: nat, size: nat)
    requires i < |ops| && forall k :: 0 <= k < |ops| ==> ops[k].Block? && |ops[k].bytes| <= MAX_INPUT_SIZE
    requires forall k :: 0 <= k < |ops| ==> ops[k].source + |ops[k].bytes| <= size
    requires forall k :: 0 <= k < |ops| - 1 ==> ops[k].source + |ops[k].bytes| <= ops[k + 1].source
    ensures Allowed(ops, i, size)
  {
    hide PlaceAfter;
    if i > 0 {
      PlaceNext(ops, i - 1);
      EndAfter(PlaceAfter(ops[..i - 1]), ops[i - 1].source, |ops[i - 1].bytes|);
      assert ops[i - 1].source + |ops[i - 1].bytes| <= ops[i - 1 + 1].source;
    } else {
      PlaceFirst(ops);
    }
  }

  predicate Enough(op: Op) {
    op.Block? ==> op.capacity >= BlockCompressor.CompressBound(|op.bytes|)
  }

  /** How far a run gets: only a step that breaks the rules, or whose budget is below the bound for its block, can end
      it; before it all steps kept the rules. A caller who sees to both beforehand gets to the end. */
  ghost predicate RunsTo(ops: seq<Op>, done: nat, size: nat) {
    && done <= |ops| && (forall i :: 0 <= i < done ==> Allowed(ops, i, size))
    && (done < |ops| ==> !Allowed(ops, done, size) || !Enough(ops[done]))
    && ((forall i :: 0 <= i < |ops| ==> Allowed(ops, i, size) && Enough(ops[i])) ==> done == |ops|)
  }

  lemma PlaceFirst(ops: seq<Op>)
    ensures PlaceAfter(ops[..0]) == Where(0, 0, 0)
  {
  }

  lemma NotEnough(op: Op)
    requires op.Block? && op.capacity < BlockCompressor.CompressBound(|op.bytes|)
    ensures !Enough(op)
  {
  }

  /** The blocks put into the stream. */
  function BlocksOf(ops: seq<Op>): seq<Bytes> {
    if |ops| == 0 then []
    else
      var op := ops[|ops| - 1];
      BlocksOf(ops[..|ops| - 1]) + if op.Block? then [op.bytes] else []
  }

  lemma BlocksNext(ops: seq<Op>, n: nat)
    requires n < |ops|
    ensures BlocksOf(ops[..n + 1]) == BlocksOf(ops[..n]) + if ops[n].Block? then [ops[n].bytes] else []
  {
    assert ops[..n + 1][..n] == ops[..n];
  }

  // ---------------------------------------------------------------- an encoder with unbounded indexes

  function Cutting(n: nat, k: nat): seq<Event> {
    if k < n then [Keep(k)] else []
  }

  function CompressEvent(w: Where, op: Op): Event
    requires op.Block?
  {
    Compress(op.bytes, ModeOf(w.Located(op.source, |op.bytes|).1), Limited(op.capacity), Accel(op.acceleration))
  }

  /** A step as an encoder sees it that knows nothing of places. */
  function StepEvents(w: Where, op: Op): seq<Event> {
    match op
    case Block(source, bytes, capacity, acceleration) =>
      if |bytes| == 0 then Cutting(w.dictSize, w.After(source, 0).dictSize)
      else
        Cutting(w.Renormed(|bytes|).dictSize, w.Located(source, |bytes|).0.dictSize) + [CompressEvent(w, op)]
    case Save(safeBuffer, size) => [Keep(w.Saved(safeBuffer, size).dictSize)]
  }

  function EventsOf(ops: seq<Op>): seq<Event> {
    if |ops| == 0 then []
    else EventsOf(ops[..|ops| - 1]) + StepEvents(PlaceAfter(ops[..|ops| - 1]), ops[|ops| - 1])
  }

  lemma EventsNext(ops: seq<Op>, n: nat)
    requires n < |ops|
    ensures EventsOf(ops[..n + 1]) == EventsOf(ops[..n]) + StepEvents(PlaceAfter(ops[..n]), ops[n])
  {
    assert ops[..n + 1][..n] == ops[..n];
  }

  /** The state of an encoder with unbounded indexes after a run. */
  function Reached(e: Encoder, events: seq<Event>, hash: Bytes -> nat): (r: Encoder)
    requires e.Valid() && ValidEvents(events)
    ensures r.Valid()
    decreases |events|
  {
    if |events| == 0 then e else Reached(Step(e, events[0], hash).1, events[1..], hash)
  }

  lemma {:induction false} RunJoin(e: Encoder, a: seq<Event>, b: seq<Event>, hash: Bytes -> nat)
    requires e.Valid() && ValidEvents(a) && ValidEvents(b)
    ensures ValidEvents(a + b)
    ensures Reached(e, a + b, hash) == Reached(Reached(e, a, hash), b, hash)
    ensures Outputs(e, a + b, hash, false)
      == Outputs(e, a, hash, false) + Outputs(Reached(e, a, hash), b, hash, false)
    decreases |a|
  {
    hide Step;
    if |a| == 0 {
      assert a + b == b;
    } else {
      var next := Step(e, a[0], hash).1;
      assert (a + b)[1..] == a[1..] + b;
      RunJoin(next, a[1..], b, hash);
    }
  }

  lemma OneEvent(e: Encoder, ev: Event, hash: Bytes -> nat)
    requires e.Valid() && ev.Valid()
    ensures ValidEvents([ev]) && Reached(e, [ev], hash) == Step(e, ev, hash).1
    ensures Outputs(e, [ev], hash, false) == [Step(e, ev, hash).0]
  {
    hide Step;
    var next := Step(e, ev, hash).1;
    assert [ev][1..] == [];
    assert Reached(next, [], hash) == next && Outputs(next, [], hash, false) == [];
  }

  /** The stream's state as that of an encoder. */
  function EncoderAt(table: seq<nat>, w: Where, history: Bytes): Encoder
    requires w.dictSize <= |history|
  {
    Encoder(table, w.offset, history[|history| - w.dictSize..])
  }

  /** The encoder after cutting its dictionary for a block and rescaling. */
  function Prepared(e: Encoder, w: Where, source: nat, n: nat, hash: Bytes -> nat): (r: Encoder)
    requires e.Valid() && w.dictSize <= w.offset <= MAX_OFFSET && 0 < n <= MAX_INPUT_SIZE
    ensures r.Valid()
  {
    LocatedFacts(w, source, n);
    var k := w.Located(source, n).0.dictSize;
    Renormed(if k < w.Renormed(n).dictSize then Step(e, Keep(k), hash).1 else e, n)
  }

  lemma PreparedIs(table: seq<nat>, w: Where, history: Bytes, source: nat, n: nat, hash: Bytes -> nat)
    requires |table| > 0 && w.dictSize <= |history| && w.dictSize <= w.offset <= MAX_OFFSET && 0 < n <= MAX_INPUT_SIZE
    ensures var (e, l) := (EncoderAt(table, w, history), w.Located(source, n).0);
      && e.Valid() && l.dictSize <= w.dictSize
      && Prepared(e, w, source, n, hash) == EncoderAt(RenormedTable(w.offset, table, n), l, history)
  {
    hide Where.Located, RescaledAll, RenormedTable;
    LocatedFacts(w, source, n);
    var e, k, r := EncoderAt(table, w, history), w.Located(source, n).0.dictSize, w.Renormed(n);
    if k < r.dictSize {
      SubTailOf(history, w.dictSize, k);
      RenormedIs(table, w.(dictSize := k), history, n);
    } else {
      RenormedIs(table, w, history, n);
    }
  }

  /** Rescaling, for stream and encoder. */
  lemma RenormedIs(table: seq<nat>, w: Where, history: Bytes, n: nat)
    requires |table| > 0 && w.dictSize <= |history| && w.dictSize <= w.offset <= MAX_OFFSET && 0 < n <= MAX_INPUT_SIZE
    ensures var r := w.Renormed(n);
      Renormed(EncoderAt(table, w, history), n)
        == Encoder(RenormedTable(w.offset, table, n), r.offset, history[|history| - r.dictSize..])
  {
    hide RescaledAll;
    SubTailOf(history, w.dictSize, Min(w.dictSize, KB64));
  }

  /** A block is one more step. */
  lemma CompressStep(e: Encoder, src: Bytes, prefix: bool, olimit: nat, acceleration: nat, hash: Bytes -> nat,
                     written: Bytes, after: seq<nat>)
    requires e.Valid() && 0 < |src| <= MAX_INPUT_SIZE && acceleration >= 1
    requires !prefix ==> e.dict == [] || |e.dict| >= MINMATCH
    requires var j := StreamJob(e.dict, src, e.start, ModeOf(prefix), hash);
      j.Valid() && PlanCarriedOut(j, e.table, Limited(olimit), acceleration, written, after)
    ensures var (plan, next) := Step(e, Compress(src, ModeOf(prefix), Limited(olimit), acceleration), hash);
      && AsPlanned(plan, written)
      && next == Encoder(after, e.start + |src|, if prefix then e.dict + src else src)
  {
    hide Planned, AsPlanned;
  }

  lemma DictAfter(table: seq<nat>, w: Where, history: Bytes, source: nat, src: Bytes)
    requires w.dictSize <= |history| && w.dictSize <= w.offset <= MAX_OFFSET && 0 < |src| <= MAX_INPUT_SIZE
    ensures var (l, prefix) := w.Located(source, |src|);
      var d := history[|history| - l.dictSize..];
      && l.dictSize <= |history| && w.After(source, |src|).dictSize <= |history + src|
      && EncoderAt(table, w.After(source, |src|), history + src)
         == Encoder(table, l.offset + |src|, if prefix then d + src else src)
  {
    LocatedFacts(w, source, |src|);
    var k, h := w.Located(source, |src|).0.dictSize, history + src;
    assert h[|h| - (k + |src|)..] == history[|history| - k..] + src;
    assert h[|h| - |src|..] == src;
  }

  /** A block of the stream is a step of the encoder, after cutting the dictionary and rescaling. */
  lemma EncoderSteps(table: seq<nat>, w: Where, history: Bytes, op: Op, hash: Bytes -> nat, written: Bytes,
                     after: seq<nat>)
    requires |table| > 0 && w.dictSize <= |history| && w.dictSize <= w.offset <= MAX_OFFSET
    requires op.Block? && 0 < |op.bytes| <= MAX_INPUT_SIZE
    requires CarriedOut(w, table, op.source, history, op.bytes, hash, op.capacity, Accel(op.acceleration), written,
                        after)
    ensures EncoderAt(table, w, history).Valid() && w.After(op.source, |op.bytes|).dictSize <= |history + op.bytes|
    ensures var e := Prepared(EncoderAt(table, w, history), w, op.source, |op.bytes|, hash);
      var (plan, next) := Step(e, CompressEvent(w, op), hash);
      && AsPlanned(plan, written)
      && next == EncoderAt(after, w.After(op.source, |op.bytes|), history + op.bytes)
  {
    hide Planned, AsPlanned, PlanCarriedOut, StreamJob, Where.Located, RenormedTable, Step, Prepared;
    LocatedFacts(w, op.source, |op.bytes|);
    PreparedIs(table, w, history, op.source, |op.bytes|, hash);
    var e := Prepared(EncoderAt(table, w, history), w, op.source, |op.bytes|, hash);
    var (l, prefix) := w.Located(op.source, |op.bytes|);
    CompressStep(e, op.bytes, prefix, op.capacity, Accel(op.acceleration), hash, written, after);
    DictAfter(after, w, history, op.source, op.bytes);
  }

  lemma LocatedFacts(w: Where, source: nat, n: nat)
    requires w.dictSize <= w.offset <= MAX_OFFSET && 0 < n <= MAX_INPUT_SIZE
    ensures var (l, prefix) := w.Located(source, n);
      && l.dictSize <= w.Renormed(n).dictSize <= w.dictSize && l.offset == w.Renormed(n).offset
      && (l.dictSize < w.Renormed(n).dictSize ==> l.dictSize <= KB64)
      && (!prefix ==> l.dictSize == 0 || l.dictSize >= MINMATCH)
  {
  }

  lemma SubTailOf(a: Bytes, n: nat, k: nat)
    requires k <= n <= |a|
    ensures a[|a| - n..][n - k..] == a[|a| - k..]
  {
  }

  /** A block, for the encoder whose indexes grow without bound: what is written is what it plans. */
  lemma BlockUnbounded(u: Encoder, table: seq<nat>, w: Where, older: Bytes, delta: nat, history: Bytes, op: Op,
                       hash: Bytes -> nat, written: Bytes, after: seq<nat>)
    returns (older': Bytes, delta': nat)
    requires |table| > 0 && w.dictSize <= |history| && w.dictSize <= w.offset <= MAX_OFFSET
    requires op.Block? && 0 < |op.bytes| <= MAX_INPUT_SIZE && SameBut(u, EncoderAt(table, w, history), older, delta)
    requires CarriedOut(w, table, op.source, history, op.bytes, hash, op.capacity, Accel(op.acceleration), written,
                        after)
    ensures ValidEvents(StepEvents(w, op)) && u.Valid()
    ensures w.After(op.source, |op.bytes|).dictSize <= |history + op.bytes|
    ensures SameBut(Reached(u, StepEvents(w, op), hash),
                    EncoderAt(after, w.After(op.source, |op.bytes|), history + op.bytes), older', delta')
    ensures var outs := Outputs(u, StepEvents(w, op), hash, false); |outs| > 0 && AsPlanned(outs[|outs| - 1], written)
  {
    hide Planned, AsPlanned, CarriedOut, SameBut, Step, Where.Located, Renormed, Outputs, Reached;
    EncoderSteps(table, w, history, op, hash, written, after);
    StillValid(u, EncoderAt(table, w, history), older, delta);
    LocatedFacts(w, op.source, |op.bytes|);
    var e, k, n := EncoderAt(table, w, history), w.Located(op.source, |op.bytes|).0.dictSize, |op.bytes|;
    var cut := Cutting(w.Renormed(n).dictSize, k);
    var u1, e1, older1 := u, e, older;
    EmptyRun(u, hash);
    if k < w.Renormed(n).dictSize {
      OneEvent(u, Keep(k), hash);
      older1 := StepSame(u, e, older, delta, Keep(k), hash);
      u1, e1 := Step(u, Keep(k), hash).1, Step(e, Keep(k), hash).1;
    }
    var older2, delta2 := RenormedSame(u1, e1, older1, delta, n);
    var ev := CompressEvent(w, op);
    older' := StepSame(u1, Renormed(e1, n), older2, delta2, ev, hash);
    delta' := delta2;
    OneEvent(u1, ev, hash);
    RunJoin(u, cut, [ev], hash);
  }

  lemma EmptyRun(e: Encoder, hash: Bytes -> nat)
    requires e.Valid()
    ensures Reached(e, [], hash) == e && Outputs(e, [], hash, false) == []
  {
  }

  /** A dictionary that is cut, for the encoder whose indexes grow without bound. */
  lemma KeepUnbounded(u: Encoder, table: seq<nat>, w: Where, w': Where, older: Bytes, delta: nat, history: Bytes,
                      events: seq<Event>, hash: Bytes -> nat)
    returns (older': Bytes)
    requires |table| > 0 && w.dictSize <= |history| && w.dictSize <= w.offset
    requires w'.offset == w.offset && w'.dictSize <= w.dictSize
    requires SameBut(u, EncoderAt(table, w, history), older, delta)
    requires w'.dictSize <= KB64 || w'.dictSize == w.dictSize
    requires (events == [Keep(w'.dictSize)] && w'.dictSize <= KB64) || events == Cutting(w.dictSize, w'.dictSize)
    ensures ValidEvents(events) && u.Valid()
    ensures SameBut(Reached(u, events, hash), EncoderAt(table, w', history), older', delta)
  {
    hide SameBut, Reached;
    var e, k := EncoderAt(table, w, history), w'.dictSize;
    StillValid(u, e, older, delta);
    EmptyRun(u, hash);
    older' := older;
    if events != [] {
      OneEvent(u, Keep(k), hash);
      older' := StepSame(u, e, older, delta, Keep(k), hash);
      SubTailOf(history, w.dictSize, k);
    }
  }

  /** The encoder that a new stream starts with. */
  function NewEncoder(): (e: Encoder)
    ensures e.Valid()
  {
    Encoder(seq(4096, _ => 0), 0, [])
  }

  /** What an encoder with unbounded indexes plans for the block of step `i`. */
  function PlanAt(ops: seq<Op>, i: nat, hash: Bytes -> nat): Option<Lz4Format.Block>
    requires i < |ops|
  {
    var events := EventsOf(ops[..i + 1]);
    if !ValidEvents(events) then None
    else
      var outs := Outputs(NewEncoder(), events, hash, false);
      if |outs| == 0 then None else outs[|outs| - 1]
  }

  /** Every block is written as planned by the encoder with unbounded indexes. */
  ghost predicate AsUnbounded(ops: seq<Op>, n: nat, packed: seq<Bytes>, hash: Bytes -> nat)
    requires n <= |ops|
  {
    forall i :: 0 <= i < n && ops[i].Block? && |ops[i].bytes| > 0 ==>
      |BlocksOf(ops[..i])| < |packed| && AsPlanned(PlanAt(ops, i, hash), packed[|BlocksOf(ops[..i])|])
  }

  /** The stream is in step with that encoder. */
  ghost predicate Tracked(ops: seq<Op>, n: nat, table: seq<nat>, history: Bytes, older: Bytes, delta: nat,
                          hash: Bytes -> nat)
    requires n <= |ops|
  {
    var w, events := PlaceAfter(ops[..n]), EventsOf(ops[..n]);
    && |table| > 0 && w.dictSize <= |history| && ValidEvents(events)
    && SameBut(Reached(NewEncoder(), events, hash), EncoderAt(table, w, history), older, delta)
  }

  lemma TrackedFirst(ops: seq<Op>, table: seq<nat>, packed: seq<Bytes>, hash: Bytes -> nat)
    requires table == NewEncoder().table
    ensures Tracked(ops, 0, table, [], [], 0, hash) && AsUnbounded(ops, 0, packed, hash)
  {
    NothingOlder(NewEncoder());
    assert EncoderAt(table, Where(0, 0, 0), []) == NewEncoder();
  }

  lemma TrackedBlock(ops: seq<Op>, n: nat, table: seq<nat>, history: Bytes, older: Bytes, delta: nat,
                     hash: Bytes -> nat, packed: seq<Bytes>, written: Bytes, after: seq<nat>)
    returns (older': Bytes, delta': nat)
    requires n < |ops| && Tracked(ops, n, table, history, older, delta, hash) && AsUnbounded(ops, n, packed, hash)
    requires var w := PlaceAfter(ops[..n]);
      w.dictSize <= w.offset <= MAX_OFFSET
      && ops[n].Block? && 0 < |ops[n].bytes| <= MAX_INPUT_SIZE
      && CarriedOut(w, table, ops[n].source, history, ops[n].bytes, hash, ops[n].capacity, Accel(ops[n].acceleration),
                    written, after)
    requires |packed| == |BlocksOf(ops[..n])| && |after| == |table|
    ensures Tracked(ops, n + 1, after, history + ops[n].bytes, older', delta', hash)
    ensures AsUnbounded(ops, n + 1, packed + [written], hash)
  {
    hide CarriedOut, SameBut, Outputs, Reached, StepEvents, AsPlanned, ValidEvents, Where.After;
    var w, op, events, u := PlaceAfter(ops[..n]), ops[n], EventsOf(ops[..n]),
      Reached(NewEncoder(), EventsOf(ops[..n]), hash);
    older', delta' := BlockUnbounded(u, table, w, older, delta, history, op, hash, written, after);
    PlaceNext(ops, n);
    EventsNext(ops, n);
    RunJoin(NewEncoder(), events, StepEvents(w, op), hash);
    PlanLast(ops, n, hash);
    PlansKept(ops, n, packed, written, hash);
  }

  /** The plan of the last block. */
  lemma PlanLast(ops: seq<Op>, n: nat, hash: Bytes -> nat)
    requires n < |ops| && ValidEvents(EventsOf(ops[..n])) && ValidEvents(StepEvents(PlaceAfter(ops[..n]), ops[n]))
    ensures var u := Reached(NewEncoder(), EventsOf(ops[..n]), hash);
      var outs := Outputs(u, StepEvents(PlaceAfter(ops[..n]), ops[n]), hash, false);
      |outs| > 0 ==> PlanAt(ops, n, hash) == outs[|outs| - 1]
  {
    hide Outputs, Reached, StepEvents;
    EventsNext(ops, n);
    RunJoin(NewEncoder(), EventsOf(ops[..n]), StepEvents(PlaceAfter(ops[..n]), ops[n]), hash);
  }

  lemma PlansKept(ops: seq<Op>, n: nat, packed: seq<Bytes>, more: Bytes, hash: Bytes -> nat)
    requires n < |ops| && AsUnbounded(ops, n, packed, hash) && |packed| == |BlocksOf(ops[..n])|
    requires ops[n].Block? && (|ops[n].bytes| > 0 ==> AsPlanned(PlanAt(ops, n, hash), more))
    ensures AsUnbounded(ops, n + 1, packed + [more], hash)
  {
    hide PlanAt, AsPlanned, BlocksOf;
    forall i | 0 <= i < n + 1 && ops[i].Block? && |ops[i].bytes| > 0
      ensures |BlocksOf(ops[..i])| < |packed + [more]|
      ensures AsPlanned(PlanAt(ops, i, hash), (packed + [more])[|BlocksOf(ops[..i])|])
    {
    }
  }

  lemma PlansKeptSave(ops: seq<Op>, n: nat, packed: seq<Bytes>, hash: Bytes -> nat)
    requires n < |ops| && AsUnbounded(ops, n, packed, hash) && ops[n].Save?
    ensures AsUnbounded(ops, n + 1, packed, hash)
  {
  }

  /** A saved dictionary, or an empty block. */
  lemma TrackedKeep(ops: seq<Op>, n: nat, table: seq<nat>, history: Bytes, older: Bytes, delta: nat,
                    hash: Bytes -> nat)
    returns (older': Bytes)
    requires n < |ops| && Tracked(ops, n, table, history, older, delta, hash)
    requires PlaceAfter(ops[..n]).dictSize <= PlaceAfter(ops[..n]).offset <= MAX_OFFSET
    requires ops[n].Block? ==> |ops[n].bytes| == 0
    ensures Tracked(ops, n + 1, table, history, older', delta, hash)
  {
    hide SameBut, Outputs, Reached;
    var w, op, events := PlaceAfter(ops[..n]), ops[n], EventsOf(ops[..n]);
    PlaceNext(ops, n);
    EventsNext(ops, n);
    var w' := PlaceAfter(ops[..n + 1]);
    older' := KeepUnbounded(Reached(NewEncoder(), events, hash), table, w, w', older, delta, history, StepEvents(w, op),
                            hash);
    RunJoin(NewEncoder(), events, StepEvents(w, op), hash);
  }
}
