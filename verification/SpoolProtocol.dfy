// The store-and-forward protocol: a producer that appends under the lock, a
// drainer that takes the lock for `peek` and again for `advance` and publishes
// in between, and a process that may die at any point. Every operation done
// under the lock is one step; a crash keeps any prefix of the write in flight.
module SpoolProtocol {
  import opened Bytes
  import opened SpoolCodec
  import opened SpoolLog
  import opened SpoolOps

  type Verifier = seq<Byte> -> bool

  // What the drainer has learnt about the record it peeked: nothing yet, that
  // the broker confirmed it, or that its seal does not verify.
  datatype Phase = Held | Delivered | Corrupt

  datatype Drainer = Idle | Busy(phase: Phase, at: Cursor, rec: Record, index: nat)

  // The counters on /metrics that the spool feeds.
  datatype Metrics = Metrics(spooled: nat, drained: nat, corrupt: nat, droppedSegments: nat)

  datatype World = World(
    disk: Disk,
    mem: Option<Mem>,          // None while the process is down
    drainer: Drainer,
    jsMode: bool,
    metrics: Metrics,
    // What an observer of the whole run writes down:
    history: seq<Record>,      // every record appended, in order
    acked: set<nat>,           // records the broker confirmed
    evicted: set<nat>,         // records in segments dropped at the bound
    confirmed: seq<nat>,       // records counted as drained by this process
    tame: bool)                // so far every append met the bound with a record of at most a segment

  datatype JsOutcome = Ack | NoResponders | Failed

  datatype Step =
    | Append(r: Record)
    | Peek
    | Publish(js: JsOutcome, plain: bool)
    | Confirm
    | Open(maxBytes: nat)
    | Crash
    | CrashInAppend(r: Record, bytes: nat, drops: nat)
    | CrashInAdvance(deletes: nat)
    | CrashInOpen
    | LoseCursor

  function Running(w: World): State
    requires w.mem.Some?
  {
    State(w.disk, w.mem.value)
  }

  // The position the next drain starts from, now or after a restart.
  function Position(w: World): Cursor {
    if w.mem.Some? then w.mem.value.cursor else Resume(w.disk)
  }

  function Ahead(w: World): seq<Record> {
    Remaining(w.disk.segs, Position(w))
  }

  // How many records of the history lie behind the position, and how many are
  // no longer on disk.
  function Consumed(w: World): int {
    |w.history| - |Ahead(w)|
  }

  function Gone(w: World): int {
    |w.history| - |AllRecords(w.disk.segs)|
  }

  // One publish attempt: JetStream first, plain publish and flush once no
  // stream answers.
  function Attempt(jsMode: bool, js: JsOutcome, plain: bool): (bool, bool) {
    var mode := jsMode && !js.NoResponders?;
    (mode, if mode then js.Ack? else plain)
  }

  // The segments after a crash that had written `bytes` of a record and then
  // dropped `drops` segments.
  function TornSegs(s: State, r: Record, bytes: nat): Segs
    requires RotateIfFull(s).mem.head in RotateIfFull(s).disk.segs
    requires bytes <= |Encode(r)|
  {
    var t := RotateIfFull(s);
    t.disk.segs[t.mem.head := t.disk.segs[t.mem.head] + Encode(r)[..bytes]]
  }

  predicate Enabled(w: World, step: Step) {
    match step
    case Append(r) => w.mem.Some? && w.mem.value.head in w.disk.segs && Fits(r)
    case Peek => w.mem.Some? && w.drainer.Idle?
    case Publish(_, _) => w.mem.Some? && w.drainer.Busy? && w.drainer.phase.Held?
    case Confirm => w.mem.Some? && w.drainer.Busy? && !w.drainer.phase.Held?
    case Open(_) => w.mem.None?
    case Crash => w.mem.Some?
    case CrashInAppend(r, bytes, drops) =>
      && w.mem.Some? && w.mem.value.head in w.disk.segs
      && Fits(r) && bytes <= |Encode(r)|
      && var m := TornSegs(Running(w), r, bytes);
         drops < |m|
         && (drops > 0 ==> bytes == |Encode(r)|)
         && forall j: nat | j < drops :: Total(DropOldest(m, j)) > w.mem.value.maxBytes
    case CrashInAdvance(deletes) =>
      && w.mem.Some? && w.drainer.Busy? && !w.drainer.phase.Held?
      && AdvanceFrom(Running(w), w.drainer.at).Some?
      && deletes <= CountBelow(w.disk.segs, w.drainer.at.seg)
    case CrashInOpen => w.mem.None?
    case LoseCursor => w.mem.None?
  }

  function Range(lo: int, hi: int): (r: set<nat>)
    ensures forall i: nat :: i in r <==> lo <= i < hi
    decreases hi
  {
    if hi <= lo || hi <= 0 then {} else Range(lo, hi - 1) + {hi - 1}
  }

  // Record what an append did to the log.
  function Appended(w: World, r: Record, disk: Disk, mem: Option<Mem>): World {
    var v := w.(disk := disk, mem := mem, history := w.history + [r]);
    v.(evicted := w.evicted + Range(Gone(w), Gone(v)))
  }

  function Down(w: World): World {
    w.(mem := None, drainer := Idle)
  }

  function Next(w: World, step: Step, verify: Verifier): World
    requires Enabled(w, step)
  {
    match step
    case Append(r) =>
      var s := AppendTo(Running(w), r);
      var dropped := s.mem.dropped > w.mem.value.dropped;
      Appended(w, r, s.disk, Some(s.mem)).(
        metrics := w.metrics.(spooled := w.metrics.spooled + 1,
                              droppedSegments := w.metrics.droppedSegments + if dropped then 1 else 0),
        tame := w.tame && |Encode(r)| <= SEGMENT_BYTES)
    case Peek =>
      var p := PeekFrom(Running(w));
      var v := w.(mem := Some(p.state.mem));
      if p.item.None? then v
      else
        var n := Consumed(w);
        v.(drainer := Busy(Held, p.item.value.0, p.item.value.1, if n >= 0 then n else 0))
    case Publish(js, plain) =>
      if !verify(w.drainer.rec.sealed) then
        w.(drainer := w.drainer.(phase := Corrupt),
           metrics := w.metrics.(corrupt := w.metrics.corrupt + 1))
      else
        var (mode, delivered) := Attempt(w.jsMode, js, plain);
        if delivered then
          w.(jsMode := mode, acked := w.acked + {w.drainer.index},
             drainer := w.drainer.(phase := Delivered))
        else w.(jsMode := mode, drainer := Idle)
    case Confirm =>
      var advanced := AdvanceFrom(Running(w), w.drainer.at);
      var v := if advanced.Some? then w.(disk := advanced.value.disk, mem := Some(advanced.value.mem)) else w;
      if w.drainer.phase.Delivered? then
        v.(drainer := Idle, confirmed := w.confirmed + [w.drainer.index],
           metrics := w.metrics.(drained := w.metrics.drained + 1))
      else v.(drainer := Idle)
    case Open(maxBytes) =>
      var s := OpenFrom(w.disk, maxBytes);
      w.(disk := s.disk, mem := Some(s.mem), drainer := Idle, jsMode := true,
         metrics := Metrics(0, 0, 0, 0), confirmed := [], tame := !OverBound(s))
    case Crash => Down(w)
    case CrashInAppend(r, bytes, drops) =>
      var disk := w.disk.(segs := DropOldest(TornSegs(Running(w), r, bytes), drops));
      if bytes == |Encode(r)| then Down(Appended(w, r, disk, None)) else Down(w.(disk := disk))
    case CrashInAdvance(deletes) =>
      var s := AdvanceFrom(Running(w), w.drainer.at).value;
      Down(w.(disk := Disk(DropOldest(w.disk.segs, deletes), s.disk.saved)))
    case CrashInOpen => w.(disk := OpenFrom(w.disk, 0).disk)
    case LoseCursor => w.(disk := w.disk.(saved := None))
  }

  const Initial := World(Disk(map[], None), None, Idle, true, Metrics(0, 0, 0, 0), [], {}, {}, [], true)

  // ---- the invariant ----

  // Why a record lies behind the position.
  predicate Accounted(w: World, i: nat, verify: Verifier)
    requires i < |w.history|
  {
    i in w.acked || i in w.evicted || !verify(w.history[i].sealed)
  }

  ghost predicate LogInv(w: World) {
    && (if w.mem.Some? then Ready(Running(w)) else DiskOk(w.disk))
    && IsSuffix(AllRecords(w.disk.segs), w.history)
    && IsSuffix(Ahead(w), w.history)
    && Gone(w) <= Consumed(w)
  }

  ghost predicate FateInv(w: World, verify: Verifier) {
    && (forall i: nat :: i < Consumed(w) ==> i < |w.history| && Accounted(w, i, verify))
    && (forall i :: i in w.acked ==> i < |w.history| && verify(w.history[i].sealed))
    && (forall i :: i in w.evicted ==> i < Gone(w))
  }

  // The peeked record is the next one, and its cursor is still the spool's; or
  // its segment was dropped meanwhile and the spool has moved on.
  ghost predicate DrainerInv(w: World, verify: Verifier) {
    w.drainer.Busy? ==>
      && w.mem.Some?
      && w.drainer.index < |w.history| && w.history[w.drainer.index] == w.drainer.rec
      && (w.drainer.phase.Corrupt? ==> !verify(w.drainer.rec.sealed))
      && (w.drainer.phase.Delivered? ==> w.drainer.index in w.acked)
      && w.drainer.at.seg <= w.mem.value.head
      && (if w.drainer.at.seg in w.disk.segs
          then && w.drainer.at == w.mem.value.cursor
               && UnderCursor(Running(w)).Some?
               && w.drainer.index == Consumed(w)
          else w.drainer.index < Consumed(w))
  }

  ghost predicate CountInv(w: World) {
    w.mem.Some? ==>
      && w.metrics.drained == |w.confirmed|
      && (forall i, j :: 0 <= i < j < |w.confirmed| ==> w.confirmed[i] < w.confirmed[j])
      && (forall i :: i in w.confirmed ==> i in w.acked && i < Consumed(w))
      && (w.drainer.Busy? ==> forall i :: i in w.confirmed ==> i < w.drainer.index)
      && (w.tame ==> w.metrics.droppedSegments == w.mem.value.dropped && !OverBound(Running(w)))
      && (w.metrics.spooled > 0 ==> !OverBound(Running(w)))
  }

  ghost predicate Inv(w: World, verify: Verifier) {
    LogInv(w) && FateInv(w, verify) && DrainerInv(w, verify) && CountInv(w)
  }

  // ---- what the steps do to the history ----

  // Records added at the end, old ones dropped at the front: everything behind
  // the new position was behind the old one or went with its segment.
  lemma GrowHistory(w: World, v: World, added: seq<Record>, verify: Verifier)
    requires LogInv(w) && FateInv(w, verify)
    requires v.history == w.history + added && v.acked == w.acked
    requires v.evicted == w.evicted + Range(Gone(w), Gone(v))
    requires IsSuffix(AllRecords(v.disk.segs), AllRecords(w.disk.segs) + added)
    requires Ahead(v) == if |Ahead(w) + added| <= |AllRecords(v.disk.segs)|
                         then Ahead(w) + added else AllRecords(v.disk.segs)
    ensures IsSuffix(AllRecords(v.disk.segs), v.history) && IsSuffix(Ahead(v), v.history)
    ensures Gone(w) <= Gone(v) <= Consumed(v) && Consumed(w) <= Consumed(v)
    ensures FateInv(v, verify)
  {
    hide Ready, DiskOk, AllRecords, Ahead;
    SuffixExtend(AllRecords(w.disk.segs), w.history, added);
    SuffixTrans(AllRecords(v.disk.segs), AllRecords(w.disk.segs) + added, v.history);
    SuffixExtend(Ahead(w), w.history, added);
    forall i: nat | i < Consumed(v)
      ensures i < |v.history| && Accounted(v, i, verify)
    {
      if i < Consumed(w) {
        assert Accounted(w, i, verify);
      }
    }
  }

  // One record taken off the front of what was ahead.
  lemma ConsumeOne(w: World, v: World, verify: Verifier)
    requires LogInv(w) && FateInv(w, verify)
    requires v.history == w.history && v.acked == w.acked && v.evicted == w.evicted
    requires IsSuffix(AllRecords(v.disk.segs), AllRecords(w.disk.segs))
    requires Ahead(w) != [] && Ahead(v) == Ahead(w)[1..]
    requires IsSuffix(Ahead(v), AllRecords(v.disk.segs))
    requires 0 <= Consumed(w) < |w.history| ==> Accounted(w, Consumed(w), verify)
    ensures IsSuffix(AllRecords(v.disk.segs), v.history) && IsSuffix(Ahead(v), v.history)
    ensures Gone(v) <= Consumed(v) == Consumed(w) + 1
    ensures FateInv(v, verify)
  {
    hide Ready, DiskOk, AllRecords, Ahead, FateInv;
    SuffixTrans(AllRecords(v.disk.segs), AllRecords(w.disk.segs), w.history);
    SuffixTrans(Ahead(v), AllRecords(v.disk.segs), w.history);
    MoreFates(w, v, verify);
  }

  lemma MoreFates(w: World, v: World, verify: Verifier)
    requires FateInv(w, verify)
    requires v.history == w.history && v.acked == w.acked && v.evicted == w.evicted
    requires 0 <= Consumed(w) < |w.history| && Accounted(w, Consumed(w), verify)
    requires Consumed(v) == Consumed(w) + 1 && Gone(w) <= Gone(v)
    ensures FateInv(v, verify)
  {
    hide Consumed, Gone;
    forall i: nat | i < Consumed(v)
      ensures i < |v.history| && Accounted(v, i, verify)
    {
      assert Accounted(w, i, verify);
    }
  }

  // The record in front of the position is the history's next one.
  lemma AheadIsNext(w: World)
    requires LogInv(w)
    ensures 0 <= Consumed(w) <= |w.history|
    ensures w.history == w.history[..Consumed(w)] + Ahead(w)
    ensures Ahead(w) != [] ==> Consumed(w) < |w.history| && w.history[Consumed(w)] == Ahead(w)[0]
  {
    hide Ready, DiskOk, AllRecords, Ahead;
    assert w.history[|w.history| - |Ahead(w)|..] == Ahead(w);
  }

  // ---- every step keeps the invariant ----

  lemma AppendStep(w: World, r: Record, verify: Verifier)
    requires Inv(w, verify) && Enabled(w, Append(r))
    ensures Inv(Next(w, Append(r), verify), verify)
    ensures Consumed(w) <= Consumed(Next(w, Append(r), verify))
  {
    hide Ready, DiskOk, Remaining, AppendTo, UnderCursor, Encode, Total, ValidUtf8;
    var v := Next(w, Append(r), verify);
    AppendMeaning(Running(w), r);
    GrowHistory(w, v, [r], verify);
    AppendCounts(w, r, verify);
  }

  lemma AppendCounts(w: World, r: Record, verify: Verifier)
    requires Inv(w, verify) && Enabled(w, Append(r))
    ensures var v := Next(w, Append(r), verify);
            && !OverBound(Running(v))
            && (v.tame ==> v.metrics.droppedSegments == v.mem.value.dropped)
  {
    hide Ready, DiskOk, Remaining, AppendTo, UnderCursor, Encode, Total, ValidUtf8;
    AppendMeaning(Running(w), r);
    if w.tame && |Encode(r)| <= SEGMENT_BYTES {
      DropReportExact(Running(w), r);
    }
  }

  lemma PeekStep(w: World, verify: Verifier)
    requires Inv(w, verify) && Enabled(w, Peek)
    ensures Inv(Next(w, Peek, verify), verify)
    ensures Consumed(w) == Consumed(Next(w, Peek, verify))
  {
    hide Ready, DiskOk, Remaining, PeekFrom, Total, FateInv, AllRecords;
    var v := Next(w, Peek, verify);
    PeekMeaning(Running(w));
    AheadIsNext(w);
    if v.drainer.Busy? {
      ReadyCursor(PeekFrom(Running(w)).state);
    }
    SameFates(w, v, verify);
  }

  lemma ReadyCursor(s: State)
    requires Ready(s)
    ensures s.mem.cursor.seg <= s.mem.head
  {
  }

  lemma PublishStep(w: World, js: JsOutcome, plain: bool, verify: Verifier)
    requires Inv(w, verify) && Enabled(w, Publish(js, plain))
    ensures Inv(Next(w, Publish(js, plain), verify), verify)
    ensures Consumed(w) == Consumed(Next(w, Publish(js, plain), verify))
  {
    hide Ready, DiskOk, Ahead, AllRecords, UnderCursor, Total, Attempt;
    var v := Next(w, Publish(js, plain), verify);
    SameLog(w, v);
    SameFates(w, v, verify);
  }

  lemma ConfirmStep(w: World, verify: Verifier)
    requires Inv(w, verify) && Enabled(w, Confirm)
    ensures Inv(Next(w, Confirm, verify), verify)
    ensures Consumed(w) <= Consumed(Next(w, Confirm, verify))
  {
    hide Ready, UnderCursor, Consumed, LogInv, FateInv, OverBound, AdvanceFrom;
    var v := Next(w, Confirm, verify);
    ConfirmLog(w, verify);
    ConfirmCounts(w.confirmed, v.confirmed, w.drainer.index, Consumed(w), Consumed(v));
  }

  lemma ConfirmLog(w: World, verify: Verifier)
    requires Inv(w, verify) && Enabled(w, Confirm)
    ensures var v := Next(w, Confirm, verify);
            && LogInv(v) && FateInv(v, verify) && v.mem.Some?
            && Consumed(w) <= Consumed(v) && w.drainer.index < Consumed(v)
            && v.mem.value.dropped == w.mem.value.dropped
            && (OverBound(Running(v)) ==> OverBound(Running(w)))
  {
    hide LogInv, FateInv, CountInv, Consumed, OverBound, AdvanceFrom, UnderCursor;
    var v := Next(w, Confirm, verify);
    if w.drainer.at.seg in w.disk.segs {
      ConfirmLive(w, v, verify);
    } else {
      StaleAdvance(Running(w), w.drainer.at);
      assert LogInv(v) && Consumed(v) == Consumed(w) by { SameLog(w, v); }
      assert FateInv(v, verify) by { SameLog(w, v); SameFates(w, v, verify); }
    }
  }

  lemma SameLog(w: World, v: World)
    requires v.disk == w.disk && v.mem == w.mem && v.history == w.history
    ensures LogInv(w) ==> LogInv(v)
    ensures Consumed(v) == Consumed(w) && Gone(v) == Gone(w) && Ahead(v) == Ahead(w)
  {
    hide Ready, DiskOk, Remaining;
  }

  lemma ConfirmLive(w: World, v: World, verify: Verifier)
    requires LogInv(w) && FateInv(w, verify) && DrainerInv(w, verify)
    requires Enabled(w, Confirm) && w.drainer.at.seg in w.disk.segs
    requires v.history == w.history && v.acked == w.acked && v.evicted == w.evicted && v.mem.Some?
    requires AdvanceFrom(Running(w), w.drainer.at).Some? ==>
               Running(v) == AdvanceFrom(Running(w), w.drainer.at).value
    ensures LogInv(v) && FateInv(v, verify)
    ensures Consumed(v) == Consumed(w) + 1 && w.drainer.index == Consumed(w)
    ensures v.mem.value.dropped == w.mem.value.dropped
    ensures OverBound(Running(v)) ==> OverBound(Running(w))
  {
    hide Ready, DiskOk, Remaining, UnderCursor, Total, FateInv, AdvanceFrom;
    AdvanceMeaning(Running(w));
    ReadyRemaining(Running(v));
    ConsumeOne(w, v, verify);
    AdvanceKeepsBound(Running(w));
  }

  // One more confirmed record: larger than the earlier ones, behind the position.
  lemma ConfirmCounts(was: seq<nat>, now: seq<nat>, index: nat, before: int, after: int)
    requires now == was || now == was + [index]
    requires forall i, j :: 0 <= i < j < |was| ==> was[i] < was[j]
    requires forall i :: i in was ==> i < before && i < index
    requires before <= after && index < after
    ensures forall i, j :: 0 <= i < j < |now| ==> now[i] < now[j]
    ensures forall i :: i in now ==> i < after && (i in was || i == index)
  {
    assert forall i :: i in was + [index] ==> i in was || i == index;
    forall i, j | 0 <= i < j < |now|
      ensures now[i] < now[j]
    {
      assert i < |was| && was[i] in was && now[i] == was[i];
    }
  }

  // Deleting what is drained cannot put the log over its bound.
  lemma AdvanceKeepsBound(s: State)
    requires Ready(s) && UnderCursor(s).Some? && AdvanceFrom(s, s.mem.cursor).Some?
    ensures OverBound(AdvanceFrom(s, s.mem.cursor).value) ==> OverBound(s)
  {
    hide Ready, Remaining, Total, ReadRecordAt, CountBelow, DropOldest;
    var m, seg := s.disk.segs, s.mem.cursor.seg;
    FromSegmentIsDrop(m, seg);
    DropTotals(m, CountBelow(m, seg));
  }

  lemma {:induction false} DropTotals(m: Segs, k: nat)
    requires k <= |m|
    ensures Total(DropOldest(m, k)) <= Total(m) && |DropOldest(m, k)| <= |m|
    decreases k
  {
    hide Total, DropOldest;
    DropStep(m, k);
    if k > 0 {
      KeysCount(m);
      TotalWithoutOldest(m);
      DropTotals(m - {Oldest(m.Keys)}, k - 1);
    }
  }

  lemma TotalWithoutOldest(m: Segs)
    requires m.Keys != {}
    ensures Total(m - {Oldest(m.Keys)}) <= Total(m)
  {
  }

  lemma OpenStep(w: World, maxBytes: nat, verify: Verifier)
    requires Inv(w, verify) && Enabled(w, Open(maxBytes))
    ensures Inv(Next(w, Open(maxBytes), verify), verify)
    ensures Consumed(w) == Consumed(Next(w, Open(maxBytes), verify))
  {
    hide Ready, DiskOk, Remaining, OpenFrom, Total, UnderCursor;
    var v := Next(w, Open(maxBytes), verify);
    OpenMeaning(w.disk, maxBytes);
    OpenCounts(w.disk, maxBytes);
    SameFates(w, v, verify);
  }

  lemma OpenCounts(d: Disk, maxBytes: nat)
    ensures OpenFrom(d, maxBytes).mem.dropped == 0
  {
  }

  // A step that neither moves the position forward nor drops.
  lemma SameFates(w: World, v: World, verify: Verifier)
    requires FateInv(w, verify)
    requires v.history == w.history && v.evicted == w.evicted && w.acked <= v.acked
    requires forall i :: i in v.acked - w.acked ==> i < |w.history| && verify(w.history[i].sealed)
    requires Consumed(v) <= Consumed(w) && Gone(v) == Gone(w)
    ensures FateInv(v, verify)
  {
    hide Ahead, AllRecords;
    forall i: nat | i < Consumed(v)
      ensures i < |v.history| && Accounted(v, i, verify)
    {
      assert Accounted(w, i, verify);
    }
    forall i | i in v.acked
      ensures i < |v.history| && verify(v.history[i].sealed)
    {
      if i !in w.acked {
        assert i in v.acked - w.acked;
      }
    }
  }

  lemma CrashStep(w: World, verify: Verifier)
    requires Inv(w, verify) && Enabled(w, Crash)
    ensures Inv(Next(w, Crash, verify), verify)
    ensures Consumed(w) == Consumed(Next(w, Crash, verify))
  {
    hide DiskOk, Remaining, Shape, Whole, CursorOk, Total, UnderCursor;
    ReadyDisk(Running(w));
    SameFates(w, Next(w, Crash, verify), verify);
  }

  lemma CrashInAppendStep(w: World, r: Record, bytes: nat, drops: nat, verify: Verifier)
    requires Inv(w, verify) && Enabled(w, CrashInAppend(r, bytes, drops))
    ensures Inv(Next(w, CrashInAppend(r, bytes, drops), verify), verify)
    ensures Consumed(w) <= Consumed(Next(w, CrashInAppend(r, bytes, drops), verify))
  {
    hide Ready, DiskOk, Remaining, Encode, Total, UnderCursor, DropOldest, TornSegs, ValidUtf8, CountInv, DrainerInv;
    var v := Next(w, CrashInAppend(r, bytes, drops), verify);
    var added := if bytes == |Encode(r)| then [r] else [];
    TornMeaning(Running(w), r, bytes, drops);
    if bytes < |Encode(r)| {
      assert w.evicted + Range(Gone(w), Gone(v)) == w.evicted;
    }
    GrowHistory(w, v, added, verify);
    DownCounts(v, verify);
  }

  lemma DownCounts(v: World, verify: Verifier)
    requires v.mem.None? && v.drainer.Idle?
    ensures CountInv(v) && DrainerInv(v, verify)
  {
  }

  // What a crash inside `append` leaves on disk resumes where the process was,
  // with the record appended if all of it was written and not otherwise.
  lemma TornMeaning(s: State, r: Record, bytes: nat, drops: nat)
    requires Ready(s) && Fits(r) && bytes <= |Encode(r)|
    requires RotateIfFull(s).mem.head in RotateIfFull(s).disk.segs
    requires drops < |TornSegs(s, r, bytes)| && (drops > 0 ==> bytes == |Encode(r)|)
    ensures var d := s.disk.(segs := DropOldest(TornSegs(s, r, bytes), drops));
            var added := if bytes == |Encode(r)| then [r] else [];
            var left := Remaining(s.disk.segs, s.mem.cursor) + added;
            && DiskOk(d)
            && IsSuffix(AllRecords(d.segs), AllRecords(s.disk.segs) + added)
            && (bytes < |Encode(r)| ==> AllRecords(d.segs) == AllRecords(s.disk.segs))
            && Remaining(d.segs, Resume(d))
               == if |left| <= |AllRecords(d.segs)| then left else AllRecords(d.segs)
  {
    hide DiskOk, Remaining, Boundary, Encode, Total, Records, WholeLen, ValidUtf8, Contiguous;
    var t := RotateIfFull(s);
    var m, head := t.disk.segs, t.mem.head;
    var more := Encode(r)[..bytes];
    var added := if bytes == |Encode(r)| then [r] else [];
    RotateMeaning(s);
    TornRecords(r, bytes);
    ResumeOk(m, head, t.disk);
    GrowHead(m, head, more, Resume(t.disk));
    StartOk(m, head);
    GrowHead(m, head, more, START);
    var n := TornSegs(s, r, bytes);
    GrownShape(m, head, more);
    assert n == m[head := m[head] + more];
    var c := Resume(t.disk);
    assert Remaining(m, c) == Remaining(m, s.mem.cursor);
    var left := Remaining(s.disk.segs, s.mem.cursor) + added;
    assert Remaining(n, c) == left && AllRecords(n) == AllRecords(s.disk.segs) + added;
    DropTorn(n, head, drops, s.disk.(segs := n), c, left);
  }

  lemma TornRecords(r: Record, bytes: nat)
    requires Fits(r) && bytes <= |Encode(r)|
    ensures Records(Encode(r)[..bytes]) == if bytes == |Encode(r)| then [r] else []
  {
    hide Encode, Records;
    if bytes == |Encode(r)| {
      assert Encode(r)[..bytes] == Encode(r);
      RecordsOfEncoded(r);
    } else {
      TornIsNothing(r, bytes);
    }
  }

  lemma GrownShape(m: Segs, head: nat, more: seq<Byte>)
    requires Shape(m, head)
    ensures Shape(m[head := m[head] + more], head)
  {
    hide Whole;
    assert m[head := m[head] + more].Keys == m.Keys;
  }

  lemma DropTorn(n: Segs, head: nat, drops: nat, d: Disk, c: Cursor, left: seq<Record>)
    requires Shape(n, head) && d.segs == n && drops < |n|
    requires CursorOk(n, head, c) && Remaining(n, c) == left
    requires d.saved.Some? ==> c == d.saved.value
    requires d.saved.None? ==> left == AllRecords(n)
    ensures var e := d.(segs := DropOldest(n, drops));
            && DiskOk(e)
            && IsSuffix(AllRecords(e.segs), AllRecords(n))
            && (drops == 0 ==> e.segs == n)
            && Remaining(e.segs, Resume(e))
               == if |left| <= |AllRecords(e.segs)| then left else AllRecords(e.segs)
  {
    hide Remaining, Boundary, Whole, Contiguous, DropOldest;
    var e := d.(segs := DropOldest(n, drops));
    DropMany(n, head, drops, c);
    DropStep(n, drops);
    NewestIsHead(e.segs, head);
    ResumeOk(e.segs, head, e);
  }

  lemma CrashInAdvanceStep(w: World, deletes: nat, verify: Verifier)
    requires Inv(w, verify) && Enabled(w, CrashInAdvance(deletes))
    ensures Inv(Next(w, CrashInAdvance(deletes), verify), verify)
    ensures Consumed(w) <= Consumed(Next(w, CrashInAdvance(deletes), verify))
  {
    hide DiskOk, Remaining, Boundary, Whole, Contiguous, UnderCursor, ReadRecordAt, Total, DropOldest, CountBelow;
    var v := Next(w, CrashInAdvance(deletes), verify);
    var s := Running(w);
    var m, head, c := w.disk.segs, s.mem.head, v.disk.saved.value;
    assert w.drainer.at.seg in m;
    SavedNext(s);
    DropBelow(m, head, deletes, c);
    NewestIsHead(v.disk.segs, head);
    assert DiskOk(v.disk) by { SavedDiskOk(v.disk, head); }
    RemainingIsSuffix(v.disk.segs, c);
    ConsumeOne(w, v, verify);
  }

  lemma SavedNext(s: State)
    requires Ready(s) && UnderCursor(s).Some? && AdvanceFrom(s, s.mem.cursor).Some?
    ensures var m, c := s.disk.segs, AdvanceFrom(s, s.mem.cursor).value.mem.cursor;
            && AdvanceFrom(s, s.mem.cursor).value.disk.saved == Some(c)
            && c.seg == s.mem.cursor.seg && c.seg in m && CursorOk(m, s.mem.head, c)
            && Remaining(m, s.mem.cursor) != []
            && Remaining(m, c) == Remaining(m, s.mem.cursor)[1..]
  {
    hide Remaining, Boundary, Whole, Contiguous, ReadRecordAt, FromSegment;
    CursorReads(s);
  }

  lemma SavedDiskOk(d: Disk, head: nat)
    requires Shape(d.segs, head) && d.saved.Some? && CursorOk(d.segs, head, d.saved.value)
    ensures DiskOk(d)
  {
    hide Whole, Contiguous, Boundary;
    NewestIsHead(d.segs, head);
  }

  lemma CrashInOpenStep(w: World, verify: Verifier)
    requires Inv(w, verify) && Enabled(w, CrashInOpen)
    ensures Inv(Next(w, CrashInOpen, verify), verify)
    ensures Consumed(w) == Consumed(Next(w, CrashInOpen, verify))
  {
    hide Ready, DiskOk, Remaining, OpenFrom, Total, UnderCursor;
    var v := Next(w, CrashInOpen, verify);
    var s := OpenFrom(w.disk, 0);
    OpenMeaning(w.disk, 0);
    ReadyDisk(s);
    ReadyResume(s);
    SameFates(w, v, verify);
  }

  lemma ReadyResume(s: State)
    requires Ready(s)
    ensures Remaining(s.disk.segs, Resume(s.disk)) == Remaining(s.disk.segs, s.mem.cursor)
  {
  }

  // A lost cursor replays from the oldest byte.
  lemma LoseCursorStep(w: World, verify: Verifier)
    requires Inv(w, verify) && Enabled(w, LoseCursor)
    ensures Inv(Next(w, LoseCursor, verify), verify)
    ensures Consumed(Next(w, LoseCursor, verify)) == Gone(w)
  {
    hide Ready, Remaining, Newest, Shape, CursorOk, Total, UnderCursor;
    var v := Next(w, LoseCursor, verify);
    FrontSeesAll(v.disk.segs, Resume(v.disk));
    SameFates(w, v, verify);
  }

  lemma StepKeepsInv(w: World, step: Step, verify: Verifier)
    requires Inv(w, verify) && Enabled(w, step)
    ensures Inv(Next(w, step, verify), verify)
    ensures !step.LoseCursor? ==> Consumed(w) <= Consumed(Next(w, step, verify))
  {
    hide Inv, Next, Enabled, Consumed;
    match step
    case Append(r) => AppendStep(w, r, verify);
    case Peek => PeekStep(w, verify);
    case Publish(js, plain) => PublishStep(w, js, plain, verify);
    case Confirm => ConfirmStep(w, verify);
    case Open(maxBytes) => OpenStep(w, maxBytes, verify);
    case Crash => CrashStep(w, verify);
    case CrashInAppend(r, bytes, drops) => CrashInAppendStep(w, r, bytes, drops, verify);
    case CrashInAdvance(deletes) => CrashInAdvanceStep(w, deletes, verify);
    case CrashInOpen => CrashInOpenStep(w, verify);
    case LoseCursor => LoseCursorStep(w, verify);
  }

  // ---- whole runs ----

  // The worlds a sequence of steps passes through can be reached: each step is
  // enabled where it is taken.
  ghost predicate CanRun(w: World, steps: seq<Step>, verify: Verifier)
    decreases |steps|
  {
    steps == [] || (Enabled(w, steps[0]) && CanRun(Next(w, steps[0], verify), steps[1..], verify))
  }

  ghost function Run(w: World, steps: seq<Step>, verify: Verifier): World
    requires CanRun(w, steps, verify)
    decreases |steps|
  {
    if steps == [] then w else Run(Next(w, steps[0], verify), steps[1..], verify)
  }

  lemma InitialInv(verify: Verifier)
    ensures Inv(Initial, verify)
  {
    assert Initial.disk.segs.Keys == {};
  }

  lemma {:induction false} RunKeepsInv(w: World, steps: seq<Step>, verify: Verifier)
    requires Inv(w, verify) && CanRun(w, steps, verify)
    ensures Inv(Run(w, steps, verify), verify)
    ensures (forall s :: s in steps ==> !s.LoseCursor?) ==> Consumed(w) <= Consumed(Run(w, steps, verify))
    decreases |steps|
  {
    hide Inv, Next, Enabled, Consumed;
    if steps != [] {
      StepKeepsInv(w, steps[0], verify);
      RunKeepsInv(Next(w, steps[0], verify), steps[1..], verify);
    }
  }

  // Nothing is lost, doubled, reordered or altered, in any run: the history is
  // what lies behind the drain position followed by exactly the records that
  // are on disk in front of it, and every record behind it was confirmed by the
  // broker, failed verification, or lay in a segment dropped at the bound.
  lemma {:induction false} Conservation(steps: seq<Step>, verify: Verifier)
    requires CanRun(Initial, steps, verify)
    ensures var w := Run(Initial, steps, verify);
            && 0 <= Consumed(w) <= |w.history|
            && w.history == w.history[..Consumed(w)] + Remaining(w.disk.segs, Position(w))
            && forall i: nat :: i < Consumed(w) ==>
                 i in w.acked || i in w.evicted || !verify(w.history[i].sealed)
  {
    hide Ready, DiskOk, Remaining, Next, Enabled, DrainerInv, CountInv;
    InitialInv(verify);
    RunKeepsInv(Initial, steps, verify);
    var w := Run(Initial, steps, verify);
    AheadIsNext(w);
    forall i: nat | i < Consumed(w)
      ensures i in w.acked || i in w.evicted || !verify(w.history[i].sealed)
    {
      assert Accounted(w, i, verify);
    }
  }

  // Replay is in append order and byte-identical: in any run, an idle drainer
  // peeks the first record behind the consumed ones, or nothing if all are.
  lemma ReplayOrder(steps: seq<Step>, verify: Verifier)
    requires CanRun(Initial, steps, verify)
    ensures var w := Run(Initial, steps, verify);
            Enabled(w, Peek) ==>
              var item := PeekFrom(Running(w)).item;
              && (item.None? <==> Consumed(w) == |w.history|)
              && (item.Some? ==> 0 <= Consumed(w) < |w.history| && item.value.1 == w.history[Consumed(w)])
  {
    hide Inv, Next, PeekFrom, Consumed, Run, CanRun;
    InitialInv(verify);
    RunKeepsInv(Initial, steps, verify);
    var w := Run(Initial, steps, verify);
    if Enabled(w, Peek) {
      PeekIsNext(w, verify);
    }
  }

  lemma PeekIsNext(w: World, verify: Verifier)
    requires Inv(w, verify) && w.mem.Some?
    ensures var item := PeekFrom(Running(w)).item;
            && (item.None? <==> Consumed(w) == |w.history|)
            && (item.Some? ==> 0 <= Consumed(w) < |w.history| && item.value.1 == w.history[Consumed(w)])
  {
    hide Ready, DiskOk, Remaining, DrainerInv, CountInv, FateInv, PeekFrom, UnderCursor;
    AheadIsNext(w);
    PeekMeaning(Running(w));
  }

  // In any run, the process counts no record as drained twice: the confirmed
  // records are strictly increasing positions of the history, all of them
  // acknowledged, and the counter is their number.
  lemma NoRecordDrainedTwice(steps: seq<Step>, verify: Verifier)
    requires CanRun(Initial, steps, verify)
    ensures var w := Run(Initial, steps, verify);
            w.mem.Some? ==>
              && w.metrics.drained == |w.confirmed|
              && (forall i, j :: 0 <= i < j < |w.confirmed| ==> w.confirmed[i] < w.confirmed[j])
              && (forall i :: i in w.confirmed ==> i in w.acked && i < Consumed(w))
  {
    hide LogInv, FateInv, DrainerInv, Next, Enabled, Consumed;
    InitialInv(verify);
    RunKeepsInv(Initial, steps, verify);
  }

  // The shape of the log in any run: no gap between segments, every segment but
  // the newest full and whole; from the first append of a process on, within the
  // bound or the newest segment alone; and while every append meets the bound
  // with a record of at most a segment, the metric is the number of dropped
  // segments.
  lemma LogShape(steps: seq<Step>, verify: Verifier)
    requires CanRun(Initial, steps, verify)
    ensures var w := Run(Initial, steps, verify);
            && (w.disk.segs.Keys != {} ==> Shape(w.disk.segs, Newest(w.disk.segs.Keys)))
            && (w.mem.Some? ==> w.mem.value.head in w.disk.segs && Newest(w.disk.segs.Keys) == w.mem.value.head)
            && (w.mem.Some? && w.metrics.spooled > 0 ==>
                  Total(w.disk.segs) <= w.mem.value.maxBytes || |w.disk.segs| == 1)
            && (w.mem.Some? && w.tame ==> w.metrics.droppedSegments == w.mem.value.dropped)
  {
    hide Inv, Next, Enabled, Shape, Total, Newest, Run, CanRun;
    InitialInv(verify);
    RunKeepsInv(Initial, steps, verify);
    ShapeOf(Run(Initial, steps, verify), verify);
  }

  lemma ShapeOf(w: World, verify: Verifier)
    requires Inv(w, verify)
    ensures w.disk.segs.Keys != {} ==> Shape(w.disk.segs, Newest(w.disk.segs.Keys))
    ensures w.mem.Some? ==> w.mem.value.head in w.disk.segs && Newest(w.disk.segs.Keys) == w.mem.value.head
    ensures w.mem.Some? && w.metrics.spooled > 0 ==>
              Total(w.disk.segs) <= w.mem.value.maxBytes || |w.disk.segs| == 1
    ensures w.mem.Some? && w.tame ==> w.metrics.droppedSegments == w.mem.value.dropped
  {
    hide Remaining, FateInv, DrainerInv, Total, Newest, Boundary, Contiguous, Whole;
    if w.mem.Some? {
      NewestIsHead(w.disk.segs, w.mem.value.head);
      assert |w.disk.segs.Keys| > 0;
    }
  }

  // While the process lives, its cursor never moves backwards, however appends
  // interleave with the drainer and also when the drainer confirms a record
  // whose segment was dropped under it.
  lemma CursorStep(w: World, step: Step, verify: Verifier)
    requires Inv(w, verify) && Enabled(w, step) && w.mem.Some?
    ensures var v := Next(w, step, verify);
            v.mem.Some? ==> AtOrBefore(w.mem.value.cursor, v.mem.value.cursor)
  {
    hide Ready, Remaining, AppendTo, PeekFrom, AdvanceFrom, UnderCursor, Total, Encode, FateInv;
    match step
    case Append(r) => AppendMeaning(Running(w), r);
    case Peek => PeekMeaning(Running(w));
    case Confirm =>
      if w.drainer.at.seg in w.disk.segs {
        AdvanceMeaning(Running(w));
      } else {
        assert AdvanceFrom(Running(w), w.drainer.at) == None by { StaleAdvance(Running(w), w.drainer.at); }
      }
    case _ =>
  }

  lemma StaleAdvance(s: State, at: Cursor)
    requires at.seg !in s.disk.segs
    ensures AdvanceFrom(s, at) == None
  {
  }

  lemma {:induction false} CursorNeverMovesBack(w: World, steps: seq<Step>, verify: Verifier)
    requires Inv(w, verify) && w.mem.Some? && CanRun(w, steps, verify)
    requires forall s :: s in steps ==> s.Append? || s.Peek? || s.Publish? || s.Confirm?
    ensures var v := Run(w, steps, verify);
            v.mem.Some? && AtOrBefore(w.mem.value.cursor, v.mem.value.cursor)
    decreases |steps|
  {
    hide Inv, Enabled;
    if steps != [] {
      StepKeepsInv(w, steps[0], verify);
      CursorStep(w, steps[0], verify);
      var v := Next(w, steps[0], verify);
      assert v.mem.Some? by { StaysUp(w, steps[0], verify); }
      hide Next;
      CursorNeverMovesBack(v, steps[1..], verify);
    }
  }

  lemma StaysUp(w: World, step: Step, verify: Verifier)
    requires Enabled(w, step) && w.mem.Some?
    requires step.Append? || step.Peek? || step.Publish? || step.Confirm?
    ensures Next(w, step, verify).mem.Some?
  {
  }

  // A process that dies resumes in front of every record it had not confirmed:
  // whatever it was doing, the position after the crash is at least the one
  // before, and only a lost cursor goes back, to the oldest byte on disk.
  lemma CrashResumes(steps: seq<Step>, step: Step, verify: Verifier)
    requires CanRun(Initial, steps, verify) && Enabled(Run(Initial, steps, verify), step)
    ensures var w := Run(Initial, steps, verify);
            var v := Next(w, step, verify);
            && (step.LoseCursor? ==> Consumed(v) == Gone(w))
            && (!step.LoseCursor? ==> Consumed(w) <= Consumed(v))
            && (step.Crash? ==> Consumed(w) == Consumed(v))
  {
    hide Inv, Next, Consumed, Gone;
    InitialInv(verify);
    RunKeepsInv(Initial, steps, verify);
    var w := Run(Initial, steps, verify);
    StepKeepsInv(w, step, verify);
    if step.LoseCursor? {
      LoseCursorStep(w, verify);
    } else if step.Crash? {
      CrashStep(w, verify);
    }
  }

  // ---- draining ----

  // One round against a broker that answers.
  const ROUND := [Peek, Publish(Ack, true), Confirm]

  // A round takes the next record off, counts it if its seal verifies, and
  // leaves the drainer ready for the one after.
  lemma RoundDrains(w: World, verify: Verifier)
    requires Inv(w, verify) && w.mem.Some? && w.drainer.Idle? && Consumed(w) < |w.history|
    ensures CanRun(w, ROUND, verify)
    ensures var v := Run(w, ROUND, verify);
            && Inv(v, verify) && v.mem.Some? && v.drainer.Idle?
            && v.history == w.history && Consumed(v) == Consumed(w) + 1
            && v.confirmed == w.confirmed + (if verify(w.history[Consumed(w)].sealed) then [Consumed(w)] else [])
  {
    hide Inv, Consumed, Next, Enabled;
    PeekBusy(w, verify);
    var p := Next(w, Peek, verify);
    PublishAcked(p, verify);
    var q := Next(p, Publish(Ack, true), verify);
    ConfirmRound(q, verify);
    assert ROUND[1..] == [Publish(Ack, true), Confirm] && ROUND[1..][1..] == [Confirm];
    assert ROUND[1..][1..][1..] == [];
  }

  lemma PeekBusy(w: World, verify: Verifier)
    requires Inv(w, verify) && w.mem.Some? && w.drainer.Idle? && Consumed(w) < |w.history|
    ensures Enabled(w, Peek) && 0 <= Consumed(w)
    ensures var p := Next(w, Peek, verify);
            && Inv(p, verify) && p.mem.Some? && Consumed(p) == Consumed(w)
            && p.history == w.history && p.confirmed == w.confirmed
            && p.drainer.Busy? && p.drainer.phase.Held? && p.drainer.index == Consumed(w)
            && p.drainer.rec == w.history[Consumed(w)] && p.drainer.at.seg in p.disk.segs
  {
    hide Ready, Remaining, PeekFrom, FateInv, CountInv, DrainerInv, Consumed;
    PeekStep(w, verify);
    PeekIsNext(w, verify);
    PeekSegment(w);
  }

  lemma PeekSegment(w: World)
    requires LogInv(w) && w.mem.Some?
    ensures var p := PeekFrom(Running(w));
            p.state.disk == w.disk && (p.item.Some? ==> p.item.value.0.seg in w.disk.segs)
  {
    hide Ready, Remaining, PeekFrom, ReadRecordAt;
    PeekMeaning(Running(w));
  }

  lemma PublishAcked(p: World, verify: Verifier)
    requires Inv(p, verify) && p.mem.Some? && p.drainer.Busy? && p.drainer.phase.Held?
    ensures Enabled(p, Publish(Ack, true))
    ensures var q := Next(p, Publish(Ack, true), verify);
            && Inv(q, verify) && Consumed(q) == Consumed(p)
            && q.mem == p.mem && q.disk == p.disk && q.history == p.history && q.confirmed == p.confirmed
            && q.drainer == p.drainer.(phase := if verify(p.drainer.rec.sealed) then Delivered else Corrupt)
  {
    hide Inv, Consumed, Next;
    assert Enabled(p, Publish(Ack, true));
    PublishStep(p, Ack, true, verify);
    AckedParts(p, verify);
  }

  lemma AckedParts(p: World, verify: Verifier)
    requires Enabled(p, Publish(Ack, true))
    ensures var q := Next(p, Publish(Ack, true), verify);
            && q.mem == p.mem && q.disk == p.disk && q.history == p.history && q.confirmed == p.confirmed
            && q.drainer == p.drainer.(phase := if verify(p.drainer.rec.sealed) then Delivered else Corrupt)
  {
  }

  lemma ConfirmRound(q: World, verify: Verifier)
    requires Inv(q, verify) && q.mem.Some? && q.drainer.Busy? && !q.drainer.phase.Held?
    requires q.drainer.at.seg in q.disk.segs
    ensures Enabled(q, Confirm)
    ensures var v := Next(q, Confirm, verify);
            && Inv(v, verify) && v.mem.Some? && v.drainer.Idle?
            && v.history == q.history && Consumed(v) == Consumed(q) + 1
            && v.confirmed == q.confirmed + (if q.drainer.phase.Delivered? then [q.drainer.index] else [])
  {
    hide LogInv, FateInv, CountInv, Consumed, AdvanceFrom, UnderCursor;
    ConfirmStep(q, verify);
    ConfirmLive(q, Next(q, Confirm, verify), verify);
  }

  function Rounds(n: nat): seq<Step> {
    if n == 0 then [] else ROUND + Rounds(n - 1)
  }

  // The places from n on whose records verify.
  function Verified(history: seq<Record>, n: nat, verify: Verifier): seq<nat>
    decreases |history| - n
  {
    if n >= |history| then []
    else (if verify(history[n].sealed) then [n] else []) + Verified(history, n + 1, verify)
  }

  lemma {:induction false} RunOfConcat(w: World, a: seq<Step>, b: seq<Step>, verify: Verifier)
    requires CanRun(w, a, verify) && CanRun(Run(w, a, verify), b, verify)
    ensures CanRun(w, a + b, verify) && Run(w, a + b, verify) == Run(Run(w, a, verify), b, verify)
    decreases |a|
  {
    hide Next, Enabled;
    if a == [] {
      assert a + b == b;
    } else {
      assert (a + b)[0] == a[0] && (a + b)[1..] == a[1..] + b;
      RunOfConcat(Next(w, a[0], verify), a[1..], b, verify);
    }
  }

  // One round per record ahead drains the spool, and the records that verify
  // are confirmed, all of them, in the order they were appended.
  ghost predicate Drains(w: World, verify: Verifier) {
    && 0 <= Consumed(w) <= |w.history|
    && var n := |w.history| - Consumed(w);
       && CanRun(w, Rounds(n), verify)
       && var v := Run(w, Rounds(n), verify);
          && v.history == w.history && Consumed(v) == |v.history|
          && v.confirmed == w.confirmed + Verified(w.history, Consumed(w), verify)
  }

  lemma {:induction false} BacklogDrains(w: World, verify: Verifier)
    requires Inv(w, verify) && w.mem.Some? && w.drainer.Idle? && 0 <= Consumed(w) <= |w.history|
    ensures Drains(w, verify)
    decreases |w.history| - Consumed(w)
  {
    hide Inv, Consumed, Next, Enabled;
    var n := |w.history| - Consumed(w);
    if n > 0 {
      RoundDrains(w, verify);
      var v := Run(w, ROUND, verify);
      BacklogDrains(v, verify);
      hide Run, CanRun;
      RunOfConcat(w, ROUND, Rounds(n - 1), verify);
    }
  }

  // In every run, whenever the drainer is idle, a broker that answers is enough
  // to drain the spool.
  lemma {:induction false} RunDrains(steps: seq<Step>, verify: Verifier)
    requires CanRun(Initial, steps, verify)
    ensures var w := Run(Initial, steps, verify);
            w.mem.Some? && w.drainer.Idle? ==> Drains(w, verify)
  {
    hide Inv, Consumed, Next, Enabled, Run, CanRun, Drains;
    InitialInv(verify);
    RunKeepsInv(Initial, steps, verify);
    var w := Run(Initial, steps, verify);
    if w.mem.Some? && w.drainer.Idle? {
      InvBounds(w, verify);
      BacklogDrains(w, verify);
    }
  }

  lemma InvBounds(w: World, verify: Verifier)
    requires Inv(w, verify)
    ensures 0 <= Consumed(w) <= |w.history|
  {
    hide FateInv, DrainerInv, CountInv, LogInv;
    AheadIsNext(w);
  }

  // ---- a run whose metric is too low ----

  // A log of n records, j of them in the newest segment and k in each full one.
  ghost predicate Filling(w: World, r: Record, bound: nat, k: nat, n: nat, segments: nat, j: nat) {
    && w.mem.Some? && Ready(Running(w)) && |w.disk.segs| == segments && 1 <= j <= k
    && w.mem.value.headLen == j * |Encode(r)|
    && Total(w.disk.segs) == n * |Encode(r)| && w.mem.value.maxBytes == bound * |Encode(r)|
  }

  // k records fill a segment and k - 1 do not.
  ghost predicate FillsIn(r: Record, k: nat) {
    k >= 1 && (k - 1) * |Encode(r)| < SEGMENT_BYTES <= k * |Encode(r)|
  }

  // An append that stays within the bound: a new segment exactly if the newest
  // one is full.
  lemma AppendWithin(s: State, r: Record)
    requires Ready(s) && Fits(r) && Total(s.disk.segs) + |Encode(r)| <= s.mem.maxBytes
    ensures s.mem.head in s.disk.segs
    ensures var t, full := AppendTo(s, r), s.mem.headLen >= SEGMENT_BYTES;
            && Ready(t) && t.mem.maxBytes == s.mem.maxBytes
            && t.mem.headLen == (if full then 0 else s.mem.headLen) + |Encode(r)|
            && Total(t.disk.segs) == Total(s.disk.segs) + |Encode(r)|
            && |t.disk.segs| == |s.disk.segs| + if full then 1 else 0
  {
    hide Remaining, Total, Encode, Whole, Boundary, Contiguous, ValidUtf8;
    RotateMeaning(s);
    WriteMeaning(RotateIfFull(s), r);
    EnforceStep(Written(s, r));
    var m := s.disk.segs;
    if s.mem.headLen >= SEGMENT_BYTES {
      assert m[s.mem.head + 1 := []].Keys == m.Keys + {s.mem.head + 1};
    }
    assert |Written(s, r).disk.segs.Keys| == |RotateIfFull(s).disk.segs.Keys|;
  }

  // One more record.
  lemma FillStep(w: World, r: Record, bound: nat, k: nat, n: nat, segments: nat, j: nat, verify: Verifier)
    requires Filling(w, r, bound, k, n, segments, j) && n < bound && Fits(r) && FillsIn(r, k)
    ensures Enabled(w, Append(r))
    ensures var v := Next(w, Append(r), verify);
            if j < k then Filling(v, r, bound, k, n + 1, segments, j + 1)
            else Filling(v, r, bound, k, n + 1, segments + 1, 1)
  {
    hide Ready, Total, Encode, AppendTo, Fits;
    var size := |Encode(r)|;
    Multiples(size, n + 1, bound);
    Multiples(size, j, k - 1);
    assert n * size + size == (n + 1) * size && j * size + size == (j + 1) * size;
    AppendWithin(Running(w), r);
  }

  lemma Multiples(size: nat, a: nat, b: int)
    ensures a <= b ==> a * size <= b * size
  {
    if a <= b {
      assert b * size == a * size + (b - a) * size;
    }
  }

  function Appends(r: Record, n: nat): seq<Step> {
    if n == 0 then [] else Appends(r, n - 1) + [Append(r)]
  }

  // m appends behind the first: the segments they open, and the records in the
  // newest one.
  function Opened(k: nat, m: nat): (nat, nat)
    requires k >= 1
  {
    if m == 0 then (1, 1)
    else
      var (s, j) := Opened(k, m - 1);
      if j < k then (s, j + 1) else (s + 1, 1)
  }

  lemma {:induction false} FillRun(w: World, r: Record, bound: nat, k: nat, m: nat, verify: Verifier)
    requires Filling(w, r, bound, k, 1, 1, 1) && m < bound && Fits(r) && k >= 1 && FillsIn(r, k)
    ensures CanRun(w, Appends(r, m), verify)
    ensures Filling(Run(w, Appends(r, m), verify), r, bound, k, m + 1, Opened(k, m).0, Opened(k, m).1)
  {
    hide Next, Enabled, Filling, FillsIn, Fits;
    if m > 0 {
      FillRun(w, r, bound, k, m - 1, verify);
      var v := Run(w, Appends(r, m - 1), verify);
      var (s, j) := Opened(k, m - 1);
      FillStep(v, r, bound, k, m, s, j, verify);
      RunOne(v, Append(r), verify);
      RunOfConcat(w, Appends(r, m - 1), [Append(r)], verify);
      FillingCount(v, r, bound, k, m, s, j);
    }
  }

  lemma FillingCount(w: World, r: Record, bound: nat, k: nat, n: nat, segments: nat, j: nat)
    requires Filling(w, r, bound, k, n, segments, j)
    ensures 1 <= j <= k
  {
  }

  // Twice as many records as fill a segment, and one more, are in three.
  lemma {:induction false} OpenedAt(k: nat, m: nat)
    requires k >= 1 && m <= 2 * k
    ensures Opened(k, m) == if m < k then (1, m + 1) else if m < 2 * k then (2, m - k + 1) else (3, 1)
  {
    if m > 0 {
      OpenedAt(k, m - 1);
    }
  }

  lemma FirstFill(r: Record, bound: nat, k: nat, verify: Verifier)
    requires Fits(r) && bound >= 1 && k >= 1
    ensures var open := Open(bound * |Encode(r)|);
            && Enabled(Initial, open)
            && Enabled(Next(Initial, open, verify), Append(r))
            && Filling(Next(Next(Initial, open, verify), Append(r), verify), r, bound, k, 1, 1, 1)
  {
    hide Ready, Total, Encode, AppendTo, Fits, OpenFrom;
    var d := Disk(map[], None);
    var s := OpenFrom(d, bound * |Encode(r)|);
    OpenNothing(d, bound * |Encode(r)|);
    Multiples(|Encode(r)|, 1, bound);
    AppendWithin(s, r);
  }

  lemma OpenNothing(d: Disk, maxBytes: nat)
    requires d == Disk(map[], None)
    ensures var s := OpenFrom(d, maxBytes);
            && Ready(s) && |s.disk.segs| == 1 && Total(s.disk.segs) == 0
            && s.mem.headLen == 0 && s.mem.maxBytes == maxBytes
  {
    hide Ready, Remaining;
    assert d.segs.Keys == {};
    OpenEmpty(d, maxBytes);
    var m := OpenFrom(d, maxBytes).disk.segs;
    assert m == map[0 := []] && m.Keys == {0} && (m - {0}).Keys == {};
  }

  // Opened again with no room at all, the next append drops at least two
  // segments and the metric counts one.
  lemma ReopenedUndercounts(w: World, r: Record, verify: Verifier)
    requires w.mem.Some? && Ready(Running(w)) && |w.disk.segs| == 3 && Fits(r)
    ensures Enabled(w, Crash) && Enabled(Next(w, Crash, verify), Open(0))
    ensures var v := Next(Next(w, Crash, verify), Open(0), verify);
            && Enabled(v, Append(r))
            && var u := Next(v, Append(r), verify);
               u.mem.Some? && u.metrics.droppedSegments == 1 && u.mem.value.dropped > 1
  {
    hide Ready, Total, Encode, Fits, DiskOk, Remaining, EnforceBound, AppendTo;
    var s := OpenFrom(w.disk, 0);
    ReadyDisk(Running(w));
    OpenMeaning(w.disk, 0);
    ReadyHead(s);
    assert s.disk.segs.Keys == w.disk.segs.Keys;
    assert |s.disk.segs.Keys| == 3;
    SegmentCounts(s, r);
    TotalIsAtLeastOldest(s.disk.segs);
    DropReportUndercountsIff(s, r);
  }

  lemma TotalIsAtLeastOldest(m: Segs)
    requires m.Keys != {}
    ensures Total(m) >= |m[Oldest(m.Keys)]|
  {
  }

  // How many records fill a segment.
  function PerSegment(r: Record): nat {
    (SEGMENT_BYTES + |Encode(r)| - 1) / |Encode(r)|
  }

  lemma PerSegmentFills(r: Record)
    ensures FillsIn(r, PerSegment(r))
  {
    var size := |Encode(r)|;
    hide Encode;
    var total, k := SEGMENT_BYTES + size - 1, PerSegment(r);
    assert total >= size && total == k * size + total % size;
    assert (k - 1) * size == k * size - size;
  }

  // Records enough for three segments, under a bound that holds them.
  function FillSteps(r: Record): seq<Step> {
    var n := 2 * PerSegment(r);
    [Open((n + 1) * |Encode(r)|), Append(r)] + Appends(r, n)
  }

  ghost predicate LeavesThree(steps: seq<Step>, verify: Verifier) {
    && CanRun(Initial, steps, verify)
    && var w := Run(Initial, steps, verify);
       w.mem.Some? && Ready(Running(w)) && |w.disk.segs| == 3
  }

  // And then a restart with no room and one more append.
  function UndercountRun(r: Record): seq<Step> {
    FillSteps(r) + [Crash, Open(0), Append(r)]
  }

  ghost predicate Undercounts(steps: seq<Step>, verify: Verifier) {
    && CanRun(Initial, steps, verify)
    && var w := Run(Initial, steps, verify);
       w.mem.Some? && w.metrics.droppedSegments < w.mem.value.dropped
  }

  lemma ThreeSegments(r: Record, verify: Verifier)
    requires Fits(r)
    ensures LeavesThree(FillSteps(r), verify)
  {
    hide Next, Enabled, Encode, Fits, PerSegment, Appends, Run, CanRun, Opened, FillsIn, Ready;
    var k := PerSegment(r);
    PerSegmentFills(r);
    assert k >= 1 by { AtLeastOne(r, k); }
    var n := 2 * k;
    FirstFill(r, n + 1, k, verify);
    var open := Open((n + 1) * |Encode(r)|);
    var w1 := Next(Next(Initial, open, verify), Append(r), verify);
    FillRun(w1, r, n + 1, k, n, verify);
    OpenedAt(k, n);
    TwoSteps(Initial, open, Append(r), verify);
    RunOfConcat(Initial, [open, Append(r)], Appends(r, n), verify);
  }

  lemma AtLeastOne(r: Record, k: nat)
    requires FillsIn(r, k)
    ensures k >= 1
  {
  }

  // For every record that can be spooled, that run ends with the metric below the
  // number of segments dropped.
  lemma {:induction false} MetricCanUndercount(r: Record, verify: Verifier)
    requires Fits(r)
    ensures Undercounts(UndercountRun(r), verify)
  {
    hide Next, Enabled, Fits, FillSteps, Run, CanRun, Ready;
    ThreeSegments(r, verify);
    var w := Run(Initial, FillSteps(r), verify);
    ReopenedUndercounts(w, r, verify);
    ThreeSteps(w, Crash, Open(0), Append(r), verify);
    RunOfConcat(Initial, FillSteps(r), [Crash, Open(0), Append(r)], verify);
  }

  lemma RunOne(w: World, a: Step, verify: Verifier)
    requires Enabled(w, a)
    ensures CanRun(w, [a], verify) && Run(w, [a], verify) == Next(w, a, verify)
  {
    hide Next, Enabled;
    assert [a][1..] == [];
  }

  lemma TwoSteps(w: World, a: Step, b: Step, verify: Verifier)
    requires Enabled(w, a) && Enabled(Next(w, a, verify), b)
    ensures CanRun(w, [a, b], verify) && Run(w, [a, b], verify) == Next(Next(w, a, verify), b, verify)
  {
    hide Next, Enabled, Run, CanRun;
    RunOne(w, a, verify);
    RunOne(Next(w, a, verify), b, verify);
    RunOfConcat(w, [a], [b], verify);
    assert [a] + [b] == [a, b];
  }

  lemma ThreeSteps(w: World, a: Step, b: Step, c: Step, verify: Verifier)
    requires Enabled(w, a) && Enabled(Next(w, a, verify), b)
    requires Enabled(Next(Next(w, a, verify), b, verify), c)
    ensures CanRun(w, [a, b, c], verify)
    ensures Run(w, [a, b, c], verify) == Next(Next(Next(w, a, verify), b, verify), c, verify)
  {
    hide Next, Enabled, Run, CanRun;
    TwoSteps(w, a, b, verify);
    RunOne(Next(Next(w, a, verify), b, verify), c, verify);
    RunOfConcat(w, [a, b], [c], verify);
    assert [a, b] + [c] == [a, b, c];
  }
}
