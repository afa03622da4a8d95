// The spool's operations on values: the specification of the class in
// Spool.dfy, and what each operation does to the records in front of the drain
// position.
module SpoolOps {
  import opened Bytes
  import opened SpoolCodec
  import opened SpoolLog

  // What survives the process: the segment files and the cursor file.
  datatype Disk = Disk(segs: Segs, saved: Option<Cursor>)

  // What the process holds beside it.
  datatype Mem = Mem(maxBytes: nat, head: nat, headLen: nat, cursor: Cursor, dropped: nat)

  datatype State = State(disk: Disk, mem: Mem)

  datatype Peeked = Peeked(state: State, item: Option<(Cursor, Record)>)

  function Newest(s: set<nat>): (n: nat)
    requires s != {}
    ensures n in s && forall y :: y in s ==> y <= n
    decreases s
  {
    var o := Oldest(s);
    if s == {o} then o
    else
      assert s - {o} != {};
      assert forall y :: y in s ==> y == o || y in s - {o};
      Newest(s - {o})
  }

  // Where a reopened spool starts to drain: the saved cursor, or the oldest byte.
  function Resume(d: Disk): Cursor {
    if d.saved.Some? then d.saved.value
    else if d.segs.Keys == {} then START
    else Cursor(Oldest(d.segs.Keys), 0)
  }

  function OpenFrom(d: Disk, maxBytes: nat): State {
    var head := if d.segs.Keys == {} then 0 else Newest(d.segs.Keys);
    var data := if d.segs.Keys == {} then [] else d.segs[head][..WholeLen(d.segs[head])];
    State(d.(segs := d.segs[head := data]), Mem(maxBytes, head, |data|, Resume(d), 0))
  }

  function RotateIfFull(s: State): State {
    if s.mem.headLen >= SEGMENT_BYTES then
      State(s.disk.(segs := s.disk.segs[s.mem.head + 1 := []]),
            s.mem.(head := s.mem.head + 1, headLen := 0))
    else s
  }

  function Write(s: State, r: Record): State
    requires s.mem.head in s.disk.segs
  {
    State(s.disk.(segs := s.disk.segs[s.mem.head := s.disk.segs[s.mem.head] + Encode(r)]),
          s.mem.(headLen := s.mem.headLen + |Encode(r)|))
  }

  predicate OverBound(s: State) {
    Total(s.disk.segs) > s.mem.maxBytes && |s.disk.segs| > 1
  }

  function DropFirst(s: State): (t: State)
    requires |s.disk.segs| > 1
    ensures |t.disk.segs| == |s.disk.segs| - 1
  {
    assert s.disk.segs != map[];
    KeysCount(s.disk.segs);
    var o := Oldest(s.disk.segs.Keys);
    State(s.disk.(segs := s.disk.segs - {o}),
          s.mem.(cursor := PastDropped(s.mem.cursor, o), dropped := s.mem.dropped + 1))
  }

  function EnforceBound(s: State): State
    decreases |s.disk.segs|
  {
    if OverBound(s) then EnforceBound(DropFirst(s)) else s
  }

  function AppendTo(s: State, r: Record): State
    requires s.mem.head in s.disk.segs
  {
    EnforceBound(Write(RotateIfFull(s), r))
  }

  // The record under the cursor, if its segment exists and holds one there.
  function UnderCursor(s: State): Option<Parsed> {
    var c := s.mem.cursor;
    if c.seg in s.disk.segs then ReadRecordAt(s.disk.segs[c.seg], c.offset) else None
  }

  function SkipTo(s: State, seg: nat): State {
    s.(mem := s.mem.(cursor := Cursor(seg, 0)))
  }

  function PeekFrom(s: State): Peeked
    decreases if s.mem.cursor.seg < s.mem.head then s.mem.head - s.mem.cursor.seg else 0
  {
    match UnderCursor(s)
    case Some(p) => Peeked(s, Some((s.mem.cursor, p.rec)))
    case None =>
      if s.mem.cursor.seg < s.mem.head then PeekFrom(SkipTo(s, s.mem.cursor.seg + 1))
      else Peeked(s, None)
  }

  function FromSegment(m: Segs, seg: nat): Segs {
    map k | k in m && seg <= k :: m[k]
  }

  // None when the record at `at` is not there any more.
  function AdvanceFrom(s: State, at: Cursor): Option<State> {
    if at.seg !in s.disk.segs then None
    else
      match ReadRecordAt(s.disk.segs[at.seg], at.offset)
      case None => None
      case Some(p) =>
        var c := Cursor(at.seg, p.next);
        Some(State(Disk(FromSegment(s.disk.segs, c.seg), Some(c)), s.mem.(cursor := c)))
  }

  // ---- the invariant of a running spool ----

  ghost predicate DiskOk(d: Disk) {
    if d.segs.Keys == {} then d.saved.None?
    else
      && Shape(d.segs, Newest(d.segs.Keys))
      && (d.saved.Some? ==> CursorOk(d.segs, Newest(d.segs.Keys), d.saved.value))
  }

  // Reopening would resume in front of the same records.
  ghost predicate Ready(s: State) {
    && Shape(s.disk.segs, s.mem.head)
    && Whole(s.disk.segs[s.mem.head])
    && s.mem.headLen == |s.disk.segs[s.mem.head]|
    && CursorOk(s.disk.segs, s.mem.head, s.mem.cursor)
    && (s.disk.saved.Some? ==> CursorOk(s.disk.segs, s.mem.head, s.disk.saved.value))
    && Remaining(s.disk.segs, Resume(s.disk)) == Remaining(s.disk.segs, s.mem.cursor)
  }

  lemma NewestIsHead(m: Segs, head: nat)
    requires Shape(m, head)
    ensures m.Keys != {} && Newest(m.Keys) == head
  {
    hide Whole;
  }

  lemma ReadyDisk(s: State)
    requires Ready(s)
    ensures DiskOk(s.disk) && s.disk.segs.Keys != {}
  {
    hide Whole, Boundary, Remaining, Newest;
    NewestIsHead(s.disk.segs, s.mem.head);
  }

  lemma ResumeOk(m: Segs, head: nat, d: Disk)
    requires d.segs == m && Shape(m, head)
    requires d.saved.Some? ==> CursorOk(m, head, d.saved.value)
    ensures CursorOk(m, head, Resume(d))
    ensures d.saved.None? ==> Remaining(m, Resume(d)) == AllRecords(m)
  {
    hide Whole, Boundary, Remaining;
    if d.saved.None? {
      BoundaryStart(m[Oldest(m.Keys)]);
      FrontSeesAll(m, Resume(d));
    }
  }

  // ---- open ----

  // Opening loses no record: the position it drains from sees exactly the
  // records that were on disk behind the saved cursor.
  lemma OpenMeaning(d: Disk, maxBytes: nat)
    requires DiskOk(d)
    ensures var s := OpenFrom(d, maxBytes);
            && Ready(s)
            && Remaining(s.disk.segs, s.mem.cursor) == Remaining(d.segs, Resume(d))
            && AllRecords(s.disk.segs) == AllRecords(d.segs)
  {
    hide Remaining, Boundary, Newest;
    var s := OpenFrom(d, maxBytes);
    if d.segs.Keys == {} {
      OpenEmpty(d, maxBytes);
    } else {
      var head := Newest(d.segs.Keys);
      ResumeOk(d.segs, head, d);
      TruncateHead(d.segs, head, Resume(d));
      TruncateHead(d.segs, head, START);
      assert s.disk.segs.Keys == d.segs.Keys;
      TruncateKeepsRecords(d.segs[head]);
      ResumeOk(s.disk.segs, head, s.disk);
    }
  }

  lemma OpenEmpty(d: Disk, maxBytes: nat)
    requires d.segs.Keys == {} && d.saved.None?
    ensures var s := OpenFrom(d, maxBytes);
            && Ready(s)
            && Remaining(s.disk.segs, s.mem.cursor) == [] == AllRecords(s.disk.segs)
            && Remaining(d.segs, Resume(d)) == [] == AllRecords(d.segs)
  {
    hide Boundary, WholeLen;
    var s := OpenFrom(d, maxBytes);
    assert s.disk.segs == map[0 := []];
    BoundaryStart([]);
    EmptyLog();
    ResumeOk(s.disk.segs, 0, s.disk);
  }

  lemma EmptyLog()
    ensures Shape(map[0 := []], 0) && Whole([]) && AllRecords(map[0 := []]) == []
  {
    var m: Segs := map[0 := []];
    assert m.Keys == {0} && (m - {0}).Keys == {};
  }

  lemma TruncateHead(m: Segs, head: nat, c: Cursor)
    requires Shape(m, head)
    requires c.seg <= head && (c.seg in m ==> c == START || Boundary(m[c.seg], c.offset))
    ensures var m' := m[head := m[head][..WholeLen(m[head])]];
            && Shape(m', head)
            && Remaining(m', c) == Remaining(m, c)
            && (c.seg in m ==> Boundary(m'[c.seg], c.offset))
  {
    hide Remaining, Boundary, Whole, Records;
    var t := m[head][..WholeLen(m[head])];
    var m' := m[head := t];
    if c.seg in m && c == START {
      BoundaryStart(m[c.seg]);
    }
    var base := m - {head};
    assert m == base[head := m[head]] && m' == base[head := t];
    RemainingTop(base, head, m[head], c);
    RemainingTop(base, head, t, c);
    if c.seg == head {
      BoundaryTruncate(m[head], c.offset);
      BoundaryInside(m[head], c.offset);
      BoundaryInside(t, c.offset);
    } else {
      TruncateKeepsRecords(m[head]);
    }
  }

  // ---- append ----

  lemma RotateMeaning(s: State)
    requires Ready(s)
    ensures var t := RotateIfFull(s);
            && Ready(t)
            && t.disk.saved == s.disk.saved && t.mem.cursor == s.mem.cursor
            && t.mem.maxBytes == s.mem.maxBytes && t.mem.dropped == s.mem.dropped
            && Total(t.disk.segs) == Total(s.disk.segs)
            && s.disk.segs.Keys <= t.disk.segs.Keys
            && (forall c: Cursor :: Remaining(t.disk.segs, c) == Remaining(s.disk.segs, c))
  {
    hide Remaining, Boundary, Total, Contiguous, Whole;
    var t := RotateIfFull(s);
    if s.mem.headLen >= SEGMENT_BYTES {
      forall c: Cursor
        ensures Remaining(t.disk.segs, c) == Remaining(s.disk.segs, c)
      {
        RemainingTop(s.disk.segs, s.mem.head + 1, [], c);
        assert Part(s.mem.head + 1, [], c) == [];
      }
      TotalTop(s.disk.segs, s.mem.head + 1, []);
      RotateShape(s);
      ResumeOk(s.disk.segs, s.mem.head, s.disk);
      ResumeOk(t.disk.segs, t.mem.head, t.disk);
    }
  }

  lemma ContiguousTop(s: set<nat>, head: nat)
    requires Contiguous(s) && head in s && forall k :: k in s ==> k <= head
    ensures Contiguous(s + {head + 1})
  {
    var t := s + {head + 1};
    forall i, j: nat, k | i in t && k in t && i <= j <= k
      ensures j in t
    {
      if i <= head && j <= head {
        assert j in s;
      }
    }
  }

  lemma RotateShape(s: State)
    requires Ready(s) && s.mem.headLen >= SEGMENT_BYTES
    ensures var t := RotateIfFull(s);
            && Shape(t.disk.segs, t.mem.head) && Whole(t.disk.segs[t.mem.head])
            && CursorOk(t.disk.segs, t.mem.head, s.mem.cursor)
            && (s.disk.saved.Some? ==> CursorOk(t.disk.segs, t.mem.head, s.disk.saved.value))
  {
    hide Remaining, Boundary, Contiguous;
    EmptyLog();
    hide WholeLen;
    var m, t := s.disk.segs, RotateIfFull(s).disk.segs;
    assert t.Keys == m.Keys + {s.mem.head + 1};
    ContiguousTop(m.Keys, s.mem.head);
  }

  lemma WriteMeaning(s: State, r: Record)
    requires Ready(s) && Fits(r)
    ensures var t := Write(s, r);
            && Ready(t)
            && Remaining(t.disk.segs, t.mem.cursor) == Remaining(s.disk.segs, s.mem.cursor) + [r]
            && AllRecords(t.disk.segs) == AllRecords(s.disk.segs) + [r]
            && Total(t.disk.segs) == Total(s.disk.segs) + |Encode(r)|
            && t.disk.segs.Keys == s.disk.segs.Keys
  {
    hide Remaining, Boundary, Total, Records, WholeLen, Encode;
    var t := Write(s, r);
    var m, head := s.disk.segs, s.mem.head;
    RecordsOfEncoded(r);
    GrowHead(m, head, Encode(r), s.mem.cursor);
    ResumeOk(m, head, s.disk);
    GrowHead(m, head, Encode(r), Resume(s.disk));
    StartOk(m, head);
    GrowHead(m, head, Encode(r), START);
    RecordsOfConcat(m[head], Encode(r));
    assert t.disk.segs.Keys == m.Keys;
  }

  lemma StartOk(m: Segs, head: nat)
    requires Shape(m, head)
    ensures CursorOk(m, head, START)
  {
    hide Whole, Boundary;
    if 0 in m {
      BoundaryStart(m[0]);
    }
  }

  lemma DropFirstReady(s: State)
    requires Ready(s) && |s.disk.segs| > 1
    ensures var t := DropFirst(s);
            && Ready(t)
            && |AllRecords(t.disk.segs)| <= |AllRecords(s.disk.segs)|
            && IsSuffix(AllRecords(t.disk.segs), AllRecords(s.disk.segs))
            && Remaining(t.disk.segs, t.mem.cursor)
               == (if |Remaining(s.disk.segs, s.mem.cursor)| <= |AllRecords(t.disk.segs)|
                   then Remaining(s.disk.segs, s.mem.cursor) else AllRecords(t.disk.segs))
            && Total(t.disk.segs) == Total(s.disk.segs) - |s.disk.segs[Oldest(s.disk.segs.Keys)]|
            && |s.disk.segs[Oldest(s.disk.segs.Keys)]| >= SEGMENT_BYTES
            && HeldFate(s, t)
  {
    hide Remaining, Boundary, Whole, UnderCursor;
    var t := DropFirst(s);
    var m := s.disk.segs;
    var o := Oldest(m.Keys);
    DropShape(m, s.mem.head);
    DropOne(m, s.mem.cursor);
    PastDroppedSees(t.disk.segs, s.mem.cursor, o);
    if t.mem.cursor.seg in t.disk.segs && s.mem.cursor.seg <= o {
      BoundaryStart(t.disk.segs[t.mem.cursor.seg]);
    }
    ResumeOk(m, s.mem.head, s.disk);
    DropOne(m, Resume(s.disk));
    ResumeOk(t.disk.segs, s.mem.head, t.disk);
    DropFirstHeld(s);
  }

  // What becomes of a record under the cursor when segments are dropped: its
  // segment survives and nothing changes for it, or it is gone.
  ghost predicate HeldFate(s: State, t: State) {
    var c := s.mem.cursor;
    UnderCursor(s).Some? ==>
      if c.seg in t.disk.segs
      then && t.mem.cursor == c && UnderCursor(t).Some?
           && Remaining(t.disk.segs, c) == Remaining(s.disk.segs, c)
      else |Remaining(t.disk.segs, t.mem.cursor)| < |Remaining(s.disk.segs, c)|
  }

  lemma DropFirstHeld(s: State)
    requires Ready(s) && |s.disk.segs| > 1
    ensures HeldFate(s, DropFirst(s))
  {
    hide Boundary, Whole, Records, WholeLen, ReadRecordAt, Remaining, Contiguous, Total;
    var m, c, t := s.disk.segs, s.mem.cursor, DropFirst(s);
    var o := Oldest(m.Keys);
    DropShape(m, s.mem.head);
    PastDroppedSees(t.disk.segs, c, o);
    if c.seg > o {
      SegmentBehind(m, c);
    } else if c.seg == o && UnderCursor(s).Some? {
      ReadRecordAtAgrees(m[o], c.offset);
      BoundaryInside(m[o], c.offset);
      BoundaryNext(m[o], c.offset);
      ShorterWithout(m, c);
    }
  }

  lemma ShorterWithout(m: Segs, c: Cursor)
    requires m.Keys != {} && c.seg == Oldest(m.Keys)
    requires Part(c.seg, m[c.seg], c) != []
    ensures |Remaining(m - {c.seg}, c)| < |Remaining(m, c)|
  {
  }

  // Dropping at the bound: the log ends within the bound or with the head
  // alone, the position keeps the records that are still on disk, and it moves
  // only if its own segment went.
  lemma {:induction false} EnforceMeaning(s: State)
    requires Ready(s)
    ensures var t := EnforceBound(s);
            && Ready(t) && !OverBound(t)
            && t.disk.saved == s.disk.saved && t.mem.maxBytes == s.mem.maxBytes && t.mem.head == s.mem.head
            && t.disk.segs.Keys <= s.disk.segs.Keys
            && AtOrBefore(s.mem.cursor, t.mem.cursor)
            && HeldFate(s, t)
            && s.mem.dropped <= t.mem.dropped
            && IsSuffix(AllRecords(t.disk.segs), AllRecords(s.disk.segs))
            && Remaining(t.disk.segs, t.mem.cursor)
               == (if |Remaining(s.disk.segs, s.mem.cursor)| <= |AllRecords(t.disk.segs)|
                   then Remaining(s.disk.segs, s.mem.cursor) else AllRecords(t.disk.segs))
    decreases |s.disk.segs|
  {
    hide Remaining, Ready, AllRecords, Total, HeldFate, EnforceBound;
    EnforceStep(s);
    if OverBound(s) {
      DropFirstReady(s);
      var t := DropFirst(s);
      EnforceMeaning(t);
      SuffixTrans(AllRecords(EnforceBound(s).disk.segs), AllRecords(t.disk.segs), AllRecords(s.disk.segs));
      HeldFateTrans(s, t, EnforceBound(s));
    } else {
      ReadyRemaining(s);
      assert HeldFate(s, s) by { HeldFateSelf(s); }
    }
  }

  lemma HeldFateSelf(s: State)
    ensures HeldFate(s, s)
  {
  }

  lemma HeldFateTrans(s: State, t: State, u: State)
    requires HeldFate(s, t) && HeldFate(t, u)
    requires u.disk.segs.Keys <= t.disk.segs.Keys
    requires |Remaining(u.disk.segs, u.mem.cursor)| <= |Remaining(t.disk.segs, t.mem.cursor)|
    ensures HeldFate(s, u)
  {
    hide UnderCursor, Remaining;
  }

  lemma ReadyRemaining(s: State)
    requires Ready(s)
    ensures IsSuffix(Remaining(s.disk.segs, s.mem.cursor), AllRecords(s.disk.segs))
  {
    hide Remaining, Boundary, Whole;
    RemainingIsSuffix(s.disk.segs, s.mem.cursor);
  }

  // Appending puts the record at the end of what the position has in front of
  // it. What a full log then drops is gone from the front, and nowhere else.
  lemma AppendMeaning(s: State, r: Record)
    requires Ready(s) && Fits(r)
    ensures var t := AppendTo(s, r);
            && Ready(t) && !OverBound(t)
            && t.disk.saved == s.disk.saved && t.mem.maxBytes == s.mem.maxBytes
            && AtOrBefore(s.mem.cursor, t.mem.cursor)
            && s.mem.dropped <= t.mem.dropped
            && s.mem.head <= t.mem.head && t.disk.segs.Keys <= s.disk.segs.Keys + {s.mem.head + 1}
            && (UnderCursor(s).Some? ==>
                  if s.mem.cursor.seg in t.disk.segs
                  then && t.mem.cursor == s.mem.cursor && UnderCursor(t).Some?
                       && Remaining(t.disk.segs, t.mem.cursor) == Remaining(s.disk.segs, s.mem.cursor) + [r]
                  else |Remaining(t.disk.segs, t.mem.cursor)| <= |Remaining(s.disk.segs, s.mem.cursor)|)
            && IsSuffix(AllRecords(t.disk.segs), AllRecords(s.disk.segs) + [r])
            && Remaining(t.disk.segs, t.mem.cursor)
               == (if |Remaining(s.disk.segs, s.mem.cursor) + [r]| <= |AllRecords(t.disk.segs)|
                   then Remaining(s.disk.segs, s.mem.cursor) + [r] else AllRecords(t.disk.segs))
  {
    hide Ready, Remaining, EnforceBound, Total, UnderCursor;
    RotateMeaning(s);
    ReadyHead(RotateIfFull(s));
    WriteMeaning(RotateIfFull(s), r);
    WriteKeepsHeld(s, r);
    EnforceMeaning(Write(RotateIfFull(s), r));
  }

  lemma WriteKeepsHeld(s: State, r: Record)
    requires Ready(s)
    ensures UnderCursor(s).Some? ==> UnderCursor(Write(RotateIfFull(s), r)).Some?
  {
    hide Boundary, Whole, Remaining, Contiguous, Total, ReadRecordAt, Encode, Front;
    var t := Write(RotateIfFull(s), r);
    var c := s.mem.cursor;
    if UnderCursor(s).Some? {
      var data := s.disk.segs[c.seg];
      ReadRecordAtAgrees(data, c.offset);
      ReadRecordAtAgrees(t.disk.segs[c.seg], c.offset);
      if c.seg == t.mem.head {
        FrontExtends(data[c.offset..], Encode(r));
        assert (data + Encode(r))[c.offset..] == data[c.offset..] + Encode(r);
      }
    }
  }

  lemma ReadyHead(s: State)
    requires Ready(s)
    ensures s.mem.head in s.disk.segs
  {
  }

  // The state between the write and the bound check.
  function Written(s: State, r: Record): State
    requires s.mem.head in s.disk.segs
  {
    Write(RotateIfFull(s), r)
  }

  // `append` reports whether it dropped, not how much. The report undercounts
  // exactly when two segments beside the head exist and the log would still be
  // over the bound without its oldest segment.
  lemma DropReportUndercountsIff(s: State, r: Record)
    requires Ready(s) && Fits(r)
    ensures AppendTo(s, r).mem.dropped > s.mem.dropped + 1
            <==> && |Written(s, r).disk.segs| > 2
                 && Total(s.disk.segs) + |Encode(r)|
                    > s.mem.maxBytes + |s.disk.segs[Oldest(s.disk.segs.Keys)]|
  {
    hide Ready, Remaining, EnforceBound, Total, Encode;
    ReadyHead(s);
    var w := Written(s, r);
    RotateMeaning(s);
    ReadyHead(RotateIfFull(s));
    WriteMeaning(RotateIfFull(s), r);
    if |w.disk.segs| > 1 {
      DropFirstReady(w);
      OldestUntouched(s, r);
      EnforceStep(w);
      EnforceStep(DropFirst(w));
    } else {
      EnforceStep(w);
    }
  }

  lemma OldestUntouched(s: State, r: Record)
    requires Ready(s) && |Written(s, r).disk.segs| > 1
    ensures var m, n := s.disk.segs, Written(s, r).disk.segs;
            && Oldest(n.Keys) == Oldest(m.Keys) && n[Oldest(n.Keys)] == m[Oldest(m.Keys)]
  {
    hide Whole, Boundary, Remaining, Contiguous;
    var m, n := s.disk.segs, Written(s, r).disk.segs;
    if s.mem.headLen >= SEGMENT_BYTES {
      assert n.Keys == m.Keys + {s.mem.head + 1};
    } else {
      assert n.Keys == m.Keys;
      assert |m.Keys - {s.mem.head}| == |m| - 1;
      var other :| other in m.Keys - {s.mem.head};
    }
  }

  lemma EnforceStep(s: State)
    ensures !OverBound(s) ==> EnforceBound(s) == s
    ensures OverBound(s) ==> EnforceBound(s).mem.dropped >= s.mem.dropped + 1
    ensures OverBound(s) ==> EnforceBound(s) == EnforceBound(DropFirst(s))
    decreases |s.disk.segs|
  {
    hide Total;
    if OverBound(s) {
      EnforceStep(DropFirst(s));
    }
  }

  // So for a log within its bound and a record of at most a segment, the report
  // is the count.
  lemma DropReportExact(s: State, r: Record)
    requires Ready(s) && Fits(r) && !OverBound(s)
    requires |Encode(r)| <= SEGMENT_BYTES
    ensures AppendTo(s, r).mem.dropped <= s.mem.dropped + 1
  {
    hide Ready, Remaining, AppendTo, Encode;
    DropReportUndercountsIff(s, r);
    SegmentCounts(s, r);
  }

  lemma SegmentCounts(s: State, r: Record)
    requires Ready(s)
    ensures |s.disk.segs| <= |Written(s, r).disk.segs| <= |s.disk.segs| + 1
    ensures |s.disk.segs| > 1 ==> |s.disk.segs[Oldest(s.disk.segs.Keys)]| >= SEGMENT_BYTES
  {
    hide Whole, Boundary, Remaining, Contiguous;
    var m, n := s.disk.segs, Written(s, r).disk.segs;
    if s.mem.headLen >= SEGMENT_BYTES {
      assert n.Keys == m.Keys + {s.mem.head + 1};
    } else {
      assert n.Keys == m.Keys;
    }
    if |m| > 1 {
      assert |m.Keys - {s.mem.head}| == |m| - 1;
      var other :| other in m.Keys - {s.mem.head};
    }
  }

  // ---- peek ----

  // Peeking finds the first record in front of the position, if there is one,
  // and moves the position over nothing.
  lemma {:induction false} PeekMeaning(s: State)
    requires Ready(s)
    ensures var p := PeekFrom(s);
            var left := Remaining(s.disk.segs, s.mem.cursor);
            && Ready(p.state) && p.state.disk == s.disk
            && p.state.mem == s.mem.(cursor := p.state.mem.cursor)
            && AtOrBefore(s.mem.cursor, p.state.mem.cursor)
            && Remaining(s.disk.segs, p.state.mem.cursor) == left
            && (p.item.None? <==> left == [])
            && (p.item.Some? ==> && p.item.value == (p.state.mem.cursor, left[0])
                                 && UnderCursor(p.state).Some?)
    decreases s.mem.head - s.mem.cursor.seg
  {
    hide Remaining, Boundary, Whole, ReadRecordAt;
    var c := s.mem.cursor;
    CursorReads(s);
    if UnderCursor(s).None? {
      if c.seg < s.mem.head {
        SkipSegment(s.disk.segs, c);
        var t := SkipTo(s, c.seg + 1);
        if c.seg + 1 in s.disk.segs {
          BoundaryStart(s.disk.segs[c.seg + 1]);
        }
        PeekMeaning(t);
      }
    }
  }

  // What the cursor reads is the first record of what remains; with nothing to
  // read there, its segment has nothing left.
  lemma CursorReads(s: State)
    requires Ready(s)
    ensures var m, c := s.disk.segs, s.mem.cursor;
            && (UnderCursor(s).Some? ==>
                  && Remaining(m, c) != [] && Remaining(m, c)[0] == UnderCursor(s).value.rec
                  && Boundary(m[c.seg], UnderCursor(s).value.next)
                  && Remaining(m, Cursor(c.seg, UnderCursor(s).value.next)) == Remaining(m, c)[1..])
            && (UnderCursor(s).None? ==>
                  && (c.seg in m ==> Part(c.seg, m[c.seg], c) == [])
                  && (c.seg == s.mem.head ==> Remaining(m, c) == []))
  {
    hide Boundary, WholeLen, Front, Remaining, ReadRecordAt, Contiguous;
    var m, c := s.disk.segs, s.mem.cursor;
    if c.seg in m {
      ReadRecordAtAgrees(m[c.seg], c.offset);
      BoundaryInside(m[c.seg], c.offset);
      if UnderCursor(s).Some? {
        BoundaryNext(m[c.seg], c.offset);
        var d := Cursor(c.seg, UnderCursor(s).value.next);
        BoundaryInside(m[c.seg], d.offset);
        ReadFirst(m, c, d, UnderCursor(s).value.rec);
      } else if c.seg == s.mem.head {
        var base := m - {c.seg};
        assert m == base[c.seg := m[c.seg]];
        RemainingTop(base, c.seg, m[c.seg], c);
        NothingBelow(base, c);
      }
    }
  }

  lemma {:induction false} NothingBelow(m: Segs, c: Cursor)
    requires forall k :: k in m ==> k < c.seg
    ensures Remaining(m, c) == []
    decreases m.Keys
  {
    if m.Keys != {} {
      NothingBelow(m - {Oldest(m.Keys)}, c);
    }
  }

  lemma {:induction false} ReadFirst(m: Segs, c: Cursor, d: Cursor, r: Record)
    requires c.seg in m && d.seg == c.seg
    requires Part(c.seg, m[c.seg], c) == [r] + Part(c.seg, m[c.seg], d)
    ensures Remaining(m, c) == [r] + Remaining(m, d)
    decreases m.Keys
  {
    hide Records;
    var o := Oldest(m.Keys);
    if o == c.seg {
      SameRemaining(m - {o}, c, d);
    } else {
      ReadFirst(m - {o}, c, d, r);
    }
  }

  // ---- advance ----

  // How many segments lie below a sequence number.
  function CountBelow(m: Segs, seg: nat): (n: nat)
    ensures n <= |m|
    decreases m.Keys
  {
    if m.Keys == {} || Oldest(m.Keys) >= seg then 0
    else
      KeysCount(m);
      1 + CountBelow(m - {Oldest(m.Keys)}, seg)
  }

  // Deleting segments below the position, oldest first, any number of them.
  lemma {:induction false} DropBelow(m: Segs, head: nat, k: nat, c: Cursor)
    requires Shape(m, head) && c.seg <= head && k <= CountBelow(m, c.seg)
    ensures k < |m|
    ensures var m' := DropOldest(m, k);
            && Shape(m', head)
            && Remaining(m', c) == Remaining(m, c)
            && (c.seg in m ==> c.seg in m')
            && (forall i :: i in m' ==> i in m && m'[i] == m[i])
            && m'[head] == m[head]
            && IsSuffix(AllRecords(m'), AllRecords(m))
  {
    hide Remaining, Whole, Contiguous, DropOldest, CountBelow, Boundary;
    DropBelowSees(m, head, k, c);
    StartOk(m, head);
    DropMany(m, head, k, START);
  }

  lemma {:induction false} DropBelowSees(m: Segs, head: nat, k: nat, c: Cursor)
    requires Shape(m, head) && c.seg <= head && k <= CountBelow(m, c.seg)
    ensures k < |m|
    ensures Remaining(DropOldest(m, k), c) == Remaining(m, c)
    ensures c.seg in m ==> c.seg in DropOldest(m, k)
    decreases k
  {
    hide Part, Whole, Contiguous, Remaining, CountBelow, DropOldest;
    DropStep(m, k);
    if k == 0 {
      assert |m.Keys| > 0;
    } else {
      var o := Oldest(m.Keys);
      CountStep(m, c.seg);
      OldestBelowHead(m, head, c.seg);
      DropShape(m, head);
      DropBelowSees(m - {o}, head, k - 1, c);
      SegmentBehind(m, c);
    }
  }

  lemma CountStep(m: Segs, seg: nat)
    requires CountBelow(m, seg) > 0
    ensures m.Keys != {} && Oldest(m.Keys) < seg
    ensures |m - {Oldest(m.Keys)}| == |m| - 1
    ensures CountBelow(m - {Oldest(m.Keys)}, seg) == CountBelow(m, seg) - 1
  {
    KeysCount(m);
  }

  lemma DropStep(m: Segs, k: nat)
    requires k <= |m|
    ensures k == 0 ==> DropOldest(m, k) == m
    ensures k > 0 ==> && m.Keys != {} && k - 1 <= |m - {Oldest(m.Keys)}|
                      && DropOldest(m, k) == DropOldest(m - {Oldest(m.Keys)}, k - 1)
  {
  }

  lemma SegmentBehind(m: Segs, c: Cursor)
    requires m.Keys != {} && Oldest(m.Keys) < c.seg
    ensures Remaining(m, c) == Remaining(m - {Oldest(m.Keys)}, c)
  {
  }

  lemma OldestBelowHead(m: Segs, head: nat, seg: nat)
    requires Shape(m, head) && Oldest(m.Keys) < seg <= head
    ensures |m| > 1
  {
    assert {Oldest(m.Keys), head} <= m.Keys;
    assert |m.Keys| >= |{Oldest(m.Keys), head}| by { SubsetSize({Oldest(m.Keys), head}, m.Keys); }
  }

  lemma SubsetSize(a: set<nat>, b: set<nat>)
    requires a <= b
    ensures |a| <= |b|
  {
    assert b == a + (b - a);
  }

  lemma {:induction false} FromSegmentIsDrop(m: Segs, seg: nat)
    ensures FromSegment(m, seg) == DropOldest(m, CountBelow(m, seg))
    decreases m.Keys
  {
    if m.Keys == {} || Oldest(m.Keys) >= seg {
      assert FromSegment(m, seg) == m;
    } else {
      var o := Oldest(m.Keys);
      KeysCount(m);
      FromSegmentIsDrop(m - {o}, seg);
      assert FromSegment(m, seg) == FromSegment(m - {o}, seg);
    }
  }

  // Confirming the record under the cursor moves the position over exactly that
  // record, saves it, and deletes no record behind which the position stands.
  lemma AdvanceMeaning(s: State)
    requires Ready(s) && UnderCursor(s).Some?
    ensures AdvanceFrom(s, s.mem.cursor).Some?
    ensures var t := AdvanceFrom(s, s.mem.cursor).value;
            && Ready(t)
            && t.mem == s.mem.(cursor := t.mem.cursor)
            && AtOrBefore(s.mem.cursor, t.mem.cursor) && t.mem.cursor != s.mem.cursor
            && Remaining(s.disk.segs, s.mem.cursor) != []
            && Remaining(t.disk.segs, t.mem.cursor) == Remaining(s.disk.segs, s.mem.cursor)[1..]
            && IsSuffix(AllRecords(t.disk.segs), AllRecords(s.disk.segs))
  {
    hide Remaining, Boundary, Whole, Contiguous, DropOldest, CountBelow;
    var m := s.disk.segs;
    var t := AdvanceFrom(s, s.mem.cursor).value;
    var c := t.mem.cursor;
    CursorReads(s);
    ReadRecordAtAgrees(m[c.seg], s.mem.cursor.offset);
    FromSegmentIsDrop(m, c.seg);
    DropBelow(m, s.mem.head, CountBelow(m, c.seg), c);
  }
}
