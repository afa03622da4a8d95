// The disk spool as the program runs it: an object over the segment files, its
// methods in the source's own steps, each tied to the operation on values.
module Spool {
  import opened Bytes
  import opened SpoolCodec
  import opened SpoolLog
  import opened SpoolOps

  // The spool directory. It outlives every Spool opened over it.
  class Directory {
    var segs: Segs
    var saved: Option<Cursor>

    ghost function View(): Disk
      reads this
    {
      Disk(segs, saved)
    }

    constructor ()
      ensures View() == Disk(map[], None)
    {
      segs, saved := map[], None;
    }
  }

  class Spool {
    const dir: Directory
    const maxBytes: nat
    var headSeq: nat
    var headLen: nat
    var cursor: Cursor
    var droppedSegments: nat

    ghost function View(): State
      reads this, dir
    {
      State(dir.View(), Mem(maxBytes, headSeq, headLen, cursor, droppedSegments))
    }

    ghost predicate Valid()
      reads this, dir
    {
      Ready(View())
    }

    // Open the spool in a directory, recovering the cursor and cutting a torn
    // tail. The last line is what every earlier run leaves and every later
    // operation needs.
    constructor Open(dir: Directory, maxBytes: nat)
      modifies dir
      ensures this.dir == dir
      ensures View() == OpenFrom(old(dir.View()), maxBytes)
      ensures old(DiskOk(dir.View())) ==> Valid()
    {
      this.dir := dir;
      this.maxBytes := maxBytes;
      var keys := dir.segs.Keys;
      cursor := if dir.saved.Some? then dir.saved.value
                else if keys == {} then START
                else Cursor(Oldest(keys), 0);
      droppedSegments := 0;
      var data, head := [], 0;
      if keys != {} {
        head := Newest(keys);
        data := TruncateTornTail(dir.segs[head]);
      }
      headSeq := head;
      headLen := |data|;
      new;
      dir.segs := dir.segs[head := data];
      if old(DiskOk(dir.View())) {
        OpenMeaning(old(dir.View()), maxBytes);
      }
    }

    // Append one sealed event. Returns whether a segment was dropped.
    method Append(id: seq<Byte>, sealed: seq<Byte>) returns (dropped: bool)
      requires Valid()
      modifies this, dir
      ensures View() == AppendTo(old(View()), Record(id, sealed))
      ensures dropped <==> droppedSegments > old(droppedSegments)
      ensures Fits(Record(id, sealed)) ==> Valid() && !OverBound(View())
    {
      hide Remaining, Boundary, Total, Shape, BigEndian;
      ghost var before := View();
      ReadyHead(before);
      if headLen >= SEGMENT_BYTES {
        Rotate();
      }
      assert View() == RotateIfFull(before);
      RotateMeaning(before);
      ReadyHead(View());
      var buf := BigEndian(|id|, 4) + BigEndian(|sealed|, 4) + id + sealed;
      dir.segs := dir.segs[headSeq := dir.segs[headSeq] + buf];
      headLen := headLen + |buf|;
      assert View() == Write(RotateIfFull(before), Record(id, sealed));
      dropped := EnforceTheBound();
      if Fits(Record(id, sealed)) {
        AppendMeaning(before, Record(id, sealed));
      }
    }

    method Rotate()
      modifies this`headSeq, this`headLen, dir`segs
      ensures headSeq == old(headSeq) + 1 && headLen == 0
      ensures dir.segs == old(dir.segs)[headSeq := []]
    {
      headSeq := headSeq + 1;
      dir.segs := dir.segs[headSeq := []];
      headLen := 0;
    }

    // Drop oldest segments until the log is within the bound or only one is left.
    method EnforceTheBound() returns (dropped: bool)
      modifies this, dir
      ensures View() == EnforceBound(old(View()))
      ensures dropped <==> droppedSegments > old(droppedSegments)
    {
      hide Total;
      dropped := false;
      while Total(dir.segs) > maxBytes && |dir.segs| > 1
        invariant EnforceBound(View()) == EnforceBound(old(View()))
        invariant droppedSegments >= old(droppedSegments)
        invariant dropped <==> droppedSegments > old(droppedSegments)
        decreases |dir.segs|
      {
        ghost var before := View();
        assert dir.segs != map[];
        KeysCount(dir.segs);
        var oldest := Oldest(dir.segs.Keys);
        dir.segs := dir.segs - {oldest};
        droppedSegments := droppedSegments + 1;
        dropped := true;
        if cursor.seg <= oldest {
          cursor := Cursor(oldest + 1, 0);
        }
        assert View() == DropFirst(before);
      }
    }

    // The next record to drain. Skips segments that are drained or dropped.
    method Peek() returns (item: Option<(Cursor, Record)>)
      modifies this`cursor
      ensures Peeked(View(), item) == PeekFrom(old(View()))
    {
      hide ReadRecordAt;
      while true
        invariant PeekFrom(View()) == PeekFrom(old(View()))
        decreases headSeq - cursor.seg
      {
        var record := if cursor.seg in dir.segs
                      then ReadRecordAt(dir.segs[cursor.seg], cursor.offset)
                      else None;
        assert record == UnderCursor(View());
        if record.Some? {
          return Some((cursor, record.value.rec));
        }
        if cursor.seg >= headSeq {
          return None;
        }
        cursor := Cursor(cursor.seg + 1, 0);
      }
    }

    // Confirm the record at `at`: move the cursor past it, save the cursor, and
    // delete the segments behind it. An error changes nothing.
    method Advance(at: Cursor) returns (ok: bool)
      modifies this`cursor, dir
      ensures ok <==> AdvanceFrom(old(View()), at).Some?
      ensures View() == if ok then AdvanceFrom(old(View()), at).value else old(View())
    {
      hide ReadRecordAt;
      if at.seg !in dir.segs {
        return false;
      }
      var p := ReadRecordAt(dir.segs[at.seg], at.offset);
      if p.None? {
        return false;
      }
      cursor := Cursor(at.seg, p.value.next);
      dir.saved := Some(cursor);
      ghost var was := dir.segs;
      while dir.segs.Keys != {} && Oldest(dir.segs.Keys) < cursor.seg
        invariant FromSegment(dir.segs, cursor.seg) == FromSegment(was, cursor.seg)
        invariant dir.saved == Some(cursor) && cursor == Cursor(at.seg, p.value.next)
        decreases |dir.segs|
      {
        KeysCount(dir.segs);
        dir.segs := dir.segs - {Oldest(dir.segs.Keys)};
      }
      assert FromSegment(dir.segs, cursor.seg) == dir.segs;
      return true;
    }
  }
}
