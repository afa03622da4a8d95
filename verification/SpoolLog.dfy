// The segment log as a value: what is on disk, what a drain position still has
// in front of it, and how appending, rotating and dropping change both.
module SpoolLog {
  import opened Bytes
  import opened SpoolCodec

  // Segment rotation size, the granularity of drop-oldest.
  const SEGMENT_BYTES := 4 * 1024 * 1024

  datatype Cursor = Cursor(seg: nat, offset: nat)

  const START := Cursor(0, 0)

  // Segment files by sequence number.
  type Segs = map<nat, seq<Byte>>

  predicate AtOrBefore(a: Cursor, b: Cursor) {
    a.seg < b.seg || (a.seg == b.seg && a.offset <= b.offset)
  }

  lemma MinExists(s: set<nat>)
    requires s != {}
    ensures exists x :: x in s && forall y :: y in s ==> x <= y
  {
    var x :| x in s;
    var below := set y | y in s && y < x;
    assert forall y :: y in s && y < x ==> y in below;
    if below != {} {
      assert x !in below && below < s;
      MinExists(below);
      var m :| m in below && forall y :: y in below ==> m <= y;
      assert forall y :: y in s ==> m <= y;
    }
  }

  // The first of `existing_segments`.
  function Oldest(s: set<nat>): (o: nat)
    requires s != {}
    ensures o in s && forall y :: y in s ==> o <= y
  {
    MinExists(s);
    var x :| x in s && forall y :: y in s ==> x <= y;
    x
  }

  // The summed file sizes.
  function Total(m: Segs): nat
    decreases m.Keys
  {
    if m.Keys == {} then 0
    else var o := Oldest(m.Keys); |m[o]| + Total(m - {o})
  }

  // The records of segment k from the drain position c on.
  function Part(k: nat, data: seq<Byte>, c: Cursor): seq<Record> {
    if k < c.seg then []
    else if k > c.seg then Records(data)
    else if c.offset <= |data| then Records(data[c.offset..])
    else []
  }

  // Every record the drain position c has in front of it, oldest first.
  function Remaining(m: Segs, c: Cursor): seq<Record>
    decreases m.Keys
  {
    if m.Keys == {} then []
    else var o := Oldest(m.Keys); Part(o, m[o], c) + Remaining(m - {o}, c)
  }

  function AllRecords(m: Segs): seq<Record> {
    Remaining(m, START)
  }

  // Drop the k oldest segments.
  function DropOldest(m: Segs, k: nat): Segs
    requires k <= |m|
  {
    if k == 0 then m
    else
      KeysCount(m);
      DropOldest(m - {Oldest(m.Keys)}, k - 1)
  }

  lemma KeysCount(m: Segs)
    requires m != map[]
    ensures m.Keys != {} && |m - {Oldest(m.Keys)}| == |m| - 1
  {
    assert m.Keys != {};
    assert (m - {Oldest(m.Keys)}).Keys == m.Keys - {Oldest(m.Keys)};
  }

  // ---- well-formed logs ----

  // The segment numbers have no gap.
  ghost predicate Contiguous(s: set<nat>) {
    forall i, j: nat, k :: i in s && k in s && i <= j <= k ==> j in s
  }

  // The newest segment is `head`; every other one is whole and full.
  ghost predicate Shape(m: Segs, head: nat) {
    && head in m
    && Contiguous(m.Keys)
    && forall k :: k in m ==> k <= head && (k < head ==> Whole(m[k]) && |m[k]| >= SEGMENT_BYTES)
  }

  ghost predicate CursorOk(m: Segs, head: nat, c: Cursor) {
    c.seg <= head && (c.seg in m ==> Boundary(m[c.seg], c.offset))
  }

  // ---- what a segment at the top adds ----

  lemma {:induction false} RemainingTop(m: Segs, h: nat, data: seq<Byte>, c: Cursor)
    requires forall k :: k in m ==> k < h
    ensures Remaining(m[h := data], c) == Remaining(m, c) + Part(h, data, c)
    decreases m.Keys
  {
    hide Part;
    var m' := m[h := data];
    if m.Keys == {} {
      assert m'.Keys == {h};
      assert (m' - {h}).Keys == {};
    } else {
      var o := Oldest(m.Keys);
      assert m'.Keys == m.Keys + {h} && Oldest(m'.Keys) == o;
      assert m' - {o} == (m - {o})[h := data];
      RemainingTop(m - {o}, h, data, c);
    }
  }

  lemma {:induction false} TotalTop(m: Segs, h: nat, data: seq<Byte>)
    requires forall k :: k in m ==> k < h
    ensures Total(m[h := data]) == Total(m) + |data|
    decreases m.Keys
  {
    var m' := m[h := data];
    if m.Keys == {} {
      assert m'.Keys == {h};
      assert (m' - {h}).Keys == {};
    } else {
      var o := Oldest(m.Keys);
      assert m'.Keys == m.Keys + {h} && Oldest(m'.Keys) == o;
      assert m' - {o} == (m - {o})[h := data];
      TotalTop(m - {o}, h, data);
    }
  }

  // Growing the newest segment by whole records adds them at the end.
  lemma GrowHead(m: Segs, head: nat, more: seq<Byte>, c: Cursor)
    requires Shape(m, head) && Whole(m[head]) && CursorOk(m, head, c)
    ensures var m' := m[head := m[head] + more];
            && Remaining(m', c) == Remaining(m, c) + Records(more)
            && CursorOk(m', head, c)
            && Total(m') == Total(m) + |more|
  {
    hide Remaining, Total, Boundary, Whole;
    var base := m - {head};
    var m' := m[head := m[head] + more];
    assert m == base[head := m[head]] && m' == base[head := m[head] + more];
    RemainingTop(base, head, m[head], c);
    RemainingTop(base, head, m[head] + more, c);
    TotalTop(base, head, m[head]);
    TotalTop(base, head, m[head] + more);
    GrowPart(head, m[head], more, c);
  }

  lemma {:induction false} GrowPart(k: nat, data: seq<Byte>, more: seq<Byte>, c: Cursor)
    requires Whole(data) && c.seg <= k && (c.seg == k ==> Boundary(data, c.offset))
    ensures Part(k, data + more, c) == Part(k, data, c) + Records(more)
    ensures c.seg == k ==> Boundary(data + more, c.offset)
  {
    hide Boundary, Records;
    if c.seg == k {
      assert c.offset <= |data| by { BoundaryInside(data, c.offset); }
      BoundaryGrows(data, c.offset, more);
    } else {
      RecordsOfConcat(data, more);
    }
  }

  lemma BoundaryInside(data: seq<Byte>, offset: nat)
    requires Boundary(data, offset)
    ensures offset <= |data|
  {
  }

  // ---- moving the position over nothing ----

  lemma {:induction false} SameRemaining(m: Segs, c: Cursor, d: Cursor)
    requires forall k :: k in m ==> Part(k, m[k], c) == Part(k, m[k], d)
    ensures Remaining(m, c) == Remaining(m, d)
    decreases m.Keys
  {
    hide Part;
    if m.Keys != {} {
      SameRemaining(m - {Oldest(m.Keys)}, c, d);
    }
  }

  // A position with no record left in its segment may move to the next one.
  lemma SkipSegment(m: Segs, c: Cursor)
    requires c.seg in m ==> Part(c.seg, m[c.seg], c) == []
    ensures Remaining(m, Cursor(c.seg + 1, 0)) == Remaining(m, c)
  {
    hide Records;
    var d := Cursor(c.seg + 1, 0);
    forall k | k in m
      ensures Part(k, m[k], c) == Part(k, m[k], d)
    {
      if k == c.seg + 1 {
        assert m[k][0..] == m[k];
      }
    }
    SameRemaining(m, c, d);
  }

  // A position in front of every segment sees everything.
  lemma FrontSeesAll(m: Segs, c: Cursor)
    requires forall k :: k in m ==> c.seg < k || (c.seg == k && c.offset == 0)
    ensures Remaining(m, c) == AllRecords(m)
  {
    hide Records;
    forall k | k in m
      ensures Part(k, m[k], c) == Part(k, m[k], START)
    {
      assert m[k][0..] == m[k];
    }
    SameRemaining(m, c, START);
  }

  lemma {:induction false} RemainingIsSuffix(m: Segs, c: Cursor)
    requires c.seg in m ==> Boundary(m[c.seg], c.offset)
    ensures IsSuffix(Remaining(m, c), AllRecords(m))
    decreases m.Keys
  {
    hide Boundary, Records, Part;
    if m.Keys != {} {
      var o := Oldest(m.Keys);
      var rest := m - {o};
      RemainingIsSuffix(rest, c);
      PartIsSuffix(o, m[o], c);
      if o < c.seg {
        SuffixOfConcat(Remaining(rest, c), AllRecords(rest), Part(o, m[o], START));
      } else {
        FrontSeesAll(rest, c);
        SuffixExtend(Part(o, m[o], c), Part(o, m[o], START), AllRecords(rest));
      }
    }
  }

  lemma PartIsSuffix(k: nat, data: seq<Byte>, c: Cursor)
    requires c.seg == k ==> Boundary(data, c.offset)
    ensures IsSuffix(Part(k, data, c), Part(k, data, START))
    ensures k < c.seg ==> Part(k, data, c) == []
  {
    assert data[0..] == data;
  }

  // ---- dropping ----

  // Dropping the oldest segment takes away only what a position still had in
  // that segment: afterwards it sees the shorter of what it saw and what is left.
  lemma DropOne(m: Segs, c: Cursor)
    requires m.Keys != {}
    requires c.seg in m ==> Boundary(m[c.seg], c.offset)
    ensures var m' := m - {Oldest(m.Keys)};
            && |AllRecords(m')| <= |AllRecords(m)|
            && IsSuffix(AllRecords(m'), AllRecords(m))
            && Remaining(m', c) == if |Remaining(m, c)| <= |AllRecords(m')| then Remaining(m, c) else AllRecords(m')
  {
    hide Boundary, Records, Part, Remaining;
    var o := Oldest(m.Keys);
    var m' := m - {o};
    OldestFirst(m, c);
    OldestFirst(m, START);
    SuffixOfConcat(AllRecords(m'), AllRecords(m'), Part(o, m[o], START));
    if c.seg <= o {
      FrontSeesAll(m', c);
      if |Remaining(m, c)| <= |AllRecords(m')| {
        assert Part(o, m[o], c) == [];
      }
    } else {
      assert Part(o, m[o], c) == [] by { PartIsSuffix(o, m[o], c); }
      RemainingIsSuffix(m', c);
    }
  }

  lemma OldestFirst(m: Segs, c: Cursor)
    requires m.Keys != {}
    ensures var o := Oldest(m.Keys);
            Remaining(m, c) == Part(o, m[o], c) + Remaining(m - {o}, c)
  {
  }

  // A dropped segment and the position that stood in it: it moves to the start
  // of the next segment and sees the same.
  function PastDropped(c: Cursor, o: nat): (d: Cursor)
    ensures AtOrBefore(c, d)
  {
    if c.seg <= o then Cursor(o + 1, 0) else c
  }

  lemma PastDroppedSees(m: Segs, c: Cursor, o: nat)
    requires forall k :: k in m ==> o < k
    ensures Remaining(m, PastDropped(c, o)) == Remaining(m, c)
  {
    if c.seg <= o {
      FrontSeesAll(m, c);
      FrontSeesAll(m, PastDropped(c, o));
    }
  }

  lemma DropShape(m: Segs, head: nat)
    requires Shape(m, head) && |m| > 1
    ensures var m' := m - {Oldest(m.Keys)};
            Shape(m', head) && Oldest(m.Keys) < head && forall k :: k in m' ==> Oldest(m.Keys) < k
  {
    hide Whole;
    assert |m.Keys - {head}| == |m| - 1;
    var other :| other in m.Keys - {head};
  }

  // The same for k segments at once.
  lemma {:induction false} DropMany(m: Segs, head: nat, k: nat, c: Cursor)
    requires Shape(m, head) && k < |m|
    requires c.seg in m ==> Boundary(m[c.seg], c.offset)
    ensures var m' := DropOldest(m, k);
            && Shape(m', head) && m'.Keys <= m.Keys && m'[head] == m[head]
            && (forall i :: i in m' ==> m'[i] == m[i])
            && |AllRecords(m')| <= |AllRecords(m)|
            && IsSuffix(AllRecords(m'), AllRecords(m))
            && Remaining(m', c) == if |Remaining(m, c)| <= |AllRecords(m')| then Remaining(m, c) else AllRecords(m')
    decreases k
  {
    hide Boundary, Remaining, AllRecords, Whole;
    if k == 0 {
      RemainingIsSuffix(m, c);
    } else {
      var m1 := m - {Oldest(m.Keys)};
      KeysCount(m);
      DropShape(m, head);
      DropOne(m, c);
      DropMany(m1, head, k - 1, c);
      SuffixTrans(AllRecords(DropOldest(m, k)), AllRecords(m1), AllRecords(m));
    }
  }
}
