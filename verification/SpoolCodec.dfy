// The record codec of a spool segment: how one record is laid out, how a
// segment is read back, and what a torn tail leaves behind.
module SpoolCodec {
  import opened Bytes

  datatype Record = Record(id: seq<Byte>, sealed: seq<Byte>)

  datatype Parsed = Parsed(rec: Record, next: nat)

  // The bytes `append` writes for one record.
  function Encode(r: Record): (e: seq<Byte>)
    ensures |e| == 8 + |r.id| + |r.sealed|
  {
    BigEndian(|r.id|, 4) + BigEndian(|r.sealed|, 4) + r.id + r.sealed
  }

  function EncodeAll(rs: seq<Record>): seq<Byte> {
    if rs == [] then [] else Encode(rs[0]) + EncodeAll(rs[1..])
  }

  // The records the format can carry: both lengths fit their 32-bit field. An
  // event id is a string, so it is UTF-8.
  predicate Fits(r: Record) {
    |r.id| < U32 && |r.sealed| < U32 && ValidUtf8(r.id)
  }

  // The record at the front of a byte string, with the bytes it takes up.
  function Front(rest: seq<Byte>): (p: Option<Parsed>)
    ensures p.Some? ==> 8 <= p.value.next <= |rest|
  {
    if |rest| < 8 then None
    else
      var idLen := FromBigEndian(rest[0..4]);
      var total := 8 + idLen + FromBigEndian(rest[4..8]);
      if |rest| < total then None
      else if !ValidUtf8(rest[8..8 + idLen]) then None
      else Some(Parsed(Record(rest[8..8 + idLen], rest[8 + idLen..total]), total))
  }

  // `read_record`: the record at an offset of a segment held in memory.
  function ReadRecord(data: seq<Byte>, offset: nat): (p: Option<Parsed>)
    ensures p.Some? ==> offset + 8 <= p.value.next <= |data|
  {
    if offset > |data| then None
    else
      match Front(data[offset..])
      case None => None
      case Some(f) => Some(Parsed(f.rec, offset + f.next))
  }

  // `read_record_at`: the same record read from a file, header first and then
  // only the bytes that the header declares.
  function ReadRecordAt(file: seq<Byte>, offset: nat): Option<Parsed> {
    var remaining := if offset <= |file| then |file| - offset else 0;
    if remaining < 8 then None
    else
      var head := file[offset..offset + 8];
      var total := 8 + FromBigEndian(head[0..4]) + FromBigEndian(head[4..8]);
      if remaining < total then None
      else
        match ReadRecord(head + file[offset + 8..offset + total], 0)
        case None => None
        case Some(p) => Some(Parsed(p.rec, offset + p.next))
  }

  // The whole records of a byte string, front to back, up to its torn tail.
  function Records(rest: seq<Byte>): seq<Record>
    decreases |rest|
  {
    match Front(rest)
    case None => []
    case Some(p) => [p.rec] + Records(rest[p.next..])
  }

  // How many bytes those records take up.
  function WholeLen(rest: seq<Byte>): (n: nat)
    ensures n <= |rest|
    decreases |rest|
  {
    match Front(rest)
    case None => 0
    case Some(p) => p.next + WholeLen(rest[p.next..])
  }

  predicate Whole(data: seq<Byte>) {
    WholeLen(data) == |data|
  }

  // An offset a reader can stand on: the records from it on are the last ones
  // of the segment.
  ghost predicate Boundary(data: seq<Byte>, offset: nat) {
    && offset <= |data|
    && offset + WholeLen(data[offset..]) == WholeLen(data)
    && IsSuffix(Records(data[offset..]), Records(data))
  }

  // ---- one record ----

  lemma LengthsReadBack(n: nat)
    ensures FromBigEndian(BigEndian(n, 4)) < U32
    ensures n < U32 ==> FromBigEndian(BigEndian(n, 4)) == n
  {
    U32Width();
    FromBigEndianBound(BigEndian(n, 4));
    if n < U32 {
      BigEndianRoundTrip(n, 4);
    }
  }

  lemma EncodeFields(r: Record, tail: seq<Byte>)
    ensures var e := Encode(r) + tail;
            && e[0..4] == BigEndian(|r.id|, 4) && e[4..8] == BigEndian(|r.sealed|, 4)
            && e[8..8 + |r.id|] == r.id
            && e[8 + |r.id|..8 + |r.id| + |r.sealed|] == r.sealed
            && e[|Encode(r)|..] == tail
  {
  }

  // Whatever follows it, an encoded record reads back as itself and the reader
  // stops exactly behind it.
  lemma FrontOfEncoded(r: Record, tail: seq<Byte>)
    requires Fits(r)
    ensures Front(Encode(r) + tail) == Some(Parsed(r, |Encode(r)|))
  {
    EncodeFields(r, tail);
    LengthsReadBack(|r.id|);
    LengthsReadBack(|r.sealed|);
  }

  // The length fields are 32 bits and `append` truncates without a check: a
  // record reads back exactly when both its parts are shorter than 2^32 bytes.
  lemma EncodeRoundTripIff(r: Record)
    requires ValidUtf8(r.id)
    ensures ReadRecord(Encode(r), 0) == Some(Parsed(r, |Encode(r)|))
            <==> |r.id| < U32 && |r.sealed| < U32
  {
    var e := Encode(r);
    assert e[0..] == e == e + [];
    if Fits(r) {
      FrontOfEncoded(r, []);
    } else if Front(e).Some? {
      var total := 8 + FromBigEndian(e[0..4]) + FromBigEndian(e[4..8]);
      EncodeFields(r, []);
      LengthsReadBack(|r.id|);
      LengthsReadBack(|r.sealed|);
      assert total < |e|;
    }
  }

  // Only the declared bytes matter.
  lemma FrontOfPrefix(rest: seq<Byte>, n: nat)
    requires 8 <= n <= |rest|
    requires 8 + FromBigEndian(rest[0..4]) + FromBigEndian(rest[4..8]) <= n
    ensures Front(rest[..n]) == Front(rest)
  {
    hide ValidUtf8, FromBigEndian;
    var idLen := FromBigEndian(rest[0..4]);
    var total := 8 + idLen + FromBigEndian(rest[4..8]);
    SliceOfPrefix(rest, n, 0, 4);
    SliceOfPrefix(rest, n, 4, 8);
    SliceOfPrefix(rest, n, 8, 8 + idLen);
    SliceOfPrefix(rest, n, 8 + idLen, total);
  }

  lemma FrontExtends(x: seq<Byte>, y: seq<Byte>)
    requires Front(x).Some?
    ensures Front(x + y) == Front(x)
  {
    hide ValidUtf8, FromBigEndian;
    var z := x + y;
    assert z[..|x|] == x;
    SliceOfPrefix(z, |x|, 0, 4);
    SliceOfPrefix(z, |x|, 4, 8);
    FrontOfPrefix(z, |x|);
  }

  // A record cut short anywhere is not a record.
  lemma TornIsNothing(r: Record, n: nat)
    requires Fits(r) && n < |Encode(r)|
    ensures Records(Encode(r)[..n]) == [] && WholeLen(Encode(r)[..n]) == 0
  {
    var t := Encode(r)[..n];
    if n >= 8 {
      EncodeFields(r, []);
      assert Encode(r) + [] == Encode(r);
      assert t[0..4] == Encode(r)[0..4] && t[4..8] == Encode(r)[4..8];
      LengthsReadBack(|r.id|);
      LengthsReadBack(|r.sealed|);
    }
    assert Front(t) == None;
  }

  // Reading only the declared bytes gives what reading the whole file gives, at
  // every offset of every file.
  lemma ReadRecordAtAgrees(file: seq<Byte>, offset: nat)
    ensures ReadRecordAt(file, offset) == ReadRecord(file, offset)
  {
    hide ValidUtf8, FromBigEndian;
    if offset + 8 <= |file| {
      var rest := file[offset..];
      var head := file[offset..offset + 8];
      var total := 8 + FromBigEndian(head[0..4]) + FromBigEndian(head[4..8]);
      assert head == rest[..8];
      SliceOfPrefix(rest, 8, 0, 4);
      SliceOfPrefix(rest, 8, 4, 8);
      if total <= |rest| {
        var piece := head + file[offset + 8..offset + total];
        assert piece == rest[..total] && piece[0..] == piece;
        FrontOfPrefix(rest, total);
      }
    }
  }

  // ---- a segment ----

  // Behind whole records, reading goes on with whatever follows them.
  lemma {:induction false} RecordsOfConcat(x: seq<Byte>, y: seq<Byte>)
    requires Whole(x)
    ensures Records(x + y) == Records(x) + Records(y)
    ensures WholeLen(x + y) == |x| + WholeLen(y)
    decreases |x|
  {
    hide Front;
    if x == [] {
      assert x + y == y;
    } else {
      var p := Front(x).value;
      FrontExtends(x, y);
      RecordsOfConcat(x[p.next..], y);
      ReadOn(x + y, p, x[p.next..] + y);
      ReadOn(x, p, x[p.next..]);
    }
  }

  lemma ReadOn(data: seq<Byte>, p: Parsed, rest: seq<Byte>)
    requires Front(data) == Some(p) && data[p.next..] == rest
    ensures Records(data) == [p.rec] + Records(rest)
    ensures WholeLen(data) == p.next + WholeLen(rest)
  {
  }

  lemma RecordsOfEncoded(r: Record)
    requires Fits(r)
    ensures Records(Encode(r)) == [r] && Whole(Encode(r))
  {
    FrontOfEncoded(r, []);
    assert Encode(r) + [] == Encode(r);
    assert Encode(r)[|Encode(r)|..] == [];
  }

  // Segment encoding is uniquely decodable, also with a record torn anywhere
  // behind the whole ones.
  lemma {:induction false} DecodeEncodedSegment(rs: seq<Record>, torn: Record, n: nat)
    requires forall r :: r in rs ==> Fits(r)
    requires Fits(torn) && n < |Encode(torn)|
    ensures var data := EncodeAll(rs) + Encode(torn)[..n];
            && Records(data) == rs
            && data[..WholeLen(data)] == EncodeAll(rs)
    decreases |rs|
  {
    hide Front, Encode, ValidUtf8;
    if rs == [] {
      TornIsNothing(torn, n);
      assert EncodeAll(rs) + Encode(torn)[..n] == Encode(torn)[..n];
    } else {
      DecodeEncodedSegment(rs[1..], torn, n);
      var rest := EncodeAll(rs[1..]) + Encode(torn)[..n];
      var data := EncodeAll(rs) + Encode(torn)[..n];
      assert data == Encode(rs[0]) + rest;
      RecordsOfEncoded(rs[0]);
      RecordsOfConcat(Encode(rs[0]), rest);
      assert data[..WholeLen(data)] == Encode(rs[0]) + rest[..WholeLen(rest)];
    }
  }

  // Cutting the torn tail loses no record, and a second cut does nothing.
  lemma {:induction false} TruncateKeepsRecords(data: seq<Byte>)
    ensures var t := data[..WholeLen(data)];
            Records(t) == Records(data) && Whole(t)
    decreases |data|
  {
    var t := data[..WholeLen(data)];
    match Front(data)
    case None =>
      assert t == [];
    case Some(p) =>
      TruncateKeepsRecords(data[p.next..]);
      var front, rest := data[..p.next], data[p.next..];
      assert t == front + rest[..WholeLen(rest)];
      FrontOfExactPrefix(data);
      RecordsOfConcat(front, rest[..WholeLen(rest)]);
  }

  lemma FrontOfExactPrefix(data: seq<Byte>)
    requires Front(data).Some?
    ensures var p := Front(data).value;
            Records(data[..p.next]) == [p.rec] && Whole(data[..p.next])
  {
    hide ValidUtf8, FromBigEndian;
    var p := Front(data).value;
    FrontOfPrefix(data, p.next);
    assert data[..p.next][p.next..] == [];
  }

  // A reader on a boundary that takes one record stands on a boundary again.
  lemma BoundaryNext(data: seq<Byte>, offset: nat)
    requires Boundary(data, offset) && ReadRecord(data, offset).Some?
    ensures var p := ReadRecord(data, offset).value;
            && Boundary(data, p.next)
            && Records(data[offset..]) == [p.rec] + Records(data[p.next..])
  {
    var p := ReadRecord(data, offset).value;
    assert data[offset..][p.next - offset..] == data[p.next..];
    var s, t := Records(data[offset..]), Records(data);
    assert t[|t| - |s|..][1..] == t[|t| - |s| + 1..];
  }

  lemma BoundaryStart(data: seq<Byte>)
    ensures Boundary(data, 0)
  {
    assert data[0..] == data;
  }

  // A boundary stays one when the segment grows or loses its torn tail.
  lemma {:induction false} BoundaryGrows(data: seq<Byte>, offset: nat, more: seq<Byte>)
    requires Boundary(data, offset) && Whole(data)
    ensures Boundary(data + more, offset)
    ensures Records((data + more)[offset..]) == Records(data[offset..]) + Records(more)
  {
    assert (data + more)[offset..] == data[offset..] + more;
    RecordsOfConcat(data[offset..], more);
    RecordsOfConcat(data, more);
    SuffixExtend(Records(data[offset..]), Records(data), Records(more));
  }

  lemma {:induction false} BoundaryTruncate(data: seq<Byte>, offset: nat)
    requires Boundary(data, offset)
    ensures var t := data[..WholeLen(data)];
            Boundary(t, offset) && Records(t[offset..]) == Records(data[offset..])
  {
    var t := data[..WholeLen(data)];
    var rest := data[offset..];
    assert t[offset..] == rest[..WholeLen(rest)];
    TruncateKeepsRecords(rest);
    TruncateKeepsRecords(data);
  }

  // `truncate_torn_tail`: the bytes left in the file.
  method TruncateTornTail(data: seq<Byte>) returns (kept: seq<Byte>)
    ensures kept == data[..WholeLen(data)]
    ensures Records(kept) == Records(data) && Whole(kept)
  {
    var offset := 0;
    assert data[0..] == data;
    while ReadRecord(data, offset).Some?
      invariant offset <= |data|
      invariant offset + WholeLen(data[offset..]) == WholeLen(data)
      decreases |data| - offset
    {
      var next := ReadRecord(data, offset).value.next;
      assert data[offset..][next - offset..] == data[next..];
      offset := next;
    }
    kept := if offset < |data| then data[..offset] else data;
    TruncateKeepsRecords(data);
  }
}
