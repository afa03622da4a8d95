// Following a file of length-prefixed frames that an appender writes in pieces:
// bytes are held until a whole frame has arrived.
module FileFollower {
  import opened Bytes

  const MAX_FRAME_BYTES := 64 * 1024
  const MAX_HELD := MAX_FRAME_BYTES + 4
  const READ_BYTES := 8192

  // The largest prefix and payload that no sequence of reads can refuse.
  const SAFE_TOTAL := MAX_HELD - READ_BYTES + 1

  datatype Framing = LengthDelimited | LengthU32le

  function PrefixLen(f: Framing): nat {
    if f.LengthDelimited? then 2 else 4
  }

  function Prefix(f: Framing, n: nat): (r: seq<Byte>)
    ensures |r| == PrefixLen(f)
  {
    if f.LengthDelimited? then BigEndian(n, 2) else LittleEndian(n, 4)
  }

  // The payload length a whole prefix declares.
  function Declared(f: Framing, held: seq<Byte>): Option<nat> {
    if |held| < PrefixLen(f) then None
    else if f.LengthDelimited? then Some(FromBigEndian(held[..2]))
    else Some(FromLittleEndian(held[..4]))
  }

  datatype Taken = Frame(bytes: seq<Byte>, rest: seq<Byte>) | Incomplete | TooBig

  // `take_frame` into a buffer of MAX_FRAME_BYTES.
  function Take(f: Framing, held: seq<Byte>): (t: Taken)
    ensures t.Frame? ==> |t.rest| < |held|
  {
    match Declared(f, held)
    case None => Incomplete
    case Some(n) =>
      if n > MAX_FRAME_BYTES then TooBig
      else if |held| < PrefixLen(f) + n then Incomplete
      else Frame(held[PrefixLen(f)..PrefixLen(f) + n], held[PrefixLen(f) + n..])
  }

  // How a call of `recv` ends, given what successive reads of the file yield:
  // a frame, an error, or still waiting when the reads are used up; what it holds
  // then and the reads it did not make.
  datatype Received =
    | Got(frame: seq<Byte>, held: seq<Byte>, chunks: seq<seq<Byte>>)
    | Failed(held: seq<Byte>, chunks: seq<seq<Byte>>)
    | Waiting(held: seq<Byte>)

  function Recv(f: Framing, held: seq<Byte>, chunks: seq<seq<Byte>>): (r: Received)
    ensures r.Got? ==> |r.chunks| <= |chunks|
    ensures r.Got? && |r.chunks| == |chunks| ==> |r.held| < |held|
    decreases |chunks|
  {
    match Take(f, held)
    case Frame(bytes, rest) => Got(bytes, rest, chunks)
    case TooBig => Failed(held, chunks)
    case Incomplete =>
      if chunks == [] then Waiting(held)
      else if chunks[0] != [] && |held| + |chunks[0]| > MAX_HELD then Failed(held, chunks[1..])
      else Recv(f, held + chunks[0], chunks[1..])
  }

  class FileSource {
    const framing: Framing
    var held: seq<Byte>
    var pos: nat

    constructor (framing: Framing)
      ensures this.framing == framing && held == [] && pos == 0
    {
      this.framing, held, pos := framing, [], 0;
    }

    // The length-prefixed branch of `recv`; a read of no bytes finds no
    // rotation and is tried again.
    method Receive(chunks: seq<seq<Byte>>) returns (r: Received)
      modifies this
      ensures r == Recv(framing, old(held), chunks)
      ensures held == r.held
      ensures r.Waiting? ==> pos == old(pos) + |Concat(chunks)|
      ensures !r.Waiting? ==> pos + |Concat(r.chunks)| == old(pos) + |Concat(chunks)|
    {
      var i := 0;
      while true
        invariant i <= |chunks|
        invariant pos + |Concat(chunks[i..])| == old(pos) + |Concat(chunks)|
        invariant Recv(framing, held, chunks[i..]) == Recv(framing, old(held), chunks)
        decreases |chunks| - i
      {
        hide Take, Concat;
        var t := Take(framing, held);
        match t {
          case TooBig => return Failed(held, chunks[i..]);
          case Frame(bytes, rest) =>
            held := rest;
            return Got(bytes, rest, chunks[i..]);
          case Incomplete =>
        }
        if i == |chunks| {
          assert chunks[i..] == [];
          ConcatNone();
          return Waiting(held);
        }
        var chunk := chunks[i];
        ConcatCons(chunks[i..]);
        assert chunks[i..][0] == chunk && chunks[i..][1..] == chunks[i + 1..];
        i := i + 1;
        if |chunk| > 0 {
          pos := pos + |chunk|;
          if |held| + |chunk| > MAX_HELD {
            return Failed(held, chunks[i..]);
          }
          held := held + chunk;
        } else {
          assert held + chunk == held;
        }
      }
    }
  }

  // Every frame delivered by calling `recv` again and again, and how it ended.
  datatype Followed = Followed(frames: seq<seq<Byte>>, last: Received)

  function Follow(f: Framing, held: seq<Byte>, chunks: seq<seq<Byte>>): Followed
    decreases |chunks|, |held|
  {
    var r := Recv(f, held, chunks);
    if r.Got? then
      var rest := Follow(f, r.held, r.chunks);
      Followed([r.frame] + rest.frames, rest.last)
    else Followed([], r)
  }

  // ---- what an appender writes ----

  function Encode(f: Framing, frame: seq<Byte>): seq<Byte> {
    Prefix(f, |frame|) + frame
  }

  function Wire(f: Framing, frames: seq<seq<Byte>>): seq<Byte> {
    if frames == [] then [] else Encode(f, frames[0]) + Wire(f, frames[1..])
  }

  function Concat(chunks: seq<seq<Byte>>): seq<Byte> {
    if chunks == [] then [] else chunks[0] + Concat(chunks[1..])
  }

  // A frame that fits however the reads fall.
  predicate Safe(f: Framing, frame: seq<Byte>) {
    PrefixLen(f) + |frame| <= SAFE_TOTAL
  }

  // The beginning of a frame that is not all there yet.
  ghost predicate Partial(f: Framing, tail: seq<Byte>) {
    exists g: seq<Byte> :: Safe(f, g) && tail < Encode(f, g)
  }

  lemma DeclaredOfPrefix(f: Framing, frame: seq<Byte>, held: seq<Byte>)
    requires |frame| < U32 && (f.LengthDelimited? ==> |frame| < 0x1_0000)
    requires PrefixLen(f) <= |held| && held[..PrefixLen(f)] == Prefix(f, |frame|)
    ensures Declared(f, held) == Some(|frame|)
  {
    hide BigEndian, LittleEndian, FromBigEndian, FromLittleEndian;
    if f.LengthDelimited? {
      assert Pow256(2) == 0x1_0000;
      BigEndianRoundTrip(|frame|, 2);
    } else {
      U32Width();
      LittleEndianRoundTrip(|frame|, 4);
    }
  }

  // What `take_frame` finds at the start of an encoded frame: the frame once
  // all of it is there, and nothing before.
  lemma TakeOfEncoded(f: Framing, frame: seq<Byte>, held: seq<Byte>, rest: seq<Byte>)
    requires |frame| <= MAX_FRAME_BYTES && (f.LengthDelimited? ==> |frame| < 0x1_0000)
    requires held <= Encode(f, frame) + rest
    ensures Take(f, held) == if |held| < |Encode(f, frame)| then Incomplete
                             else Frame(frame, held[|Encode(f, frame)|..])
  {
    hide Declared;
    var e, p := Encode(f, frame), PrefixLen(f);
    var all := e + rest;
    assert held == all[..|held|];
    if |held| < p {
      assert Declared(f, held) == None by { ShortPrefix(f, held); }
    } else {
      assert held[..p] == all[..p] == Prefix(f, |frame|);
      DeclaredOfPrefix(f, frame, held);
      if |held| >= |e| {
        assert held[p..|e|] == all[p..|e|] == frame;
      }
    }
  }

  lemma ShortPrefix(f: Framing, held: seq<Byte>)
    requires |held| < PrefixLen(f)
    ensures Declared(f, held) == None
  {
  }

  lemma SafeFits(f: Framing, frame: seq<Byte>)
    requires Safe(f, frame)
    ensures |frame| <= MAX_FRAME_BYTES && |frame| < 0x1_0000 && |Encode(f, frame)| <= SAFE_TOTAL
  {
  }

  // Following undoes framing: whatever pieces the reads come in, the frames
  // delivered are the frames written, a frame half there is held back, and the
  // bound on held bytes never trips.
  lemma {:induction false} FollowUndoesWire(f: Framing, frames: seq<seq<Byte>>, tail: seq<Byte>, held: seq<Byte>,
                                            chunks: seq<seq<Byte>>)
    requires forall g :: g in frames ==> Safe(f, g)
    requires Partial(f, tail)
    requires forall r :: r in chunks ==> |r| <= READ_BYTES
    requires held + Concat(chunks) == Wire(f, frames) + tail
    ensures Follow(f, held, chunks) == Followed(frames, Waiting(tail))
    decreases |frames|, |chunks|
  {
    hide Take, Encode, Follow, Safe, Partial, Wire;
    var next, rest := NextFrame(f, frames, tail);
    var e := Encode(f, next);
    var wire := Wire(f, frames) + tail;
    assert held <= wire;
    assert held <= e + rest;
    TakeOfEncoded(f, next, held, rest);
    FollowStep(f, held, chunks);
    if |held| >= |e| {
      TakenOff(f, frames, tail, e, rest, held, Concat(chunks));
      FollowUndoesWire(f, frames[1..], tail, held[|e|..], chunks);
      assert frames == [next] + frames[1..];
    } else if chunks == [] {
      assert held + Concat(chunks) == held;
      HeldBack(f, frames, tail, held, e);
    } else {
      assert chunks[0] in chunks;
      assert held + chunks[0] + Concat(chunks[1..]) == held + Concat(chunks);
      FollowUndoesWire(f, frames, tail, held + chunks[0], chunks[1..]);
    }
  }

  // The frame the bytes begin with, whole or not, and what follows it.
  lemma NextFrame(f: Framing, frames: seq<seq<Byte>>, tail: seq<Byte>) returns (next: seq<Byte>, rest: seq<Byte>)
    requires (forall g :: g in frames ==> Safe(f, g)) && Partial(f, tail)
    ensures |next| <= MAX_FRAME_BYTES && |next| < 0x1_0000 && |Encode(f, next)| <= SAFE_TOTAL
    ensures Wire(f, frames) + tail <= Encode(f, next) + rest
    ensures frames == [] ==> rest == [] && |tail| < |Encode(f, next)|
    ensures frames != [] ==> && next == frames[0] && rest == Wire(f, frames[1..]) + tail
                             && Wire(f, frames) + tail == Encode(f, next) + rest
  {
    hide Encode;
    if frames == [] {
      next :| Safe(f, next) && tail < Encode(f, next);
      rest := [];
      assert Wire(f, frames) + tail == tail;
    } else {
      next, rest := frames[0], Wire(f, frames[1..]) + tail;
      assert next in frames;
    }
    SafeFits(f, next);
  }

  lemma TakenOff(f: Framing, frames: seq<seq<Byte>>, tail: seq<Byte>, e: seq<Byte>, rest: seq<Byte>, held: seq<Byte>,
                 more: seq<Byte>)
    requires |e| <= |held| && held + more == Wire(f, frames) + tail
    requires frames == [] ==> |tail| < |e|
    requires frames != [] ==> rest == Wire(f, frames[1..]) + tail && Wire(f, frames) + tail == e + rest
    ensures frames != [] && held[|e|..] + more == Wire(f, frames[1..]) + tail
  {
    assert frames == [] ==> Wire(f, frames) + tail == tail;
    assert held[|e|..] + more == (held + more)[|e|..];
  }

  // With nothing more to read, an incomplete frame is the tail.
  lemma HeldBack(f: Framing, frames: seq<seq<Byte>>, tail: seq<Byte>, held: seq<Byte>, e: seq<Byte>)
    requires held == Wire(f, frames) + tail && |held| < |e|
    requires frames == [] || e == Encode(f, frames[0])
    requires Take(f, held).Incomplete?
    ensures frames == [] && held == tail && Follow(f, held, []) == Followed([], Waiting(tail))
  {
    hide Take, Prefix;
    assert frames == [] ==> held == tail;
  }

  // One step of following: a frame off the front, or one more read.
  lemma FollowStep(f: Framing, held: seq<Byte>, chunks: seq<seq<Byte>>)
    ensures var t := Take(f, held);
            && (t.Frame? ==> Follow(f, held, chunks)
                             == Followed([t.bytes] + Follow(f, t.rest, chunks).frames, Follow(f, t.rest, chunks).last))
            && (t.Incomplete? && chunks != [] && |held| + |chunks[0]| <= MAX_HELD ==>
                  Follow(f, held, chunks) == Follow(f, held + chunks[0], chunks[1..]))
  {
    hide Take;
  }

  // ---- the bound is exact ----

  // Bytes in pieces of a read each.
  function Pieces(s: seq<Byte>): (r: seq<seq<Byte>>)
    ensures forall p :: p in r ==> |p| <= READ_BYTES
  {
    if |s| <= READ_BYTES then [s] else [s[..READ_BYTES]] + Pieces(s[READ_BYTES..])
  }

  // Pieces of an incomplete frame are all held.
  lemma {:induction false} PiecesAreHeld(f: Framing, frame: seq<Byte>, held: seq<Byte>, more: seq<Byte>,
                                         last: seq<Byte>)
    requires |frame| <= MAX_FRAME_BYTES && (f.LengthDelimited? ==> |frame| < 0x1_0000)
    requires held + more < Encode(f, frame)
    ensures Follow(f, held, Pieces(more) + [last]) == Follow(f, held + more, [last])
    decreases |more|
  {
    hide Take, Prefix;
    TakeOfEncoded(f, frame, held, []);
    assert Encode(f, frame) + [] == Encode(f, frame);
    FollowStep(f, held, Pieces(more) + [last]);
    if |more| <= READ_BYTES {
      assert (Pieces(more) + [last])[0] == more && (Pieces(more) + [last])[1..] == [last];
    } else {
      var p, q := more[..READ_BYTES], more[READ_BYTES..];
      assert more == p + q;
      assert held + p + q == held + more;
      assert (Pieces(more) + [last])[0] == p && (Pieces(more) + [last])[1..] == Pieces(q) + [last];
      PiecesAreHeld(f, frame, held + p, q, last);
    }
  }

  // Reads of a file: pieces of at most a read each, from its front.
  ghost predicate ReadsOf(chunks: seq<seq<Byte>>, file: seq<Byte>) {
    (forall r :: r in chunks ==> |r| <= READ_BYTES) && Concat(chunks) <= file
  }

  // How far a read can go past the frame: a full read from one byte short of
  // its end, or what the file holds.
  function Overrun(more: seq<Byte>): nat {
    if |more| < READ_BYTES - 1 then |more| else READ_BYTES - 1
  }

  // A frame and what is behind it: some reads trip the bound on held bytes when
  // the frame and the overrun exceed it, for a reader that stands one byte short
  // of the frame; and nothing is delivered.
  lemma LargerFrameCanFail(f: Framing, frame: seq<Byte>, more: seq<Byte>) returns (chunks: seq<seq<Byte>>)
    requires |frame| <= MAX_FRAME_BYTES && (f.LengthDelimited? ==> |frame| < 0x1_0000)
    requires |Encode(f, frame)| + Overrun(more) > MAX_HELD
    ensures ReadsOf(chunks, Encode(f, frame) + more)
    ensures Follow(f, [], chunks).frames == [] && Follow(f, [], chunks).last.Failed?
    ensures Recv(f, [], chunks).Failed?
  {
    hide Take, Prefix, Pieces, Concat;
    var e := Encode(f, frame);
    var front := e[..|e| - 1];
    var last := (e + more)[|e| - 1..|e| + Overrun(more)];
    chunks := Pieces(front) + [last];
    assert [] + front == front && front < e;
    PiecesAreHeld(f, frame, [], front, last);
    TakeOfEncoded(f, frame, front, []);
    assert e + [] == e;
    LastReadFails(f, front, last);
    FailedFirst(f, chunks);
    ConcatPieces(front, last);
    assert front + last == (e + more)[..|e| + Overrun(more)];
  }

  lemma LastReadFails(f: Framing, held: seq<Byte>, last: seq<Byte>)
    requires Take(f, held).Incomplete? && last != [] && |held| + |last| > MAX_HELD
    ensures Follow(f, held, [last]).frames == [] && Follow(f, held, [last]).last.Failed?
  {
    hide Take;
  }

  lemma FailedFirst(f: Framing, chunks: seq<seq<Byte>>)
    requires Follow(f, [], chunks).frames == [] && Follow(f, [], chunks).last.Failed?
    ensures Recv(f, [], chunks).Failed?
  {
    hide Recv;
  }

  // Otherwise no reads do.
  lemma {:induction false} SmallerFrameNeverFails(f: Framing, frame: seq<Byte>, more: seq<Byte>, held: seq<Byte>,
                                                  chunks: seq<seq<Byte>>)
    requires |frame| <= MAX_FRAME_BYTES && (f.LengthDelimited? ==> |frame| < 0x1_0000)
    requires |Encode(f, frame)| + Overrun(more) <= MAX_HELD
    requires forall r :: r in chunks ==> |r| <= READ_BYTES
    requires held + Concat(chunks) <= Encode(f, frame) + more
    ensures var r := Recv(f, held, chunks);
            if |held + Concat(chunks)| < |Encode(f, frame)| then r.Waiting? else r.Got? && r.frame == frame
    decreases |chunks|
  {
    hide Take, Prefix;
    var e := Encode(f, frame);
    var all := held + Concat(chunks);
    assert held <= e + more by { assert held == all[..|held|]; }
    TakeOfEncoded(f, frame, held, more);
    if |held| < |e| && chunks != [] {
      assert chunks[0] in chunks;
      assert held + chunks[0] + Concat(chunks[1..]) == all;
      SmallerFrameNeverFails(f, frame, more, held + chunks[0], chunks[1..]);
    } else if chunks == [] {
      assert all == held;
    }
  }

  // A frame that fits the buffer can be refused exactly when it and the overrun
  // exceed the bound.
  lemma FrameCanFailIff(f: Framing, frame: seq<Byte>, more: seq<Byte>)
    requires |frame| <= MAX_FRAME_BYTES && (f.LengthDelimited? ==> |frame| < 0x1_0000)
    ensures (exists chunks :: ReadsOf(chunks, Encode(f, frame) + more) && Recv(f, [], chunks).Failed?)
            <==> |Encode(f, frame)| + Overrun(more) > MAX_HELD
  {
    hide Recv, Encode, Overrun;
    if |Encode(f, frame)| + Overrun(more) > MAX_HELD {
      var chunks := LargerFrameCanFail(f, frame, more);
      assert ReadsOf(chunks, Encode(f, frame) + more);
    } else {
      forall chunks | ReadsOf(chunks, Encode(f, frame) + more)
        ensures !Recv(f, [], chunks).Failed?
      {
        assert [] + Concat(chunks) == Concat(chunks);
        SmallerFrameNeverFails(f, frame, more, [], chunks);
      }
    }
  }

  // ---- the exact bound for a list of frames ----

  // A frame that fits the buffer and its prefix.
  predicate FitsBuffer(f: Framing, frame: seq<Byte>) {
    |frame| <= MAX_FRAME_BYTES && (f.LengthDelimited? ==> |frame| < 0x1_0000)
  }

  // No frame, with its prefix and what a read can take in behind it, exceeds the
  // bound.
  ghost predicate WithinBound(f: Framing, frames: seq<seq<Byte>>, tail: seq<Byte>) {
    forall i :: 0 <= i < |frames| ==>
      |Encode(f, frames[i])| + Overrun(Wire(f, frames[i + 1..]) + tail) <= MAX_HELD
  }

  lemma WithinBoundRest(f: Framing, frames: seq<seq<Byte>>, tail: seq<Byte>)
    requires frames != [] && WithinBound(f, frames, tail)
    ensures WithinBound(f, frames[1..], tail)
    ensures |Encode(f, frames[0])| + Overrun(Wire(f, frames[1..]) + tail) <= MAX_HELD
  {
    hide Encode, Wire, Overrun;
    forall i | 0 <= i < |frames[1..]|
      ensures |Encode(f, frames[1..][i])| + Overrun(Wire(f, frames[1..][i + 1..]) + tail) <= MAX_HELD
    {
      assert frames[1..][i] == frames[i + 1] && frames[1..][i + 1..] == frames[i + 2..];
    }
  }

  // Within the bound, any reads of any front of the file: no error, the frames
  // delivered are the first ones, and they and the bytes held are what was read.
  lemma {:induction false} ReadsAreConserved(f: Framing, frames: seq<seq<Byte>>, last: seq<Byte>, tail: seq<Byte>,
                                             held: seq<Byte>, chunks: seq<seq<Byte>>)
    requires forall g :: g in frames ==> FitsBuffer(f, g)
    requires FitsBuffer(f, last) && tail < Encode(f, last) && WithinBound(f, frames, tail)
    requires forall r :: r in chunks ==> |r| <= READ_BYTES
    requires held + Concat(chunks) <= Wire(f, frames) + tail
    ensures var r := Follow(f, held, chunks);
            && r.last.Waiting? && r.frames <= frames
            && Wire(f, r.frames) + r.last.held == held + Concat(chunks)
    decreases |frames|, |chunks|
  {
    hide Take, Encode, Follow, Wire, WithinBound, FitsBuffer, Concat;
    var more := Concat(chunks);
    var next, rest := FirstFrame(f, frames, last, tail);
    var e := Encode(f, next);
    FrontOfFile(held, more, Wire(f, frames) + tail, e + rest);
    NextTaken(f, next, held, rest);
    FollowStep(f, held, chunks);
    if |held| >= |e| {
      assert frames != [] by { assert |held| <= |Wire(f, frames) + tail|; }
      WithinBoundRest(f, frames, tail);
      ReadBehind(e, rest, held, more);
      ReadsAreConserved(f, frames[1..], last, tail, held[|e|..], chunks);
      Reassembled(f, next, frames, Follow(f, held[|e|..], chunks), held, more);
    } else if chunks == [] {
      ConcatNone();
      assert held + more == held;
      StillWaiting(f, held);
    } else {
      assert chunks[0] in chunks;
      ConcatCons(chunks);
      assert held + chunks[0] + Concat(chunks[1..]) == held + more;
      ReadFits(f, frames, last, tail, e, rest, held, chunks[0]);
      ReadsAreConserved(f, frames, last, tail, held + chunks[0], chunks[1..]);
    }
  }

  lemma FrontOfFile(held: seq<Byte>, more: seq<Byte>, file: seq<Byte>, whole: seq<Byte>)
    requires held + more <= file <= whole
    ensures held <= whole && |held| + |more| <= |file|
  {
    assert held == (held + more)[..|held|];
  }

  lemma NextTaken(f: Framing, next: seq<Byte>, held: seq<Byte>, rest: seq<Byte>)
    requires FitsBuffer(f, next) && held <= Encode(f, next) + rest
    ensures var e := Encode(f, next);
            if |held| < |e| then Take(f, held).Incomplete? else Take(f, held) == Frame(next, held[|e|..])
  {
    hide Take, Prefix;
    TakeOfEncoded(f, next, held, rest);
  }

  // The frame the file begins with, whole or not, and what follows it.
  lemma FirstFrame(f: Framing, frames: seq<seq<Byte>>, last: seq<Byte>, tail: seq<Byte>)
    returns (next: seq<Byte>, rest: seq<Byte>)
    requires (forall g :: g in frames ==> FitsBuffer(f, g)) && FitsBuffer(f, last) && tail < Encode(f, last)
    ensures FitsBuffer(f, next) && Wire(f, frames) + tail <= Encode(f, next) + rest
    ensures frames == [] ==> next == last && rest == [] && Wire(f, frames) + tail == tail
    ensures frames != [] ==> && next == frames[0] && rest == Wire(f, frames[1..]) + tail
                             && Wire(f, frames) + tail == Encode(f, next) + rest
  {
    hide Encode;
    if frames == [] {
      next, rest := last, [];
      assert Wire(f, frames) + tail == tail;
    } else {
      next, rest := frames[0], Wire(f, frames[1..]) + tail;
      assert next in frames;
    }
  }

  lemma ReadBehind(e: seq<Byte>, rest: seq<Byte>, held: seq<Byte>, more: seq<Byte>)
    requires |e| <= |held| && held + more <= e + rest
    ensures held == e + held[|e|..] && held[|e|..] + more <= rest
  {
    assert forall i :: 0 <= i < |held| + |more| ==> (held + more)[i] == (e + rest)[i];
    forall i | 0 <= i < |e|
      ensures held[i] == e[i]
    {
      assert (held + more)[i] == held[i] && (e + rest)[i] == e[i];
    }
    assert held[..|e|] == e;
    var left := held[|e|..] + more;
    forall i | 0 <= i < |left|
      ensures left[i] == rest[i]
    {
      assert left[i] == (held + more)[|e| + i] && (e + rest)[|e| + i] == rest[i];
    }
  }

  lemma Reassembled(f: Framing, next: seq<Byte>, frames: seq<seq<Byte>>, r: Followed, held: seq<Byte>, more: seq<Byte>)
    requires frames != [] && frames[0] == next && r.last.Waiting? && r.frames <= frames[1..]
    requires |Encode(f, next)| <= |held| && held == Encode(f, next) + held[|Encode(f, next)|..]
    requires Wire(f, r.frames) + r.last.held == held[|Encode(f, next)|..] + more
    ensures [next] + r.frames <= frames
    ensures Wire(f, [next] + r.frames) + r.last.held == held + more
  {
    hide Encode;
    var e := Encode(f, next);
    assert ([next] + r.frames)[1..] == r.frames;
    assert frames == [next] + frames[1..];
    assert Wire(f, [next] + r.frames) + r.last.held == e + (Wire(f, r.frames) + r.last.held);
    assert e + (held[|e|..] + more) == held + more;
  }

  lemma StillWaiting(f: Framing, held: seq<Byte>)
    requires Take(f, held).Incomplete?
    ensures Follow(f, held, []) == Followed([], Waiting(held))
    ensures Wire(f, []) + held == held
  {
    hide Take;
  }

  // A read on top of an incomplete frame stays within the bound.
  lemma ReadFits(f: Framing, frames: seq<seq<Byte>>, last: seq<Byte>, tail: seq<Byte>, e: seq<Byte>, rest: seq<Byte>,
                 held: seq<Byte>, read: seq<Byte>)
    requires FitsBuffer(f, last) && tail < Encode(f, last) && WithinBound(f, frames, tail)
    requires |held| < |e| && |read| <= READ_BYTES
    requires frames == [] ==> |held| + |read| <= |tail|
    requires frames != [] ==> && e == Encode(f, frames[0]) && rest == Wire(f, frames[1..]) + tail
                              && |held| + |read| <= |e| + |rest|
    ensures |held| + |read| <= MAX_HELD
  {
    hide Prefix, Wire, WithinBound;
    if frames != [] {
      WithinBoundRest(f, frames, tail);
    }
  }

  // Frames read one by one, each in pieces of its own, are delivered.
  function PiecesOf(f: Framing, frames: seq<seq<Byte>>): seq<seq<Byte>> {
    if frames == [] then [] else Pieces(Encode(f, frames[0])) + PiecesOf(f, frames[1..])
  }

  lemma {:induction false} FramesDelivered(f: Framing, frames: seq<seq<Byte>>, more: seq<seq<Byte>>)
    requires forall g :: g in frames ==> FitsBuffer(f, g)
    ensures var r := Follow(f, [], more);
            Follow(f, [], PiecesOf(f, frames) + more) == Followed(frames + r.frames, r.last)
    decreases |frames|
  {
    hide Follow, Prefix, Pieces;
    var r := Follow(f, [], more);
    if frames == [] {
      assert PiecesOf(f, frames) + more == more && frames + r.frames == r.frames;
    } else {
      var g := frames[0];
      assert g in frames;
      FramesDelivered(f, frames[1..], more);
      var rest := PiecesOf(f, frames[1..]) + more;
      assert PiecesOf(f, frames) + more == Pieces(Encode(f, g)) + rest;
      FrameDelivered(f, g, [], Encode(f, g), rest);
      assert [g] + (frames[1..] + r.frames) == frames + r.frames;
    }
  }

  lemma {:induction false} FrameDelivered(f: Framing, g: seq<Byte>, held: seq<Byte>, left: seq<Byte>,
                                          rest: seq<seq<Byte>>)
    requires FitsBuffer(f, g) && held + left == Encode(f, g) && left != []
    ensures var r := Follow(f, [], rest);
            Follow(f, held, Pieces(left) + rest) == Followed([g] + r.frames, r.last)
    decreases |left|
  {
    hide Take, Follow, Prefix;
    var e := Encode(f, g);
    assert e + [] == e && held <= e;
    assert |e| <= MAX_HELD;
    TakeOfEncoded(f, g, held, []);
    FollowStep(f, held, Pieces(left) + rest);
    if |left| <= READ_BYTES {
      assert (Pieces(left) + rest)[0] == left && (Pieces(left) + rest)[1..] == rest;
      TakeOfEncoded(f, g, e, []);
      assert e[|e|..] == [];
      FollowStep(f, e, rest);
    } else {
      var p, q := left[..READ_BYTES], left[READ_BYTES..];
      assert left == p + q && held + p + q == e;
      assert (Pieces(left) + rest)[0] == p && (Pieces(left) + rest)[1..] == Pieces(q) + rest;
      FrameDelivered(f, g, held + p, q, rest);
    }
  }

  lemma {:induction false} PiecesOfFrames(f: Framing, frames: seq<seq<Byte>>, more: seq<seq<Byte>>)
    ensures forall p :: p in PiecesOf(f, frames) ==> |p| <= READ_BYTES
    ensures Concat(PiecesOf(f, frames) + more) == Wire(f, frames) + Concat(more)
    decreases |frames|
  {
    hide Encode, Pieces, Concat;
    if frames == [] {
      assert PiecesOf(f, frames) + more == more && Wire(f, frames) + Concat(more) == Concat(more);
    } else {
      PiecesOfFrames(f, frames[1..], more);
      var e, rest := Encode(f, frames[0]), PiecesOf(f, frames[1..]) + more;
      assert PiecesOf(f, frames) + more == Pieces(e) + rest;
      ConcatPiecesThen(e, rest);
      assert e + (Wire(f, frames[1..]) + Concat(more)) == Wire(f, frames) + Concat(more);
    }
  }

  lemma {:induction false} ConcatPiecesThen(s: seq<Byte>, rest: seq<seq<Byte>>)
    ensures Concat(Pieces(s) + rest) == s + Concat(rest)
    decreases |s|
  {
    hide Concat;
    var ps := Pieces(s) + rest;
    ConcatCons(ps);
    if |s| <= READ_BYTES {
      assert ps[0] == s && ps[1..] == rest;
    } else {
      ConcatPiecesThen(s[READ_BYTES..], rest);
      assert ps[0] == s[..READ_BYTES] && ps[1..] == Pieces(s[READ_BYTES..]) + rest;
      assert s[..READ_BYTES] + (s[READ_BYTES..] + Concat(rest)) == s + Concat(rest);
    }
  }

  // Reads that deliver the frames in front of frame i and then trip the bound.
  lemma FrameInListCanFail(f: Framing, frames: seq<seq<Byte>>, tail: seq<Byte>, i: nat)
    returns (chunks: seq<seq<Byte>>)
    requires (forall g :: g in frames ==> FitsBuffer(f, g)) && i < |frames|
    requires |Encode(f, frames[i])| + Overrun(Wire(f, frames[i + 1..]) + tail) > MAX_HELD
    ensures ReadsOf(chunks, Wire(f, frames) + tail)
    ensures Follow(f, [], chunks).last.Failed? && Follow(f, [], chunks).frames == frames[..i]
  {
    hide Encode, Overrun, Follow, Concat, FitsBuffer, Wire, PiecesOf;
    var front, g, behind := frames[..i], frames[i], Wire(f, frames[i + 1..]) + tail;
    assert g in frames && forall h :: h in front ==> h in frames;
    assert |g| <= MAX_FRAME_BYTES && (f.LengthDelimited? ==> |g| < 0x1_0000) by { BufferBounds(f, g); }
    var trip := LargerFrameCanFail(f, g, behind);
    chunks := PiecesOf(f, front) + trip;
    FramesDelivered(f, front, trip);
    PiecesOfFrames(f, front, trip);
    WireSplits(f, frames, i);
    assert Wire(f, frames) + tail == Wire(f, front) + (Encode(f, g) + behind);
    assert front + [] == front;
  }

  lemma BufferBounds(f: Framing, g: seq<Byte>)
    requires FitsBuffer(f, g)
    ensures |g| <= MAX_FRAME_BYTES && (f.LengthDelimited? ==> |g| < 0x1_0000)
  {
  }

  lemma {:induction false} WireSplits(f: Framing, frames: seq<seq<Byte>>, i: nat)
    requires i < |frames|
    ensures Wire(f, frames) == Wire(f, frames[..i]) + (Encode(f, frames[i]) + Wire(f, frames[i + 1..]))
    decreases i
  {
    hide Encode;
    if i > 0 {
      WireSplits(f, frames[1..], i - 1);
      assert frames[1..][..i - 1] == frames[..i][1..] && frames[1..][i - 1] == frames[i];
      assert frames[1..][i..] == frames[i + 1..];
    } else {
      assert frames[..0] == [];
    }
  }

  // For every list of frames that fit the buffer, and a frame half there behind
  // them: some reads of the file fail if and only if some frame, its prefix and
  // the bytes behind it, counted up to a read less one, exceed the bound.
  lemma FollowCanFailIff(f: Framing, frames: seq<seq<Byte>>, last: seq<Byte>, tail: seq<Byte>)
    requires forall g :: g in frames ==> FitsBuffer(f, g)
    requires FitsBuffer(f, last) && tail < Encode(f, last)
    ensures (exists chunks :: ReadsOf(chunks, Wire(f, frames) + tail) && Follow(f, [], chunks).last.Failed?)
            <==> !WithinBound(f, frames, tail)
  {
    hide Encode, Overrun, Follow, FitsBuffer, Wire;
    if WithinBound(f, frames, tail) {
      forall chunks | ReadsOf(chunks, Wire(f, frames) + tail)
        ensures !Follow(f, [], chunks).last.Failed?
      {
        assert [] + Concat(chunks) == Concat(chunks);
        ReadsAreConserved(f, frames, last, tail, [], chunks);
      }
    } else {
      var i :| 0 <= i < |frames| && |Encode(f, frames[i])| + Overrun(Wire(f, frames[i + 1..]) + tail) > MAX_HELD;
      var chunks := FrameInListCanFail(f, frames, tail, i);
    }
  }

  lemma ConcatPieces(s: seq<Byte>, last: seq<Byte>)
    ensures Concat(Pieces(s) + [last]) == s + last
  {
    hide Concat;
    ConcatPiecesThen(s, [last]);
    ConcatOne(last);
  }

  lemma ConcatNone()
    ensures Concat([]) == []
  {
  }

  lemma ConcatOne(last: seq<Byte>)
    ensures Concat([last]) == last
  {
    assert [last][1..] == [];
  }

  lemma ConcatCons(ps: seq<seq<Byte>>)
    requires ps != []
    ensures Concat(ps) == ps[0] + Concat(ps[1..])
  {
  }
}
