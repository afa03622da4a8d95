// Length-prefixed framing over a byte stream, into a buffer of fixed size.
module StreamFraming {
  import opened Bytes
  import opened LineReader
  import opened FileFollower

  datatype Read = Whole(bytes: seq<Byte>) | Oversize | Ended

  // ---- the simple form ----

  // What the bytes of a stream yield first, and the bytes behind it. A stream
  // that ends in the middle of a frame is used up.
  function Next(f: Framing, cap: nat, rest: seq<Byte>): (r: (Read, seq<Byte>))
    ensures !r.0.Ended? ==> |r.1| < |rest|
  {
    var p := PrefixLen(f);
    match Declared(f, rest)
    case None => (Ended, [])
    case Some(n) =>
      if n > cap then (Oversize, rest[p..])
      else if |rest| < p + n then (Ended, [])
      else (Whole(rest[p..p + n]), rest[p + n..])
  }

  function Reads(f: Framing, cap: nat, rest: seq<Byte>): seq<Read>
    decreases |rest|
  {
    var r := Next(f, cap, rest);
    if r.0.Ended? then [Ended] else [r.0] + Reads(f, cap, r.1)
  }

  // ---- the program ----

  // `read_exact`: n bytes to the front of the buffer, or the end of the stream.
  method ReadExact(s: Stream, buf: array<Byte>, n: nat) returns (ok: bool)
    requires s.Valid() && n <= buf.Length
    modifies s, buf
    ensures s.Valid() && ok == (n <= |old(s.Rest())|)
    ensures s.Rest() == if ok then old(s.Rest())[n..] else []
    ensures ok ==> buf[..n] == old(s.Rest())[..n]
  {
    var rest := s.Rest();
    ok := n <= |rest|;
    if ok {
      forall i | 0 <= i < n {
        buf[i] := rest[i];
      }
    }
    s.Consume(if ok then n else |rest|);
  }

  // `read_payload`: refused before any read when it does not fit.
  method ReadPayload(s: Stream, buf: array<Byte>, n: nat) returns (r: Read)
    requires s.Valid()
    modifies s, buf
    ensures s.Valid()
    ensures n > buf.Length ==> r == Oversize && s.Rest() == old(s.Rest())
    ensures n <= buf.Length && |old(s.Rest())| < n ==> r == Ended && s.Rest() == []
    ensures n <= buf.Length && n <= |old(s.Rest())| ==>
              && r == Whole(old(s.Rest())[..n]) && s.Rest() == old(s.Rest())[n..]
              && buf[..n] == r.bytes
  {
    if n > buf.Length {
      return Oversize;
    }
    var ok := ReadExact(s, buf, n);
    r := if ok then Whole(buf[..n]) else Ended;
  }

  method ReadFrame(s: Stream, f: Framing, buf: array<Byte>) returns (r: Read)
    requires s.Valid()
    modifies s, buf
    ensures s.Valid() && (r, s.Rest()) == Next(f, buf.Length, old(s.Rest()))
    ensures r.Whole? ==> |r.bytes| <= buf.Length && buf[..|r.bytes|] == r.bytes
  {
    hide FromBigEndian, FromLittleEndian;
    ghost var rest, p := s.Rest(), PrefixLen(f);
    var prefix := new Byte[PrefixLen(f)](_ => 0);
    var ok := ReadExact(s, prefix, PrefixLen(f));
    if !ok {
      return Ended;
    }
    assert prefix[..] == prefix[..p] == rest[..p];
    var n := if f.LengthDelimited? then FromBigEndian(prefix[..]) else FromLittleEndian(prefix[..]);
    assert Declared(f, rest) == Some(n);
    r := ReadPayload(s, buf, n);
    if n <= |rest| - p {
      assert rest[p..][..n] == rest[p..p + n];
      DropDrop(rest, p, n);
    }
  }

  // ---- what the simple form means ----

  // A length the prefix can carry.
  predicate Prefixed(f: Framing, frame: seq<Byte>) {
    |frame| < U32 && (f.LengthDelimited? ==> |frame| < 0x1_0000)
  }

  // A frame within the buffer is read whole; a larger one is refused with its
  // payload still to come, so that the next read takes payload for a prefix.
  lemma NextOfEncoded(f: Framing, cap: nat, frame: seq<Byte>, rest: seq<Byte>)
    requires Prefixed(f, frame)
    ensures Next(f, cap, Encode(f, frame) + rest)
            == if |frame| <= cap then (Whole(frame), rest) else (Oversize, frame + rest)
  {
    hide Declared, Prefix;
    var p, all := PrefixLen(f), Encode(f, frame) + rest;
    assert all == Prefix(f, |frame|) + (frame + rest);
    assert all[..p] == Prefix(f, |frame|) && all[p..] == frame + rest;
    DeclaredOfPrefix(f, frame, all);
    assert all[p..p + |frame|] == frame && all[p + |frame|..] == rest;
  }

  // A frame that is not all there: the stream ends, nothing is delivered.
  lemma NextOfPartial(f: Framing, cap: nat, frame: seq<Byte>, tail: seq<Byte>)
    requires Prefixed(f, frame) && |frame| <= cap && tail < Encode(f, frame)
    ensures Next(f, cap, tail) == (Ended, [])
  {
    hide Declared, Prefix;
    var p, e := PrefixLen(f), Encode(f, frame);
    assert tail == e[..|tail|];
    if |tail| < p {
      ShortPrefix(f, tail);
    } else {
      assert tail[..p] == e[..p] == Prefix(f, |frame|);
      DeclaredOfPrefix(f, frame, tail);
    }
  }

  function Wholes(frames: seq<seq<Byte>>): seq<Read> {
    seq(|frames|, i requires 0 <= i < |frames| => Whole(frames[i]))
  }

  // Reading undoes framing for every list of frames that fit, and a frame cut
  // off by the end of the stream is not delivered.
  lemma {:induction false} ReadsUndoWire(f: Framing, cap: nat, frames: seq<seq<Byte>>, last: seq<Byte>, tail: seq<Byte>)
    requires forall g :: g in frames ==> Prefixed(f, g) && |g| <= cap
    requires Prefixed(f, last) && |last| <= cap && tail < Encode(f, last)
    ensures Reads(f, cap, Wire(f, frames) + tail) == Wholes(frames) + [Ended]
    decreases |frames|
  {
    hide Next, Encode, Prefixed;
    var all := Wire(f, frames) + tail;
    if frames == [] {
      assert all == tail;
      NextOfPartial(f, cap, last, tail);
    } else {
      var g, rest := frames[0], Wire(f, frames[1..]) + tail;
      assert g in frames;
      assert all == Encode(f, g) + rest;
      NextOfEncoded(f, cap, g, rest);
      ReadsUndoWire(f, cap, frames[1..], last, tail);
      assert Wholes(frames) == [Whole(g)] + Wholes(frames[1..]);
      assert [Whole(g)] + (Wholes(frames[1..]) + [Ended]) == Wholes(frames) + [Ended];
    }
  }
}
