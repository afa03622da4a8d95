// Capture replay: a classic pcap file into UDP payloads and the delays between
// them, stable when the recorder was killed in the middle of a record.
module Pcap {
  import opened Bytes

  type Data = seq<Byte>

  datatype Datagram = Datagram(delay: nat, payload: Data)

  datatype Capture = Capture(datagrams: seq<Datagram>, skipped: nat)

  datatype PcapError = TooShort | BadMagic | NotEthernet

  datatype Result = Ok(capture: Capture) | Err(error: PcapError)

  // What the magic number says: byte order and timestamp resolution.
  datatype Format = Format(little: bool, nanos: bool)

  function FormatOf(magic: Data): Option<Format>
    requires |magic| == 4
  {
    var l, b := FromLittleEndian(magic), FromBigEndian(magic);
    if l == 0xa1b2_c3d4 then Some(Format(true, false))
    else if l == 0xa1b2_3c4d then Some(Format(true, true))
    else if b == 0xa1b2_c3d4 then Some(Format(false, false))
    else if b == 0xa1b2_3c4d then Some(Format(false, true))
    else None
  }

  function U32At(f: Format, data: Data, off: nat): (n: nat)
    requires off + 4 <= |data|
    ensures n < U32
  {
    var b := data[off..off + 4];
    FromBigEndianBound(b);
    FromLittleEndianBound(b);
    U32Width();
    if f.little then FromLittleEndian(b) else FromBigEndian(b)
  }

  lemma {:induction false} FromLittleEndianBound(b: seq<Byte>)
    ensures FromLittleEndian(b) < Pow256(|b|)
  {
    if b != [] {
      FromLittleEndianBound(b[1..]);
    }
  }

  function U16At(data: Data, off: nat): (n: nat)
    requires off + 2 <= |data|
    ensures n < 0x1_0000
  {
    256 * (data[off] as int) + data[off + 1]
  }

  // Past any 802.1Q tags: the ethertype and the offset of what it describes.
  function SkipVlan(frame: Data, off: nat): Option<(nat, nat)>
    requires off >= 2
    decreases |frame| + 4 - off
  {
    if off > |frame| then None
    else
      var t := U16At(frame, off - 2);
      if t != 0x8100 && t != 0x88a8 then Some((t, off))
      else if off + 4 > |frame| then None
      else SkipVlan(frame, off + 4)
  }

  // `udp_payload`: the UDP payload of an Ethernet/IPv4 frame, if it is one.
  function UdpPayload(frame: Data, port: Option<nat>): Option<Data> {
    match SkipVlan(frame, 14)
    case None => None
    case Some((ethertype, off)) =>
      if ethertype != 0x0800 || off > |frame| then None
      else
        var ip := frame[off..];
        if ip == [] then None
        else
          var ihl := ip[0] % 16 * 4;
          if ihl < 20 || |ip| < 10 || ip[9] != 17 || ihl > |ip| then None
          else
            var udp := ip[ihl..];
            if |udp| < 4 then None
            else if port.Some? && U16At(udp, 2) != port.value then None
            else if |udp| < 6 then None
            else
              var n := U16At(udp, 4);
              if n < 8 then None
              else
                var end := if n < |udp| then n else |udp|;
                if end < 8 then None else Some(udp[8..end])
  }

  // ---- the records of a capture ----

  datatype Packet = Packet(ts: nat, frame: Data)

  // A UDP payload and when it was captured.
  datatype Hit = Hit(ts: nat, payload: Data)

  // Nanoseconds since the epoch; never above 64 bits.
  function Timestamp(f: Format, sec: nat, frac: nat): (ts: nat)
    requires sec < U32 && frac < U32
    ensures ts < U64
  {
    sec * 1_000_000_000 + if f.nanos then frac else frac * 1_000
  }

  // The record at an offset and the offset behind it, if all of it is there.
  function RecordAt(f: Format, data: Data, off: nat): (r: Option<(Packet, nat)>)
    ensures r.Some? ==> off + 16 <= r.value.1 <= |data|
  {
    if off + 16 > |data| then None
    else
      var n := U32At(f, data, off + 8);
      if off + 16 + n > |data| then None
      else
        var ts := Timestamp(f, U32At(f, data, off), U32At(f, data, off + 4));
        Some((Packet(ts, data[off + 16..off + 16 + n]), off + 16 + n))
  }

  // Every whole record from an offset on.
  function Packets(f: Format, data: Data, off: nat): seq<Packet>
    decreases |data| - off
  {
    match RecordAt(f, data, off)
    case None => []
    case Some((p, next)) => [p] + Packets(f, data, next)
  }

  function HitOf(p: Packet, port: Option<nat>): seq<Hit> {
    match UdpPayload(p.frame, port)
    case None => []
    case Some(d) => [Hit(p.ts, d)]
  }

  function Hits(ps: seq<Packet>, port: Option<nat>): seq<Hit> {
    if ps == [] then [] else Hits(ps[..|ps| - 1], port) + HitOf(ps[|ps| - 1], port)
  }

  function SaturatingSub(a: nat, b: nat): nat {
    if a >= b then a - b else 0
  }

  function Datagrams(hs: seq<Hit>): (r: seq<Datagram>)
    ensures |r| == |hs|
  {
    if hs == [] then []
    else
      var n := |hs| - 1;
      var delay := if n == 0 then 0 else SaturatingSub(hs[n].ts, hs[n - 1].ts);
      Datagrams(hs[..n]) + [Datagram(delay, hs[n].payload)]
  }

  function CaptureOf(ps: seq<Packet>, port: Option<nat>): (c: Capture)
    ensures |c.datagrams| + c.skipped == |ps|
  {
    HitsBound(ps, port);
    Capture(Datagrams(Hits(ps, port)), |ps| - |Hits(ps, port)|)
  }

  lemma {:induction false} HitsBound(ps: seq<Packet>, port: Option<nat>)
    ensures |Hits(ps, port)| <= |ps|
  {
    hide UdpPayload;
    if ps != [] {
      HitsBound(ps[..|ps| - 1], port);
    }
  }

  function Parse(data: Data, port: Option<nat>): Result {
    if |data| < 24 then Err(TooShort)
    else
      match FormatOf(data[0..4])
      case None => Err(BadMagic)
      case Some(f) =>
        if U32At(f, data, 20) != 1 then Err(NotEthernet)
        else Ok(CaptureOf(Packets(f, data, 24), port))
  }

  // `parse_pcap`, record by record.
  method ParsePcap(data: Data, port: Option<nat>) returns (r: Result)
    ensures r == Parse(data, port)
  {
    hide UdpPayload, U32At, FormatOf, Timestamp, CaptureOf, Hits, LastTs, Packets, RecordAt, SaturatingSub;
    if |data| < 24 {
      return Err(TooShort);
    }
    var format := FormatOf(data[0..4]);
    if format.None? {
      return Err(BadMagic);
    }
    var f := format.value;
    if U32At(f, data, 20) != 1 {
      return Err(NotEthernet);
    }
    var datagrams: seq<Datagram> := [];
    var skipped := 0;
    var prev: Option<nat> := None;
    var off := 24;
    ghost var done: seq<Packet> := [];
    ghost var all := Packets(f, data, 24);
    NothingYet(port);
    while off + 16 <= |data|
      invariant off <= |data|
      invariant done + Packets(f, data, off) == all
      invariant Capture(datagrams, skipped) == CaptureOf(done, port)
      invariant prev == LastTs(Hits(done, port))
      decreases |data| - off
    {
      var sec, frac, n := U32At(f, data, off), U32At(f, data, off + 4), U32At(f, data, off + 8);
      off := off + 16;
      if off + n > |data| {
        NoPacketHere(f, data, off - 16);
        assert done == all;
        return Ok(Capture(datagrams, skipped));
      }
      var frame := data[off..off + n];
      off := off + n;
      var ts := Timestamp(f, sec, frac);
      ghost var p := Packet(ts, frame);
      PacketHere(f, data, off - n - 16, n);
      OneMore(done, p, port);
      Regroup(done, p, Packets(f, data, off));
      done := done + [p];
      match UdpPayload(frame, port) {
        case Some(payload) =>
          var delay := if prev.Some? then SaturatingSub(ts, prev.value) else 0;
          prev := Some(ts);
          datagrams := datagrams + [Datagram(delay, payload)];
        case None =>
          skipped := skipped + 1;
      }
    }
    NoPacketHere(f, data, off);
    assert done == all;
    r := Ok(Capture(datagrams, skipped));
  }

  function LastTs(hs: seq<Hit>): Option<nat> {
    if hs == [] then None else Some(hs[|hs| - 1].ts)
  }

  lemma Regroup(ps: seq<Packet>, p: Packet, rest: seq<Packet>)
    ensures ps + ([p] + rest) == ps + [p] + rest
  {
  }

  lemma NothingYet(port: Option<nat>)
    ensures CaptureOf([], port) == Capture([], 0) && LastTs(Hits([], port)) == None
  {
  }

  // A whole record at hand, or none.
  lemma PacketHere(f: Format, data: Data, off: nat, n: nat)
    requires off + 16 + n <= |data| && n == U32At(f, data, off + 8)
    ensures Packets(f, data, off)
            == [Packet(Timestamp(f, U32At(f, data, off), U32At(f, data, off + 4)), data[off + 16..off + 16 + n])]
               + Packets(f, data, off + 16 + n)
  {
    hide U32At, Timestamp;
  }

  lemma NoPacketHere(f: Format, data: Data, off: nat)
    requires off + 16 <= |data| ==> off + 16 + U32At(f, data, off + 8) > |data|
    ensures Packets(f, data, off) == []
  {
    hide U32At, Timestamp;
  }

  // What one more record adds.
  lemma OneMore(ps: seq<Packet>, p: Packet, port: Option<nat>)
    ensures var c, d := CaptureOf(ps, port), CaptureOf(ps + [p], port);
            var last := LastTs(Hits(ps, port));
            match UdpPayload(p.frame, port)
            case None => d == Capture(c.datagrams, c.skipped + 1) && LastTs(Hits(ps + [p], port)) == last
            case Some(payload) =>
              var delay := if last.Some? then SaturatingSub(p.ts, last.value) else 0;
              && d == Capture(c.datagrams + [Datagram(delay, payload)], c.skipped)
              && LastTs(Hits(ps + [p], port)) == Some(p.ts)
  {
    hide UdpPayload, Hits, Datagrams;
    var hs := Hits(ps, port);
    HitsOfLast(ps, p, port);
    match UdpPayload(p.frame, port)
    case None =>
      assert hs + [] == hs;
    case Some(payload) =>
      DatagramsOfLast(hs, Hit(p.ts, payload));
  }

  lemma HitsOfLast(ps: seq<Packet>, p: Packet, port: Option<nat>)
    ensures Hits(ps + [p], port) == Hits(ps, port) + HitOf(p, port)
  {
    hide UdpPayload;
    assert (ps + [p])[..|ps|] == ps;
  }

  lemma DatagramsOfLast(hs: seq<Hit>, h: Hit)
    ensures var last := LastTs(hs);
            Datagrams(hs + [h])
            == Datagrams(hs) + [Datagram(if last.Some? then SaturatingSub(h.ts, last.value) else 0, h.payload)]
  {
    assert (hs + [h])[..|hs|] == hs;
  }

  // ---- torn tails ----

  lemma RecordSurvives(f: Format, data: Data, n: nat, off: nat)
    requires n <= |data|
    ensures var r := RecordAt(f, data, off);
            RecordAt(f, data[..n], off) == if r.Some? && r.value.1 <= n then r else None
  {
    hide U32At, Timestamp;
    var cut := data[..n];
    if off + 16 <= n {
      SameU32(f, data, n, off);
      SameU32(f, data, n, off + 4);
      SameU32(f, data, n, off + 8);
      var m := U32At(f, data, off + 8);
      if off + 16 + m <= n {
        SliceOfPrefix(data, n, off + 16, off + 16 + m);
      }
    }
  }

  lemma SameU32(f: Format, data: Data, n: nat, off: nat)
    requires off + 4 <= n <= |data|
    ensures U32At(f, data[..n], off) == U32At(f, data, off)
  {
    SliceOfPrefix(data, n, off, off + 4);
  }

  lemma {:induction false} PacketsOfCut(f: Format, data: Data, n: nat, off: nat)
    requires n <= |data|
    ensures Packets(f, data[..n], off) <= Packets(f, data, off)
    decreases |data| - off
  {
    hide RecordAt;
    RecordSurvives(f, data, n, off);
    match RecordAt(f, data[..n], off)
    case None =>
    case Some((p, next)) => PacketsOfCut(f, data, n, next);
  }

  lemma {:induction false} HitsOfPrefix(ps: seq<Packet>, qs: seq<Packet>, port: Option<nat>)
    requires ps <= qs
    ensures Hits(ps, port) <= Hits(qs, port)
    decreases |qs|
  {
    hide UdpPayload;
    if |ps| == |qs| {
      assert ps == qs;
    } else {
      assert ps <= qs[..|qs| - 1];
      HitsOfPrefix(ps, qs[..|qs| - 1], port);
    }
  }

  lemma {:induction false} DatagramsOfPrefix(hs: seq<Hit>, gs: seq<Hit>)
    requires hs <= gs
    ensures Datagrams(hs) <= Datagrams(gs)
    decreases |gs|
  {
    if |hs| == |gs| {
      assert hs == gs;
    } else {
      assert hs <= gs[..|gs| - 1];
      DatagramsOfPrefix(hs, gs[..|gs| - 1]);
    }
  }

  // A capture cut at any byte behind its header parses to the first of its
  // datagrams, delays included; and datagrams and skipped packets together are
  // the whole records that are there.
  lemma TornCapture(data: Data, port: Option<nat>, n: nat)
    requires 24 <= n <= |data| && Parse(data, port).Ok?
    ensures Parse(data[..n], port).Ok?
    ensures var c, d := Parse(data, port).capture, Parse(data[..n], port).capture;
            && d.datagrams <= c.datagrams
            && |d.datagrams| + d.skipped <= |c.datagrams| + c.skipped
  {
    hide Packets, Hits, Datagrams, FormatOf, U32At;
    SliceOfPrefix(data, n, 0, 4);
    var f := FormatOf(data[0..4]).value;
    SameU32(f, data, n, 20);
    PacketsOfCut(f, data, n, 24);
    HitsOfPrefix(Packets(f, data[..n], 24), Packets(f, data, 24), port);
    DatagramsOfPrefix(Hits(Packets(f, data[..n], 24), port), Hits(Packets(f, data, 24), port));
  }

  // ---- delays ----

  function TotalDelay(ds: seq<Datagram>): nat {
    if ds == [] then 0 else TotalDelay(ds[..|ds| - 1]) + ds[|ds| - 1].delay
  }

  ghost predicate NonDecreasing(hs: seq<Hit>) {
    forall i :: 0 < i < |hs| ==> hs[i - 1].ts <= hs[i].ts
  }

  // The delays add up to the time from the first datagram to the last exactly
  // when no timestamp goes back; otherwise the replay is longer.
  lemma {:induction false} DelaysAreElapsed(hs: seq<Hit>)
    requires hs != []
    ensures var elapsed := hs[|hs| - 1].ts - hs[0].ts;
            && elapsed <= TotalDelay(Datagrams(hs))
            && (TotalDelay(Datagrams(hs)) == elapsed <==> NonDecreasing(hs))
    decreases |hs|
  {
    var n := |hs| - 1;
    var ds := Datagrams(hs);
    assert ds[..n] == Datagrams(hs[..n]);
    if n > 0 {
      DelaysAreElapsed(hs[..n]);
      assert NonDecreasing(hs) <==> NonDecreasing(hs[..n]) && hs[n - 1].ts <= hs[n].ts by { NonDecreasingLast(hs); }
    }
  }

  lemma NonDecreasingLast(hs: seq<Hit>)
    requires |hs| > 1
    ensures var n := |hs| - 1;
            NonDecreasing(hs) <==> NonDecreasing(hs[..n]) && hs[n - 1].ts <= hs[n].ts
  {
    var n := |hs| - 1;
    if NonDecreasing(hs[..n]) && hs[n - 1].ts <= hs[n].ts {
      forall i | 0 < i < |hs|
        ensures hs[i - 1].ts <= hs[i].ts
      {
        if i < n {
          assert hs[..n][i - 1].ts <= hs[..n][i].ts;
        }
      }
    }
    if NonDecreasing(hs) {
      forall i | 0 < i < n
        ensures hs[..n][i - 1].ts <= hs[..n][i].ts
      {
        assert hs[i - 1].ts <= hs[i].ts;
      }
    }
  }

  // ---- what a recorder writes ----

  function U32Bytes(f: Format, n: nat): (r: Data)
    ensures |r| == 4
  {
    if f.little then LittleEndian(n, 4) else BigEndian(n, 4)
  }

  function Magic(f: Format): (r: Data)
    ensures |r| == 4
  {
    U32Bytes(f, if f.nanos then 0xa1b2_3c4d else 0xa1b2_c3d4)
  }

  datatype Record = Record(sec: nat, frac: nat, original: nat, frame: Data)

  predicate Writable(r: Record) {
    r.sec < U32 && r.frac < U32 && |r.frame| < U32
  }

  function RecordBytes(f: Format, r: Record): Data {
    U32Bytes(f, r.sec) + U32Bytes(f, r.frac) + U32Bytes(f, |r.frame|) + U32Bytes(f, r.original) + r.frame
  }

  function Written(f: Format, rs: seq<Record>): Data {
    if rs == [] then [] else RecordBytes(f, rs[0]) + Written(f, rs[1..])
  }

  function PacketOf(f: Format, r: Record): Packet
    requires Writable(r)
  {
    Packet(Timestamp(f, r.sec, r.frac), r.frame)
  }

  function PacketsOf(f: Format, rs: seq<Record>): seq<Packet>
    requires forall r :: r in rs ==> Writable(r)
  {
    seq(|rs|, i requires 0 <= i < |rs| => PacketOf(f, rs[i]))
  }

  lemma U32ReadsBack(f: Format, before: Data, n: nat, after: Data)
    requires n < U32
    ensures U32At(f, before + U32Bytes(f, n) + after, |before|) == n
  {
    hide LittleEndian, BigEndian, FromLittleEndian, FromBigEndian;
    U32Width();
    LittleEndianRoundTrip(n, 4);
    BigEndianRoundTrip(n, 4);
    var data := before + U32Bytes(f, n) + after;
    assert data[|before|..|before| + 4] == U32Bytes(f, n);
  }

  lemma FormatReadsBack(f: Format)
    ensures FormatOf(Magic(f)) == Some(f)
  {
    hide FromLittleEndian, FromBigEndian, LittleEndian, BigEndian;
    var m := if f.nanos then 0xa1b2_3c4d else 0xa1b2_c3d4;
    U32Width();
    LittleEndianRoundTrip(m, 4);
    BigEndianRoundTrip(m, 4);
    SwappedMagic();
  }

  // Neither magic number is the other byte order of one.
  lemma SwappedMagic()
    ensures FromLittleEndian(BigEndian(0xa1b2_c3d4, 4)) == 0xd4c3_b2a1
    ensures FromLittleEndian(BigEndian(0xa1b2_3c4d, 4)) == 0x4d3c_b2a1
  {
    hide FromLittleEndian, BigEndian;
    BigOfFour(0xa1b2_c3d4);
    LittleOfFour(0xa1, 0xb2, 0xc3, 0xd4);
    BigOfFour(0xa1b2_3c4d);
    LittleOfFour(0xa1, 0xb2, 0x3c, 0x4d);
  }

  lemma BigOfFour(n: nat)
    ensures BigEndian(n, 4) == [n / 256 / 256 / 256 % 256, n / 256 / 256 % 256, n / 256 % 256, n % 256]
  {
    var n1 := n / 256;
    var n2 := n1 / 256;
    assert BigEndian(n2, 2) == BigEndian(n2 / 256, 1) + [n2 % 256];
    assert BigEndian(n1, 3) == BigEndian(n2, 2) + [n1 % 256];
  }

  lemma LittleOfFour(a: Byte, b: Byte, c: Byte, d: Byte)
    ensures FromLittleEndian([a, b, c, d]) == a + 256 * (b + 256 * (c + 256 * d))
  {
    assert FromLittleEndian([d]) == d;
    LittleCons(c, [d]);
    LittleCons(b, [c, d]);
    LittleCons(a, [b, c, d]);
  }

  lemma LittleCons(a: Byte, s: Data)
    ensures FromLittleEndian([a] + s) == a + 256 * FromLittleEndian(s)
  {
    assert ([a] + s)[1..] == s;
  }

  // The fields of a record read back wherever it stands.
  lemma FieldsReadBack(f: Format, before: Data, r: Record, after: Data)
    requires Writable(r)
    ensures var data := before + RecordBytes(f, r) + after;
            && U32At(f, data, |before|) == r.sec
            && U32At(f, data, |before| + 4) == r.frac
            && U32At(f, data, |before| + 8) == |r.frame|
  {
    hide U32At, U32Bytes;
    var a, b, c, d := U32Bytes(f, r.sec), U32Bytes(f, r.frac), U32Bytes(f, |r.frame|), U32Bytes(f, r.original);
    var data := before + RecordBytes(f, r) + after;
    var tail := d + r.frame + after;
    assert data == before + a + (b + c + tail);
    U32ReadsBack(f, before, r.sec, b + c + tail);
    assert data == (before + a) + b + (c + tail);
    U32ReadsBack(f, before + a, r.frac, c + tail);
    assert data == (before + a + b) + c + tail;
    U32ReadsBack(f, before + a + b, |r.frame|, tail);
  }

  lemma RecordReadsBack(f: Format, before: Data, r: Record, after: Data)
    requires Writable(r)
    ensures RecordAt(f, before + RecordBytes(f, r) + after, |before|)
            == Some((PacketOf(f, r), |before| + |RecordBytes(f, r)|))
  {
    hide U32At, U32Bytes, Timestamp;
    FieldsReadBack(f, before, r, after);
    var data := before + RecordBytes(f, r) + after;
    var off := |before| + 16;
    assert data[off..off + |r.frame|] == r.frame;
  }

  // A record cut short is no record.
  lemma TornRecord(f: Format, before: Data, r: Record, tail: Data)
    requires Writable(r) && tail < RecordBytes(f, r)
    ensures RecordAt(f, before + tail, |before|) == None
  {
    hide U32At, U32Bytes, Timestamp;
    var whole := before + RecordBytes(f, r) + [];
    FieldsReadBack(f, before, r, []);
    assert before + tail == whole[..|before + tail|];
    RecordSurvives(f, whole, |before + tail|, |before|);
    RecordReadsBack(f, before, r, []);
  }

  lemma {:induction false} PacketsReadBack(f: Format, before: Data, rs: seq<Record>, torn: Record, tail: Data)
    requires forall r :: r in rs ==> Writable(r)
    requires Writable(torn) && tail < RecordBytes(f, torn)
    ensures Packets(f, before + Written(f, rs) + tail, |before|) == PacketsOf(f, rs)
    decreases |rs|
  {
    hide RecordAt, RecordBytes, PacketOf, Writable;
    var data := before + Written(f, rs) + tail;
    if rs == [] {
      assert data == before + tail;
      TornRecord(f, before, torn, tail);
    } else {
      var r, rest := rs[0], rs[1..];
      assert r in rs;
      var next := before + RecordBytes(f, r);
      assert data == before + RecordBytes(f, r) + (Written(f, rest) + tail);
      RecordReadsBack(f, before, r, Written(f, rest) + tail);
      assert data == next + Written(f, rest) + tail;
      PacketsReadBack(f, next, rest, torn, tail);
      assert PacketsOf(f, rs) == [PacketOf(f, r)] + PacketsOf(f, rest);
    }
  }

  // A capture as a recorder writes it, in any of the four formats and killed in
  // the middle of a record: exactly the whole records are replayed.
  lemma CaptureReadsBack(f: Format, middle: Data, rs: seq<Record>, torn: Record, tail: Data, port: Option<nat>)
    requires |middle| == 16 && forall r :: r in rs ==> Writable(r)
    requires Writable(torn) && tail < RecordBytes(f, torn)
    ensures Parse(Magic(f) + middle + U32Bytes(f, 1) + Written(f, rs) + tail, port)
            == Ok(CaptureOf(PacketsOf(f, rs), port))
  {
    hide Packets, PacketsOf, CaptureOf, U32At, U32Bytes, FormatOf, Magic, Written, RecordBytes;
    var header := Magic(f) + middle + U32Bytes(f, 1);
    var data := header + Written(f, rs) + tail;
    assert data[0..4] == Magic(f);
    FormatReadsBack(f);
    assert data == (Magic(f) + middle) + U32Bytes(f, 1) + (Written(f, rs) + tail);
    U32ReadsBack(f, Magic(f) + middle, 1, Written(f, rs) + tail);
    PacketsReadBack(f, header, rs, torn, tail);
  }

  // ---- what a sender puts on the wire ----

  function U16Bytes(n: nat): (r: Data)
    requires n < 0x1_0000
    ensures |r| == 2
  {
    [n / 256, n % 256]
  }

  // An 802.1Q or 802.1ad tag.
  datatype Tag = Tag(provider: bool, a: Byte, b: Byte)

  function TagBytes(tags: seq<Tag>): Data {
    if tags == [] then []
    else (if tags[0].provider then [0x88, 0xa8] else [0x81, 0x00]) + [tags[0].a, tags[0].b] + TagBytes(tags[1..])
  }

  // Tags are skipped, however many there are.
  lemma {:induction false} TagsSkipped(before: Data, tags: seq<Tag>, ip: Data)
    ensures SkipVlan(before + TagBytes(tags) + [0x08, 0x00] + ip, |before| + 2)
            == Some((0x0800, |before| + |TagBytes(tags)| + 2))
    decreases |tags|
  {
    var frame := before + TagBytes(tags) + [0x08, 0x00] + ip;
    if tags != [] {
      var t := tags[0];
      var next := before + (if t.provider then [0x88, 0xa8] else [0x81, 0x00]) + [t.a, t.b];
      assert frame == next + TagBytes(tags[1..]) + [0x08, 0x00] + ip;
      TagsSkipped(next, tags[1..], ip);
    }
  }

  // The payload of a UDP datagram over IPv4 with any options, behind any tags
  // and in front of any padding, is what was sent; a port filter lets it pass
  // exactly when it names its destination.
  lemma PayloadReadsBack(macs: Data, tags: seq<Tag>, ip: Data, from: nat, to: nat, sum: nat, payload: Data,
                         padding: Data, port: Option<nat>)
    requires |macs| == 12 && |ip| >= 20 && |ip| == ip[0] % 16 * 4 && ip[9] == 17
    requires from < 0x1_0000 && to < 0x1_0000 && sum < 0x1_0000 && |payload| + 8 < 0x1_0000
    ensures var udp := U16Bytes(from) + U16Bytes(to) + U16Bytes(|payload| + 8) + U16Bytes(sum) + payload;
            UdpPayload(macs + TagBytes(tags) + [0x08, 0x00] + (ip + udp + padding), port)
            == if port == None || port == Some(to) then Some(payload) else None
  {
    hide SkipVlan, TagBytes;
    var head := U16Bytes(from) + U16Bytes(to) + U16Bytes(|payload| + 8) + U16Bytes(sum);
    var udp := head + payload;
    var packet := ip + udp + padding;
    var frame := macs + TagBytes(tags) + [0x08, 0x00] + packet;
    TagsSkipped(macs, tags, packet);
    var off := 12 + |TagBytes(tags)| + 2;
    assert frame[off..] == packet;
    assert packet[0] == ip[0] && packet[9] == ip[9];
    assert packet[|ip|..] == udp + padding;
    DatagramFields(from, to, sum, payload, padding);
  }

  lemma DatagramFields(from: nat, to: nat, sum: nat, payload: Data, padding: Data)
    requires from < 0x1_0000 && to < 0x1_0000 && sum < 0x1_0000 && |payload| + 8 < 0x1_0000
    ensures var udp := U16Bytes(from) + U16Bytes(to) + U16Bytes(|payload| + 8) + U16Bytes(sum) + payload + padding;
            U16At(udp, 2) == to && U16At(udp, 4) == |payload| + 8 && udp[8..|payload| + 8] == payload
  {
    var udp := U16Bytes(from) + U16Bytes(to) + U16Bytes(|payload| + 8) + U16Bytes(sum) + payload + padding;
    assert udp[2] == to / 256 && udp[3] == to % 256;
    assert udp[4] == (|payload| + 8) / 256 && udp[5] == (|payload| + 8) % 256;
  }
}
