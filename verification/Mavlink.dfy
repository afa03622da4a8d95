// MAVLink v1 framing: the byte-wise CRC-16/MCRF4XX against its bit-by-bit
// definition, and what the CRC of a frame detects.
module Mavlink {
  import opened Bytes

  type Text = seq<bv8>

  const INITIAL: bv16 := 0xFFFF
  const POLYNOMIAL: bv16 := 0x8408

  // One round of the byte-wise form.
  function ByteStep(c: bv16, b: bv8): bv16 {
    var mixed := b ^ (c & 0xFF) as bv8;
    var t := (mixed ^ (mixed << 4)) as bv16;
    Spread(c >> 8, t)
  }

  function Spread(h: bv16, t: bv16): bv16 {
    Xor(Xor(Xor(h, t << 8), t << 3), t >> 4)
  }

  function Xor(a: bv16, b: bv16): bv16 {
    a ^ b
  }

  function Half(e: bv16): bv16 {
    e >> 1
  }

  predicate Even(e: bv16) {
    e & 1 == 0
  }

  // One bit of the reflected division by the polynomial.
  function BitStep(c: bv16): bv16 {
    if Even(c) then Half(c) else Xor(Half(c), POLYNOMIAL)
  }

  function Bits8(c: bv16): bv16 {
    BitStep(BitStep(BitStep(BitStep(BitStep(BitStep(BitStep(BitStep(c))))))))
  }

  function Mix(c: bv16, b: bv8): bv16 {
    c ^ (b as bv16)
  }

  function TakeIn(c: bv16, b: bv8): bv16 {
    Bits8(Mix(c, b))
  }

  // CRC-16/MCRF4XX by definition: the register takes in each byte and is
  // divided bit by bit.
  function Bitwise(c: bv16, data: Text): bv16 {
    if data == [] then c else TakeIn(Bitwise(c, data[..|data| - 1]), data[|data| - 1])
  }

  // ---- eight bits at once ----

  // What eight divisions make of a register that holds one byte.
  function Table(l: bv16): bv16 {
    var t := (l ^ (l << 4)) & 0xFF;
    Spread(0, t)
  }

  lemma TableIsBits8(l: bv16)
    requires l & 0xFF00 == 0
    ensures Bits8(l) == Table(l)
  {
  }

  // Bits above the lowest only shift down.
  lemma BitStepSplits(y: bv16, e: bv16)
    requires Even(e)
    ensures BitStep(Xor(y, e)) == Xor(BitStep(y), Half(e))
  {
    hide Xor, Half, Even;
    XorHalves(y, e);
    LowBitStays(y, e);
    XorAssociates(Half(y), Half(e), POLYNOMIAL);
    XorAssociates(Half(y), POLYNOMIAL, Half(e));
    XorCommutes(Half(e), POLYNOMIAL);
  }

  lemma XorHalves(y: bv16, e: bv16)
    ensures Half(Xor(y, e)) == Xor(Half(y), Half(e))
  {
  }

  lemma LowBitStays(y: bv16, e: bv16)
    requires Even(e)
    ensures Even(Xor(y, e)) == Even(y)
  {
  }

  lemma XorAssociates(a: bv16, b: bv16, c: bv16)
    ensures Xor(Xor(a, b), c) == Xor(a, Xor(b, c))
  {
  }

  lemma XorCommutes(a: bv16, b: bv16)
    ensures Xor(a, b) == Xor(b, a)
  {
  }

  // The high byte of the register: even through seven halvings.
  lemma HighByteHalves(x: bv16)
    ensures var e := x & 0xFF00;
            && x == Xor(x & 0xFF, e)
            && Even(e) && Even(e >> 1) && Even(e >> 2) && Even(e >> 3)
            && Even(e >> 4) && Even(e >> 5) && Even(e >> 6) && Even(e >> 7)
            && Half(e) == e >> 1 && Half(e >> 1) == e >> 2 && Half(e >> 2) == e >> 3 && Half(e >> 3) == e >> 4
            && Half(e >> 4) == e >> 5 && Half(e >> 5) == e >> 6 && Half(e >> 6) == e >> 7 && Half(e >> 7) == x >> 8
  {
  }

  lemma Bits8Splits(x: bv16)
    ensures Bits8(x) == Xor(Bits8(x & 0xFF), x >> 8)
  {
    HighByteHalves(x);
    var e := x & 0xFF00;
    SplitRun(x & 0xFF, e, e >> 1, e >> 2, e >> 3, e >> 4, e >> 5, e >> 6, e >> 7, x >> 8);
  }

  lemma SplitRun(y: bv16, e0: bv16, e1: bv16, e2: bv16, e3: bv16, e4: bv16, e5: bv16, e6: bv16, e7: bv16, e8: bv16)
    requires Even(e0) && Even(e1) && Even(e2) && Even(e3) && Even(e4) && Even(e5) && Even(e6) && Even(e7)
    requires Half(e0) == e1 && Half(e1) == e2 && Half(e2) == e3 && Half(e3) == e4
    requires Half(e4) == e5 && Half(e5) == e6 && Half(e6) == e7 && Half(e7) == e8
    ensures Bits8(Xor(y, e0)) == Xor(Bits8(y), e8)
  {
    hide BitStep, Xor, Half, Even;
    BitStepSplits(y, e0);
    var y1 := BitStep(y);
    BitStepSplits(y1, e1);
    var y2 := BitStep(y1);
    BitStepSplits(y2, e2);
    var y3 := BitStep(y2);
    BitStepSplits(y3, e3);
    var y4 := BitStep(y3);
    BitStepSplits(y4, e4);
    var y5 := BitStep(y4);
    BitStepSplits(y5, e5);
    var y6 := BitStep(y5);
    BitStepSplits(y6, e6);
    BitStepSplits(BitStep(y6), e7);
  }

  // The byte-wise round is eight rounds of the definition.
  lemma ByteStepIsTakeIn(c: bv16, b: bv8)
    ensures ByteStep(c, b) == TakeIn(c, b)
  {
    hide Bits8, ByteStep, Table, Xor, Mix;
    var x := Mix(c, b);
    Bits8Splits(x);
    LowByteIsLow(x);
    TableIsBits8(x & 0xFF);
    ByteStepIsTable(c, b);
  }

  lemma LowByteIsLow(x: bv16)
    ensures (x & 0xFF) & 0xFF00 == 0
  {
  }

  lemma ByteStepIsTable(c: bv16, b: bv8)
    ensures ByteStep(c, b) == Xor(Table(Mix(c, b) & 0xFF), Mix(c, b) >> 8)
  {
    hide Spread, Xor;
    MixedByte(c, b);
    NibbleMix(b ^ (c & 0xFF) as bv8);
    SpreadSplits(c >> 8, (b ^ (c & 0xFF) as bv8 ^ ((b ^ (c & 0xFF) as bv8) << 4)) as bv16);
  }

  lemma SpreadSplits(h: bv16, t: bv16)
    ensures Spread(h, t) == Xor(Spread(0, t), h)
  {
    hide Xor;
    var x, y, z := t << 8, t << 3, t >> 4;
    XorZero(x);
    SplitsOff(h, x, y, z);
  }

  lemma XorZero(a: bv16)
    ensures Xor(0, a) == a
  {
  }

  lemma SplitsOff(h: bv16, x: bv16, y: bv16, z: bv16)
    ensures Xor(Xor(Xor(h, x), y), z) == Xor(Xor(Xor(x, y), z), h)
  {
    hide Xor;
    XorAssociates(h, x, y);
    XorAssociates(h, Xor(x, y), z);
    XorCommutes(h, Xor(Xor(x, y), z));
  }

  lemma MixedByte(c: bv16, b: bv8)
    ensures (b ^ (c & 0xFF) as bv8) as bv16 == (c ^ (b as bv16)) & 0xFF
    ensures c >> 8 == (c ^ (b as bv16)) >> 8
  {
  }

  lemma NibbleMix(m: bv8)
    ensures (m ^ (m << 4)) as bv16 == ((m as bv16) ^ ((m as bv16) << 4)) & 0xFF
  {
  }

  // The program's checksum is the definition's, for every message.
  method Crc(data: Text, extra: bv8) returns (c: bv16)
    ensures c == Bitwise(INITIAL, data + [extra])
  {
    hide ByteStep, TakeIn;
    c := INITIAL;
    var all := data + [extra];
    for i := 0 to |all|
      invariant c == Bitwise(INITIAL, all[..i])
    {
      ByteStepIsTakeIn(c, all[i]);
      assert all[..i + 1][..i] == all[..i];
      c := ByteStep(c, all[i]);
    }
    assert all[..|all|] == all;
  }

  // ---- what it detects ----

  function UnStep(r: bv16): bv16 {
    if r & 0x8000 != 0 then (Xor(r, POLYNOMIAL) << 1) | 1 else r << 1
  }

  lemma UnStepUndoes(c: bv16)
    ensures UnStep(BitStep(c)) == c
  {
  }

  // Eight divisions lose nothing.
  lemma Bits8Injective(c: bv16, d: bv16)
    requires Bits8(c) == Bits8(d)
    ensures c == d
  {
    hide BitStep, UnStep;
    Bits8Undone(c);
    Bits8Undone(d);
  }

  function UnBits8(r: bv16): bv16 {
    UnStep(UnStep(UnStep(UnStep(UnStep(UnStep(UnStep(UnStep(r))))))))
  }

  lemma Bits8Undone(c: bv16)
    ensures UnBits8(Bits8(c)) == c
  {
    hide BitStep, UnStep;
    UnStepUndoes(c);
    var c1 := BitStep(c);
    UnStepUndoes(c1);
    var c2 := BitStep(c1);
    UnStepUndoes(c2);
    var c3 := BitStep(c2);
    UnStepUndoes(c3);
    var c4 := BitStep(c3);
    UnStepUndoes(c4);
    var c5 := BitStep(c4);
    UnStepUndoes(c5);
    var c6 := BitStep(c5);
    UnStepUndoes(c6);
    UnStepUndoes(BitStep(c6));
  }

  // The high byte alone gives back the byte that was taken in.
  function FromHigh(h: bv16): bv16 {
    var t := h ^ (h >> 5);
    (t ^ (t << 4)) & 0xFF
  }

  lemma FromHighRecovers(l: bv16)
    requires l & 0xFF00 == 0
    ensures FromHigh(Table(l) >> 8) == l
  {
  }

  function High(r: bv16): bv16 {
    r >> 8
  }

  function Low(r: bv16): bv16 {
    r & 0xFF
  }

  // Two adjacent bytes taken in from the same register: the register afterwards
  // tells which they were.
  lemma PairInjective(c: bv16, p: bv8, q: bv8, p': bv8, q': bv8)
    requires TakeIn(TakeIn(c, p), q) == TakeIn(TakeIn(c, p'), q')
    ensures p == p' && q == q'
  {
    hide TakeIn, FromHigh, High, Low, Mix;
    var r, r' := TakeIn(c, p), TakeIn(c, p');
    HighByteFree(r, q, r', q');
    ByteRecovered(c, p);
    ByteRecovered(c, p');
    SameByte(c, p, p');
    SameRegister(r, q, q');
  }

  lemma HighByteFree(r: bv16, q: bv8, r': bv16, q': bv8)
    requires TakeIn(r, q) == TakeIn(r', q')
    ensures High(r) == High(r')
  {
    hide Bits8, Mix, High;
    Bits8Injective(Mix(r, q), Mix(r', q'));
    MixKeepsHigh(r, q);
    MixKeepsHigh(r', q');
  }

  lemma MixKeepsHigh(r: bv16, q: bv8)
    ensures High(Mix(r, q)) == High(r)
  {
  }

  // From one register, different bytes lead to different registers.
  lemma SameRegister(c: bv16, p: bv8, p': bv8)
    requires TakeIn(c, p) == TakeIn(c, p')
    ensures p == p'
  {
    hide Bits8, Mix;
    Bits8Injective(Mix(c, p), Mix(c, p'));
    SameByte(c, p, p');
  }

  // The same byte leads different registers to different registers.
  lemma SameTaken(c: bv16, d: bv16, p: bv8)
    requires TakeIn(c, p) == TakeIn(d, p)
    ensures c == d
  {
    hide Bits8, Mix;
    Bits8Injective(Mix(c, p), Mix(d, p));
    MixCancels(c, d, p);
  }

  lemma MixCancels(c: bv16, d: bv16, p: bv8)
    requires Mix(c, p) == Mix(d, p)
    ensures c == d
  {
  }

  lemma ByteRecovered(c: bv16, p: bv8)
    ensures FromHigh(High(TakeIn(c, p))) == Low(Mix(c, p))
  {
    hide Bits8, Table, FromHigh, Mix, Xor;
    var x := Mix(c, p);
    LowByteIsLow(x);
    Bits8Splits(x);
    TableIsBits8(x & 0xFF);
    FromHighRecovers(x & 0xFF);
    HighOfSplit(Table(x & 0xFF), x);
  }

  lemma HighOfSplit(t: bv16, x: bv16)
    ensures Xor(t, x >> 8) >> 8 == t >> 8
  {
  }

  lemma SameByte(c: bv16, p: bv8, p': bv8)
    requires Low(Mix(c, p)) == Low(Mix(c, p'))
    ensures p == p'
  {
  }

  lemma {:induction false} BitwiseOfConcat(c: bv16, x: Text, y: Text)
    ensures Bitwise(c, x + y) == Bitwise(Bitwise(c, x), y)
    decreases |y|
  {
    hide TakeIn;
    if y == [] {
      assert x + y == x;
    } else {
      BitwiseOfConcat(c, x, y[..|y| - 1]);
      assert (x + y)[..|x + y| - 1] == x + y[..|y| - 1];
    }
  }

  lemma {:induction false} SameSuffix(c: bv16, d: bv16, y: Text)
    requires Bitwise(c, y) == Bitwise(d, y)
    ensures c == d
    decreases |y|
  {
    hide TakeIn;
    if y != [] {
      var c', d' := Bitwise(c, y[..|y| - 1]), Bitwise(d, y[..|y| - 1]);
      SameTaken(c', d', y[|y| - 1]);
      SameSuffix(c, d, y[..|y| - 1]);
    }
  }

  // Any change confined to two adjacent bytes changes the checksum, wherever it
  // sits and however long the message is.
  lemma BurstDetected(before: Text, burst: Text, changed: Text, after: Text, extra: bv8)
    requires |burst| == |changed| <= 2
    requires Bitwise(INITIAL, before + burst + after + [extra]) == Bitwise(INITIAL, before + changed + after + [extra])
    ensures burst == changed
  {
    hide TakeIn, Bitwise;
    var tail := after + [extra];
    var c := Bitwise(INITIAL, before);
    assert before + burst + after + [extra] == (before + burst) + tail;
    assert before + changed + after + [extra] == (before + changed) + tail;
    BitwiseOfConcat(INITIAL, before + burst, tail);
    BitwiseOfConcat(INITIAL, before + changed, tail);
    BitwiseOfConcat(INITIAL, before, burst);
    BitwiseOfConcat(INITIAL, before, changed);
    SameSuffix(Bitwise(c, burst), Bitwise(c, changed), tail);
    if |burst| == 1 {
      OneByte(c, burst[0]);
      OneByte(c, changed[0]);
      assert burst == [burst[0]] && changed == [changed[0]];
      SameRegister(c, burst[0], changed[0]);
    } else if |burst| == 2 {
      TwoBytes(c, burst);
      TwoBytes(c, changed);
      PairInjective(c, burst[0], burst[1], changed[0], changed[1]);
    }
  }

  lemma OneByte(c: bv16, p: bv8)
    ensures Bitwise(c, [p]) == TakeIn(c, p)
  {
    assert [p][..0] == [];
  }

  lemma TwoBytes(c: bv16, w: Text)
    requires |w| == 2
    ensures Bitwise(c, w) == TakeIn(TakeIn(c, w[0]), w[1])
  {
    hide TakeIn;
    OneByte(c, w[0]);
    assert w[..1] == [w[0]];
  }

  // ---- frames ----

  function Resized(payload: Text, len: nat): (r: Text)
    ensures |r| == len
  {
    if |payload| >= len then payload[..len] else payload + seq(len - |payload|, _ => 0)
  }

  function ChecksumBytes(c: bv16): Text {
    [(c & 0xFF) as bv8, (c >> 8) as bv8]
  }

  const HEARTBEAT: bv8 := 0
  const GLOBAL_POSITION_INT: bv8 := 33
  const GPS_RAW_INT: bv8 := 24

  // The messages the feed generates.
  predicate Generated(id: bv8) {
    id == HEARTBEAT || id == GLOBAL_POSITION_INT || id == GPS_RAW_INT
  }

  datatype Kind = Kind(extra: bv8, len: bv8)

  // The sender's `crc_extra_and_len`.
  function KindOf(id: bv8): Kind
    requires Generated(id)
  {
    if id == HEARTBEAT then Kind(50, 9) else if id == GLOBAL_POSITION_INT then Kind(104, 28) else Kind(24, 52)
  }

  class Link {
    var seqNo: bv8

    constructor ()
      ensures seqNo == 0
    {
      seqNo := 0;
    }

    // One frame. The sequence number wraps at 256.
    method Frame(id: bv8, sysId: bv8, payload: Text) returns (out: Text)
      requires Generated(id)
      modifies this
      ensures seqNo == old(seqNo) + 1
      ensures out == FrameOf(id, old(seqNo), sysId, payload)
    {
      hide Bitwise, ChecksumBytes;
      var kind := KindOf(id);
      var head := [0xFE, kind.len, seqNo, sysId, 1, id];
      seqNo := seqNo + 1;
      var body := head + Resized(payload, kind.len as int);
      var c := Crc(body[1..], kind.extra);
      out := body + ChecksumBytes(c);
    }
  }

  function FrameOf(id: bv8, seqNo: bv8, sysId: bv8, payload: Text): Text
    requires Generated(id)
  {
    var body := [0xFE, KindOf(id).len, seqNo, sysId, 1, id] + Resized(payload, KindOf(id).len as int);
    body + ChecksumBytes(Bitwise(INITIAL, body[1..] + [KindOf(id).extra]))
  }

  // ---- the receiver ----

  // A message the receiver maps: its payload, zero-extended to the full length.
  datatype Verdict = Truncated | NotMavlink | Unmapped | BadCrc | Accepted(id: nat, payload: Text)

  datatype Entry = Entry(extra: bv8, len: nat)

  // The receiver's `crc_extra_and_len`.
  function Mapped(id: nat): Option<Entry> {
    if id == 0 then Some(Entry(50, 9))
    else if id == 1 then Some(Entry(124, 31))
    else if id == 24 then Some(Entry(24, 52))
    else if id == 30 then Some(Entry(39, 28))
    else if id == 33 then Some(Entry(104, 28))
    else if id == 74 then Some(Entry(20, 20))
    else if id == 147 then Some(Entry(154, 36))
    else None
  }

  // The header of a v1 or v2 frame, by its magic.
  function HeaderLen(frame: Text): nat
    requires frame != []
  {
    if frame[0] == 0xFE then 6 else 10
  }

  function MessageId(frame: Text): nat
    requires frame != [] && |frame| >= HeaderLen(frame)
  {
    if frame[0] == 0xFE then frame[5] as int
    else frame[7] as int + 256 * (frame[8] as int) + 0x1_0000 * (frame[9] as int)
  }

  function CrcStart(frame: Text): nat
    requires frame != [] && |frame| >= HeaderLen(frame)
  {
    HeaderLen(frame) + frame[1] as int
  }

  // The framing checks of `parse_frame`.
  function Parse(frame: Text): Verdict {
    if frame == [] then Truncated
    else if frame[0] != 0xFE && frame[0] != 0xFD then NotMavlink
    else if |frame| < HeaderLen(frame) || |frame| < CrcStart(frame) + 2 then Truncated
    else
      match Mapped(MessageId(frame))
      case None => Unmapped
      case Some(m) =>
        if ChecksumBytes(Bitwise(INITIAL, frame[1..CrcStart(frame)] + [m.extra]))
           != frame[CrcStart(frame)..CrcStart(frame) + 2]
        then BadCrc
        else Accepted(MessageId(frame), Resized(frame[HeaderLen(frame)..CrcStart(frame)], m.len))
  }

  // The receiver accepts every frame the feed sends, with its payload.
  lemma FrameAccepted(id: bv8, seqNo: bv8, sysId: bv8, payload: Text)
    requires Generated(id)
    ensures Parse(FrameOf(id, seqNo, sysId, payload))
            == Accepted(id as int, Resized(payload, KindOf(id).len as int))
  {
    hide Bitwise, ChecksumBytes, Resized;
    var kind := KindOf(id);
    var filled := Resized(payload, kind.len as int);
    var body := [0xFE, kind.len, seqNo, sysId, 1, id] + filled;
    var sum := ChecksumBytes(Bitwise(INITIAL, body[1..] + [kind.extra]));
    TwoLong(Bitwise(INITIAL, body[1..] + [kind.extra]));
    var f := body + sum;
    assert CrcStart(f) == |body| && f[1..|body|] == body[1..] && f[|body|..|body| + 2] == sum;
    assert f[6..|body|] == filled;
    assert Mapped(id as int) == Some(Entry(kind.extra, kind.len as int)) by { SameTable(id); }
    ResizedSame(filled);
  }

  lemma SameTable(id: bv8)
    requires Generated(id)
    ensures Mapped(id as int) == Some(Entry(KindOf(id).extra, KindOf(id).len as int))
  {
  }

  lemma ResizedSame(payload: Text)
    ensures Resized(payload, |payload|) == payload
  {
    assert payload[..|payload|] == payload;
  }

  lemma TwoLong(c: bv16)
    ensures |ChecksumBytes(c)| == 2
  {
  }

  lemma ChecksumInjective(c: bv16, d: bv16)
    requires ChecksumBytes(c) == ChecksumBytes(d)
    ensures c == d
  {
    assert ChecksumBytes(c)[0] == ChecksumBytes(d)[0] && ChecksumBytes(c)[1] == ChecksumBytes(d)[1];
    assert c == (c & 0xFF) ^ ((c >> 8) << 8);
    assert d == (d & 0xFF) ^ ((d >> 8) << 8);
    assert c & 0xFF == d & 0xFF;
    assert c >> 8 == d >> 8;
  }

  // A change confined to two adjacent bytes between the magic and the checksum
  // that leaves the length and the message id alone is always a checksum error.
  lemma CorruptFrameRejected(before: Text, burst: Text, changed: Text, after: Text)
    requires |burst| == |changed| <= 2 && burst != changed && before != []
    requires Parse(before + burst + after).Accepted?
    requires |before + burst| <= CrcStart(before + burst + after)
    requires (before + changed + after)[1] == (before + burst + after)[1]
    requires MessageId(before + changed + after) == MessageId(before + burst + after)
    ensures Parse(before + changed + after) == BadCrc
  {
    hide Bitwise, ChecksumBytes, Mapped, Resized, MessageId, CrcStart;
    var f, g := before + burst + after, before + changed + after;
    var n := CrcStart(f);
    assert g[0] == f[0] && CrcStart(g) == n by { SameStart(f, g); }
    var rest := after[..n - |before + burst|];
    var extra := Mapped(MessageId(f)).value.extra;
    CutAround(before, burst, after, n);
    CutAround(before, changed, after, n);
    if Parse(g) != BadCrc {
      ChecksumInjective(Bitwise(INITIAL, f[1..n] + [extra]), Bitwise(INITIAL, g[1..n] + [extra]));
      BurstDetected(before[1..], burst, changed, rest, extra);
    }
  }

  lemma SameStart(f: Text, g: Text)
    requires |f| == |g| > 1 && f[0] == g[0] && f[1] == g[1] && |f| >= HeaderLen(f)
    ensures CrcStart(g) == CrcStart(f)
  {
  }

  lemma CutAround(before: Text, middle: Text, after: Text, n: nat)
    requires before != [] && |before| + |middle| <= n && n + 2 <= |before + middle + after|
    ensures var f, k := before + middle + after, n - |before| - |middle|;
            f[1..n] == before[1..] + middle + after[..k] && f[n..n + 2] == after[k..k + 2]
  {
    var f, k, m := before + middle + after, n - |before| - |middle|, |before| + |middle|;
    assert f[1..|before|] == before[1..] && f[|before|..m] == middle && f[m..n] == after[..k];
    assert f[1..n] == f[1..|before|] + f[|before|..m] + f[m..n];
  }

  // ---- any change at all ----

  function XorByte(a: bv8, b: bv8): bv8 {
    a ^ b
  }

  function XorText(x: Text, y: Text): (r: Text)
    requires |x| == |y|
    ensures |r| == |x|
  {
    seq(|x|, i requires 0 <= i < |x| => XorByte(x[i], y[i]))
  }

  lemma BitStepLinear(c: bv16, d: bv16)
    ensures BitStep(Xor(c, d)) == Xor(BitStep(c), BitStep(d))
  {
    hide Xor, Half, Even;
    if Even(d) {
      BitStepSplits(c, d);
    } else if Even(c) {
      XorCommutes(c, d);
      BitStepSplits(d, c);
      XorCommutes(BitStep(c), BitStep(d));
    } else {
      OddAndOdd(c, d);
      XorHalves(c, d);
      XorCancels(Half(c), Half(d), POLYNOMIAL);
    }
  }

  lemma OddAndOdd(c: bv16, d: bv16)
    requires !Even(c) && !Even(d)
    ensures Even(Xor(c, d))
  {
  }

  lemma XorCancels(a: bv16, b: bv16, p: bv16)
    ensures Xor(Xor(a, p), Xor(b, p)) == Xor(a, b)
  {
    XorSelf(p, p);
    hide Xor;
    XorAssociates(a, p, Xor(b, p));
    XorCommutes(b, p);
    XorAssociates(p, p, b);
    XorZero(b);
  }

  lemma Bits8Linear(c: bv16, d: bv16)
    ensures Bits8(Xor(c, d)) == Xor(Bits8(c), Bits8(d))
  {
    hide BitStep, Xor;
    var c1, d1 := BitStep(c), BitStep(d);
    var c2, d2 := BitStep(c1), BitStep(d1);
    var c3, d3 := BitStep(c2), BitStep(d2);
    var c4, d4 := BitStep(c3), BitStep(d3);
    var c5, d5 := BitStep(c4), BitStep(d4);
    var c6, d6 := BitStep(c5), BitStep(d5);
    var c7, d7 := BitStep(c6), BitStep(d6);
    BitStepLinear(c, d);
    BitStepLinear(c1, d1);
    BitStepLinear(c2, d2);
    BitStepLinear(c3, d3);
    BitStepLinear(c4, d4);
    BitStepLinear(c5, d5);
    BitStepLinear(c6, d6);
    BitStepLinear(c7, d7);
  }

  lemma MixLinear(c: bv16, d: bv16, a: bv8, b: bv8)
    ensures Mix(Xor(c, d), XorByte(a, b)) == Xor(Mix(c, a), Mix(d, b))
  {
  }

  // The checksum is linear: the difference of two checksums is the checksum,
  // from zero, of the difference.
  lemma {:induction false} BitwiseLinear(c: bv16, d: bv16, x: Text, y: Text)
    requires |x| == |y|
    ensures Bitwise(Xor(c, d), XorText(x, y)) == Xor(Bitwise(c, x), Bitwise(d, y))
    decreases |x|
  {
    hide Bits8, Mix, Xor, XorByte;
    if x != [] {
      var n := |x| - 1;
      BitwiseLinear(c, d, x[..n], y[..n]);
      assert XorText(x, y)[..n] == XorText(x[..n], y[..n]);
      var p, q := Bitwise(c, x[..n]), Bitwise(d, y[..n]);
      MixLinear(p, q, x[n], y[n]);
      Bits8Linear(Mix(p, x[n]), Mix(q, y[n]));
    }
  }

  lemma XorSelf(c: bv16, d: bv16)
    ensures Xor(c, d) == 0 <==> c == d
  {
  }

  // What a change leaves in the register: zero exactly if it goes unnoticed.
  function Syndrome(x: Text, y: Text, extra: bv8, extra': bv8): bv16
    requires |x| == |y|
  {
    Bitwise(0, XorText(x, y) + [XorByte(extra, extra')])
  }

  lemma SyndromeTells(x: Text, y: Text, extra: bv8, extra': bv8)
    requires |x| == |y|
    ensures Syndrome(x, y, extra, extra') == 0
            <==> Bitwise(INITIAL, x + [extra]) == Bitwise(INITIAL, y + [extra'])
  {
    hide Bitwise, Xor, XorByte;
    assert XorText(x + [extra], y + [extra']) == XorText(x, y) + [XorByte(extra, extra')];
    BitwiseLinear(INITIAL, INITIAL, x + [extra], y + [extra']);
    XorSelf(INITIAL, INITIAL);
    XorSelf(Bitwise(INITIAL, x + [extra]), Bitwise(INITIAL, y + [extra']));
  }

  // The verdict on an accepted frame changed anyhow between magic and checksum,
  // its length byte left alone: passed over if its id is not mapped any more;
  // otherwise accepted exactly if the change, and the change of CRC_EXTRA that
  // comes with a changed id, leave nothing in the register.
  lemma CorruptionVerdict(f: Text, g: Text)
    requires Parse(f).Accepted? && |g| == |f| && g[0] == f[0] && g[1] == f[1]
    requires g[CrcStart(f)..] == f[CrcStart(f)..]
    ensures var n := CrcStart(f);
            var was, now := Mapped(MessageId(f)), Mapped(MessageId(g));
            && was.Some?
            && Parse(g)
               == if now.None? then Unmapped
                  else if Syndrome(f[1..n], g[1..n], was.value.extra, now.value.extra) == 0
                  then Accepted(MessageId(g), Resized(g[HeaderLen(g)..n], now.value.len))
                  else BadCrc
  {
    hide Bitwise, ChecksumBytes, Mapped, Resized, MessageId, Syndrome;
    var n := CrcStart(f);
    SameStart(f, g);
    SameSum(f, g, n);
    var was, now := Mapped(MessageId(f)), Mapped(MessageId(g));
    if now.Some? {
      var x, y := f[1..n] + [was.value.extra], g[1..n] + [now.value.extra];
      SyndromeTells(f[1..n], g[1..n], was.value.extra, now.value.extra);
      if ChecksumBytes(Bitwise(INITIAL, x)) == ChecksumBytes(Bitwise(INITIAL, y)) {
        ChecksumInjective(Bitwise(INITIAL, x), Bitwise(INITIAL, y));
      }
    }
  }

  lemma SameSum(f: Text, g: Text, n: nat)
    requires |f| == |g| && n + 2 <= |f| && f[n..] == g[n..]
    ensures f[n..n + 2] == g[n..n + 2]
  {
    assert f[n..][..2] == f[n..n + 2] && g[n..][..2] == g[n..n + 2];
  }

  // A length byte that claims more than there is: cut short, whatever the rest.
  lemma RaisedLengthIsTruncated(f: Text, g: Text)
    requires Parse(f).Accepted? && |f| == CrcStart(f) + 2
    requires |g| == |f| && g[0] == f[0] && g[1] > f[1]
    ensures Parse(g) == Truncated
  {
    hide Bitwise, ChecksumBytes, Mapped, Resized, MessageId;
    assert g[1] as int > f[1] as int;
  }

  // A change of the message id can pass: HEARTBEAT of two bytes into ATTITUDE,
  // with the component id next to it changed to match.
  lemma ChangedIdCanPass(seqNo: bv8, sysId: bv8, component: bv8, a: bv8, b: bv8)
    ensures var head, head' := [seqNo, sysId, component, 0], [seqNo, sysId, XorByte(component, 206), 30];
            var body, body' := [2] + head + [a, b], [2] + head' + [a, b];
            var sum := ChecksumBytes(Bitwise(INITIAL, body + [50]));
            && Parse([0xFE] + body + sum).Accepted?
            && Parse([0xFE] + body' + sum).Accepted?
            && Parse([0xFE] + body + sum).id == 0 && Parse([0xFE] + body' + sum).id == 30
  {
    hide Bitwise, ChecksumBytes, Resized, XorByte;
    var head, head' := [seqNo, sysId, component, 0], [seqNo, sysId, XorByte(component, 206), 30];
    var body, body' := [2] + head + [a, b], [2] + head' + [a, b];
    TwoLong(Bitwise(INITIAL, body + [50]));
    var sum := ChecksumBytes(Bitwise(INITIAL, body + [50]));
    var f, g := [0xFE] + body + sum, [0xFE] + body' + sum;
    assert CrcStart(f) == 8 && f[1..8] == body && f[8..10] == sum && f[8..] == sum;
    assert Parse(f).Accepted?;
    assert g[1..8] == body' && g[8..] == sum;
    assert MessageId(g) == 30;
    CorruptionVerdict(f, g);
    UnnoticedChange(body, body', component);
  }

  lemma UnnoticedChange(x: Text, y: Text, component: bv8)
    requires |x| == |y| == 7 && (forall i :: 0 <= i < 7 && i != 3 && i != 4 ==> x[i] == y[i])
    requires x[3] == component && y[3] == XorByte(component, 206) && x[4] == 0 && y[4] == 30
    ensures Syndrome(x, y, 50, 39) == 0
  {
    SameBytes();
    assert XorByte(component, XorByte(component, 206)) == 206;
    hide XorByte, Bitwise;
    assert XorByte(0, 30) == 30 && XorByte(50, 39) == 21 by { ChangedBytes(); }
    assert XorText(x, y) == [0, 0, 0, 206, 30, 0, 0];
    assert Bitwise(0, [0, 0, 0, 206, 30, 0, 0, 21]) == 0 by { UnnoticedRegister(); }
    assert XorText(x, y) + [XorByte(50, 39)] == [0, 0, 0, 206, 30, 0, 0, 21];
  }

  lemma SameBytes()
    ensures forall a: bv8 :: XorByte(a, a) == 0
  {
  }

  lemma ChangedBytes()
    ensures XorByte(0, 30) == 30 && XorByte(50, 39) == 21
  {
  }

  lemma UnnoticedRegister()
    ensures Bitwise(0, [0, 0, 0, 206, 30, 0, 0, 21]) == 0
  {
    hide TakeIn, Bitwise;
    RegisterSteps();
    NothingTaken();
    TakeOne([], [0], 0);
    TakeOne([0], [0, 0], 0);
    TakeOne([0, 0], [0, 0, 0], 0);
    TakeOne([0, 0, 0], [0, 0, 0, 206], 206);
    TakeOne([0, 0, 0, 206], [0, 0, 0, 206, 30], 30);
    TakeOne([0, 0, 0, 206, 30], [0, 0, 0, 206, 30, 0], 0);
    TakeOne([0, 0, 0, 206, 30, 0], [0, 0, 0, 206, 30, 0, 0], 0);
    TakeOne([0, 0, 0, 206, 30, 0, 0], [0, 0, 0, 206, 30, 0, 0, 21], 21);
  }

  lemma NothingTaken()
    ensures Bitwise(0, []) == 0
  {
  }

  lemma TakeOne(x: Text, y: Text, b: bv8)
    requires y == x + [b]
    ensures Bitwise(0, y) == TakeIn(Bitwise(0, x), b)
  {
    assert y[..|x|] == x;
  }

  lemma RegisterSteps()
    ensures TakeIn(0, 0) == 0 && TakeIn(0, 206) == 12146 && TakeIn(12146, 30) == 43333
    ensures TakeIn(43333, 0) == 5376 && TakeIn(5376, 0) == 21 && TakeIn(21, 21) == 0
  {
    hide TakeIn;
    ByteStepIsTakeIn(0, 0);
    ByteStepIsTakeIn(0, 206);
    ByteStepIsTakeIn(12146, 30);
    ByteStepIsTakeIn(43333, 0);
    ByteStepIsTakeIn(5376, 0);
    ByteStepIsTakeIn(21, 21);
  }
}
