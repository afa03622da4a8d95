// From bits to sentences and back: the synthetic feed's bit writer, armouring
// and printing are undone by the receiver's checks, reassembly and dearmouring.
module AisRoundTrip {
  import opened Bytes
  import opened Ascii
  import opened AisReassembly
  import opened AisText

  // ---- reassembly of a printed payload ----

  function Flatten(chunks: seq<Text>): Text {
    if chunks == [] then [] else Flatten(chunks[..|chunks| - 1]) + chunks[|chunks| - 1]
  }

  lemma {:induction false} FlattenCons(c: Text, rest: seq<Text>)
    ensures Flatten([c] + rest) == c + Flatten(rest)
    decreases |rest|
  {
    var s := [c] + rest;
    if rest == [] {
      assert s[..0] == [];
    } else {
      FlattenCons(c, rest[..|rest| - 1]);
      assert s[..|s| - 1] == [c] + rest[..|rest| - 1];
    }
  }

  lemma {:induction false} ChunksOfPayload(payload: Text)
    requires AllPlain(payload)
    ensures Flatten(Chunks(payload)) == payload
    ensures payload != [] ==> Chunks(payload) != []
    ensures forall c :: c in Chunks(payload) ==> AllPlain(c)
    ensures |Chunks(payload)| == (|payload| + MAX_CHARS - 1) / MAX_CHARS
    decreases |payload|
  {
    if |payload| <= MAX_CHARS {
      if payload != [] {
        assert Flatten([payload]) == Flatten([payload][..0]) + payload == payload;
      }
    } else {
      var first, rest := payload[..MAX_CHARS], payload[MAX_CHARS..];
      assert payload == first + rest;
      ChunksOfPayload(rest);
      FlattenCons(first, Chunks(rest));
    }
  }

  // What a receiver makes of frames and the clock at each: the accepted ones, at
  // their places; a frame the parser rejects or ignores arrives nowhere.
  function Arrivals(frames: seq<Text>, clock: seq<nat>): seq<Arrival>
    requires |frames| == |clock|
  {
    if frames == [] then []
    else
      var n := |frames| - 1;
      var front := Arrivals(frames[..n], clock[..n]);
      match ParseSentence(frames[n])
      case Sentence(f) => front + [Arrival(n, clock[n], f)]
      case _ => front
  }

  // A clock that does not go back and stays within the ten seconds.
  ghost predicate InTime(clock: seq<nat>) {
    && (forall i, j :: 0 <= i < j < |clock| ==> clock[i] <= clock[j])
    && (clock != [] ==> clock[|clock| - 1] < clock[0] + TTL)
  }

  lemma {:induction false} AllArrive(frames: seq<Text>, clock: seq<nat>)
    requires |frames| == |clock| && forall i :: 0 <= i < |frames| ==> ParseSentence(frames[i]).Sentence?
    ensures |Arrivals(frames, clock)| == |frames|
    ensures forall i :: 0 <= i < |frames| ==>
              Arrivals(frames, clock)[i] == Arrival(i, clock[i], ParseSentence(frames[i]).frag)
    decreases |frames|
  {
    hide ParseSentence;
    if frames != [] {
      AllArrive(frames[..|frames| - 1], clock[..|frames| - 1]);
    }
  }

  // The i-th fragment of chunks c.
  ghost predicate FragmentOf(a: Arrival, k: Key, c: seq<Text>, i: nat, fill: nat) {
    && i < |c|
    && a.frag.key == k && a.frag.count == |c| && a.frag.num == i + 1 && a.frag.payload == c[i]
    && a.frag.fill == if i + 1 == |c| then fill else 0
  }

  ghost predicate OneMessage(ms: seq<Message>, k: Key, payload: Text, fill: nat) {
    |ms| == 1 && ms[0].key == k && ms[0].payload == payload && ms[0].fill == fill
  }

  // With the first i fragments in the table, the rest complete the message.
  lemma {:induction false} HearRest(t: Table, s: seq<Arrival>, i: nat, k: Key, c: seq<Text>, fill: nat, e: Pending)
    requires 1 <= i < |s| == |c| && Ordered(s) && s[|s| - 1].now < s[0].now + TTL
    requires forall j :: 0 <= j < |s| ==> FragmentOf(s[j], k, c, j, fill)
    requires Live(t, k, s[i].now) == Some(e)
    requires e.total == |c| && |e.raws| == i && e.firstSeen == s[0].now && e.payload == Flatten(c[..i])
    ensures OneMessage(Messages(t, s[i..]), k, Flatten(c), fill)
    decreases |s| - i
  {
    hide Accept, Flatten;
    var a := s[i];
    assert FragmentOf(a, k, c, i, fill) && a in s;
    AcceptIsKeyStep(t, a, k);
    FlattenNext(c, i);
    var t' := Accept(t, a).table;
    assert s[i..][0] == a && s[i..][1..] == s[i + 1..];
    if i + 1 < |s| {
      HearRest(t', s, i + 1, k, c, fill, e.With(a));
    } else {
      assert s[i + 1..] == [];
      assert c[..|c|] == c;
    }
  }

  lemma FlattenNext(c: seq<Text>, i: nat)
    requires i < |c|
    ensures Flatten(c[..i + 1]) == Flatten(c[..i]) + c[i]
  {
    assert c[..i + 1][..i] == c[..i];
  }

  // From any reassembly state, the printed sentences of a payload, heard in
  // order and in time: every one is accepted, and together they make exactly one
  // message, that payload and fill.
  lemma PrintedIsHeard(t: Table, clock: seq<nat>, payload: Text, fill: nat, seqId: nat, channel: Byte)
    requires payload != [] && AllPlain(payload) && |payload| <= 255 * MAX_CHARS
    requires fill <= 255 && seqId <= 255 && Plain(channel)
    requires |clock| == |Sentences(payload, fill, seqId, channel)| && InTime(clock)
    ensures var frames := Sentences(payload, fill, seqId, channel);
            && (forall i :: 0 <= i < |frames| ==> ParseSentence(frames[i]).Sentence?)
            && OneMessage(Messages(t, Arrivals(frames, clock)), PrintedKey(|frames|, seqId, channel), payload, fill)
  {
    hide Accept, Print, ParseSentence, Flatten, Chunks, Arrivals, Messages, OneMessage;
    var c := Chunks(payload);
    var frames := Sentences(payload, fill, seqId, channel);
    ChunksOfPayload(payload);
    assert |frames| == |c| <= 255;
    var k := PrintedKey(|c|, seqId, channel);
    forall i | 0 <= i < |frames|
      ensures ParseSentence(frames[i]).Sentence?
      ensures FragmentOf(Arrival(i, clock[i], ParseSentence(frames[i]).frag), k, c, i, fill)
    {
      assert c[i] in c;
      ParseOfPrint(|c|, i, seqId, channel, c[i], fill);
    }
    AllArrive(frames, clock);
    var s := Arrivals(frames, clock);
    assert forall i :: 0 <= i < |s| ==> FragmentOf(s[i], k, c, i, fill);
    assert Ordered(s);
    HearFirst(t, s, k, c, fill);
  }

  lemma HearFirst(t: Table, s: seq<Arrival>, k: Key, c: seq<Text>, fill: nat)
    requires 1 <= |s| == |c| && Ordered(s) && s[|s| - 1].now < s[0].now + TTL
    requires forall j :: 0 <= j < |s| ==> FragmentOf(s[j], k, c, j, fill)
    ensures OneMessage(Messages(t, s), k, Flatten(c), fill)
  {
    hide Accept, Flatten;
    var a := s[0];
    assert FragmentOf(a, k, c, 0, fill) && a in s;
    AcceptIsKeyStep(t, a, k);
    FlattenOne(c);
    if |s| == 1 {
      assert s[1..] == [] && c == c[..1];
    } else {
      HearRest(Accept(t, a).table, s, 1, k, c, fill, Pending(|c|, [], [], a.now, []).With(a));
    }
  }

  lemma FlattenOne(c: seq<Text>)
    requires c != []
    ensures Flatten(c[..1]) == c[0]
  {
    assert c[..1][..0] == [];
  }

  // Over 255 fragments the format cannot carry the counts: no sentence parses.
  lemma TooManyFragments(payload: Text, fill: nat, seqId: nat, channel: Byte, i: nat)
    requires AllPlain(payload) && |payload| > 255 * MAX_CHARS
    requires fill <= 255 && seqId <= 255 && Plain(channel)
    requires i < |Sentences(payload, fill, seqId, channel)|
    ensures ParseSentence(Sentences(payload, fill, seqId, channel)[i]) == Rejected(BadFields)
  {
    hide Print, ParseSentence, Chunks, Flatten;
    var c := Chunks(payload);
    ChunksOfPayload(payload);
    assert c[i] in c;
    ParseOfPrint(|c|, i, seqId, channel, c[i], fill);
  }

  lemma {:induction false} NoneArrive(frames: seq<Text>, clock: seq<nat>)
    requires |frames| == |clock| && forall i :: 0 <= i < |frames| ==> ParseSentence(frames[i]).Rejected?
    ensures Arrivals(frames, clock) == []
    decreases |frames|
  {
    hide ParseSentence;
    if frames != [] {
      NoneArrive(frames[..|frames| - 1], clock[..|frames| - 1]);
    }
  }

  // So a payload is heard exactly when it takes at most 255 fragments.
  lemma PrintedIsHeardIff(t: Table, clock: seq<nat>, payload: Text, fill: nat, seqId: nat, channel: Byte)
    requires payload != [] && AllPlain(payload) && fill <= 255 && seqId <= 255 && Plain(channel)
    requires |clock| == |Sentences(payload, fill, seqId, channel)| && InTime(clock)
    ensures var frames := Sentences(payload, fill, seqId, channel);
            OneMessage(Messages(t, Arrivals(frames, clock)), PrintedKey(|frames|, seqId, channel), payload, fill)
            <==> |payload| <= 255 * MAX_CHARS
  {
    hide Sentences, ParseSentence, Arrivals, InTime;
    var frames := Sentences(payload, fill, seqId, channel);
    if |payload| <= 255 * MAX_CHARS {
      PrintedIsHeard(t, clock, payload, fill, seqId, channel);
    } else {
      forall i | 0 <= i < |frames|
        ensures ParseSentence(frames[i]).Rejected?
      {
        TooManyFragments(payload, fill, seqId, channel, i);
      }
      NoneArrive(frames, clock);
    }
  }

  // ---- among other traffic ----

  predicate IsOfKey(frame: Text, k: Key) {
    var p := ParseSentence(frame);
    p.Sentence? && p.frag.key == k
  }

  function Flags(frames: seq<Text>, k: Key): (r: seq<bool>)
    ensures |r| == |frames|
  {
    seq(|frames|, i requires 0 <= i < |frames| => IsOfKey(frames[i], k))
  }

  function PlacesIn(flags: seq<bool>): (r: seq<nat>)
    ensures forall i :: 0 <= i < |r| ==> r[i] < |flags|
  {
    if flags == [] then []
    else
      var n := |flags| - 1;
      PlacesIn(flags[..n]) + if flags[n] then [n] else []
  }

  // The places of a key's sentences in a stream of frames.
  function PlacesOf(frames: seq<Text>, k: Key): (r: seq<nat>)
    ensures forall i :: 0 <= i < |r| ==> r[i] < |frames|
  {
    PlacesIn(Flags(frames, k))
  }

  lemma NoPlaces(k: Key)
    ensures PlacesOf([], k) == []
  {
  }

  lemma PlacesOfLast(frames: seq<Text>, k: Key)
    requires frames != []
    ensures var n := |frames| - 1;
            PlacesOf(frames, k) == PlacesOf(frames[..n], k) + if IsOfKey(frames[n], k) then [n] else []
  {
    hide IsOfKey;
    var n := |frames| - 1;
    assert Flags(frames, k)[..n] == Flags(frames[..n], k);
  }

  ghost predicate ClockRuns(clock: seq<nat>) {
    forall i, j :: 0 <= i < j < |clock| ==> clock[i] <= clock[j]
  }

  lemma ParsedIsNumbered(frame: Text)
    requires ParseSentence(frame).Sentence?
    ensures 1 <= ParseSentence(frame).frag.num <= ParseSentence(frame).frag.count
  {
    hide ValidUtf8, Trim, StripTagBlock, ChecksumOk, Split, ParseU8, EndsWith, Find;
  }

  // Any frames make an ordered stream of arrivals.
  lemma {:induction false} ArrivalsOrdered(frames: seq<Text>, clock: seq<nat>)
    requires |frames| == |clock| && ClockRuns(clock)
    ensures Ordered(Arrivals(frames, clock))
    ensures forall a :: a in Arrivals(frames, clock) ==> a.pos < |frames| && a.now == clock[a.pos]
    decreases |frames|
  {
    hide ParseSentence;
    if frames != [] {
      var n := |frames| - 1;
      ArrivalsOrdered(frames[..n], clock[..n]);
      if ParseSentence(frames[n]).Sentence? {
        ParsedIsNumbered(frames[n]);
        var front, a := Arrivals(frames[..n], clock[..n]), Arrival(n, clock[n], ParseSentence(frames[n]).frag);
        OrderedWithLast(front, a);
      }
    }
  }

  lemma OrderedWithLast(s: seq<Arrival>, a: Arrival)
    requires Ordered(s) && 1 <= a.frag.num <= a.frag.count
    requires forall b :: b in s ==> b.pos < a.pos && b.now <= a.now
    ensures Ordered(s + [a])
  {
    assert forall i :: 0 <= i < |s| ==> s[i] in s;
  }

  lemma {:induction false} OnlyKeyOfLast(s: seq<Arrival>, a: Arrival, k: Key)
    ensures OnlyKey(s + [a], k) == OnlyKey(s, k) + if a.frag.key == k then [a] else []
    decreases |s|
  {
    if s == [] {
      assert s + [a] == [a] && [a][1..] == [];
    } else {
      assert (s + [a])[0] == s[0] && (s + [a])[1..] == s[1..] + [a];
      OnlyKeyOfLast(s[1..], a, k);
    }
  }

  // The arrivals of a key are its sentences, at their places.
  lemma {:induction false} ArrivalsOfKey(frames: seq<Text>, clock: seq<nat>, k: Key)
    requires |frames| == |clock|
    ensures var own, places := OnlyKey(Arrivals(frames, clock), k), PlacesOf(frames, k);
            && |own| == |places|
            && forall i :: 0 <= i < |own| ==>
                 && IsOfKey(frames[places[i]], k)
                 && own[i] == Arrival(places[i], clock[places[i]], ParseSentence(frames[places[i]]).frag)
    decreases |frames|
  {
    hide ParseSentence, PlacesOf;
    if frames == [] {
      NoPlaces(k);
    } else {
      var n := |frames| - 1;
      ArrivalsOfKey(frames[..n], clock[..n], k);
      PlacesOfLast(frames, k);
      if ParseSentence(frames[n]).Sentence? {
        OnlyKeyOfLast(Arrivals(frames[..n], clock[..n]), Arrival(n, clock[n], ParseSentence(frames[n]).frag), k);
      }
    }
  }

  lemma {:induction false} OnlyKeyOrdered(s: seq<Arrival>, k: Key)
    requires Ordered(s)
    ensures Ordered(OnlyKey(s, k)) && forall a :: a in OnlyKey(s, k) ==> a in s
    decreases |s|
  {
    if s != [] {
      OrderedTail(s);
      OnlyKeyOrdered(s[1..], k);
      var rest := OnlyKey(s[1..], k);
      assert forall a :: a in rest ==> a in s[1..];
      if s[0].frag.key == k {
        OrderedWithFirst(s, rest);
      }
    }
  }

  lemma OrderedWithFirst(s: seq<Arrival>, rest: seq<Arrival>)
    requires s != [] && Ordered(s) && Ordered(rest) && forall a :: a in rest ==> a in s[1..]
    ensures Ordered([s[0]] + rest)
  {
    assert s[0] in s;
    forall i | 0 <= i < |rest|
      ensures s[0].pos < rest[i].pos && s[0].now <= rest[i].now
    {
      assert rest[i] in rest;
      var j :| 0 <= j < |s[1..]| && s[1..][j] == rest[i];
      assert s[j + 1] == rest[i];
    }
  }

  // The printed sentences of a payload are heard as that one message in any
  // stream: whatever else is in it, accepted or not, whatever the receiver was
  // reassembling, as long as the sentences of their key are the printed ones in
  // order and in time.
  lemma HeardAmongOthers(t: Table, frames: seq<Text>, clock: seq<nat>, payload: Text, fill: nat, seqId: nat,
                         channel: Byte)
    requires payload != [] && AllPlain(payload) && |payload| <= 255 * MAX_CHARS
    requires fill <= 255 && seqId <= 255 && Plain(channel)
    requires |frames| == |clock| && ClockRuns(clock)
    requires var printed := Sentences(payload, fill, seqId, channel);
             var places := PlacesOf(frames, PrintedKey(|printed|, seqId, channel));
             && |places| == |printed|
             && (forall i :: 0 <= i < |places| ==> frames[places[i]] == printed[i])
             && (places != [] ==> clock[places[|places| - 1]] < clock[places[0]] + TTL)
    ensures var k := PrintedKey(|Sentences(payload, fill, seqId, channel)|, seqId, channel);
            OneMessage(ForKey(Messages(t, Arrivals(frames, clock)), k), k, payload, fill)
  {
    hide Accept, Print, ParseSentence, Flatten, Chunks, Arrivals, Messages, OneMessage, PlacesOf, OnlyKey, ForKey;
    var c := Chunks(payload);
    var printed := Sentences(payload, fill, seqId, channel);
    ChunksOfPayload(payload);
    var k := PrintedKey(|c|, seqId, channel);
    var s := Arrivals(frames, clock);
    var own := OnlyKey(s, k);
    ArrivalsOrdered(frames, clock);
    ArrivalsOfKey(frames, clock, k);
    OnlyKeyOrdered(s, k);
    forall i | 0 <= i < |own|
      ensures FragmentOf(own[i], k, c, i, fill)
    {
      assert c[i] in c;
      ParseOfPrint(|c|, i, seqId, channel, c[i], fill);
    }
    HearFirst(t, own, k, c, fill);
    NonInterferenceFrom(t, t, s, k, 0);
  }

  // ---- bits ----

  function Armour(six: nat): (c: Byte)
    requires six < 64
    ensures Plain(c) && Dearmour(c) == Some(six)
  {
    if six + 48 > 87 then six + 56 else six + 48
  }

  function Dearmour(c: Byte): Option<nat> {
    var v := if c - 48 > 40 then c - 56 else c - 48;
    if 0 <= v <= 63 then Some(v) else None
  }

  // `Bits::from_payload`: the six-bit values, or None at a bad character.
  function Sixes(payload: Text): Option<seq<nat>> {
    if payload == [] then Some([])
    else
      match (Sixes(payload[..|payload| - 1]), Dearmour(payload[|payload| - 1]))
      case (Some(s), Some(v)) => Some(s + [v])
      case _ => None
  }

  function ValidBits(six: seq<nat>, fill: nat): nat {
    if fill <= 6 * |six| then 6 * |six| - fill else 0
  }

  function Shift(v: nat, n: nat): nat {
    if n == 0 then v else Shift(v / 2, n - 1)
  }

  // One bit of the payload, most significant first.
  function ReadBit(six: seq<nat>, i: nat): bool
    requires i / 6 < |six|
  {
    Shift(six[i / 6], 5 - i % 6) % 2 == 1
  }

  function BitValue(bits: seq<bool>, i: nat): nat {
    if i < |bits| && bits[i] then 1 else 0
  }

  // The number n bits from i on spell; bits past the end are zero.
  function Spelled(bits: seq<bool>, i: nat, n: nat): nat {
    if n == 0 then 0 else 2 * Spelled(bits, i, n - 1) + BitValue(bits, i + n - 1)
  }

  function Groups(bits: seq<bool>): nat {
    (|bits| + 5) / 6
  }

  // Character g of the payload carries bits 6g to 6g + 5.
  predicate Spells(out: Text, bits: seq<bool>) {
    forall g :: 0 <= g < |out| ==> Spelled(bits, 6 * g, 6) < 64 && out[g] == Armour(Spelled(bits, 6 * g, 6))
  }

  lemma SpelledFits(bits: seq<bool>, i: nat)
    ensures Spelled(bits, i, 6) < 64
  {
    assert Spelled(bits, i, 1) <= 1;
    assert Spelled(bits, i, 2) <= 3;
    assert Spelled(bits, i, 3) <= 7;
    assert Spelled(bits, i, 4) <= 15;
    assert Spelled(bits, i, 5) <= 31;
  }

  lemma {:induction false} ShiftSpelled(bits: seq<bool>, i: nat, n: nat, m: nat)
    requires n <= m
    ensures Shift(Spelled(bits, i, m), m - n) == Spelled(bits, i, n)
    decreases m
  {
    if n < m {
      ShiftSpelled(bits, i, n, m - 1);
      assert Spelled(bits, i, m) / 2 == Spelled(bits, i, m - 1);
    }
  }

  // `armoured`: the payload characters and the bits that pad the last one.
  method Armoured(bits: seq<bool>) returns (out: Text, fill: nat)
    ensures |out| == Groups(bits) && fill <= 5
    ensures 6 * |out| - fill == |bits|
    ensures Spells(out, bits)
  {
    fill := (6 - |bits| % 6) % 6;
    out := [];
    var i := 0;
    while i < |bits|
      invariant i == 6 * |out| && |out| <= Groups(bits)
      invariant Spells(out, bits)
    {
      hide Armour;
      var six := 0;
      for k := 0 to 6
        invariant six == Spelled(bits, i, k)
      {
        six := 2 * six + (if i + k < |bits| && bits[i + k] then 1 else 0);
      }
      SpelledFits(bits, i);
      out := out + [Armour(six)];
      i := i + 6;
    }
  }

  // Dearmouring gives back the bits that were written, and how many.
  lemma {:induction false} SixesOfArmoured(bits: seq<bool>, out: Text)
    requires Spells(out, bits)
    ensures Sixes(out).Some? && |Sixes(out).value| == |out|
    ensures forall g :: 0 <= g < |out| ==> Sixes(out).value[g] == Spelled(bits, 6 * g, 6)
    ensures AllPlain(out)
    decreases |out|
  {
    hide Spelled;
    if out != [] {
      SixesOfArmoured(bits, out[..|out| - 1]);
    }
  }

  lemma BitsReadBack(bits: seq<bool>, out: Text, fill: nat, i: nat)
    requires |out| == Groups(bits) && 6 * |out| - fill == |bits| && i < |bits|
    requires Spells(out, bits)
    ensures Sixes(out).Some? && ValidBits(Sixes(out).value, fill) == |bits|
    ensures i / 6 < |Sixes(out).value| && ReadBit(Sixes(out).value, i) == bits[i]
  {
    SixesOfArmoured(bits, out);
    hide Sixes, Spelled, Armour;
    var g, k := i / 6, i % 6;
    assert i == 6 * g + k;
    ShiftSpelled(bits, 6 * g, k + 1, 6);
    SpelledLast(bits, 6 * g, k);
  }

  lemma SpelledLast(bits: seq<bool>, i: nat, k: nat)
    ensures Spelled(bits, i, k + 1) % 2 == BitValue(bits, i + k)
  {
  }

  // End to end, for every message that fits 255 fragments: whatever the
  // receiver was reassembling, it accepts every sentence, and the bits it decodes
  // are the bits written.
  lemma BitsSurvive(bits: seq<bool>, out: Text, fill: nat, t: Table, clock: seq<nat>, seqId: nat, channel: Byte)
    requires 0 < |bits| <= 6 * 255 * MAX_CHARS
    requires |out| == Groups(bits) && fill <= 5 && 6 * |out| - fill == |bits|
    requires Spells(out, bits)
    requires seqId <= 255 && Plain(channel)
    requires |clock| == |Sentences(out, fill, seqId, channel)| && InTime(clock)
    ensures var frames := Sentences(out, fill, seqId, channel);
            var ms := Messages(t, Arrivals(frames, clock));
            && (forall i :: 0 <= i < |frames| ==> ParseSentence(frames[i]).Sentence?)
            && |ms| == 1 && Sixes(ms[0].payload).Some?
            && var six := Sixes(ms[0].payload).value;
               && ValidBits(six, ms[0].fill) == |bits|
               && forall i :: 0 <= i < |bits| ==> i / 6 < |six| && ReadBit(six, i) == bits[i]
  {
    hide Messages, Arrivals, InTime, Sentences, ParseSentence, Sixes, ReadBit, Spelled, Armour;
    SixesOfArmoured(bits, out);
    PrintedIsHeard(t, clock, out, fill, seqId, channel);
    forall i | 0 <= i < |bits|
      ensures i / 6 < |Sixes(out).value| && ReadBit(Sixes(out).value, i) == bits[i]
    {
      BitsReadBack(bits, out, fill, i);
    }
  }
}
