// Reassembly of multi-fragment AIS sentences: one map of partial messages keyed
// by talker, channel and sequence id, shared by every stream the receiver hears.
module AisReassembly {
  import opened Bytes
  import opened Ascii

  datatype Key = Key(talker: Text, channel: Text, seqId: nat)

  // One sentence that passed the checks of its shape: 1 <= num <= count.
  datatype Fragment = Fragment(key: Key, count: nat, num: nat, payload: Text, fill: nat, raw: Text)

  // A fragment, the clock when it arrived (nanoseconds) and its place in the
  // stream.
  datatype Arrival = Arrival(pos: nat, now: nat, frag: Fragment)

  // REASM_TTL, ten seconds.
  const TTL := 10_000_000_000

  // A partial message; `parts` notes the places of the fragments it is made of.
  datatype Pending = Pending(total: nat, payload: Text, raws: seq<Text>, firstSeen: nat, parts: seq<nat>) {
    predicate Continues(count: nat, num: nat) {
      total == count && |raws| + 1 == num
    }

    predicate Fresh(now: nat) {
      (if now >= firstSeen then now - firstSeen else 0) < TTL
    }

    function With(a: Arrival): Pending {
      Pending(total, payload + a.frag.payload, raws + [a.frag.raw], firstSeen, parts + [a.pos])
    }
  }

  datatype Message = Message(key: Key, payload: Text, fill: nat, raws: seq<Text>, parts: seq<nat>)

  type Table = map<Key, Pending>

  datatype Outcome = Outcome(table: Table, msg: Option<Message>)

  function Complete(e: Pending, a: Arrival): Message {
    Message(a.frag.key, e.payload, a.frag.fill, e.raws, e.parts)
  }

  function Retain(t: Table, now: nat): Table {
    map k | k in t && t[k].Fresh(now) :: t[k]
  }

  // The reassembly part of `parse_sentence`.
  function Accept(t: Table, a: Arrival): Outcome {
    var f := a.frag;
    if f.count == 1 then
      Outcome(t, Some(Message(f.key, f.payload, f.fill, [f.raw], [a.pos])))
    else
      var kept := Retain(t, a.now);
      var rest := if f.num == 1 then kept else kept - {f.key};
      if f.num != 1 && !(f.key in kept && kept[f.key].Continues(f.count, f.num)) then
        Outcome(rest, None)
      else
        var base := if f.num == 1 then Pending(f.count, [], [], a.now, []) else kept[f.key];
        var e := base.With(a);
        if f.num < f.count then Outcome(rest[f.key := e], None)
        else Outcome(rest, Some(Complete(e, a)))
  }

  // The parser's mutable table, in the source's steps.
  class Reassembler {
    var pending: Table

    constructor ()
      ensures pending == map[]
    {
      pending := map[];
    }

    method Take(a: Arrival) returns (msg: Option<Message>)
      modifies this
      ensures Outcome(pending, msg) == Accept(old(pending), a)
    {
      var f := a.frag;
      if f.count == 1 {
        return Some(Message(f.key, f.payload, f.fill, [f.raw], [a.pos]));
      }
      pending := Retain(pending, a.now);
      var entry := Pending(f.count, [], [], a.now, []);
      if f.num != 1 {
        var found := if f.key in pending then Some(pending[f.key]) else None;
        pending := pending - {f.key};
        if found.None? || !found.value.Continues(f.count, f.num) {
          return None;
        }
        entry := found.value;
      }
      entry := entry.With(a);
      if f.num < f.count {
        pending := pending[f.key := entry];
        return None;
      }
      return Some(Complete(entry, a));
    }
  }

  // ---- streams ----

  ghost predicate Ordered(s: seq<Arrival>) {
    && (forall i, j :: 0 <= i < j < |s| ==> s[i].pos < s[j].pos)
    && (forall i, j :: 0 <= i < j < |s| ==> s[i].now <= s[j].now)
    && (forall a :: a in s ==> 1 <= a.frag.num <= a.frag.count)
  }

  function Messages(t: Table, s: seq<Arrival>): seq<Message>
    decreases |s|
  {
    if s == [] then []
    else
      var o := Accept(t, s[0]);
      (if o.msg.Some? then [o.msg.value] else []) + Messages(o.table, s[1..])
  }

  function OnlyKey(s: seq<Arrival>, k: Key): seq<Arrival> {
    if s == [] then []
    else (if s[0].frag.key == k then [s[0]] else []) + OnlyKey(s[1..], k)
  }

  function ForKey(ms: seq<Message>, k: Key): seq<Message> {
    if ms == [] then []
    else (if ms[0].key == k then [ms[0]] else []) + ForKey(ms[1..], k)
  }

  // ---- one key at a time ----

  // The partial message of a key that is still alive at a time.
  function Live(t: Table, k: Key, now: nat): Option<Pending> {
    if k in t && t[k].Fresh(now) then Some(t[k]) else None
  }

  datatype KeyOutcome = KeyOutcome(live: Option<Pending>, msg: Option<Message>)

  // Reassembly as one transmitter sees it: no table, no other keys, no sweeping.
  function KeyStep(live: Option<Pending>, a: Arrival): KeyOutcome {
    var f := a.frag;
    if f.count == 1 then
      KeyOutcome(live, Some(Message(f.key, f.payload, f.fill, [f.raw], [a.pos])))
    else
      var base := if f.num == 1 then Some(Pending(f.count, [], [], a.now, []))
                  else if live.Some? && live.value.Continues(f.count, f.num) then live
                  else None;
      if base.None? then KeyOutcome(None, None)
      else
        var e := base.value.With(a);
        if f.num < f.count then KeyOutcome(Some(e), None)
        else KeyOutcome(None, Some(Complete(e, a)))
  }

  // The shared table does for each key what the key's own automaton does, and
  // leaves every other key alone.
  lemma AcceptIsKeyStep(t: Table, a: Arrival, k: Key)
    requires 1 <= a.frag.num <= a.frag.count
    ensures var o, s := Accept(t, a), KeyStep(Live(t, a.frag.key, a.now), a);
            && o.msg == s.msg
            && (o.msg.Some? ==> o.msg.value.key == a.frag.key)
            && Live(o.table, k, a.now) == if k == a.frag.key then s.live else Live(t, k, a.now)
  {
  }

  // Two tables that agree on a key's live entry now agree on it later.
  lemma LiveLater(t: Table, u: Table, k: Key, now: nat, later: nat)
    requires now <= later && Live(t, k, now) == Live(u, k, now)
    ensures Live(t, k, later) == Live(u, k, later)
  {
  }

  lemma {:induction false} NonInterferenceFrom(t: Table, u: Table, s: seq<Arrival>, k: Key, now: nat)
    requires Ordered(s) && (s != [] ==> now <= s[0].now)
    requires Live(t, k, now) == Live(u, k, now)
    ensures ForKey(Messages(t, s), k) == Messages(u, OnlyKey(s, k))
    decreases |s|
  {
    hide Accept, KeyStep, Live;
    if s != [] {
      var a, rest := s[0], s[1..];
      LiveLater(t, u, k, now, a.now);
      AcceptIsKeyStep(t, a, k);
      AcceptIsKeyStep(u, a, k);
      OrderedTail(s);
      var out := Accept(t, a);
      var head := if out.msg.Some? then [out.msg.value] else [];
      ForKeyOfConcat(head, Messages(out.table, rest), k);
      if a.frag.key == k {
        NonInterferenceFrom(out.table, Accept(u, a).table, rest, k, a.now);
        OnlyKeyTail(s, k);
      } else {
        NonInterferenceFrom(out.table, u, rest, k, a.now);
        assert OnlyKey(s, k) == OnlyKey(rest, k);
      }
    }
  }

  lemma OrderedTail(s: seq<Arrival>)
    requires Ordered(s) && s != []
    ensures Ordered(s[1..]) && (s[1..] != [] ==> s[0].now <= s[1..][0].now)
  {
  }

  lemma OnlyKeyTail(s: seq<Arrival>, k: Key)
    requires s != [] && s[0].frag.key == k
    ensures OnlyKey(s, k) != [] && OnlyKey(s, k)[0] == s[0] && OnlyKey(s, k)[1..] == OnlyKey(s[1..], k)
  {
  }

  lemma ForKeyOfConcat(head: seq<Message>, tail: seq<Message>, k: Key)
    requires |head| <= 1
    ensures ForKey(head + tail, k)
            == (if head != [] && head[0].key == k then head else []) + ForKey(tail, k)
  {
    if head == [] {
      assert head + tail == tail;
    } else {
      assert (head + tail)[1..] == tail;
    }
  }

  // With a monotone clock, the messages of a key in any interleaved stream are
  // the messages of that key's sentences alone.
  lemma NonInterference(s: seq<Arrival>, k: Key)
    requires Ordered(s)
    ensures ForKey(Messages(map[], s), k) == Messages(map[], OnlyKey(s, k))
  {
    NonInterferenceFrom(map[], map[], s, k, 0);
  }

  // ---- what a message is made of ----

  // A stream in which every arrival knows its own place.
  ghost predicate Numbered(s: seq<Arrival>) {
    Ordered(s) && forall i :: 0 <= i < |s| ==> s[i].pos == i
  }

  function TableAt(s: seq<Arrival>, n: nat): Table
    requires n <= |s|
  {
    if n == 0 then map[] else Accept(TableAt(s, n - 1), s[n - 1]).table
  }

  function MessageAt(s: seq<Arrival>, n: nat): Option<Message>
    requires n < |s|
  {
    Accept(TableAt(s, n), s[n]).msg
  }

  // The arrival at p is fragment i + 1 of `total` for key k, in time.
  ghost predicate PartIs(s: seq<Arrival>, p: nat, k: Key, total: nat, firstSeen: nat, i: nat, raw: Text) {
    && p < |s| && s[p].frag.key == k && s[p].frag.count == total && s[p].frag.num == i + 1
    && s[p].frag.raw == raw && firstSeen <= s[p].now < firstSeen + TTL
  }

  function Payloads(s: seq<Arrival>, parts: seq<nat>): Text {
    if parts == [] then []
    else
      var p := parts[|parts| - 1];
      Payloads(s, parts[..|parts| - 1]) + (if p < |s| then s[p].frag.payload else [])
  }

  // Fragments 1, 2, ... of one total in the order they arrived, all less than
  // ten seconds after the first, and the payload is theirs in that order.
  ghost predicate MadeOf(s: seq<Arrival>, k: Key, e: Pending) {
    && e.parts != [] && |e.raws| == |e.parts|
    && (forall i, j :: 0 <= i < j < |e.parts| ==> e.parts[i] < e.parts[j])
    && (forall i :: 0 <= i < |e.parts| ==> PartIs(s, e.parts[i], k, e.total, e.firstSeen, i, e.raws[i]))
    && s[e.parts[0]].now == e.firstSeen
    && e.payload == Payloads(s, e.parts)
  }

  // What a partial message in the table at n is.
  ghost predicate EntryOk(s: seq<Arrival>, n: nat, k: Key, e: Pending) {
    && MadeOf(s, k, e)
    && |e.parts| < e.total
    && forall p :: p in e.parts ==> p < n
  }

  ghost predicate TableOk(s: seq<Arrival>, n: nat, t: Table) {
    forall k :: k in t ==> EntryOk(s, n, k, t[k])
  }

  // The arrival at n joins a partial message, or starts one.
  lemma Joins(s: seq<Arrival>, n: nat, e: Pending)
    requires Numbered(s) && n < |s| && s[n].frag.count > 1
    requires if s[n].frag.num == 1 then e == Pending(s[n].frag.count, [], [], s[n].now, [])
             else && EntryOk(s, n, s[n].frag.key, e) && e.Continues(s[n].frag.count, s[n].frag.num)
                  && e.Fresh(s[n].now)
    ensures MadeOf(s, s[n].frag.key, e.With(s[n]))
    ensures |e.parts| + 1 == s[n].frag.num && forall p :: p in e.With(s[n]).parts ==> p < n + 1
  {
    hide Payloads;
    var f := e.With(s[n]);
    forall i, j | 0 <= i < j < |f.parts|
      ensures f.parts[i] < f.parts[j]
    {
      assert i < |e.parts| && e.parts[i] in e.parts;
    }
    assert forall p :: p in f.parts ==> p in e.parts || p == n;
    if e.parts != [] {
      assert e.parts[0] in e.parts;
    }
    PayloadsOfLast(s, e.parts, n);
    assert s[n].pos == n;
    forall i | 0 <= i < |f.parts|
      ensures PartIs(s, f.parts[i], s[n].frag.key, f.total, f.firstSeen, i, f.raws[i])
    {
      if i < |e.parts| {
        assert PartIs(s, e.parts[i], s[n].frag.key, e.total, e.firstSeen, i, e.raws[i]);
      }
    }
  }

  lemma PayloadsOfLast(s: seq<Arrival>, parts: seq<nat>, n: nat)
    requires n < |s|
    ensures Payloads(s, parts + [n]) == Payloads(s, parts) + s[n].frag.payload
    ensures Payloads(s, []) == []
  {
    assert (parts + [n])[..|parts|] == parts;
  }

  // What one arrival does to the table, entry by entry.
  lemma AcceptCases(t: Table, a: Arrival)
    requires 1 <= a.frag.num <= a.frag.count
    ensures var o, k := Accept(t, a), a.frag.key;
            var base := if a.frag.num == 1 then Pending(a.frag.count, [], [], a.now, [])
                        else if k in t then t[k] else Pending(0, [], [], 0, []);
            var joins := && a.frag.count > 1
                         && (a.frag.num == 1
                             || (k in t && t[k].Fresh(a.now) && t[k].Continues(a.frag.count, a.frag.num)));
            && (forall j :: j in o.table && j != k ==> j in t && o.table[j] == t[j])
            && (k in o.table ==> || (joins && a.frag.num < a.frag.count && o.table[k] == base.With(a))
                                 || (a.frag.count == 1 && k in t && o.table[k] == t[k]))
            && (o.msg.Some? ==>
                  if a.frag.count == 1
                  then o.msg.value == Message(k, a.frag.payload, a.frag.fill, [a.frag.raw], [a.pos])
                  else joins && a.frag.num == a.frag.count && k !in o.table && o.msg.value == Complete(base.With(a), a))
  {
  }

  lemma {:induction false} TableStaysOk(s: seq<Arrival>, n: nat)
    requires Numbered(s) && n <= |s|
    ensures TableOk(s, n, TableAt(s, n))
  {
    hide Accept, MadeOf;
    if n > 0 {
      TableStaysOk(s, n - 1);
      var t, a := TableAt(s, n - 1), s[n - 1];
      AcceptCases(t, a);
      var o := Accept(t, a);
      forall k | k in o.table
        ensures EntryOk(s, n, k, o.table[k])
      {
        if k in t && o.table[k] == t[k] {
          assert EntryOk(s, n - 1, k, t[k]);
        } else {
          var base := if a.frag.num == 1 then Pending(a.frag.count, [], [], a.now, []) else t[k];
          Joins(s, n - 1, base);
        }
      }
    }
  }

  // Every completed message is a whole one: fragments 1 to n of one total, in
  // order, in time, and the arrival that completes it is its last.
  lemma MessageIsWhole(s: seq<Arrival>, n: nat)
    requires Numbered(s) && n < |s| && MessageAt(s, n).Some?
    ensures var m := MessageAt(s, n).value;
            && m.key == s[n].frag.key && m.fill == s[n].frag.fill
            && m.parts != [] && m.parts[|m.parts| - 1] == n && |m.parts| == s[n].frag.count
            && exists first: nat :: MadeOf(s, m.key, Pending(|m.parts|, m.payload, m.raws, first, m.parts))
  {
    hide Accept, MadeOf;
    var t, a := TableAt(s, n), s[n];
    TableStaysOk(s, n);
    AcceptCases(t, a);
    var m := MessageAt(s, n).value;
    assert a.pos == n;
    if a.frag.count == 1 {
      SingleIsWhole(s, n);
      assert MadeOf(s, m.key, Pending(|m.parts|, m.payload, m.raws, a.now, m.parts));
    } else {
      var base := if a.frag.num == 1 then Pending(a.frag.count, [], [], a.now, []) else t[a.frag.key];
      if a.frag.num != 1 {
        assert EntryOk(s, n, a.frag.key, base);
      }
      Joins(s, n, base);
      assert MadeOf(s, m.key, Pending(|m.parts|, m.payload, m.raws, base.firstSeen, m.parts));
    }
  }

  lemma SingleIsWhole(s: seq<Arrival>, n: nat)
    requires Numbered(s) && n < |s| && s[n].frag.count == 1
    ensures MadeOf(s, s[n].frag.key, Pending(1, s[n].frag.payload, [s[n].frag.raw], s[n].now, [n]))
  {
    assert Payloads(s, [n]) == [] + s[n].frag.payload;
    assert s[n] in s;
  }

  ghost predicate Apart(a: seq<nat>, b: seq<nat>) {
    forall p :: p in a ==> p !in b
  }

  lemma KeyOfParts(s: seq<Arrival>, k: Key, e: Pending)
    requires MadeOf(s, k, e)
    ensures forall p :: p in e.parts ==> p < |s| && s[p].frag.key == k
  {
    forall p | p in e.parts
      ensures p < |s| && s[p].frag.key == k
    {
      var i :| 0 <= i < |e.parts| && e.parts[i] == p;
      assert PartIs(s, p, k, e.total, e.firstSeen, i, e.raws[i]);
    }
  }

  lemma DifferentKeysApart(s: seq<Arrival>, k: Key, e: Pending, j: Key, f: Pending)
    requires k != j && MadeOf(s, k, e) && MadeOf(s, j, f)
    ensures Apart(e.parts, f.parts)
  {
    hide MadeOf;
    KeyOfParts(s, k, e);
    KeyOfParts(s, j, f);
  }

  // A fragment that went into a message is in no partial message afterwards.
  lemma {:induction false} UsedIsGone(s: seq<Arrival>, n: nat, later: nat, k: Key)
    requires Numbered(s) && n < later <= |s| && MessageAt(s, n).Some?
    requires k in TableAt(s, later)
    ensures Apart(MessageAt(s, n).value.parts, TableAt(s, later)[k].parts)
    decreases later
  {
    hide Accept, MadeOf, Apart;
    var m := MessageAt(s, n).value;
    var t, a := TableAt(s, later - 1), s[later - 1];
    MessageIsWhole(s, n);
    PartsBelow(s, n);
    TableStaysOk(s, later);
    AcceptCases(t, a);
    var e := TableAt(s, later)[k];
    if k != m.key {
      var first: nat :| MadeOf(s, m.key, Pending(|m.parts|, m.payload, m.raws, first, m.parts));
      assert EntryOk(s, later, k, e);
      DifferentKeysApart(s, m.key, Pending(|m.parts|, m.payload, m.raws, first, m.parts), k, e);
    } else if later - 1 == n {
      SameKeyAfter(s, n, k);
    } else {
      assert a.pos == later - 1;
      if k in t {
        UsedIsGone(s, n, later - 1, k);
      }
      JoinedApart(m.parts, t, a, e, k);
    }
  }

  lemma PartsBelow(s: seq<Arrival>, n: nat)
    requires Numbered(s) && n < |s| && MessageAt(s, n).Some?
    ensures forall p :: p in MessageAt(s, n).value.parts ==> p <= n
  {
    hide Accept;
    MessageIsWhole(s, n);
    var m := MessageAt(s, n).value;
    forall p | p in m.parts
      ensures p <= n
    {
      var i :| 0 <= i < |m.parts| && m.parts[i] == p;
      assert i < |m.parts| - 1 ==> m.parts[i] < m.parts[|m.parts| - 1];
    }
  }

  // Right after a message, its own key has only what a one-sentence message
  // left untouched.
  lemma SameKeyAfter(s: seq<Arrival>, n: nat, k: Key)
    requires Numbered(s) && n < |s| && MessageAt(s, n).Some?
    requires k in TableAt(s, n + 1) && k == s[n].frag.key
    ensures Apart(MessageAt(s, n).value.parts, TableAt(s, n + 1)[k].parts)
  {
    hide Accept, MadeOf;
    var t, a := TableAt(s, n), s[n];
    TableStaysOk(s, n);
    AcceptCases(t, a);
    assert a.pos == n && EntryOk(s, n, k, t[k]);
  }

  lemma JoinedApart(parts: seq<nat>, t: Table, a: Arrival, e: Pending, k: Key)
    requires a.pos !in parts
    requires k in t ==> Apart(parts, t[k].parts)
    requires (k in t && (e == t[k] || e == t[k].With(a))) || e == Pending(a.frag.count, [], [], a.now, []).With(a)
    ensures Apart(parts, e.parts)
  {
    if e.parts != [a.pos] && k in t && e == t[k].With(a) {
      assert forall p :: p in e.parts ==> p in t[k].parts || p == a.pos;
    }
  }

  lemma ApartNew(parts: seq<nat>, p: nat)
    requires p !in parts
    ensures Apart(parts, [p])
  {
  }

  // Each fragment is in at most one completed message.
  lemma UsedAtMostOnce(s: seq<Arrival>, n: nat, later: nat)
    requires Numbered(s) && n < later < |s|
    requires MessageAt(s, n).Some? && MessageAt(s, later).Some?
    ensures Apart(MessageAt(s, n).value.parts, MessageAt(s, later).value.parts)
  {
    hide Accept, MadeOf, Apart;
    var m, a := MessageAt(s, n).value, s[later];
    PartsBelow(s, n);
    var t, k := TableAt(s, later), a.frag.key;
    AcceptCases(t, a);
    assert a.pos == later;
    if a.frag.count > 1 {
      var base := if a.frag.num == 1 then Pending(a.frag.count, [], [], a.now, []) else t[k];
      if k in t {
        UsedIsGone(s, n, later, k);
      }
      JoinedApart(m.parts, t, a, base.With(a), k);
    } else {
      ApartNew(m.parts, later);
    }
  }

  // The messages of a stream are the ones completed at its places, in order.
  function MessagesUpTo(s: seq<Arrival>, n: nat): seq<Message>
    requires n <= |s|
  {
    if n == 0 then []
    else MessagesUpTo(s, n - 1) + (if MessageAt(s, n - 1).Some? then [MessageAt(s, n - 1).value] else [])
  }

  lemma {:induction false} MessagesByPlace(s: seq<Arrival>, n: nat)
    requires n <= |s|
    ensures MessagesUpTo(s, n) + Messages(TableAt(s, n), s[n..]) == MessagesUpTo(s, |s|)
    decreases |s| - n
  {
    hide Accept;
    if n < |s| {
      MessagesByPlace(s, n + 1);
      var t, rest := TableAt(s, n), s[n..];
      var here := if MessageAt(s, n).Some? then [MessageAt(s, n).value] else [];
      assert rest[1..] == s[n + 1..] && rest[0] == s[n];
      assert Messages(t, rest) == here + Messages(Accept(t, s[n]).table, s[n + 1..]);
      assert MessagesUpTo(s, n + 1) == MessagesUpTo(s, n) + here;
    } else {
      assert s[n..] == [];
    }
  }
}
