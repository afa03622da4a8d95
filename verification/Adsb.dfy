// The ADS-B carry-forward cache: lines are held per aircraft until its next
// position report, in bounded buffers, for a bounded number of aircraft.
module Adsb {
  import opened Bytes
  import opened Ascii

  const MAX_AIRCRAFT := 10_000
  const MAX_PENDING_FRAMES := 64
  const MAX_PENDING_BYTES := 16 * 1024
  const NEWLINE: Byte := 10

  // A 24-bit ICAO address, as upper-case hex.
  datatype Icao = Icao(hex: Text)

  datatype Field = Callsign | Altitude | Speed | Track | VerticalRate | Squawk | OnGround

  // An SBS line of an aircraft: its place in the feed, the fields it carries,
  // and whether it is a position report with a valid fix.
  datatype Line = Line(pos: nat, icao: Icao, raw: Text, fields: map<Field, Text>, fix: bool)

  datatype Entry = Entry(state: map<Field, Text>, pending: seq<Line>, bytes: nat, dropped: bool)

  const FRESH := Entry(map[], [], 0, false)

  datatype Cache = Cache(entries: map<Icao, Entry>, order: seq<Icao>)

  datatype Event = Event(icao: Icao, state: map<Field, Text>, lines: seq<Line>, payload: Text, truncated: bool)

  // ---- one aircraft ----

  function Sum(lines: seq<Line>): nat {
    if lines == [] then 0 else |lines[0].raw| + Sum(lines[1..])
  }

  predicate OverCap(lines: seq<Line>) {
    |lines| > MAX_PENDING_FRAMES || Sum(lines) > MAX_PENDING_BYTES
  }

  // What the caps leave of the lines: the oldest go first.
  function Kept(lines: seq<Line>): (r: seq<Line>)
    ensures IsSuffix(r, lines) && !OverCap(r)
  {
    if OverCap(lines) && lines != [] then
      var r := Kept(lines[1..]);
      assert lines == [lines[0]] + lines[1..];
      SuffixOfConcat(r, lines[1..], [lines[0]]);
      r
    else lines
  }

  function Join(lines: seq<Line>): Text {
    if lines == [] then []
    else if |lines| == 1 then lines[0].raw
    else Join(lines[..|lines| - 1]) + [NEWLINE] + lines[|lines| - 1].raw
  }

  // `push_raw`: append, then drop from the front while over a cap.
  method PushRaw(e: Entry, l: Line) returns (r: Entry, dropped: nat)
    requires e.bytes == Sum(e.pending)
    ensures r.pending == Kept(e.pending + [l]) && r.bytes == Sum(r.pending) && r.state == e.state
    ensures dropped == |e.pending| + 1 - |r.pending|
    ensures r.dropped <==> e.dropped || dropped > 0
  {
    var pending := e.pending + [l];
    SumOfLast(e.pending, l);
    var bytes := e.bytes + |l.raw|;
    var shed := e.dropped;
    dropped := 0;
    while |pending| > MAX_PENDING_FRAMES || bytes > MAX_PENDING_BYTES
      invariant bytes == Sum(pending)
      invariant Kept(pending) == Kept(e.pending + [l])
      invariant dropped + |pending| == |e.pending| + 1
      invariant shed <==> e.dropped || dropped > 0
      decreases |pending|
    {
      if pending == [] {
        break;
      }
      bytes := bytes - |pending[0].raw|;
      pending := pending[1..];
      shed := true;
      dropped := dropped + 1;
    }
    r := Entry(e.state, pending, bytes, shed);
  }

  lemma {:induction false} SumOfLast(lines: seq<Line>, l: Line)
    ensures Sum(lines + [l]) == Sum(lines) + |l.raw|
  {
    if lines == [] {
      assert (lines + [l])[1..] == [];
    } else {
      SumOfLast(lines[1..], l);
      assert (lines + [l])[1..] == lines[1..] + [l];
    }
  }

  // `drain_payload`: the pending lines joined, and an empty buffer.
  method DrainPayload(e: Entry) returns (r: Entry, out: Text, truncated: bool)
    ensures r == Entry(e.state, [], 0, false) && out == Join(e.pending) && truncated == e.dropped
  {
    out := [];
    for i := 0 to |e.pending|
      invariant out == Join(e.pending[..i])
    {
      if i > 0 {
        out := out + [NEWLINE];
      }
      out := out + e.pending[i].raw;
      assert e.pending[..i + 1][..i] == e.pending[..i];
    }
    assert e.pending[..|e.pending|] == e.pending;
    return Entry(e.state, [], 0, false), out, e.dropped;
  }

  // ---- the cache ----

  // `StateCache::entry`: make room for a new aircraft by evicting the oldest.
  function Touched(c: Cache, icao: Icao): Cache {
    if icao in c.entries then c
    else if |c.order| >= MAX_AIRCRAFT then
      Cache((c.entries - {c.order[0]})[icao := FRESH], c.order[1..] + [icao])
    else Cache(c.entries[icao := FRESH], c.order + [icao])
  }

  // Fields a line carries replace the ones known before.
  function Merge(state: map<Field, Text>, fields: map<Field, Text>): map<Field, Text> {
    state + fields
  }

  datatype Accepted = Accepted(cache: Cache, event: Option<Event>)

  function Accept(c: Cache, l: Line): Accepted
  {
    var t := Touched(c, l.icao);
    var e := if l.icao in t.entries then t.entries[l.icao] else FRESH;
    var pending := Kept(e.pending + [l]);
    var dropped := e.dropped || |pending| < |e.pending| + 1;
    var state := Merge(e.state, l.fields);
    if l.fix then
      Accepted(t.(entries := t.entries[l.icao := Entry(state, [], 0, false)]),
               Some(Event(l.icao, state, pending, Join(pending), dropped)))
    else
      Accepted(t.(entries := t.entries[l.icao := Entry(state, pending, Sum(pending), dropped)]), None)
  }

  // Byte counts that agree with the lines they count.
  ghost predicate Counted(c: Cache) {
    forall k :: k in c.entries ==> c.entries[k].bytes == Sum(c.entries[k].pending)
  }

  class StateCache {
    var entries: map<Icao, Entry>
    var order: seq<Icao>

    ghost function View(): Cache
      reads this
    {
      Cache(entries, order)
    }

    constructor ()
      ensures View() == Cache(map[], [])
    {
      entries, order := map[], [];
    }

    method Touch(icao: Icao)
      modifies this
      ensures View() == Touched(old(View()), icao)
    {
      if icao !in entries {
        if |order| >= MAX_AIRCRAFT {
          var old' := order[0];
          order := order[1..];
          entries := entries - {old'};
        }
        order := order + [icao];
        entries := entries[icao := FRESH];
      }
    }

    // The caching and emitting part of `parse_line`.
    method Take(l: Line) returns (event: Option<Event>)
      requires Counted(View())
      modifies this
      ensures Accepted(View(), event) == Accept(old(View()), l)
    {
      hide Kept, Join, Sum, Merge, Touched, IsSuffix;
      TouchedCounted(View(), l.icao);
      Touch(l.icao);
      var e := entries[l.icao];
      var pushed, dropped := PushRaw(e, l);
      pushed := pushed.(state := Merge(pushed.state, l.fields));
      if !l.fix {
        entries := entries[l.icao := pushed];
        return None;
      }
      var drained, payload, truncated := DrainPayload(pushed);
      entries := entries[l.icao := drained];
      return Some(Event(l.icao, pushed.state, pushed.pending, payload, truncated));
    }
  }

  lemma TouchedCounted(c: Cache, icao: Icao)
    requires Counted(c)
    ensures Counted(Touched(c, icao)) && icao in Touched(c, icao).entries
  {
  }

  // ---- a whole feed ----

  // What an observer knows beside the cache: the feed so far; per aircraft the lines accepted
  // since its last event or its entry's creation, and since its creation; and
  // the lines that went into events.
  datatype World = World(cache: Cache, since: map<Icao, seq<Line>>, seen: map<Icao, seq<Line>>, used: set<nat>,
                         feed: seq<Line>)

  const Initial := World(Cache(map[], []), map[], map[], {}, [])

  function Get(m: map<Icao, seq<Line>>, k: Icao): seq<Line> {
    if k in m then m[k] else []
  }

  function Restrict(m: map<Icao, seq<Line>>, keys: set<Icao>): map<Icao, seq<Line>> {
    map k | k in m && k in keys :: m[k]
  }

  function Positions(lines: seq<Line>): set<nat> {
    set l | l in lines :: l.pos
  }

  function Next(w: World, l: Line): World {
    var a := Accept(w.cache, l);
    var since := Restrict(w.since, a.cache.entries.Keys);
    var seen := Restrict(w.seen, a.cache.entries.Keys);
    World(a.cache,
          since[l.icao := if l.fix then [] else Get(w.since, l.icao) + [l]],
          seen[l.icao := Get(w.seen, l.icao) + [l]],
          w.used + (if a.event.Some? then Positions(a.event.value.lines) else {}),
          w.feed + [l])
  }

  // The latest value of each field in a list of lines.
  function Latest(lines: seq<Line>): map<Field, Text> {
    if lines == [] then map[] else Merge(Latest(lines[..|lines| - 1]), lines[|lines| - 1].fields)
  }

  ghost predicate NoDup<T>(s: seq<T>) {
    forall i, j :: 0 <= i < j < |s| ==> s[i] != s[j]
  }

  predicate InFeed(w: World, l: Line) {
    l.pos < |w.feed| && w.feed[l.pos] == l
  }

  // One aircraft: what it still holds is the end of what it received, and the
  // flag says whether that is all.
  ghost predicate EntryInv(w: World, k: Icao) {
    k in w.cache.entries && k in w.since && k in w.seen &&
    var e := w.cache.entries[k];
    && IsSuffix(e.pending, w.since[k])
    && (e.dropped <==> |e.pending| < |w.since[k]|)
    && e.bytes == Sum(e.pending) && !OverCap(e.pending)
    && e.state == Latest(w.seen[k])
    && (forall l :: l in w.since[k] ==> l.icao == k && InFeed(w, l) && l.pos !in w.used)
  }

  ghost predicate OrderInv(w: World) {
    && NoDup(w.cache.order) && |w.cache.order| <= MAX_AIRCRAFT
    && (forall k :: k in w.cache.order <==> k in w.cache.entries)
    && w.since.Keys == w.cache.entries.Keys && w.seen.Keys == w.cache.entries.Keys
    && (forall p :: p in w.used ==> p < |w.feed|)
  }

  ghost predicate Inv(w: World) {
    OrderInv(w) && forall k :: k in w.cache.entries ==> EntryInv(w, k)
  }

  // A new aircraft takes a place at the end and, in a full cache, the oldest
  // one's; nobody else is touched.
  lemma TouchedOrder(c: Cache, icao: Icao)
    requires NoDup(c.order) && |c.order| <= MAX_AIRCRAFT && forall k :: k in c.order <==> k in c.entries
    ensures var t := Touched(c, icao);
            && NoDup(t.order) && |t.order| <= MAX_AIRCRAFT
            && (forall k :: k in t.order <==> k in t.entries)
            && icao in t.entries && t.entries[icao] == (if icao in c.entries then c.entries[icao] else FRESH)
            && (forall k :: k in t.entries && k != icao ==> k in c.entries && t.entries[k] == c.entries[k])
            && (forall k :: k in c.entries && k !in t.entries ==>
                  icao !in c.entries && |c.order| == MAX_AIRCRAFT && k == c.order[0])
  {
    var t := Touched(c, icao);
    if icao !in c.entries && |c.order| >= MAX_AIRCRAFT {
      var rest := c.order[1..];
      assert c.order == [c.order[0]] + rest;
      assert forall k :: k in c.order <==> k == c.order[0] || k in rest;
      assert c.order[0] !in rest;
      assert forall k :: k in t.order <==> k in rest || k == icao;
    } else if icao !in c.entries {
      assert forall k :: k in t.order <==> k in c.order || k == icao;
    }
  }

  // The entry an arrival finds, or makes.
  function Found(c: Cache, l: Line): Entry {
    if l.icao in c.entries then c.entries[l.icao] else FRESH
  }

  // The lines an arrival leaves pending, before any event takes them.
  function Pushed(c: Cache, l: Line): seq<Line> {
    Kept(Found(c, l).pending + [l])
  }

  function Shed(c: Cache, l: Line): bool {
    Found(c, l).dropped || |Pushed(c, l)| < |Found(c, l).pending| + 1
  }

  function State(c: Cache, l: Line): map<Field, Text> {
    Merge(Found(c, l).state, l.fields)
  }

  // What accepting a line does, part by part.
  lemma AcceptParts(c: Cache, l: Line)
    requires NoDup(c.order) && |c.order| <= MAX_AIRCRAFT && forall k :: k in c.order <==> k in c.entries
    ensures var a, t := Accept(c, l), Touched(c, l.icao);
            && a.cache.order == t.order && a.cache.entries.Keys == t.entries.Keys
            && l.icao in a.cache.entries
            && (forall k :: k in a.cache.entries && k != l.icao ==>
                  k in t.entries && a.cache.entries[k] == t.entries[k])
            && a.cache.entries[l.icao]
               == (if l.fix then Entry(State(c, l), [], 0, false)
                   else Entry(State(c, l), Pushed(c, l), Sum(Pushed(c, l)), Shed(c, l)))
            && a.event
               == (if l.fix
                   then Some(Event(l.icao, State(c, l), Pushed(c, l), Join(Pushed(c, l)), Shed(c, l)))
                   else None)
  {
    hide Kept, Join, Sum, Merge, Touched, NoDup, IsSuffix;
    TouchedOrder(c, l.icao);
  }

  // The same aircraft, one added, at most the oldest gone.
  lemma StepKeys(w: World, l: Line)
    requires OrderInv(w)
    ensures var v := Next(w, l);
            && l.icao in v.cache.entries
            && v.cache.order == Touched(w.cache, l.icao).order
            && v.cache.entries.Keys == Touched(w.cache, l.icao).entries.Keys
            && v.since.Keys == v.cache.entries.Keys && v.seen.Keys == v.cache.entries.Keys
            && v.cache.entries.Keys <= w.cache.entries.Keys + {l.icao}
  {
    hide Touched, NoDup, Accept, Restrict, Positions;
    CacheKeys(w.cache, l);
    var keys := Accept(w.cache, l).cache.entries.Keys;
    RestrictedKeys(w.since, keys, l.icao, if l.fix then [] else Get(w.since, l.icao) + [l]);
    RestrictedKeys(w.seen, keys, l.icao, Get(w.seen, l.icao) + [l]);
  }

  lemma CacheKeys(c: Cache, l: Line)
    requires NoDup(c.order) && |c.order| <= MAX_AIRCRAFT && forall k :: k in c.order <==> k in c.entries
    ensures var a, t := Accept(c, l).cache, Touched(c, l.icao);
            && a.order == t.order && a.entries.Keys == t.entries.Keys
            && l.icao in a.entries && a.entries.Keys <= c.entries.Keys + {l.icao}
  {
    hide Pushed, Shed, State, Join, Touched, NoDup, Accept, Sum;
    TouchedOrder(c, l.icao);
    AcceptParts(c, l);
  }

  lemma RestrictedKeys(m: map<Icao, seq<Line>>, keys: set<Icao>, icao: Icao, v: seq<Line>)
    requires icao in keys && keys <= m.Keys + {icao}
    ensures Restrict(m, keys)[icao := v].Keys == keys
  {
    assert forall k :: k in keys && k != icao ==> k in Restrict(m, keys);
  }

  lemma StepOthersSame(w: World, l: Line, k: Icao)
    requires OrderInv(w) && k in Next(w, l).cache.entries && k != l.icao
    ensures var v := Next(w, l);
            && k in w.cache.entries && v.cache.entries[k] == w.cache.entries[k]
            && k in v.since && v.since[k] == w.since[k] && k in v.seen && v.seen[k] == w.seen[k]
  {
    hide Pushed, Shed, State, Join, Touched, NoDup, Accept, Sum, Positions;
    TouchedOrder(w.cache, l.icao);
    AcceptParts(w.cache, l);
  }

  lemma StepOrder(w: World, l: Line)
    requires Inv(w) && l.pos == |w.feed|
    ensures OrderInv(Next(w, l))
  {
    hide EntryInv, Pushed, Shed, State, Join, Touched, NoDup, Accept, Sum, Positions, IsSuffix, Restrict;
    StepKeys(w, l);
    TouchedOrder(w.cache, l.icao);
    AcceptParts(w.cache, l);
    UsedBelow(w, l);
  }

  lemma UsedBelow(w: World, l: Line)
    requires Inv(w) && l.pos == |w.feed|
    ensures forall p :: p in Positions(Pushed(w.cache, l)) ==> p <= |w.feed| && p !in w.used
  {
    hide EntryInv, Pushed, IsSuffix;
    PushedLines(w, l);
  }

  lemma PushedSuffix(w: World, l: Line)
    requires Inv(w)
    ensures var ls := Pushed(w.cache, l);
            && IsSuffix(ls, Get(w.since, l.icao) + [l]) && !OverCap(ls)
            && (Shed(w.cache, l) <==> |ls| < |Get(w.since, l.icao)| + 1)
  {
    hide Latest, OverCap, OrderInv, Sum, Kept, IsSuffix;
    var held, all := Found(w.cache, l).pending, Get(w.since, l.icao);
    FoundSuffix(w, l);
    SuffixExtend(held, all, [l]);
    SuffixTrans(Kept(held + [l]), held + [l], all + [l]);
    SuffixShorter(held, all);
    SuffixShorter(Kept(held + [l]), held + [l]);
  }

  lemma FoundSuffix(w: World, l: Line)
    requires Inv(w)
    ensures IsSuffix(Found(w.cache, l).pending, Get(w.since, l.icao))
    ensures Found(w.cache, l).dropped <==> |Found(w.cache, l).pending| < |Get(w.since, l.icao)|
  {
    hide Latest, OverCap, Sum, IsSuffix, NoDup;
    if l.icao in w.cache.entries {
      assert EntryInv(w, l.icao);
    } else {
      SuffixSelf<Line>([]);
    }
  }

  lemma PushedLines(w: World, l: Line)
    requires Inv(w) && l.pos == |w.feed|
    ensures forall m :: m in Pushed(w.cache, l) ==>
              m.icao == l.icao && (m == l || InFeed(w, m)) && m.pos !in w.used
  {
    hide Latest, OverCap, NoDup, Sum, IsSuffix, Pushed, Shed;
    PushedSuffix(w, l);
    var all := Get(w.since, l.icao);
    forall m | m in Pushed(w.cache, l)
      ensures m.icao == l.icao && (m == l || InFeed(w, m)) && m.pos !in w.used
    {
      SuffixElement(Pushed(w.cache, l), all + [l], m);
      if m != l {
        assert m in all && EntryInv(w, l.icao);
      }
    }
  }

  lemma SuffixSelf<T>(s: seq<T>)
    ensures IsSuffix(s, s)
  {
  }

  lemma SuffixShorter<T>(s: seq<T>, t: seq<T>)
    requires IsSuffix(s, t)
    ensures |s| <= |t|
  {
  }

  lemma SuffixElement<T>(s: seq<T>, t: seq<T>, x: T)
    requires IsSuffix(s, t) && x in s
    ensures x in t
  {
    var i :| 0 <= i < |s| && s[i] == x;
    assert t[|t| - |s|..][i] == t[|t| - |s| + i];
  }

  lemma StepOther(w: World, l: Line, k: Icao)
    requires Inv(w) && l.pos == |w.feed| && k in Next(w, l).cache.entries && k != l.icao
    ensures EntryInv(Next(w, l), k)
  {
    hide Pushed, OverCap, Accept, NoDup, IsSuffix, Latest, Sum, Positions, Restrict;
    StepOthersSame(w, l, k);
    assert EntryInv(w, k);
    OthersUnused(w, l, k);
    var v := Next(w, l);
    forall m | m in v.since[k]
      ensures m.icao == k && InFeed(v, m) && m.pos !in v.used
    {
      assert m in w.since[k];
    }
  }

  lemma OthersUnused(w: World, l: Line, k: Icao)
    requires Inv(w) && l.pos == |w.feed| && k in w.cache.entries && k != l.icao
    ensures forall m :: m in w.since[k] ==> m.pos !in Next(w, l).used
  {
    hide Pushed, Shed, State, Join, OverCap, Accept, IsSuffix, Touched, NoDup, Latest, Sum;
    PushedLines(w, l);
    AcceptParts(w.cache, l);
    assert EntryInv(w, k);
    var ls := Pushed(w.cache, l);
    forall m | m in w.since[k]
      ensures m.pos !in Positions(ls)
    {
      assert forall n :: n in ls && n.pos == m.pos ==> n == m;
    }
  }

  lemma StepOwn(w: World, l: Line)
    requires Inv(w) && l.pos == |w.feed|
    ensures EntryInv(Next(w, l), l.icao)
  {
    hide Pushed, Shed, State, Join, OverCap, Accept, NoDup, Latest, Touched, Sum, Positions, Merge, IsSuffix;
    PushedSuffix(w, l);
    AcceptParts(w.cache, l);
    StateIsLatest(w, l);
    EmptyFits();
    SuffixSelf<Line>([]);
    var v, k := Next(w, l), l.icao;
    if k in w.cache.entries {
      assert EntryInv(w, k);
    }
    forall m | m in v.since[k]
      ensures m.icao == k && InFeed(v, m) && m.pos !in v.used
    {
      assert m == l || m in w.since[k];
      assert v.used == w.used;
    }
  }

  lemma StateIsLatest(w: World, l: Line)
    requires Inv(w)
    ensures State(w.cache, l) == Latest(Get(w.seen, l.icao) + [l])
  {
    hide OverCap, IsSuffix, NoDup, Sum, Merge, Latest;
    LatestOfLast(Get(w.seen, l.icao), l);
    if l.icao in w.cache.entries {
      assert EntryInv(w, l.icao);
    } else {
      EmptyFits();
    }
  }

  lemma LatestOfLast(lines: seq<Line>, l: Line)
    ensures Latest(lines + [l]) == Merge(Latest(lines), l.fields)
  {
    assert (lines + [l])[..|lines|] == lines;
  }

  lemma EmptyFits()
    ensures !OverCap([]) && Latest([]) == map[] && Sum([]) == 0
  {
  }

  // Every line keeps the invariant.
  lemma StepKeepsInv(w: World, l: Line)
    requires Inv(w) && l.pos == |w.feed|
    ensures Inv(Next(w, l))
  {
    hide EntryInv, OrderInv, Accept;
    StepOrder(w, l);
    var v := Next(w, l);
    forall k | k in v.cache.entries
      ensures EntryInv(v, k)
    {
      if k == l.icao {
        StepOwn(w, l);
      } else {
        StepOther(w, l, k);
      }
    }
  }

  ghost predicate Numbered(feed: seq<Line>, from: nat) {
    forall i :: 0 <= i < |feed| ==> feed[i].pos == from + i
  }

  function Run(w: World, feed: seq<Line>): World
    decreases |feed|
  {
    if feed == [] then w else Run(Next(w, feed[0]), feed[1..])
  }

  // In every feed: the cache holds at most 10,000 aircraft, each once in the
  // eviction queue; and for each of them, what it was sent since its last event
  // or its entry's creation is the dropped lines followed by the pending ones,
  // within both caps, the flag set exactly if some were dropped.
  lemma {:induction false} FeedKeepsInv(w: World, feed: seq<Line>)
    requires Inv(w) && Numbered(feed, |w.feed|)
    ensures Inv(Run(w, feed)) && Run(w, feed).feed == w.feed + feed
    decreases |feed|
  {
    hide Inv, Next;
    if feed == [] {
      assert w.feed + feed == w.feed;
    } else {
      StepKeepsInv(w, feed[0]);
      NextFeed(w, feed[0]);
      FeedKeepsInv(Next(w, feed[0]), feed[1..]);
      assert w.feed + [feed[0]] + feed[1..] == w.feed + feed;
    }
  }

  lemma NextFeed(w: World, l: Line)
    ensures Next(w, l).feed == w.feed + [l]
  {
  }

  lemma InitialInv()
    ensures Inv(Initial)
  {
  }

  // What a position report emits, in any feed: the end of what the aircraft sent
  // since its last event, the report's own line included; joined by newlines;
  // none of it in an earlier event; marked truncated exactly if lines are missing;
  // with the latest value of every field since the aircraft appeared.
  lemma EventMeaning(feed: seq<Line>, l: Line)
    requires Numbered(feed, 0) && l.pos == |feed| && l.fix
    ensures var w := Run(Initial, feed);
            var ev := Accept(w.cache, l).event;
            && ev.Some? && ev.value.icao == l.icao
            && IsSuffix(ev.value.lines, Get(w.since, l.icao) + [l])
            && (ev.value.truncated <==> |ev.value.lines| < |Get(w.since, l.icao)| + 1)
            && ev.value.payload == Join(ev.value.lines) && !OverCap(ev.value.lines)
            && Positions(ev.value.lines) !! w.used
            && ev.value.state == Latest(Get(w.seen, l.icao) + [l])
  {
    hide EntryInv, OrderInv, Run, Join, OverCap;
    InitialInv();
    FeedKeepsInv(Initial, feed);
    assert Initial.feed + feed == feed;
    EventOf(Run(Initial, feed), l);
  }

  lemma EventOf(w: World, l: Line)
    requires Inv(w) && l.pos == |w.feed| && l.fix
    ensures var ev := Accept(w.cache, l).event;
            && ev.Some? && ev.value.icao == l.icao
            && IsSuffix(ev.value.lines, Get(w.since, l.icao) + [l])
            && (ev.value.truncated <==> |ev.value.lines| < |Get(w.since, l.icao)| + 1)
            && ev.value.payload == Join(ev.value.lines) && !OverCap(ev.value.lines)
            && Positions(ev.value.lines) !! w.used
            && ev.value.state == Latest(Get(w.seen, l.icao) + [l])
  {
    hide Pushed, Shed, State, Join, OverCap, Accept, NoDup, Latest, Touched, IsSuffix, Positions;
    PushedSuffix(w, l);
    AcceptParts(w.cache, l);
    StateIsLatest(w, l);
    UsedBelow(w, l);
  }

  // One aircraft's line reaches another only by evicting it, and only the one
  // that has been in a full cache longest.
  lemma {:induction false} Isolation(feed: seq<Line>, l: Line, k: Icao)
    requires Numbered(feed, 0) && l.pos == |feed| && k != l.icao
    ensures var w, v := Run(Initial, feed), Run(Initial, feed + [l]);
            if k in w.cache.entries && k !in v.cache.entries
            then l.icao !in w.cache.entries && |w.cache.order| == MAX_AIRCRAFT && k == w.cache.order[0]
            else (k in w.cache.entries <==> k in v.cache.entries)
                 && (k in w.cache.entries ==> v.cache.entries[k] == w.cache.entries[k])
  {
    hide EntryInv, Run, Kept, Join, Touched, NoDup;
    InitialInv();
    FeedKeepsInv(Initial, feed);
    RunOfLast(Initial, feed, l);
    TouchedOrder(Run(Initial, feed).cache, l.icao);
    hide Accept, Pushed, Shed, State;
    AcceptParts(Run(Initial, feed).cache, l);
  }

  lemma {:induction false} RunOfLast(w: World, feed: seq<Line>, l: Line)
    ensures Run(w, feed + [l]) == Next(Run(w, feed), l)
    decreases |feed|
  {
    hide Next;
    if feed == [] {
      assert feed + [l] == [l] && [l][1..] == [];
    } else {
      RunOfLast(Next(w, feed[0]), feed[1..], l);
      assert (feed + [l])[1..] == feed[1..] + [l];
    }
  }

  // The caps drop no more than they must: with one more line they would be
  // exceeded.
  lemma {:induction false} KeptIsLongest(lines: seq<Line>)
    ensures |Kept(lines)| < |lines| ==> OverCap(lines[|lines| - |Kept(lines)| - 1..])
  {
    if OverCap(lines) && lines != [] {
      KeptIsLongest(lines[1..]);
      var r := Kept(lines[1..]);
      if |r| < |lines[1..]| {
        assert lines[1..][|lines[1..]| - |r| - 1..] == lines[|lines| - |r| - 1..];
      } else {
        assert lines[0..] == lines;
      }
    }
  }
}
