// Security marking: the operator's classification is a floor under whatever the
// wire says, and the egress label must show the level that results.
module Marking {
  import opened Bytes
  import opened Ascii

  type Tags = seq<Text>

  const CLASS: Text := [99, 108, 97, 115, 115, 58]           // class:
  const UNCLASSIFIED: Text := [117, 110, 99, 108, 97, 115, 115, 105, 102, 105, 101, 100]
  const RESTRICTED: Text := [114, 101, 115, 116, 114, 105, 99, 116, 101, 100]
  const CONFIDENTIAL: Text := [99, 111, 110, 102, 105, 100, 101, 110, 116, 105, 97, 108]
  const SECRET: Text := [115, 101, 99, 114, 101, 116]
  const TOP: Text := [116, 111, 112]

  // ---- levels ----

  // The canonical spelling of a level, lowest first.
  function LevelText(level: nat): Text
    requires level < 5
  {
    if level == 0 then UNCLASSIFIED
    else if level == 1 then RESTRICTED
    else if level == 2 then CONFIDENTIAL
    else if level == 3 then SECRET
    else TOP + [45] + SECRET
  }

  function FoldChar(c: Byte): Byte {
    if c == 95 || c == 45 then 32 else LowerChar(c)
  }

  // Lower case, with underscores and hyphens read as spaces.
  function Fold(s: Text): (r: Text)
    ensures |r| == |s|
  {
    seq(|s|, i requires 0 <= i < |s| => FoldChar(s[i]))
  }

  // `classification_level`: any case, any separator, and the short forms.
  function Level(raw: Text): (r: Option<nat>)
    ensures r.Some? ==> r.value < 5
  {
    var t := Fold(Trim(raw));
    if t == UNCLASSIFIED || t == UNCLASSIFIED[..7] || t == [117] then Some(0)
    else if t == RESTRICTED || t == [114] then Some(1)
    else if t == CONFIDENTIAL || t == [99] then Some(2)
    else if t == SECRET || t == [115] then Some(3)
    else if t == TOP + [32] + SECRET || t == TOP + SECRET || t == [116, 115] then Some(4)
    else None
  }

  lemma CanonicalLevel(level: nat)
    requires level < 5
    ensures Level(LevelText(level)) == Some(level)
    ensures Trim(LevelText(level)) == LevelText(level) != []
  {
    var t := LevelText(level);
    assert Trim(t) == t;
    var f := Fold(t);
    assert f[0] == FoldChar(t[0]) && f[1] == FoldChar(t[1]);
    if level < 4 {
      assert f == t;
    } else {
      assert f == TOP + [32] + SECRET;
    }
  }

  // ---- tags ----

  predicate IsClass(t: Text) {
    CLASS <= t
  }

  function ClassTag(level: nat): Text
    requires level < 5
  {
    CLASS + LevelText(level)
  }

  // The level of a recognised class tag.
  function Ranked(t: Text): (r: Option<nat>)
    ensures r.Some? ==> r.value < 5 && IsClass(t)
  {
    if IsClass(t) then Level(t[|CLASS|..]) else None
  }

  lemma ClassTagRanked(level: nat)
    requires level < 5
    ensures IsClass(ClassTag(level)) && Ranked(ClassTag(level)) == Some(level)
  {
    hide Level, LevelText;
    assert ClassTag(level)[|CLASS|..] == LevelText(level);
    CanonicalLevel(level);
  }

  function Unranked(tags: Tags): Tags {
    if tags == [] then []
    else
      var rest := Unranked(tags[..|tags| - 1]);
      if Ranked(tags[|tags| - 1]).None? then rest + [tags[|tags| - 1]] else rest
  }

  // The first recognised class tag, or |tags|.
  function FirstRanked(tags: Tags): (i: nat)
    ensures i <= |tags| && (i < |tags| ==> Ranked(tags[i]).Some?)
    ensures forall j :: 0 <= j < i ==> Ranked(tags[j]).None?
  {
    if tags == [] || Ranked(tags[0]).Some? then 0 else 1 + FirstRanked(tags[1..])
  }

  // The highest of a floor and all recognised levels.
  function Highest(floor: nat, tags: Tags): (h: nat)
    requires floor < 5
    ensures floor <= h < 5
  {
    if tags == [] then floor
    else
      var h := Highest(floor, tags[..|tags| - 1]);
      var r := Ranked(tags[|tags| - 1]);
      if r.Some? && r.value > h then r.value else h
  }

  function AddMissing(tags: Tags, extra: Tags): Tags
    decreases |extra|
  {
    if extra == [] then tags
    else AddMissing(if extra[0] in tags then tags else tags + [extra[0]], extra[1..])
  }

  lemma {:induction false} UnrankedLength(tags: Tags)
    ensures FirstRanked(tags) < |tags| ==> FirstRanked(tags) <= |Unranked(tags)|
    ensures forall t :: t in Unranked(tags) ==> Ranked(t).None?
  {
    hide Ranked;
    var i := FirstRanked(tags);
    if i < |tags| {
      UnrankedOfPlain(tags[..i]);
      UnrankedOfConcat(tags[..i], tags[i..]);
      assert tags == tags[..i] + tags[i..];
    }
    UnrankedNone(tags);
  }

  lemma {:induction false} UnrankedNone(tags: Tags)
    ensures forall t :: t in Unranked(tags) ==> Ranked(t).None?
  {
    hide Ranked;
    if tags != [] {
      UnrankedNone(tags[..|tags| - 1]);
    }
  }

  ghost predicate Plain(tags: Tags) {
    forall i :: 0 <= i < |tags| ==> Ranked(tags[i]).None?
  }

  lemma {:induction false} UnrankedOfPlain(tags: Tags)
    requires Plain(tags)
    ensures Unranked(tags) == tags
  {
    hide Ranked;
    if tags != [] {
      UnrankedOfPlain(tags[..|tags| - 1]);
      assert tags == tags[..|tags| - 1] + [tags[|tags| - 1]];
    }
  }

  lemma {:induction false} UnrankedOfConcat(a: Tags, b: Tags)
    ensures Unranked(a + b) == Unranked(a) + Unranked(b)
    decreases |b|
  {
    hide Ranked;
    if b == [] {
      assert a + b == a;
    } else {
      UnrankedOfConcat(a, b[..|b| - 1]);
      assert (a + b)[..|a + b| - 1] == a + b[..|b| - 1];
    }
  }

  lemma {:induction false} HighestOfConcat(floor: nat, a: Tags, b: Tags)
    requires floor < 5
    ensures Highest(floor, a + b) == Highest(Highest(floor, a), b)
    decreases |b|
  {
    hide Ranked;
    if b == [] {
      assert a + b == a;
    } else {
      HighestOfConcat(floor, a, b[..|b| - 1]);
      assert (a + b)[..|a + b| - 1] == a + b[..|b| - 1];
    }
  }

  lemma {:induction false} HighestOfPlain(floor: nat, tags: Tags)
    requires floor < 5 && Plain(tags)
    ensures Highest(floor, tags) == floor
  {
    hide Ranked;
    if tags != [] {
      HighestOfPlain(floor, tags[..|tags| - 1]);
    }
  }

  // ---- applying a marking ----

  // The configured floor, and the tags beside it, none of which is a class tag.
  datatype Mark = Mark(floor: Option<nat>, others: Tags) {
    predicate Valid() {
      (floor.Some? ==> floor.value < 5) && forall t :: t in others ==> !IsClass(t)
    }
  }

  // One class tag, where the wire's first was or in front.
  function Classified(floor: nat, tags: Tags): Tags
    requires floor < 5
  {
    UnrankedLength(tags);
    var at := if FirstRanked(tags) < |tags| then FirstRanked(tags) else 0;
    var rest := Unranked(tags);
    rest[..at] + [ClassTag(Highest(floor, tags))] + rest[at..]
  }

  function Applied(m: Mark, tags: Tags): Tags
    requires m.Valid()
  {
    AddMissing(if m.floor.Some? then Classified(m.floor.value, tags) else tags, m.others)
  }

  class EventTags {
    var tags: Tags

    constructor (tags: Tags)
      ensures this.tags == tags
    {
      this.tags := tags;
    }

    // `Marking::apply`, in place.
    method Apply(m: Mark)
      requires m.Valid()
      modifies this
      ensures tags == Applied(m, old(tags))
    {
      hide Ranked, ClassTag;
      if m.floor.Some? {
        var highest, at, rest := m.floor.value, |tags|, [];
        for i := 0 to |tags|
          invariant highest == Highest(m.floor.value, tags[..i])
          invariant rest == Unranked(tags[..i])
          invariant at == if FirstRanked(tags) < i then FirstRanked(tags) else |tags|
        {
          assert tags[..i + 1][..i] == tags[..i];
          var r := Ranked(tags[i]);
          if r.Some? {
            if r.value > highest {
              highest := r.value;
            }
            if at == |tags| {
              at := i;
            }
          } else {
            rest := rest + [tags[i]];
          }
        }
        assert tags[..|tags|] == tags;
        UnrankedLength(tags);
        if at == |tags| {
          at := 0;
        }
        tags := rest[..at] + [ClassTag(highest)] + rest[at..];
      }
      ghost var base := tags;
      for i := 0 to |m.others|
        invariant AddMissing(tags, m.others[i..]) == AddMissing(base, m.others)
      {
        assert m.others[i..][0] == m.others[i] && m.others[i..][1..] == m.others[i + 1..];
        if m.others[i] !in tags {
          tags := tags + [m.others[i]];
        }
      }
    }
  }

  // ---- what it guarantees ----

  lemma {:induction false} AddMissingParts(tags: Tags, extra: Tags)
    ensures tags <= AddMissing(tags, extra)
    ensures forall t :: t in extra ==> t in AddMissing(tags, extra)
    ensures forall t :: t in AddMissing(tags, extra)[|tags|..] ==> t in extra && t !in tags
    decreases |extra|
  {
    if extra != [] {
      var x, rest := extra[0], extra[1..];
      var next := if x in tags then tags else tags + [x];
      AddMissingParts(next, rest);
      var r := AddMissing(next, rest);
      assert extra == [x] + rest;
      assert x in next;
      assert r[|tags|..] == next[|tags|..] + r[|next|..];
    }
  }

  lemma {:induction false} NothingMissing(tags: Tags, extra: Tags)
    requires forall t :: t in extra ==> t in tags
    ensures AddMissing(tags, extra) == tags
    decreases |extra|
  {
    if extra != [] {
      assert extra[0] in extra;
      NothingMissing(tags, extra[1..]);
    }
  }

  // The result, taken apart: plain tags, the one class tag, plain tags.
  lemma {:induction false} AppliedParts(m: Mark, tags: Tags) returns (a: Tags, b: Tags)
    requires m.Valid() && m.floor.Some?
    ensures Plain(a) && Plain(b)
    ensures Applied(m, tags) == a + [ClassTag(Highest(m.floor.value, tags))] + b
    ensures Unranked(tags) <= a + b
    ensures |a| == if FirstRanked(tags) < |tags| then FirstRanked(tags) else 0
    ensures a <= Unranked(tags)
  {
    hide Ranked, ClassTag, Highest, Unranked, FirstRanked, AddMissing;
    UnrankedLength(tags);
    var at := if FirstRanked(tags) < |tags| then FirstRanked(tags) else 0;
    var rest := Unranked(tags);
    var c := ClassTag(Highest(m.floor.value, tags));
    var base := rest[..at] + [c] + rest[at..];
    AddMissingParts(base, m.others);
    var more := Applied(m, tags)[|base|..];
    a, b := rest[..at], rest[at..] + more;
    Regroup(rest, at, c, more, Applied(m, tags));
    OthersArePlain(m, more);
    PlainSlices(rest, at);
    PlainConcat(rest[at..], more);
  }

  lemma Regroup(rest: Tags, at: nat, c: Text, more: Tags, all: Tags)
    requires at <= |rest|
    requires var base := rest[..at] + [c] + rest[at..];
             base <= all && more == all[|base|..]
    ensures all == rest[..at] + [c] + (rest[at..] + more)
    ensures rest <= rest[..at] + (rest[at..] + more) && rest[..at] <= rest
  {
    assert all == (rest[..at] + [c] + rest[at..]) + more;
    assert rest[..at] + (rest[at..] + more) == rest + more;
  }

  lemma OthersArePlain(m: Mark, more: Tags)
    requires m.Valid() && forall t :: t in more ==> t in m.others
    ensures Plain(more)
  {
    hide Level;
    forall i | 0 <= i < |more|
      ensures Ranked(more[i]).None?
    {
      assert more[i] in more;
    }
  }

  lemma PlainSlices(rest: Tags, at: nat)
    requires at <= |rest| && forall t :: t in rest ==> Ranked(t).None?
    ensures Plain(rest[..at]) && Plain(rest[at..])
  {
    hide Ranked;
    forall i | 0 <= i < |rest|
      ensures Ranked(rest[i]).None?
    {
      assert rest[i] in rest;
    }
  }

  lemma PlainConcat(a: Tags, b: Tags)
    requires Plain(a) && Plain(b)
    ensures Plain(a + b)
  {
    hide Ranked;
  }

  // Reading a list with one class tag in it.
  lemma ReadOne(floor: nat, a: Tags, level: nat, b: Tags)
    requires floor < 5 && level < 5 && Plain(a) && Plain(b)
    ensures var tags := a + [ClassTag(level)] + b;
            && FirstRanked(tags) == |a| && Unranked(tags) == a + b
            && Highest(floor, tags) == if level > floor then level else floor
  {
    hide Ranked, ClassTag, Unranked, Highest;
    var c := ClassTag(level);
    ClassTagRanked(level);
    var tags := a + [c] + b;
    FirstRankedAt(tags, |a|);
    UnrankedOfConcat(a + [c], b);
    UnrankedOfConcat(a, [c]);
    UnrankedOfPlain(a);
    UnrankedOfPlain(b);
    HighestOfConcat(floor, a + [c], b);
    HighestOfConcat(floor, a, [c]);
    HighestOfPlain(floor, a);
    OneTag(floor, c, level);
    HighestOfPlain(if level > floor then level else floor, b);
  }

  lemma OneTag(floor: nat, c: Text, level: nat)
    requires floor < 5 && level < 5 && Ranked(c) == Some(level)
    ensures Unranked([c]) == [] && Highest(floor, [c]) == if level > floor then level else floor
  {
    hide Ranked;
    assert [c][..0] == [];
  }

  lemma {:induction false} FirstRankedAt(tags: Tags, i: nat)
    requires i < |tags| && Ranked(tags[i]).Some? && forall j :: 0 <= j < i ==> Ranked(tags[j]).None?
    ensures FirstRanked(tags) == i
    decreases |tags|
  {
    hide Ranked;
    if i > 0 {
      FirstRankedAt(tags[1..], i - 1);
    }
  }

  // Marking leaves exactly one recognised class tag, at the highest of the floor
  // and every level on the wire; it keeps the other tags, in order, in front of
  // what it adds; and the tags it is configured with are all there.
  lemma {:induction false} MarkingMeaning(m: Mark, tags: Tags)
    requires m.Valid() && m.floor.Some?
    ensures var r, h := Applied(m, tags), Highest(m.floor.value, tags);
            && FirstRanked(r) < |r| && r[FirstRanked(r)] == ClassTag(h)
            && |Unranked(r)| + 1 == |r|
            && Unranked(tags) <= Unranked(r)
            && (forall f: nat :: f < 5 ==> Highest(f, r) == if h > f then h else f)
            && (forall t :: t in m.others ==> t in r)
  {
    hide Ranked, ClassTag, Unranked, Highest, Applied, FirstRanked;
    var h := Highest(m.floor.value, tags);
    var a, b := AppliedParts(m, tags);
    forall f: nat | f < 5
      ensures Highest(f, Applied(m, tags)) == if h > f then h else f
    {
      ReadOne(f, a, h, b);
    }
    ReadOne(0, a, h, b);
    OthersThere(m, tags);
  }

  lemma OthersThere(m: Mark, tags: Tags)
    requires m.Valid()
    ensures forall t :: t in m.others ==> t in Applied(m, tags)
  {
    hide Classified, AddMissing;
    AddMissingParts(if m.floor.Some? then Classified(m.floor.value, tags) else tags, m.others);
  }

  // Applying twice is applying once.
  lemma Idempotent(m: Mark, tags: Tags)
    requires m.Valid()
    ensures Applied(m, Applied(m, tags)) == Applied(m, tags)
  {
    hide Ranked, ClassTag, Unranked, Highest, FirstRanked, AddMissing, Classified;
    var r := Applied(m, tags);
    OthersThere(m, tags);
    if m.floor.Some? {
      var a, b := AppliedParts(m, tags);
      ReclassifySame(m.floor.value, a, Highest(m.floor.value, tags), b);
    }
    NothingMissing(r, m.others);
  }

  lemma ReclassifySame(floor: nat, a: Tags, level: nat, b: Tags)
    requires floor <= level < 5 && Plain(a) && Plain(b)
    ensures Classified(floor, a + [ClassTag(level)] + b) == a + [ClassTag(level)] + b
  {
    hide Ranked, ClassTag, Unranked, Highest, FirstRanked;
    ReadOne(floor, a, level, b);
    assert (a + b)[..|a|] == a && (a + b)[|a|..] == b;
  }

  // Two markings give the same level in either order: the highest of all.
  lemma LevelsCommute(m: Mark, n: Mark, tags: Tags)
    requires m.Valid() && n.Valid() && m.floor.Some? && n.floor.Some?
    ensures Highest(0, Applied(n, Applied(m, tags))) == Highest(0, Applied(m, Applied(n, tags)))
    ensures Highest(0, Applied(n, Applied(m, tags)))
            == Highest(if m.floor.value > n.floor.value then m.floor.value else n.floor.value, tags)
  {
    hide Ranked, ClassTag, Unranked, FirstRanked, Applied, Highest;
    MarkingMeaning(m, tags);
    MarkingMeaning(n, tags);
    MarkingMeaning(n, Applied(m, tags));
    MarkingMeaning(m, Applied(n, tags));
    FloorIsMax(m.floor.value, tags);
    FloorIsMax(n.floor.value, tags);
    FloorIsMax(if m.floor.value > n.floor.value then m.floor.value else n.floor.value, tags);
  }

  lemma {:induction false} FloorIsMax(floor: nat, tags: Tags)
    requires floor < 5
    ensures Highest(floor, tags) == if floor > Highest(0, tags) then floor else Highest(0, tags)
  {
    hide Ranked;
    if tags != [] {
      FloorIsMax(floor, tags[..|tags| - 1]);
    }
  }

  // ---- the egress label ----

  // The value of a class tag that a label would show.
  function Shown(t: Text): Option<Text> {
    if IsClass(t) && Trim(t[|CLASS|..]) != [] then Some(Upper(Trim(t[|CLASS|..]))) else None
  }

  // The classification of `confidentiality_label`: the first class tag wins.
  function LabelOf(tags: Tags): Option<Text> {
    if tags == [] then None
    else if Shown(tags[0]).Some? then Shown(tags[0])
    else LabelOf(tags[1..])
  }

  method Classification(tags: Tags) returns (shown: Option<Text>)
    ensures shown == LabelOf(tags)
  {
    hide Shown;
    shown := None;
    for i := 0 to |tags|
      invariant LabelOf(tags) == if shown.Some? then shown else LabelOf(tags[i..])
    {
      assert tags[i..][0] == tags[i] && tags[i..][1..] == tags[i + 1..];
      if shown.None? {
        shown := Shown(tags[i]);
      }
    }
    assert tags[|tags|..] == [];
  }

  lemma ShownClassTag(level: nat)
    requires level < 5
    ensures Shown(ClassTag(level)) == Some(Upper(LevelText(level)))
  {
    hide LevelText, Level;
    CanonicalLevel(level);
    assert ClassTag(level)[|CLASS|..] == LevelText(level);
    assert CLASS <= ClassTag(level);
  }

  // A class tag that shows a level is recognised as that level.
  lemma ShownIsRanked(t: Text, level: nat)
    requires level < 5 && Shown(t) == Some(Upper(LevelText(level)))
    ensures Ranked(t) == Some(level)
  {
    hide LevelText;
    var v, w := Trim(t[|CLASS|..]), LevelText(level);
    CanonicalLevel(level);
    assert |v| == |w|;
    forall i | 0 <= i < |v|
      ensures FoldChar(v[i]) == FoldChar(w[i])
    {
      assert Upper(v)[i] == Upper(w)[i];
    }
    assert Fold(v) == Fold(w);
  }

  lemma {:induction false} LabelSkips(a: Tags, rest: Tags)
    ensures (forall i :: 0 <= i < |a| ==> Shown(a[i]).None?) ==> LabelOf(a + rest) == LabelOf(rest)
    ensures (exists i :: 0 <= i < |a| && Shown(a[i]).Some?) ==>
            exists i :: 0 <= i < |a| && Shown(a[i]).Some? && LabelOf(a + rest) == Shown(a[i])
    decreases |a|
  {
    hide Shown;
    if a == [] {
      assert a + rest == rest;
    } else {
      LabelSkips(a[1..], rest);
      assert (a + rest)[1..] == a[1..] + rest && (a + rest)[0] == a[0];
      assert forall i :: 0 <= i < |a[1..]| ==> a[1..][i] == a[i + 1];
      if Shown(a[0]).None? && exists i :: 0 <= i < |a| && Shown(a[i]).Some? {
        var i :| 0 <= i < |a| && Shown(a[i]).Some?;
        assert Shown(a[1..][i - 1]).Some?;
        var j :| 0 <= j < |a[1..]| && Shown(a[1..][j]).Some? && LabelOf(a[1..] + rest) == Shown(a[1..][j]);
        assert Shown(a[j + 1]).Some? && LabelOf(a + rest) == Shown(a[j + 1]);
      }
    }
  }

  // The label of a marked event shows the resolved level exactly when no class
  // tag with an unknown value stands in front of the wire's first recognised one.
  lemma {:induction false} LabelShowsLevelIff(m: Mark, tags: Tags)
    requires m.Valid() && m.floor.Some?
    ensures (LabelOf(Applied(m, tags)) == Some(Upper(LevelText(Highest(m.floor.value, tags)))))
            <==> (FirstRanked(tags) < |tags| ==> forall i :: 0 <= i < FirstRanked(tags) ==> Shown(tags[i]).None?)
  {
    hide Ranked, ClassTag, Unranked, Highest, FirstRanked, Applied, Shown, LevelText, Upper;
    var h := Highest(m.floor.value, tags);
    var a, b := AppliedParts(m, tags);
    var c := ClassTag(h);
    assert a + [c] + b == a + ([c] + b);
    LabelSkips(a, [c] + b);
    ShownClassTag(h);
    assert LabelOf([c] + b) == Shown(c) by { assert ([c] + b)[0] == c; }
    FrontUnchanged(tags, a);
    if exists i :: 0 <= i < |a| && Shown(a[i]).Some? {
      var i :| 0 <= i < |a| && Shown(a[i]).Some? && LabelOf(a + ([c] + b)) == Shown(a[i]);
      if Shown(a[i]) == Some(Upper(LevelText(h))) {
        ShownIsRanked(a[i], h);
      }
    }
  }

  // It need not: an unknown value in front of a recognised level is shown instead.
  lemma UnknownLevelHides(m: Mark)
    requires m.Valid() && m.floor == Some(0)
    ensures var tags := [CLASS + [120], ClassTag(3)];
            && Highest(0, tags) == 3
            && LabelOf(Applied(m, tags)) == Some([88]) != Some(Upper(LevelText(3)))
  {
    var x: Text := CLASS + [120];
    var tags := [x, ClassTag(3)];
    assert x[|CLASS|..] == [120] && CLASS <= x;
    assert Trim([120]) == [120] && Upper([120]) == [88];
    assert Fold([120]) == [120];
    assert Shown(x) == Some([88]) && Ranked(x) == None;
    hide Shown, Ranked, ClassTag, Level, LevelText, Upper;
    ClassTagRanked(3);
    FirstRankedAt(tags, 1);
    assert tags == [x] + [ClassTag(3)] + [];
    assert Plain([x]) && Plain([]);
    ReadOne(0, [x], 3, []);
    var a, b := AppliedParts(m, tags);
    FrontUnchanged(tags, a);
    assert a == [x];
    assert Applied(m, tags)[0] == x;
  }

  // The plain tags in front of the class tag are the wire's own.
  lemma {:induction false} FrontUnchanged(tags: Tags, a: Tags)
    requires a <= Unranked(tags) && |a| == if FirstRanked(tags) < |tags| then FirstRanked(tags) else 0
    ensures a == tags[..|a|]
  {
    hide Ranked, Unranked, FirstRanked;
    var i := FirstRanked(tags);
    if i < |tags| {
      assert tags == tags[..i] + tags[i..];
      UnrankedOfConcat(tags[..i], tags[i..]);
      UnrankedOfPlain(tags[..i]);
      SamePrefix(a, tags[..i], Unranked(tags[i..]));
    }
  }

  lemma SamePrefix(a: Tags, b: Tags, rest: Tags)
    requires a <= b + rest && |a| == |b|
    ensures a == b
  {
    assert (b + rest)[..|b|] == b;
  }

  // ---- the configuration block ----

  const POLICY: Text := [112, 111, 108, 105, 99, 121, 58]     // policy:
  const REL: Text := [114, 101, 108, 58]                      // rel:
  const CAVEAT: Text := [99, 97, 118, 101, 97, 116, 58]       // caveat:
  const MAX_CONFIG_TAGS := 16
  const MAX_TOKEN := 32

  datatype Config = Config(classification: Option<Text>, policy: Option<Text>, releasableTo: seq<Text>,
                           caveats: seq<Text>)

  datatype MarkingError = Empty | UnknownLevel(level: Text) | BadToken(value: Text) | TooMany(count: nat)

  datatype Marked = Ok(tags: Tags) | Err(error: MarkingError)

  predicate TokenChar(c: Byte) {
    48 <= c <= 57 || 65 <= c <= 90 || c == 45 || c == 95
  }

  // Trimmed, upper case, and only what a tag can carry.
  function Token(raw: Text): Option<Text> {
    var t := Upper(Trim(raw));
    if t != [] && |t| <= MAX_TOKEN && forall c :: c in t ==> TokenChar(c) then Some(t) else None
  }

  function Push(m: Marked, tag: Text): Marked {
    if m.Err? || tag in m.tags then m else Ok(m.tags + [tag])
  }

  function PushToken(m: Marked, prefix: Text, raw: Text): Marked {
    if m.Err? then m
    else if Token(raw).None? then Err(BadToken(raw))
    else Push(m, prefix + Token(raw).value)
  }

  function PushTokens(m: Marked, prefix: Text, raws: seq<Text>): Marked {
    if raws == [] then m else PushToken(PushTokens(m, prefix, raws[..|raws| - 1]), prefix, raws[|raws| - 1])
  }

  function ClassPart(cfg: Config): Marked {
    if cfg.classification.None? then Ok([])
    else if Level(cfg.classification.value).None? then Err(UnknownLevel(cfg.classification.value))
    else Ok([ClassTag(Level(cfg.classification.value).value)])
  }

  // `Marking::from_config`.
  function FromConfig(cfg: Config): Marked {
    var c := ClassPart(cfg);
    var p := if cfg.policy.Some? then PushToken(c, POLICY, cfg.policy.value) else c;
    var r := PushTokens(p, REL, cfg.releasableTo);
    var all := PushTokens(r, CAVEAT, cfg.caveats);
    if all.Err? then all
    else if all.tags == [] then Err(Empty)
    else if |all.tags| > MAX_CONFIG_TAGS then Err(TooMany(|all.tags|))
    else all
  }

  function Others(tags: Tags): Tags {
    if tags == [] then []
    else Others(tags[..|tags| - 1]) + if IsClass(tags[|tags| - 1]) then [] else [tags[|tags| - 1]]
  }

  // How `apply` reads a marking's tags: the first class tag is the floor.
  function FirstClass(tags: Tags): Option<nat> {
    if tags == [] then None
    else if IsClass(tags[0]) then Level(tags[0][|CLASS|..])
    else FirstClass(tags[1..])
  }

  function MarkOf(tags: Tags): Mark {
    Mark(FirstClass(tags), Others(tags))
  }

  // Tags of a marking: a class tag at most in front, no tag twice.
  ghost predicate WellMarked(tags: Tags, level: Option<nat>) {
    && (level.Some? ==> level.value < 5 && tags != [] && tags[0] == ClassTag(level.value))
    && (forall i :: (if level.Some? then 1 else 0) <= i < |tags| ==> !IsClass(tags[i]))
    && (forall i, j :: 0 <= i < j < |tags| ==> tags[i] != tags[j])
  }

  lemma NotClass(t: Text)
    requires |t| >= 2 && (t[0] != CLASS[0] || t[1] != CLASS[1])
    ensures !IsClass(t)
  {
  }

  lemma PushKeeps(m: Marked, prefix: Text, raw: Text, level: Option<nat>)
    requires prefix == POLICY || prefix == REL || prefix == CAVEAT
    requires m.Ok? ==> WellMarked(m.tags, level)
    ensures var r := PushToken(m, prefix, raw);
            r.Ok? ==> WellMarked(r.tags, level)
  {
    hide ClassTag, Token;
    if m.Ok? && Token(raw).Some? {
      var t := prefix + Token(raw).value;
      assert t[0] == prefix[0] && t[1] == prefix[1];
      NotClass(t);
      assert forall i :: 0 <= i < |m.tags| && t !in m.tags ==> m.tags[i] != t;
    }
  }

  lemma {:induction false} PushAllKeeps(m: Marked, prefix: Text, raws: seq<Text>, level: Option<nat>)
    requires prefix == POLICY || prefix == REL || prefix == CAVEAT
    requires m.Ok? ==> WellMarked(m.tags, level)
    ensures var r := PushTokens(m, prefix, raws);
            r.Ok? ==> WellMarked(r.tags, level)
  {
    hide WellMarked, PushToken;
    if raws != [] {
      PushAllKeeps(m, prefix, raws[..|raws| - 1], level);
      PushKeeps(PushTokens(m, prefix, raws[..|raws| - 1]), prefix, raws[|raws| - 1], level);
    }
  }

  // A configured marking has between 1 and 16 distinct tags, and its floor is
  // the configured level.
  lemma ConfigMeaning(cfg: Config)
    requires FromConfig(cfg).Ok?
    ensures var tags := FromConfig(cfg).tags;
            && 1 <= |tags| <= MAX_CONFIG_TAGS
            && (forall i, j :: 0 <= i < j < |tags| ==> tags[i] != tags[j])
            && MarkOf(tags).Valid()
            && MarkOf(tags).floor == (if cfg.classification.Some? then Level(cfg.classification.value) else None)
  {
    hide PushToken, PushTokens, Level, ClassTag;
    var level := if cfg.classification.Some? then Level(cfg.classification.value) else None;
    var c := ClassPart(cfg);
    var p := if cfg.policy.Some? then PushToken(c, POLICY, cfg.policy.value) else c;
    if cfg.policy.Some? {
      PushKeeps(c, POLICY, cfg.policy.value, level);
    }
    PushAllKeeps(p, REL, cfg.releasableTo, level);
    PushAllKeeps(PushTokens(p, REL, cfg.releasableTo), CAVEAT, cfg.caveats, level);
    ReadMarked(FromConfig(cfg).tags, level);
  }

  lemma ReadMarked(tags: Tags, level: Option<nat>)
    requires WellMarked(tags, level)
    ensures MarkOf(tags).Valid() && MarkOf(tags).floor == level
  {
    hide Level, LevelText;
    OthersPlain(tags);
    if level.Some? {
      ClassTagRanked(level.value);
    } else {
      NoClass(tags);
    }
  }

  lemma {:induction false} OthersPlain(tags: Tags)
    ensures forall t :: t in Others(tags) ==> !IsClass(t)
  {
    if tags != [] {
      OthersPlain(tags[..|tags| - 1]);
    }
  }

  lemma {:induction false} NoClass(tags: Tags)
    requires forall i :: 0 <= i < |tags| ==> !IsClass(tags[i])
    ensures FirstClass(tags) == None
  {
    if tags != [] {
      NoClass(tags[1..]);
    }
  }
}
