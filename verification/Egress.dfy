// Rendering a governed event as a consumer's JSON: consumer names on the left of
// the mapping, event paths on the right, and nothing of the event lost.
module Egress {
  import opened Bytes
  import opened Ascii
  import Builder

  type Attribute = Builder.Attribute

  const ATTR: Text := [97, 116, 116, 114, 58]                 // attr:
  const META: Text := [109, 101, 116, 97, 58]                 // meta:
  const ID: Text := [105, 100]                                // id
  const TAGS: Text := [112, 111, 108, 105, 99, 121, 95, 116, 97, 103, 115] // policy_tags
  const EVENT_ID: Text := [101, 118, 101, 110, 116, 95, 105, 100]
  const GOVERNANCE: Text := [103, 111, 118, 101, 114, 110, 97, 110, 99, 101]
  const VERIFIED: Text := [118, 101, 114, 105, 102, 105, 101, 100]
  const CONFIDENTIALITY_LABEL: Text :=
    [99, 111, 110, 102, 105, 100, 101, 110, 116, 105, 97, 108, 105, 116, 121, 95, 108, 97, 98, 101, 108]
  const UNMAPPED: Text := [117, 110, 109, 97, 112, 112, 101, 100]

  // The names render itself writes.
  const RESERVED: set<Text> := {EVENT_ID, TAGS, GOVERNANCE, CONFIDENTIALITY_LABEL, UNMAPPED}

  // JSON as far as render writes it; numbers by their printed form.
  datatype Value =
    | Str(text: Text)
    | Num(text: Text)
    | Arr(items: seq<Text>)
    | Signature(status: Text)
    | Extra(attributes: map<Text, Text>, metadata: map<Text, Text>)

  type Scalar = v: Value | v.Str? || v.Num? witness Str([])

  // `plain` holds the other fields a path can name, those that are present.
  datatype Event = Event(id: Text, policyTags: seq<Text>, plain: map<Text, Scalar>,
                         attributes: seq<Attribute>, metadata: seq<Attribute>)

  datatype Unmapped = Include | Refuse

  type Object = map<Text, Value>

  function Get(xs: seq<Attribute>, key: Text): Option<Text> {
    if xs == [] then None
    else if xs[0].key == key then Some(xs[0].value)
    else Get(xs[1..], key)
  }

  function AsStr(v: Option<Text>): Option<Value> {
    if v.Some? then Some(Str(v.value)) else None
  }

  function Lookup(e: Event, path: Text): Option<Value> {
    if ATTR <= path then AsStr(Get(e.attributes, path[|ATTR|..]))
    else if META <= path then AsStr(Get(e.metadata, path[|META|..]))
    else if path == ID then Some(Str(e.id))
    else if path == TAGS then Some(Arr(e.policyTags))
    else if path in e.plain then Some(e.plain[path])
    else None
  }

  // Entries that no path of the mapping names, the last of equal keys.
  function Leftover(xs: seq<Attribute>, prefix: Text, paths: set<Text>): map<Text, Text> {
    if xs == [] then map[]
    else
      var m := Leftover(xs[..|xs| - 1], prefix, paths);
      var x := xs[|xs| - 1];
      if prefix + x.key in paths then m else m[x.key := x.value]
  }

  function Mapped(e: Event, fields: map<Text, Text>): Object {
    map c | c in fields && Lookup(e, fields[c]).Some? :: Lookup(e, fields[c]).value
  }

  predicate HasLeftover(e: Event, fields: map<Text, Text>) {
    Leftover(e.attributes, ATTR, fields.Values) != map[] || Leftover(e.metadata, META, fields.Values) != map[]
  }

  function Put(o: Object, name: Text, v: Option<Value>): Object {
    if v.Some? then o[name := v.value] else o
  }

  // What every object carries beside the mapped fields, written over them.
  function Overlay(o: Object, e: Event, fields: map<Text, Text>, confidentiality: Option<Value>): Object {
    var o1 := Put(o, EVENT_ID, if ID in fields.Values then None else Some(Str(e.id)));
    var o2 := Put(o1, TAGS, if TAGS in fields.Values then None else Some(Arr(e.policyTags)));
    var o3 := Put(o2, GOVERNANCE, Some(Signature(VERIFIED)));
    var o4 := Put(o3, CONFIDENTIALITY_LABEL, confidentiality);
    Put(o4, UNMAPPED, if HasLeftover(e, fields) then Some(ExtraOf(e, fields)) else None)
  }

  function ExtraOf(e: Event, fields: map<Text, Text>): Value {
    Extra(Leftover(e.attributes, ATTR, fields.Values), Leftover(e.metadata, META, fields.Values))
  }

  function Rendered(e: Event, fields: map<Text, Text>, unmapped: Unmapped, confidentiality: Option<Value>)
    : Option<Object>
  {
    if unmapped.Refuse? && HasLeftover(e, fields) then None
    else Some(Overlay(Mapped(e, fields), e, fields, confidentiality))
  }

  // ---- the program ----

  // The entries of a list that the mapping does not name, collected one by one.
  method CollectLeftover(xs: seq<Attribute>, prefix: Text, paths: set<Text>) returns (extra: map<Text, Text>)
    ensures extra == Leftover(xs, prefix, paths)
  {
    extra := map[];
    for i := 0 to |xs|
      invariant extra == Leftover(xs[..i], prefix, paths)
    {
      assert xs[..i + 1][..i] == xs[..i];
      if prefix + xs[i].key !in paths {
        extra := extra[xs[i].key := xs[i].value];
      }
    }
    assert xs[..|xs|] == xs;
  }

  method Render(e: Event, fields: map<Text, Text>, unmapped: Unmapped, confidentiality: Option<Value>)
    returns (r: Option<Object>)
    ensures r == Rendered(e, fields, unmapped, confidentiality)
  {
    hide Lookup, Leftover;
    var out: Object := map[];
    var todo := fields.Keys;
    while todo != {}
      invariant todo <= fields.Keys
      invariant out == map c | c in fields && c !in todo && Lookup(e, fields[c]).Some? :: Lookup(e, fields[c]).value
      decreases todo
    {
      var c :| c in todo;
      todo := todo - {c};
      var v := Lookup(e, fields[c]);
      if v.Some? {
        out := out[c := v.value];
      }
    }
    assert out == Mapped(e, fields);
    if ID !in fields.Values {
      out := out[EVENT_ID := Str(e.id)];
    }
    if TAGS !in fields.Values {
      out := out[TAGS := Arr(e.policyTags)];
    }
    out := out[GOVERNANCE := Signature(VERIFIED)];
    if confidentiality.Some? {
      out := out[CONFIDENTIALITY_LABEL := confidentiality.value];
    }
    var attrs := CollectLeftover(e.attributes, ATTR, fields.Values);
    var meta := CollectLeftover(e.metadata, META, fields.Values);
    if attrs != map[] || meta != map[] {
      if unmapped.Refuse? {
        return None;
      }
      out := out[UNMAPPED := Extra(attrs, meta)];
    }
    return Some(out);
  }

  // ---- reading the event back ----

  // The names render writes itself for this event, over whatever the mapping put
  // there.
  function Written(e: Event, fields: map<Text, Text>, confidentiality: Option<Value>): set<Text> {
    (if ID in fields.Values then {} else {EVENT_ID})
    + (if TAGS in fields.Values then {} else {TAGS})
    + {GOVERNANCE}
    + (if confidentiality.Some? then {CONFIDENTIALITY_LABEL} else {})
    + (if HasLeftover(e, fields) then {UNMAPPED} else {})
  }

  // A path survives when the mapping leaves it to render, or gives it at least
  // one name that render does not write.
  ghost predicate Kept(fields: map<Text, Text>, written: set<Text>, path: Text) {
    path !in fields.Values || exists c :: c in fields && c !in written && fields[c] == path
  }

  // A consumer that knows the mapping finds a value under a name mapped to its
  // path that render did not write.
  ghost predicate ShowsMapped(out: Object, fields: map<Text, Text>, written: set<Text>, path: Text, v: Value) {
    exists c :: c in fields && c !in written && c in out && fields[c] == path && out[c] == v
  }

  // An entry is there or among the unmapped ones.
  ghost predicate ShowsAttribute(out: Object, fields: map<Text, Text>, written: set<Text>, k: Text, v: Text) {
    || ShowsMapped(out, fields, written, ATTR + k, Str(v))
    || (UNMAPPED in written && UNMAPPED in out && out[UNMAPPED].Extra?
        && k in out[UNMAPPED].attributes && out[UNMAPPED].attributes[k] == v)
  }

  ghost predicate ShowsMetadata(out: Object, fields: map<Text, Text>, written: set<Text>, k: Text, v: Text) {
    || ShowsMapped(out, fields, written, META + k, Str(v))
    || (UNMAPPED in written && UNMAPPED in out && out[UNMAPPED].Extra?
        && k in out[UNMAPPED].metadata && out[UNMAPPED].metadata[k] == v)
  }

  // The id and the tags are under their own names when nothing is mapped to them.
  ghost predicate ShowsId(out: Object, fields: map<Text, Text>, written: set<Text>, id: Text) {
    || ShowsMapped(out, fields, written, ID, Str(id))
    || (EVENT_ID in written && EVENT_ID in out && out[EVENT_ID] == Str(id))
  }

  ghost predicate ShowsTags(out: Object, fields: map<Text, Text>, written: set<Text>, tags: seq<Text>) {
    || ShowsMapped(out, fields, written, TAGS, Arr(tags))
    || (TAGS in written && TAGS in out && out[TAGS] == Arr(tags))
  }

  // The object shows all of the event's id, tags and entries.
  ghost predicate ShowsAll(out: Object, fields: map<Text, Text>, written: set<Text>, e: Event) {
    && ShowsId(out, fields, written, e.id)
    && ShowsTags(out, fields, written, e.policyTags)
    && (forall a :: a in e.attributes ==> ShowsAttribute(out, fields, written, a.key, a.value))
    && (forall m :: m in e.metadata ==> ShowsMetadata(out, fields, written, m.key, m.value))
  }

  // What a caller can check of the mapping and the event before rendering.
  ghost predicate AllKept(e: Event, fields: map<Text, Text>, written: set<Text>) {
    && Kept(fields, written, ID)
    && Kept(fields, written, TAGS)
    && (forall a :: a in e.attributes ==> Kept(fields, written, ATTR + a.key))
    && (forall m :: m in e.metadata ==> Kept(fields, written, META + m.key))
  }

  ghost predicate UniqueKeys(xs: seq<Attribute>) {
    forall i, j :: 0 <= i < j < |xs| ==> xs[i].key != xs[j].key
  }

  // A mapping whose consumer names stay clear of the ones render may write.
  ghost predicate Clear(fields: map<Text, Text>) {
    fields.Keys !! RESERVED
  }

  lemma {:induction false} GetIsIn(xs: seq<Attribute>, k: Text, v: Text)
    requires UniqueKeys(xs)
    ensures Get(xs, k) == Some(v) <==> Builder.Attribute(k, v) in xs
    decreases |xs|
  {
    if xs != [] {
      assert xs == [xs[0]] + xs[1..];
      GetIsIn(xs[1..], k, v);
      if xs[0].key == k {
        assert forall i :: 0 <= i < |xs[1..]| ==> xs[1..][i].key == xs[i + 1].key != k;
      }
    }
  }

  lemma {:induction false} LeftoverIs(xs: seq<Attribute>, prefix: Text, paths: set<Text>, k: Text, v: Text)
    requires UniqueKeys(xs)
    ensures var m := Leftover(xs, prefix, paths);
            (k in m && m[k] == v) <==> (prefix + k !in paths && Builder.Attribute(k, v) in xs)
    decreases |xs|
  {
    if xs != [] {
      var n := |xs| - 1;
      assert xs == xs[..n] + [xs[n]];
      LeftoverIs(xs[..n], prefix, paths, k, v);
      if xs[n].key == k {
        assert forall i :: 0 <= i < n ==> xs[..n][i].key == xs[i].key != k;
      }
    }
  }

  // Where a path leads.
  lemma LookupEntry(e: Event, k: Text)
    ensures Lookup(e, ATTR + k) == AsStr(Get(e.attributes, k))
    ensures Lookup(e, META + k) == AsStr(Get(e.metadata, k))
  {
    assert (ATTR + k)[|ATTR|..] == k && (META + k)[|META|..] == k;
    assert (META + k)[0] == META[0] && ATTR[0] != META[0];
  }

  lemma PathsApart()
    ensures !(ATTR <= ID) && !(META <= ID) && !(ATTR <= TAGS) && !(META <= TAGS) && ID != TAGS
  {
    assert TAGS[0] != ATTR[0] && TAGS[0] != META[0];
  }

  lemma NamesApart()
    ensures EVENT_ID != TAGS && EVENT_ID != GOVERNANCE && EVENT_ID != CONFIDENTIALITY_LABEL && EVENT_ID != UNMAPPED
    ensures TAGS != GOVERNANCE && TAGS != CONFIDENTIALITY_LABEL && TAGS != UNMAPPED
    ensures GOVERNANCE != UNMAPPED && CONFIDENTIALITY_LABEL != UNMAPPED && GOVERNANCE != CONFIDENTIALITY_LABEL
  {
    assert |EVENT_ID| == 8 && |UNMAPPED| == 8 && EVENT_ID[0] != UNMAPPED[0];
  }

  // What render writes itself.
  function Own(e: Event, fields: map<Text, Text>, confidentiality: Option<Value>): Object {
    Overlay(map[], e, fields, confidentiality)
  }

  lemma PutMerges(m: Object, own: Object, name: Text, v: Option<Value>)
    ensures Put(m + own, name, v) == m + Put(own, name, v)
    ensures Put(own, name, v).Keys == own.Keys + Named(name, v)
  {
  }

  // The object is the mapped fields with render's own names over them.
  lemma RenderedIsMerge(e: Event, fields: map<Text, Text>, confidentiality: Option<Value>)
    ensures Rendered(e, fields, Include, confidentiality)
            == Some(Mapped(e, fields) + Own(e, fields, confidentiality))
    ensures Own(e, fields, confidentiality).Keys == Written(e, fields, confidentiality)
  {
    hide Mapped, Overlay, Written;
    var none: Object := map[];
    assert Mapped(e, fields) + none == Mapped(e, fields);
    OverlayMerges(Mapped(e, fields), none, e, fields, confidentiality);
  }

  lemma OverlayMerges(m: Object, own: Object, e: Event, fields: map<Text, Text>, confidentiality: Option<Value>)
    ensures Overlay(m + own, e, fields, confidentiality) == m + Overlay(own, e, fields, confidentiality)
    ensures own == map[] ==> Overlay(own, e, fields, confidentiality).Keys == Written(e, fields, confidentiality)
  {
    hide HasLeftover, ExtraOf, Put;
    var v1 := if ID in fields.Values then None else Some(Str(e.id));
    var v2 := if TAGS in fields.Values then None else Some(Arr(e.policyTags));
    var v3 := Some(Signature(VERIFIED));
    var v5 := if HasLeftover(e, fields) then Some(ExtraOf(e, fields)) else None;
    FivePuts(m, own, EVENT_ID, v1, TAGS, v2, GOVERNANCE, v3, CONFIDENTIALITY_LABEL, confidentiality, UNMAPPED, v5);
  }

  function Named(name: Text, v: Option<Value>): set<Text> {
    if v.Some? then {name} else {}
  }

  lemma FivePuts(m: Object, own: Object, a: Text, v1: Option<Value>, b: Text, v2: Option<Value>, c: Text,
                 v3: Option<Value>, d: Text, v4: Option<Value>, f: Text, v5: Option<Value>)
    ensures Put(Put(Put(Put(Put(m + own, a, v1), b, v2), c, v3), d, v4), f, v5)
            == m + Put(Put(Put(Put(Put(own, a, v1), b, v2), c, v3), d, v4), f, v5)
    ensures Put(Put(Put(Put(Put(own, a, v1), b, v2), c, v3), d, v4), f, v5).Keys
            == own.Keys + Named(a, v1) + Named(b, v2) + Named(c, v3) + Named(d, v4) + Named(f, v5)
  {
    hide Put, Named;
    PutMerges(m, own, a, v1);
    var o1 := Put(own, a, v1);
    PutMerges(m, o1, b, v2);
    var o2 := Put(o1, b, v2);
    PutMerges(m, o2, c, v3);
    var o3 := Put(o2, c, v3);
    PutMerges(m, o3, d, v4);
    PutMerges(m, Put(o3, d, v4), f, v5);
  }

  lemma PutKeeps(o: Object, name: Text, v: Option<Value>, c: Text)
    ensures c != name ==> (c in Put(o, name, v) <==> c in o)
    ensures c != name && c in o ==> Put(o, name, v)[c] == o[c]
    ensures v.Some? ==> name in Put(o, name, v) && Put(o, name, v)[name] == v.value
  {
  }

  lemma OwnParts(e: Event, fields: map<Text, Text>, confidentiality: Option<Value>)
    ensures var own := Own(e, fields, confidentiality);
            && (ID !in fields.Values ==> EVENT_ID in own && own[EVENT_ID] == Str(e.id))
            && (TAGS !in fields.Values ==> TAGS in own && own[TAGS] == Arr(e.policyTags))
            && (HasLeftover(e, fields) ==> UNMAPPED in own && own[UNMAPPED] == ExtraOf(e, fields))
  {
    hide HasLeftover, ExtraOf, Put;
    NamesApart();
    var v1 := if ID in fields.Values then None else Some(Str(e.id));
    var v2 := if TAGS in fields.Values then None else Some(Arr(e.policyTags));
    var v5 := if HasLeftover(e, fields) then Some(ExtraOf(e, fields)) else None;
    var o1 := Put(map[], EVENT_ID, v1);
    var o2 := Put(o1, TAGS, v2);
    var o3 := Put(o2, GOVERNANCE, Some(Signature(VERIFIED)));
    var o4 := Put(o3, CONFIDENTIALITY_LABEL, confidentiality);
    forall c | c == EVENT_ID || c == TAGS
      ensures c in o2 ==> c in Put(o4, UNMAPPED, v5) && Put(o4, UNMAPPED, v5)[c] == o2[c]
    {
      PutKeeps(o2, GOVERNANCE, Some(Signature(VERIFIED)), c);
      PutKeeps(o3, CONFIDENTIALITY_LABEL, confidentiality, c);
      PutKeeps(o4, UNMAPPED, v5, c);
    }
    PutKeeps(map[], EVENT_ID, v1, EVENT_ID);
    PutKeeps(o1, TAGS, v2, EVENT_ID);
    PutKeeps(o4, UNMAPPED, v5, UNMAPPED);
  }

  // Which of its names render writes for this event.
  lemma WrittenNames(e: Event, fields: map<Text, Text>, confidentiality: Option<Value>)
    ensures var w := Written(e, fields, confidentiality);
            && (EVENT_ID in w <==> ID !in fields.Values) && (TAGS in w <==> TAGS !in fields.Values)
            && (UNMAPPED in w <==> HasLeftover(e, fields))
  {
    hide HasLeftover;
    NamesApart();
  }

  // The rendered object, part by part.
  lemma RenderedParts(e: Event, fields: map<Text, Text>, confidentiality: Option<Value>)
    ensures var out, w := Rendered(e, fields, Include, confidentiality).value, Written(e, fields, confidentiality);
            && (forall c :: c in fields && c !in w ==> (c in out <==> Lookup(e, fields[c]).Some?))
            && (forall c :: c in fields && c !in w && c in out ==> out[c] == Lookup(e, fields[c]).value)
            && (EVENT_ID in w <==> ID !in fields.Values) && (TAGS in w <==> TAGS !in fields.Values)
            && (UNMAPPED in w <==> HasLeftover(e, fields))
            && (EVENT_ID in w ==> EVENT_ID in out && out[EVENT_ID] == Str(e.id))
            && (TAGS in w ==> TAGS in out && out[TAGS] == Arr(e.policyTags))
            && (UNMAPPED in w ==> UNMAPPED in out && out[UNMAPPED] == ExtraOf(e, fields))
  {
    hide Lookup, HasLeftover, ExtraOf, Own, Rendered, Written;
    RenderedIsMerge(e, fields, confidentiality);
    WrittenNames(e, fields, confidentiality);
    OwnParts(e, fields, confidentiality);
  }

  // A mapped path that leads somewhere is shown at every name that survives, and
  // only its own value is.
  lemma MappedShown(e: Event, fields: map<Text, Text>, confidentiality: Option<Value>, path: Text, v: Value)
    ensures var out, w := Rendered(e, fields, Include, confidentiality).value, Written(e, fields, confidentiality);
            ShowsMapped(out, fields, w, path, v)
            <==> path in fields.Values && Kept(fields, w, path) && Lookup(e, path) == Some(v)
  {
    hide Lookup, Leftover, Rendered, Written;
    RenderedIsMerge(e, fields, confidentiality);
    RenderedParts(e, fields, confidentiality);
    var w := Written(e, fields, confidentiality);
    if path in fields.Values && Kept(fields, w, path) && Lookup(e, path) == Some(v) {
      var c :| c in fields && c !in w && fields[c] == path;
      assert c in Rendered(e, fields, Include, confidentiality).value;
    }
  }

  // An entry is shown exactly when the event has it and its path survives.
  lemma AttributeShownIff(e: Event, fields: map<Text, Text>, confidentiality: Option<Value>, k: Text, v: Text)
    requires UniqueKeys(e.attributes)
    ensures var out, w := Rendered(e, fields, Include, confidentiality).value, Written(e, fields, confidentiality);
            ShowsAttribute(out, fields, w, k, v)
            <==> Builder.Attribute(k, v) in e.attributes && Kept(fields, w, ATTR + k)
  {
    hide Rendered, Written, Leftover, Lookup, UniqueKeys, Get, ShowsMapped;
    RenderedParts(e, fields, confidentiality);
    MappedShown(e, fields, confidentiality, ATTR + k, Str(v));
    LookupEntry(e, k);
    GetIsIn(e.attributes, k, v);
    LeftoverIs(e.attributes, ATTR, fields.Values, k, v);
  }

  lemma MetadataShownIff(e: Event, fields: map<Text, Text>, confidentiality: Option<Value>, k: Text, v: Text)
    requires UniqueKeys(e.metadata)
    ensures var out, w := Rendered(e, fields, Include, confidentiality).value, Written(e, fields, confidentiality);
            ShowsMetadata(out, fields, w, k, v)
            <==> Builder.Attribute(k, v) in e.metadata && Kept(fields, w, META + k)
  {
    hide Rendered, Written, Leftover, Lookup, UniqueKeys, Get, ShowsMapped;
    RenderedParts(e, fields, confidentiality);
    MappedShown(e, fields, confidentiality, META + k, Str(v));
    LookupEntry(e, k);
    GetIsIn(e.metadata, k, v);
    LeftoverIs(e.metadata, META, fields.Values, k, v);
  }

  lemma IdShownIff(e: Event, fields: map<Text, Text>, confidentiality: Option<Value>, id: Text)
    ensures var out, w := Rendered(e, fields, Include, confidentiality).value, Written(e, fields, confidentiality);
            ShowsId(out, fields, w, id) <==> id == e.id && Kept(fields, w, ID)
  {
    RenderedParts(e, fields, confidentiality);
    MappedShown(e, fields, confidentiality, ID, Str(id));
    PathsApart();
    assert Lookup(e, ID) == Some(Str(e.id));
    hide Rendered, Written, Leftover, Lookup, ShowsMapped;
  }

  lemma TagsShownIff(e: Event, fields: map<Text, Text>, confidentiality: Option<Value>, tags: seq<Text>)
    ensures var out, w := Rendered(e, fields, Include, confidentiality).value, Written(e, fields, confidentiality);
            ShowsTags(out, fields, w, tags) <==> tags == e.policyTags && Kept(fields, w, TAGS)
  {
    RenderedParts(e, fields, confidentiality);
    MappedShown(e, fields, confidentiality, TAGS, Arr(tags));
    PathsApart();
    assert Lookup(e, TAGS) == Some(Arr(e.policyTags));
    hide Rendered, Written, Leftover, Lookup, ShowsMapped;
  }

  // Rendering with Include always renders, and shows the whole event exactly
  // when every path of it survives.
  lemma NothingLostIff(e: Event, fields: map<Text, Text>, confidentiality: Option<Value>)
    requires UniqueKeys(e.attributes) && UniqueKeys(e.metadata)
    ensures var r, w := Rendered(e, fields, Include, confidentiality), Written(e, fields, confidentiality);
            r.Some? && (ShowsAll(r.value, fields, w, e) <==> AllKept(e, fields, w))
  {
    hide Rendered, Written, ShowsAttribute, ShowsMetadata, ShowsId, ShowsTags, Kept, UniqueKeys;
    RenderedIsMerge(e, fields, confidentiality);
    IdShownIff(e, fields, confidentiality, e.id);
    TagsShownIff(e, fields, confidentiality, e.policyTags);
    forall a | a in e.attributes
      ensures ShowsAttribute(Rendered(e, fields, Include, confidentiality).value, fields,
                             Written(e, fields, confidentiality), a.key, a.value)
              <==> Kept(fields, Written(e, fields, confidentiality), ATTR + a.key)
    {
      AttributeShownIff(e, fields, confidentiality, a.key, a.value);
    }
    forall m | m in e.metadata
      ensures ShowsMetadata(Rendered(e, fields, Include, confidentiality).value, fields,
                            Written(e, fields, confidentiality), m.key, m.value)
              <==> Kept(fields, Written(e, fields, confidentiality), META + m.key)
    {
      MetadataShownIff(e, fields, confidentiality, m.key, m.value);
    }
  }

  // So consumer names clear of render's lose nothing, and invent nothing.
  lemma NothingLost(e: Event, fields: map<Text, Text>, confidentiality: Option<Value>)
    requires Clear(fields) && UniqueKeys(e.attributes) && UniqueKeys(e.metadata)
    ensures var r, w := Rendered(e, fields, Include, confidentiality), Written(e, fields, confidentiality);
            && r.Some? && ShowsAll(r.value, fields, w, e)
            && (forall k, v :: ShowsAttribute(r.value, fields, w, k, v) ==> Builder.Attribute(k, v) in e.attributes)
            && (forall k, v :: ShowsMetadata(r.value, fields, w, k, v) ==> Builder.Attribute(k, v) in e.metadata)
  {
    hide Rendered, ShowsAttribute, ShowsMetadata, ShowsAll, UniqueKeys, HasLeftover;
    ClearKeeps(e, fields, confidentiality);
    NothingLostIff(e, fields, confidentiality);
    forall k, v | ShowsAttribute(Rendered(e, fields, Include, confidentiality).value, fields,
                                 Written(e, fields, confidentiality), k, v)
      ensures Builder.Attribute(k, v) in e.attributes
    {
      AttributeShownIff(e, fields, confidentiality, k, v);
    }
    forall k, v | ShowsMetadata(Rendered(e, fields, Include, confidentiality).value, fields,
                                Written(e, fields, confidentiality), k, v)
      ensures Builder.Attribute(k, v) in e.metadata
    {
      MetadataShownIff(e, fields, confidentiality, k, v);
    }
  }

  lemma ClearKeeps(e: Event, fields: map<Text, Text>, confidentiality: Option<Value>)
    requires Clear(fields)
    ensures AllKept(e, fields, Written(e, fields, confidentiality))
  {
    hide HasLeftover;
    var w := Written(e, fields, confidentiality);
    assert w <= RESERVED;
    forall path
      ensures Kept(fields, w, path)
    {
      if path in fields.Values {
        var c :| c in fields && fields[c] == path;
        assert c !in w;
      }
    }
  }

  // A reserved name is harmless for what render would have put there: the id as
  // event_id and the tags as policy_tags, and any entries elsewhere.
  lemma OwnNamesAreKept(e: Event, fields: map<Text, Text>, confidentiality: Option<Value>)
    requires EVENT_ID in fields && fields[EVENT_ID] == ID && TAGS in fields && fields[TAGS] == TAGS
    requires Clear(fields - {EVENT_ID, TAGS})
    requires UniqueKeys(e.attributes) && UniqueKeys(e.metadata)
    ensures ShowsAll(Rendered(e, fields, Include, confidentiality).value, fields,
                     Written(e, fields, confidentiality), e)
  {
    hide Rendered, ShowsAll, UniqueKeys, HasLeftover;
    var w := Written(e, fields, confidentiality);
    assert ID in fields.Values && TAGS in fields.Values;
    NamesApart();
    forall path
      ensures Kept(fields, w, path)
    {
      if path in fields.Values {
        var c :| c in fields && fields[c] == path;
        assert c !in {EVENT_ID, TAGS} ==> c in (fields - {EVENT_ID, TAGS}).Keys && c !in RESERVED;
        assert c !in w;
      }
    }
    NothingLostIff(e, fields, confidentiality);
  }

  // ---- what does not survive is gone ----

  // Events that differ only in paths that do not survive look the same.
  lemma SameObject(e: Event, e': Event, fields: map<Text, Text>, confidentiality: Option<Value>)
    requires Own(e, fields, confidentiality) == Own(e', fields, confidentiality)
    requires forall c :: c in fields && c !in Written(e, fields, confidentiality) ==>
               Lookup(e, fields[c]) == Lookup(e', fields[c])
    ensures Rendered(e, fields, Include, confidentiality) == Rendered(e', fields, Include, confidentiality)
  {
    hide Rendered, Own, Lookup, Written;
    RenderedIsMerge(e, fields, confidentiality);
    RenderedIsMerge(e', fields, confidentiality);
    assert Mapped(e, fields) + Own(e, fields, confidentiality)
        == Mapped(e', fields) + Own(e', fields, confidentiality);
  }

  lemma {:induction false} RevaluedSame(xs: seq<Attribute>, i: nat, v: Text, prefix: Text, paths: set<Text>)
    requires i < |xs| && prefix + xs[i].key in paths
    ensures var ys := xs[i := Builder.Attribute(xs[i].key, v)];
            && Leftover(ys, prefix, paths) == Leftover(xs, prefix, paths)
            && forall k :: k != xs[i].key ==> Get(ys, k) == Get(xs, k)
  {
    var ys := xs[i := Builder.Attribute(xs[i].key, v)];
    LeftoverSame(xs, i, v, prefix, paths);
    forall k | k != xs[i].key
      ensures Get(ys, k) == Get(xs, k)
    {
      GetSame(xs, i, v, k);
    }
  }

  lemma {:induction false} LeftoverSame(xs: seq<Attribute>, i: nat, v: Text, prefix: Text, paths: set<Text>)
    requires i < |xs| && prefix + xs[i].key in paths
    ensures Leftover(xs[i := Builder.Attribute(xs[i].key, v)], prefix, paths) == Leftover(xs, prefix, paths)
    decreases |xs|
  {
    var n := |xs| - 1;
    var ys := xs[i := Builder.Attribute(xs[i].key, v)];
    if i < n {
      LeftoverSame(xs[..n], i, v, prefix, paths);
      assert ys[..n] == xs[..n][i := Builder.Attribute(xs[i].key, v)];
    } else {
      assert ys[..n] == xs[..n];
    }
  }

  lemma {:induction false} GetSame(xs: seq<Attribute>, i: nat, v: Text, k: Text)
    requires i < |xs| && k != xs[i].key
    ensures Get(xs[i := Builder.Attribute(xs[i].key, v)], k) == Get(xs, k)
    decreases |xs|
  {
    var ys := xs[i := Builder.Attribute(xs[i].key, v)];
    if i > 0 {
      GetSame(xs[1..], i - 1, v, k);
      assert ys[1..] == xs[1..][i - 1 := Builder.Attribute(xs[i].key, v)];
    } else {
      assert ys[1..] == xs[1..];
    }
  }

  // An attribute whose path does not survive can have any value: the object is
  // the same.
  lemma LostAttributeIsGone(e: Event, fields: map<Text, Text>, confidentiality: Option<Value>, i: nat, v: Text)
    requires i < |e.attributes|
    requires !Kept(fields, Written(e, fields, confidentiality), ATTR + e.attributes[i].key)
    ensures var other := e.(attributes := e.attributes[i := Builder.Attribute(e.attributes[i].key, v)]);
            Rendered(other, fields, Include, confidentiality) == Rendered(e, fields, Include, confidentiality)
  {
    hide Rendered, Leftover, Get, Put;
    var k := e.attributes[i].key;
    var other := e.(attributes := e.attributes[i := Builder.Attribute(k, v)]);
    RevaluedSame(e.attributes, i, v, ATTR, fields.Values);
    forall path | path != ATTR + k
      ensures Lookup(other, path) == Lookup(e, path)
    {
      if ATTR <= path {
        assert path == ATTR + path[|ATTR|..];
      }
    }
    assert Own(other, fields, confidentiality) == Own(e, fields, confidentiality);
    hide Own, Lookup, Written;
    SameObject(e, other, fields, confidentiality);
  }

  lemma LostMetadataIsGone(e: Event, fields: map<Text, Text>, confidentiality: Option<Value>, i: nat, v: Text)
    requires i < |e.metadata|
    requires !Kept(fields, Written(e, fields, confidentiality), META + e.metadata[i].key)
    ensures var other := e.(metadata := e.metadata[i := Builder.Attribute(e.metadata[i].key, v)]);
            Rendered(other, fields, Include, confidentiality) == Rendered(e, fields, Include, confidentiality)
  {
    hide Rendered, Leftover, Get, Put;
    var k := e.metadata[i].key;
    var other := e.(metadata := e.metadata[i := Builder.Attribute(k, v)]);
    RevaluedSame(e.metadata, i, v, META, fields.Values);
    forall path | path != META + k
      ensures Lookup(other, path) == Lookup(e, path)
    {
      if META <= path {
        assert path == META + path[|META|..];
      }
    }
    assert Own(other, fields, confidentiality) == Own(e, fields, confidentiality);
    hide Own, Lookup, Written;
    SameObject(e, other, fields, confidentiality);
  }

  // So can a lost id, and lost tags.
  lemma LostIdIsGone(e: Event, fields: map<Text, Text>, confidentiality: Option<Value>, id: Text)
    requires !Kept(fields, Written(e, fields, confidentiality), ID)
    ensures Rendered(e.(id := id), fields, Include, confidentiality) == Rendered(e, fields, Include, confidentiality)
  {
    hide Rendered, Leftover, Get, Put;
    assert Own(e.(id := id), fields, confidentiality) == Own(e, fields, confidentiality);
    assert forall path :: path != ID ==> Lookup(e.(id := id), path) == Lookup(e, path);
    hide Own, Lookup, Written;
    SameObject(e, e.(id := id), fields, confidentiality);
  }

  lemma LostTagsAreGone(e: Event, fields: map<Text, Text>, confidentiality: Option<Value>, tags: seq<Text>)
    requires !Kept(fields, Written(e, fields, confidentiality), TAGS)
    ensures Rendered(e.(policyTags := tags), fields, Include, confidentiality)
            == Rendered(e, fields, Include, confidentiality)
  {
    hide Rendered, Leftover, Get, Put;
    assert Own(e.(policyTags := tags), fields, confidentiality) == Own(e, fields, confidentiality);
    assert forall path :: path != TAGS ==> Lookup(e.(policyTags := tags), path) == Lookup(e, path);
    hide Own, Lookup, Written;
    SameObject(e, e.(policyTags := tags), fields, confidentiality);
  }

  // ---- the object determines the event ----

  ghost predicate SameContent(e: Event, e': Event) {
    && e.id == e'.id && e.policyTags == e'.policyTags
    && (forall a :: a in e.attributes <==> a in e'.attributes)
    && (forall m :: m in e.metadata <==> m in e'.metadata)
  }

  // Whatever event renders to the same object has the same content.
  ghost predicate Determined(e: Event, fields: map<Text, Text>, confidentiality: Option<Value>) {
    forall e': Event :: UniqueKeys(e'.attributes) && UniqueKeys(e'.metadata)
                        && Rendered(e', fields, Include, confidentiality)
                           == Rendered(e, fields, Include, confidentiality)
                        ==> SameContent(e, e')
  }

  predicate IsContent(path: Text) {
    path == ID || path == TAGS || ATTR <= path || META <= path
  }

  // Every content path the mapping names survives.
  ghost predicate MappingKept(fields: map<Text, Text>, written: set<Text>) {
    forall c :: c in fields && IsContent(fields[c]) ==> Kept(fields, written, fields[c])
  }

  lemma KeptWhenMapped(fields: map<Text, Text>, written: set<Text>, path: Text)
    requires MappingKept(fields, written) && IsContent(path)
    ensures Kept(fields, written, path)
  {
    if path in fields.Values {
      var c :| c in fields && fields[c] == path;
    }
  }

  // The object tells which names render wrote.
  lemma SameWritten(e: Event, e': Event, fields: map<Text, Text>, confidentiality: Option<Value>)
    requires Rendered(e, fields, Include, confidentiality) == Rendered(e', fields, Include, confidentiality)
    ensures Written(e, fields, confidentiality) == Written(e', fields, confidentiality)
  {
    assert HasLeftover(e, fields) == HasLeftover(e', fields) by {
      hide Rendered, Lookup, Leftover, Written;
      RenderedParts(e, fields, confidentiality);
      RenderedParts(e', fields, confidentiality);
      UnmappedTells(e, fields, confidentiality);
      UnmappedTells(e', fields, confidentiality);
    }
    hide HasLeftover;
  }

  lemma UnmappedTells(e: Event, fields: map<Text, Text>, confidentiality: Option<Value>)
    ensures var r := Rendered(e, fields, Include, confidentiality);
            r.Some? && (HasLeftover(e, fields) <==> UNMAPPED in r.value && r.value[UNMAPPED].Extra?)
  {
    hide Rendered, Leftover, Own, Written, Lookup;
    RenderedIsMerge(e, fields, confidentiality);
    RenderedParts(e, fields, confidentiality);
    if UNMAPPED !in Written(e, fields, confidentiality) && UNMAPPED in Mapped(e, fields) {
      LookupIsNoExtra(e, fields[UNMAPPED]);
    }
  }

  lemma LookupIsNoExtra(e: Event, path: Text)
    ensures Lookup(e, path).Some? ==> !Lookup(e, path).value.Extra?
  {
  }

  // An event that renders to the same object has at least the same entries.
  lemma SameEntries(e: Event, e': Event, fields: map<Text, Text>, confidentiality: Option<Value>, a: Attribute)
    requires UniqueKeys(e.attributes) && UniqueKeys(e'.attributes)
    requires UniqueKeys(e.metadata) && UniqueKeys(e'.metadata)
    requires Rendered(e, fields, Include, confidentiality) == Rendered(e', fields, Include, confidentiality)
    requires MappingKept(fields, Written(e, fields, confidentiality))
    ensures a in e.attributes <==> a in e'.attributes
    ensures a in e.metadata <==> a in e'.metadata
  {
    hide Rendered, Written, UniqueKeys, MappingKept, Kept, ShowsAttribute, ShowsMetadata;
    SameWritten(e, e', fields, confidentiality);
    var w := Written(e, fields, confidentiality);
    RenderedIsMerge(e, fields, confidentiality);
    RenderedIsMerge(e', fields, confidentiality);
    assert ATTR <= ATTR + a.key && META <= META + a.key;
    KeptWhenMapped(fields, w, ATTR + a.key);
    KeptWhenMapped(fields, w, META + a.key);
    assert a == Builder.Attribute(a.key, a.value);
    AttributeShownIff(e, fields, confidentiality, a.key, a.value);
    AttributeShownIff(e', fields, confidentiality, a.key, a.value);
    MetadataShownIff(e, fields, confidentiality, a.key, a.value);
    MetadataShownIff(e', fields, confidentiality, a.key, a.value);
  }

  lemma SameIdAndTags(e: Event, e': Event, fields: map<Text, Text>, confidentiality: Option<Value>)
    requires Rendered(e, fields, Include, confidentiality) == Rendered(e', fields, Include, confidentiality)
    requires MappingKept(fields, Written(e, fields, confidentiality))
    ensures e.id == e'.id && e.policyTags == e'.policyTags
  {
    hide Rendered, Written, MappingKept, Kept, ShowsId, ShowsTags;
    SameWritten(e, e', fields, confidentiality);
    var w := Written(e, fields, confidentiality);
    KeptWhenMapped(fields, w, ID);
    KeptWhenMapped(fields, w, TAGS);
    RenderedIsMerge(e, fields, confidentiality);
    RenderedIsMerge(e', fields, confidentiality);
    IdShownIff(e, fields, confidentiality, e.id);
    IdShownIff(e', fields, confidentiality, e.id);
    TagsShownIff(e, fields, confidentiality, e.policyTags);
    TagsShownIff(e', fields, confidentiality, e.policyTags);
  }

  lemma KeptDetermines(e: Event, fields: map<Text, Text>, confidentiality: Option<Value>)
    requires UniqueKeys(e.attributes) && UniqueKeys(e.metadata)
    requires MappingKept(fields, Written(e, fields, confidentiality))
    ensures Determined(e, fields, confidentiality)
  {
    hide Rendered, Written, UniqueKeys, MappingKept;
    forall e': Event | UniqueKeys(e'.attributes) && UniqueKeys(e'.metadata)
                       && Rendered(e', fields, Include, confidentiality)
                          == Rendered(e, fields, Include, confidentiality)
      ensures SameContent(e, e')
    {
      SameIdAndTags(e, e', fields, confidentiality);
      forall a: Attribute
        ensures (a in e.attributes <==> a in e'.attributes) && (a in e.metadata <==> a in e'.metadata)
      {
        SameEntries(e, e', fields, confidentiality, a);
      }
    }
  }

  lemma {:induction false} AddedSame(xs: seq<Attribute>, x: Attribute, prefix: Text, paths: set<Text>)
    requires prefix + x.key in paths
    ensures Leftover(xs + [x], prefix, paths) == Leftover(xs, prefix, paths)
    ensures forall k :: k != x.key ==> Get(xs + [x], k) == Get(xs, k)
    decreases |xs|
  {
    assert (xs + [x])[..|xs|] == xs;
    forall k | k != x.key
      ensures Get(xs + [x], k) == Get(xs, k)
    {
      GetAdded(xs, x, k);
    }
  }

  lemma {:induction false} GetAdded(xs: seq<Attribute>, x: Attribute, k: Text)
    requires k != x.key
    ensures Get(xs + [x], k) == Get(xs, k)
    decreases |xs|
  {
    if xs != [] {
      assert (xs + [x])[1..] == xs[1..] + [x] && (xs + [x])[0] == xs[0];
      GetAdded(xs[1..], x, k);
    } else {
      assert ([] + [x])[1..] == [];
    }
  }

  // An entry the event does not have, at a path that does not survive, can be
  // added and the object is the same.
  lemma AddedAttributeIsUnseen(e: Event, fields: map<Text, Text>, confidentiality: Option<Value>, x: Attribute)
    requires !Kept(fields, Written(e, fields, confidentiality), ATTR + x.key)
    ensures var other := e.(attributes := e.attributes + [x]);
            Rendered(other, fields, Include, confidentiality) == Rendered(e, fields, Include, confidentiality)
  {
    hide Rendered, Leftover, Get, Put;
    var other := e.(attributes := e.attributes + [x]);
    AddedSame(e.attributes, x, ATTR, fields.Values);
    forall path | path != ATTR + x.key
      ensures Lookup(other, path) == Lookup(e, path)
    {
      if ATTR <= path {
        assert path == ATTR + path[|ATTR|..];
      }
    }
    assert Own(other, fields, confidentiality) == Own(e, fields, confidentiality);
    hide Own, Lookup, Written;
    SameObject(e, other, fields, confidentiality);
  }

  lemma AddedMetadataIsUnseen(e: Event, fields: map<Text, Text>, confidentiality: Option<Value>, x: Attribute)
    requires !Kept(fields, Written(e, fields, confidentiality), META + x.key)
    ensures var other := e.(metadata := e.metadata + [x]);
            Rendered(other, fields, Include, confidentiality) == Rendered(e, fields, Include, confidentiality)
  {
    hide Rendered, Leftover, Get, Put;
    var other := e.(metadata := e.metadata + [x]);
    AddedSame(e.metadata, x, META, fields.Values);
    forall path | path != META + x.key
      ensures Lookup(other, path) == Lookup(e, path)
    {
      if META <= path {
        assert path == META + path[|META|..];
      }
    }
    assert Own(other, fields, confidentiality) == Own(e, fields, confidentiality);
    hide Own, Lookup, Written;
    SameObject(e, other, fields, confidentiality);
  }

  // Another list that differs at one key only: its value changed if it is there,
  // added if it is not.
  lemma AnotherList(xs: seq<Attribute>, k: Text) returns (there: bool, i: nat, x: Attribute)
    requires UniqueKeys(xs)
    ensures x.key == k
    ensures there ==> && i < |xs| && xs[i].key == k
                      && UniqueKeys(xs[i := x]) && xs[i] in xs && xs[i] !in xs[i := x]
    ensures !there ==> UniqueKeys(xs + [x]) && x !in xs
  {
    if j :| 0 <= j < |xs| && xs[j].key == k {
      there, i, x := true, j, Builder.Attribute(k, xs[j].value + [0]);
      assert |x.value| != |xs[j].value|;
    } else {
      there, i, x := false, 0, Builder.Attribute(k, []);
    }
  }

  lemma LostIsUndetermined(e: Event, fields: map<Text, Text>, confidentiality: Option<Value>, path: Text)
    requires UniqueKeys(e.attributes) && UniqueKeys(e.metadata)
    requires IsContent(path) && !Kept(fields, Written(e, fields, confidentiality), path)
    ensures !Determined(e, fields, confidentiality)
  {
    hide Rendered, Written, Kept, UniqueKeys;
    var other: Event;
    if path == ID {
      other := e.(id := e.id + [0]);
      assert |other.id| != |e.id|;
      LostIdIsGone(e, fields, confidentiality, other.id);
    } else if path == TAGS {
      other := e.(policyTags := e.policyTags + [[]]);
      assert |other.policyTags| != |e.policyTags|;
      LostTagsAreGone(e, fields, confidentiality, other.policyTags);
    } else if ATTR <= path {
      var k := path[|ATTR|..];
      assert path == ATTR + k;
      var there, i, x := AnotherList(e.attributes, k);
      if there {
        other := e.(attributes := e.attributes[i := x]);
        LostAttributeIsGone(e, fields, confidentiality, i, x.value);
        assert e.attributes[i] in e.attributes && e.attributes[i] !in other.attributes;
      } else {
        other := e.(attributes := e.attributes + [x]);
        AddedAttributeIsUnseen(e, fields, confidentiality, x);
        assert x in other.attributes && x !in e.attributes;
      }
    } else {
      var k := path[|META|..];
      assert path == META + k;
      var there, i, x := AnotherList(e.metadata, k);
      if there {
        other := e.(metadata := e.metadata[i := x]);
        LostMetadataIsGone(e, fields, confidentiality, i, x.value);
        assert e.metadata[i] in e.metadata && e.metadata[i] !in other.metadata;
      } else {
        other := e.(metadata := e.metadata + [x]);
        AddedMetadataIsUnseen(e, fields, confidentiality, x);
        assert x in other.metadata && x !in e.metadata;
      }
    }
    assert !SameContent(e, other);
  }

  // Without any reader: the object determines the event's id, tags and entries
  // exactly when every such path that the mapping names has a name left that
  // render does not write.
  lemma DeterminedIff(e: Event, fields: map<Text, Text>, confidentiality: Option<Value>)
    requires UniqueKeys(e.attributes) && UniqueKeys(e.metadata)
    ensures Determined(e, fields, confidentiality)
            <==> MappingKept(fields, Written(e, fields, confidentiality))
  {
    hide Determined, Written, UniqueKeys, Kept, IsContent;
    var w := Written(e, fields, confidentiality);
    if MappingKept(fields, w) {
      KeptDetermines(e, fields, confidentiality);
    } else {
      var c :| c in fields && IsContent(fields[c]) && !Kept(fields, w, fields[c]);
      LostIsUndetermined(e, fields, confidentiality, fields[c]);
    }
  }

  // With names clear of the five, the object determines the event even between
  // different labels.
  lemma ClearIsInjective(e: Event, e': Event, fields: map<Text, Text>, l: Option<Value>, l': Option<Value>)
    requires Clear(fields) && UniqueKeys(e.attributes) && UniqueKeys(e.metadata)
    requires UniqueKeys(e'.attributes) && UniqueKeys(e'.metadata)
    requires Rendered(e, fields, Include, l) == Rendered(e', fields, Include, l')
    ensures SameContent(e, e')
  {
    hide Rendered, UniqueKeys, Clear;
    ClearIgnoresLabel(e, e', fields, l, l');
    assert MappingKept(fields, Written(e, fields, None)) by { ClearMappingKept(e, fields); }
    KeptDetermines(e, fields, None);
  }

  lemma ClearMappingKept(e: Event, fields: map<Text, Text>)
    requires Clear(fields)
    ensures MappingKept(fields, Written(e, fields, None))
  {
    hide HasLeftover;
    var w := Written(e, fields, None);
    assert w <= RESERVED;
    assert forall c :: c in fields ==> c !in w;
  }

  // The label stands under its own name only.
  lemma ClearIgnoresLabel(e: Event, e': Event, fields: map<Text, Text>, l: Option<Value>, l': Option<Value>)
    requires Clear(fields) && Rendered(e, fields, Include, l) == Rendered(e', fields, Include, l')
    ensures Rendered(e, fields, Include, None) == Rendered(e', fields, Include, None)
  {
    hide Rendered;
    WithoutLabel(e, fields, l);
    WithoutLabel(e', fields, l');
  }

  lemma WithoutLabel(e: Event, fields: map<Text, Text>, l: Option<Value>)
    requires Clear(fields)
    ensures Rendered(e, fields, Include, l).Some? && Rendered(e, fields, Include, None).Some?
    ensures Rendered(e, fields, Include, None).value
            == Rendered(e, fields, Include, l).value - {CONFIDENTIALITY_LABEL}
  {
    hide Lookup, HasLeftover, ExtraOf, Put, Mapped;
    var m := Mapped(e, fields);
    assert CONFIDENTIALITY_LABEL !in m by { MappedNames(e, fields); assert CONFIDENTIALITY_LABEL in RESERVED; }
    var v1 := if ID in fields.Values then None else Some(Str(e.id));
    var v2 := if TAGS in fields.Values then None else Some(Arr(e.policyTags));
    var v5 := if HasLeftover(e, fields) then Some(ExtraOf(e, fields)) else None;
    NamesApart();
    LabelComesOff(m, EVENT_ID, v1, TAGS, v2, GOVERNANCE, Some(Signature(VERIFIED)), CONFIDENTIALITY_LABEL, l,
                  UNMAPPED, v5);
  }

  lemma MappedNames(e: Event, fields: map<Text, Text>)
    ensures Mapped(e, fields).Keys <= fields.Keys
  {
  }

  lemma LabelComesOff(m: Object, a: Text, v1: Option<Value>, b: Text, v2: Option<Value>, c: Text, v3: Option<Value>,
                      d: Text, v4: Option<Value>, f: Text, v5: Option<Value>)
    requires d !in m && d != a && d != b && d != c && d != f
    ensures Put(Put(Put(Put(Put(m, a, v1), b, v2), c, v3), d, None), f, v5)
            == Put(Put(Put(Put(Put(m, a, v1), b, v2), c, v3), d, v4), f, v5) - {d}
  {
    var o := Put(Put(Put(m, a, v1), b, v2), c, v3);
    assert d !in o;
    assert Put(o, d, None) == Put(o, d, v4) - {d};
    assert Put(Put(o, d, v4) - {d}, f, v5) == Put(Put(o, d, v4), f, v5) - {d};
  }

  // Each of the five names can lose an attribute: it is mapped to that name
  // alone, and the event has a label and an entry the mapping does not name.
  lemma ReservedNameLoses(name: Text, k: Text, v: Text, id: Text, confidentiality: Value)
    requires name in RESERVED
    ensures var e := Event(id, [], map[], [Builder.Attribute(k, v)], [Builder.Attribute(k, v)]);
            var fields, l := map[name := ATTR + k], Some(confidentiality);
            var w := Written(e, fields, l);
            name in w && !ShowsAttribute(Rendered(e, fields, Include, l).value, fields, w, k, v)
  {
    hide Rendered, Leftover, ShowsAttribute, Written;
    var e := Event(id, [], map[], [Builder.Attribute(k, v)], [Builder.Attribute(k, v)]);
    var fields, l := map[name := ATTR + k], Some(confidentiality);
    var w := Written(e, fields, l);
    OnlyAttributePath(name, k, e, l);
    assert fields[name] == ATTR + k;
    assert ATTR + k in fields.Values && !Kept(fields, w, ATTR + k);
    AttributeShownIff(e, fields, l, k, v);
  }

  // A mapping that names one attribute alone leaves every other name to render.
  lemma OnlyAttributePath(name: Text, k: Text, e: Event, l: Option<Value>)
    requires e.metadata != [] && l.Some?
    ensures Written(e, map[name := ATTR + k], l) == RESERVED
  {
    hide Leftover;
    var fields := map[name := ATTR + k];
    assert forall p :: p in fields.Values ==> p == ATTR + k;
    assert (ATTR + k)[0] == ATTR[0] && (META + e.metadata[0].key)[0] == META[0];
    assert META + e.metadata[0].key !in fields.Values;
    LeftoverEmpty(e.metadata, META, fields.Values);
    assert e.metadata[0] in e.metadata;
    assert HasLeftover(e, fields);
    PathsApart();
    AttributePath(k);
  }

  lemma AttributePath(k: Text)
    ensures ATTR + k != ID && ATTR + k != TAGS
  {
    assert (ATTR + k)[0] == ATTR[0] && ID[0] != ATTR[0] && TAGS[0] != ATTR[0];
  }

  // Refuse succeeds exactly when the mapping names every attribute and every
  // metadata key, and then the object is the one Include renders.
  lemma RefuseIff(e: Event, fields: map<Text, Text>, confidentiality: Option<Value>)
    ensures Rendered(e, fields, Refuse, confidentiality).Some?
            <==> && (forall a :: a in e.attributes ==> ATTR + a.key in fields.Values)
                 && (forall m :: m in e.metadata ==> META + m.key in fields.Values)
    ensures Rendered(e, fields, Refuse, confidentiality).Some? ==>
              Rendered(e, fields, Refuse, confidentiality) == Rendered(e, fields, Include, confidentiality)
  {
    hide Overlay, Leftover;
    LeftoverEmpty(e.attributes, ATTR, fields.Values);
    LeftoverEmpty(e.metadata, META, fields.Values);
  }

  lemma {:induction false} LeftoverEmpty(xs: seq<Attribute>, prefix: Text, paths: set<Text>)
    ensures Leftover(xs, prefix, paths) == map[] <==> forall x :: x in xs ==> prefix + x.key in paths
    decreases |xs|
  {
    if xs != [] {
      var n := |xs| - 1;
      assert xs == xs[..n] + [xs[n]];
      LeftoverEmpty(xs[..n], prefix, paths);
      assert forall x :: x in xs <==> x in xs[..n] || x == xs[n];
      if prefix + xs[n].key !in paths {
        assert xs[n].key in Leftover(xs, prefix, paths);
      }
    }
  }
}
