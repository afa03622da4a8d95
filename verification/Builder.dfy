// The canonical event builder: attributes and metadata sorted by key, duplicate
// keys and excess refused, whatever order the setters were called in.
module Builder {
  import opened Bytes
  import opened Ascii
  import opened EventFields

  const MAX_ATTRIBUTES := 128
  const MAX_METADATA := 128
  const MAX_POLICY_TAGS := 64

  datatype Attribute = Attribute(key: Text, value: Text)

  // What the other setters set.
  datatype Fixed = Fixed(sourceId: Text, entityType: Text, id: Option<Text>, timestamp: Option<Text>,
                         location: Option<GeoPoint>, payload: Text, confidence: Float, strictNamespace: bool)

  datatype Field = Id | Timestamp | SourceId | EntityType

  datatype BuildError =
    | MissingField(field: Field)
    | InvalidTimestamp(text: Text)
    | InvalidLocation(latitude: Float, longitude: Float)
    | UnnamespacedEntityType(entityType: Text)
    | ConfidenceOutOfRange(confidence: Float)
    | TooManyPolicyTags(count: nat)
    | TooManyAttributes(count: nat)
    | TooManyMetadata(count: nat)
    | DuplicateAttributeKey(key: Text)
    | DuplicateMetadataKey(key: Text)

  datatype Event = Event(id: Text, sourceId: Text, entityType: Text, timestamp: Text, location: Option<GeoPoint>,
                         payload: Text, confidence: Float, policyTags: seq<Text>,
                         attributes: seq<Attribute>, metadata: seq<Attribute>)

  datatype Result = Ok(event: Event) | Err(error: BuildError)

  // ---- the order of keys: by byte, then by length ----

  predicate Le(a: Text, b: Text) {
    a == [] || (b != [] && (a[0] < b[0] || (a[0] == b[0] && Le(a[1..], b[1..]))))
  }

  lemma {:induction false} LeTotal(a: Text, b: Text)
    ensures Le(a, b) || Le(b, a)
    decreases |a|
  {
    if a != [] && b != [] && a[0] == b[0] {
      LeTotal(a[1..], b[1..]);
    }
  }

  lemma {:induction false} LeAntisymmetric(a: Text, b: Text)
    requires Le(a, b) && Le(b, a)
    ensures a == b
    decreases |a|
  {
    if a != [] {
      LeAntisymmetric(a[1..], b[1..]);
      assert a == [a[0]] + a[1..] && b == [b[0]] + b[1..];
    }
  }

  lemma {:induction false} LeTransitive(a: Text, b: Text, c: Text)
    requires Le(a, b) && Le(b, c)
    ensures Le(a, c)
    decreases |a|
  {
    if a != [] && a[0] == b[0] == c[0] {
      LeTransitive(a[1..], b[1..], c[1..]);
    }
  }

  // ---- sorting ----

  function Keys(xs: seq<Attribute>): (r: seq<Text>)
    ensures |r| == |xs| && forall i :: 0 <= i < |xs| ==> r[i] == xs[i].key
  {
    if xs == [] then [] else [xs[0].key] + Keys(xs[1..])
  }

  ghost predicate Sorted(ks: seq<Text>) {
    forall i, j :: 0 <= i < j < |ks| ==> Le(ks[i], ks[j])
  }

  // Behind every element with the same or a smaller key, so equal keys keep
  // their order.
  function Insert(x: Attribute, xs: seq<Attribute>): seq<Attribute> {
    if xs == [] || !Le(xs[0].key, x.key) then [x] + xs else [xs[0]] + Insert(x, xs[1..])
  }

  function Sort(xs: seq<Attribute>): seq<Attribute> {
    if xs == [] then [] else Insert(xs[|xs| - 1], Sort(xs[..|xs| - 1]))
  }

  lemma {:induction false} InsertPermutes(x: Attribute, xs: seq<Attribute>)
    ensures multiset(Insert(x, xs)) == multiset(xs) + multiset{x}
  {
    if xs != [] {
      assert xs == [xs[0]] + xs[1..];
      if Le(xs[0].key, x.key) {
        InsertPermutes(x, xs[1..]);
      }
    }
  }

  lemma {:induction false} SortPermutes(xs: seq<Attribute>)
    ensures multiset(Sort(xs)) == multiset(xs)
  {
    if xs != [] {
      var n := |xs| - 1;
      SortPermutes(xs[..n]);
      InsertPermutes(xs[n], Sort(xs[..n]));
      assert xs == xs[..n] + [xs[n]];
    }
  }

  // Everything in xs is at least k.
  ghost predicate AllFrom(k: Text, xs: seq<Attribute>) {
    forall x :: x in xs ==> Le(k, x.key)
  }

  // Sorted, one element at a time.
  ghost predicate Ascending(xs: seq<Attribute>) {
    xs == [] || (AllFrom(xs[0].key, xs[1..]) && Ascending(xs[1..]))
  }

  lemma InsertMembers(x: Attribute, xs: seq<Attribute>, y: Attribute)
    requires y in Insert(x, xs)
    ensures y == x || y in xs
  {
    InsertPermutes(x, xs);
    assert y in multiset(Insert(x, xs));
  }

  lemma {:induction false} InsertSorts(x: Attribute, xs: seq<Attribute>)
    requires Ascending(xs)
    ensures Ascending(Insert(x, xs))
  {
    var r := Insert(x, xs);
    if xs == [] {
      assert r == [x] && r[1..] == [];
    } else if !Le(xs[0].key, x.key) {
      LeTotal(xs[0].key, x.key);
      assert r[1..] == xs;
      forall y | y in xs
        ensures Le(x.key, y.key)
      {
        if y != xs[0] {
          assert xs == [xs[0]] + xs[1..] && y in xs[1..];
          LeTransitive(x.key, xs[0].key, y.key);
        }
      }
    } else {
      InsertSorts(x, xs[1..]);
      assert r[0] == xs[0] && r[1..] == Insert(x, xs[1..]);
      forall y | y in r[1..]
        ensures Le(xs[0].key, y.key)
      {
        InsertMembers(x, xs[1..], y);
      }
    }
  }

  lemma {:induction false} SortSorts(xs: seq<Attribute>)
    ensures Ascending(Sort(xs))
  {
    if xs != [] {
      SortSorts(xs[..|xs| - 1]);
      InsertSorts(xs[|xs| - 1], Sort(xs[..|xs| - 1]));
    }
  }

  lemma {:induction false} AscendingIsSorted(xs: seq<Attribute>)
    requires Ascending(xs)
    ensures Sorted(Keys(xs))
  {
    if xs != [] {
      AscendingIsSorted(xs[1..]);
      forall i, j | 0 <= i < j < |xs|
        ensures Le(Keys(xs)[i], Keys(xs)[j])
      {
        assert xs[j] == xs[1..][j - 1];
        if i == 0 {
          assert xs[j] in xs[1..];
        } else {
          assert Keys(xs[1..])[i - 1] == xs[i].key && Keys(xs[1..])[j - 1] == xs[j].key;
        }
      }
    }
  }

  // ---- a sorted list is determined by what is in it ----

  lemma {:induction false} SortedUnique(ks: seq<Text>, ls: seq<Text>)
    requires Sorted(ks) && Sorted(ls) && multiset(ks) == multiset(ls)
    ensures ks == ls
    decreases |ks|
  {
    assert |ks| == |multiset(ks)| && |ls| == |multiset(ls)|;
    if ks != [] {
      SmallestFirst(ks, ls);
      assert ks == [ks[0]] + ks[1..] && ls == [ls[0]] + ls[1..];
      assert multiset(ks[1..]) == multiset(ks) - multiset{ks[0]};
      assert multiset(ls[1..]) == multiset(ls) - multiset{ls[0]};
      SortedUnique(ks[1..], ls[1..]);
    }
  }

  lemma SmallestFirst(ks: seq<Text>, ls: seq<Text>)
    requires Sorted(ks) && Sorted(ls) && multiset(ks) == multiset(ls) && ks != [] && ls != []
    ensures ks[0] == ls[0]
  {
    hide Le;
    assert ks[0] in multiset(ls) && ls[0] in multiset(ks);
    var i :| 0 <= i < |ls| && ls[i] == ks[0];
    var j :| 0 <= j < |ks| && ks[j] == ls[0];
    if i > 0 && j > 0 {
      LeAntisymmetric(ks[0], ls[0]);
    }
  }

  lemma {:induction false} KeysPermute(xs: seq<Attribute>, ys: seq<Attribute>)
    requires multiset(xs) == multiset(ys)
    ensures multiset(Keys(xs)) == multiset(Keys(ys))
    decreases |xs|
  {
    hide Keys;
    if xs != [] {
      var x, rest := xs[0], xs[1..];
      var a, b := TakeOut(xs, ys);
      assert [] + [x] + rest == xs && [] + rest == rest;
      KeysPermute(rest, a + b);
      KeysOfSplit([], x, rest);
      KeysOfSplit(a, x, b);
    } else {
      assert |ys| == |multiset(ys)|;
    }
  }

  // The first of xs, found in ys.
  lemma TakeOut<T>(xs: seq<T>, ys: seq<T>) returns (a: seq<T>, b: seq<T>)
    requires xs != [] && multiset(xs) == multiset(ys)
    ensures ys == a + [xs[0]] + b && multiset(xs[1..]) == multiset(a + b)
  {
    var x, rest := xs[0], xs[1..];
    assert x in multiset(ys);
    var i :| 0 <= i < |ys| && ys[i] == x;
    a, b := ys[..i], ys[i + 1..];
    Apart(xs, 0);
    Apart(ys, i);
    assert xs[..0] + rest == rest;
    Cancel(multiset(rest), multiset(a + b), x);
  }

  lemma Apart<T>(s: seq<T>, i: nat)
    requires i < |s|
    ensures s == s[..i] + [s[i]] + s[i + 1..]
    ensures multiset(s) == multiset(s[..i] + s[i + 1..]) + multiset{s[i]}
  {
    assert s == s[..i] + [s[i]] + s[i + 1..];
    WithoutOne(s[..i], s[i], s[i + 1..]);
  }

  lemma Cancel<T>(m: multiset<T>, n: multiset<T>, x: T)
    requires m + multiset{x} == n + multiset{x}
    ensures m == n
  {
    assert m == (m + multiset{x}) - multiset{x};
    assert n == (n + multiset{x}) - multiset{x};
  }

  lemma WithoutOne<T>(a: seq<T>, x: T, b: seq<T>)
    ensures multiset(a + [x] + b) == multiset(a + b) + multiset{x}
  {
  }

  lemma {:induction false} KeysOfSplit(a: seq<Attribute>, x: Attribute, b: seq<Attribute>)
    ensures multiset(Keys(a + [x] + b)) == multiset(Keys(a + b)) + multiset{x.key}
  {
    hide Keys;
    assert Keys(a + [x] + b) == Keys(a) + [x.key] + Keys(b);
    assert Keys(a + b) == Keys(a) + Keys(b);
    WithoutOne(Keys(a), x.key, Keys(b));
  }

  // The keys of a sorted list do not depend on the order it was given in.
  lemma {:induction false} SortedKeys(xs: seq<Attribute>, ys: seq<Attribute>)
    requires multiset(xs) == multiset(ys)
    ensures Keys(Sort(xs)) == Keys(Sort(ys))
  {
    hide Keys, Sort, Sorted;
    SortPermutes(xs);
    SortPermutes(ys);
    KeysPermute(Sort(xs), Sort(ys));
    SortSorts(xs);
    SortSorts(ys);
    AscendingIsSorted(Sort(xs));
    AscendingIsSorted(Sort(ys));
    SortedUnique(Keys(Sort(xs)), Keys(Sort(ys)));
  }

  // ---- duplicates ----

  // The first key that is also its neighbour's.
  function Duplicate(ks: seq<Text>): Option<Text> {
    if |ks| < 2 then None
    else if ks[0] == ks[1] then Some(ks[0])
    else Duplicate(ks[1..])
  }

  lemma {:induction false} NoneEqual(ks: seq<Text>, i: nat)
    requires Duplicate(ks).None? && i + 1 < |ks|
    ensures ks[i] != ks[i + 1]
    decreases |ks|
  {
    if i > 0 {
      NoneEqual(ks[1..], i - 1);
    }
  }

  // The scan over neighbouring pairs.
  method FindDuplicate(xs: seq<Attribute>) returns (d: Option<Text>)
    ensures d == Duplicate(Keys(xs))
  {
    var i := 1;
    assert Keys(xs)[0..] == Keys(xs);
    while i < |xs|
      invariant 1 <= i && (i <= |xs| || |xs| == 0)
      invariant |xs| > 0 ==> Duplicate(Keys(xs)[i - 1..]) == Duplicate(Keys(xs))
    {
      assert Keys(xs)[i - 1..][1..] == Keys(xs)[i..];
      if xs[i - 1].key == xs[i].key {
        return Some(xs[i - 1].key);
      }
      i := i + 1;
    }
    return None;
  }

  ghost predicate Distinct(ks: seq<Text>) {
    forall i, j :: 0 <= i < j < |ks| ==> ks[i] != ks[j]
  }

  // In a sorted list, equal keys are neighbours.
  lemma NeighboursTell(ks: seq<Text>)
    requires Sorted(ks)
    ensures Duplicate(ks).None? <==> Distinct(ks)
  {
    hide Le;
    if Duplicate(ks).None? {
      forall i, j | 0 <= i < j < |ks|
        ensures ks[i] != ks[j]
      {
        NoneEqual(ks, i);
        if j > i + 1 && ks[i] == ks[j] {
          LeAntisymmetric(ks[i], ks[i + 1]);
        }
      }
    } else {
      DuplicateIsTwice(ks);
    }
  }

  lemma {:induction false} DuplicateIsTwice(ks: seq<Text>)
    requires Duplicate(ks).Some?
    ensures exists i :: 0 < i < |ks| && ks[i - 1] == ks[i] == Duplicate(ks).value
  {
    if ks[0] == ks[1] {
      assert ks[1 - 1] == ks[1];
    } else {
      DuplicateIsTwice(ks[1..]);
      var i :| 0 < i < |ks[1..]| && ks[1..][i - 1] == ks[1..][i] == Duplicate(ks[1..]).value;
      assert ks[i + 1 - 1] == ks[i + 1];
    }
  }

  // ---- build ----

  // The checks of the single fields, which come first.
  function FieldError(f: Fixed): Option<BuildError> {
    if f.id.None? then Some(MissingField(Id))
    else if f.timestamp.None? then Some(MissingField(Timestamp))
    else if !IsTimestamp(f.timestamp.value) then Some(InvalidTimestamp(f.timestamp.value))
    else if f.location.Some? && !OnPlanet(f.location.value) then
      Some(InvalidLocation(f.location.value.latitude, f.location.value.longitude))
    else if f.sourceId == [] then Some(MissingField(SourceId))
    else if f.entityType == [] then Some(MissingField(EntityType))
    else if f.strictNamespace && !IsNamespaced(f.entityType) then Some(UnnamespacedEntityType(f.entityType))
    else if !Within(f.confidence, 0.0, 1.0) then Some(ConfidenceOutOfRange(f.confidence))
    else None
  }

  // An event of accepted fields.
  function EventOf(f: Fixed, tags: seq<Text>, attrs: seq<Attribute>, meta: seq<Attribute>): Event
    requires FieldError(f).None?
  {
    Event(f.id.value, f.sourceId, f.entityType, f.timestamp.value, f.location, f.payload, f.confidence,
          tags, attrs, meta)
  }

  function Built(fixed: Fixed, tags: seq<Text>, attrs: seq<Attribute>, meta: seq<Attribute>): Result {
    if FieldError(fixed).Some? then Err(FieldError(fixed).value)
    else if |tags| > MAX_POLICY_TAGS then Err(TooManyPolicyTags(|tags|))
    else if |attrs| > MAX_ATTRIBUTES then Err(TooManyAttributes(|attrs|))
    else if |meta| > MAX_METADATA then Err(TooManyMetadata(|meta|))
    else if Duplicate(Keys(Sort(attrs))).Some? then Err(DuplicateAttributeKey(Duplicate(Keys(Sort(attrs))).value))
    else if Duplicate(Keys(Sort(meta))).Some? then Err(DuplicateMetadataKey(Duplicate(Keys(Sort(meta))).value))
    else Ok(EventOf(fixed, tags, Sort(attrs), Sort(meta)))
  }

  class EventBuilder {
    var fixed: Fixed
    var policyTags: seq<Text>
    var attributes: seq<Attribute>
    var metadata: seq<Attribute>

    constructor (fixed: Fixed)
      ensures this.fixed == fixed && policyTags == [] && attributes == [] && metadata == []
    {
      this.fixed, policyTags, attributes, metadata := fixed, [], [], [];
    }

    method AddAttribute(key: Text, value: Text)
      modifies this`attributes
      ensures attributes == old(attributes) + [Attribute(key, value)]
    {
      attributes := attributes + [Attribute(key, value)];
    }

    method AddMetadata(key: Text, value: Text)
      modifies this`metadata
      ensures metadata == old(metadata) + [Attribute(key, value)]
    {
      metadata := metadata + [Attribute(key, value)];
    }

    method Build() returns (r: Result)
      ensures r == Built(fixed, policyTags, attributes, metadata)
    {
      hide IsTimestamp, IsNamespaced, Sort, Keys, Duplicate;
      if fixed.id.None? {
        return Err(MissingField(Id));
      }
      if fixed.timestamp.None? {
        return Err(MissingField(Timestamp));
      }
      var timestamp := fixed.timestamp.value;
      var ok := IsRfc3339(timestamp);
      if !ok {
        return Err(InvalidTimestamp(timestamp));
      }
      if fixed.location.Some? && !OnPlanet(fixed.location.value) {
        return Err(InvalidLocation(fixed.location.value.latitude, fixed.location.value.longitude));
      }
      if fixed.sourceId == [] {
        return Err(MissingField(SourceId));
      }
      if fixed.entityType == [] {
        return Err(MissingField(EntityType));
      }
      if fixed.strictNamespace && !IsNamespaced(fixed.entityType) {
        return Err(UnnamespacedEntityType(fixed.entityType));
      }
      if !Within(fixed.confidence, 0.0, 1.0) {
        return Err(ConfidenceOutOfRange(fixed.confidence));
      }
      if |policyTags| > MAX_POLICY_TAGS {
        return Err(TooManyPolicyTags(|policyTags|));
      }
      if |attributes| > MAX_ATTRIBUTES {
        return Err(TooManyAttributes(|attributes|));
      }
      if |metadata| > MAX_METADATA {
        return Err(TooManyMetadata(|metadata|));
      }
      var attrs := Sort(attributes);
      var twice := FindDuplicate(attrs);
      if twice.Some? {
        return Err(DuplicateAttributeKey(twice.value));
      }
      var meta := Sort(metadata);
      twice := FindDuplicate(meta);
      if twice.Some? {
        return Err(DuplicateMetadataKey(twice.value));
      }
      return Ok(EventOf(fixed, policyTags, attrs, meta));
    }
  }

  // With distinct keys the whole sorted list is determined, values and all.
  lemma SortedEntries(xs: seq<Attribute>, ys: seq<Attribute>)
    requires multiset(xs) == multiset(ys) && Duplicate(Keys(Sort(xs))).None?
    ensures Sort(xs) == Sort(ys)
  {
    hide Sort, Duplicate;
    var s, t := Sort(xs), Sort(ys);
    SortedKeys(xs, ys);
    SortPermutes(xs);
    SortPermutes(ys);
    SortSorts(xs);
    AscendingIsSorted(s);
    NeighboursTell(Keys(s));
    assert |Keys(s)| == |Keys(t)|;
    forall i | 0 <= i < |s|
      ensures s[i] == t[i]
    {
      assert s[i] in multiset(t);
      var j :| 0 <= j < |t| && t[j] == s[i];
      assert Keys(s)[i] == s[i].key == Keys(t)[j] == Keys(s)[j];
    }
  }

  // The order of the setter calls does not matter: the same event, or the same
  // error with the same key.
  lemma OrderIrrelevant(fixed: Fixed, tags: seq<Text>, attrs: seq<Attribute>, meta: seq<Attribute>,
                        attrs': seq<Attribute>, meta': seq<Attribute>)
    requires multiset(attrs) == multiset(attrs') && multiset(meta) == multiset(meta')
    ensures Built(fixed, tags, attrs, meta) == Built(fixed, tags, attrs', meta')
  {
    hide FieldError, EventOf, Sort, Keys, Duplicate;
    assert |attrs| == |multiset(attrs)| && |attrs'| == |multiset(attrs')|;
    assert |meta| == |multiset(meta)| && |meta'| == |multiset(meta')|;
    SortedKeys(attrs, attrs');
    SortedKeys(meta, meta');
    if Duplicate(Keys(Sort(attrs))).None? {
      SortedEntries(attrs, attrs');
    }
    if Duplicate(Keys(Sort(meta))).None? {
      SortedEntries(meta, meta');
    }
  }

  ghost predicate StrictlySorted(ks: seq<Text>) {
    forall i, j :: 0 <= i < j < |ks| ==> Le(ks[i], ks[j]) && ks[i] != ks[j]
  }

  // Fields that need no further look: all there, a timestamp of the grammar, a
  // place on the planet, a namespaced type unless that is waived, a probability.
  ghost predicate GoodFields(f: Fixed) {
    && f.id.Some? && f.timestamp.Some?
    && (exists x: Stamp :: InRange(x) && StampText(x) == f.timestamp.value)
    && (f.location.Some? ==> OnPlanet(f.location.value))
    && f.sourceId != [] && f.entityType != []
    && (f.strictNamespace ==>
          || (exists t: Text :: Name(t) && f.entityType == MIM + t)
          || (exists v: Text, t: Text :: Name(v) && Name(t) && f.entityType == X + v + [COLON] + t))
    && Within(f.confidence, 0.0, 1.0)
  }

  lemma FieldsMeaning(f: Fixed)
    ensures FieldError(f).None? <==> GoodFields(f)
  {
    hide IsTimestamp, IsNamespaced, StampText, InRange, Name, OnPlanet, Within;
    if f.timestamp.Some? {
      TimestampIff(f.timestamp.value);
    }
    NamespacedIff(f.entityType);
  }

  // A build succeeds exactly with good fields, within the limits and with
  // distinct keys, and then the event holds exactly what was set, strictly sorted
  // by key.
  lemma BuildMeaning(fixed: Fixed, tags: seq<Text>, attrs: seq<Attribute>, meta: seq<Attribute>)
    ensures var r := Built(fixed, tags, attrs, meta);
            && (r.Ok? <==> && GoodFields(fixed) && |tags| <= MAX_POLICY_TAGS
                           && |attrs| <= MAX_ATTRIBUTES && |meta| <= MAX_METADATA
                           && Distinct(Keys(attrs)) && Distinct(Keys(meta)))
            && (r.Ok? ==> && FieldError(fixed).None?
                          && r.event == EventOf(fixed, tags, r.event.attributes, r.event.metadata)
                          && multiset(r.event.attributes) == multiset(attrs) && StrictlySorted(Keys(r.event.attributes))
                          && multiset(r.event.metadata) == multiset(meta) && StrictlySorted(Keys(r.event.metadata)))
  {
    hide FieldError, GoodFields;
    FieldsMeaning(fixed);
    hide Sort, Keys, Duplicate, Distinct, StrictlySorted;
    SortMeaning(attrs);
    SortMeaning(meta);
  }

  lemma {:induction false} SortMeaning(xs: seq<Attribute>)
    ensures multiset(Sort(xs)) == multiset(xs)
    ensures Duplicate(Keys(Sort(xs))).None? <==> Distinct(Keys(xs))
    ensures Duplicate(Keys(Sort(xs))).None? ==> StrictlySorted(Keys(Sort(xs)))
  {
    hide Sort, Keys, Duplicate, Le;
    SortPermutes(xs);
    SortSorts(xs);
    AscendingIsSorted(Sort(xs));
    NeighboursTell(Keys(Sort(xs)));
    KeysPermute(xs, Sort(xs));
    SameDistinct(Keys(xs), Keys(Sort(xs)));
  }

  lemma SameDistinct(ks: seq<Text>, ls: seq<Text>)
    requires multiset(ks) == multiset(ls)
    ensures Distinct(ks) <==> Distinct(ls)
  {
    if !Distinct(ks) {
      var i, j :| 0 <= i < j < |ks| && ks[i] == ks[j];
      TwiceCounts(ks, i, j);
      var m, n := CountsTwice(ls, ks[i]);
    }
    if !Distinct(ls) {
      var i, j :| 0 <= i < j < |ls| && ls[i] == ls[j];
      TwiceCounts(ls, i, j);
      var m, n := CountsTwice(ks, ls[i]);
    }
  }

  lemma {:induction false} CountsTwice(ks: seq<Text>, k: Text) returns (i: nat, j: nat)
    requires multiset(ks)[k] > 1
    ensures i < j < |ks| && ks[i] == ks[j] == k
    decreases |ks|
  {
    assert ks == [ks[0]] + ks[1..];
    if ks[0] == k {
      assert k in multiset(ks[1..]);
      i := 0;
      j :| 0 <= j < |ks[1..]| && ks[1..][j] == k;
      j := j + 1;
    } else {
      i, j := CountsTwice(ks[1..], k);
      i, j := i + 1, j + 1;
    }
  }

  // The reported key is the smallest one that occurs twice.
  lemma SmallestDuplicate(xs: seq<Attribute>, k: Text)
    requires Duplicate(Keys(Sort(xs))).Some? && multiset(Keys(xs))[k] > 1
    ensures multiset(Keys(xs))[Duplicate(Keys(Sort(xs))).value] > 1
    ensures Le(Duplicate(Keys(Sort(xs))).value, k)
  {
    hide Sort, Keys, Duplicate, Le;
    var ks := Keys(Sort(xs));
    SortPermutes(xs);
    SortSorts(xs);
    AscendingIsSorted(Sort(xs));
    KeysPermute(xs, Sort(xs));
    DuplicateIsTwice(ks);
    var i :| 0 < i < |ks| && ks[i - 1] == ks[i] == Duplicate(ks).value;
    TwiceCounts(ks, i - 1, i);
    FirstDuplicateLeast(ks, k);
  }

  lemma TwiceCounts(ks: seq<Text>, i: nat, j: nat)
    requires i < j < |ks| && ks[i] == ks[j]
    ensures multiset(ks)[ks[i]] > 1
  {
    assert ks == ks[..j] + [ks[j]] + ks[j + 1..];
    assert ks[..j][i] in multiset(ks[..j]);
  }

  lemma {:induction false} FirstDuplicateLeast(ks: seq<Text>, k: Text)
    requires Sorted(ks) && Duplicate(ks).Some? && multiset(ks)[k] > 1
    ensures Le(Duplicate(ks).value, k)
    decreases |ks|
  {
    hide Le;
    assert ks == [ks[0]] + ks[1..];
    assert k in multiset(ks[1..]);
    var j :| 0 <= j < |ks[1..]| && ks[1..][j] == k;
    if ks[0] == ks[1] {
      assert ks[j + 1] == k;
    } else {
      if k == ks[0] {
        SortedApart(ks, j + 1);
      }
      FirstDuplicateLeast(ks[1..], k);
    }
  }

  lemma SortedApart(ks: seq<Text>, j: nat)
    requires Sorted(ks) && 0 < j < |ks| && ks[j] == ks[0]
    ensures ks[0] == ks[1]
  {
    hide Le;
    if j > 1 {
      LeAntisymmetric(ks[0], ks[1]);
    }
  }
}
