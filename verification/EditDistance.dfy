// The config loader's "did you mean": two-row Levenshtein distance, against the
// shortest list of single-character edits.
module EditDistance {

  // One edit of a string at a place of it.
  datatype Edit<T> = Insert(at: nat, c: T) | Delete(at: nat) | Replace(at: nat, c: T)

  predicate Applies<T>(e: Edit<T>, s: seq<T>) {
    if e.Insert? then e.at <= |s| else e.at < |s|
  }

  function Apply<T>(e: Edit<T>, s: seq<T>): seq<T>
    requires Applies(e, s)
  {
    match e
    case Insert(at, c) => s[..at] + [c] + s[at..]
    case Delete(at) => s[..at] + s[at + 1..]
    case Replace(at, c) => s[..at] + [c] + s[at + 1..]
  }

  // The edits, one after the other, turn a into b.
  predicate Turns<T(==)>(a: seq<T>, script: seq<Edit<T>>, b: seq<T>)
    decreases |script|
  {
    if script == [] then a == b
    else Applies(script[0], a) && Turns(Apply(script[0], a), script[1..], b)
  }

  function Min(a: nat, b: nat): nat {
    if a <= b then a else b
  }

  // The textbook recurrence, from the ends of the strings.
  function Lev<T(==)>(a: seq<T>, b: seq<T>): nat
    decreases |a| + |b|
  {
    if a == [] then |b|
    else if b == [] then |a|
    else
      var a', b' := a[..|a| - 1], b[..|b| - 1];
      var cost := if a[|a| - 1] != b[|b| - 1] then 1 else 0;
      Min(Min(Lev(a', b') + cost, Lev(a', b) + 1), Lev(a, b') + 1)
  }

  // The two-row program computes the recurrence.
  method Compute<T(==)>(a: seq<T>, b: seq<T>) returns (d: nat)
    ensures d == Lev(a, b)
  {
    hide Lev;
    var prev := seq(|b| + 1, j => j);
    forall j | 0 <= j <= |b|
      ensures prev[j] == Lev(a[..0], b[..j])
    {
      LevEmpty(b[..j]);
    }
    for i := 0 to |a|
      invariant |prev| == |b| + 1
      invariant forall j :: 0 <= j <= |b| ==> prev[j] == Lev(a[..i], b[..j])
    {
      var cur := [i + 1];
      LevEmpty(a[..i + 1]);
      for j := 0 to |b|
        invariant |cur| == j + 1
        invariant forall k :: 0 <= k <= j ==> cur[k] == Lev(a[..i + 1], b[..k])
      {
        var cost := if a[i] != b[j] then 1 else 0;
        Cell(a, b, i, j);
        cur := cur + [Min(Min(prev[j] + cost, prev[j + 1] + 1), cur[j] + 1)];
      }
      prev := cur;
    }
    assert a[..|a|] == a && b[..|b|] == b;
    d := prev[|b|];
  }

  lemma Cell<T>(a: seq<T>, b: seq<T>, i: nat, j: nat)
    requires i < |a| && j < |b|
    ensures Lev(a[..i + 1], b[..j + 1])
            == Min(Min(Lev(a[..i], b[..j]) + (if a[i] != b[j] then 1 else 0), Lev(a[..i], b[..j + 1]) + 1),
                   Lev(a[..i + 1], b[..j]) + 1)
  {
    assert a[..i + 1][..i] == a[..i] && b[..j + 1][..j] == b[..j];
  }

  // ---- no script is shorter ----

  lemma {:induction false} LevStep<T>(a: seq<T>, x: T, b: seq<T>, y: T)
    ensures Lev(a + [x], b + [y])
            == Min(Min(Lev(a, b) + (if x != y then 1 else 0), Lev(a, b + [y]) + 1), Lev(a + [x], b) + 1)
    ensures Lev(a + [x], []) == |a| + 1 && Lev([], b + [y]) == |b| + 1
  {
    var s, t := a + [x], b + [y];
    assert s[..|a|] == a && t[..|b|] == b;
    assert s[..|a| + 1] == s && t[..|b| + 1] == t;
    Cell(s, t, |a|, |b|);
    LevEmpty(s);
    LevEmpty(t);
  }

  // One character more on either side costs at most one.
  lemma {:induction false} LevLonger<T>(a: seq<T>, x: T, b: seq<T>)
    ensures Lev(a + [x], b) <= Lev(a, b) + 1 && Lev(a, b) <= Lev(a + [x], b) + 1
    decreases |b|
  {
    hide Lev;
    if b == [] {
      LevEmpty(a);
      LevEmpty(a + [x]);
    } else {
      var b', y := b[..|b| - 1], b[|b| - 1];
      assert b == b' + [y];
      LevStep(a, x, b', y);
      LevLonger(a, x, b');
      LevRight(a, b', y);
    }
  }

  lemma LevEmpty<T>(a: seq<T>)
    ensures Lev(a, []) == |a| && Lev([], a) == |a|
  {
  }

  lemma LevRight<T>(a: seq<T>, b: seq<T>, y: T)
    ensures Lev(a, b + [y]) <= Lev(a, b) + 1
  {
    if a != [] {
      var a', x := a[..|a| - 1], a[|a| - 1];
      assert a == a' + [x];
      LevStep(a', x, b, y);
    }
  }

  // A changed last character changes the distance by at most one.
  lemma {:induction false} LevSwapLast<T>(a: seq<T>, x: T, z: T, b: seq<T>)
    ensures Lev(a + [x], b) <= Lev(a + [z], b) + 1
    decreases |b|
  {
    hide Lev;
    if b == [] {
      LevEmpty(a + [x]);
      LevEmpty(a + [z]);
    } else {
      var b', y := b[..|b| - 1], b[|b| - 1];
      assert b == b' + [y];
      LevStep(a, x, b', y);
      LevStep(a, z, b', y);
      LevSwapLast(a, x, z, b');
    }
  }

  // Two strings within one of each other against every target stay so with the
  // same character added to both.
  lemma {:induction false} LevSameLast<T>(a: seq<T>, c: seq<T>, x: T, b: seq<T>)
    requires forall t: seq<T> :: |t| <= |b| ==> Lev(a, t) <= Lev(c, t) + 1
    ensures Lev(a + [x], b) <= Lev(c + [x], b) + 1
    decreases |b|
  {
    hide Lev;
    if b == [] {
      LevEmpty(a);
      LevEmpty(c);
      assert Lev(a, []) <= Lev(c, []) + 1;
      LevEmpty(a + [x]);
      LevEmpty(c + [x]);
    } else {
      var b', y := b[..|b| - 1], b[|b| - 1];
      assert b == b' + [y];
      LevStep(a, x, b', y);
      LevStep(c, x, b', y);
      LevSameLast(a, c, x, b');
      assert Lev(a, b) <= Lev(c, b) + 1 && Lev(a, b') <= Lev(c, b') + 1;
    }
  }

  // One edit brings a string at most one closer to any target.
  lemma {:induction false} EditMovesOne<T>(a: seq<T>, e: Edit<T>, b: seq<T>)
    requires Applies(e, a)
    ensures Lev(a, b) <= Lev(Apply(e, a), b) + 1
    decreases |a|
  {
    hide Lev;
    var last := if e.Insert? then e.at == |a| else e.at == |a| - 1;
    if last {
      EditLast(a, e, b);
    } else {
      var a', x := a[..|a| - 1], a[|a| - 1];
      assert a == a' + [x];
      EditBefore(a', x, e);
      forall t: seq<T> | |t| <= |b|
        ensures Lev(a', t) <= Lev(Apply(e, a'), t) + 1
      {
        EditMovesOne(a', e, t);
      }
      LevSameLast(a', Apply(e, a'), x, b);
    }
  }

  lemma EditBefore<T>(a: seq<T>, x: T, e: Edit<T>)
    requires Applies(e, a)
    ensures Applies(e, a + [x]) && Apply(e, a + [x]) == Apply(e, a) + [x]
  {
  }

  lemma EditLast<T>(a: seq<T>, e: Edit<T>, b: seq<T>)
    requires Applies(e, a) && if e.Insert? then e.at == |a| else e.at == |a| - 1
    ensures Lev(a, b) <= Lev(Apply(e, a), b) + 1
  {
    hide Lev;
    if e.Insert? {
      assert Apply(e, a) == a + [e.c];
      LevLonger(a, e.c, b);
    } else {
      var a', x := a[..|a| - 1], a[|a| - 1];
      assert a == a' + [x];
      if e.Delete? {
        assert Apply(e, a) == a';
        LevLonger(a', x, b);
      } else {
        assert Apply(e, a) == a' + [e.c];
        LevSwapLast(a', x, e.c, b);
      }
    }
  }

  lemma {:induction false} LevSelf<T>(a: seq<T>)
    ensures Lev(a, a) == 0
  {
    if a != [] {
      LevSelf(a[..|a| - 1]);
    }
  }

  lemma {:induction false} NoScriptIsShorter<T>(a: seq<T>, script: seq<Edit<T>>, b: seq<T>)
    requires Turns(a, script, b)
    ensures Lev(a, b) <= |script|
    decreases |script|
  {
    hide Lev;
    if script == [] {
      LevSelf(a);
    } else {
      EditMovesOne(a, script[0], b);
      NoScriptIsShorter(Apply(script[0], a), script[1..], b);
    }
  }

  // ---- some script is that short ----

  // A script for a works the same in front of one more character.
  lemma {:induction false} TurnsBefore<T>(a: seq<T>, script: seq<Edit<T>>, b: seq<T>, x: T)
    requires Turns(a, script, b)
    ensures Turns(a + [x], script, b + [x])
    decreases |script|
  {
    if script != [] {
      EditBefore(a, x, script[0]);
      TurnsBefore(Apply(script[0], a), script[1..], b, x);
    }
  }

  lemma {:induction false} TurnsThen<T>(a: seq<T>, s: seq<Edit<T>>, b: seq<T>, t: seq<Edit<T>>, c: seq<T>)
    requires Turns(a, s, b) && Turns(b, t, c)
    ensures Turns(a, s + t, c)
    decreases |s|
  {
    if s == [] {
      assert s + t == t;
    } else {
      TurnsThen(Apply(s[0], a), s[1..], b, t, c);
      assert (s + t)[0] == s[0] && (s + t)[1..] == s[1..] + t;
    }
  }

  lemma TurnsOne<T>(a: seq<T>, e: Edit<T>)
    requires Applies(e, a)
    ensures Turns(a, [e], Apply(e, a))
  {
  }

  // A script of exactly the computed length.
  lemma {:induction false} ShortestScript<T>(a: seq<T>, b: seq<T>) returns (script: seq<Edit<T>>)
    ensures Turns(a, script, b) && |script| == Lev(a, b)
    decreases |a| + |b|
  {
    hide Turns;
    if a == [] && b == [] {
      script := [];
      assert Turns(a, script, b) by { TurnsNone(a); }
    } else if b == [] || (a != [] && Lev(a, b) == Lev(a[..|a| - 1], b) + 1) {
      var a', x := a[..|a| - 1], a[|a| - 1];
      assert a == a' + [x];
      var rest := ShortestScript(a', b);
      var e := Edit.Delete(|a'|);
      assert Apply(e, a) == a';
      TurnsOne(a, e);
      TurnsThen(a, [e], a', rest, b);
      script := [e] + rest;
    } else if a == [] || Lev(a, b) == Lev(a, b[..|b| - 1]) + 1 {
      var b', y := b[..|b| - 1], b[|b| - 1];
      assert b == b' + [y];
      var rest := ShortestScript(a, b');
      var e := Edit.Insert(|b'|, y);
      assert Apply(e, b') == b;
      TurnsOne(b', e);
      TurnsThen(a, rest, b', [e], b);
      script := rest + [e];
    } else {
      var a', x, b', y := a[..|a| - 1], a[|a| - 1], b[..|b| - 1], b[|b| - 1];
      assert a == a' + [x] && b == b' + [y];
      script := ShortestScript(a', b');
      TurnsBefore(a', script, b', x);
      if x != y {
        var e := Edit.Replace(|b'|, y);
        assert Apply(e, b' + [x]) == b;
        TurnsOne(b' + [x], e);
        TurnsThen(a, script, b' + [x], [e], b);
        script := script + [e];
      }
    }
  }

  lemma TurnsNone<T>(a: seq<T>)
    ensures Turns(a, [], a)
  {
  }

  // ---- what the result is ----

  // d is the length of a shortest script.
  ghost predicate IsDistance<T(!new)>(a: seq<T>, b: seq<T>, d: nat) {
    && (exists script: seq<Edit<T>> :: Turns(a, script, b) && |script| == d)
    && (forall script: seq<Edit<T>> :: Turns(a, script, b) ==> d <= |script|)
  }

  lemma LevIsDistance<T(!new)>(a: seq<T>, b: seq<T>)
    ensures IsDistance(a, b, Lev(a, b))
  {
    hide Lev, Turns;
    var script := ShortestScript(a, b);
    forall s: seq<Edit<T>> | Turns(a, s, b)
      ensures Lev(a, b) <= |s|
    {
      NoScriptIsShorter(a, s, b);
    }
  }

  method EditDistance(a: string, b: string) returns (d: nat)
    ensures IsDistance(a, b, d)
  {
    d := Compute(a, b);
    LevIsDistance(a, b);
  }

  // ---- a metric ----

  // The edit that takes an edit back.
  function Undo<T>(e: Edit<T>, s: seq<T>): Edit<T>
    requires Applies(e, s)
  {
    match e
    case Insert(at, _) => Delete(at)
    case Delete(at) => Insert(at, s[at])
    case Replace(at, _) => Replace(at, s[at])
  }

  lemma UndoUndoes<T>(e: Edit<T>, s: seq<T>)
    requires Applies(e, s)
    ensures Applies(Undo(e, s), Apply(e, s)) && Apply(Undo(e, s), Apply(e, s)) == s
  {
    var t := Apply(e, s);
    match e
    case Insert(at, c) => assert t[..at] + t[at + 1..] == s;
    case Delete(at) => assert t[..at] + [s[at]] + t[at..] == s;
    case Replace(at, c) => assert t[..at] + [s[at]] + t[at + 1..] == s;
  }

  lemma {:induction false} BackScript<T>(a: seq<T>, script: seq<Edit<T>>, b: seq<T>) returns (back: seq<Edit<T>>)
    requires Turns(a, script, b)
    ensures Turns(b, back, a) && |back| == |script|
    decreases |script|
  {
    if script == [] {
      back := [];
    } else {
      var m := Apply(script[0], a);
      var rest := BackScript(m, script[1..], b);
      var e := Undo(script[0], a);
      UndoUndoes(script[0], a);
      TurnsOne(m, e);
      TurnsThen(b, rest, m, [e], a);
      back := rest + [e];
    }
  }

  lemma {:induction false} Symmetric<T>(a: seq<T>, b: seq<T>)
    ensures Lev(a, b) == Lev(b, a)
  {
    hide Lev, Turns;
    var s := ShortestScript(a, b);
    var back := BackScript(a, s, b);
    NoScriptIsShorter(b, back, a);
    var t := ShortestScript(b, a);
    var forth := BackScript(b, t, a);
    NoScriptIsShorter(a, forth, b);
  }

  lemma {:induction false} Triangle<T>(a: seq<T>, b: seq<T>, c: seq<T>)
    ensures Lev(a, c) <= Lev(a, b) + Lev(b, c)
  {
    hide Lev, Turns;
    var s := ShortestScript(a, b);
    var t := ShortestScript(b, c);
    TurnsThen(a, s, b, t, c);
    NoScriptIsShorter(a, s + t, c);
  }

  lemma {:induction false} ZeroIffEqual<T>(a: seq<T>, b: seq<T>)
    ensures Lev(a, b) == 0 <==> a == b
  {
    hide Lev;
    LevSelf(a);
    var s := ShortestScript(a, b);
  }
}
