// The single fields of a canonical event: what the builder refuses before it
// looks at attributes and metadata.
module EventFields {
  import opened Bytes
  import opened Ascii

  const DASH: Byte := 45
  const DOT: Byte := 46
  const MIM: Text := [109, 105, 109, 58] // mim:
  const X: Text := [120, 58]             // x:

  // ---- timestamps ----

  predicate DigitsAt(s: Text, i: nat, n: nat) {
    i + n <= |s| && forall k :: i <= k < i + n ==> IsDigit(s[k])
  }

  function NumAt(s: Text, i: nat): (r: nat)
    requires DigitsAt(s, i, 2)
    ensures r < 100
  {
    10 * (s[i] - 48) + (s[i + 1] - 48)
  }

  predicate DateAndTime(s: Text)
    requires |s| >= 20
  {
    && DigitsAt(s, 0, 4) && s[4] == DASH && DigitsAt(s, 5, 2) && s[7] == DASH && DigitsAt(s, 8, 2)
    && (s[10] == 84 || s[10] == 116)
    && DigitsAt(s, 11, 2) && s[13] == COLON && DigitsAt(s, 14, 2) && s[16] == COLON && DigitsAt(s, 17, 2)
    && 1 <= NumAt(s, 5) <= 12 && 1 <= NumAt(s, 8) <= 31
    && NumAt(s, 11) <= 23 && NumAt(s, 14) <= 59 && NumAt(s, 17) <= 60
  }

  function DigitRun(s: Text, i: nat): (r: nat)
    requires i <= |s|
    ensures i <= r <= |s| && (forall k :: i <= k < r ==> IsDigit(s[k])) && (r < |s| ==> !IsDigit(s[r]))
    decreases |s| - i
  {
    if i < |s| && IsDigit(s[i]) then DigitRun(s, i + 1) else i
  }

  // Where the zone starts, behind any fraction of a second.
  function ZoneStart(s: Text): (r: Option<nat>)
    requires |s| >= 20
    ensures r.Some? ==> r.value <= |s|
  {
    if s[19] != DOT then Some(19)
    else if DigitRun(s, 20) == 20 then None
    else Some(DigitRun(s, 20))
  }

  predicate ZoneOk(z: Text) {
    z != [] &&
    if z[0] == 90 || z[0] == 122 then |z| == 1
    else if z[0] == PLUS || z[0] == DASH then
      && |z| == 6 && DigitsAt(z, 1, 2) && z[3] == COLON && DigitsAt(z, 4, 2)
      && NumAt(z, 1) <= 23 && NumAt(z, 4) <= 59
    else false
  }

  predicate IsTimestamp(s: Text) {
    |s| >= 20 && DateAndTime(s) && ZoneStart(s).Some? && ZoneOk(s[ZoneStart(s).value..])
  }

  // `is_rfc3339`, moving an index over the fraction.
  method IsRfc3339(s: Text) returns (ok: bool)
    ensures ok == IsTimestamp(s)
  {
    hide DateAndTime, ZoneOk;
    if |s| < 20 {
      return false;
    }
    if !DateAndTime(s) {
      return false;
    }
    var i := 19;
    if s[i] == DOT {
      i := i + 1;
      while i < |s| && IsDigit(s[i])
        invariant 20 <= i <= |s| && DigitRun(s, i) == DigitRun(s, 20)
      {
        i := i + 1;
      }
      if i == 20 {
        return false;
      }
    }
    return ZoneOk(s[i..]);
  }

  // A timestamp as RFC 3339 writes it (section 5.6).
  datatype Zone = Utc(letter: Byte) | Offset(sign: Byte, hour: nat, minute: nat)

  datatype Stamp = Stamp(year: nat, month: nat, day: nat, t: Byte, hour: nat, minute: nat, second: nat,
                         fraction: Option<Text>, zone: Zone)

  predicate InRange(x: Stamp) {
    && x.year <= 9999 && 1 <= x.month <= 12 && 1 <= x.day <= 31 && (x.t == 84 || x.t == 116)
    && x.hour <= 23 && x.minute <= 59 && x.second <= 60
    && (x.fraction.Some? ==> x.fraction.value != [] && forall c :: c in x.fraction.value ==> IsDigit(c))
    && match x.zone
       case Utc(z) => z == 90 || z == 122
       case Offset(sign, h, m) => (sign == PLUS || sign == DASH) && h <= 23 && m <= 59
  }

  function Tens(n: nat): Byte
    requires n < 100
  {
    48 + n / 10
  }

  function Ones(n: nat): Byte {
    48 + n % 10
  }

  function Head(x: Stamp): (r: Text)
    requires InRange(x)
    ensures |r| == 19
  {
    [Tens(x.year / 100), Ones(x.year / 100), Tens(x.year % 100), Ones(x.year % 100), DASH,
     Tens(x.month), Ones(x.month), DASH, Tens(x.day), Ones(x.day), x.t,
     Tens(x.hour), Ones(x.hour), COLON, Tens(x.minute), Ones(x.minute), COLON, Tens(x.second), Ones(x.second)]
  }

  function FractionText(x: Stamp): Text {
    if x.fraction.Some? then [DOT] + x.fraction.value else []
  }

  function ZoneText(z: Zone): Text
    requires z.Offset? ==> z.hour <= 23 && z.minute <= 59
  {
    match z
    case Utc(letter) => [letter]
    case Offset(sign, h, m) => [sign, Tens(h), Ones(h), COLON, Tens(m), Ones(m)]
  }

  function StampText(x: Stamp): Text
    requires InRange(x)
  {
    Head(x) + FractionText(x) + ZoneText(x.zone)
  }

  // Two digits spell a number, and a number spells two digits.
  lemma NumSpelled(s: Text, i: nat, n: nat)
    requires n < 100 && i + 2 <= |s| && s[i] == Tens(n) && s[i + 1] == Ones(n)
    ensures DigitsAt(s, i, 2) && NumAt(s, i) == n
  {
  }

  lemma TwoDigits(s: Text, i: nat)
    requires DigitsAt(s, i, 2)
    ensures s[i] == Tens(NumAt(s, i)) && s[i + 1] == Ones(NumAt(s, i))
  {
  }

  lemma FourDigits(s: Text)
    ensures DigitsAt(s, 0, 4) <==> DigitsAt(s, 0, 2) && DigitsAt(s, 2, 2)
  {
  }

  // What a head spells, component by component.
  lemma HeadNumbers(x: Stamp, s: Text)
    requires InRange(x) && |s| >= 20 && s[..19] == Head(x)
    ensures DigitsAt(s, 0, 2) && DigitsAt(s, 2, 2) && DigitsAt(s, 5, 2) && DigitsAt(s, 8, 2)
    ensures DigitsAt(s, 11, 2) && DigitsAt(s, 14, 2) && DigitsAt(s, 17, 2)
    ensures x.year == 100 * NumAt(s, 0) + NumAt(s, 2)
    ensures NumAt(s, 5) == x.month && NumAt(s, 8) == x.day && s[10] == x.t
    ensures NumAt(s, 11) == x.hour && NumAt(s, 14) == x.minute && NumAt(s, 17) == x.second
    ensures s[4] == DASH && s[7] == DASH && s[13] == COLON && s[16] == COLON
  {
    hide NumAt, DigitsAt, Head;
    HeadDate(x, s);
    HeadTime(x, s);
  }

  lemma HeadDate(x: Stamp, s: Text)
    requires InRange(x) && |s| >= 20 && s[..19] == Head(x)
    ensures DigitsAt(s, 0, 2) && DigitsAt(s, 2, 2) && DigitsAt(s, 5, 2) && DigitsAt(s, 8, 2)
    ensures x.year == 100 * NumAt(s, 0) + NumAt(s, 2)
    ensures NumAt(s, 5) == x.month && NumAt(s, 8) == x.day && s[4] == DASH && s[7] == DASH
  {
    hide Tens, Ones, NumAt, DigitsAt;
    assert forall k :: 0 <= k < 10 ==> s[k] == s[..19][k];
    assert x.year == 100 * (x.year / 100) + x.year % 100;
    NumSpelled(s, 0, x.year / 100);
    NumSpelled(s, 2, x.year % 100);
    NumSpelled(s, 5, x.month);
    NumSpelled(s, 8, x.day);
  }

  lemma HeadTime(x: Stamp, s: Text)
    requires InRange(x) && |s| >= 20 && s[..19] == Head(x)
    ensures DigitsAt(s, 11, 2) && DigitsAt(s, 14, 2) && DigitsAt(s, 17, 2)
    ensures NumAt(s, 11) == x.hour && NumAt(s, 14) == x.minute && NumAt(s, 17) == x.second
    ensures s[10] == x.t && s[13] == COLON && s[16] == COLON
  {
    hide Tens, Ones, NumAt, DigitsAt;
    assert forall k :: 10 <= k < 19 ==> s[k] == s[..19][k];
    NumSpelled(s, 11, x.hour);
    NumSpelled(s, 14, x.minute);
    NumSpelled(s, 17, x.second);
  }

  lemma HeadAccepted(x: Stamp, s: Text)
    requires InRange(x) && |s| >= 20 && s[..19] == Head(x)
    ensures DateAndTime(s)
  {
    hide Head, NumAt, DigitsAt;
    HeadNumbers(x, s);
    FourDigits(s);
  }

  lemma ZoneAccepted(z: Zone)
    requires match z
             case Utc(l) => l == 90 || l == 122
             case Offset(sign, h, m) => (sign == PLUS || sign == DASH) && h <= 23 && m <= 59
    ensures ZoneOk(ZoneText(z)) && !IsDigit(ZoneText(z)[0]) && ZoneText(z)[0] != DOT
  {
  }

  lemma {:induction false} RunEnds(s: Text, i: nat, j: nat)
    requires i <= j < |s| && (forall k :: i <= k < j ==> IsDigit(s[k])) && !IsDigit(s[j])
    ensures DigitRun(s, i) == j
    decreases j - i
  {
    if i < j {
      RunEnds(s, i + 1, j);
    }
  }

  lemma StampAccepted(x: Stamp)
    requires InRange(x)
    ensures IsTimestamp(StampText(x))
  {
    hide DateAndTime, ZoneOk, Head, DigitRun;
    var s, z := StampText(x), ZoneText(x.zone);
    assert z != [] && ZoneOk(z) && !IsDigit(z[0]) && z[0] != DOT by { ZoneAccepted(x.zone); }
    assert s[..19] == Head(x);
    HeadAccepted(x, s);
    if x.fraction.Some? {
      var f := x.fraction.value;
      assert s == Head(x) + [DOT] + f + z;
      forall k | 20 <= k < 20 + |f|
        ensures IsDigit(s[k])
      {
        assert s[k] == f[k - 20] && f[k - 20] in f;
      }
      assert s[20 + |f|] == z[0] && s[20 + |f|..] == z;
      RunEnds(s, 20, 20 + |f|);
    } else {
      assert s == Head(x) + z && s[19] == z[0] && s[19..] == z;
    }
  }

  // The zone a text spells.
  function ZoneOf(z: Text): Zone
    requires ZoneOk(z)
  {
    if |z| == 1 then Utc(z[0]) else Offset(z[0], NumAt(z, 1), NumAt(z, 4))
  }

  lemma ZoneSpelled(z: Text)
    requires ZoneOk(z)
    ensures ZoneOf(z).Offset? ==> ZoneOf(z).hour <= 23 && ZoneOf(z).minute <= 59
    ensures ZoneText(ZoneOf(z)) == z
  {
  }

  lemma HeadSpelled(s: Text, x: Stamp)
    requires |s| >= 20 && DateAndTime(s) && InRange(x)
    requires DigitsAt(s, 0, 2) && DigitsAt(s, 2, 2)
    requires x.year == 100 * NumAt(s, 0) + NumAt(s, 2)
    requires x.month == NumAt(s, 5) && x.day == NumAt(s, 8) && x.t == s[10]
    requires x.hour == NumAt(s, 11) && x.minute == NumAt(s, 14) && x.second == NumAt(s, 17)
    ensures Head(x) == s[..19]
  {
    hide NumAt, InRange, DigitsAt, Tens, Ones;
    assert x.year / 100 == NumAt(s, 0) && x.year % 100 == NumAt(s, 2);
    TwoDigits(s, 0);
    TwoDigits(s, 2);
    TwoDigits(s, 5);
    TwoDigits(s, 8);
    TwoDigits(s, 11);
    TwoDigits(s, 14);
    TwoDigits(s, 17);
  }

  // The check accepts exactly the timestamps of the grammar, with each
  // component in range.
  lemma TimestampIff(s: Text)
    ensures IsTimestamp(s) <==> exists x: Stamp :: InRange(x) && StampText(x) == s
  {
    hide StampText, IsTimestamp, InRange;
    if IsTimestamp(s) {
      var x := StampOf(s);
      assert InRange(x) && StampText(x) == s;
    }
    if x: Stamp :| InRange(x) && StampText(x) == s {
      StampAccepted(x);
    }
  }

  // The date a timestamp spells.
  function YearIn(s: Text): nat
    requires IsTimestamp(s)
  {
    FourDigits(s);
    100 * NumAt(s, 0) + NumAt(s, 2)
  }

  function MonthIn(s: Text): nat
    requires IsTimestamp(s)
  {
    NumAt(s, 5)
  }

  function DayIn(s: Text): nat
    requires IsTimestamp(s)
  {
    NumAt(s, 8)
  }

  lemma StampOf(s: Text) returns (x: Stamp)
    requires IsTimestamp(s)
    ensures InRange(x) && StampText(x) == s
    ensures x.year == YearIn(s) && x.month == MonthIn(s) && x.day == DayIn(s)
  {
    hide ZoneOk, Head, ZoneText;
    FourDigits(s);
    var i := ZoneStart(s).value;
    var z := s[i..];
    var fraction := if i == 19 then None else Some(s[20..i]);
    ZoneSpelled(z);
    x := Stamp(100 * NumAt(s, 0) + NumAt(s, 2), NumAt(s, 5), NumAt(s, 8), s[10],
               NumAt(s, 11), NumAt(s, 14), NumAt(s, 17), fraction, ZoneOf(z));
    assert InRange(x) by { ZoneRange(z); }
    HeadSpelled(s, x);
    assert FractionText(x) == s[19..i];
    assert s == s[..19] + s[19..i] + z;
  }

  lemma ZoneRange(z: Text)
    requires ZoneOk(z)
    ensures match ZoneOf(z)
            case Utc(l) => l == 90 || l == 122
            case Offset(sign, h, m) => (sign == PLUS || sign == DASH) && h <= 23 && m <= 59
  {
  }

  // ---- the calendar ----

  predicate IsLeap(year: nat) {
    year % 4 == 0 && (year % 100 != 0 || year % 400 == 0)
  }

  function DaysIn(year: nat, month: nat): nat {
    if month == 2 then (if IsLeap(year) then 29 else 28)
    else if month in {4, 6, 9, 11} then 30
    else 31
  }

  predicate OnCalendar(x: Stamp) {
    x.day <= DaysIn(x.year, x.month)
  }

  lemma LongEnough(s: Text)
    requires IsTimestamp(s)
    ensures |s| >= 20
  {
  }

  lemma DateSpelled(x: Stamp)
    requires InRange(x)
    ensures IsTimestamp(StampText(x))
    ensures var s := StampText(x);
            YearIn(s) == x.year && MonthIn(s) == x.month && DayIn(s) == x.day
  {
    hide IsTimestamp, Head, NumAt;
    StampAccepted(x);
    var s := StampText(x);
    assert s[..19] == Head(x);
    LongEnough(s);
    HeadNumbers(x, s);
  }

  // An accepted timestamp is one of the calendar exactly when its day is in its
  // month; the check looks at neither month nor year for the day.
  lemma CalendarIff(s: Text)
    requires IsTimestamp(s)
    ensures (exists x: Stamp :: InRange(x) && OnCalendar(x) && StampText(x) == s)
            <==> DayIn(s) <= DaysIn(YearIn(s), MonthIn(s))
  {
    hide StampText, IsTimestamp, InRange, YearIn, MonthIn, DayIn, DaysIn;
    var x := StampOf(s);
    if DayIn(s) <= DaysIn(YearIn(s), MonthIn(s)) {
      assert OnCalendar(x);
    }
    if y: Stamp :| InRange(y) && OnCalendar(y) && StampText(y) == s {
      DateSpelled(y);
    }
  }

  // The thirty-first of every month is accepted, in every year.
  lemma ImpossibleDateAccepted(year: nat, month: nat)
    requires year <= 9999 && month in {2, 4, 6, 9, 11}
    ensures var s := StampText(Stamp(year, month, 31, 84, 0, 0, 0, None, Utc(90)));
            && IsTimestamp(s)
            && !exists x: Stamp :: InRange(x) && OnCalendar(x) && StampText(x) == s
  {
    hide StampText, IsTimestamp, YearIn, MonthIn, DayIn;
    var x := Stamp(year, month, 31, 84, 0, 0, 0, None, Utc(90));
    assert InRange(x);
    DateSpelled(x);
    CalendarIff(StampText(x));
  }

  // ---- entity types ----

  predicate IsNamespaced(s: Text) {
    if MIM <= s then
      var rest := s[|MIM|..];
      rest != [] && COLON !in rest
    else if X <= s then
      var rest := s[|X|..];
      var i := Find(rest, COLON);
      && i < |rest| && i > 0
      && rest[i + 1..] != [] && COLON !in rest[i + 1..]
    else false
  }

  predicate Name(s: Text) {
    s != [] && COLON !in s
  }

  // `mim:<type>` or `x:<vendor>:<type>`, and nothing else.
  lemma NamespacedIff(s: Text)
    ensures IsNamespaced(s)
            <==> || (exists t: Text :: Name(t) && s == MIM + t)
                 || (exists v: Text, t: Text :: Name(v) && Name(t) && s == X + v + [COLON] + t)
  {
    hide IsNamespaced, Name;
    if MIM <= s {
      PrefixesApart(s);
      MimIff(s);
    } else if X <= s {
      VendorIff(s);
    } else {
      NoPrefix(s);
      assert forall t: Text :: MIM <= MIM + t;
      assert forall v: Text, t: Text :: X <= X + v + [COLON] + t;
    }
  }

  lemma NoPrefix(s: Text)
    requires !(MIM <= s) && !(X <= s)
    ensures !IsNamespaced(s)
  {
  }

  lemma PrefixesApart(s: Text)
    requires MIM <= s
    ensures !(X <= s)
  {
    assert s[0] == MIM[0] != X[0];
  }

  lemma MimIff(s: Text)
    requires MIM <= s
    ensures IsNamespaced(s) <==> exists t: Text :: Name(t) && s == MIM + t
  {
    assert s == MIM + s[|MIM|..];
    assert Name(s[|MIM|..]) == IsNamespaced(s);
    if t: Text :| Name(t) && s == MIM + t {
      assert s[|MIM|..] == t;
    }
  }

  lemma VendorIff(s: Text)
    requires X <= s && !(MIM <= s)
    ensures IsNamespaced(s) <==> exists v: Text, t: Text :: Name(v) && Name(t) && s == X + v + [COLON] + t
  {
    hide Find;
    var rest := s[|X|..];
    var i := Find(rest, COLON);
    if i < |rest| {
      var v, t := rest[..i], rest[i + 1..];
      assert s == X + v + [COLON] + t;
      assert Name(v) && Name(t) <==> IsNamespaced(s);
    }
    if v: Text, t: Text :| Name(v) && Name(t) && s == X + v + [COLON] + t {
      assert rest == v + [COLON] + t;
      FindAfter(v, COLON, t);
      assert rest[|v| + 1..] == t;
    }
  }

  // ---- numbers ----

  // A floating-point number as far as a range check sees it.
  datatype Float = Finite(value: real) | Infinite | NaN

  predicate Within(x: Float, lo: real, hi: real) {
    x.Finite? && lo <= x.value <= hi
  }

  datatype GeoPoint = GeoPoint(latitude: Float, longitude: Float, altitude: Float)

  predicate OnPlanet(p: GeoPoint) {
    p.altitude.Finite? && Within(p.latitude, -90.0, 90.0) && Within(p.longitude, -180.0, 180.0)
  }
}
