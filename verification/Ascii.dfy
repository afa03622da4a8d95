// ASCII text over bytes: white space, digits, case. `trim` in the source also
// takes off white space outside ASCII; these do not.
module Ascii {
  import opened Bytes

  type Text = seq<Byte>

  const SPACE: Byte := 32
  const PLUS: Byte := 43
  const COLON: Byte := 58
  const LF: Byte := 10
  const CR: Byte := 13
  const CRLF: Text := [13, 10]

  predicate IsSpace(c: Byte) {
    c == 32 || 9 <= c <= 13
  }

  function TrimStart(s: Text): Text {
    if s != [] && IsSpace(s[0]) then TrimStart(s[1..]) else s
  }

  function TrimEnd(s: Text): Text {
    if s != [] && IsSpace(s[|s| - 1]) then TrimEnd(s[..|s| - 1]) else s
  }

  function Trim(s: Text): Text {
    TrimEnd(TrimStart(s))
  }

  predicate IsDigit(c: Byte) {
    48 <= c <= 57
  }

  function Digits(s: Text): Option<nat> {
    if s == [] then Some(0)
    else
      match Digits(s[..|s| - 1])
      case None => None
      case Some(n) => if IsDigit(s[|s| - 1]) then Some(10 * n + (s[|s| - 1] - 48)) else None
  }

  function Dec(n: nat): (r: Text)
    ensures r != [] && forall c :: c in r ==> IsDigit(c)
  {
    if n < 10 then [48 + n] else Dec(n / 10) + [48 + n % 10]
  }

  lemma {:induction false} DigitsOfDec(n: nat)
    ensures Digits(Dec(n)) == Some(n)
  {
    if n >= 10 {
      DigitsOfDec(n / 10);
      assert Dec(n)[..|Dec(n)| - 1] == Dec(n / 10);
    } else {
      assert Dec(n)[..0] == [];
    }
  }

  function HexValue(c: Byte): Option<nat> {
    if 48 <= c <= 57 then Some(c - 48)
    else if 65 <= c <= 70 then Some(c - 55)
    else if 97 <= c <= 102 then Some(c - 87)
    else None
  }

  function LowerChar(c: Byte): Byte {
    if 65 <= c <= 90 then c + 32 else c
  }

  function UpperChar(c: Byte): Byte {
    if 97 <= c <= 122 then c - 32 else c
  }

  function Lower(s: Text): (r: Text)
    ensures |r| == |s|
  {
    seq(|s|, i requires 0 <= i < |s| => LowerChar(s[i]))
  }

  function Upper(s: Text): (r: Text)
    ensures |r| == |s|
  {
    seq(|s|, i requires 0 <= i < |s| => UpperChar(s[i]))
  }

  lemma AsciiFront(s: Text)
    requires s != [] && s[0] < 128
    ensures ValidUtf8(s) == ValidUtf8(s[1..])
  {
  }

  lemma {:induction false} AsciiIsUtf8(s: Text)
    requires forall c :: c in s ==> c < 128
    ensures ValidUtf8(s)
    decreases |s|
  {
    if s != [] {
      assert s[0] in s && forall c :: c in s[1..] ==> c in s;
      AsciiIsUtf8(s[1..]);
    }
  }

  // The length of the first word of a text that starts with one.
  function WordEnd(s: Text): (n: nat)
    ensures n <= |s|
  {
    if s == [] || IsSpace(s[0]) then 0 else 1 + WordEnd(s[1..])
  }

  predicate Word(s: Text) {
    s != [] && forall c :: c in s ==> !IsSpace(c)
  }

  lemma {:induction false} WordEndAt(w: Text, rest: Text)
    requires forall c :: c in w ==> !IsSpace(c)
    requires rest != [] && IsSpace(rest[0])
    ensures WordEnd(w + rest) == |w|
    decreases |w|
  {
    if w != [] {
      assert w[0] in w && (w + rest)[1..] == w[1..] + rest;
      WordEndAt(w[1..], rest);
    }
  }

  lemma {:induction false} WordEndLast(w: Text)
    requires forall c :: c in w ==> !IsSpace(c)
    ensures WordEnd(w) == |w|
    decreases |w|
  {
    if w != [] {
      assert w[0] in w;
      WordEndLast(w[1..]);
    }
  }

  // `parse::<u64>`, and `parse::<usize>` on a 64-bit machine.
  function ParseU64(s: Text): Option<nat> {
    var d := if s != [] && s[0] == PLUS then s[1..] else s;
    if d == [] then None
    else
      match Digits(d)
      case None => None
      case Some(n) => if n < U64 then Some(n) else None
  }

  lemma U64OfDec(n: nat)
    ensures ParseU64(Dec(n)) == if n < U64 then Some(n) else None
  {
    hide Digits;
    DigitsOfDec(n);
    assert Dec(n)[0] in Dec(n);
  }
}
