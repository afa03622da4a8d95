// Bytes, fixed-width integers in both byte orders, UTF-8 validity, and the few
// sequence facts that the other modules share.
module Bytes {

  type Byte = x: int | 0 <= x < 256

  const U32 := 0x1_0000_0000
  const U64 := 0x1_0000_0000_0000_0000

  datatype Option<+T> = None | Some(value: T)

  function Pow256(k: nat): (p: nat)
    ensures p > 0
  {
    if k == 0 then 1 else 256 * Pow256(k - 1)
  }

  // The low k bytes of n, most significant first: `n as u32` followed by
  // `to_be_bytes` is BigEndian(n, 4).
  function BigEndian(n: nat, k: nat): (r: seq<Byte>)
    ensures |r| == k
  {
    if k == 0 then [] else BigEndian(n / 256, k - 1) + [n % 256]
  }

  function LittleEndian(n: nat, k: nat): (r: seq<Byte>)
    ensures |r| == k
  {
    if k == 0 then [] else [n % 256] + LittleEndian(n / 256, k - 1)
  }

  function FromBigEndian(b: seq<Byte>): nat {
    if b == [] then 0 else 256 * FromBigEndian(b[..|b| - 1]) + b[|b| - 1]
  }

  function FromLittleEndian(b: seq<Byte>): nat {
    if b == [] then 0 else b[0] + 256 * FromLittleEndian(b[1..])
  }

  // A number that fits reads back; whatever is read back fits.
  lemma {:induction false} BigEndianRoundTrip(n: nat, k: nat)
    requires n < Pow256(k)
    ensures FromBigEndian(BigEndian(n, k)) == n
  {
    if k > 0 {
      BigEndianRoundTrip(n / 256, k - 1);
      assert BigEndian(n, k)[..k - 1] == BigEndian(n / 256, k - 1);
    }
  }

  lemma {:induction false} LittleEndianRoundTrip(n: nat, k: nat)
    requires n < Pow256(k)
    ensures FromLittleEndian(LittleEndian(n, k)) == n
  {
    if k > 0 {
      LittleEndianRoundTrip(n / 256, k - 1);
      assert LittleEndian(n, k)[1..] == LittleEndian(n / 256, k - 1);
    }
  }

  lemma {:induction false} FromBigEndianBound(b: seq<Byte>)
    ensures FromBigEndian(b) < Pow256(|b|)
  {
    if b != [] {
      FromBigEndianBound(b[..|b| - 1]);
    }
  }

  lemma U32Width()
    ensures Pow256(4) == U32
  {
    assert Pow256(1) == 256;
    assert Pow256(2) == 0x1_0000;
    assert Pow256(3) == 0x100_0000;
  }

  // `String::from_utf8` accepts exactly these byte strings.
  predicate ValidUtf8(s: seq<Byte>)
    decreases |s|
  {
    if s == [] then true
    else
      var n := Utf8Width(s);
      n > 0 && ValidUtf8(s[n..])
  }

  predicate Tail(s: seq<Byte>, i: nat, lo: int, hi: int) {
    i < |s| && lo <= s[i] <= hi
  }

  // The width of the scalar value at the front of s, or 0 when s does not
  // start with one.
  function Utf8Width(s: seq<Byte>): (n: nat)
    requires s != []
    ensures n <= |s|
  {
    var b := s[0];
    if b < 0x80 then 1
    else if 0xC2 <= b <= 0xDF && Tail(s, 1, 0x80, 0xBF) then 2
    else if 0xE0 <= b <= 0xEF && Tail(s, 2, 0x80, 0xBF)
            && Tail(s, 1, if b == 0xE0 then 0xA0 else 0x80, if b == 0xED then 0x9F else 0xBF) then 3
    else if 0xF0 <= b <= 0xF4 && Tail(s, 3, 0x80, 0xBF) && Tail(s, 2, 0x80, 0xBF)
            && Tail(s, 1, if b == 0xF0 then 0x90 else 0x80, if b == 0xF4 then 0x8F else 0xBF) then 4
    else 0
  }

  lemma SliceOfPrefix<T>(s: seq<T>, n: nat, i: nat, j: nat)
    requires i <= j <= n <= |s|
    ensures s[..n][i..j] == s[i..j]
  {
  }

  lemma DropDrop<T>(s: seq<T>, i: nat, j: nat)
    requires i + j <= |s|
    ensures s[i..][j..] == s[i + j..]
  {
  }

  ghost predicate IsSuffix<T>(s: seq<T>, t: seq<T>) {
    |s| <= |t| && t[|t| - |s|..] == s
  }

  lemma SuffixOfConcat<T>(s: seq<T>, t: seq<T>, front: seq<T>)
    requires IsSuffix(s, t)
    ensures IsSuffix(s, front + t)
  {
    assert (front + t)[|front + t| - |s|..] == t[|t| - |s|..];
  }

  lemma SuffixExtend<T>(s: seq<T>, t: seq<T>, back: seq<T>)
    requires IsSuffix(s, t)
    ensures IsSuffix(s + back, t + back)
  {
    assert (t + back)[|t| - |s|..] == t[|t| - |s|..] + back;
  }

  lemma SuffixTrans<T>(s: seq<T>, t: seq<T>, u: seq<T>)
    requires IsSuffix(s, t) && IsSuffix(t, u)
    ensures IsSuffix(s, u)
  {
    assert u[|u| - |t|..][|t| - |s|..] == u[|u| - |s|..];
  }

  // The first place of c, or |s|.
  function Find(s: seq<Byte>, c: Byte): (i: nat)
    ensures i <= |s| && (i < |s| ==> s[i] == c) && c !in s[..i]
  {
    if s == [] || s[0] == c then 0
    else
      var i := 1 + Find(s[1..], c);
      assert s[..i] == [s[0]] + s[1..][..i - 1];
      i
  }

  lemma {:induction false} FindAt(s: seq<Byte>, c: Byte, i: nat)
    requires i <= |s| && (i < |s| ==> s[i] == c)
    requires forall j :: 0 <= j < i ==> s[j] != c
    ensures Find(s, c) == i
    decreases |s|
  {
    if i > 0 {
      FindAt(s[1..], c, i - 1);
    }
  }

  lemma {:induction false} FindAtLeast(s: seq<Byte>, c: Byte, k: nat)
    requires k <= |s| && forall j :: 0 <= j < k ==> s[j] != c
    ensures k <= Find(s, c)
    decreases |s|
  {
    if k > 0 {
      FindAtLeast(s[1..], c, k - 1);
    }
  }

  lemma NotBeforeFound(s: seq<Byte>, c: Byte)
    ensures forall j :: 0 <= j < Find(s, c) ==> s[j] != c
  {
    hide Find;
    var i := Find(s, c);
    forall j | 0 <= j < i
      ensures s[j] != c
    {
      assert s[j] == s[..i][j];
    }
  }

  lemma FindAfter(s: seq<Byte>, c: Byte, t: seq<Byte>)
    requires c !in s
    ensures Find(s + [c] + t, c) == |s|
  {
    FindAt(s + [c] + t, c, |s|);
  }
}
