// AIS sentences as text: the parser's path from a frame to a fragment, the
// synthetic feed's printer, and the proof that the first undoes the second.
module AisText {
  import opened Bytes
  import opened Ascii
  import opened AisReassembly

  const BANG: Byte := 33
  const DOLLAR: Byte := 36
  const STAR: Byte := 42
  const COMMA: Byte := 44
  const BACKSLASH: Byte := 92
  const AIVDM: Text := [65, 73, 86, 68, 77]
  const VDM: Text := [86, 68, 77]
  const VDO: Text := [86, 68, 79]

  // The longest payload piece the printer puts in one sentence.
  const MAX_CHARS := 56

  datatype AisError = NotAscii | NotNmea | BadChecksum | BadFields

  datatype Parsed = Rejected(error: AisError) | Ignored | Sentence(frag: Fragment)

  // ---- text ----

  // The last place of c, or |s| when there is none.
  function FindLast(s: Text, c: Byte): (i: nat)
    ensures i <= |s| && (i < |s| ==> s[i] == c && c !in s[i + 1..]) && (i == |s| ==> c !in s)
  {
    if c !in s then |s|
    else if s[|s| - 1] == c then |s| - 1
    else
      assert s == s[..|s| - 1] + [s[|s| - 1]];
      var i := FindLast(s[..|s| - 1], c);
      assert s[i + 1..] == s[..|s| - 1][i + 1..] + [s[|s| - 1]];
      i
  }

  function Split(s: Text, c: Byte): (r: seq<Text>)
    ensures r != []
    decreases |s|
  {
    var i := Find(s, c);
    if i == |s| then [s] else [s[..i]] + Split(s[i + 1..], c)
  }

  function Join(fields: seq<Text>, c: Byte): Text
    requires fields != []
  {
    if |fields| == 1 then fields[0] else fields[0] + [c] + Join(fields[1..], c)
  }

  predicate EndsWith(s: Text, t: Text) {
    |t| <= |s| && s[|s| - |t|..] == t
  }

  function StripTagBlock(s: Text): Text {
    if s != [] && s[0] == BACKSLASH && Find(s[1..], BACKSLASH) < |s| - 1
    then s[Find(s[1..], BACKSLASH) + 2..]
    else s
  }

  // ---- numbers ----

  // `parse::<u8>`: an optional plus, at least one digit, at most 255.
  function ParseU8(s: Text): Option<nat> {
    var d := if s != [] && s[0] == PLUS then s[1..] else s;
    if d == [] then None
    else
      match Digits(d)
      case None => None
      case Some(n) => if n <= 255 then Some(n) else None
  }

  // `u8::from_str_radix` on two characters.
  function ParseHex2(a: Byte, b: Byte): Option<nat> {
    if HexValue(b).None? then None
    else if a == PLUS then HexValue(b)
    else if HexValue(a).None? then None
    else Some(16 * HexValue(a).value + HexValue(b).value)
  }

  function HexDigit(v: nat): (c: Byte)
    requires v < 16
    ensures HexValue(c) == Some(v) && !IsSpace(c) && c != STAR && c < 128
  {
    if v < 10 then 48 + v else 55 + v
  }

  function Xor(a: Byte, b: Byte): Byte {
    ((a as bv8) ^ (b as bv8)) as int
  }

  function Checksum(s: Text): Byte {
    if s == [] then 0 else Xor(Checksum(s[..|s| - 1]), s[|s| - 1])
  }

  // ---- the parser ----

  predicate ChecksumOk(s: Text)
    requires s != []
  {
    var star := FindLast(s, STAR);
    && 1 <= star && star + 2 < |s|
    && ParseHex2(s[star + 1], s[star + 2]) == Some(Checksum(s[1..star]))
  }

  function ParseFields(f: seq<Text>, raw: Text): Parsed
    requires f != []
  {
    if !(EndsWith(f[0], VDM) || EndsWith(f[0], VDO)) then Ignored
    else if |f| < 7 then Rejected(BadFields)
    else
      match (ParseU8(f[1]), ParseU8(f[2]))
      case (Some(count), Some(num)) =>
        if count == 0 || num == 0 || num > count then Rejected(BadFields)
        else
          var seqId := match ParseU8(f[3]) case Some(n) => n case None => 0;
          var fill := match ParseU8(f[6]) case Some(n) => n case None => 0;
          Sentence(Fragment(Key(f[0], f[4], seqId), count, num, f[5], fill, raw))
      case _ => Rejected(BadFields)
  }

  function ParseSentence(frame: Text): Parsed {
    if !ValidUtf8(frame) then Rejected(NotAscii)
    else
      var original := Trim(frame);
      var s := StripTagBlock(original);
      if s == [] || !(s[0] == BANG || s[0] == DOLLAR) then Rejected(NotNmea)
      else if !ChecksumOk(s) then Rejected(BadChecksum)
      else
        var star := Find(s, STAR);
        assert star >= 1;
        ParseFields(Split(s[1..star], COMMA), original)
  }

  // ---- the printer ----

  function SentenceOf(body: Text): Text {
    var sum := Checksum(body);
    [BANG] + body + [STAR] + [HexDigit(sum / 16), HexDigit(sum % 16)] + CRLF
  }

  function Chunks(payload: Text): seq<Text>
    decreases |payload|
  {
    if |payload| <= MAX_CHARS then (if payload == [] then [] else [payload])
    else [payload[..MAX_CHARS]] + Chunks(payload[MAX_CHARS..])
  }

  function Fields(total: nat, i: nat, seqId: nat, channel: Byte, chunk: Text, fill: nat): seq<Text> {
    [AIVDM, Dec(total), Dec(i + 1), if total > 1 then Dec(seqId) else [], [channel], chunk,
     Dec(if i + 1 == total then fill else 0)]
  }

  function Print(total: nat, i: nat, seqId: nat, channel: Byte, chunk: Text, fill: nat): Text {
    SentenceOf(Join(Fields(total, i, seqId, channel, chunk, fill), COMMA))
  }

  function Sentences(payload: Text, fill: nat, seqId: nat, channel: Byte): seq<Text> {
    var c := Chunks(payload);
    seq(|c|, i requires 0 <= i < |c| => Print(|c|, i, seqId, channel, c[i], fill))
  }

  // A character that separates nothing and is one byte.
  predicate Plain(c: Byte) {
    c < 128 && c != COMMA && c != STAR
  }

  predicate AllPlain(s: Text) {
    forall c :: c in s ==> Plain(c)
  }

  // ---- the parser undoes the printer ----

  lemma {:induction false} ParseOfDec(n: nat)
    ensures ParseU8(Dec(n)) == if n <= 255 then Some(n) else None
    ensures AllPlain(Dec(n))
  {
    hide Digits;
    DigitsOfDec(n);
    assert Dec(n)[0] in Dec(n);
  }

  lemma {:induction false} SplitOfJoin(fields: seq<Text>, c: Byte)
    requires fields != [] && forall f :: f in fields ==> c !in f
    ensures Split(Join(fields, c), c) == fields
    decreases |fields|
  {
    hide Find;
    var s := Join(fields, c);
    assert fields[0] in fields;
    if |fields| == 1 {
      FindAt(s, c, |s|);
    } else {
      var rest := Join(fields[1..], c);
      SplitOfJoin(fields[1..], c);
      FindAfter(fields[0], c, rest);
      assert s == fields[0] + [c] + rest;
      assert s[..|fields[0]|] == fields[0] && s[|fields[0]| + 1..] == rest;
    }
  }

  lemma {:induction false} JoinKeeps(fields: seq<Text>, c: Byte)
    requires fields != [] && c < 128 && c != STAR
    requires forall f :: f in fields ==> AllPlain(f)
    ensures forall x :: x in Join(fields, c) ==> x < 128 && x != STAR
    decreases |fields|
  {
    assert fields[0] in fields;
    if |fields| > 1 {
      JoinKeeps(fields[1..], c);
    }
  }

  // Trimming a printed sentence takes off exactly its line end.
  lemma TrimLine(s: Text)
    requires s != [] && !IsSpace(s[0]) && !IsSpace(s[|s| - 1])
    ensures Trim(s + CRLF) == s
  {
    var t := s + CRLF;
    assert TrimStart(t) == t;
    assert t[..|t| - 1] == s + [13];
    assert (s + [13])[..|s|] == s;
    assert TrimEnd(s + [13]) == TrimEnd(s) == s;
  }

  // A sentence around any text without a star passes its checksum and comes
  // back as that text's fields.
  lemma ParseOfSentence(body: Text)
    requires forall x :: x in body ==> x < 128 && x != STAR
    ensures var s := SentenceOf(body);
            ParseSentence(s) == ParseFields(Split(body, COMMA), s[..|s| - 2])
  {
    hide ValidUtf8, Checksum, Split, ParseFields, Find, FindLast, Trim, ChecksumOk;
    var sum := Checksum(body);
    var s := [BANG] + body + [STAR] + [HexDigit(sum / 16), HexDigit(sum % 16)];
    assert SentenceOf(body) == s + CRLF && SentenceOf(body)[..|s|] == s;
    AsciiIsUtf8(SentenceOf(body));
    TrimLine(s);
    HexRoundTrip(sum);
    SentenceParts(body, HexDigit(sum / 16), HexDigit(sum % 16));
  }

  lemma {:induction false} FindLastAt(s: Text, i: nat)
    requires i < |s| && s[i] == STAR
    requires forall j :: i < j < |s| ==> s[j] != STAR
    ensures FindLast(s, STAR) == i
    decreases |s|
  {
    assert s[i] in s;
    if i < |s| - 1 {
      FindLastAt(s[..|s| - 1], i);
      assert s[..|s| - 1][i] in s[..|s| - 1];
    }
  }

  lemma HexRoundTrip(v: Byte)
    ensures ParseHex2(HexDigit(v / 16), HexDigit(v % 16)) == Some(v)
  {
  }

  // A tag block in front of a sentence changes nothing but the raw text kept.
  lemma TagBlockIgnored(block: Text, body: Text)
    requires forall x :: x in body ==> x < 128 && x != STAR
    requires forall x :: x in block ==> x < 128 && x != BACKSLASH
    ensures var s := SentenceOf(body);
            ParseSentence([BACKSLASH] + block + [BACKSLASH] + s)
            == ParseFields(Split(body, COMMA), [BACKSLASH] + block + [BACKSLASH] + s[..|s| - 2])
  {
    hide ValidUtf8, Checksum, Split, ParseFields, Find, FindLast, Trim, ChecksumOk;
    var sum := Checksum(body);
    var s := [BANG] + body + [STAR] + [HexDigit(sum / 16), HexDigit(sum % 16)];
    var front := [BACKSLASH] + block + [BACKSLASH];
    var framed := front + s;
    assert SentenceOf(body) == s + CRLF && SentenceOf(body)[..|s|] == s;
    assert front + SentenceOf(body) == framed + CRLF;
    AsciiIsUtf8(framed + CRLF);
    TrimLine(framed);
    FindAfter(block, BACKSLASH, s);
    assert framed[1..] == block + [BACKSLASH] + s;
    assert framed[|block| + 2..] == s;
    assert StripTagBlock(framed) == s;
    HexRoundTrip(sum);
    SentenceParts(body, HexDigit(sum / 16), HexDigit(sum % 16));
  }

  lemma {:induction false} SentenceParts(body: Text, hi: Byte, lo: Byte)
    requires STAR !in body && hi != STAR && lo != STAR
    requires ParseHex2(hi, lo) == Some(Checksum(body))
    ensures var s := [BANG] + body + [STAR] + [hi, lo];
            ChecksumOk(s) && Find(s, STAR) == |body| + 1 && s[1..|body| + 1] == body
  {
    hide Checksum, Find, FindLast, ParseHex2;
    var s := [BANG] + body + [STAR] + [hi, lo];
    FindAfter([BANG] + body, STAR, [hi, lo]);
    FindLastAt(s, |body| + 1);
    assert s[1..|body| + 1] == body;
  }

  function PrintedKey(total: nat, seqId: nat, channel: Byte): Key {
    Key(AIVDM, [channel], if total > 1 then seqId else 0)
  }

  // One printed sentence: with at most 255 fragments it parses back to its own
  // fragment; with more, the parser's 8-bit counts reject every one of them.
  lemma ParseOfPrint(total: nat, i: nat, seqId: nat, channel: Byte, chunk: Text, fill: nat)
    requires i < total && seqId <= 255 && fill <= 255 && Plain(channel) && AllPlain(chunk)
    ensures var s := Print(total, i, seqId, channel, chunk, fill);
            ParseSentence(s)
            == if total <= 255
               then Sentence(Fragment(PrintedKey(total, seqId, channel), total, i + 1, chunk,
                                      if i + 1 == total then fill else 0, s[..|s| - 2]))
               else Rejected(BadFields)
  {
    hide ParseSentence, SentenceOf, Split, Join, Dec, ParseU8;
    var f := Fields(total, i, seqId, channel, chunk, fill);
    ParseOfDec(total);
    ParseOfDec(i + 1);
    ParseOfDec(seqId);
    ParseOfDec(if i + 1 == total then fill else 0);
    FieldsArePlain(total, i, seqId, channel, chunk, fill);
    SplitOfJoin(f, COMMA);
    JoinKeeps(f, COMMA);
    ParseOfSentence(Join(f, COMMA));
    assert EndsWith(AIVDM, VDM);
    EmptyIsNoNumber();
  }

  lemma EmptyIsNoNumber()
    ensures ParseU8([]) == None
  {
  }

  lemma FieldsArePlain(total: nat, i: nat, seqId: nat, channel: Byte, chunk: Text, fill: nat)
    requires Plain(channel) && AllPlain(chunk)
    ensures forall f :: f in Fields(total, i, seqId, channel, chunk, fill) ==> AllPlain(f) && COMMA !in f
  {
    hide Dec;
    ParseOfDec(total);
    ParseOfDec(i + 1);
    ParseOfDec(seqId);
    ParseOfDec(if i + 1 == total then fill else 0);
    assert AllPlain(AIVDM) && AllPlain([]) && AllPlain([channel]);
    forall f | f in Fields(total, i, seqId, channel, chunk, fill)
      ensures AllPlain(f) && COMMA !in f
    {
      assert AllPlain(f);
    }
  }
}
