// The cursor file: the drain position as text.
module SpoolCursor {
  import opened Bytes
  import opened Ascii
  import opened SpoolLog

  // `write_cursor`
  function CursorText(c: Cursor): Text {
    Dec(c.seg) + [SPACE] + Dec(c.offset)
  }

  function FirstWord(s: Text): (Text, Text) {
    var t := TrimStart(s);
    (t[..WordEnd(t)], t[WordEnd(t)..])
  }

  // `read_cursor` on a file that is there: None when it does not parse.
  function ReadCursor(text: Text): Option<Cursor> {
    if !ValidUtf8(text) then None
    else
      var (seg, rest) := FirstWord(text);
      var (offset, _) := FirstWord(rest);
      match (ParseU64(seg), ParseU64(offset))
      case (Some(s), Some(o)) => Some(Cursor(s, o))
      case _ => None
  }

  // A cursor of 64-bit numbers is read back as it was saved.
  lemma CursorRoundTrip(c: Cursor)
    requires c.seg < U64 && c.offset < U64
    ensures ReadCursor(CursorText(c)) == Some(c)
  {
    hide Dec, ParseU64, ValidUtf8, WordEnd;
    var seg, offset := Dec(c.seg), Dec(c.offset);
    var text, rest := CursorText(c), [SPACE] + offset;
    AsciiIsUtf8(text);
    U64OfDec(c.seg);
    U64OfDec(c.offset);
    assert seg[0] in seg && offset[0] in offset;
    assert text == seg + rest;
    WordEndAt(seg, rest);
    assert text[..|seg|] == seg && text[|seg|..] == rest;
    assert rest[1..] == offset;
    assert TrimStart(rest) == TrimStart(offset) == offset;
    WordEndLast(offset);
    assert offset[..|offset|] == offset;
  }
}
