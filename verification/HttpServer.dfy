// Webhook deliveries over HTTP/1.1: one connection as a byte sequence with a
// position, requests one after the other, bodies by Content-Length or chunked.
module HttpServer {
  import opened Bytes
  import opened Ascii

  const MAX_FRAME := 64 * 1024
  const MAX_HEADER_BYTES := 16 * 1024
  const MAX_HEADERS := 64

  const SEMICOLON: Byte := 59

  datatype Outcome =
    | Accepted | BadRequest | Unauthorized | NotFound | MethodNotAllowed
    | PayloadTooLarge | NotImplemented | Saturated

  // A value read and the position behind it, or the refusal.
  datatype Result<T> = Ok(value: T, pos: nat) | Refused(outcome: Outcome)

  // ---- lines ----

  // Without its trailing line feeds and carriage returns.
  function Chomp(s: Text): Text {
    if s != [] && (s[|s| - 1] == LF || s[|s| - 1] == CR) then Chomp(s[..|s| - 1]) else s
  }

  // The bytes up to and with the next line feed, or to the end.
  function RawLine(data: Text, pos: nat): (r: Text)
    requires pos <= |data|
    ensures pos + |r| <= |data| && r == data[pos..pos + |r|] && (r == [] <==> pos == |data|)
  {
    var n := Find(data[pos..], LF);
    if n < |data| - pos then data[pos..pos + n + 1] else data[pos..]
  }

  // `read_line`: one header line, charged against a budget.
  function LineAt(data: Text, pos: nat, budget: nat): (r: Result<Text>)
    requires pos <= |data|
    ensures r.Ok? ==> pos < r.pos <= |data| && r.pos - pos <= budget
  {
    var raw := RawLine(data, pos);
    if raw == [] || |raw| > budget || !ValidUtf8(Chomp(raw)) then Refused(BadRequest)
    else Ok(Chomp(raw), pos + |raw|)
  }

  // ---- chunked bodies ----

  function HexDigits(s: Text): Option<nat> {
    if s == [] then Some(0)
    else
      match (HexDigits(s[..|s| - 1]), HexValue(s[|s| - 1]))
      case (Some(n), Some(d)) => Some(16 * n + d)
      case _ => None
  }

  // `usize::from_str_radix(_, 16)` on a 64-bit machine.
  function ParseSize(s: Text): Option<nat> {
    var d := if s != [] && s[0] == PLUS then s[1..] else s;
    if d == [] then None
    else
      match HexDigits(d)
      case None => None
      case Some(n) => if n < U64 then Some(n) else None
  }

  // The size a chunk line declares, its extensions ignored.
  function ChunkSize(line: Text): Option<nat> {
    ParseSize(Trim(line[..Find(line, SEMICOLON)]))
  }

  // Trailer lines up to and with the blank one.
  function TrailersAt(data: Text, pos: nat, budget: nat): (r: Result<()>)
    requires pos <= |data|
    ensures r.Ok? ==> pos < r.pos <= |data|
    decreases |data| - pos
  {
    match LineAt(data, pos, budget)
    case Refused(o) => Refused(o)
    case Ok(line, p) => if line == [] then Ok((), p) else TrailersAt(data, p, budget - (p - pos))
  }

  // `read_chunked` from a position, with the body so far.
  function ChunkedAt(data: Text, pos: nat, body: Text): (r: Result<Text>)
    requires pos <= |data|
    ensures r.Ok? ==> pos < r.pos <= |data|
    ensures r.Ok? && |body| <= MAX_FRAME ==> |r.value| <= MAX_FRAME
    decreases |data| - pos
  {
    match LineAt(data, pos, MAX_HEADER_BYTES)
    case Refused(o) => Refused(o)
    case Ok(line, p) =>
      match ChunkSize(line)
      case None => Refused(BadRequest)
      case Some(size) =>
        if size == 0 then
          match TrailersAt(data, p, MAX_HEADER_BYTES)
          case Refused(o) => Refused(o)
          case Ok(_, q) => Ok(body, q)
        else if |body| + size > MAX_FRAME then Refused(PayloadTooLarge)
        else if p + size > |data| then Refused(BadRequest)
        else
          match LineAt(data, p + size, MAX_HEADER_BYTES)
          case Refused(o) => Refused(o)
          case Ok(_, q) => ChunkedAt(data, q, body + data[p..p + size])
  }

  // ---- what a sender writes (section 7.1 of RFC 9112) ----

  // Text that can stand on a line.
  ghost predicate OnLine(s: Text) {
    ValidUtf8(s) && LF !in s && CR !in s
  }

  ghost predicate IsHex(s: Text) {
    s != [] && forall c :: c in s ==> HexValue(c).Some?
  }

  // A chunk: its size in hexadecimal, any extensions, its data.
  datatype Chunk = Chunk(size: Text, ext: Text, data: Text)

  ghost predicate SizeLine(size: Text, ext: Text, n: nat) {
    && IsHex(size) && HexDigits(size) == Some(n)
    && OnLine(ext) && (ext == [] || ext[0] == SEMICOLON)
    && |size| + |ext| + 2 <= MAX_HEADER_BYTES
  }

  ghost predicate GoodChunk(c: Chunk) {
    c.data != [] && SizeLine(c.size, c.ext, |c.data|)
  }

  function WireChunk(c: Chunk): Text {
    c.size + c.ext + CRLF + c.data + CRLF
  }

  function WireLines(lines: seq<Text>): Text {
    if lines == [] then [] else lines[0] + CRLF + WireLines(lines[1..])
  }

  // The last chunk, the trailers and the blank line.
  datatype End = End(size: Text, ext: Text, trailers: seq<Text>)

  ghost predicate GoodEnd(e: End) {
    && SizeLine(e.size, e.ext, 0)
    && (forall t :: t in e.trailers ==> OnLine(t) && t != [])
    && |WireLines(e.trailers)| + 2 <= MAX_HEADER_BYTES
  }

  function WireEnd(e: End): Text {
    e.size + e.ext + CRLF + WireLines(e.trailers) + CRLF
  }

  function WireBody(chunks: seq<Chunk>, e: End): Text {
    if chunks == [] then WireEnd(e) else WireChunk(chunks[0]) + WireBody(chunks[1..], e)
  }

  function Payload(chunks: seq<Chunk>): Text {
    if chunks == [] then [] else chunks[0].data + Payload(chunks[1..])
  }

  // ---- reading back a line ----

  lemma {:induction false} ChompLine(s: Text)
    requires LF !in s && CR !in s
    ensures Chomp(s + CRLF) == s && Chomp(s) == s
  {
    assert (s + CRLF)[..|s| + 1] == s + [CR];
    assert (s + [CR])[..|s|] == s;
    assert s != [] ==> s[|s| - 1] in s;
    assert Chomp(s) == s;
    assert Chomp(s + [CR]) == Chomp(s);
  }

  // A line the sender wrote is read as written, and the reader stops behind it.
  lemma LineReadsBack(before: Text, line: Text, after: Text, budget: nat)
    requires OnLine(line) && |line| + 2 <= budget
    ensures LineAt(before + line + CRLF + after, |before|, budget) == Ok(line, |before| + |line| + 2)
  {
    hide ValidUtf8, Chomp, Find;
    var data := before + line + CRLF + after;
    var rest := data[|before|..];
    assert rest == (line + [CR]) + [LF] + after;
    FindAfter(line + [CR], LF, after);
    assert RawLine(data, |before|) == line + CRLF;
    ChompLine(line);
  }

  lemma {:induction false} HexIsUtf8(s: Text, t: Text)
    requires (forall c :: c in s ==> c < 128) && ValidUtf8(t)
    ensures ValidUtf8(s + t)
    decreases |s|
  {
    hide ValidUtf8;
    if s == [] {
      assert s + t == t;
    } else {
      assert s[0] in s && (forall c :: c in s[1..] ==> c in s);
      HexIsUtf8(s[1..], t);
      assert (s + t)[1..] == s[1..] + t;
      AsciiFront(s + t);
    }
  }

  lemma SizeLineReads(size: Text, ext: Text, n: nat)
    requires SizeLine(size, ext, n)
    ensures OnLine(size + ext)
    ensures n < U64 ==> ChunkSize(size + ext) == Some(n)
  {
    hide ValidUtf8, HexDigits, Find;
    HexIsUtf8(size, ext);
    assert size[0] in size && size[|size| - 1] in size;
    assert SEMICOLON !in size;
    if ext == [] {
      assert size + ext == size;
      FindAt(size, SEMICOLON, |size|);
      assert size[..|size|] == size;
    } else {
      assert size + ext == size + [SEMICOLON] + ext[1..];
      FindAfter(size, SEMICOLON, ext[1..]);
      assert (size + ext)[..|size|] == size;
    }
    assert Trim(size) == size;
  }

  lemma {:induction false} TrailersReadBack(before: Text, trailers: seq<Text>, after: Text, budget: nat)
    requires forall t :: t in trailers ==> OnLine(t) && t != []
    requires |WireLines(trailers)| + 2 <= budget
    ensures TrailersAt(before + WireLines(trailers) + CRLF + after, |before|, budget)
            == Ok((), |before| + |WireLines(trailers)| + 2)
    decreases |trailers|
  {
    hide LineAt, OnLine;
    var data := before + WireLines(trailers) + CRLF + after;
    if trailers == [] {
      assert data == before + [] + CRLF + after;
      assert OnLine([]) by { EmptyOnLine(); }
      LineReadsBack(before, [], after, budget);
    } else {
      var t := trailers[0];
      assert t in trailers;
      var more := WireLines(trailers[1..]) + CRLF + after;
      assert data == before + t + CRLF + more;
      LineReadsBack(before, t, more, budget);
      assert data == (before + t + CRLF) + WireLines(trailers[1..]) + CRLF + after;
      TrailersReadBack(before + t + CRLF, trailers[1..], after, budget - (|t| + 2));
    }
  }

  lemma EmptyOnLine()
    ensures OnLine([])
  {
  }

  // Chunked decoding undoes chunked encoding: the body is the chunks' data in
  // order and the position is the first byte behind the encoding, whatever
  // comes before and after it.
  lemma {:induction false} ChunkedReadsBack(before: Text, chunks: seq<Chunk>, e: End, after: Text, body: Text)
    requires forall c :: c in chunks ==> GoodChunk(c)
    requires GoodEnd(e) && |body| + |Payload(chunks)| <= MAX_FRAME
    ensures ChunkedAt(before + WireBody(chunks, e) + after, |before|, body)
            == Ok(body + Payload(chunks), |before| + |WireBody(chunks, e)|)
    decreases |chunks|
  {
    hide LineAt, OnLine, ChunkSize, TrailersAt, SizeLine;
    if chunks == [] {
      EndReadsBack(before, e, after);
      assert body + Payload(chunks) == body;
    } else {
      var c := chunks[0];
      assert c in chunks;
      var more := WireBody(chunks[1..], e) + after;
      var data := before + WireChunk(c) + more;
      assert before + WireBody(chunks, e) + after == data;
      OneChunkReadsBack(before, c, more);
      var next := before + WireChunk(c);
      assert data == next + WireBody(chunks[1..], e) + after;
      assert body + Payload(chunks) == (body + c.data) + Payload(chunks[1..]);
      ChunkedReadsBack(next, chunks[1..], e, after, body + c.data);
    }
  }

  lemma EndReadsBack(before: Text, e: End, after: Text)
    requires GoodEnd(e)
    ensures var data := before + WireEnd(e) + after;
            var p := |before| + |e.size + e.ext| + 2;
            && LineAt(data, |before|, MAX_HEADER_BYTES) == Ok(e.size + e.ext, p)
            && ChunkSize(e.size + e.ext) == Some(0)
            && TrailersAt(data, p, MAX_HEADER_BYTES) == Ok((), |before| + |WireEnd(e)|)
  {
    hide LineAt, OnLine, ChunkSize, TrailersAt;
    var line := e.size + e.ext;
    var data := before + WireEnd(e) + after;
    SizeLineReads(e.size, e.ext, 0);
    assert data == before + line + CRLF + (WireLines(e.trailers) + CRLF + after);
    LineReadsBack(before, line, WireLines(e.trailers) + CRLF + after, MAX_HEADER_BYTES);
    assert data == (before + line + CRLF) + WireLines(e.trailers) + CRLF + after;
    TrailersReadBack(before + line + CRLF, e.trailers, after, MAX_HEADER_BYTES);
  }

  lemma OneChunkReadsBack(before: Text, c: Chunk, more: Text)
    requires GoodChunk(c) && |c.data| <= MAX_FRAME
    ensures var data := before + WireChunk(c) + more;
            var p := |before| + |c.size + c.ext| + 2;
            && LineAt(data, |before|, MAX_HEADER_BYTES) == Ok(c.size + c.ext, p)
            && ChunkSize(c.size + c.ext) == Some(|c.data|)
            && p + |c.data| <= |data| && data[p..p + |c.data|] == c.data
            && LineAt(data, p + |c.data|, MAX_HEADER_BYTES) == Ok([], |before| + |WireChunk(c)|)
  {
    hide LineAt, OnLine, ChunkSize;
    var line := c.size + c.ext;
    var data := before + WireChunk(c) + more;
    SizeLineReads(c.size, c.ext, |c.data|);
    assert data == before + line + CRLF + (c.data + CRLF + more);
    LineReadsBack(before, line, c.data + CRLF + more, MAX_HEADER_BYTES);
    var front := before + line + CRLF + c.data;
    assert data == front + [] + CRLF + more;
    EmptyOnLine();
    LineReadsBack(front, [], more, MAX_HEADER_BYTES);
  }
}
