// One webhook connection: the request head, routing, the body, and the loop
// that serves request after request on the same connection.
module HttpConnection {
  import opened Bytes
  import opened Ascii
  import opened HttpServer

  const SLASH: Byte := 47
  const QUESTION: Byte := 63
  const HASH: Byte := 35
  const POST: Text := [112, 111, 115, 116]
  const PUT: Text := [112, 117, 116]
  const CONTENT_LENGTH: Text := [99, 111, 110, 116, 101, 110, 116, 45, 108, 101, 110, 103, 116, 104]
  const TRANSFER_ENCODING: Text :=
    [116, 114, 97, 110, 115, 102, 101, 114, 45, 101, 110, 99, 111, 100, 105, 110, 103]
  const CHUNKED: Text := [99, 104, 117, 110, 107, 101, 100]
  const EXPECT: Text := [101, 120, 112, 101, 99, 116]
  const CONTINUE: Text := [49, 48, 48, 45, 99, 111, 110, 116, 105, 110, 117, 101]
  const TOKEN: Text := [120, 45, 97, 106, 97, 114, 45, 116, 111, 107, 101, 110]

  datatype Settings = Settings(path: Text, token: Option<Text>)

  datatype Head = Head(methodAllowed: bool, path: Text, contentLength: Option<nat>, chunked: bool,
                       expectContinue: bool, token: Option<Text>)

  // ---- the head ----

  function TrimSlashes(s: Text): Text {
    if s != [] && s[0] == SLASH then TrimSlashes(s[1..])
    else if s != [] && s[|s| - 1] == SLASH then TrimSlashes(s[..|s| - 1])
    else s
  }

  function NormalisePath(path: Text): Text {
    [SLASH] + TrimSlashes(Trim(path))
  }

  function WithoutQuery(target: Text): Text {
    var q, h := Find(target, QUESTION), Find(target, HASH);
    target[..if q <= h then q else h]
  }

  function ParseRequestLine(line: Text): Option<Head> {
    var s := TrimStart(line);
    var verb := s[..WordEnd(s)];
    var t := TrimStart(s[WordEnd(s)..]);
    var target := t[..WordEnd(t)];
    if verb == [] || target == [] then None
    else Some(Head(Lower(verb) == POST || Lower(verb) == PUT, NormalisePath(WithoutQuery(target)),
                   None, false, false, None))
  }

  datatype HeaderResult = Read(head: Head) | Bad(outcome: Outcome)

  function HeaderLine(h: Head, line: Text): HeaderResult {
    var i := Find(line, COLON);
    if i == |line| then Bad(BadRequest)
    else
      var name, value := Lower(line[..i]), Trim(line[i + 1..]);
      if name == CONTENT_LENGTH then
        match ParseU64(value)
        case None => Bad(BadRequest)
        case Some(n) => Read(h.(contentLength := Some(n)))
      else if name == TRANSFER_ENCODING then
        if Lower(value) == CHUNKED then Read(h.(chunked := true)) else Bad(NotImplemented)
      else if name == EXPECT then Read(h.(expectContinue := Lower(value) == CONTINUE))
      else if name == TOKEN then Read(h.(token := Some(value)))
      else Read(h)
  }

  // Header lines until the blank one, at most `lines` of them.
  function HeadersAt(data: Text, pos: nat, budget: nat, h: Head, lines: nat): (r: Result<Head>)
    requires pos <= |data|
    ensures r.Ok? ==> pos < r.pos <= |data|
    decreases lines
  {
    if lines == 0 then Refused(BadRequest)
    else
      match LineAt(data, pos, budget)
      case Refused(o) => Refused(o)
      case Ok(line, p) =>
        if line == [] then Ok(h, p)
        else
          match HeaderLine(h, line)
          case Bad(o) => Refused(o)
          case Read(h') => HeadersAt(data, p, budget - (p - pos), h', lines - 1)
  }

  function HeadAt(data: Text, pos: nat): (r: Result<Head>)
    requires pos <= |data|
    ensures r.Ok? ==> pos < r.pos <= |data|
  {
    match LineAt(data, pos, MAX_HEADER_BYTES)
    case Refused(o) => Refused(o)
    case Ok(line, p) =>
      match ParseRequestLine(line)
      case None => Refused(BadRequest)
      case Some(h) => HeadersAt(data, p, MAX_HEADER_BYTES - (p - pos), h, MAX_HEADERS)
  }

  // ---- one request ----

  // The checks that come before any body is read.
  function Route(s: Settings, h: Head): Option<Outcome> {
    if h.path != s.path then Some(NotFound)
    else if !h.methodAllowed then Some(MethodNotAllowed)
    else if s.token.Some? && (if h.token.Some? then h.token.value else []) != s.token.value then Some(Unauthorized)
    else if h.contentLength.Some? && h.contentLength.value > MAX_FRAME then Some(PayloadTooLarge)
    else None
  }

  function BodyAt(h: Head, data: Text, pos: nat): (r: Result<Text>)
    requires pos <= |data|
    ensures r.Ok? ==> pos <= r.pos <= |data|
  {
    var n := if h.contentLength.Some? then h.contentLength.value else 0;
    if h.chunked then ChunkedAt(data, pos, [])
    else if pos + n > |data| then Refused(BadRequest)
    else Ok(data[pos..pos + n], pos + n)
  }

  // How one request was answered, whether the connection may carry another, and
  // the frame that was queued.
  datatype Served = Served(outcome: Outcome, reusable: bool, pos: nat, frame: Option<Text>)

  function ServeAt(s: Settings, data: Text, pos: nat, room: bool): (r: Served)
    requires pos <= |data|
    ensures pos <= r.pos <= |data| && (r.reusable ==> pos < r.pos)
  {
    match HeadAt(data, pos)
    case Refused(o) => Served(o, false, pos, None)
    case Ok(h, p) =>
      match Route(s, h)
      case Some(o) => Served(o, false, p, None)
      case None =>
        if h.contentLength.None? && !h.chunked then Served(Accepted, true, p, None)
        else
          match BodyAt(h, data, p)
          case Refused(o) => Served(o, false, p, None)
          case Ok(body, q) =>
            if room then Served(Accepted, true, q, Some(body)) else Served(Saturated, true, q, None)
  }

  // Everything a connection is answered; `room` says which requests find the
  // queue with a free place.
  function Session(s: Settings, data: Text, pos: nat, room: nat -> bool, n: nat): seq<Served>
    requires pos <= |data|
    decreases |data| - pos
  {
    if pos == |data| then []
    else
      var r := ServeAt(s, data, pos, room(n));
      [r] + if r.reusable then Session(s, data, r.pos, room, n + 1) else []
  }

  function Frames(rs: seq<Served>): seq<Text> {
    if rs == [] then []
    else (if rs[0].frame.Some? then [rs[0].frame.value] else []) + Frames(rs[1..])
  }

  // ---- the program ----

  class Connection {
    const data: Text
    var pos: nat

    ghost predicate Valid()
      reads this
    {
      pos <= |data|
    }

    constructor (data: Text)
      ensures this.data == data && pos == 0 && Valid()
    {
      this.data, pos := data, 0;
    }

    method ReadLine(budget: nat) returns (r: Result<Text>, left: nat)
      requires Valid()
      modifies this
      ensures Valid() && r == LineAt(data, old(pos), budget)
      ensures r.Ok? ==> pos == r.pos && left == budget - (pos - old(pos))
    {
      var raw := RawLine(data, pos);
      pos := pos + |raw|;
      left := budget;
      if raw == [] {
        return Refused(BadRequest), left;
      }
      if budget < |raw| {
        return Refused(BadRequest), left;
      }
      left := budget - |raw|;
      ghost var whole := raw;
      while raw != [] && (raw[|raw| - 1] == LF || raw[|raw| - 1] == CR)
        invariant Chomp(raw) == Chomp(whole)
        decreases |raw|
      {
        raw := raw[..|raw| - 1];
      }
      if !ValidUtf8(raw) {
        return Refused(BadRequest), left;
      }
      return Ok(raw, pos), left;
    }

    method ReadTrailers() returns (r: Result<()>)
      requires Valid()
      modifies this
      ensures Valid() && r == TrailersAt(data, old(pos), MAX_HEADER_BYTES)
      ensures r.Ok? ==> pos == r.pos
    {
      hide LineAt;
      var budget: nat := MAX_HEADER_BYTES;
      while true
        invariant Valid()
        invariant TrailersAt(data, pos, budget) == TrailersAt(data, old(pos), MAX_HEADER_BYTES)
        decreases |data| - pos
      {
        var line, left := ReadLine(budget);
        if line.Refused? {
          return Refused(line.outcome);
        }
        if line.value == [] {
          return Ok((), pos);
        }
        budget := left;
      }
    }

    method ReadChunked() returns (r: Result<Text>)
      requires Valid()
      modifies this
      ensures Valid() && r == ChunkedAt(data, old(pos), [])
      ensures r.Ok? ==> pos == r.pos
    {
      hide LineAt, ChunkSize, TrailersAt;
      var body: Text := [];
      while true
        invariant Valid()
        invariant ChunkedAt(data, pos, body) == ChunkedAt(data, old(pos), [])
        decreases |data| - pos
      {
        var line, left := ReadLine(MAX_HEADER_BYTES);
        if line.Refused? {
          return Refused(line.outcome);
        }
        var size := ChunkSize(line.value);
        if size.None? {
          return Refused(BadRequest);
        }
        if size.value == 0 {
          var end := ReadTrailers();
          if end.Refused? {
            return Refused(end.outcome);
          }
          return Ok(body, pos);
        }
        if |body| + size.value > MAX_FRAME {
          return Refused(PayloadTooLarge);
        }
        if pos + size.value > |data| {
          return Refused(BadRequest);
        }
        body := body + data[pos..pos + size.value];
        pos := pos + size.value;
        line, left := ReadLine(MAX_HEADER_BYTES);
        if line.Refused? {
          return Refused(line.outcome);
        }
      }
    }

    method ReadHead() returns (r: Result<Head>)
      requires Valid()
      modifies this
      ensures Valid() && r == HeadAt(data, old(pos))
      ensures r.Ok? ==> pos == r.pos
    {
      hide LineAt, ParseRequestLine, HeaderLine;
      var line, budget := ReadLine(MAX_HEADER_BYTES);
      if line.Refused? {
        return Refused(line.outcome);
      }
      var first := ParseRequestLine(line.value);
      if first.None? {
        return Refused(BadRequest);
      }
      var head := first.value;
      var lines: nat := MAX_HEADERS;
      ghost var start, allowed, parsed := pos, budget, head;
      while lines > 0
        invariant Valid() && start <= |data|
        invariant HeadersAt(data, pos, budget, head, lines) == HeadersAt(data, start, allowed, parsed, MAX_HEADERS)
      {
        var next, left := ReadLine(budget);
        if next.Refused? {
          return Refused(next.outcome);
        }
        if next.value == [] {
          return Ok(head, pos);
        }
        match HeaderLine(head, next.value) {
          case Bad(o) => return Refused(o);
          case Read(h) => head := h;
        }
        budget := left;
        lines := lines - 1;
      }
      return Refused(BadRequest);
    }

    // Read one request and, if it is a valid delivery and there is room, queue
    // its body.
    method Serve(s: Settings, room: bool) returns (r: Served)
      requires Valid()
      modifies this
      ensures Valid()
      ensures var spec := ServeAt(s, data, old(pos), room);
              && r.outcome == spec.outcome && r.reusable == spec.reusable && r.frame == spec.frame
              && (r.reusable ==> r == spec && pos == r.pos)
    {
      hide HeadAt, ChunkedAt, Route;
      var head := ReadHead();
      if head.Refused? {
        return Served(head.outcome, false, pos, None);
      }
      var h := head.value;
      var routed := Route(s, h);
      if routed.Some? {
        return Served(routed.value, false, pos, None);
      }
      if h.contentLength.None? && !h.chunked {
        return Served(Accepted, true, pos, None);
      }
      var body: Result<Text>;
      if h.chunked {
        body := ReadChunked();
      } else {
        var n := h.contentLength.value;
        if pos + n > |data| {
          return Served(BadRequest, false, pos, None);
        }
        body := Ok(data[pos..pos + n], pos + n);
        pos := pos + n;
      }
      if body.Refused? {
        return Served(body.outcome, false, pos, None);
      }
      if room {
        return Served(Accepted, true, pos, Some(body.value));
      }
      return Served(Saturated, true, pos, None);
    }

    // Serve the connection until it closes or a request leaves it unusable.
    method Run(s: Settings, room: nat -> bool) returns (frames: seq<Text>)
      requires Valid()
      modifies this
      ensures frames == Frames(Session(s, data, old(pos), room, 0))
    {
      hide ServeAt, Session, Frames;
      frames := [];
      var n: nat := 0;
      while pos < |data|
        invariant Valid()
        invariant frames + Frames(Session(s, data, pos, room, n)) == Frames(Session(s, data, old(pos), room, 0))
        decreases |data| - pos
      {
        SessionStep(s, data, pos, room, n);
        var r := Serve(s, room(n));
        if r.frame.Some? {
          frames := frames + [r.frame.value];
        }
        if !r.reusable {
          return;
        }
        n := n + 1;
      }
      assert Frames(Session(s, data, pos, room, n)) == [] by { SessionEnds(s, data, room, n); }
    }
  }

  lemma SessionStep(s: Settings, data: Text, pos: nat, room: nat -> bool, n: nat)
    requires pos < |data|
    ensures var r := ServeAt(s, data, pos, room(n));
            Frames(Session(s, data, pos, room, n))
            == (if r.frame.Some? then [r.frame.value] else [])
               + if r.reusable then Frames(Session(s, data, r.pos, room, n + 1)) else []
  {
    hide ServeAt;
    var r := ServeAt(s, data, pos, room(n));
    FramesCons(r, if r.reusable then Session(s, data, r.pos, room, n + 1) else []);
  }

  lemma SessionEnds(s: Settings, data: Text, room: nat -> bool, n: nat)
    ensures Frames(Session(s, data, |data|, room, n)) == []
  {
  }

  lemma FramesCons(r: Served, rs: seq<Served>)
    ensures Frames([r] + rs) == (if r.frame.Some? then [r.frame.value] else []) + Frames(rs)
  {
    assert ([r] + rs)[1..] == rs;
  }

  // ---- a keep-alive connection of well-formed requests ----

  datatype Body = NoBody | Fixed(bytes: Text) | Chunks(chunks: seq<Chunk>, end: End)

  datatype Request = Request(lines: seq<Text>, body: Body)

  function BodyBytes(b: Body): Text {
    match b
    case NoBody => []
    case Fixed(bytes) => bytes
    case Chunks(chunks, end) => WireBody(chunks, end)
  }

  // The frame a body carries; a request without one is a health probe.
  function BodyFrame(b: Body): Option<Text> {
    match b
    case NoBody => None
    case Fixed(bytes) => Some(bytes)
    case Chunks(chunks, _) => Some(Payload(chunks))
  }

  function Wire(r: Request): Text {
    WireLines(r.lines) + CRLF + BodyBytes(r.body)
  }

  // The head a list of lines spells.
  function ParseHeaders(h: Head, lines: seq<Text>): Option<Head>
    decreases |lines|
  {
    if lines == [] then Some(h)
    else
      match HeaderLine(h, lines[0])
      case Bad(_) => None
      case Read(h') => ParseHeaders(h', lines[1..])
  }

  function ParseHead(lines: seq<Text>): Option<Head> {
    if lines == [] then None
    else
      match ParseRequestLine(lines[0])
      case None => None
      case Some(h) => ParseHeaders(h, lines[1..])
  }

  // A head within the limits that routes here and announces its body.
  ghost predicate GoodHead(lines: seq<Text>) {
    && ParseHead(lines).Some?
    && (forall l :: l in lines ==> OnLine(l) && l != [])
    && |lines| <= MAX_HEADERS && |WireLines(lines)| + 2 <= MAX_HEADER_BYTES
  }

  // The head says what body there is.
  ghost predicate Announces(h: Head, body: Body) {
    match body
    case NoBody => !h.chunked && h.contentLength == None
    case Fixed(bytes) => !h.chunked && h.contentLength == Some(|bytes|)
    case Chunks(chunks, end) =>
      && h.chunked && GoodEnd(end) && |Payload(chunks)| <= MAX_FRAME
      && forall c :: c in chunks ==> GoodChunk(c)
  }

  ghost predicate GoodRequest(s: Settings, r: Request) {
    && GoodHead(r.lines)
    && var h := ParseHead(r.lines).value;
       && Route(s, h).None?
       && Announces(h, r.body)
  }

  lemma {:induction false} HeadersReadBack(before: Text, lines: seq<Text>, after: Text, budget: nat, h: Head, n: nat)
    requires forall l :: l in lines ==> OnLine(l) && l != []
    requires |WireLines(lines)| + 2 <= budget && |lines| < n
    requires ParseHeaders(h, lines).Some?
    ensures HeadersAt(before + WireLines(lines) + CRLF + after, |before|, budget, h, n)
            == Ok(ParseHeaders(h, lines).value, |before| + |WireLines(lines)| + 2)
    decreases |lines|
  {
    hide LineAt, OnLine, HeaderLine;
    var data := before + WireLines(lines) + CRLF + after;
    if lines == [] {
      assert data == before + [] + CRLF + after;
      EmptyOnLine();
      LineReadsBack(before, [], after, budget);
    } else {
      var l := lines[0];
      assert l in lines;
      var more := WireLines(lines[1..]) + CRLF + after;
      assert data == before + l + CRLF + more;
      LineReadsBack(before, l, more, budget);
      assert data == (before + l + CRLF) + WireLines(lines[1..]) + CRLF + after;
      HeadersReadBack(before + l + CRLF, lines[1..], after, budget - (|l| + 2), HeaderLine(h, l).head, n - 1);
    }
  }

  lemma HeadReadsBack(before: Text, lines: seq<Text>, after: Text)
    requires GoodHead(lines)
    ensures HeadAt(before + WireLines(lines) + CRLF + after, |before|)
            == Ok(ParseHead(lines).value, |before| + |WireLines(lines)| + 2)
  {
    hide LineAt, OnLine, HeadersAt, ParseRequestLine, ParseHeaders;
    var l, rest := lines[0], lines[1..];
    assert l in lines;
    var data := before + WireLines(lines) + CRLF + after;
    var more := WireLines(rest) + CRLF + after;
    assert data == before + l + CRLF + more;
    LineReadsBack(before, l, more, MAX_HEADER_BYTES);
    assert data == (before + l + CRLF) + WireLines(rest) + CRLF + after;
    HeadersReadBack(before + l + CRLF, rest, after, MAX_HEADER_BYTES - (|l| + 2),
                    ParseRequestLine(l).value, MAX_HEADERS);
  }

  // One well-formed request, anywhere on a connection: its body is the frame,
  // the position is the next request, and a full queue costs only this frame.
  lemma RequestServed(s: Settings, before: Text, r: Request, after: Text, room: bool)
    requires GoodRequest(s, r)
    ensures ServeAt(s, before + Wire(r) + after, |before|, room)
            == Served(if room || r.body.NoBody? then Accepted else Saturated, true, |before| + |Wire(r)|,
                      if room then BodyFrame(r.body) else None)
  {
    hide HeadAt, Route, BodyAt, ParseHead, OnLine, Announces, BodyBytes, BodyFrame;
    var head := WireLines(r.lines) + CRLF;
    var data := before + Wire(r) + after;
    HeadReadsBack(before, r.lines, BodyBytes(r.body) + after);
    assert data == before + WireLines(r.lines) + CRLF + (BodyBytes(r.body) + after);
    assert data == (before + head) + BodyBytes(r.body) + after;
    BodyReadsBack(before + head, ParseHead(r.lines).value, r.body, after);
  }

  lemma BodyReadsBack(before: Text, h: Head, body: Body, after: Text)
    requires Announces(h, body)
    ensures h.contentLength.None? && !h.chunked <==> body.NoBody?
    ensures body.NoBody? ==> BodyBytes(body) == [] && BodyFrame(body) == None
    ensures !body.NoBody? ==>
              && BodyFrame(body).Some?
              && BodyAt(h, before + BodyBytes(body) + after, |before|)
                 == Ok(BodyFrame(body).value, |before| + |BodyBytes(body)|)
  {
    hide ChunkedAt, GoodEnd, WireBody, Payload;
    match body
    case NoBody =>
    case Fixed(bytes) =>
      assert (before + bytes + after)[|before|..|before| + |bytes|] == bytes;
    case Chunks(chunks, end) =>
      ChunkedReadsBack(before, chunks, end, after, []);
      assert [] + Payload(chunks) == Payload(chunks);
  }

  function WireAll(rs: seq<Request>): Text {
    if rs == [] then [] else Wire(rs[0]) + WireAll(rs[1..])
  }

  // The bodies of the requests that found room, in order.
  function Delivered(rs: seq<Request>, room: nat -> bool, n: nat): seq<Text>
    decreases |rs|
  {
    if rs == [] then []
    else
      var frame := BodyFrame(rs[0].body);
      (if room(n) && frame.Some? then [frame.value] else []) + Delivered(rs[1..], room, n + 1)
  }

  // A keep-alive connection of well-formed requests yields their bodies, in
  // order; all of them when the queue always has room.
  lemma {:induction false} KeepAlive(s: Settings, before: Text, rs: seq<Request>, room: nat -> bool, n: nat)
    requires forall r :: r in rs ==> GoodRequest(s, r)
    ensures Frames(Session(s, before + WireAll(rs), |before|, room, n)) == Delivered(rs, room, n)
    decreases |rs|
  {
    hide ServeAt, GoodRequest, Wire, BodyFrame, Session, Frames;
    var data := before + WireAll(rs);
    if rs == [] {
      assert data == before;
      SessionEnds(s, data, room, n);
    } else {
      var r, rest := rs[0], rs[1..];
      assert r in rs;
      RequestServed(s, before, r, WireAll(rest), room(n));
      assert data == before + Wire(r) + WireAll(rest);
      var next := before + Wire(r);
      assert data == next + WireAll(rest);
      KeepAlive(s, next, rest, room, n + 1);
      WireNotEmpty(r);
      SessionStep(s, data, |before|, room, n);
    }
  }

  lemma WireNotEmpty(r: Request)
    ensures Wire(r) != []
  {
  }

  // ---- heads as senders write them ----

  datatype Header = Header(name: Text, value: Text)

  function HeaderText(h: Header): Text {
    h.name + [COLON, SPACE] + h.value
  }

  function HeaderTexts(hs: seq<Header>): seq<Text> {
    if hs == [] then [] else [HeaderText(hs[0])] + HeaderTexts(hs[1..])
  }

  // Header names compare without regard to case.
  predicate Named(h: Header, name: Text) {
    Lower(h.name) == name
  }

  ghost predicate Has(hs: seq<Header>, name: Text) {
    exists i :: 0 <= i < |hs| && Named(hs[i], name)
  }

  predicate Bare(s: Text) {
    s == [] || (!IsSpace(s[0]) && !IsSpace(s[|s| - 1]))
  }

  // A header that says of this delivery what is so, or something else entirely.
  ghost predicate Fine(h: Header, length: nat, token: Text) {
    && COLON !in h.name && Bare(h.value)
    && (Named(h, CONTENT_LENGTH) ==> h.value == Dec(length))
    && (Named(h, TRANSFER_ENCODING) ==> Lower(h.value) == CHUNKED)
    && (Named(h, TOKEN) ==> h.value == token)
  }

  lemma TrimBare(s: Text)
    requires Bare(s)
    ensures Trim([SPACE] + s) == s
  {
    assert ([SPACE] + s)[1..] == s;
    assert TrimStart([SPACE] + s) == TrimStart(s) == s;
  }

  lemma HeaderReads(head: Head, h: Header, length: nat, token: Text)
    requires Fine(h, length, token) && length < U64
    ensures var r := HeaderLine(head, HeaderText(h));
            && r.Read?
            && r.head.methodAllowed == head.methodAllowed && r.head.path == head.path
            && r.head.contentLength == (if Named(h, CONTENT_LENGTH) then Some(length) else head.contentLength)
            && r.head.chunked == (Named(h, TRANSFER_ENCODING) || head.chunked)
            && r.head.token == (if Named(h, TOKEN) then Some(token) else head.token)
  {
    hide Find, Trim, ParseU64, Lower;
    var line := HeaderText(h);
    assert line == h.name + [COLON] + ([SPACE] + h.value);
    FindAfter(h.name, COLON, [SPACE] + h.value);
    assert line[..|h.name|] == h.name && line[|h.name| + 1..] == [SPACE] + h.value;
    TrimBare(h.value);
    U64OfDec(length);
    NamesDiffer();
  }

  lemma NamesDiffer()
    ensures CONTENT_LENGTH != TRANSFER_ENCODING && CONTENT_LENGTH != EXPECT && CONTENT_LENGTH != TOKEN
    ensures TRANSFER_ENCODING != EXPECT && TRANSFER_ENCODING != TOKEN && EXPECT != TOKEN
  {
    assert |CONTENT_LENGTH| == 14 && |TRANSFER_ENCODING| == 17 && |EXPECT| == 6 && |TOKEN| == 12;
  }

  // The order of the headers, their case, repetitions and any headers of other
  // names make no difference.
  lemma {:induction false} HeadersSpell(head: Head, hs: seq<Header>, length: nat, token: Text)
    requires forall h :: h in hs ==> Fine(h, length, token)
    requires length < U64
    ensures var r := ParseHeaders(head, HeaderTexts(hs));
            && r.Some?
            && r.value.methodAllowed == head.methodAllowed && r.value.path == head.path
            && r.value.contentLength == (if Has(hs, CONTENT_LENGTH) then Some(length) else head.contentLength)
            && r.value.chunked == (Has(hs, TRANSFER_ENCODING) || head.chunked)
            && r.value.token == (if Has(hs, TOKEN) then Some(token) else head.token)
    decreases |hs|
  {
    hide HeaderLine, Fine, Named, HeaderText;
    if hs != [] {
      var h, rest := hs[0], hs[1..];
      assert h in hs;
      HeaderReads(head, h, length, token);
      HeadersSpell(HeaderLine(head, HeaderText(h)).head, rest, length, token);
      HasCons(hs, CONTENT_LENGTH);
      HasCons(hs, TRANSFER_ENCODING);
      HasCons(hs, TOKEN);
      assert HeaderTexts(hs)[1..] == HeaderTexts(rest);
    }
  }

  lemma HasCons(hs: seq<Header>, name: Text)
    requires hs != []
    ensures Has(hs, name) <==> Named(hs[0], name) || Has(hs[1..], name)
  {
    hide Named;
    if Has(hs, name) && !Named(hs[0], name) {
      var i :| 0 <= i < |hs| && Named(hs[i], name);
      assert Named(hs[1..][i - 1], name);
    }
    if Has(hs[1..], name) {
      var i :| 0 <= i < |hs[1..]| && Named(hs[1..][i], name);
      assert Named(hs[i + 1], name);
    }
  }

  // A request line: the method, the target's path, any query, the version.
  lemma RequestLineReads(verb: Text, path: Text, query: Text, version: Text)
    requires Word(verb) && Word(path) && (forall c :: c in query ==> !IsSpace(c))
    requires QUESTION !in path && HASH !in path
    requires query == [] || query[0] == QUESTION || query[0] == HASH
    ensures ParseRequestLine(verb + [SPACE] + (path + query) + [SPACE] + version)
            == Some(Head(Lower(verb) == POST || Lower(verb) == PUT, NormalisePath(path), None, false, false, None))
  {
    hide Find, Lower, WordEnd, NormalisePath, WithoutQuery;
    var target := path + query;
    var tail := [SPACE] + version;
    var line := verb + [SPACE] + target + [SPACE] + version;
    assert verb[0] in verb && path[0] in path;
    assert TrimStart(line) == line;
    assert line == verb + ([SPACE] + target + tail);
    WordEndAt(verb, [SPACE] + target + tail);
    assert line[..|verb|] == verb && line[|verb|..] == [SPACE] + target + tail;
    assert ([SPACE] + target + tail)[1..] == target + tail;
    assert TrimStart([SPACE] + target + tail) == TrimStart(target + tail) == target + tail;
    assert forall c :: c in target ==> !IsSpace(c);
    WordEndAt(target, tail);
    assert (target + tail)[..|target|] == target;
    QueryDropped(path, query);
  }

  lemma QueryDropped(path: Text, query: Text)
    requires QUESTION !in path && HASH !in path
    requires query == [] || query[0] == QUESTION || query[0] == HASH
    ensures WithoutQuery(path + query) == path
  {
    hide Find;
    var s := path + query;
    assert s[..|path|] == path;
    if query == [] {
      FindAt(s, QUESTION, |s|);
      FindAt(s, HASH, |s|);
    } else {
      FindAtLeast(s, QUESTION, |path|);
      FindAtLeast(s, HASH, |path|);
      FindAt(s, query[0], |path|);
    }
  }

  // A delivery as a sender writes it is well formed: POST or PUT in any case to
  // the configured path, its body announced by its length or as chunked, the
  // configured token, and any other headers.
  lemma DeliveryIsGood(s: Settings, verb: Text, path: Text, query: Text, version: Text, hs: seq<Header>, token: Text,
                       body: Body)
    requires Word(verb) && (Lower(verb) == POST || Lower(verb) == PUT)
    requires Word(path) && QUESTION !in path && HASH !in path && NormalisePath(path) == s.path
    requires (forall c :: c in query ==> !IsSpace(c)) && (query == [] || query[0] == QUESTION || query[0] == HASH)
    requires forall h :: h in hs ==> Fine(h, if body.Fixed? then |body.bytes| else 0, token)
    requires s.token.Some? ==> s.token.value == token && Has(hs, TOKEN)
    requires Has(hs, TRANSFER_ENCODING) == body.Chunks?
    requires if body.Chunks? then GoodEnd(body.end) && |Payload(body.chunks)| <= MAX_FRAME
                                  && forall c :: c in body.chunks ==> GoodChunk(c)
             else Has(hs, CONTENT_LENGTH) == body.Fixed?
    requires body.Fixed? ==> |body.bytes| <= MAX_FRAME
    requires var lines := [verb + [SPACE] + (path + query) + [SPACE] + version] + HeaderTexts(hs);
             && (forall l :: l in lines ==> OnLine(l) && l != [])
             && |lines| <= MAX_HEADERS && |WireLines(lines)| + 2 <= MAX_HEADER_BYTES
    ensures GoodRequest(s, Request([verb + [SPACE] + (path + query) + [SPACE] + version] + HeaderTexts(hs), body))
  {
    hide ParseRequestLine, ParseHeaders, HeaderTexts, Fine, Has, OnLine, GoodEnd, GoodChunk;
    hide WireLines, Payload, NormalisePath, Lower;
    var length := if body.Fixed? then |body.bytes| else 0;
    var first := verb + [SPACE] + (path + query) + [SPACE] + version;
    var lines := [first] + HeaderTexts(hs);
    RequestLineReads(verb, path, query, version);
    var head := Head(true, s.path, None, false, false, None);
    HeadersSpell(head, hs, length, token);
    assert lines[0] == first && lines[1..] == HeaderTexts(hs);
    assert ParseHead(lines) == ParseHeaders(head, HeaderTexts(hs));
  }
}
