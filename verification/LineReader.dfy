// Newline framing over a byte stream that arrives in arbitrary pieces, into a
// buffer of fixed size.
module LineReader {
  import opened Bytes
  import opened Ascii

  datatype Outcome = Line(bytes: seq<Byte>) | TooLong | Closed

  // A connection: the bytes the peer will ever send and how many were read.
  class Stream {
    const data: seq<Byte>
    var pos: nat

    ghost predicate Valid()
      reads this
    {
      pos <= |data|
    }

    function Rest(): seq<Byte>
      requires Valid()
      reads this
    {
      data[pos..]
    }

    constructor (data: seq<Byte>)
      ensures this.data == data && pos == 0 && Valid()
    {
      this.data, pos := data, 0;
    }

    // However many bytes have arrived: none only at the end of the stream.
    method FillBuf() returns (chunk: seq<Byte>)
      requires Valid()
      ensures chunk <= Rest() && (chunk == [] <==> Rest() == [])
    {
      if pos == |data| {
        return [];
      }
      var n :| 1 <= n <= |data| - pos;
      chunk := data[pos..pos + n];
      assert chunk == Rest()[..n];
    }

    method Consume(n: nat)
      requires Valid() && n <= |Rest()|
      modifies this
      ensures Valid() && Rest() == old(Rest())[n..]
    {
      pos := pos + n;
    }
  }

  // ---- the simple form ----

  function StripCr(s: seq<Byte>): seq<Byte> {
    if s != [] && s[|s| - 1] == CR then StripCr(s[..|s| - 1]) else s
  }

  // What a raw line yields in a buffer of `cap` bytes.
  function Classify(raw: seq<Byte>, cap: nat): Outcome {
    if |raw| > cap then TooLong else Line(StripCr(raw))
  }

  function First(rest: seq<Byte>, cap: nat): Outcome {
    if rest == [] then Closed else Classify(rest[..Find(rest, LF)], cap)
  }

  // What is left behind the first line and its newline.
  function After(rest: seq<Byte>): seq<Byte> {
    var n := Find(rest, LF);
    if n < |rest| then rest[n + 1..] else []
  }

  // Every outcome of a stream until it closes.
  function Outcomes(rest: seq<Byte>, cap: nat): seq<Outcome>
    decreases |rest|
  {
    if rest == [] then [] else [First(rest, cap)] + Outcomes(After(rest), cap)
  }

  // ---- the program ----

  // Copy as much as fits behind the bytes already there.
  method CopyBounded(buf: array<Byte>, len: nat, overflow: bool, src: seq<Byte>) returns (len': nat, overflow': bool)
    requires len <= buf.Length
    modifies buf
    ensures overflow' == (overflow || len + |src| > buf.Length)
    ensures len' == (if len + |src| > buf.Length then buf.Length else len + |src|)
    ensures len' <= buf.Length && buf[..len'] == old(buf[..len]) + src[..len' - len]
  {
    var room := buf.Length - len;
    if |src| > room {
      forall i | 0 <= i < room {
        buf[len + i] := src[i];
      }
      len' := buf.Length;
      overflow' := true;
    } else {
      forall i | 0 <= i < |src| {
        buf[len + i] := src[i];
      }
      len' := len + |src|;
      overflow' := overflow;
    }
  }

  // How far the line has been read: `seen` bytes of it, as many as fit in the
  // buffer, the stream behind them.
  ghost predicate Reading(s: Stream, buf: array<Byte>, rest: seq<Byte>, seen: nat, len: nat, overflow: bool)
    reads s, buf
  {
    && s.Valid() && seen <= Find(rest, LF) && len <= buf.Length
    && overflow == (seen > buf.Length)
    && len == (if overflow then buf.Length else seen)
    && (!overflow ==> buf[..len] == rest[..seen])
  }

  // One piece of the line: up to its newline, or all of it.
  method TakePiece(s: Stream, buf: array<Byte>, ghost rest: seq<Byte>, ghost seen: nat, len: nat, overflow: bool,
                   chunk: seq<Byte>)
    returns (len': nat, overflow': bool, done: bool, ghost seen': nat)
    requires Reading(s, buf, rest, seen, len, overflow)
    requires s.Rest() == rest[seen..] && chunk <= s.Rest() && chunk != []
    modifies s, buf
    ensures Reading(s, buf, rest, seen', len', overflow')
    ensures |s.Rest()| < |old(s.Rest())|
    ensures !done ==> s.Rest() == rest[seen'..]
    ensures done ==> seen' == Find(rest, LF) < |rest| && s.Rest() == rest[seen' + 1..]
  {
    hide Find;
    var n := Find(chunk, LF);
    FindInPiece(rest, seen, chunk);
    var piece := chunk[..n];
    TakeMore(rest, seen, chunk, n);
    len', overflow' := CopyBounded(buf, len, overflow, piece);
    assert !overflow' ==> piece[..len' - len] == piece;
    seen' := seen + n;
    done := n < |chunk|;
    DropDrop(rest, seen, if done then n + 1 else n);
    s.Consume(if done then n + 1 else n);
  }

  lemma TakeMore(rest: seq<Byte>, seen: nat, chunk: seq<Byte>, n: nat)
    requires seen <= |rest| && chunk <= rest[seen..] && n <= |chunk|
    ensures rest[..seen + n] == rest[..seen] + chunk[..n]
  {
    assert chunk[..n] == rest[seen..][..n];
  }

  // Read one line, whatever the pieces: the result is the simple form's, the
  // buffer holds the line, and the stream stands at the next line.
  method ReadLine(s: Stream, buf: array<Byte>) returns (r: Outcome, len: nat)
    requires s.Valid()
    modifies s, buf
    ensures s.Valid()
    ensures r == First(old(s.Rest()), buf.Length) && s.Rest() == After(old(s.Rest()))
    ensures r.Line? ==> len <= buf.Length && buf[..len] == r.bytes
  {
    hide Find;
    ghost var rest := s.Rest();
    ghost var seen: nat := 0;
    len := 0;
    var overflow, done, eof := false, false, false;
    while !done && !eof
      invariant Reading(s, buf, rest, seen, len, overflow)
      invariant done ==> seen == Find(rest, LF) < |rest| && s.Rest() == rest[seen + 1..]
      invariant !done ==> s.Rest() == rest[seen..]
      invariant eof ==> seen == |rest|
      decreases |s.Rest()|, !eof
    {
      var chunk := s.FillBuf();
      if chunk == [] {
        eof := true;
      } else {
        len, overflow, done, seen := TakePiece(s, buf, rest, seen, len, overflow, chunk);
      }
    }
    if eof && len == 0 && !overflow {
      return Closed, 0;
    }
    if overflow {
      return TooLong, len;
    }
    len := DropCr(buf, len);
    r := Line(buf[..len]);
  }

  method DropCr(buf: array<Byte>, len: nat) returns (len': nat)
    requires len <= buf.Length
    ensures len' <= len && buf[..len'] == StripCr(buf[..len])
  {
    len' := len;
    while len' > 0 && buf[len' - 1] == CR
      invariant len' <= len
      invariant StripCr(buf[..len']) == StripCr(buf[..len])
    {
      assert buf[..len'][..len' - 1] == buf[..len' - 1];
      len' := len' - 1;
    }
  }

  // A newline in the piece at hand is the line's; none means the line goes on.
  lemma FindInPiece(rest: seq<Byte>, seen: nat, chunk: seq<Byte>)
    requires seen <= Find(rest, LF) && chunk <= rest[seen..]
    ensures seen + Find(chunk, LF) <= Find(rest, LF)
    ensures Find(chunk, LF) < |chunk| ==> seen + Find(chunk, LF) == Find(rest, LF) < |rest|
  {
    hide Find;
    var n := Find(chunk, LF);
    NotBeforeFound(chunk, LF);
    NotBeforeFound(rest, LF);
    forall j | 0 <= j < seen + n
      ensures rest[j] != LF
    {
      if j >= seen {
        assert rest[j] == rest[seen..][j - seen] == chunk[j - seen];
      }
    }
    if n < |chunk| {
      assert rest[seen + n] == rest[seen..][n] == chunk[n];
      FindAt(rest, LF, seen + n);
    } else {
      FindAtLeast(rest, LF, seen + n);
    }
  }

  // The loop a consumer runs: the outcomes do not depend on the pieces.
  method ReadAll(s: Stream, cap: nat) returns (out: seq<Outcome>)
    requires s.Valid()
    modifies s
    ensures out == Outcomes(old(s.Rest()), cap)
  {
    hide First, After;
    var buf := new Byte[cap](_ => 0);
    out := [];
    while true
      invariant s.Valid()
      invariant out + Outcomes(s.Rest(), cap) == Outcomes(old(s.Rest()), cap)
      decreases |s.Rest()|
    {
      ghost var rest := s.Rest();
      var r, len := ReadLine(s, buf);
      FirstCases(rest, cap);
      if r.Closed? {
        return;
      }
      out := out + [r];
    }
  }

  lemma FirstCases(rest: seq<Byte>, cap: nat)
    ensures First(rest, cap).Closed? <==> rest == []
    ensures rest != [] ==> |After(rest)| < |rest|
  {
  }

  // ---- what the simple form means ----

  function Terminated(lines: seq<seq<Byte>>): seq<Byte> {
    if lines == [] then [] else lines[0] + [LF] + Terminated(lines[1..])
  }

  function ClassifyAll(lines: seq<seq<Byte>>, cap: nat): seq<Outcome> {
    if lines == [] then [] else [Classify(lines[0], cap)] + ClassifyAll(lines[1..], cap)
  }

  // For every list of lines and every unterminated rest: each line is delivered
  // or rejected on its own, in order, and an overlong one costs only itself.
  lemma {:induction false} OutcomesOfLines(lines: seq<seq<Byte>>, tail: seq<Byte>, cap: nat)
    requires forall l :: l in lines ==> LF !in l
    requires LF !in tail
    ensures Outcomes(Terminated(lines) + tail, cap)
            == ClassifyAll(lines, cap) + (if tail == [] then [] else [Classify(tail, cap)])
    decreases |lines|
  {
    hide Find, Classify;
    var data := Terminated(lines) + tail;
    if lines == [] {
      assert data == tail;
      FindAt(tail, LF, |tail|);
      if tail != [] {
        assert tail[..|tail|] == tail;
        assert Outcomes(tail, cap) == [First(tail, cap)] + Outcomes([], cap);
      }
    } else {
      var rest := Terminated(lines[1..]) + tail;
      assert lines[0] in lines;
      assert data == lines[0] + [LF] + rest;
      FindAfter(lines[0], LF, rest);
      assert data[..|lines[0]|] == lines[0] && data[|lines[0]| + 1..] == rest;
      OutcomesOfLines(lines[1..], tail, cap);
    }
  }

  // A delivered line is a line sent: no newline, no trailing CR, within the buffer.
  lemma {:induction false} StripCrMeaning(s: seq<Byte>)
    ensures StripCr(s) <= s
    ensures StripCr(s) != [] ==> StripCr(s)[|StripCr(s)| - 1] != CR
    ensures forall i :: |StripCr(s)| <= i < |s| ==> s[i] == CR
  {
    if s != [] && s[|s| - 1] == CR {
      StripCrMeaning(s[..|s| - 1]);
    }
  }
}
