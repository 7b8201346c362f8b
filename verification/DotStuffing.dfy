// The DATA payload: batch and streaming dot-stuffing, and the receiver that section
// 4.5.2 of RFC 5321 prescribes for the other end.

module DotStuffing {
  import opened Octets

  // Position i of a body is the start of a line.
  predicate LineStart(body: bytes, i: nat) {
    i == 0 || CrlfAt(body, i - 2)
  }

  function StuffedByte(atLineStart: bool, b: byte): bytes {
    if atLineStart && b == '.' then [b, b] else [b]
  }

  lemma LineStartSnoc(seen: bytes, b: byte)
    ensures LineStart(seen + [b], |seen| + 1) == (seen != [] && seen[|seen| - 1] == '\r' && b == '\n')
  {
  }

  // The body with every '.' at the start of a line doubled.
  function Stuffed(body: bytes): (s: bytes)
    ensures body == [] ==> s == []
  {
    if body == [] then []
    else
      var n := |body| - 1;
      Stuffed(body[..n]) + StuffedByte(LineStart(body, n), body[n])
  }

  const DOT_LINE: bytes := ".\r\n"

  function Terminator(endsWithCrlf: bool): bytes {
    if endsWithCrlf then DOT_LINE else CRLF + DOT_LINE
  }

  function Payload(body: bytes): bytes {
    Stuffed(body) + Terminator(EndsWithCrlf(body))
  }

  // The body as the receiver is meant to see it: its last line complete.
  function Complete(body: bytes): bytes {
    if EndsWithCrlf(body) then body else body + CRLF
  }

  // ---------------------------------------------------------------------------
  // The two senders
  // ---------------------------------------------------------------------------

  lemma StuffedSnoc(body: bytes, c: byte)
    ensures Stuffed(body + [c]) == Stuffed(body) + StuffedByte(LineStart(body, |body|), c)
  {
    assert (body + [c])[..|body|] == body;
    assert LineStart(body + [c], |body|) == LineStart(body, |body|);
  }

  lemma StuffedEnding(body: bytes)
    ensures EndsWithCrlf(Stuffed(body)) == EndsWithCrlf(body)
  {
    if |body| >= 2 {
      var n := |body|;
      assert body == body[..n - 2] + [body[n - 2]] + [body[n - 1]];
      StuffedSnoc(body[..n - 2], body[n - 2]);
      StuffedSnoc(body[..n - 2] + [body[n - 2]], body[n - 1]);
    }
  }

  method DotStuffAndTerminate(body: bytes) returns (out: bytes)
    ensures out == Payload(body)
  {
    hide Stuffed;
    out := [];
    var atLineStart := true;
    var prev: byte := '\0';
    for i := 0 to |body|
      invariant out == Stuffed(body[..i])
      invariant atLineStart == LineStart(body[..i], i)
      invariant prev == if i == 0 then '\0' else body[i - 1]
    {
      var b := body[i];
      StuffedSnoc(body[..i], b);
      assert body[..i + 1] == body[..i] + [b];
      assert LineStart(body[..i + 1], i + 1) == (prev == '\r' && b == '\n');
      ghost var sofar := out;
      if atLineStart && b == '.' {
        out := out + ['.'];
      }
      out := out + [b];
      assert out == sofar + StuffedByte(atLineStart, b);
      atLineStart := prev == '\r' && b == '\n';
      prev := b;
    }
    assert body[..|body|] == body;
    StuffedEnding(body);
    EndsWithIsAt(out);
    Assoc(out, CRLF, DOT_LINE);
    if !EndsWith(out, CRLF) {
      out := out + CRLF;
    }
    out := out + DOT_LINE;
  }

  // The streaming stuffer. `fed` is everything it has been given so far.
  class DotStuffer {
    var atLineStart: bool
    var prev: byte
    var prevPrev: byte
    var empty: bool
    ghost var fed: bytes

    ghost predicate Valid()
      reads this
    {
      && empty == (fed == [])
      && atLineStart == LineStart(fed, |fed|)
      && prev == (if fed == [] then '\0' else fed[|fed| - 1])
      && prevPrev == (if |fed| < 2 then '\0' else fed[|fed| - 2])
    }

    constructor ()
      ensures Valid() && fed == []
    {
      atLineStart, prev, prevPrev, empty := true, '\0', '\0', true;
      fed := [];
    }

    method ProcessChunk(chunk: bytes) returns (out: bytes)
      requires Valid()
      modifies this
      ensures Valid() && fed == old(fed) + chunk
      ensures out == StuffedChunk(old(fed), chunk)
    {
      hide StuffedChunk, LineStart;
      out := [];
      if chunk == [] {
        return;
      }
      ghost var before := fed;
      for i := 0 to |chunk|
        invariant fed == before + chunk[..i] && out == StuffedChunk(before, chunk[..i])
        invariant atLineStart == LineStart(fed, |fed|)
        invariant prev == (if fed == [] then '\0' else fed[|fed| - 1])
        invariant prevPrev == (if |fed| < 2 then '\0' else fed[|fed| - 2])
      {
        var b := chunk[i];
        ghost var next := fed + [b];
        assert chunk[..i + 1] == chunk[..i] + [b];
        Assoc(before, chunk[..i], [b]);
        StuffedChunkSnoc(before, chunk[..i], b);
        LineStartSnoc(fed, b);
        ghost var sofar := out;
        if atLineStart && b == '.' {
          out := out + [b];
        }
        out := out + [b];
        assert out == sofar + StuffedByte(atLineStart, b);
        var newAtLineStart := prev == '\r' && b == '\n';
        prevPrev := prev;
        prev := b;
        atLineStart := newAtLineStart;
        fed := next;
      }
      assert chunk[..|chunk|] == chunk;
      empty := false;
    }

    // The bytes that end the DATA phase.
    function Finish(): (out: bytes)
      requires Valid()
      reads this
      ensures Stuffed(fed) + out == Payload(fed)
    {
      var endsWithCrlf := !empty && prevPrev == '\r' && prev == '\n';
      Terminator(endsWithCrlf)
    }
  }

  // What processing `chunk` writes when `fed` came before it.
  function StuffedChunk(fed: bytes, chunk: bytes): (s: bytes)
    ensures chunk == [] ==> s == []
  {
    if chunk == [] then []
    else
      var n := |chunk| - 1;
      var before := fed + chunk[..n];
      StuffedChunk(fed, chunk[..n]) + StuffedByte(LineStart(before, |before|), chunk[n])
  }

  lemma StuffedChunkSnoc(fed: bytes, chunk: bytes, c: byte)
    ensures StuffedChunk(fed, chunk + [c])
         == StuffedChunk(fed, chunk) + StuffedByte(LineStart(fed + chunk, |fed + chunk|), c)
  {
    assert (chunk + [c])[..|chunk|] == chunk;
  }

  lemma {:induction false} StuffedChunkAppends(fed: bytes, chunk: bytes)
    ensures Stuffed(fed + chunk) == Stuffed(fed) + StuffedChunk(fed, chunk)
  {
    hide Stuffed, StuffedChunk, LineStart, StuffedByte;
    if chunk == [] {
      assert fed + chunk == fed;
    } else {
      var n := |chunk| - 1;
      var init, c := chunk[..n], chunk[n];
      assert chunk == init + [c];
      StuffedChunkAppends(fed, init);
      StuffedSnoc(fed + init, c);
      StuffedChunkSnoc(fed, init, c);
      Assoc(fed, init, [c]);
      Assoc(Stuffed(fed), StuffedChunk(fed, init), StuffedByte(LineStart(fed + init, |fed + init|), c));
    }
  }

  // Everything a stuffer writes for a body handed over in chunks.
  function Streamed(fed: bytes, chunks: seq<bytes>): bytes
    decreases |chunks|
  {
    if chunks == [] then Terminator(EndsWithCrlf(fed))
    else StuffedChunk(fed, chunks[0]) + Streamed(fed + chunks[0], chunks[1..])
  }

  // Streaming equals batch, however the body is cut into chunks.
  lemma {:induction false} StreamingEqualsBatch(fed: bytes, chunks: seq<bytes>)
    ensures Stuffed(fed) + Streamed(fed, chunks) == Payload(fed + Concat(chunks))
    decreases |chunks|
  {
    hide Stuffed, StuffedChunk;
    if chunks == [] {
      assert fed + Concat(chunks) == fed;
    } else {
      var chunk, rest := chunks[0], chunks[1..];
      StuffedChunkAppends(fed, chunk);
      StreamingEqualsBatch(fed + chunk, rest);
      Assoc(fed, chunk, Concat(rest));
      Assoc(Stuffed(fed), StuffedChunk(fed, chunk), Streamed(fed + chunk, rest));
    }
  }

  // ---------------------------------------------------------------------------
  // The receiver
  // ---------------------------------------------------------------------------

  function Unstuff(line: bytes): bytes {
    if line != [] && line[0] == '.' then line[1..] else line
  }

  // Read lines up to a lone '.', deleting the first period of longer lines. The result
  // is the mail data and what follows it.
  function Receive(s: bytes): Option<(bytes, bytes)>
    decreases |s|
  {
    match FindCrlf(s)
    case None => None
    case Some(p) =>
      if s[..p] == DOT then Some(([], s[p + 2..]))
      else
        match Receive(s[p + 2..])
        case None => None
        case Some(m) => Some((Unstuff(s[..p]) + CRLF + m.0, m.1))
  }

  function Dotted(line: bytes): bytes {
    if line != [] && line[0] == '.' then ['.'] + line else line
  }

  lemma DottedNoCrlf(line: bytes)
    requires NoCrlf(line)
    ensures NoCrlf(Dotted(line)) && Dotted(line) != DOT && Unstuff(Dotted(line)) == line
  {
    var d := Dotted(line);
    forall i | 0 <= i < |d| ensures !CrlfAt(d, i) {
      if d != line && i > 0 {
        assert !CrlfAt(line, i - 1);
      } else {
        assert !CrlfAt(line, i);
      }
    }
  }

  lemma {:induction false} StuffedLine(line: bytes)
    requires NoCrlf(line)
    ensures Stuffed(line) == Dotted(line)
  {
    hide Stuffed;
    if line == [] {
    } else {
      var n := |line| - 1;
      var init, c := line[..n], line[n];
      assert NoCrlf(init) by {
        assert forall i :: CrlfAt(init, i) ==> CrlfAt(line, i);
      }
      StuffedLine(init);
      assert !LineStart(init, n) || n == 0;
      assert line == init + [c];
      StuffedSnoc(init, c);
      assert Dotted(init + [c]) == (if n == 0 && c == '.' then [c, c] else Dotted(init) + [c]);
    }
  }

  lemma {:induction false} StuffedLines(line: bytes, rest: bytes)
    requires NoCrlf(line)
    ensures Stuffed(line + CRLF + rest) == Dotted(line) + CRLF + Stuffed(rest)
  {
    hide Stuffed, Dotted, StuffedByte;
    if rest == [] {
      StuffedLine(line);
      StuffedCrlf(line);
      assert line + CRLF + rest == line + CRLF;
    } else {
      var n := |rest| - 1;
      var init, c := rest[..n], rest[n];
      StuffedLines(line, init);
      var before := line + CRLF + init;
      StuffedSnoc(before, c);
      StuffedSnoc(init, c);
      assert rest == init + [c];
      Assoc(line + CRLF, init, [c]);
      assert LineStart(before, |before|) == LineStart(init, n);
      Assoc(Dotted(line) + CRLF, Stuffed(init), StuffedByte(LineStart(init, n), c));
    }
  }

  lemma StuffedCrlf(body: bytes)
    ensures Stuffed(body + CRLF) == Stuffed(body) + CRLF
  {
    hide Stuffed;
    StuffedSnoc(body, '\r');
    StuffedSnoc(body + ['\r'], '\n');
    assert body + CRLF == body + ['\r'] + ['\n'];
    Assoc(Stuffed(body), ['\r'], ['\n']);
  }

  lemma PayloadComplete(body: bytes)
    ensures Payload(body) == Stuffed(Complete(body)) + DOT_LINE
  {
    hide Stuffed;
    StuffedCrlf(body);
    Assoc(Stuffed(body), CRLF, DOT_LINE);
  }

  // Any whole number of lines, cut after the first one.
  lemma CutLine(lines: bytes) returns (line: bytes, rest: bytes)
    requires EndsWithCrlf(lines)
    ensures lines == line + CRLF + rest && NoCrlf(line)
    ensures rest == [] || EndsWithCrlf(rest)
  {
    assert CrlfAt(lines, |lines| - 2);
    var p := FindCrlf(lines).value;
    line, rest := lines[..p], lines[p + 2..];
    assert forall i :: 0 <= i < p && CrlfAt(line, i) ==> CrlfAt(lines, i);
    assert p <= |lines| - 2;
    if rest != [] {
      assert |rest| != 1;
      assert CrlfAt(rest, |rest| - 2);
    }
  }

  lemma ReceiveLine(line: bytes, tail: bytes)
    requires NoCrlf(line) && line != DOT
    ensures Receive(line + CRLF + tail)
         == match Receive(tail) case None => None case Some(m) => Some((Unstuff(line) + CRLF + m.0, m.1))
  {
    FirstLine(line, tail);
  }

  lemma {:induction false} ReceiveLines(lines: bytes, suffix: bytes)
    requires lines == [] || EndsWithCrlf(lines)
    ensures Receive(Stuffed(lines) + (DOT_LINE + suffix)) == Some((lines, suffix))
    decreases |lines|
  {
    hide Stuffed, Dotted;
    var end := DOT_LINE + suffix;
    if lines == [] {
      FirstLine(DOT, suffix);
      assert Stuffed(lines) + end == DOT + CRLF + suffix;
    } else {
      var line, rest := CutLine(lines);
      ReceiveLines(rest, suffix);
      DottedNoCrlf(line);
      StuffedLines(line, rest);
      Assoc(Dotted(line) + CRLF, Stuffed(rest), end);
      ReceiveLine(Dotted(line), Stuffed(rest) + end);
    }
  }

  // A receiver gets the body back, whatever the body holds, and stops exactly at the end.
  lemma RoundTrip(body: bytes, suffix: bytes)
    ensures Receive(Payload(body) + suffix) == Some((Complete(body), suffix))
  {
    PayloadComplete(body);
    ReceiveLines(Complete(body), suffix);
    Assoc(Stuffed(Complete(body)), DOT_LINE, suffix);
  }

  const MESSAGE_END: bytes := CRLF + DOT_LINE

  predicate MessageEndAt(s: bytes, i: nat) {
    i + 5 <= |s| && s[i..i + 5] == MESSAGE_END
  }

  // CR LF . CR LF in one line and what follows is in what follows.
  lemma MessageEndAfterLine(line: bytes, tail: bytes, i: nat)
    requires NoCrlf(line) && line != DOT
    requires MessageEndAt(CRLF + line + (CRLF + tail), i)
    ensures i >= |line| + 2 && MessageEndAt(CRLF + tail, i - |line| - 2)
  {
    var s := CRLF + line + (CRLF + tail);
    assert s[i..i + 5][0] == s[i] && s[i..i + 5][1] == s[i + 1];
    assert s[i..i + 5][2] == s[i + 2] && s[i..i + 5][3] == s[i + 3];
    assert s[i..i + 5][4] == s[i + 4];
    assert CrlfAt(s, i) && s[i + 2] == '.' && CrlfAt(s, i + 3);
    assert !CrlfAt(line, i - 2) && !CrlfAt(line, i + 1);
    assert i >= |line| + 2;
    var j := i - |line| - 2;
    assert (CRLF + tail)[j..j + 5] == s[i..i + 5];
  }

  lemma {:induction false} OnlyOneTerminator(lines: bytes, i: nat)
    requires lines == [] || EndsWithCrlf(lines)
    requires MessageEndAt(CRLF + (Stuffed(lines) + DOT_LINE), i)
    ensures i + 5 == |CRLF + (Stuffed(lines) + DOT_LINE)|
    decreases |lines|
  {
    hide Stuffed, Dotted;
    if lines != [] {
      var line, rest := CutLine(lines);
      DottedNoCrlf(line);
      StuffedLines(line, rest);
      var d, tail := Dotted(line), Stuffed(rest) + DOT_LINE;
      assert CRLF + (Stuffed(lines) + DOT_LINE) == CRLF + d + (CRLF + tail);
      MessageEndAfterLine(d, tail, i);
      OnlyOneTerminator(rest, i - |d| - 2);
    }
  }

  // CR LF . CR LF occurs in the stream only where the message ends.
  lemma Transparent(body: bytes, i: nat)
    requires MessageEndAt(CRLF + Payload(body), i)
    ensures i + 5 == |CRLF + Payload(body)|
  {
    PayloadComplete(body);
    OnlyOneTerminator(Complete(body), i);
  }

  lemma {:induction false} StuffedLength(body: bytes)
    ensures |body| <= |Stuffed(body)| <= |body| + (|body| + 2) / 3
  {
    var n := |body|;
    if n == 0 {
    } else if LineStart(body, n - 1) && body[n - 1] == '.' {
      if n > 1 {
        assert body == body[..n - 3] + ['\r'] + ['\n'] + ['.'];
        StuffedSnoc(body[..n - 3], '\r');
        StuffedSnoc(body[..n - 3] + ['\r'], '\n');
        assert body[..n - 1] == body[..n - 3] + ['\r'] + ['\n'];
        StuffedLength(body[..n - 3]);
      }
    } else {
      StuffedLength(body[..n - 1]);
    }
  }

  lemma PayloadLength(body: bytes)
    ensures |body| + 3 <= |Payload(body)| <= |body| + (|body| + 2) / 3 + 5
  {
    StuffedLength(body);
  }
}
