// The transport the client runs on: a stream of bytes that arrives in pieces of any size,
// and a log of what was sent.

module Transports {
  import opened Octets
  import opened Errors
  import opened Replies
  import opened World
  import Responder

  class Transport {
    var pending: bytes
    var ending: Ending
    var segments: seq<Segment>
    const carries: bool
    var outcomes: seq<bool>
    var trace: seq<Wire>
    var peer: Peer
    ghost var undelivered: nat          // what the last upgrade found undelivered

    function View(): Net
      reads this
    {
      Net(pending, ending, segments, carries, outcomes, trace, peer)
    }

    constructor (net: Net)
      ensures View() == net
    {
      pending, ending, segments, outcomes := net.input, net.ending, net.segments, net.outcomes;
      carries := net.carries;
      trace, peer := net.trace, net.peer;
      undelivered := 0;
    }

    // Deliver between 1 and `limit` bytes, as many as the transport likes; or nothing, at the
    // end of the stream.
    method Read(limit: nat) returns (r: Result<bytes>)
      requires limit > 0
      modifies this`pending
      ensures r.Ok? ==> |r.value| <= limit && old(pending) == r.value + pending
      ensures r.Ok? && r.value == [] ==> pending == [] && ending.Eof?
      ensures r.Err? ==> r.error == Io && old(pending) == [] == pending && ending.Broken?
    {
      if pending == [] {
        return if ending.Eof? then Ok([]) else Err(Io);
      }
      var most := if |pending| < limit then |pending| else limit;
      var n: nat :| 1 <= n <= most;
      r := Ok(pending[..n]);
      pending := pending[n..];
    }

    method NextOutcome() returns (ok: bool)
      modifies this`outcomes
      ensures ok == NextSucceeds(old(View())) && View() == Tried(old(View()))
    {
      ok := outcomes == [] || outcomes[0];
      outcomes := if outcomes == [] then [] else outcomes[1..];
    }

    method WriteAll(data: bytes) returns (r: Result<()>)
      modifies this
      ensures r == if NextSucceeds(old(View())) then Ok(()) else Err(Io)
      ensures View() == if r.Ok? then Sent(old(View()), data) else Logged(old(View()), WriteFailed(data))
      ensures undelivered == old(undelivered)
    {
      hide Responder.Feed;
      var ok := NextOutcome();
      if !ok {
        trace := trace + [WriteFailed(data)];
        return Err(Io);
      }
      trace := trace + [Wrote(data)];
      match peer {
        case Script =>
        case Live(machine) =>
          var fed := Responder.Feed(machine, data);
          pending := pending + fed.reply;
          peer := Live(fed.peer);
      }
      return Ok(());
    }

    method Flush() returns (r: Result<()>)
      modifies this
      ensures r == if NextSucceeds(old(View())) then Ok(()) else Err(Io)
      ensures View() == Logged(old(View()), Flushed)
    {
      var ok := NextOutcome();
      trace := trace + [Flushed];
      return if ok then Ok(()) else Err(Io);
    }

    method Close() returns (r: Result<()>)
      modifies this
      ensures r == if NextSucceeds(old(View())) then Ok(()) else Err(Io)
      ensures View() == Logged(old(View()), ShutDown)
    {
      var ok := NextOutcome();
      trace := trace + [ShutDown];
      return if ok then Ok(()) else Err(Io);
    }

    method UpgradeToTls() returns (r: Result<()>)
      modifies this
      ensures r == if NextSucceeds(old(View())) then Ok(()) else Err(Io)
      ensures View() == if r.Ok? then AfterUpgrade(old(View())) else Tried(old(View()))
      ensures r.Ok? ==> undelivered == |old(pending)|
    {
      var ok := NextOutcome();
      if !ok {
        return Err(Io);
      }
      trace := trace + [Upgraded];
      undelivered := |pending|;
      match peer {
        case Live(machine) =>
          pending := [];
          peer := Live(Responder.Handshake(machine));
        case Script =>
          if !carries {
            pending, ending := [], Eof;
          }
          if segments != [] {
            pending, ending, segments := pending + segments[0].input, segments[0].ending, segments[1..];
          }
      }
      return Ok(());
    }
  }

  // A source of message body bytes: the chunks it has left, and whether it fails after them.
  class BodySource {
    var chunks: seq<bytes>
    const whole: bool

    ghost predicate Valid()
      reads this
    {
      forall chunk <- chunks :: 0 < |chunk| <= CHUNK_SIZE
    }

    constructor (chunks: seq<bytes>, whole: bool)
      requires forall chunk <- chunks :: 0 < |chunk| <= CHUNK_SIZE
      ensures Valid() && this.chunks == chunks && this.whole == whole
    {
      this.chunks, this.whole := chunks, whole;
    }

    method ReadChunk() returns (r: Result<bytes>)
      requires Valid()
      modifies this
      ensures Valid()
      ensures old(chunks) != [] ==> r == Ok(old(chunks)[0]) && r.value != [] && chunks == old(chunks)[1..]
      ensures old(chunks) == [] ==> r == (if whole then Ok([]) else Err(Io)) && chunks == []
    {
      if chunks == [] {
        return if whole then Ok([]) else Err(Io);
      }
      r := Ok(chunks[0]);
      chunks := chunks[1..];
    }
  }

  const CHUNK_SIZE: nat := 8192

  // The pieces a slice is read in, `size` bytes at a time.
  function Cut(data: bytes, size: nat): (chunks: seq<bytes>)
    requires size > 0
    ensures forall chunk <- chunks :: 0 < |chunk| <= size
    decreases |data|
  {
    if data == [] then []
    else
      var n := if |data| < size then |data| else size;
      [data[..n]] + Cut(data[n..], size)
  }

  lemma {:induction false} CutConcat(data: bytes, size: nat)
    requires size > 0
    ensures Concat(Cut(data, size)) == data
    decreases |data|
  {
    if data != [] {
      var n := if |data| < size then |data| else size;
      CutConcat(data[n..], size);
      assert Cut(data, size)[1..] == Cut(data[n..], size);
      assert data == data[..n] + data[n..];
    }
  }

  // The body source over a slice already in memory.
  class SliceBody {
    const data: bytes
    var pos: nat

    constructor (data: bytes)
      ensures this.data == data && pos == 0
    {
      this.data, pos := data, 0;
    }

    // Fills the front of `buf` with the next chunk. It yields the next piece of the cut, so
    // a slice is a body source whose chunks concatenate to the slice.
    method ReadChunk(buf: array<byte>) returns (n: nat)
      requires pos <= |data| && buf.Length > 0
      modifies this`pos, buf
      ensures n <= buf.Length && pos == old(pos) + n <= |data|
      ensures old(pos) == |data| ==> n == 0
      ensures old(pos) < |data| ==> n > 0
      ensures old(pos) < |data| ==>
        Cut(data[old(pos)..], buf.Length) == [buf[..n]] + Cut(data[pos..], buf.Length)
      ensures buf[n..] == old(buf[..])[n..]
    {
      if pos >= |data| {
        return 0;
      }
      n := if buf.Length < |data| - pos then buf.Length else |data| - pos;
      forall i | 0 <= i < n {
        buf[i] := data[pos + i];
      }
      assert buf[..n] == data[pos..][..n];
      assert data[pos..][n..] == data[pos + n..];
      pos := pos + n;
    }
  }
}
