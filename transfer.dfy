/**
 * `irda_socket_read` and `irda_socket_write`. The OS calls are answered by
 * functions of the call number: `select (i, deadline)` and `recv (i)` for the
 * (i+1)-th iteration of the read loop, `send (i, pending)` for the (i+1)-th
 * call of the write loop.
 */
module Transfer {
  import opened Types
  import opened Timeval
  import opened Irda

  /** What one `recv` call reports: an error, or the bytes the OS has for us (none at end of stream). */
  datatype RecvOutcome = RecvFailed | Received(bytes: seq<byte>)

  /** Why the read loop stopped. */
  datatype ReadStop = Filled | TimedOut | PeerClosed | SelectFailed | RecvError

  /** The end of a read: why it stopped and the bytes accumulated in the buffer. */
  datatype ReadRun = ReadRun(stop: ReadStop, received: seq<byte>)

  /**
   * The read loop from iteration `i` on, with `got` already accumulated. A
   * `recv` of `size - |got|` bytes delivers at most that many of the bytes
   * on offer.
   */
  function ReadFrom(size: nat, deadline: Option<Timeval>, select: (nat, Option<Timeval>) -> int,
                    recv: nat -> RecvOutcome, i: nat, got: seq<byte>): (r: ReadRun)
    requires |got| <= size
    ensures got <= r.received && |r.received| <= size
    ensures r.stop == Filled <==> |r.received| == size
    decreases size - |got|
  {
    if |got| == size then ReadRun(Filled, got)
    else
      var ready := select(i, deadline);
      if ready < 0 then ReadRun(SelectFailed, got)
      else if ready == 0 then ReadRun(TimedOut, got)
      else match recv(i)
        case RecvFailed => ReadRun(RecvError, got)
        case Received(bytes) =>
          if bytes == [] then ReadRun(PeerClosed, got)
          else ReadFrom(size, deadline, select, recv, i + 1, got + Take(bytes, size - |got|))
  }

  /** The value `irda_socket_read` returns for a run: -1 on an OS error, else the count accumulated. */
  function ReadStatus(r: ReadRun): int
  {
    if r.stop == SelectFailed || r.stop == RecvError then -1 else |r.received|
  }

  /**
   * `irda_socket_read`. The bytes received are stored at the front of
   * `data`, in order, and nothing past them changes; they stay in the buffer
   * even when an error makes the call return -1.
   */
  method Read(device: Irda?, data: array<byte>, size: nat,
              select: (nat, Option<Timeval>) -> int, recv: nat -> RecvOutcome) returns (rc: int)
    requires device != null ==> !device.closed
    requires size <= data.Length
    modifies data
    ensures device == null ==> rc == -1 && data[..] == old(data[..])
    ensures device != null ==>
      var run := ReadFrom(size, Deadline(device.timeout), select, recv, 0, []);
      rc == ReadStatus(run) && data[..] == run.received + old(data[..])[|run.received|..]
    ensures rc == -1 || 0 <= rc <= size
  {
    if device == null {
      return -1;
    }
    var deadline := Deadline(device.timeout);
    ghost var run := ReadFrom(size, deadline, select, recv, 0, []);
    var nbytes: nat := 0;
    var i: nat := 0;
    while nbytes < size
      invariant nbytes <= size
      invariant data[nbytes..] == old(data[..])[nbytes..]
      invariant ReadFrom(size, deadline, select, recv, i, data[..nbytes]) == run
      decreases size - nbytes
    {
      var ready := select(i, deadline);
      if ready < 0 {
        assert data[..] == data[..nbytes] + data[nbytes..];
        return -1;
      } else if ready == 0 {
        break;
      }
      var incoming := recv(i);
      if incoming.RecvFailed? {
        assert data[..] == data[..nbytes] + data[nbytes..];
        return -1;
      } else if incoming.bytes == [] {
        break;
      }
      var chunk := Take(incoming.bytes, size - nbytes);
      Deliver(data, nbytes, chunk);
      assert data[..nbytes + |chunk|] == data[..nbytes] + chunk;
      nbytes := nbytes + |chunk|;
      i := i + 1;
    }
    assert data[..] == data[..nbytes] + data[nbytes..];
    rc := nbytes;
  }

  /** What a successful `recv` does to the buffer: `chunk` lands at `data[at..]` and nothing else changes. */
  method Deliver(data: array<byte>, at: nat, chunk: seq<byte>)
    requires at + |chunk| <= data.Length
    modifies data
    ensures data[..at] == old(data[..at])
    ensures data[at..at + |chunk|] == chunk
    ensures data[at + |chunk|..] == old(data[at + |chunk|..])
  {
    forall k | 0 <= k < |chunk| {
      data[at + k] := chunk[k];
    }
  }

  /** All the chunks of a stream, concatenated in order. */
  function Flatten(chunks: seq<seq<byte>>): seq<byte>
  {
    if chunks == [] then [] else Flatten(chunks[..|chunks| - 1]) + chunks[|chunks| - 1]
  }

  lemma {:induction false} FlattenPrefixLength(chunks: seq<seq<byte>>, j: nat)
    requires j <= |chunks|
    ensures |Flatten(chunks[..j])| <= |Flatten(chunks)|
    decreases |chunks|
  {
    if j < |chunks| {
      assert chunks[..|chunks| - 1][..j] == chunks[..j];
      FlattenPrefixLength(chunks[..|chunks| - 1], j);
    }
    assert chunks[..|chunks|] == chunks;
  }

  /** A peer that is ready for the first `|chunks|` iterations and hands out `chunks`, one per `recv`. */
  ghost predicate SendsChunks(select: (nat, Option<Timeval>) -> int, recv: nat -> RecvOutcome,
                              deadline: Option<Timeval>, chunks: seq<seq<byte>>)
  {
    && (forall i :: 0 <= i < |chunks| ==> select(i, deadline) > 0)
    && (forall i :: 0 <= i < |chunks| ==> chunks[i] != [] && recv(i) == Received(chunks[i]))
  }

  /**
   * While the chunks fit, the loop accumulates them in order: from any
   * iteration `i`, with the first `i` chunks read, it reaches iteration
   * `|chunks|` holding all of them.
   */
  lemma {:induction false} ReadChunksFrom(size: nat, deadline: Option<Timeval>, select: (nat, Option<Timeval>) -> int,
                                          recv: nat -> RecvOutcome, chunks: seq<seq<byte>>, i: nat)
    requires SendsChunks(select, recv, deadline, chunks)
    requires |Flatten(chunks)| <= size && i <= |chunks|
    ensures |Flatten(chunks[..i])| <= size
    ensures ReadFrom(size, deadline, select, recv, i, Flatten(chunks[..i]))
         == ReadFrom(size, deadline, select, recv, |chunks|, Flatten(chunks))
    decreases |chunks| - i
  {
    FlattenPrefixLength(chunks, i);
    var got := Flatten(chunks[..i]);
    if i == |chunks| {
      assert chunks[..i] == chunks;
    } else {
      assert chunks[..i + 1][..i] == chunks[..i];
      assert Flatten(chunks[..i + 1]) == got + chunks[i];
      FlattenPrefixLength(chunks, i + 1);
      assert Take(chunks[i], size - |got|) == chunks[i];
      ReadChunksFrom(size, deadline, select, recv, chunks, i + 1);
    }
  }

  /**
   * A peer that sends N bytes and then closes its side, read into a buffer
   * of at least N bytes, yields exactly those N bytes and no error.
   */
  lemma ReadWholeStream(size: nat, deadline: Option<Timeval>, select: (nat, Option<Timeval>) -> int,
                        recv: nat -> RecvOutcome, chunks: seq<seq<byte>>)
    requires SendsChunks(select, recv, deadline, chunks)
    requires select(|chunks|, deadline) > 0 && recv(|chunks|) == Received([])
    requires |Flatten(chunks)| <= size
    ensures var run := ReadFrom(size, deadline, select, recv, 0, []);
      run.received == Flatten(chunks) && ReadStatus(run) == |Flatten(chunks)|
      && (run.stop == Filled || run.stop == PeerClosed)
  {
    ReadChunksFrom(size, deadline, select, recv, chunks, 0);
    assert chunks[..0] == [];
  }

  /**
   * After any number of chunks that leave the buffer short, the next
   * answer decides the result: a timeout or the end of the stream returns
   * the bytes accumulated so far, while a `select` or `recv` error returns
   * -1 although those bytes are already in the buffer.
   */
  lemma ReadStopsAfterChunks(size: nat, deadline: Option<Timeval>, select: (nat, Option<Timeval>) -> int,
                             recv: nat -> RecvOutcome, chunks: seq<seq<byte>>)
    requires SendsChunks(select, recv, deadline, chunks)
    requires |Flatten(chunks)| < size
    ensures var run := ReadFrom(size, deadline, select, recv, 0, []);
      var ready, incoming := select(|chunks|, deadline), recv(|chunks|);
      && (ready == 0 ==> run == ReadRun(TimedOut, Flatten(chunks)) && ReadStatus(run) == |Flatten(chunks)|)
      && (ready < 0 ==> run == ReadRun(SelectFailed, Flatten(chunks)) && ReadStatus(run) == -1)
      && (ready > 0 && incoming == RecvFailed ==>
            run == ReadRun(RecvError, Flatten(chunks)) && ReadStatus(run) == -1)
      && (ready > 0 && incoming == Received([]) ==>
            run == ReadRun(PeerClosed, Flatten(chunks)) && ReadStatus(run) == |Flatten(chunks)|)
  {
    ReadChunksFrom(size, deadline, select, recv, chunks, 0);
    assert chunks[..0] == [];
  }

  /**
   * A peer that never sends anything: the read stops at the first deadline
   * and returns 0 without an error.
   */
  lemma ReadSilentPeer(size: nat, deadline: Option<Timeval>, select: (nat, Option<Timeval>) -> int,
                       recv: nat -> RecvOutcome)
    requires select(0, deadline) == 0
    ensures var run := ReadFrom(size, deadline, select, recv, 0, []);
      run.received == [] && ReadStatus(run) == 0 && (size > 0 ==> run.stop == TimedOut)
  {
  }

  /** The OS's promise for a blocking `send`: an error, or between 1 and all of the bytes offered. */
  ghost predicate SendContract(send: (nat, seq<byte>) -> int)
  {
    forall i: nat, pending: seq<byte> :: pending != [] ==>
      send(i, pending) < 0 || 0 < send(i, pending) <= |pending|
  }

  /** The end of a write: the value returned and the results of the `send` calls made. */
  datatype WriteRun = WriteRun(rc: int, results: seq<int>)

  /** The write loop from call `i` on, with the first `sent` bytes of `data` already gone. */
  function WriteFrom(data: seq<byte>, send: (nat, seq<byte>) -> int, i: nat, sent: nat): (r: WriteRun)
    requires sent <= |data| && SendContract(send)
    ensures r.rc == -1 || r.rc == |data|
    decreases |data| - sent
  {
    if sent == |data| then WriteRun(sent, [])
    else
      var n := send(i, data[sent..]);
      if n < 0 then WriteRun(-1, [n])
      else
        var rest := WriteFrom(data, send, i + 1, sent + n);
        WriteRun(rest.rc, [n] + rest.results)
  }

  function Sum(s: seq<int>): int
  {
    if s == [] then 0 else s[0] + Sum(s[1..])
  }

  /**
   * A write fails exactly when one of its `send` calls fails, and that call
   * is the last one made; otherwise the counts sent add up to the bytes
   * that were pending.
   */
  lemma {:induction false} WriteOutcome(data: seq<byte>, send: (nat, seq<byte>) -> int, i: nat, sent: nat)
    requires sent <= |data| && SendContract(send)
    ensures var r := WriteFrom(data, send, i, sent);
      (r.rc == -1 <==> exists k :: 0 <= k < |r.results| && r.results[k] < 0)
      && (forall k :: 0 <= k < |r.results| - 1 ==> r.results[k] > 0)
      && (r.rc == |data| ==> Sum(r.results) == |data| - sent)
    decreases |data| - sent
  {
    var r := WriteFrom(data, send, i, sent);
    if sent < |data| {
      var n := send(i, data[sent..]);
      if n < 0 {
        assert r.results == [n] && r.rc == -1;
        assert r.results[0] < 0;
      } else {
        var rest := WriteFrom(data, send, i + 1, sent + n);
        WriteOutcome(data, send, i + 1, sent + n);
        assert r == WriteRun(rest.rc, [n] + rest.results);
        assert r.results[1..] == rest.results;
        assert Sum(r.results) == n + Sum(rest.results);
        if r.rc == -1 {
          var k :| 0 <= k < |rest.results| && rest.results[k] < 0;
          assert r.results[k + 1] < 0;
        } else {
          forall k | 0 <= k < |r.results|
            ensures r.results[k] >= 0
          {
            if k > 0 { assert r.results[k] == rest.results[k - 1]; }
          }
        }
        forall k | 0 <= k < |r.results| - 1
          ensures r.results[k] > 0
        {
          if k > 0 { assert r.results[k] == rest.results[k - 1]; }
        }
      }
    }
  }

  /** Against a peer whose every `send` succeeds, a write returns exactly the size asked for. */
  lemma WriteCooperativePeer(data: seq<byte>, send: (nat, seq<byte>) -> int)
    requires SendContract(send)
    requires forall i: nat, pending: seq<byte> :: send(i, pending) >= 0
    ensures WriteFrom(data, send, 0, 0).rc == |data|
  {
    var r := WriteFrom(data, send, 0, 0);
    WriteOutcome(data, send, 0, 0);
    if r.rc == -1 {
      var k :| 0 <= k < |r.results| && r.results[k] < 0;
      WriteResultsAreSends(data, send, 0, 0, k);
    }
  }

  /** Every recorded result is the answer of some `send` call. */
  lemma {:induction false} WriteResultsAreSends(data: seq<byte>, send: (nat, seq<byte>) -> int, i: nat, sent: nat, k: nat)
    requires sent <= |data| && SendContract(send)
    requires k < |WriteFrom(data, send, i, sent).results|
    ensures exists j: nat, pending: seq<byte> :: WriteFrom(data, send, i, sent).results[k] == send(j, pending)
    decreases |data| - sent
  {
    var n := send(i, data[sent..]);
    if k > 0 {
      WriteResultsAreSends(data, send, i + 1, sent + n, k - 1);
    } else {
      assert WriteFrom(data, send, i, sent).results[0] == send(i, data[sent..]);
    }
  }

  /**
   * `irda_socket_write`. It returns `size` when everything went out and -1
   * on the first failing `send`, discarding the partial count.
   */
  method Write(device: Irda?, data: array<byte>, size: nat, send: (nat, seq<byte>) -> int) returns (rc: int)
    requires device != null ==> !device.closed
    requires size <= data.Length
    requires SendContract(send)
    ensures device == null ==> rc == -1
    ensures device != null ==> rc == WriteFrom(data[..size], send, 0, 0).rc
    ensures rc == -1 || rc == size
  {
    if device == null {
      return -1;
    }
    ghost var pending := data[..size];
    var nbytes: nat := 0;
    var i: nat := 0;
    while nbytes < size
      invariant nbytes <= size
      invariant WriteFrom(pending, send, i, nbytes).rc == WriteFrom(pending, send, 0, 0).rc
      decreases size - nbytes
    {
      assert pending[nbytes..] == data[nbytes..size];
      var n := send(i, data[nbytes..size]);
      if n < 0 {
        return -1;
      }
      nbytes := nbytes + n;
      i := i + 1;
    }
    rc := nbytes;
  }
}
