/**
 * pipeserve's event handling: the classification of a ready descriptor in
 * handle_io, the accept loop of server_io, the peek-and-consume framing of
 * client_io, and the read-and-broadcast loop of stdin_io.
 *
 * Every socket and stdin is an `Io.Event` stream; the descriptors, the
 * clients list and what the program writes (stdout, the stderr echo of
 * client lines, the sends to clients) are fields of a `Server`.
 */
module PipeServe {
  import opened Io
  import opened IntList

  /** BUFFER: the size of `stdin_buffer` and of a peeked client window. */
  const BUFFER: nat := 10

  const STDIN_FILENO: int := 0

  /*
   * Framing, shared by client_io and stdin_io.
   */

  /**
   * A chunk handed on as one unit: a line through its first '\n', or
   * BUFFER bytes holding no '\n'.
   */
  predicate IsChunk(c: seq<byte>)
  {
    || (c != [] && c[|c| - 1] == NL && NL !in c[..|c| - 1])
    || (|c| == BUFFER && NL !in c)
  }

  /**
   * The length of the chunk at the front of the bytes `w` held: through the
   * first '\n', or all BUFFER bytes when they are full and hold none; 0
   * when there is no chunk yet.
   */
  function ChunkLength(w: seq<byte>): nat
  {
    match FirstNewline(w)
    case Some(k) => k + 1
    case None => if |w| == BUFFER then BUFFER else 0
  }

  /**
   * On at most BUFFER bytes, there is no chunk exactly when no '\n' is
   * there and room is left; otherwise the chunk is a prefix and IsChunk.
   */
  lemma ChunkLengthSpec(w: seq<byte>)
    requires |w| <= BUFFER
    ensures ChunkLength(w) == 0 <==> NL !in w && |w| < BUFFER
    ensures ChunkLength(w) <= |w|
    ensures ChunkLength(w) > 0 ==> IsChunk(w[..ChunkLength(w)])
  {
    FirstNewlineSpec(w);
    match FirstNewline(w)
    case Some(k) =>
      assert w[..k + 1][..k] == w[..k];
    case None =>
  }

  /** All the chunks, one after the other. */
  function Flatten(chunks: seq<seq<byte>>): seq<byte>
  {
    if chunks == [] then [] else Flatten(chunks[..|chunks| - 1]) + chunks[|chunks| - 1]
  }

  lemma FlattenSnoc(chunks: seq<seq<byte>>, c: seq<byte>)
    ensures Flatten(chunks + [c]) == Flatten(chunks) + c
  {
    assert (chunks + [c])[..|chunks|] == chunks;
  }

  /*
   * handle_io
   */

  /** The handler handle_io runs for a ready descriptor. */
  datatype Handler = StdinIo | ServerIo | ChildIo(fd: int) | ClientIo(fd: int) | Unhandled

  /**
   * handle_io's tests in order: stdin, then the listening socket, then the
   * child's stdout and stderr, then a registered client; any other
   * descriptor is ignored.
   */
  function Dispatch(fd: int, server: int, childOut: int, childErr: int, clients: seq<int>): Handler
  {
    if fd == STDIN_FILENO then StdinIo
    else if fd == server then ServerIo
    else if fd == childOut || fd == childErr then ChildIo(fd)
    else if fd in clients then ClientIo(fd)
    else Unhandled
  }

  /**
   * Each handler is chosen exactly for the descriptors its test matches
   * and no earlier test does; a client handler always serves the ready
   * descriptor, which is registered.
   */
  lemma DispatchSpec(fd: int, server: int, childOut: int, childErr: int, clients: seq<int>)
    ensures var h := Dispatch(fd, server, childOut, childErr, clients);
            && (h == StdinIo <==> fd == STDIN_FILENO)
            && (h == ServerIo <==> fd != STDIN_FILENO && fd == server)
            && (h.ChildIo? <==> fd !in {STDIN_FILENO, server} && fd in {childOut, childErr})
            && (h.ClientIo? <==> fd !in {STDIN_FILENO, server, childOut, childErr} && fd in clients)
            && (h == Unhandled <==> fd !in {STDIN_FILENO, server, childOut, childErr} && fd !in clients)
            && ((h.ChildIo? || h.ClientIo?) ==> h.fd == fd)
  {
  }

  /*
   * server_io
   */

  /** What one accept(2) on the non-blocking listening socket reports. */
  datatype AcceptResult = Accepted(fd: int) | NonePending | AcceptFailed

  /** The descriptors accepted before the loop stops, in accept order. */
  function AcceptedFds(events: seq<AcceptResult>): seq<int>
  {
    if events == [] || !events[0].Accepted? then [] else [events[0].fd] + AcceptedFds(events[1..])
  }

  /**
   * How server_io ends: the clients list, the accept results not yet
   * consumed, and whether an accept failed, which makes scheck end the
   * process.
   */
  datatype AcceptOutcome = AcceptOutcome(clients: seq<int>, rest: seq<AcceptResult>, exited: bool)

  /**
   * The loop of server_io: accept until none is pending, list_add-ing each
   * new client.  No pending result left means accept would block.
   */
  function AcceptLoop(events: seq<AcceptResult>, clients: seq<int>): AcceptOutcome
  {
    if events == [] then AcceptOutcome(clients, [], false)
    else
      match events[0]
      case NonePending => AcceptOutcome(clients, events[1..], false)
      case AcceptFailed => AcceptOutcome(clients, events[1..], true)
      case Accepted(fd) => AcceptLoop(events[1..], ListAdd(clients, fd))
  }

  function Reversed(s: seq<int>): seq<int>
  {
    if s == [] then [] else Reversed(s[1..]) + [s[0]]
  }

  /**
   * server_io puts the accepted descriptors in front of the clients list,
   * newest first, keeps the earlier list behind them unchanged, and ends
   * the process exactly when the accept that stopped it failed.
   */
  lemma {:induction false} AcceptLoopSpec(events: seq<AcceptResult>, clients: seq<int>)
    ensures var o := AcceptLoop(events, clients);
            var k := |AcceptedFds(events)|;
            && o.clients == Reversed(AcceptedFds(events)) + clients
            && k <= |events|
            && o.rest == (if k < |events| then events[k + 1..] else [])
            && (o.exited <==> k < |events| && events[k].AcceptFailed?)
  {
    if events != [] && events[0].Accepted? {
      var fd := events[0].fd;
      AcceptLoopSpec(events[1..], ListAdd(clients, fd));
      assert ListAdd(clients, fd) == [fd] + clients;
      assert Reversed(AcceptedFds(events[1..])) + ([fd] + clients)
             == (Reversed(AcceptedFds(events[1..])) + [fd]) + clients;
      var k := |AcceptedFds(events)|;
      if k < |events| {
        assert events[1..][k - 1 + 1..] == events[k + 1..];
      }
    }
  }

  /*
   * client_io
   */

  /**
   * The bytes a client socket holds now: the leading chunks of its stream
   * up to the first event that is not data.
   */
  function Avail(input: seq<Event>): (a: seq<byte>)
    ensures a <= StreamBytes(input)
  {
    if input != [] && input[0].Bytes? && input[0].data != [] then input[0].data + Avail(input[1..]) else []
  }

  /** recv(client, buffer, n, 0): the first `n` available bytes leave the socket. */
  function Consume(input: seq<Event>, n: nat): seq<Event>
    requires n <= |Avail(input)|
  {
    if n == 0 then input
    else if n < |input[0].data| then input[0 := Bytes(input[0].data[n..])]
    else Consume(input[1..], n - |input[0].data|)
  }

  /**
   * Consuming `n` bytes removes exactly the first `n` bytes of the stream,
   * and leaves the bytes after them available.
   */
  lemma {:induction false} ConsumeAvail(input: seq<Event>, n: nat)
    requires n <= |Avail(input)|
    ensures Avail(Consume(input, n)) == Avail(input)[n..]
    ensures StreamBytes(Consume(input, n)) == StreamBytes(input)[n..]
  {
    if n == 0 {
      assert Avail(input)[0..] == Avail(input);
      assert StreamBytes(input)[0..] == StreamBytes(input);
    } else {
      var d := input[0].data;
      if n < |d| {
        var c := input[0 := Bytes(d[n..])];
        assert c[1..] == input[1..];
        assert (d + Avail(input[1..]))[n..] == d[n..] + Avail(input[1..]);
        assert (d + StreamBytes(input[1..]))[n..] == d[n..] + StreamBytes(input[1..]);
      } else {
        ConsumeAvail(input[1..], n - |d|);
        assert (d + Avail(input[1..]))[n..] == Avail(input[1..])[n - |d|..];
        assert (d + StreamBytes(input[1..]))[n..] == StreamBytes(input[1..])[n - |d|..];
      }
    }
  }

  /** What recv(client, buffer, BUFFER, MSG_PEEK | MSG_DONTWAIT) reports. */
  datatype Peeked = PeekAgain | PeekClosed | Window(data: seq<byte>)

  /**
   * A peek shows up to BUFFER available bytes without consuming them;
   * with none available it would block (EAGAIN), or reports the end of the
   * stream (0) or an error (-1).
   */
  function Peek(input: seq<Event>): (p: Peeked)
  {
    var a := Avail(input);
    if a != [] then Window(if |a| <= BUFFER then a else a[..BUFFER])
    else if input == [] || input[0].Again? then PeekAgain
    else PeekClosed
  }

  /**
   * How client_io ends: the socket has nothing more for now, the client
   * disconnected, or the peeked window holds a partial line.  On that
   * last one the loop as written peeks again and again instead of
   * leaving (ClientSpinsOnPartialLine).
   */
  datatype ClientStatus = Drained | Disconnected | Waiting

  datatype ClientOutcome = ClientOutcome(status: ClientStatus, chunks: seq<seq<byte>>, rest: seq<Event>)

  /**
   * The `for (;;)` loop of client_io, after it consumed `chunks`: each pass
   * peeks a window and consumes the chunk at its front, if there is one.
   */
  function ClientLoop(input: seq<Event>, chunks: seq<seq<byte>>): ClientOutcome
    decreases |Avail(input)|
  {
    match Peek(input)
    case PeekAgain => ClientOutcome(Drained, chunks, if input == [] then [] else input[1..])
    case PeekClosed => ClientOutcome(Disconnected, chunks, input)
    case Window(w) =>
      var n := ChunkLength(w);
      if n == 0 then ClientOutcome(Waiting, chunks, input)
      else
        ChunkLengthSpec(w);
        ConsumeAvail(input, n);
        ClientLoop(Consume(input, n), chunks + [w[..n]])
  }

  /** A pass that consumes a chunk leaves the rest of the loop to run on what follows. */
  lemma ClientStep(input: seq<Event>, chunks: seq<seq<byte>>)
    requires Peek(input).Window? && ChunkLength(Peek(input).data) > 0
    ensures var w := Peek(input).data;
            var n := ChunkLength(w);
            && |w| <= BUFFER && n <= |w| && IsChunk(w[..n])
            && n <= |Avail(input)| && w[..n] == StreamBytes(input)[..n]
            && |Avail(Consume(input, n))| < |Avail(input)|
            && ClientLoop(input, chunks) == ClientLoop(Consume(input, n), chunks + [w[..n]])
  {
    var w := Peek(input).data;
    ChunkLengthSpec(w);
    ConsumeAvail(input, ChunkLength(w));
  }

  /**
   * client_io hands on every chunk it consumes, and only chunks: all of
   * them lines through their first '\n' or full BUFFER-sized windows.
   */
  lemma {:induction false} ClientChunks(input: seq<Event>, chunks: seq<seq<byte>>)
    requires forall i :: 0 <= i < |chunks| ==> IsChunk(chunks[i])
    decreases |Avail(input)|
    ensures var o := ClientLoop(input, chunks);
            forall i :: 0 <= i < |o.chunks| ==> IsChunk(o.chunks[i])
  {
    if Peek(input).Window? && ChunkLength(Peek(input).data) > 0 {
      var w := Peek(input).data;
      var n := ChunkLength(w);
      ClientStep(input, chunks);
      assert forall i :: 0 <= i < |chunks| + 1 ==> IsChunk((chunks + [w[..n]])[i]);
      ClientChunks(Consume(input, n), chunks + [w[..n]]);
    }
  }

  /** Moving the first `n` bytes of `b` into a new last chunk keeps the bytes in order. */
  lemma TakeChunk(chunks: seq<seq<byte>>, b: seq<byte>, n: nat)
    requires n <= |b|
    ensures Flatten(chunks) + b == Flatten(chunks + [b[..n]]) + b[n..]
  {
    FlattenSnoc(chunks, b[..n]);
    assert b == b[..n] + b[n..];
    assert Flatten(chunks) + (b[..n] + b[n..]) == (Flatten(chunks) + b[..n]) + b[n..];
  }

  /**
   * client_io consumes the socket's bytes in order and writes them out
   * unchanged: what the stream held is what it wrote followed by what the
   * stream still holds.  It stops with a partial line only when that line
   * is all that is available, shorter than BUFFER and without '\n'; it
   * reports a disconnect only when nothing is left to read.
   */
  lemma {:induction false} ClientConserves(input: seq<Event>, chunks: seq<seq<byte>>)
    decreases |Avail(input)|
    ensures var o := ClientLoop(input, chunks);
            && Flatten(chunks) + StreamBytes(input) == Flatten(o.chunks) + StreamBytes(o.rest)
            && (o.status == Waiting ==> 0 < |Avail(o.rest)| < BUFFER && NL !in Avail(o.rest))
            && (o.status == Disconnected ==> Avail(o.rest) == [])
  {
    if Peek(input).Window? && ChunkLength(Peek(input).data) > 0 {
      var w := Peek(input).data;
      var n := ChunkLength(w);
      ClientStep(input, chunks);
      ConsumeAvail(input, n);
      ClientConserves(Consume(input, n), chunks + [w[..n]]);
      TakeChunk(chunks, StreamBytes(input), n);
    } else if Peek(input).Window? {
      ChunkLengthSpec(Peek(input).data);
    }
  }

  /**
   * client_io as written: a pass that peeks a partial line shorter than
   * BUFFER goes round again (`continue`) without consuming anything.
   */
  datatype ClientPass = Next(input: seq<Event>, chunks: seq<seq<byte>>) | Leave(outcome: ClientOutcome)

  function ClientPassAsWritten(input: seq<Event>, chunks: seq<seq<byte>>): ClientPass
  {
    match Peek(input)
    case PeekAgain => Leave(ClientOutcome(Drained, chunks, if input == [] then [] else input[1..]))
    case PeekClosed => Leave(ClientOutcome(Disconnected, chunks, input))
    case Window(w) =>
      var n := ChunkLength(w);
      if n == 0 then Next(input, chunks)
      else
        ChunkLengthSpec(w);
        ConsumeAvail(input, n);
        Next(Consume(input, n), chunks + [w[..n]])
  }

  /** At most `fuel` passes of client_io as written; `Next` means the loop is still running. */
  function ClientRunAsWritten(input: seq<Event>, chunks: seq<seq<byte>>, fuel: nat): ClientPass
    decreases fuel
  {
    if fuel == 0 then Next(input, chunks)
    else
      match ClientPassAsWritten(input, chunks)
      case Next(i, c) => ClientRunAsWritten(i, c, fuel - 1)
      case last => last
  }

  /**
   * A window holding only a partial line shorter than BUFFER: every pass
   * of the loop as written peeks the same bytes and goes round again, so
   * whatever follows them (the 0 of a client that closed, an error) is
   * never seen and client_io never returns.
   */
  lemma {:induction false} ClientSpinsOnPartialLine(input: seq<Event>, chunks: seq<seq<byte>>, fuel: nat)
    requires Peek(input).Window? && ChunkLength(Peek(input).data) == 0
    ensures ClientPassAsWritten(input, chunks) == Next(input, chunks)
    ensures ClientRunAsWritten(input, chunks, fuel) == Next(input, chunks)
  {
    if fuel > 0 {
      ClientSpinsOnPartialLine(input, chunks, fuel - 1);
    }
  }

  /**
   * The corrected loop leaves on such a window instead, with the partial
   * line still unread, as the only bytes available.
   */
  lemma ClientReturnsOnPartial(input: seq<Event>, chunks: seq<seq<byte>>)
    requires Peek(input).Window? && ChunkLength(Peek(input).data) == 0
    ensures ClientLoop(input, chunks) == ClientOutcome(Waiting, chunks, input)
    ensures 0 < |Avail(input)| < BUFFER && NL !in Avail(input)
  {
    ChunkLengthSpec(Peek(input).data);
  }

  /** A client that sends "ab" and closes: the loop as written spins, the corrected one leaves. */
  lemma PartialLineThenClose(fuel: nat)
    ensures var input := [Bytes([97, 98]), Eof];
            && ClientRunAsWritten(input, [], fuel) == Next(input, [])
            && ClientLoop(input, []) == ClientOutcome(Waiting, [], input)
  {
    var input := [Bytes([97, 98]), Eof];
    var ab: seq<byte> := [97, 98];
    assert input[1..][1..] == [];
    assert Avail(input[1..]) == [];
    assert Avail(input) == ab + [];
    assert ab + [] == ab;
    assert FirstNewline(ab) == None;
    assert Peek(input) == Window(ab);
    ClientSpinsOnPartialLine(input, [], fuel);
    ClientReturnsOnPartial(input, []);
  }

  /*
   * Sending to the clients
   */

  /** One send(2) of `data` to `client`. */
  datatype Send = Send(client: int, data: seq<byte>)

  /** One chunk sent to every client, walking the list from its head. */
  function Broadcast(clients: seq<int>, chunk: seq<byte>): seq<Send>
  {
    if clients == [] then []
    else Broadcast(clients[..|clients| - 1], chunk) + [Send(clients[|clients| - 1], chunk)]
  }

  /** The chunks broadcast one after the other. */
  function BroadcastAll(clients: seq<int>, chunks: seq<seq<byte>>): seq<Send>
  {
    if chunks == [] then []
    else BroadcastAll(clients, chunks[..|chunks| - 1]) + Broadcast(clients, chunks[|chunks| - 1])
  }

  /** What `client` receives from `sends`, in order. */
  function ReceivedBy(sends: seq<Send>, client: int): seq<seq<byte>>
  {
    if sends == [] then []
    else ReceivedBy(sends[..|sends| - 1], client)
         + (if sends[|sends| - 1].client == client then [sends[|sends| - 1].data] else [])
  }

  lemma {:induction false} ReceivedByAppend(a: seq<Send>, b: seq<Send>, client: int)
    ensures ReceivedBy(a + b, client) == ReceivedBy(a, client) + ReceivedBy(b, client)
  {
    if b == [] {
      assert a + b == a;
    } else {
      var l := |b| - 1;
      assert (a + b)[..|a + b| - 1] == a + b[..l];
      ReceivedByAppend(a, b[..l], client);
      var last := if b[l].client == client then [b[l].data] else [];
      Assoc(ReceivedBy(a, client), ReceivedBy(b[..l], client), last);
    }
  }

  /** `n` copies of `chunk`. */
  function Copies(chunk: seq<byte>, n: nat): seq<seq<byte>>
  {
    if n == 0 then [] else Copies(chunk, n - 1) + [chunk]
  }

  /** A client receives a broadcast chunk once for each time it is on the list. */
  lemma {:induction false} BroadcastReaches(clients: seq<int>, chunk: seq<byte>, client: int)
    ensures ReceivedBy(Broadcast(clients, chunk), client) == Copies(chunk, multiset(clients)[client])
  {
    if clients != [] {
      var l := |clients| - 1;
      assert clients == clients[..l] + [clients[l]];
      BroadcastReaches(clients[..l], chunk, client);
      ReceivedByAppend(Broadcast(clients[..l], chunk), [Send(clients[l], chunk)], client);
      assert [Send(clients[l], chunk)][..0] == [];
    }
  }

  /**
   * Every client on the list once receives every chunk, in order, and a
   * descriptor not on the list receives nothing.
   */
  lemma {:induction false} BroadcastAllReaches(clients: seq<int>, chunks: seq<seq<byte>>, client: int)
    requires multiset(clients)[client] <= 1
    ensures ReceivedBy(BroadcastAll(clients, chunks), client) == (if client in clients then chunks else [])
  {
    if chunks != [] {
      var l := |chunks| - 1;
      var earlier := BroadcastAll(clients, chunks[..l]);
      var last := Broadcast(clients, chunks[l]);
      assert BroadcastAll(clients, chunks) == earlier + last;
      BroadcastAllReaches(clients, chunks[..l], client);
      ReceivedByAppend(earlier, last, client);
      BroadcastOnce(clients, chunks[l], client);
      if client in clients {
        assert chunks == chunks[..l] + [chunks[l]];
      } else {
        var none: seq<seq<byte>> := [];
        assert none + none == none;
      }
    }
  }

  /** With the client on the list at most once, it receives a broadcast chunk once or not at all. */
  lemma BroadcastOnce(clients: seq<int>, chunk: seq<byte>, client: int)
    requires multiset(clients)[client] <= 1
    ensures ReceivedBy(Broadcast(clients, chunk), client) == (if client in clients then [chunk] else [])
  {
    BroadcastReaches(clients, chunk, client);
    assert Copies(chunk, 0) == [];
    assert Copies(chunk, 1) == [chunk];
  }

  lemma BroadcastAllSnoc(clients: seq<int>, chunks: seq<seq<byte>>, chunk: seq<byte>)
    ensures BroadcastAll(clients, chunks + [chunk]) == BroadcastAll(clients, chunks) + Broadcast(clients, chunk)
  {
    assert (chunks + [chunk])[..|chunks|] == chunks;
  }

  /*
   * stdin_io
   */

  /**
   * How stdin_io ends: whether a read failed (scheck then ends the
   * process), the chunks sent, the bytes left in `stdin_buffer`, and the
   * events of stdin not yet read.
   */
  datatype StdinOutcome = StdinOutcome(failed: bool, chunks: seq<seq<byte>>, buffered: seq<byte>, rest: seq<Event>)

  /**
   * The loop of stdin_io with the chunk test moved in front of the read:
   * while `stdin_buffer` holds a chunk it is sent and shifted out; only
   * then is stdin read into the space left.  The loop returns when the
   * read would block or stdin is at its end.
   */
  function StdinLoop(buffered: seq<byte>, input: seq<Event>, chunks: seq<seq<byte>>): StdinOutcome
    requires |buffered| <= BUFFER
    decreases |input|, HeadLength(input), |buffered|
  {
    ChunkLengthSpec(buffered);
    var n := ChunkLength(buffered);
    if n > 0 then StdinLoop(buffered[n..], input, chunks + [buffered[..n]])
    else
      var s := Read(input, BUFFER - |buffered|);
      ReadShape(input, BUFFER - |buffered|);
      ReadShrinks(input, BUFFER - |buffered|);
      match s.result
      case Got(d) => StdinLoop(buffered + d, s.rest, chunks)
      case Error => StdinOutcome(true, chunks, buffered, s.rest)
      case _ => StdinOutcome(false, chunks, buffered, s.rest)
  }

  /** A pass that finds no chunk buffered reads, and how the loop goes on after it. */
  lemma StdinReadStep(buffered: seq<byte>, input: seq<Event>, chunks: seq<seq<byte>>)
    requires |buffered| <= BUFFER && ChunkLength(buffered) == 0
    ensures |buffered| < BUFFER
    ensures var s := Read(input, BUFFER - |buffered|);
            && (s.result.Got? ==> |buffered| + |s.result.data| <= BUFFER && Shorter(s.rest, input))
            && StdinLoop(buffered, input, chunks) == match s.result
                 case Got(d) => StdinLoop(buffered + d, s.rest, chunks)
                 case Error => StdinOutcome(true, chunks, buffered, s.rest)
                 case _ => StdinOutcome(false, chunks, buffered, s.rest)
  {
    ChunkLengthSpec(buffered);
    ReadShape(input, BUFFER - |buffered|);
    ReadShrinks(input, BUFFER - |buffered|);
  }

  /** A pass that finds a chunk buffered sends it, and the loop goes on with the rest. */
  lemma StdinSendStep(buffered: seq<byte>, input: seq<Event>, chunks: seq<seq<byte>>)
    requires |buffered| <= BUFFER && ChunkLength(buffered) > 0
    ensures var n := ChunkLength(buffered);
            && n <= |buffered| && IsChunk(buffered[..n])
            && StdinLoop(buffered, input, chunks) == StdinLoop(buffered[n..], input, chunks + [buffered[..n]])
  {
    ChunkLengthSpec(buffered);
  }

  /**
   * stdin_io sends the bytes of stdin in order, each exactly once: what was
   * sent and buffered before and what stdin holds is what was sent and
   * buffered after and what stdin still holds.
   */
  lemma {:induction false} StdinConserves(buffered: seq<byte>, input: seq<Event>, chunks: seq<seq<byte>>)
    requires |buffered| <= BUFFER
    decreases |input|, HeadLength(input), |buffered|
    ensures var o := StdinLoop(buffered, input, chunks);
            (Flatten(chunks) + buffered) + StreamBytes(input) == (Flatten(o.chunks) + o.buffered) + StreamBytes(o.rest)
  {
    var n := ChunkLength(buffered);
    if n > 0 {
      StdinSendStep(buffered, input, chunks);
      TakeChunk(chunks, buffered, n);
      StdinConserves(buffered[n..], input, chunks + [buffered[..n]]);
    } else {
      StdinReadStep(buffered, input, chunks);
      var s := Read(input, BUFFER - |buffered|);
      if s.result.Got? {
        var d := s.result.data;
        ReadConserves(input, BUFFER - |buffered|);
        StdinConserves(buffered + d, s.rest, chunks);
        Assoc(Flatten(chunks), buffered, d);
        Assoc(Flatten(chunks) + buffered, d, StreamBytes(s.rest));
      }
    }
  }

  /**
   * stdin_io sends only chunks, and it never returns while a chunk is
   * still buffered: what it keeps is less than BUFFER bytes without '\n'.
   */
  lemma {:induction false} StdinChunks(buffered: seq<byte>, input: seq<Event>, chunks: seq<seq<byte>>)
    requires |buffered| <= BUFFER
    requires forall i :: 0 <= i < |chunks| ==> IsChunk(chunks[i])
    decreases |input|, HeadLength(input), |buffered|
    ensures var o := StdinLoop(buffered, input, chunks);
            && (forall i :: 0 <= i < |o.chunks| ==> IsChunk(o.chunks[i]))
            && NL !in o.buffered && |o.buffered| < BUFFER
  {
    var n := ChunkLength(buffered);
    if n > 0 {
      StdinSendStep(buffered, input, chunks);
      assert forall i :: 0 <= i < |chunks| + 1 ==> IsChunk((chunks + [buffered[..n]])[i]);
      StdinChunks(buffered[n..], input, chunks + [buffered[..n]]);
    } else {
      StdinReadStep(buffered, input, chunks);
      ChunkLengthSpec(buffered);
      var s := Read(input, BUFFER - |buffered|);
      if s.result.Got? {
        StdinChunks(buffered + s.result.data, s.rest, chunks);
      }
    }
  }

  /**
   * stdin_io as written: one pass reads first, then looks for a chunk
   * anywhere in `stdin_buffer` and sends at most one.
   */
  datatype StdinState = StdinState(buffered: seq<byte>, input: seq<Event>, chunks: seq<seq<byte>>)

  /** A pass either leads to another pass, or leaves the loop (break or scheck's exit). */
  datatype Pass = Round(next: StdinState) | Break(last: StdinState) | Exit(last: StdinState)

  function StdinPassAsWritten(st: StdinState): (p: Pass)
    requires |st.buffered| < BUFFER
    ensures p.Round? ==> |p.next.buffered| < BUFFER
  {
    var s := Read(st.input, BUFFER - |st.buffered|);
    ReadShape(st.input, BUFFER - |st.buffered|);
    match s.result
    case WouldBlock => Break(st.(input := s.rest))
    case Error => Exit(st.(input := s.rest))
    case _ =>
      var b := st.buffered + s.result.Transferred();
      ChunkLengthSpec(b);
      var n := ChunkLength(b);
      if n == 0 then Round(StdinState(b, s.rest, st.chunks))
      else Round(StdinState(b[n..], s.rest, st.chunks + [b[..n]]))
  }

  /** At most `fuel` passes; `Round` means the loop is still running. */
  function StdinRunAsWritten(st: StdinState, fuel: nat): Pass
    requires |st.buffered| < BUFFER
    decreases fuel
  {
    if fuel == 0 then Round(st)
    else
      match StdinPassAsWritten(st)
      case Round(next) => StdinRunAsWritten(next, fuel - 1)
      case last => last
  }

  /**
   * Once stdin is at its end with no chunk buffered, a pass of the loop as
   * written changes nothing and goes round again: stdin_io never returns.
   */
  lemma {:induction false} StdinSpinsAtEnd(st: StdinState, fuel: nat)
    requires |st.buffered| < BUFFER && NL !in st.buffered && AtEnd(st.input)
    ensures StdinPassAsWritten(st) == Round(st)
    ensures StdinRunAsWritten(st, fuel) == Round(st)
  {
    EndIsSticky(st.input, BUFFER - |st.buffered|);
    ChunkLengthSpec(st.buffered);
    assert st.buffered + [] == st.buffered;
    if fuel > 0 {
      StdinSpinsAtEnd(st, fuel - 1);
    }
  }

  /**
   * The corrected loop returns at the end of stdin, keeping the partial
   * line it holds.
   */
  lemma StdinReturnsAtEnd(buffered: seq<byte>, input: seq<Event>, chunks: seq<seq<byte>>)
    requires |buffered| < BUFFER && NL !in buffered && AtEnd(input)
    ensures StdinLoop(buffered, input, chunks) == StdinOutcome(false, chunks, buffered, input)
  {
    EndIsSticky(input, BUFFER - |buffered|);
    ChunkLengthSpec(buffered);
  }

  /**
   * Two lines arriving in one read: the loop as written sends the first,
   * then breaks on EAGAIN with the second still in `stdin_buffer`; the
   * corrected loop sends both.
   */
  lemma HeldBackLine()
    ensures var input := [Bytes([97, NL, 98, NL]), Again];
            && StdinRunAsWritten(StdinState([], input, []), 2) == Break(StdinState([98, NL], [], [[97, NL]]))
            && StdinLoop([], input, []) == StdinOutcome(false, [[97, NL], [98, NL]], [], [])
  {
    var input := [Bytes([97, NL, 98, NL]), Again];
    var b: seq<byte> := [97, NL, 98, NL];
    var line1: seq<byte> := [97, NL];
    var line2: seq<byte> := [98, NL];
    assert FirstNewline(b) == Some(1);
    assert FirstNewline(line2) == Some(1);
    assert b[..2] == line1 && b[2..] == line2;
    assert line2[..2] == line2 && line2[2..] == [];
    assert Read(input, BUFFER) == ReadStep(Got(b), [Again]);
    assert [] + b == b;
    var st1 := StdinState(line2, [Again], [line1]);
    assert StdinPassAsWritten(StdinState([], input, [])) == Round(st1);
    assert StdinPassAsWritten(st1) == Break(st1.(input := []));
    assert StdinLoop([], input, []) == StdinLoop(b, [Again], []);
    assert StdinLoop(b, [Again], []) == StdinLoop(line2, [Again], [line1]);
    assert StdinLoop(line2, [Again], [line1]) == StdinLoop([], [Again], [line1, line2]);
  }

  /*
   * The program's state and its handlers
   */

  /**
   * What client_io writes to stderr for a chunk: the chunk, followed by the
   * "\\" line marker when it does not end in '\n'.
   */
  datatype Echo = Echo(client: int, data: seq<byte>, marked: bool)

  function EchoOf(client: int, chunk: seq<byte>): Echo
  {
    Echo(client, chunk, chunk == [] || chunk[|chunk| - 1] != NL)
  }

  function Echoes(client: int, chunks: seq<seq<byte>>): seq<Echo>
  {
    if chunks == [] then []
    else Echoes(client, chunks[..|chunks| - 1]) + [EchoOf(client, chunks[|chunks| - 1])]
  }

  lemma EchoesSnoc(client: int, chunks: seq<seq<byte>>, chunk: seq<byte>)
    ensures Echoes(client, chunks + [chunk]) == Echoes(client, chunks) + [EchoOf(client, chunk)]
  {
    assert (chunks + [chunk])[..|chunks|] == chunks;
  }

  /** The marker is written exactly for the full BUFFER-sized windows holding no '\n'. */
  lemma MarkedExactlyFull(client: int, chunk: seq<byte>)
    requires IsChunk(chunk)
    ensures EchoOf(client, chunk).marked <==> |chunk| == BUFFER && NL !in chunk
  {
    if |chunk| == BUFFER && NL !in chunk {
      assert chunk[|chunk| - 1] in chunk;
    }
  }

  /**
   * The ready input of every descriptor handle_io may be called for:
   * stdin, the accept results of the listening socket, and each client
   * socket's stream.
   */
  datatype Ready = Ready(stdin: seq<Event>, accepts: seq<AcceptResult>, sockets: map<int, seq<Event>>)
  {
    function Socket(fd: int): seq<Event>
    {
      if fd in sockets then sockets[fd] else []
    }
  }

  /**
   * The globals of pipeserve.c that the handlers use: the listening socket,
   * the child's output pipes, the clients list, `stdin_buffer` with
   * `stdin_bytes`, and what the program has written so far.
   */
  class Server {
    const server: int
    const childOut: int
    const childErr: int
    var clients: seq<int>
    const stdinBuffer: array<byte>
    var stdinBytes: nat
    /** Everything written to stdout. */
    var stdout: seq<byte>
    /** The client chunks echoed to stderr. */
    var echoes: seq<Echo>
    /** Every send(2) to a client. */
    var sends: seq<Send>

    /**
     * `stdin_buffer` holds `stdin_bytes` bytes, and between calls of
     * stdin_io no chunk waits in it.
     */
    ghost predicate Valid()
      reads this, stdinBuffer
    {
      && stdinBuffer.Length == BUFFER
      && stdinBytes < BUFFER
      && NL !in stdinBuffer[..stdinBytes]
    }

    /** The bytes waiting in `stdin_buffer`. */
    ghost function Buffered(): seq<byte>
      reads this, stdinBuffer
      requires stdinBytes <= stdinBuffer.Length
    {
      stdinBuffer[..stdinBytes]
    }

    constructor (server: int, childOut: int, childErr: int)
      ensures Valid()
      ensures this.server == server && this.childOut == childOut && this.childErr == childErr
      ensures clients == [] && Buffered() == [] && stdout == [] && echoes == [] && sends == []
    {
      this.server := server;
      this.childOut := childOut;
      this.childErr := childErr;
      clients := [];
      stdinBuffer := new byte[BUFFER];
      stdinBytes := 0;
      stdout := [];
      echoes := [];
      sends := [];
    }

    /** server_io: accept and register clients until accept would block or fails. */
    method ServerIo(events: seq<AcceptResult>) returns (rest: seq<AcceptResult>, exited: bool)
      modifies this
      ensures var o := AcceptLoop(events, old(clients));
              clients == o.clients && rest == o.rest && exited == o.exited
      ensures stdinBytes == old(stdinBytes) && stdout == old(stdout) && echoes == old(echoes) && sends == old(sends)
    {
      ghost var goal := AcceptLoop(events, clients);
      rest := events;
      while true
        invariant AcceptLoop(rest, clients) == goal
        invariant stdinBytes == old(stdinBytes) && stdout == old(stdout) && echoes == old(echoes) && sends == old(sends)
        decreases |rest|
      {
        if rest == [] {
          return rest, false;
        }
        match rest[0]
        case NonePending =>
          return rest[1..], false;
        case AcceptFailed =>
          return rest[1..], true;
        case Accepted(client) =>
          clients := ListAdd(clients, client);
          rest := rest[1..];
      }
    }

    /**
     * client_io: consume each chunk of the client's stream, echo it and
     * write it to stdout; on disconnect remove the client from the list.
     * On a partial line it returns (`Waiting`) where the loop as written
     * spins.
     */
    method ClientIo(client: int, input: seq<Event>) returns (status: ClientStatus, rest: seq<Event>)
      modifies this
      ensures var o := ClientLoop(input, []);
              && status == o.status && rest == o.rest
              && stdout == old(stdout) + Flatten(o.chunks)
              && echoes == old(echoes) + Echoes(client, o.chunks)
              && clients == (if o.status == Disconnected then RemoveFirst(old(clients), client) else old(clients))
      ensures stdinBytes == old(stdinBytes) && sends == old(sends)
    {
      ghost var goal := ClientLoop(input, []);
      ghost var chunks: seq<seq<byte>> := [];
      rest := input;
      while true
        invariant ClientLoop(rest, chunks) == goal
        invariant stdout == old(stdout) + Flatten(chunks)
        invariant echoes == old(echoes) + Echoes(client, chunks)
        invariant clients == old(clients)
        invariant stdinBytes == old(stdinBytes) && sends == old(sends)
        decreases |Avail(rest)|
      {
        var peeked := Peek(rest);
        match peeked
        case PeekAgain =>
          return Drained, if rest == [] then [] else rest[1..];
        case PeekClosed =>
          clients := ListDel(clients, client);
          return Disconnected, rest;
        case Window(w) =>
          var n := ChunkLength(w);
          if n == 0 {
            // Corrected: the C loop goes round on the same bytes here.
            return Waiting, rest;
          }
          ClientStep(rest, chunks);
          var chunk := w[..n];
          rest := Consume(rest, n);
          Deliver(client, chunk);
          EchoesSnoc(client, chunks, chunk);
          FlattenSnoc(chunks, chunk);
          Assoc(old(echoes), Echoes(client, chunks), [EchoOf(client, chunk)]);
          Assoc(old(stdout), Flatten(chunks), chunk);
          chunks := chunks + [chunk];
      }
    }

    /** The writes of client_io for one consumed chunk: the stderr echo, then stdout. */
    method Deliver(client: int, chunk: seq<byte>)
      modifies this
      ensures echoes == old(echoes) + [EchoOf(client, chunk)] && stdout == old(stdout) + chunk
      ensures clients == old(clients) && stdinBytes == old(stdinBytes) && sends == old(sends)
    {
      echoes := echoes + [EchoOf(client, chunk)];
      stdout := stdout + chunk;
    }

    /** The send loop of stdin_io: `chunk` goes to each client, from the head of the list. */
    method SendToAll(chunk: seq<byte>)
      modifies this
      ensures sends == old(sends) + Broadcast(clients, chunk)
      ensures clients == old(clients) && stdinBytes == old(stdinBytes) && stdout == old(stdout) && echoes == old(echoes)
    {
      var i := 0;
      while i < |clients|
        invariant i <= |clients|
        invariant sends == old(sends) + Broadcast(clients[..i], chunk)
        invariant clients == old(clients) && stdinBytes == old(stdinBytes) && stdout == old(stdout) && echoes == old(echoes)
      {
        assert clients[..i + 1][..i] == clients[..i];
        Assoc(old(sends), Broadcast(clients[..i], chunk), [Send(clients[i], chunk)]);
        sends := sends + [Send(clients[i], chunk)];
        i := i + 1;
      }
      assert clients[..i] == clients;
    }

    /** read(2) into `stdin_buffer + stdin_bytes`: the bytes go after those already there. */
    method StoreStdin(d: seq<byte>)
      requires stdinBuffer.Length == BUFFER && stdinBytes + |d| <= BUFFER
      modifies this, stdinBuffer
      ensures stdinBytes == old(stdinBytes) + |d| && Buffered() == old(Buffered()) + d
      ensures clients == old(clients) && stdout == old(stdout) && echoes == old(echoes) && sends == old(sends)
    {
      forall i | 0 <= i < |d| {
        stdinBuffer[stdinBytes + i] := d[i];
      }
      assert stdinBuffer[..stdinBytes + |d|] == stdinBuffer[..stdinBytes] + stdinBuffer[stdinBytes..stdinBytes + |d|];
      stdinBytes := stdinBytes + |d|;
    }

    /**
     * One pass of stdin_io that finds a chunk of `n` bytes at the front of
     * `stdin_buffer`: it goes to every client, then the remainder is moved
     * to the front with memmove.
     */
    method SendChunk(n: nat)
      requires stdinBuffer.Length == BUFFER && 0 < n <= stdinBytes <= BUFFER
      modifies this, stdinBuffer
      ensures stdinBytes == old(stdinBytes) - n && Buffered() == old(Buffered())[n..]
      ensures sends == old(sends) + Broadcast(clients, old(Buffered())[..n])
      ensures clients == old(clients) && stdout == old(stdout) && echoes == old(echoes)
    {
      ghost var before := Buffered();
      assert stdinBuffer[..n] == before[..n];
      SendToAll(stdinBuffer[..n]);
      MemMove(stdinBuffer, n, stdinBytes - n);
      assert before[n..] == old(stdinBuffer[n..stdinBytes]);
      stdinBytes := stdinBytes - n;
    }

    /**
     * stdin_io: send every chunk of `stdin_buffer` to all clients and shift
     * it out with memmove, and read stdin into the space left, until the
     * read would block, fails, or stdin is at its end.
     */
    method StdinIo(input: seq<Event>) returns (exited: bool, rest: seq<Event>)
      requires Valid()
      modifies this, stdinBuffer
      ensures Valid()
      ensures var o := StdinLoop(old(Buffered()), input, []);
              && exited == o.failed && rest == o.rest && Buffered() == o.buffered
              && sends == old(sends) + BroadcastAll(clients, o.chunks)
      ensures clients == old(clients) && stdout == old(stdout) && echoes == old(echoes)
    {
      ghost var goal := StdinLoop(Buffered(), input, []);
      StdinChunks(Buffered(), input, []);
      ghost var chunks: seq<seq<byte>> := [];
      rest := input;
      while true
        invariant stdinBuffer.Length == BUFFER && stdinBytes <= BUFFER
        invariant StdinLoop(Buffered(), rest, chunks) == goal
        invariant sends == old(sends) + BroadcastAll(clients, chunks)
        invariant clients == old(clients) && stdout == old(stdout) && echoes == old(echoes)
        decreases |rest|, HeadLength(rest), stdinBytes
      {
        ghost var buffered := Buffered();
        ChunkLengthSpec(buffered);
        var n := ChunkLength(stdinBuffer[..stdinBytes]);
        if n > 0 {
          SendChunk(n);
          BroadcastAllSnoc(clients, chunks, buffered[..n]);
          Assoc(old(sends), BroadcastAll(clients, chunks), Broadcast(clients, buffered[..n]));
          chunks := chunks + [buffered[..n]];
        } else {
          var s := Read(rest, BUFFER - stdinBytes);
          StdinReadStep(buffered, rest, chunks);
          match s.result
          case WouldBlock =>
            return false, s.rest;
          case Error =>
            return true, s.rest;
          case EndOfStream =>
            return false, s.rest;
          case Got(d) =>
            StoreStdin(d);
            rest := s.rest;
        }
      }
    }

    /**
     * handle_io for the descriptor `fd` that signalled readiness: the
     * handler Dispatch picks runs on that descriptor's ready input.
     * child_io does nothing, and neither does an unknown descriptor.
     */
    method HandleIo(fd: int, ready: Ready) returns (exited: bool, after: Ready)
      requires Valid()
      modifies this, stdinBuffer
      ensures Valid()
      ensures match Dispatch(fd, server, childOut, childErr, old(clients))
              case StdinIo =>
                var o := StdinLoop(old(Buffered()), ready.stdin, []);
                && exited == o.failed && after == ready.(stdin := o.rest)
                && Buffered() == o.buffered && sends == old(sends) + BroadcastAll(old(clients), o.chunks)
                && clients == old(clients) && stdout == old(stdout) && echoes == old(echoes)
              case ServerIo =>
                var o := AcceptLoop(ready.accepts, old(clients));
                && exited == o.exited && after == ready.(accepts := o.rest) && clients == o.clients
                && Buffered() == old(Buffered()) && sends == old(sends) && stdout == old(stdout) && echoes == old(echoes)
              case ClientIo(client) =>
                var o := ClientLoop(ready.Socket(client), []);
                && !exited && after == ready.(sockets := ready.sockets[client := o.rest])
                && stdout == old(stdout) + Flatten(o.chunks) && echoes == old(echoes) + Echoes(client, o.chunks)
                && clients == (if o.status == Disconnected then RemoveFirst(old(clients), client) else old(clients))
                && Buffered() == old(Buffered()) && sends == old(sends)
              case _ =>
                && !exited && after == ready && clients == old(clients) && Buffered() == old(Buffered())
                && sends == old(sends) && stdout == old(stdout) && echoes == old(echoes)
    {
      var h := Dispatch(fd, server, childOut, childErr, clients);
      match h
      case StdinIo =>
        var rest;
        exited, rest := StdinIo(ready.stdin);
        after := ready.(stdin := rest);
      case ServerIo =>
        var rest;
        rest, exited := ServerIo(ready.accepts);
        after := ready.(accepts := rest);
      case ClientIo(client) =>
        var status, rest;
        status, rest := ClientIo(client, ready.Socket(client));
        exited := false;
        after := ready.(sockets := ready.sockets[client := rest]);
      case _ =>
        exited := false;
        after := ready;
    }
  }
}
