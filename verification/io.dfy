/**
 * Bytes, the '\n' search done with memchr(3), the memmove(3) used to compact
 * buffers, and the abstract descriptor model shared by the C programs.
 *
 * A descriptor is modelled by the sequence of events the kernel would report to
 * successive read(2)/recv(2) calls on it.  Nothing here performs I/O.
 */
module Io {

  newtype byte = x: int | 0 <= x < 256

  /** ASCII line feed, the only delimiter the programs look for. */
  const NL: byte := 10

  datatype Option<T> = None | Some(value: T)

  /** Regrouping a concatenation, stated once so that proofs can call it. */
  lemma Assoc<T>(a: seq<T>, b: seq<T>, c: seq<T>)
    ensures a + (b + c) == (a + b) + c
  {
  }

  /**
   * memchr(s, '\n', |s|): the offset of the first '\n' in `s`, or None when
   * there is none (memchr's NULL).
   */
  function FirstNewline(s: seq<byte>): (r: Option<nat>)
    ensures r.Some? ==> r.value < |s|
  {
    if s == [] then None
    else if s[0] == NL then Some(0)
    else
      match FirstNewline(s[1..])
      case None => None
      case Some(i) => Some(i + 1)
  }

  /** FirstNewline finds the first '\n', and finds none only when there is none. */
  lemma {:induction false} FirstNewlineSpec(s: seq<byte>)
    ensures var r := FirstNewline(s);
            && (r.None? <==> NL !in s)
            && (r.Some? ==> r.value < |s| && s[r.value] == NL && NL !in s[..r.value])
  {
    if s != [] && s[0] != NL {
      FirstNewlineSpec(s[1..]);
      assert s == [s[0]] + s[1..];
      match FirstNewline(s[1..])
      case None =>
      case Some(i) => assert s[..i + 1] == [s[0]] + s[1..][..i];
    }
  }

  /**
   * memmove(a, a + src, n) with the destination at offset 0: the `n` bytes at
   * `src` move to the front, in order, and the rest of the array is untouched.
   */
  method MemMove(a: array<byte>, src: nat, n: nat)
    requires src + n <= a.Length
    modifies a
    ensures a[..n] == old(a[src..src + n])
    ensures a[n..] == old(a[n..])
  {
    forall i | 0 <= i < n {
      a[i] := a[src + i];
    }
  }

  /**
   * What the kernel reports to one read(2)/recv(2) call: -1 with EAGAIN or
   * EWOULDBLOCK, -1 with any other errno, 0 at end of stream, or the bytes read.
   */
  datatype Event = Again | Failure | Eof | Bytes(data: seq<byte>)

  /** One read: what it returns, and the events it leaves unread. */
  datatype ReadStep = ReadStep(result: ReadResult, rest: seq<Event>)

  /** The outcome of one read: its return value and the bytes it transferred. */
  datatype ReadResult = WouldBlock | Error | EndOfStream | Got(data: seq<byte>)
  {
    /** The C return value of the call. */
    function Returned(): int
    {
      match this
      case WouldBlock => -1
      case Error => -1
      case EndOfStream => 0
      case Got(d) => |d|
    }

    /** The bytes the call transferred into the caller's buffer. */
    function Transferred(): seq<byte>
    {
      if Got? then data else []
    }
  }

  /** Every byte the descriptor will deliver, in order. */
  function StreamBytes(input: seq<Event>): seq<byte>
  {
    if input == [] then []
    else (if input[0].Bytes? then input[0].data else []) + StreamBytes(input[1..])
  }

  /** The length of the chunk at the head of the stream, if any. */
  function HeadLength(input: seq<Event>): nat
  {
    if input != [] && input[0].Bytes? then |input[0].data| else 0
  }

  /**
   * `later` is strictly closer to exhaustion than `input`: fewer events, or as
   * many with a shorter head chunk.
   */
  predicate Shorter(later: seq<Event>, input: seq<Event>)
  {
    |later| < |input| || (|later| == |input| && HeadLength(later) < HeadLength(input))
  }

  /**
   * One read(fd, buf, space) with space > 0.  A chunk larger than `space` is
   * split and its tail stays queued; end of stream is sticky (every later read
   * returns 0 again); when no event is left the descriptor would block.
   */
  function Read(input: seq<Event>, space: nat): ReadStep
    requires space > 0
  {
    if input == [] then ReadStep(WouldBlock, [])
    else
      match input[0]
      case Again => ReadStep(WouldBlock, input[1..])
      case Failure => ReadStep(Error, input[1..])
      case Eof => ReadStep(EndOfStream, input)
      case Bytes(d) =>
        if d == [] then ReadStep(EndOfStream, input)
        else if |d| <= space then ReadStep(Got(d), input[1..])
        else ReadStep(Got(d[..space]), input[0 := Bytes(d[space..])])
  }

  /**
   * A read transfers at least one byte and no more than the space offered,
   * or returns -1 or 0; end of stream consumes nothing, and every other read
   * moves the stream closer to exhaustion.
   */
  lemma ReadShape(input: seq<Event>, space: nat)
    requires space > 0
    ensures var r := Read(input, space);
            && (r.result.Got? ==> 0 < |r.result.data| <= space)
            && -1 <= r.result.Returned() <= space
            && (r.result.EndOfStream? ==> r.rest == input)
            && (r.result.EndOfStream? || input == [] || Shorter(r.rest, input))
  {
  }

  /** The descriptor has reached end of stream: the next read returns 0. */
  predicate AtEnd(input: seq<Event>)
  {
    input != [] && (input[0].Eof? || input[0] == Bytes([]))
  }

  /**
   * A read returns 0 exactly at end of stream, whatever the space offered,
   * and then consumes nothing, so every later read returns 0 again.
   */
  lemma EndIsSticky(input: seq<Event>, space: nat)
    requires space > 0
    ensures Read(input, space).result.EndOfStream? <==> AtEnd(input)
    ensures AtEnd(input) ==> Read(input, space).rest == input
  {
  }

  /** A read that transfers bytes consumes part of the stream. */
  lemma ReadShrinks(input: seq<Event>, space: nat)
    requires space > 0
    ensures Read(input, space).result.Got? ==> Shorter(Read(input, space).rest, input)
  {
  }

  /** A read loses no byte and repeats none: what it transfers comes first. */
  lemma ReadConserves(input: seq<Event>, space: nat)
    requires space > 0
    ensures var r := Read(input, space);
            StreamBytes(input) == r.result.Transferred() + StreamBytes(r.rest)
  {
    if input != [] && input[0].Bytes? && |input[0].data| > space {
      var d := input[0].data;
      var rest := input[0 := Bytes(d[space..])];
      assert rest[1..] == input[1..];
      assert d == d[..space] + d[space..];
    }
  }
}
