/**
 * The per-descriptor line buffer of pipeserve (buffer_t and the `buffers`
 * table): each descriptor owns a fixed-size byte buffer, created on first use,
 * from which buffer_readline_r hands out one line, or one buffer-sized chunk,
 * per call.
 *
 * The capacity BUFFER_SIZE is a positive constant fixed when the table is
 * built; the table is the sequence of its entries.
 */
module LineBuffers {
  import opened Io

  /** Where the read loop of buffer_readline_r stopped, and what it read. */
  datatype LoopOutcome = LoopOutcome(result: int, got: seq<byte>, rest: seq<Event>)

  /**
   * The `for (;;)` read loop of buffer_readline_r on a buffer of `capacity`
   * bytes that held `start` bytes when the loop began and has since received
   * `got`.  Every read asks for all the free space, which is never zero.
   * Only the bytes of each read are searched for '\n'; bytes carried over
   * from earlier calls are not.
   */
  function ReadLoop(input: seq<Event>, start: nat, capacity: nat, got: seq<byte>): LoopOutcome
    requires start + |got| < capacity
    decreases |input|, HeadLength(input)
  {
    var filled := start + |got|;
    var s := Read(input, capacity - filled);
    if Continue(s.result, filled, capacity) then
      ReadShrinks(input, capacity - filled);
      ReadLoop(s.rest, start, capacity, got + s.result.data)
    else
      LoopOutcome(Stop(s.result, filled, capacity), got + s.result.Transferred(), s.rest)
  }

  /** The loop goes on after a read that neither brings a '\n' nor fills the buffer. */
  predicate Continue(r: ReadResult, filled: nat, capacity: nat)
  {
    r.Got? && FirstNewline(r.data).None? && filled + |r.data| < capacity
  }

  /**
   * The value the loop returns after its last read: that read's -1 or 0, the
   * length through the '\n' it brought, or the whole buffer when it filled it.
   */
  function Stop(r: ReadResult, filled: nat, capacity: nat): int
  {
    match r
    case WouldBlock => -1
    case Error => -1
    case EndOfStream => 0
    case Got(d) =>
      match FirstNewline(d)
      case Some(k) => filled + k + 1
      case None => capacity
  }

  /**
   * The bytes the loop reads are the next bytes of the stream, appended to
   * those it already had: no byte is lost, repeated or reordered.
   */
  lemma {:induction false} ReadLoopBytes(input: seq<Event>, start: nat, capacity: nat, got: seq<byte>)
    requires start + |got| < capacity
    decreases |input|, HeadLength(input)
    ensures var o := ReadLoop(input, start, capacity, got);
            got + StreamBytes(input) == o.got + StreamBytes(o.rest)
  {
    var space := capacity - (start + |got|);
    var s := Read(input, space);
    ReadConserves(input, space);
    Assoc(got, s.result.Transferred(), StreamBytes(s.rest));
    if Continue(s.result, start + |got|, capacity) {
      ReadShrinks(input, space);
      ReadLoopBytes(s.rest, start, capacity, got + s.result.data);
    }
  }

  /** The bytes read fit in the buffer, after those it already had. */
  lemma {:induction false} ReadLoopFits(input: seq<Event>, start: nat, capacity: nat, got: seq<byte>)
    requires start + |got| < capacity
    decreases |input|, HeadLength(input)
    ensures var o := ReadLoop(input, start, capacity, got);
            |got| <= |o.got| && start + |o.got| <= capacity
  {
    var space := capacity - (start + |got|);
    var s := Read(input, space);
    ReadShape(input, space);
    if Continue(s.result, start + |got|, capacity) {
      ReadLoopFits(s.rest, start, capacity, got + s.result.data);
    }
  }

  lemma PrefixOfConcat(a: seq<byte>, b: seq<byte>)
    ensures (a + b)[..|a|] == a
  {
  }

  lemma TakeDrop(s: seq<byte>, n: nat)
    requires n <= |s|
    ensures s[..n] + s[n..] == s
  {
  }

  /**
   * The value a call returns, given the bytes `o.got` it read into a buffer
   * holding `start` bytes before: -1 or 0 exactly when no read brought a
   * '\n' and the buffer did not fill; otherwise it reaches through the first
   * '\n' of the bytes read, or is the whole buffer when they hold none.  A 0
   * is the end of stream, which the next read reports again.
   */
  ghost predicate ReturnsLine(o: LoopOutcome, start: nat, capacity: nat)
  {
    var k := FirstNewline(o.got);
    && o.result >= -1
    && (o.result <= 0 <==> k.None? && start + |o.got| < capacity)
    && (k.Some? ==> o.result == start + k.value + 1)
    && (k.None? && o.result > 0 ==> o.result == capacity == start + |o.got|)
    && (o.result == 0 ==> AtEnd(o.rest))
  }

  /** The loop returns a line as ReturnsLine describes, once its bytes so far hold no '\n'. */
  lemma {:induction false} ReadLoopResult(input: seq<Event>, start: nat, capacity: nat, got: seq<byte>)
    requires start + |got| < capacity && FirstNewline(got).None?
    decreases |input|, HeadLength(input)
    ensures ReturnsLine(ReadLoop(input, start, capacity, got), start, capacity)
  {
    var space := capacity - (start + |got|);
    var s := Read(input, space);
    if Continue(s.result, start + |got|, capacity) {
      ReadShrinks(input, space);
      FirstNewlineAfter(got, s.result.data);
      ReadLoopResult(s.rest, start, capacity, got + s.result.data);
    } else {
      StopReturnsLine(input, start, capacity, got);
    }
  }

  /** The read that ends the loop fixes the value it returns. */
  lemma StopReturnsLine(input: seq<Event>, start: nat, capacity: nat, got: seq<byte>)
    requires start + |got| < capacity && FirstNewline(got).None?
    requires !Continue(Read(input, capacity - (start + |got|)).result, start + |got|, capacity)
    ensures ReturnsLine(ReadLoop(input, start, capacity, got), start, capacity)
  {
    var s := Read(input, capacity - (start + |got|));
    ReadShape(input, capacity - (start + |got|));
    EndIsSticky(input, capacity - (start + |got|));
    FirstNewlineAfter(got, s.result.Transferred());
    assert |got + s.result.Transferred()| == |got| + |s.result.Transferred()|;
  }

  /** A newline found after a newline-free prefix is offset by that prefix. */
  lemma {:induction false} FirstNewlineAfter(d: seq<byte>, e: seq<byte>)
    requires FirstNewline(d).None?
    ensures FirstNewline(e).None? ==> FirstNewline(d + e).None?
    ensures FirstNewline(e).Some? ==> FirstNewline(d + e) == Some(|d| + FirstNewline(e).value)
  {
    if d == [] {
      assert d + e == e;
    } else {
      assert (d + e)[1..] == d[1..] + e;
      FirstNewlineAfter(d[1..], e);
    }
  }

  /** The bytes a call hands to its caller: the line, or nothing on -1 and 0. */
  function Delivered(buffered: seq<byte>, result: int): seq<byte>
  {
    if 0 < result <= |buffered| then buffered[..result] else []
  }

  /**
   * What one buffer_readline_r call returns (`bytes`, `*line`, `*rdata` as an
   * offset, `*rsize`), the events it leaves unread, and the entry it leaves:
   * the bytes stored and those still pending for the next call.
   */
  datatype LineOutcome = LineOutcome(
    bytes: int, line: Option<seq<byte>>, rdata: nat, rsize: nat,
    rest: seq<Event>, buffered: seq<byte>, pending: seq<byte>)

  /** buffer_readline_r on an entry holding `pending` unreturned bytes. */
  function ReadLineSpec(pending: seq<byte>, input: seq<Event>, capacity: nat): LineOutcome
    requires |pending| < capacity
  {
    var o := ReadLoop(input, |pending|, capacity, []);
    var buffered := pending + o.got;
    var line := Delivered(buffered, o.result);
    LineOutcome(o.result, if o.result == -1 then None else Some(line), |pending|, |o.got|,
                o.rest, buffered, buffered[|line|..])
  }

  /**
   * No byte is lost or repeated: what was pending before the call followed by
   * the rest of the stream equals the delivered line, followed by what stays
   * pending, followed by what the stream has not yet delivered.  The bytes of
   * the call's window are exactly the stream's next bytes, and they fit.
   */
  lemma ReadLineConserves(pending: seq<byte>, input: seq<Event>, capacity: nat)
    requires |pending| < capacity
    ensures var r := ReadLineSpec(pending, input, capacity);
            && pending + StreamBytes(input) == Delivered(r.buffered, r.bytes) + r.pending + StreamBytes(r.rest)
            && r.buffered == pending + StreamBytes(input)[..r.rsize]
            && r.rdata + r.rsize <= capacity
  {
    ReadLoopBytes(input, |pending|, capacity, []);
    ReadLoopFits(input, |pending|, capacity, []);
    var o := ReadLoop(input, |pending|, capacity, []);
    var buffered := pending + o.got;
    var line := Delivered(buffered, o.result);
    assert [] + StreamBytes(input) == StreamBytes(input);
    PrefixOfConcat(o.got, StreamBytes(o.rest));
    TakeDrop(buffered, |line|);
    Assoc(pending, o.got, StreamBytes(o.rest));
    Assoc(buffered[..|line|], buffered[|line|..], StreamBytes(o.rest));
  }

  /**
   * The return value: -1 or 0 only when no '\n' arrived and the buffer has
   * room left (0 meaning the stream has ended, as the next read reports too);
   * otherwise a line that ends in the first '\n' among the bytes read by
   * this call, or, when those bytes hold none, the whole full buffer.
   */
  lemma ReadLineResult(pending: seq<byte>, input: seq<Event>, capacity: nat)
    requires |pending| < capacity
    ensures var r := ReadLineSpec(pending, input, capacity);
            var recent := r.buffered[|pending|..];
            && r.bytes >= -1
            && (r.bytes <= 0 <==> NL !in recent && |r.buffered| < capacity)
            && (r.bytes == -1 <==> r.line.None?)
            && (r.bytes == 0 ==> AtEnd(r.rest))
            && (r.bytes > 0 ==>
                  && |pending| < r.bytes <= |r.buffered|
                  && r.line == Some(r.buffered[..r.bytes])
                  && (NL in recent ==> r.buffered[r.bytes - 1] == NL && NL !in r.buffered[|pending|..r.bytes - 1])
                  && (NL !in recent ==> r.bytes == |r.buffered| == capacity))
  {
    ReadLoopResult(input, |pending|, capacity, []);
    var o := ReadLoop(input, |pending|, capacity, []);
    FirstNewlineSpec(o.got);
    var buffered := pending + o.got;
    assert buffered[|pending|..] == o.got;
    if o.result > 0 && NL in o.got {
      var k := FirstNewline(o.got).value;
      assert buffered[|pending|..o.result - 1] == o.got[..k];
    }
  }

  /** One buffer_t: the buffer of one descriptor. */
  class LineBuffer {
    const fd: int
    const data: array<byte>
    /** Offset of `end`, the first unwritten byte. */
    var end: nat
    /** Bytes at the front already handed out, removed on the next call. */
    var shift: nat

    ghost predicate Valid()
      reads this
    {
      && 0 < data.Length
      && shift <= end <= data.Length
      && (shift == 0 ==> end < data.Length)
    }

    /** The bytes stored in the buffer. */
    ghost function Buffered(): seq<byte>
      reads this, data
      requires Valid()
    {
      data[..end]
    }

    /** The stored bytes not yet handed out. */
    ghost function Pending(): (p: seq<byte>)
      reads this, data
      requires Valid()
      ensures |p| < data.Length
    {
      data[shift..end]
    }

    /** A new entry: empty, `end` at data[0] and nothing to shift. */
    constructor (fd: int, capacity: nat)
      requires capacity > 0
      ensures this.fd == fd && fresh(data) && data.Length == capacity
      ensures end == 0 && shift == 0
      ensures Valid() && Pending() == []
    {
      this.fd := fd;
      data := new byte[capacity];
      end := 0;
      shift := 0;
    }

    /**
     * The memmove at the start of buffer_readline_r: the bytes after `shift`
     * move to the front, in order.
     */
    method Compact()
      requires Valid()
      modifies this, data
      ensures Valid() && shift == 0
      ensures Buffered() == old(Pending())
    {
      if shift != 0 {
        MemMove(data, shift, end - shift);
        end := end - shift;
        shift := 0;
      }
    }

    /** read(2) storing `d` at `end`, which then moves past it. */
    method Store(d: seq<byte>)
      requires Valid() && shift == 0 && end + |d| < data.Length
      modifies this, data
      ensures Valid() && shift == 0 && end == old(end) + |d|
      ensures Buffered() == old(Buffered()) + d
    {
      forall i | 0 <= i < |d| {
        data[end + i] := d[i];
      }
      end := end + |d|;
    }

    /** The last read(2) of a call, storing `d` and setting `shift`. */
    method StoreLast(d: seq<byte>, s: nat)
      requires Valid() && end + |d| <= data.Length && 0 < s <= end + |d|
      modifies this, data
      ensures Valid() && shift == s && end == old(end) + |d|
      ensures Buffered() == old(Buffered()) + d
    {
      forall i | 0 <= i < |d| {
        data[end + i] := d[i];
      }
      end := end + |d|;
      shift := s;
    }

    /**
     * One pass of the body of the read loop: read(2) into the free space at
     * `end`, then either go on (`done` false) or fix the result and `shift`.
     */
    method ReadOnce(rest: seq<Event>, ghost filled: nat, ghost capacity: nat)
      returns (r: ReadResult, after: seq<Event>, done: bool, bytes: int)
      requires Valid() && shift == 0 && end == filled && data.Length == capacity
      modifies this, data
      ensures Valid() && data.Length == capacity
      ensures ReadStep(r, after) == Read(rest, capacity - filled)
      ensures Buffered() == old(Buffered()) + r.Transferred()
      ensures done == !Continue(r, filled, capacity)
      ensures !done ==> shift == 0 && end == filled + |r.data|
      ensures done ==> bytes == Stop(r, filled, capacity) && shift == (if bytes > 0 then bytes else 0)
    {
      var space := data.Length - end;
      var s := Read(rest, space);
      ReadShape(rest, space);
      r, after := s.result, s.rest;
      if !r.Got? {
        bytes := if r.EndOfStream? then 0 else -1;
        done := true;
        return;
      }
      var d := r.data;
      var endl := FirstNewline(d);
      if endl.None? && |d| < space {
        Store(d);
        bytes := 0;
        done := false;
        return;
      }
      bytes := if endl.None? then data.Length else end + endl.value + 1;
      StoreLast(d, bytes);
      done := true;
    }

    /**
     * The read loop of buffer_readline_r on a compacted buffer, which also
     * gives back (as `got`) the bytes it read.
     */
    method Fill(input: seq<Event>) returns (bytes: int, rest: seq<Event>, ghost got: seq<byte>)
      requires Valid() && shift == 0
      modifies this, data
      ensures Valid()
      ensures LoopOutcome(bytes, got, rest) == ReadLoop(input, old(end), data.Length, [])
      ensures Buffered() == old(Buffered()) + got
      ensures shift == (if bytes > 0 then bytes else 0)
    {
      ghost var before := Buffered();
      ghost var cap := data.Length;
      ghost var start := end;
      ghost var goal := ReadLoop(input, start, cap, []);
      rest := input;
      got := [];
      while true
        invariant Valid() && shift == 0 && data.Length == cap && end == start + |got|
        invariant Buffered() == before + got
        invariant ReadLoop(rest, start, cap, got) == goal
        decreases |rest|, HeadLength(rest)
      {
        var r, done;
        r, rest, done, bytes := ReadOnce(rest, start + |got|, cap);
        Assoc(before, got, r.Transferred());
        got := got + r.Transferred();
        if done {
          return;
        }
      }
    }

    /**
     * The body of buffer_readline_r once the entry is found: compact away the
     * line handed out last time, then run the read loop.  `rdata` is the
     * offset where this call's bytes start, `rsize` their count.
     */
    method ReadLineR(input: seq<Event>, ghost pending: seq<byte>, ghost capacity: nat)
      returns (bytes: int, line: Option<seq<byte>>, rdata: nat, rsize: nat, rest: seq<Event>)
      requires Valid() && pending == Pending() && capacity == data.Length
      modifies this, data
      ensures Valid()
      ensures LineOutcome(bytes, line, rdata, rsize, rest, Buffered(), Pending())
              == ReadLineSpec(pending, input, capacity)
    {
      Compact();
      var start := end;
      ghost var got;
      bytes, rest, got := Fill(input);
      line := if bytes == -1 then None else Some(data[..if bytes > 0 then bytes else 0]);
      rdata := start;
      rsize := end - start;
      assert bytes > 0 ==> data[..bytes] == Buffered()[..bytes];
    }
  }

  /** The descriptors of the entries, in table order. */
  function Fds(es: seq<LineBuffer>): (r: seq<int>)
    ensures |r| == |es|
    ensures forall i :: 0 <= i < |es| ==> r[i] == es[i].fd
  {
    if es == [] then [] else [es[0].fd] + Fds(es[1..])
  }

  /** Offset of the first entry for `fd`, as the lookup loop finds it. */
  function IndexOf(es: seq<LineBuffer>, fd: int): (r: Option<nat>)
    ensures r.None? <==> fd !in Fds(es)
    ensures r.Some? ==> r.value < |es| && es[r.value].fd == fd
                        && forall j :: 0 <= j < r.value ==> es[j].fd != fd
  {
    if es == [] then None
    else if es[0].fd == fd then Some(0)
    else
      match IndexOf(es[1..], fd)
      case None => assert Fds(es) == [es[0].fd] + Fds(es[1..]); None
      case Some(i) => Some(i + 1)
  }

  /** The entries left once every entry for `fd` is removed, in their order. */
  function Without(es: seq<LineBuffer>, fd: int): seq<LineBuffer>
  {
    if es == [] then []
    else if es[0].fd == fd then Without(es[1..], fd)
    else [es[0]] + Without(es[1..], fd)
  }

  /**
   * Removing `fd` leaves no entry for it, keeps every other entry, adds
   * none, and changes nothing when `fd` has no entry.
   */
  lemma {:induction false} WithoutSpec(es: seq<LineBuffer>, fd: int)
    ensures fd !in Fds(Without(es, fd))
    ensures forall e :: e in Without(es, fd) ==> e in es && e.fd != fd
    ensures forall e :: e in es && e.fd != fd ==> e in Without(es, fd)
    ensures fd !in Fds(es) ==> Without(es, fd) == es
  {
    if es != [] {
      WithoutSpec(es[1..], fd);
      assert es == [es[0]] + es[1..];
      assert Fds(es) == [es[0].fd] + Fds(es[1..]);
      if es[0].fd != fd {
        assert Fds(Without(es, fd)) == [es[0].fd] + Fds(Without(es[1..], fd));
      }
    }
  }

  /** Without splits at any point of the table. */
  lemma {:induction false} WithoutAppend(a: seq<LineBuffer>, b: seq<LineBuffer>, fd: int)
    ensures Without(a + b, fd) == Without(a, fd) + Without(b, fd)
  {
    if a == [] {
      assert a + b == b;
    } else {
      assert (a + b)[1..] == a[1..] + b;
      WithoutAppend(a[1..], b, fd);
    }
  }

  /** Splicing out an entry for `fd` at `i` leaves what Without keeps unchanged. */
  lemma SpliceOut(es: seq<LineBuffer>, i: nat, fd: int)
    requires i < |es| && es[i].fd == fd
    ensures var es' := es[..i] + es[i + 1..];
            es[..i] + Without(es[i..], fd) == es'[..i] + Without(es'[i..], fd)
  {
    var es' := es[..i] + es[i + 1..];
    assert es'[..i] == es[..i] && es'[i..] == es[i + 1..];
    assert es[i..][1..] == es[i + 1..];
  }

  /** Stepping over an entry for another descriptor moves it to the kept part. */
  lemma StepOver(es: seq<LineBuffer>, i: nat, fd: int)
    requires i < |es| && es[i].fd != fd
    ensures es[..i] + Without(es[i..], fd) == es[..i + 1] + Without(es[i + 1..], fd)
  {
    assert es[i..][1..] == es[i + 1..];
    assert es[..i + 1] == es[..i] + [es[i]];
    assert Without(es[i..], fd) == [es[i]] + Without(es[i + 1..], fd);
    assert es[..i] + ([es[i]] + Without(es[i + 1..], fd)) == (es[..i] + [es[i]]) + Without(es[i + 1..], fd);
  }

  /**
   * The splicing loop of buffer_clear, with the cursor left in place after
   * a splice so that it never runs off the end of the table.
   */
  method Splice(entries: seq<LineBuffer>, fd: int) returns (es: seq<LineBuffer>)
    ensures es == Without(entries, fd)
  {
    var i := 0;
    es := entries;
    while i < |es|
      invariant i <= |es|
      invariant Without(entries, fd) == es[..i] + Without(es[i..], fd)
      decreases |es| - i
    {
      if es[i].fd == fd {
        SpliceOut(es, i, fd);
        es := es[..i] + es[i + 1..];
      } else {
        StepOver(es, i, fd);
        i := i + 1;
      }
    }
    assert es[i..] == [];
  }

  /**
   * The loop of buffer_clear as written, on the descriptors of the table.
   * `kept` is the list up to the cursor `prev`, `tail` the nodes after it.
   * After a splice the cursor still advances, onto the node that followed
   * the removed one without examining it; when the removed node was the
   * last one the cursor becomes NULL and the loop test dereferences it,
   * which is None here.
   */
  function ClearAsWritten(kept: seq<int>, tail: seq<int>, fd: int): Option<seq<int>>
    decreases |tail|
  {
    if tail == [] then Some(kept)
    else if tail[0] != fd then ClearAsWritten(kept + [tail[0]], tail[1..], fd)
    else if tail[1..] == [] then None
    else ClearAsWritten(kept + [tail[1]], tail[2..], fd)
  }

  /**
   * buffer_clear(fd) on a table whose last entry is `fd`'s, the only one
   * for it, dereferences NULL instead of returning.
   */
  lemma {:induction false} ClearLastCrashes(kept: seq<int>, tail: seq<int>, fd: int)
    requires tail != [] && tail[|tail| - 1] == fd && fd !in tail[..|tail| - 1]
    decreases |tail|
    ensures ClearAsWritten(kept, tail, fd) == None
  {
    if |tail| > 1 {
      assert tail[0] in tail[..|tail| - 1];
      assert tail[1..][..|tail| - 2] == tail[..|tail| - 1][1..];
      ClearLastCrashes(kept + [tail[0]], tail[1..], fd);
    }
  }

  /** The smallest case: a table holding only the entry for descriptor 3. */
  lemma ClearOnlyEntryCrashes()
    ensures ClearAsWritten([], [3], 3) == None
  {
    ClearLastCrashes([], [3], 3);
  }

  /** The lookup loop of buffer_readline_r: the first entry for `fd`, if any. */
  method Find(entries: seq<LineBuffer>, fd: int) returns (found: Option<nat>)
    ensures found == IndexOf(entries, fd)
    ensures found.None? ==> forall e :: e in entries ==> e.fd != fd
  {
    var i := 0;
    while i < |entries|
      invariant i <= |entries|
      invariant forall j :: 0 <= j < i ==> entries[j].fd != fd
    {
      if entries[i].fd == fd {
        return Some(i);
      }
      i := i + 1;
    }
    return None;
  }

  /** The `buffers` table. */
  class BufferTable {
    /** BUFFER_SIZE. */
    const capacity: nat
    var entries: seq<LineBuffer>
    ghost var Repr: set<object>
    /** The entry of each descriptor, and the entry owning each buffer. */
    ghost var ByFd: map<int, LineBuffer>
    ghost var ByData: map<array<byte>, LineBuffer>

    /**
     * Every entry is in the footprint, sized BUFFER_SIZE and consistent, and
     * no two entries share a descriptor or a buffer: each is the one entry
     * recorded for its descriptor and for its buffer.
     */
    ghost predicate Valid()
      reads this, Repr
    {
      && this in Repr
      && capacity > 0
      && (forall e :: e in entries ==>
            && e in Repr && e.data in Repr && e.data.Length == capacity && e.Valid()
            && e.fd in ByFd && ByFd[e.fd] == e && e.data in ByData && ByData[e.data] == e)
    }

    /** The pending bytes of `fd`'s entry; none when it has no entry. */
    ghost function PendingOf(fd: int): (p: seq<byte>)
      reads this, Repr
      requires Valid()
      ensures |p| < capacity
    {
      match IndexOf(entries, fd)
      case None => []
      case Some(i) => entries[i].Pending()
    }

    /** The stored bytes of `fd`'s entry; none when it has no entry. */
    ghost function BufferedOf(fd: int): seq<byte>
      reads this, Repr
      requires Valid()
    {
      match IndexOf(entries, fd)
      case None => []
      case Some(i) => entries[i].Buffered()
    }

    /** An empty table (`buffers = NULL`). */
    constructor (capacity: nat)
      requires capacity > 0
      ensures Valid() && fresh(Repr) && this.capacity == capacity && entries == []
    {
      this.capacity := capacity;
      entries := [];
      Repr := {this};
      ByFd := map[];
      ByData := map[];
    }

    /**
     * The lookup at the start of buffer_readline_r: the first entry for `fd`,
     * or a new empty entry put at the head of the table when there is none,
     * so that the table never holds two entries for one descriptor.
     */
    method Lookup(fd: int) returns (b: LineBuffer, ghost k: nat)
      requires Valid()
      modifies this
      ensures Valid() && fresh(Repr - old(Repr))
      ensures k < |entries| && entries[k] == b && IndexOf(entries, fd) == Some(k)
      ensures fd in Fds(old(entries)) ==> entries == old(entries) && Repr == old(Repr)
      ensures fd !in Fds(old(entries)) ==>
                && entries == [b] + old(entries) && Repr == old(Repr) + {b, b.data}
                && fresh(b) && fresh(b.data) && b.Pending() == []
    {
      var found := Find(entries, fd);
      if found.Some? {
        b, k := entries[found.value], found.value;
        return;
      }
      b := Add(fd);
      k := 0;
    }

    /** A new empty entry for `fd`, which has none, put at the head of the table. */
    method Add(fd: int) returns (b: LineBuffer)
      requires Valid() && forall e :: e in entries ==> e.fd != fd
      modifies this
      ensures Valid() && b.fd == fd
      ensures entries == [b] + old(entries) && Repr == old(Repr) + {b, b.data}
      ensures fresh(b) && fresh(b.data) && b.Pending() == []
    {
      b := new LineBuffer(fd, capacity);
      entries := [b] + entries;
      Repr := Repr + {b, b.data};
      ByFd := ByFd[fd := b];
      ByData := ByData[b.data := b];
    }

    /**
     * buffer_readline_r(fd, &line, &rsize, &rdata) reading from `input`:
     * compacts away the previously returned line, then reads until a read
     * brings a '\n', the buffer fills, or a read returns -1 or 0.  The result
     * is the line length (through the '\n', or the whole buffer), or the -1
     * or 0 of the last read.  `line` is the buffer start, set unless the
     * result is -1; `rdata`/`rsize` give the window of bytes read by this
     * call, which may reach past the line.  Other descriptors' entries are
     * left as they were.
     */
    method ReadLineR(fd: int, input: seq<Event>)
      returns (bytes: int, line: Option<seq<byte>>, rdata: nat, rsize: nat, rest: seq<Event>)
      requires Valid()
      modifies this, Repr
      ensures Valid() && fresh(Repr - old(Repr))
      ensures fd in Fds(entries)
      ensures entries == old(entries)
              || (fd !in Fds(old(entries)) && entries[1..] == old(entries) && entries[0].fd == fd)
      ensures LineOutcome(bytes, line, rdata, rsize, rest, BufferedOf(fd), PendingOf(fd))
              == ReadLineSpec(old(PendingOf(fd)), input, capacity)
      ensures forall e :: e in old(entries) && e.fd != fd ==> e in entries && unchanged(e, e.data)
    {
      ghost var p := PendingOf(fd);
      ghost var k;
      var b;
      b, k := Lookup(fd);
      assert fd !in Fds(old(entries)) ==> entries[1..] == old(entries);
      bytes, line, rdata, rsize, rest := ReadEntry(b, k, input, p);
    }

    /** The read itself, on the entry `b` found at position `k`. */
    method ReadEntry(b: LineBuffer, ghost k: nat, input: seq<Event>, ghost p: seq<byte>)
      returns (bytes: int, line: Option<seq<byte>>, rdata: nat, rsize: nat, rest: seq<Event>)
      requires Valid() && k < |entries| && entries[k] == b && IndexOf(entries, b.fd) == Some(k)
      requires p == PendingOf(b.fd)
      modifies b, b.data
      ensures Valid()
      ensures LineOutcome(bytes, line, rdata, rsize, rest, BufferedOf(b.fd), PendingOf(b.fd))
              == ReadLineSpec(p, input, capacity)
      ensures forall e :: e in entries && e != b ==> unchanged(e, e.data)
    {
      bytes, line, rdata, rsize, rest := b.ReadLineR(input, p, capacity);
    }

    /** buffer_readline: buffer_readline_r without the raw window. */
    method ReadLine(fd: int, input: seq<Event>) returns (bytes: int, line: Option<seq<byte>>, rest: seq<Event>)
      requires Valid()
      modifies this, Repr
      ensures Valid() && fresh(Repr - old(Repr))
      ensures fd in Fds(entries)
      ensures entries == old(entries)
              || (fd !in Fds(old(entries)) && entries[1..] == old(entries) && entries[0].fd == fd)
      ensures var r := ReadLineSpec(old(PendingOf(fd)), input, capacity);
              bytes == r.bytes && line == r.line && rest == r.rest && PendingOf(fd) == r.pending
      ensures forall e :: e in old(entries) && e.fd != fd ==> e in entries && unchanged(e, e.data)
    {
      var rdata, rsize;
      bytes, line, rdata, rsize, rest := ReadLineR(fd, input);
    }

    /**
     * buffer_clear(fd) as evidently intended: every entry for `fd` is
     * spliced out and the others stay, in order.  The freed buffer is not
     * modelled; it only leaves the table.
     */
    method Clear(fd: int)
      requires Valid()
      modifies this
      ensures Valid() && Repr == old(Repr)
      ensures entries == Without(old(entries), fd)
      ensures fd !in Fds(entries) && PendingOf(fd) == []
    {
      WithoutSpec(entries, fd);
      entries := Splice(entries, fd);
    }
  }
}
