/**
 * trimnl/trimnl.c: copy standard input to standard output, reading it line
 * by line into a growing buffer, writing the lines back separated by '\n'
 * with no '\n' after the last one.
 *
 * Standard input is an object holding the bytes not yet read and the
 * end-of-file indicator; standard output is the sequence of bytes written.
 * The buffer is an array of bytes whose length is the allocated size.
 */
module TrimNl {

  import opened Io

  /** The amount a line buffer starts with and grows by. */
  const BLOCK_SIZE: nat := 1024

  /** The C string terminator. */
  const NUL: byte := 0

  /** The input with at most one trailing '\n' removed. */
  function Trimmed(input: seq<byte>): seq<byte>
  {
    if input != [] && input[|input| - 1] == NL then input[..|input| - 1] else input
  }

  /** Exactly one trailing '\n' goes, and nothing else changes. */
  lemma TrimmedRemovesOne(input: seq<byte>)
    ensures Trimmed(input) == input <==> input == [] || input[|input| - 1] != NL
    ensures Trimmed(input) != input ==> Trimmed(input) + [NL] == input
    ensures input == [] ==> Trimmed(input) == []
  {
  }

  /** A file of lines that all end in '\n' loses only the last one's. */
  lemma TrimmedKeepsInnerNewlines(a: seq<byte>, b: seq<byte>)
    requires b != []
    ensures Trimmed(a + [NL] + b) == a + [NL] + Trimmed(b)
  {
    assert (a + [NL] + b)[|a| + 1..] == b;
    if b[|b| - 1] == NL {
      assert (a + [NL] + b)[..|a + [NL] + b| - 1] == a + [NL] + b[..|b| - 1];
    }
  }

  /**
   * The number of bytes fgets takes when allowed `m` of them: it stops after
   * a '\n', at the limit, or when the input runs out.
   */
  function ChunkLength(d: seq<byte>, m: nat): (k: nat)
    ensures k <= m && k <= |d|
  {
    if m == 0 || d == [] then 0
    else if d[0] == NL then 1
    else 1 + ChunkLength(d[1..], m - 1)
  }

  /** fgets allowed `m` bytes runs into the end of the input, which sets the end-of-file indicator. */
  predicate HitsEnd(d: seq<byte>, m: nat)
  {
    var k := ChunkLength(d, m);
    k == |d| && k < m && (k == 0 || d[k - 1] != NL)
  }

  /**
   * fgets stops after the first '\n', or at the limit, or when the input
   * runs out, and takes at least one byte when it can.
   */
  lemma {:induction false} ChunkShape(d: seq<byte>, m: nat)
    ensures var k := ChunkLength(d, m);
            && (k > 0 ==> NL !in d[..k - 1])
            && (k < m && k < |d| ==> 0 < k && d[k - 1] == NL)
            && (m > 0 && d != [] ==> k > 0)
  {
    if m > 0 && d != [] && d[0] != NL {
      ChunkShape(d[1..], m - 1);
      var r := ChunkLength(d[1..], m - 1);
      assert r > 0 ==> d[..r] == [d[0]] + d[1..][..r - 1];
    }
  }

  /** The length of the first line of `d`, its '\n' included: all of `d` when there is no '\n'. */
  function LineEnd(d: seq<byte>): (n: nat)
    ensures n <= |d| && (n == 0 <==> d == [])
    ensures NL in d ==> 0 < n && d[n - 1] == NL && NL !in d[..n - 1]
    ensures NL !in d ==> n == |d|
  {
    FirstNewlineSpec(d);
    match FirstNewline(d)
    case Some(i) => i + 1
    case None => |d|
  }

  /** strlen: the offset of the first '\0'. */
  function Strlen(s: seq<byte>): (n: nat)
    requires NUL in s
    ensures n < |s| && s[n] == NUL && NUL !in s[..n]
  {
    if s[0] == NUL then 0
    else
      var n := 1 + Strlen(s[1..]);
      assert s[..n] == [s[0]] + s[1..][..n - 1];
      n
  }

  /** A string of `n` bytes without '\0' followed by '\0' has length `n`. */
  lemma StrlenOf(s: seq<byte>, n: nat)
    requires n < |s| && s[n] == NUL && NUL !in s[..n]
    ensures Strlen(s) == n
  {
  }

  /** The C string at the start of `s`: what fputs writes. */
  function CString(s: seq<byte>): (r: seq<byte>)
    requires NUL in s
    ensures NUL !in r && r + [NUL] <= s
  {
    s[..Strlen(s)]
  }

  /** The stdin stream: the bytes not yet read and the end-of-file indicator. */
  class Stdin {
    var data: seq<byte>
    var eof: bool

    /** End of file is only ever reached once everything has been read. */
    ghost predicate Valid()
      reads this
    {
      eof ==> data == []
    }

    constructor (input: seq<byte>)
      ensures data == input && !eof && Valid()
    {
      data := input;
      eof := false;
    }

    /**
     * fgets(buf + start, n, stdin) with n >= 2: read up to n - 1 bytes,
     * stopping after a '\n' or at end of input, and store them followed by
     * '\0'.  When end of input comes before any byte, nothing is stored.
     * The end-of-file indicator is set when a read found the input
     * exhausted.  Only the bytes stored need to lie in the block.
     */
    method Fgets(buf: array<byte>, start: nat, n: nat)
      requires Valid() && 2 <= n
      requires start + ChunkLength(data, n - 1) < buf.Length
      modifies this, buf
      ensures Valid()
      ensures var k := ChunkLength(old(data), n - 1);
              && data == old(data)[k..]
              && buf[..] == Stored(old(buf[..]), start, old(data)[..k])
              && eof == (old(eof) || HitsEnd(old(data), n - 1))
    {
      ghost var a := buf[..];
      var k := ChunkLength(data, n - 1);
      forall i | 0 <= i < k {
        buf[start + i] := data[i];
      }
      if k > 0 {
        buf[start + k] := NUL;
      }
      forall i | 0 <= i < buf.Length
        ensures buf[..][i] == Stored(a, start, data[..k])[i]
      {
        StoredAt(a, start, data[..k], i);
      }
      eof := eof || HitsEnd(data, n - 1);
      data := data[k..];
    }
  }

  /**
   * The buffer after fgets stored `chunk` at `start`: the bytes followed by
   * '\0', the rest untouched; nothing changes when nothing was read.
   */
  function Stored(a: seq<byte>, start: nat, chunk: seq<byte>): (r: seq<byte>)
    requires start + |chunk| < |a|
    ensures |r| == |a|
  {
    if chunk == [] then a else a[..start] + chunk + [NUL] + a[start + |chunk| + 1..]
  }

  /** Byte `i` of the buffer after fgets: from the chunk, the '\0' after it, or as it was. */
  lemma StoredAt(a: seq<byte>, start: nat, chunk: seq<byte>, i: nat)
    requires start + |chunk| < |a| && i < |a|
    ensures Stored(a, start, chunk)[i]
            == if chunk == [] || i < start || start + |chunk| < i then a[i]
               else if i < start + |chunk| then chunk[i - start]
               else NUL
  {
  }

  /** realloc(a, size) with its result kept: a larger block holding the old bytes. */
  method Realloc(a: array<byte>, size: nat) returns (b: array<byte>)
    requires a.Length <= size
    ensures fresh(b) && b.Length == size && b[..a.Length] == a[..]
  {
    b := new byte[size];
    forall i | 0 <= i < a.Length {
      b[i] := a[i];
    }
  }

  /**
   * What read_line's buffer holds between passes: the first `len` bytes of
   * the input `d` it started from, then '\0'.
   */
  ghost predicate Holds(buf: seq<byte>, d: seq<byte>, len: nat)
  {
    && len <= |d| && len < |buf|
    && buf[..len] == d[..len] && buf[len] == NUL
  }

  /**
   * The bytes one fgets stores after the `len` the buffer held extend them,
   * and strlen finds their end.
   */
  lemma FgetsExtends(before: seq<byte>, d: seq<byte>, rest: seq<byte>, len: nat, k: nat)
    requires Holds(before, d, len) && NUL !in d && rest == d[len..]
    requires len + k <= |d| && len + k < |before|
    ensures var after := Stored(before, len, rest[..k]);
            Holds(after, d, len + k) && Strlen(after) == len + k
  {
    var chunk := rest[..k];
    var after := Stored(before, len, chunk);
    if k > 0 {
      assert after[..len + k] == before[..len] + chunk;
      assert d[..len + k] == d[..len] + chunk;
    }
    assert NUL !in d[..len + k];
    StrlenOf(after, len + k);
  }

  /** A copy into a larger block holds what the old one held. */
  lemma HoldsCopied(a: seq<byte>, b: seq<byte>, d: seq<byte>, len: nat)
    requires Holds(a, d, len) && |a| <= |b| && b[..|a|] == a
    ensures Holds(b, d, len)
  {
    assert b[..len] == b[..|a|][..len];
    assert b[len] == b[..|a|][len];
  }

  /** A '\n' with none before it ends the first line. */
  lemma FirstLineEnd(d: seq<byte>, n: nat)
    requires 0 < n <= |d| && d[n - 1] == NL && NL !in d[..n - 1]
    ensures LineEnd(d) == n
  {
  }

  /**
   * Where one fgets of at most `m` bytes leaves read_line, when the `len`
   * bytes before it held no '\n'.  `eof` is the condition under which that
   * fgets sets the end-of-file indicator.  At end of file the whole input
   * was one line without '\n'; otherwise the pass stopped at the first
   * '\n', or it filled the buffer without meeting one.
   */
  lemma ChunkOutcome(d: seq<byte>, rest: seq<byte>, len: nat, m: nat)
    requires len <= |d| && rest == d[len..] && NL !in d[..len] && 1 <= m
    ensures var k := ChunkLength(rest, m);
            var eof := HitsEnd(rest, m);
            && len + k <= |d| && rest[k..] == d[len + k..]
            && (len == |d| ==> eof)
            && (k > 0 ==> rest[k - 1] == d[len + k - 1])
            && (eof ==> len + k == LineEnd(d) && NL !in d)
            && (!eof ==> 0 < len + k)
            && (!eof && d[len + k - 1] == NL ==> len + k == LineEnd(d) && NL in d)
            && (!eof && d[len + k - 1] != NL ==> k == m && NL !in d[..len + k])
  {
    var k := ChunkLength(rest, m);
    var l := len + k;
    ChunkShape(rest, m);
    if k > 0 {
      assert d[..l - 1] == d[..len] + rest[..k - 1];
      assert d[..l] == d[..l - 1] + [d[l - 1]];
      if d[l - 1] == NL {
        FirstLineEnd(d, l);
      }
    } else {
      assert d[..l] == d[..len];
    }
    assert d == d[..l] + d[l..];
  }

  /**
   * One pass of read_line's loop: fgets into the buffer after the `len`
   * bytes it holds, offering `size - len` bytes, then `*len = strlen(*buf)`.
   * `d` is the input as read_line found it.  The bytes fgets stores must
   * lie inside the block.
   */
  method ReadChunk(s: Stdin, b: array<byte>, ghost d: seq<byte>, len: nat, size: nat) returns (len': nat)
    requires s.Valid() && NUL !in d && 2 <= size - len
    requires Holds(b[..], d, len) && s.data == d[len..]
    requires len + ChunkLength(s.data, size - len - 1) <= |d|
    requires len + ChunkLength(s.data, size - len - 1) < b.Length
    modifies s, b
    ensures s.Valid()
    ensures var k := ChunkLength(old(s.data), size - len - 1);
            && len' == len + k && Holds(b[..], d, len')
            && s.data == old(s.data)[k..]
            && s.eof == (old(s.eof) || HitsEnd(old(s.data), size - len - 1))
  {
    ghost var before := b[..];
    ghost var rest := s.data;
    ghost var k := ChunkLength(rest, size - len - 1);
    s.Fgets(b, len, size - len);
    FgetsExtends(before, d, rest, len, k);
    len' := Strlen(b[..]);
  }

  /**
   * One pass of read_line's loop followed by its exit test: the pass ends
   * the line when fgets reached end of file or stored a '\n'; otherwise it
   * filled the `size` bytes offered, so the line is longer than that.
   * Only the bytes stored need to lie in the block.
   */
  method ReadPass(s: Stdin, b: array<byte>, ghost d: seq<byte>, len: nat, size: nat) returns (len': nat, done: bool)
    requires s.Valid() && NUL !in d && 2 <= size - len
    requires Holds(b[..], d, len) && s.data == d[len..] && NL !in d[..len]
    requires len + ChunkLength(s.data, size - len - 1) < b.Length
    requires s.eof ==> d == []
    modifies s, b
    ensures s.Valid() && Holds(b[..], d, len') && s.data == d[len'..]
    ensures done ==> len' == LineEnd(d) && s.eof == (NL !in d)
    ensures !done ==> len < len' == size - 1 && NL !in d[..len'] && !s.eof
  {
    ghost var rest := s.data;
    ChunkOutcome(d, rest, len, size - len - 1);
    len' := ReadChunk(s, b, d, len, size);
    assert 0 < len' ==> b[len' - 1] == d[len' - 1] by {
      assert 0 < len' ==> b[..len'][len' - 1] == d[..len'][len' - 1];
    }
    done := s.eof || b[len' - 1] == NL;
  }

  /**
   * read_line with the pointer realloc returns kept.  The buffer ends up
   * holding the next line of input, its '\n' included when it has one,
   * followed by '\0'; `len` is its length.  The size grows by BLOCK_SIZE
   * for each pass that filled the buffer without reaching a '\n' or the
   * end of input, so it ends at most one block past what the line needs.
   * End of file is reached exactly when the line has no '\n'.
   */
  method ReadLine(s: Stdin, buf: array<byte>, bufS: nat) returns (b: array<byte>, size: nat, len: nat)
    requires s.Valid() && NUL !in s.data
    requires buf.Length == bufS && 2 <= bufS
    modifies s, buf
    ensures s.Valid() && NUL !in s.data
    ensures b == buf || fresh(b)
    ensures b.Length == size && len < size
    ensures bufS <= size && (size - bufS) % BLOCK_SIZE == 0
    ensures size == bufS || size <= len + 1 + BLOCK_SIZE
    ensures len == LineEnd(old(s.data)) && Holds(b[..], old(s.data), len)
    ensures s.data == old(s.data)[len..]
    ensures s.eof == (NL !in old(s.data))
  {
    ghost var d := s.data;
    b, size, len := buf, bufS, 0;
    b[0] := NUL;
    while true
      invariant s.Valid() && b.Length == size && 2 <= size - len
      invariant b == buf || fresh(b)
      invariant bufS <= size && (size - bufS) % BLOCK_SIZE == 0
      invariant size == bufS || size <= len + 1 + BLOCK_SIZE
      invariant Holds(b[..], d, len) && s.data == d[len..] && NL !in d[..len]
      invariant s.eof ==> d == []
      decreases |s.data|
    {
      var done;
      len, done := ReadPass(s, b, d, len, size);
      if done {
        return;
      }
      GrowByBlock(bufS, size);
      size := size + BLOCK_SIZE;
      ghost var old_b := b;
      b := Realloc(b, size);
      HoldsCopied(old_b[..], b[..], d, len);
    }
  }

  /** One more block keeps the size a whole number of blocks past where it started. */
  lemma GrowByBlock(start: nat, size: nat)
    requires start <= size && (size - start) % BLOCK_SIZE == 0
    ensures (size + BLOCK_SIZE - start) % BLOCK_SIZE == 0
  {
  }

  /**
   * read_line as written: the pointer realloc returns is dropped, so every
   * fgets writes into the block malloc gave (when realloc moves the block,
   * that one is freed).  The model stops with `overrun` at the first fgets
   * that would store a byte, or its '\0', past the end of that block.  That
   * happens exactly when the line, '\0' included, does not fit the block;
   * otherwise the outcome is the same as ReadLine's.
   */
  method ReadLineAsWritten(s: Stdin, buf: array<byte>, bufS: nat) returns (size: nat, len: nat, overrun: bool)
    requires s.Valid() && NUL !in s.data
    requires buf.Length == bufS && 2 <= bufS
    modifies s, buf
    ensures s.Valid()
    ensures overrun <==> buf.Length <= LineEnd(old(s.data))
    ensures !overrun ==>
              && len == LineEnd(old(s.data)) && Holds(buf[..], old(s.data), len)
              && s.data == old(s.data)[len..]
              && s.eof == (NL !in old(s.data))
  {
    ghost var d := s.data;
    size, len, overrun := bufS, 0, false;
    buf[0] := NUL;
    while true
      invariant s.Valid() && 2 <= size - len
      invariant Holds(buf[..], d, len) && s.data == d[len..] && NL !in d[..len]
      invariant s.eof ==> d == []
      decreases |s.data|
    {
      StoredInLine(d, len, size - len - 1);
      if buf.Length <= len + ChunkLength(s.data, size - len - 1) {
        overrun := true;
        return;
      }
      var done;
      len, done := ReadPass(s, buf, d, len, size);
      if done {
        return;
      }
      size := size + BLOCK_SIZE;
    }
  }

  /** A chunk fgets takes from the rest of the line ends within the line. */
  lemma StoredInLine(d: seq<byte>, len: nat, m: nat)
    requires len <= |d| && NL !in d[..len]
    ensures len + ChunkLength(d[len..], m) <= LineEnd(d)
  {
    ChunkShape(d[len..], m);
  }

  /**
   * main's state between lines: `consumed` is the input read so far, and
   * the output holds it without its final '\n'; a line without a '\n' is
   * the last one.
   */
  ghost predicate Joined(consumed: seq<byte>, out: seq<byte>, first: bool, rest: seq<byte>)
  {
    if first then consumed == [] && out == []
    else consumed != [] && out == Trimmed(consumed) && (consumed[|consumed| - 1] != NL ==> rest == [])
  }

  /** Writing the next line, after a '\n' unless it is the first, keeps the output joined. */
  lemma JoinStep(consumed: seq<byte>, out: seq<byte>, first: bool, d: seq<byte>, len: nat)
    requires Joined(consumed, out, first, d) && 0 < len == LineEnd(d)
    ensures Joined(consumed + d[..len], (if first then [] else out + [NL]) + Trimmed(d[..len]), false, d[len..])
  {
    var line := d[..len];
    if line[len - 1] != NL {
      assert NL !in d;
    }
    if !first {
      JoinLine(consumed, line);
    } else {
      assert consumed + line == line;
    }
  }

  /** Writing a line after a '\n' that ended the previous one joins them as the input had them. */
  lemma JoinLine(consumed: seq<byte>, line: seq<byte>)
    requires consumed != [] && consumed[|consumed| - 1] == NL && line != []
    ensures Trimmed(consumed) + [NL] + Trimmed(line) == Trimmed(consumed + line)
  {
    var a := consumed[..|consumed| - 1];
    assert consumed == a + [NL];
    TrimmedKeepsInnerNewlines(a, line);
    assert a + [NL] + line == consumed + line;
  }

  /**
   * `if (buf[len-1] == '\n') buf[len-1] = '\0';`: afterwards the string in
   * the buffer is the line without its '\n'.
   */
  method StripNewline(buf: array<byte>, len: nat, ghost d: seq<byte>)
    requires 0 < len && Holds(buf[..], d, len) && NUL !in d
    modifies buf
    ensures NUL in buf[..] && CString(buf[..]) == Trimmed(d[..len])
  {
    if buf[len - 1] == NL {
      buf[len - 1] := NUL;
      assert buf[..len - 1] == d[..len - 1];
      StrlenOf(buf[..], len - 1);
    } else {
      assert buf[..][..len] == buf[..len];
      StrlenOf(buf[..], len);
    }
  }

  /**
   * The body of main's loop once a line is read: strip its '\n', write a
   * '\n' unless it is the first line, then write the line with fputs.
   */
  method WriteLine(buf: array<byte>, len: nat, ghost d: seq<byte>, out: seq<byte>, first: bool)
    returns (out': seq<byte>)
    requires 0 < len && Holds(buf[..], d, len) && NUL !in d
    modifies buf
    ensures out' == (if first then [] else out + [NL]) + Trimmed(d[..len])
  {
    StripNewline(buf, len, d);
    out' := if first then [] else out + [NL];
    out' := out' + CString(buf[..]);
  }

  /**
   * The main loop: while end of file has not been reached, read a line,
   * stop on an empty one, drop its '\n', and write it out, preceded by a
   * '\n' unless it is the first.  The output is the input without its
   * final '\n'.
   */
  method TrimLines(input: seq<byte>) returns (out: seq<byte>)
    requires NUL !in input
    ensures out == Trimmed(input)
  {
    var s := new Stdin(input);
    var size := BLOCK_SIZE;
    var buf := new byte[size];
    var first := true;
    out := [];
    ghost var consumed: seq<byte> := [];
    while !s.eof
      invariant fresh(s) && fresh(buf)
      invariant s.Valid() && buf.Length == size && 2 <= size
      invariant input == consumed + s.data && NUL !in s.data
      invariant Joined(consumed, out, first, s.data)
      decreases |s.data|
    {
      ghost var d := s.data;
      var len;
      buf, size, len := ReadLine(s, buf, size);
      if len == 0 {
        break;
      }
      JoinStep(consumed, out, first, d, len);
      out := WriteLine(buf, len, d, out, first);
      first := false;
      Advance(input, consumed, d, len);
      consumed := consumed + d[..len];
    }
  }

  /** The input is what main has read followed by what it has not. */
  lemma Advance(input: seq<byte>, consumed: seq<byte>, d: seq<byte>, len: nat)
    requires input == consumed + d && len <= |d|
    ensures input == (consumed + d[..len]) + d[len..]
  {
    assert d == d[..len] + d[len..];
  }
}
