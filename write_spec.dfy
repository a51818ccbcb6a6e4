/**
  What a successful buffered write does to the byte stream of a handle, stated
  on values. A handle's stream is split in two: the bytes its descriptor has
  already accepted (`sent`) and the bytes waiting in its write buffer
  (`pending`). `Fill` runs the write loop of buffered_open.c on that pair: the
  buffer is flushed only when it is completely full, and each round then
  copies as much of the remaining input as fits.
 */
module WriteSpec {
  import opened Kernel

  /** Capacity of each of a handle's buffers (a build-time constant). */
  const BUFFER_SIZE: nat := 4096

  datatype Stream = Stream(sent: seq<byte>, pending: seq<byte>)

  function Min(a: nat, b: nat): nat
  {
    if a < b then a else b
  }

  /** The stream after the flush a full write buffer triggers; any other stream as it is. */
  function Flushed(s: Stream): (r: Stream)
    ensures r.sent + r.pending == s.sent + s.pending
  {
    if |s.pending| == BUFFER_SIZE then Stream(s.sent + s.pending, []) else s
  }

  /**
    The stream after writing `input` successfully: round after round, flush a
    full buffer, then copy `Min(remaining input, free space)` bytes into it.
    The buffer never overflows.
   */
  function Fill(s: Stream, input: seq<byte>): (r: Stream)
    requires |s.pending| <= BUFFER_SIZE
    ensures |r.pending| <= BUFFER_SIZE
    decreases |input|
  {
    if input == [] then s
    else
      var f := Flushed(s);
      var n := Min(|input|, BUFFER_SIZE - |f.pending|);
      Fill(Stream(f.sent, f.pending + input[..n]), input[n..])
  }

  /**
    Writing loses and reorders nothing: the bytes sent followed by the bytes
    pending are the old ones followed by the input.
   */
  lemma {:induction false} FillKeepsOrder(s: Stream, input: seq<byte>)
    requires |s.pending| <= BUFFER_SIZE
    ensures Fill(s, input).sent + Fill(s, input).pending == s.sent + s.pending + input
    decreases |input|
  {
    if input != [] {
      var f := Flushed(s);
      var n := Min(|input|, BUFFER_SIZE - |f.pending|);
      FillKeepsOrder(Stream(f.sent, f.pending + input[..n]), input[n..]);
      assert input[..n] + input[n..] == input;
    }
  }

  /**
    After a non-empty write the buffer holds between 1 and BUFFER_SIZE bytes,
    their number fixed by how many were pending and how many were written.
   */
  lemma {:induction false} FillPendingLength(s: Stream, input: seq<byte>)
    requires |s.pending| <= BUFFER_SIZE && input != []
    ensures |Fill(s, input).pending| == (|s.pending| + |input| - 1) % BUFFER_SIZE + 1
    decreases |input|
  {
    var f := Flushed(s);
    var n := Min(|input|, BUFFER_SIZE - |f.pending|);
    var next := Stream(f.sent, f.pending + input[..n]);
    if input[n..] != [] {
      FillPendingLength(next, input[n..]);
    }
  }

  /** Adding to a remainder modulo BUFFER_SIZE is adding to the number it came from. */
  lemma ModAdd(m: nat, b: nat)
    ensures ((m % BUFFER_SIZE + 1) + b - 1) % BUFFER_SIZE + 1 == (m + b) % BUFFER_SIZE + 1
  {
  }

  /** A number less its remainder modulo BUFFER_SIZE is a multiple of BUFFER_SIZE. */
  lemma LessRemainder(total: nat, left: nat)
    requires 0 < total && left == (total - 1) % BUFFER_SIZE + 1
    ensures left <= total && (total - left) % BUFFER_SIZE == 0
  {
  }

  /** Consecutive slices of a sequence join up. */
  lemma JoinSlices(s: seq<byte>, i: nat, j: nat)
    requires i <= j <= |s|
    ensures s[..i] + s[i..j] == s[..j]
  {
  }

  /** A slice within a prefix of a sequence is the same slice of the prefix. */
  lemma SliceOfPrefix(s: seq<byte>, p: nat, i: nat, j: nat)
    requires i <= j <= p <= |s|
    ensures s[i..j] == s[..p][i..j]
  {
  }

  /** Two splits of one sequence whose second parts have the same length are the same split. */
  lemma SplitUnique(x: seq<byte>, y: seq<byte>, u: seq<byte>, v: seq<byte>)
    requires x + y == u + v && |y| == |v|
    ensures x == u && y == v
  {
    assert x == (x + y)[..|x|];
    assert u == (u + v)[..|u|];
    assert y == (x + y)[|x|..];
    assert v == (u + v)[|u|..];
  }

  /** Writing `a` and then `b` keeps the same bytes in the same order as writing `a + b`. */
  lemma ComposeKeepsOrder(s: Stream, a: seq<byte>, b: seq<byte>)
    requires |s.pending| <= BUFFER_SIZE
    ensures Fill(Fill(s, a), b).sent + Fill(Fill(s, a), b).pending ==
            Fill(s, a + b).sent + Fill(s, a + b).pending
  {
    var f := Fill(s, a);
    var before := s.sent + s.pending;
    FillKeepsOrder(s, a);
    FillKeepsOrder(f, b);
    FillKeepsOrder(s, a + b);
    ConcatAssoc(before, a, b);
  }

  /** Concatenation is associative (stated apart so the solver need not find it among the `Fill` terms). */
  lemma ConcatAssoc(x: seq<byte>, y: seq<byte>, z: seq<byte>)
    ensures x + y + z == x + (y + z)
  {
  }

  /** Writing non-empty `a` and then non-empty `b` leaves as many bytes pending as writing `a + b`. */
  lemma ComposePendingLength(s: Stream, a: seq<byte>, b: seq<byte>)
    requires |s.pending| <= BUFFER_SIZE && a != [] && b != []
    ensures |Fill(Fill(s, a), b).pending| == |Fill(s, a + b).pending|
  {
    var m := |s.pending| + |a| - 1;
    var k := |Fill(s, a).pending|;
    FillPendingLength(s, a);
    FillPendingLength(Fill(s, a), b);
    FillPendingLength(s, a + b);
    ModAdd(m, |b|);
  }

  /**
    Writing `a` and then `b` leaves the same stream as writing `a + b` at once:
    where one write ends and the next begins does not matter.
   */
  lemma {:induction false} FillCompose(s: Stream, a: seq<byte>, b: seq<byte>)
    requires |s.pending| <= BUFFER_SIZE
    ensures Fill(Fill(s, a), b) == Fill(s, a + b)
  {
    if a == [] {
      assert a + b == b;
    } else if b == [] {
      assert a + b == a;
    } else {
      var r1 := Fill(Fill(s, a), b);
      var r2 := Fill(s, a + b);
      ComposeKeepsOrder(s, a, b);
      ComposePendingLength(s, a, b);
      SplitUnique(r1.sent, r1.pending, r2.sent, r2.pending);
    }
  }

  /**
    A non-empty chunk that fits in the buffer once a full buffer has been
    flushed is written in one round: flush if full, then append the chunk.
   */
  lemma FillOneChunk(s: Stream, chunk: seq<byte>)
    requires |s.pending| <= BUFFER_SIZE
    requires 0 < |chunk| <= BUFFER_SIZE - |Flushed(s).pending|
    ensures Fill(s, chunk) == Stream(Flushed(s).sent, Flushed(s).pending + chunk)
  {
  }

  /**
    One round of the write loop: once `done` has been written, flushing the
    buffer if it is full and appending a `chunk` that fits leaves the stream
    `Fill` gives for `done + chunk`.
   */
  lemma FillRound(s: Stream, done: seq<byte>, chunk: seq<byte>)
    requires |s.pending| <= BUFFER_SIZE
    requires 0 < |chunk| <= BUFFER_SIZE - |Flushed(Fill(s, done)).pending|
    ensures Fill(s, done + chunk) ==
      Stream(Flushed(Fill(s, done)).sent, Flushed(Fill(s, done)).pending + chunk)
  {
    FillOneChunk(Fill(s, done), chunk);
    FillCompose(s, done, chunk);
  }

  /**
    Writes that together fit in the free space of the buffer never reach the
    descriptor: they are appended to the pending bytes and nothing is sent.
   */
  lemma FillWithinCapacity(s: Stream, input: seq<byte>)
    requires |s.pending| + |input| <= BUFFER_SIZE
    ensures Fill(s, input) == Stream(s.sent, s.pending + input)
  {
  }

  /**
    Three successive writes on a fresh handle that together fit in the buffer
    leave all their bytes pending, in order, and send nothing.
   */
  lemma SmallWritesStayBuffered(a: seq<byte>, b: seq<byte>, c: seq<byte>)
    requires |a| + |b| + |c| <= BUFFER_SIZE
    ensures Fill(Fill(Fill(Stream([], []), a), b), c) == Stream([], a + b + c)
  {
    var empty := Stream([], []);
    FillCompose(empty, a, b);
    FillCompose(empty, a + b, c);
    FillWithinCapacity(empty, a + b + c);
  }

  /**
    The descriptor is only ever handed whole buffers: the bytes a write sends
    are a multiple of BUFFER_SIZE, and they are the oldest bytes of the stream.
   */
  lemma SentInWholeBuffers(s: Stream, input: seq<byte>)
    requires |s.pending| <= BUFFER_SIZE
    ensures |Fill(s, input).sent| >= |s.sent|
    ensures (|Fill(s, input).sent| - |s.sent|) % BUFFER_SIZE == 0
    ensures Fill(s, input).sent <= s.sent + s.pending + input
  {
    var r := Fill(s, input);
    var total := |s.pending| + |input|;
    FillKeepsOrder(s, input);
    assert |r.sent| - |s.sent| == total - |r.pending|;
    if input != [] {
      FillPendingLength(s, input);
      LessRemainder(total, |r.pending|);
    }
    assert r.sent <= r.sent + r.pending;
  }

  /**
    Writing 3 * BUFFER_SIZE + 1 bytes to a fresh handle sends the first three
    full buffers to the descriptor and leaves only the last byte pending.
   */
  lemma {:induction false} LargeWriteOnFreshHandle(input: seq<byte>)
    requires |input| == 3 * BUFFER_SIZE + 1
    ensures Fill(Stream([], []), input) == Stream(input[..3 * BUFFER_SIZE], [input[3 * BUFFER_SIZE]])
  {
    var empty := Stream([], []);
    var r := Fill(empty, input);
    var head, last := input[..3 * BUFFER_SIZE], [input[3 * BUFFER_SIZE]];
    assert |r.pending| == 1 by {
      FillPendingLength(empty, input);
    }
    assert r.sent + r.pending == head + last by {
      FillKeepsOrder(empty, input);
      assert empty.sent + empty.pending + input == input;
      assert input == head + last;
    }
    SplitUnique(r.sent, r.pending, head, last);
  }
}
