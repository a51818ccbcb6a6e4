/**
  A buffered-file handle over a raw descriptor (buffered_open.c). Opening
  decodes the layer's own O_PREAPPEND bit out of the open flags and sets up the
  handle; writing copies the caller's bytes into a fixed-capacity write buffer,
  flushing it only when it is completely full; flushing drains the buffer to
  the descriptor with a partial-write loop. Reading and closing are stubs that
  always fail.

  A C null pointer is a `null` reference here, which is why the operations are
  module-level methods taking a `BufferedFile?` rather than methods of the class.
 */
module BufferedOpen {
  import opened Kernel
  import opened WriteSpec

  /** The layer's own open flag selecting preappend mode; it is never passed to open(2). */
  const O_PREAPPEND: bv32 := 0x0200_0000
  /** open(2) flags that call for a permission-bits argument (Linux values). */
  const O_CREAT: bv32 := 0x40
  /** Linux's O_TMPFILE is its own bit together with O_DIRECTORY. */
  const O_TMPFILE: bv32 := 0x41_0000
  const O_DIRECTORY: bv32 := 0x1_0000

  /**
    The `last_operation` code of a handle: 0 (none yet) or 2 (write), the
    only codes buffered_open.c ever stores.
   */
  datatype LastOperation = NoOperation | Writing

  /** Whether open flags ask for preappend mode: the bit is among them, and stripping it changes them. */
  function HasPreappend(flags: bv32): (r: bool)
    ensures r == (flags | O_PREAPPEND == flags)
    ensures r == (StripPreappend(flags) != flags)
  {
    flags & O_PREAPPEND != 0
  }

  /** The flags with the O_PREAPPEND bit cleared and every other bit kept. */
  function StripPreappend(flags: bv32): (r: bv32)
    ensures r & O_PREAPPEND == 0
    ensures r | (flags & O_PREAPPEND) == flags
  {
    flags & !O_PREAPPEND
  }

  /**
    The permission bits buffered_open hands to open(2), as its test is
    written: the caller's variadic argument whenever any bit of
    O_CREAT | O_TMPFILE is set. O_DIRECTORY alone is such a bit, so the
    argument is then read although open(2) takes none.
   */
  function ModeArgumentAsWritten(flags: bv32, mode: bv32): (r: bv32)
    ensures flags & O_CREAT != 0 ==> r == mode
    ensures flags & O_DIRECTORY != 0 ==> r == mode
    ensures flags & O_TMPFILE != 0 ==> r == mode
    ensures flags & (O_CREAT | O_TMPFILE) == 0 ==> r == 0
  {
    if flags & (O_CREAT | O_TMPFILE) != 0 then mode else 0
  }

  /** Whether open(2) takes a permission-bits argument: O_CREAT is set, or all of O_TMPFILE. */
  predicate NeedsMode(flags: bv32)
  {
    flags & O_CREAT != 0 || flags & O_TMPFILE == O_TMPFILE
  }

  /**
    The permission bits handed to open(2): the caller's when open(2) takes
    them, else 0. This is the test evidently intended, and the one the model
    of buffered_open uses.
   */
  function ModeArgument(flags: bv32, mode: bv32): (r: bv32)
    ensures flags & O_CREAT != 0 ==> r == mode
    ensures flags & O_TMPFILE == O_TMPFILE ==> r == mode
    ensures flags & O_CREAT == 0 && flags & O_TMPFILE == O_DIRECTORY ==> r == 0
    ensures flags & O_CREAT == 0 && flags & O_TMPFILE != O_TMPFILE ==> r == 0
  {
    if NeedsMode(flags) then mode else 0
  }

  /**
    The intended test reads the argument only where the written one does,
    and the two agree whenever the flags hold all of O_TMPFILE's bits or
    none of them: they differ only on part of O_TMPFILE without O_CREAT.
   */
  lemma ModeArgumentAgrees(flags: bv32, mode: bv32)
    ensures NeedsMode(flags) ==> ModeArgument(flags, mode) == ModeArgumentAsWritten(flags, mode)
    ensures flags & O_TMPFILE == 0 || flags & O_TMPFILE == O_TMPFILE ==>
      ModeArgument(flags, mode) == ModeArgumentAsWritten(flags, mode)
  {
  }

  /** O_DIRECTORY alone: the written test reads a mode argument that the intended one does not. */
  lemma DirectoryAloneReadsMode(mode: bv32)
    requires mode != 0
    ensures ModeArgumentAsWritten(O_DIRECTORY, mode) == mode
    ensures ModeArgument(O_DIRECTORY, mode) == 0
  {
  }

  /** Decoding open flags loses nothing: the stripped flags plus the preappend bit give back the flags. */
  lemma DecodePreappend(flags: bv32)
    ensures HasPreappend(flags) ==> StripPreappend(flags) | O_PREAPPEND == flags
    ensures !HasPreappend(flags) ==> StripPreappend(flags) == flags
  {
  }

  /** Flags without the O_PREAPPEND bit, with the bit added or not, decode to exactly that choice and those flags. */
  lemma EncodePreappend(flags: bv32, preappend: bool)
    requires flags & O_PREAPPEND == 0
    ensures HasPreappend(if preappend then flags | O_PREAPPEND else flags) == preappend
    ensures StripPreappend(if preappend then flags | O_PREAPPEND else flags) == flags
  {
  }

  /** Whether descriptor `fd` is the only one whose accepted bytes may differ between two states. */
  ghost predicate OnlyFdWritten(before: map<int, seq<byte>>, after: map<int, seq<byte>>, fd: int)
  {
    && before.Keys == after.Keys
    && forall f :: f in before && f != fd ==> after[f] == before[f]
  }

  /** Every field of a handle that writing and flushing leave as they are. */
  datatype HandleSettings = HandleSettings(
    readBuffer: array<byte>, writeBuffer: array<byte>,
    readBufferSize: int, writeBufferSize: int, readBufferPos: int,
    preappend: bool, flags: bv32, fileOffset: int, fd: int)

  class BufferedFile {
    var readBuffer: array<byte>
    var writeBuffer: array<byte>
    var readBufferSize: int
    var writeBufferSize: int
    var readBufferPos: int
    var writeBufferPos: int
    var preappend: bool
    /** The open flags with O_PREAPPEND cleared, as passed to open(2). */
    var flags: bv32
    var lastOperation: LastOperation
    var fileOffset: int
    /** The descriptor, -1 while there is none. */
    var fd: int

    ghost predicate Valid()
      reads this
    {
      && readBuffer != writeBuffer
      && readBuffer.Length == BUFFER_SIZE && writeBuffer.Length == BUFFER_SIZE
      && readBufferSize == BUFFER_SIZE && writeBufferSize == BUFFER_SIZE
      && 0 <= readBufferPos <= readBufferSize
      && 0 <= writeBufferPos <= writeBufferSize
    }

    /** The bytes waiting in the write buffer. */
    ghost function Pending(): seq<byte>
      reads this`writeBuffer, this`writeBufferPos, writeBuffer
      requires 0 <= writeBufferPos <= writeBuffer.Length
    {
      writeBuffer[..writeBufferPos]
    }

    /** The bytes the descriptor has accepted from this handle. */
    ghost function Sent(os: Os): seq<byte>
      reads this`fd, os`files
    {
      Accepted(os.files, fd)
    }

    ghost function StreamOf(os: Os): Stream
      reads this`writeBuffer, this`writeBufferPos, writeBuffer, this`fd, os`files
      requires 0 <= writeBufferPos <= writeBuffer.Length
    {
      Stream(Sent(os), Pending())
    }

    function Settings(): HandleSettings
      reads this
    {
      HandleSettings(readBuffer, writeBuffer, readBufferSize, writeBufferSize, readBufferPos,
                     preappend, flags, fileOffset, fd)
    }

    /** A handle with both buffers empty, no operation yet, and no descriptor. */
    constructor (openFlags: bv32)
      ensures Valid() && fresh(readBuffer) && fresh(writeBuffer)
      ensures readBufferPos == 0 && writeBufferPos == 0
      ensures preappend == HasPreappend(openFlags) && flags == StripPreappend(openFlags)
      ensures lastOperation == NoOperation && fileOffset == 0 && fd == -1
    {
      readBuffer := new byte[BUFFER_SIZE];
      writeBuffer := new byte[BUFFER_SIZE];
      readBufferSize := BUFFER_SIZE;
      writeBufferSize := BUFFER_SIZE;
      readBufferPos := 0;
      writeBufferPos := 0;
      preappend := HasPreappend(openFlags);
      flags := StripPreappend(openFlags);
      lastOperation := NoOperation;
      fileOffset := 0;
      fd := -1;
    }

    /**
      The drain loop of buffered_flush, on a handle with a descriptor. An
      empty buffer is left alone and 0 returned. Otherwise the buffered bytes
      are handed to write(2) from where the last call stopped until all are
      accepted; then the buffer is emptied and 0 returned. If a write fails,
      -1 is returned and the buffer kept, the descriptor having accepted only
      a proper prefix of it.
     */
    method Drain(os: Os) returns (r: int)
      requires Valid() && os.Valid() && fd != -1
      modifies os, this`writeBufferPos
      ensures Valid() && os.Valid() && os.requests == old(os.requests)
      ensures OnlyFdWritten(old(os.files), os.files, fd)
      ensures r == 0 || r == -1
      ensures old(writeBufferPos) == 0 ==> r == 0 && os.files == old(os.files) && writeBufferPos == 0
      ensures r == 0 ==> writeBufferPos == 0 && Sent(os) == old(Sent(os)) + old(Pending())
      ensures r == -1 ==>
        && writeBufferPos == old(writeBufferPos)
        && |old(Sent(os))| <= |Sent(os)| < |old(Sent(os))| + writeBufferPos
        && Sent(os) == old(Sent(os)) + Pending()[..|Sent(os)| - |old(Sent(os))|]
    {
      if writeBufferPos == 0 {
        return 0;
      }
      ghost var pending := Pending();
      ghost var sent := Sent(os);
      var total := 0;
      while total < writeBufferPos
        modifies os
        invariant os.Valid() && os.requests == old(os.requests)
        invariant 0 <= total <= writeBufferPos && writeBuffer[..writeBufferPos] == pending
        invariant Sent(os) == sent + pending[..total]
        invariant OnlyFdWritten(old(os.files), os.files, fd)
      {
        ghost var sentSoFar := Sent(os);
        var written := os.Write(fd, writeBuffer, total, writeBufferPos - total);
        if written == -1 {
          return -1;
        }
        assert Sent(os) == sentSoFar + writeBuffer[total..total + written];
        SliceOfPrefix(writeBuffer[..], writeBufferPos, total, total + written);
        JoinSlices(pending, total, total + written);
        total := total + written;
      }
      assert pending[..total] == pending;
      writeBufferPos := 0;
      return 0;
    }

    /** memcpy of `n` source bytes to the end of the pending bytes, which it extends by them. */
    method CopyIn(buf: array<byte>, from: nat, n: nat)
      requires Valid() && buf != writeBuffer
      requires from + n <= buf.Length && writeBufferPos + n <= writeBufferSize
      modifies this`writeBufferPos, writeBuffer
      ensures Valid()
      ensures writeBufferPos == old(writeBufferPos) + n
      ensures Pending() == old(Pending()) + old(buf[from..from + n])
    {
      forall i | 0 <= i < n {
        writeBuffer[writeBufferPos + i] := buf[from + i];
      }
      writeBufferPos := writeBufferPos + n;
    }

    /**
      The flush check at the top of each round of buffered_write's loop: a
      full buffer is flushed (buffered_flush's own checks pass, as the handle
      exists and has a descriptor), anything else is left alone. On success
      the stream is `Flushed` of the old one and the buffer has free space; on
      failure the full buffer is kept and the descriptor has accepted a proper
      prefix of it.
     */
    method MakeRoom(os: Os) returns (ok: bool)
      requires Valid() && os.Valid() && fd != -1
      modifies os, this`writeBufferPos
      ensures Valid() && os.Valid() && os.requests == old(os.requests)
      ensures OnlyFdWritten(old(os.files), os.files, fd)
      ensures old(writeBufferPos) < writeBufferSize ==> ok && unchanged(os, this)
      ensures ok ==> writeBufferPos < writeBufferSize && StreamOf(os) == Flushed(old(StreamOf(os)))
      ensures !ok ==>
        && old(writeBufferPos) == writeBufferSize && writeBufferPos == old(writeBufferPos)
        && |old(Sent(os))| <= |Sent(os)| < |old(Sent(os))| + writeBufferPos
        && Sent(os) == (old(Sent(os)) + old(Pending()))[..|Sent(os)|]
    {
      if writeBufferSize - writeBufferPos == 0 {
        var flushed := Drain(os);
        if flushed == -1 {
          return false;
        }
      }
      return true;
    }

    /**
      One round of buffered_write's loop, `from` bytes of the `count` having
      been copied: the flush check, then a copy of Min(remaining input, free
      space) bytes, which is never nothing, and a write recorded as the last
      operation. When the flush fails nothing is copied and the last operation
      is kept.
     */
    method Round(os: Os, buf: array<byte>, from: nat, count: nat, ghost input: seq<byte>)
        returns (ok: bool, toCopy: nat)
      requires Valid() && os.Valid() && fd != -1
      requires from < count <= buf.Length && buf != writeBuffer && input == buf[..count]
      modifies os, this`writeBufferPos, this`lastOperation, writeBuffer
      ensures Valid() && os.Valid() && os.requests == old(os.requests)
      ensures OnlyFdWritten(old(os.files), os.files, fd)
      ensures ok ==>
        var ready := Flushed(old(StreamOf(os)));
        && toCopy == Min(count - from, BUFFER_SIZE - |ready.pending|) && 0 < toCopy
        && StreamOf(os) == Stream(ready.sent, ready.pending + input[from..from + toCopy])
        && lastOperation == Writing
      ensures !ok ==>
        && old(writeBufferPos) == writeBufferSize && Pending() == old(Pending())
        && |old(Sent(os))| <= |Sent(os)| < |old(Sent(os))| + writeBufferPos
        && Sent(os) == (old(Sent(os)) + old(Pending()))[..|Sent(os)|]
        && lastOperation == old(lastOperation)
    {
      var remaining := count - from;
      ok := MakeRoom(os);
      if !ok {
        return false, 0;
      }
      var space := writeBufferSize - writeBufferPos;
      toCopy := remaining;
      if toCopy > space {
        toCopy := space;
      }
      CopyIn(buf, from, toCopy);
      assert input[from..from + toCopy] == old(buf[from..from + toCopy]);
      lastOperation := Writing;
    }

    /**
      The fill/flush loop of buffered_write, for a non-empty write on a handle
      with a descriptor. Each round flushes the buffer if it is full, then
      copies Min(remaining input, free space) bytes to the end of the pending
      bytes and records a write as the last operation. It returns `count`,
      the stream being `Fill` of the old stream and the input. When a flush
      fails after `t` bytes were copied it returns `t` if `t > 0` and -1
      otherwise: the buffer then holds the full buffer `Fill` leaves after
      those `t` bytes, of which the descriptor accepted a proper prefix.
     */
    method Append(os: Os, buf: array<byte>, count: nat) returns (r: int)
      requires Valid() && os.Valid() && fd != -1
      requires 0 < count <= buf.Length && buf != writeBuffer
      modifies os, this`writeBufferPos, this`lastOperation, writeBuffer
      ensures Valid() && os.Valid() && os.requests == old(os.requests)
      ensures OnlyFdWritten(old(os.files), os.files, fd)
      ensures r == count || r == -1 || 0 < r < count
      ensures r == count ==>
        StreamOf(os) == Fill(old(StreamOf(os)), old(buf[..count])) && lastOperation == Writing
      ensures r != count ==>
        var t := if r == -1 then 0 else r;
        var mid := Fill(old(StreamOf(os)), old(buf[..t]));
        && |mid.pending| == BUFFER_SIZE && Pending() == mid.pending
        && |mid.sent| <= |Sent(os)| < |mid.sent| + BUFFER_SIZE
        && Sent(os) == (mid.sent + mid.pending)[..|Sent(os)|]
        && lastOperation == (if t > 0 then Writing else old(lastOperation))
    {
      ghost var start := StreamOf(os);
      ghost var input := buf[..count];
      var total := 0;
      while total < count
        invariant Valid() && os.Valid() && os.requests == old(os.requests)
        invariant 0 <= total <= count && buf[..count] == input
        invariant StreamOf(os) == Fill(start, input[..total])
        invariant OnlyFdWritten(old(os.files), os.files, fd)
        invariant lastOperation == if total > 0 then Writing else old(lastOperation)
      {
        ghost var done := input[..total];
        var ok, toCopy := Round(os, buf, total, count, input);
        if !ok {
          assert done == old(buf[..total]);
          return if total > 0 then total else -1;
        }
        ghost var chunk := input[total..total + toCopy];
        FillRound(start, done, chunk);
        JoinSlices(input, total, total + toCopy);
        total := total + toCopy;
      }
      assert input[..total] == input;
      return total;
    }
  }

  /**
    buffered_open: null when allocation fails (nothing is opened then) or when
    open(2) fails; otherwise a fresh handle with empty buffers of BUFFER_SIZE
    bytes, no operation yet and offset 0, its preappend mode taken from the
    O_PREAPPEND bit, on a descriptor newly opened with the flags stripped of
    that bit.
   */
  method Open(os: Os, path: string, flags: bv32, mode: bv32) returns (bf: BufferedFile?)
    requires os.Valid()
    modifies os
    ensures os.Valid()
    ensures bf == null ==> os.files == old(os.files) && os.requests == old(os.requests)
    ensures bf != null ==>
      && fresh(bf) && fresh(bf.readBuffer) && fresh(bf.writeBuffer) && bf.Valid()
      && bf.readBufferPos == 0 && bf.writeBufferPos == 0
      && bf.readBufferSize == BUFFER_SIZE && bf.writeBufferSize == BUFFER_SIZE
      && bf.preappend == HasPreappend(flags) && bf.flags == StripPreappend(flags)
      && bf.lastOperation == NoOperation && bf.fileOffset == 0
      && bf.fd != -1 && bf.fd !in old(os.files)
      && os.files == old(os.files)[bf.fd := []]
      && os.requests == old(os.requests)[bf.fd := OpenRequest(path, StripPreappend(flags), ModeArgument(flags, mode))]
  {
    if * {
      // malloc of the handle or of one of its buffers failed
      return null;
    }
    bf := new BufferedFile(flags);
    var fd := os.Open(path, bf.flags, ModeArgument(flags, mode));
    if fd == -1 {
      return null;
    }
    bf.fd := fd;
  }

  /** buffered_read is not implemented: it always fails. */
  method Read(bf: BufferedFile?, buf: array?<byte>, count: nat) returns (r: int)
    ensures r == -1
  {
    r := -1;
  }

  /**
    buffered_flush: -1 on a null handle or one without a descriptor, with no
    effect; otherwise the drain loop (BufferedFile.Drain).
   */
  method Flush(os: Os, bf: BufferedFile?) returns (r: int)
    requires os.Valid()
    requires bf != null ==> bf.Valid()
    modifies os, bf
    ensures os.Valid() && os.requests == old(os.requests)
    ensures r == 0 || r == -1
    ensures bf == null || bf.fd == -1 ==>
      r == -1 && os.files == old(os.files) && (bf != null ==> unchanged(bf))
    ensures bf != null && bf.fd != -1 ==>
      && bf.Valid() && bf.Settings() == old(bf.Settings())
      && bf.lastOperation == old(bf.lastOperation)
      && OnlyFdWritten(old(os.files), os.files, bf.fd)
      && (old(bf.writeBufferPos) == 0 ==> r == 0 && os.files == old(os.files) && bf.writeBufferPos == 0)
      && (r == 0 ==> bf.writeBufferPos == 0 && bf.Sent(os) == old(bf.Sent(os)) + old(bf.Pending()))
      && (r == -1 ==>
            && bf.writeBufferPos == old(bf.writeBufferPos)
            && |old(bf.Sent(os))| <= |bf.Sent(os)| < |old(bf.Sent(os))| + bf.writeBufferPos
            && bf.Sent(os) == old(bf.Sent(os)) + bf.Pending()[..|bf.Sent(os)| - |old(bf.Sent(os))|])
  {
    if bf == null || bf.fd == -1 {
      return -1;
    }
    r := bf.Drain(os);
  }

  /**
    buffered_write: 0 with no effect when `count` is 0, even on a null handle
    or source; -1 with no effect on a null handle, a null source or a handle
    without a descriptor; otherwise the fill/flush loop (BufferedFile.Append).
   */
  method Write(os: Os, bf: BufferedFile?, buf: array?<byte>, count: nat) returns (r: int)
    requires os.Valid()
    requires bf != null ==> bf.Valid()
    requires buf != null ==> count <= buf.Length
    requires bf != null && buf != null ==> buf != bf.writeBuffer
    modifies os, bf, if bf != null then {bf.writeBuffer} else {}
    ensures os.Valid() && os.requests == old(os.requests)
    ensures count == 0 || bf == null || buf == null || bf.fd == -1 ==>
      && r == (if count == 0 then 0 else -1)
      && os.files == old(os.files)
      && (bf != null ==> unchanged(bf) && unchanged(bf.writeBuffer))
    ensures count > 0 && bf != null && buf != null && bf.fd != -1 ==>
      && bf.Valid() && bf.Settings() == old(bf.Settings())
      && OnlyFdWritten(old(os.files), os.files, bf.fd)
      && (r == count || r == -1 || 0 < r < count)
      && (r == count ==>
            && bf.StreamOf(os) == Fill(old(bf.StreamOf(os)), buf[..count])
            && bf.lastOperation == Writing)
      && (r != count ==>
            var t := if r == -1 then 0 else r;
            var mid := Fill(old(bf.StreamOf(os)), buf[..t]);
            && |mid.pending| == BUFFER_SIZE && bf.Pending() == mid.pending
            && |mid.sent| <= |bf.Sent(os)| < |mid.sent| + BUFFER_SIZE
            && bf.Sent(os) == (mid.sent + mid.pending)[..|bf.Sent(os)|]
            && bf.lastOperation == (if t > 0 then Writing else old(bf.lastOperation)))
  {
    if bf == null || buf == null || bf.fd == -1 {
      if count == 0 {
        return 0;
      }
      return -1;
    }
    if count == 0 {
      return 0;
    }
    r := bf.Append(os, buf, count);
  }

  /** buffered_close is not implemented: it always fails, flushing and releasing nothing. */
  method Close(bf: BufferedFile?) returns (r: int)
    ensures r == -1
  {
    r := -1;
  }
}
