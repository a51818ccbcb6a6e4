# Buffered file I/O over raw descriptors

This project models `buffered_open.c`, a user-space buffered-I/O layer that
sits on raw file descriptors. A `buffered_file_t` handle owns a descriptor, a
read buffer and a write buffer of `BUFFER_SIZE` bytes each, a preappend flag,
the open flags, a last-operation code and a file offset.

- `buffered_open` reads the variadic permission bits whenever any bit of
  `O_CREAT | O_TMPFILE` is set (Linux's `O_TMPFILE` includes `O_DIRECTORY`;
  see Findings), allocates the handle and both buffers, and initialises every field.
  It takes the layer's own `O_PREAPPEND` bit out of the flags and records it
  as the preappend mode. It then opens the descriptor with the stripped
  flags. It yields null when an allocation or `open(2)` fails.
- `buffered_write` copies the caller's bytes into the write buffer. It
  flushes the buffer only when the buffer is completely full. A flush failure
  ends the call: it returns the number of bytes copied so far, or -1 when none
  were.
- `buffered_flush` hands the pending bytes to `write(2)` in a loop, resuming
  after every partial write. On success it empties the buffer; on any write
  error it returns -1 and keeps the whole buffer, including the bytes the
  descriptor already accepted. A later successful flush hands all of them
  over again, so those bytes reach the descriptor twice: the stream's "sent
  followed by pending is everything written" holds only until a flush fails,
  which is why the failure cases of `Drain` and `Append` are stated on
  their own.
- `buffered_read` and `buffered_close` are unimplemented stubs that return -1.

The model is in three modules:

- `Kernel` (kernel.dfy) models the operating system as the layer sees it. An
  `Os` object holds, per open descriptor, every byte `write(2)` has accepted
  and the request that opened it. Its `Open` and `Write` are
  nondeterministic: `open(2)` fails or hands out an unused descriptor.
  `write(2)` fails without effect or accepts a non-empty prefix of what it is
  offered.
- `WriteSpec` (write_spec.dfy) is the reference definition of a successful
  write. It works on a `Stream`: the bytes already accepted by the descriptor
  (`sent`) and the bytes waiting in the buffer (`pending`). `Fill` runs the
  write loop's rounds on that value, and lemmas prove what the loop
  guarantees.
- `BufferedOpen` (buffered_open.dfy) holds the handle. It is a class whose
  fields are the C struct's fields, updated in place. The write buffer is an
  array.
  - The loops are class methods. `Append`, the fill loop, is proved against
    `Fill`; `Drain`, the flush loop, is proved to send exactly the pending
    bytes.
  - The API functions are module-level methods taking a nullable handle, so
    the null checks of the C code are modelled: `Open`, `Write`, `Flush`,
    `Read` and `Close`.

Behaviour that `buffered_open.c` does not implement, though its comments or
tests expect it, is not in the model:

- `buffered_write` does no read-to-write mode switch.
- Flushing does not retry on EINTR and does not advance `file_offset`.
- Preappend mode does not change how the buffer is flushed.
- Reading is not implemented.
- Closing neither flushes nor releases anything; it returns -1 even for a
  null handle.

`buffered_open.h` is not part of this model. It defines `BUFFER_SIZE`,
`O_PREAPPEND` and the handle struct. The model takes `BUFFER_SIZE = 4096` and
`O_PREAPPEND = 0x02000000`, a bit that no Linux open flag uses. `O_CREAT` and
`O_TMPFILE` have their Linux values. Every proof depends only on
`BUFFER_SIZE` being positive, except the concrete test scenarios.

## Model

| member | source | states |
|---|---|---|
| BufferedOpen.HasPreappend | buffered_open.c:53 | preappend mode is on exactly when the O_PREAPPEND bit is among the flags, that is, when stripping it changes them |
| BufferedOpen.ModeArgumentAsWritten | buffered_open.c:15-21 | the C test as written: the caller's mode is read whenever O_CREAT is set or any bit of O_TMPFILE is, so also for O_DIRECTORY alone and for O_TMPFILE's own bit alone; 0 when no bit of O_CREAT or O_TMPFILE is set |
| BufferedOpen.ModeArgument | buffered_open.c:15-21 | the corrected test: the caller's mode when O_CREAT is set or all of O_TMPFILE is, and 0 otherwise (in particular for plain flags, for O_DIRECTORY without O_CREAT, and for part of O_TMPFILE) |
| BufferedOpen.ModeArgumentAgrees | buffered_open.c:15-21 | the corrected test reads the mode only where the written one does, and the two agree on every flags value holding all or none of O_TMPFILE's bits |
| BufferedOpen.DirectoryAloneReadsMode | buffered_open.c:16 | with O_DIRECTORY alone, the written test reads a mode argument that the corrected one does not |
| BufferedOpen.StripPreappend | buffered_open.c:53-54 | the stored flags have the O_PREAPPEND bit clear, and every other bit of the caller's flags is kept |
| BufferedOpen.DecodePreappend | buffered_open.c:53-54 | the preappend flag and the stripped flags together give back the caller's flags: adding the bit back when preappend is set, and unchanged otherwise |
| BufferedOpen.EncodePreappend | buffered_open.c:53-54 | for any flags without the bit, adding the bit or not is decoded back as exactly that choice of preappend mode, with exactly those flags |
| BufferedOpen.BufferedFile.constructor | buffered_open.c:46-58 | a new handle has both buffers of BUFFER_SIZE bytes with position 0, preappend set iff the bit is in the flags, the flags stripped of the bit, last operation 0 and offset 0 |
| BufferedOpen.Open | buffered_open.c:13-70 | on an allocation or open(2) failure: null, and no descriptor is opened. Otherwise: a fresh handle, initialised as the constructor states, on a descriptor that was not open before. The descriptor was opened with the stripped flags, and with ModeArgument's mode: the caller's only when O_CREAT or all of O_TMPFILE is set, else 0 |
| BufferedOpen.Read | buffered_open.c:72-75 | always returns -1 |
| BufferedOpen.Write | buffered_open.c:77-120 | count 0 returns 0 with no effect, even on a null handle or source. A null handle, a null source or fd -1 returns -1 with no effect. Otherwise the handle's settings are kept, no other descriptor is written, and the result is that of Append |
| BufferedOpen.BufferedFile.Append | buffered_open.c:85-119 | returns count, -1, or a partial count between 0 and count. On count, the stream is Fill of the old stream and the input, and the last operation is write. On a flush failure after t bytes were copied: the buffer holds the full buffer Fill leaves after those t bytes, and the descriptor has accepted a proper prefix of it. The result is t if t > 0, else -1. The last operation is write only if t > 0 |
| BufferedOpen.BufferedFile.Round | buffered_open.c:89-116 | one round: on success it copies Min(remaining, free space after the flush check) > 0 bytes, appended to the flushed pending bytes, and sets the last operation to write. On a flush failure the full buffer is kept, the descriptor has accepted a proper prefix of it, and the last operation is unchanged |
| BufferedOpen.BufferedFile.MakeRoom | buffered_open.c:93-101 | a buffer with free space is left alone. A full buffer is flushed: on success the stream is Flushed of the old one. On failure the buffer is kept and the descriptor has accepted a proper prefix of it |
| BufferedOpen.BufferedFile.CopyIn | buffered_open.c:109-111 | the pending bytes are extended by exactly the source bytes from `from` to `from + n`, and the position advances by n |
| BufferedOpen.Flush | buffered_open.c:122-128 | a null handle or fd -1 returns -1 with no effect. Otherwise the handle's settings and last operation are kept and the result is that of Drain |
| BufferedOpen.BufferedFile.Drain | buffered_open.c:129-147 | an empty buffer returns 0 with nothing written. On success: returns 0, the descriptor has accepted exactly the old pending bytes after what it had, and the position is 0. On a write error: returns -1, the position is unchanged and the descriptor has accepted a proper prefix of the pending bytes. No other descriptor is written |
| BufferedOpen.Close | buffered_open.c:150-153 | always returns -1 |
| Kernel.Os.Open | buffered_open.c:61-62 | open(2) as the layer relies on it: -1 with no effect, or an unused descriptor on which nothing has been written yet |
| Kernel.Os.Write | buffered_open.c:135-141 | write(2) as the layer relies on it: -1 with no effect (always so on a descriptor that is not open), or between 1 and n of the offered bytes accepted after the earlier ones |
| WriteSpec.Flushed | buffered_open.c:93-101 | the flush check loses and reorders no byte |
| WriteSpec.Fill | buffered_open.c:88-117 | the rounds of the write loop never overflow the buffer |
| WriteSpec.FillKeepsOrder | buffered_open.c:88-117 | a write loses and reorders nothing: sent bytes followed by pending bytes are the old ones followed by the input |
| WriteSpec.FillPendingLength | buffered_open.c:93-112 | after a non-empty write, (old pending + input - 1) mod BUFFER_SIZE + 1 bytes are pending, which is between 1 and BUFFER_SIZE: the buffer is never left empty or flushed early |
| WriteSpec.ComposeKeepsOrder | buffered_open.c:88-117 | two successive writes keep the same bytes in the same order as one write of both |
| WriteSpec.ComposePendingLength | buffered_open.c:93-112 | two successive non-empty writes leave as many bytes pending as one write of both |
| WriteSpec.FillCompose | buffered_open.c:88-117 | writing a then b leaves the same stream as writing a + b at once |
| WriteSpec.FillOneChunk | buffered_open.c:93-116 | a chunk that fits after the flush check is written in one round: flush if full, then append it |
| WriteSpec.FillRound | buffered_open.c:89-116 | one loop round extends the stream Fill gives for the bytes already written to the stream Fill gives for those bytes and the chunk |
| WriteSpec.FillWithinCapacity | buffered_open.c:93-100 | writes that fit in the free space only append to the pending bytes and send nothing |
| WriteSpec.SmallWritesStayBuffered | test_write.c:117-131 | three writes on a fresh handle that together fit in the buffer leave all their bytes pending, in order, and send nothing |
| WriteSpec.SentInWholeBuffers | buffered_open.c:93-100 | a write only ever sends whole buffers, a multiple of BUFFER_SIZE bytes, and they are the oldest bytes of the stream |
| WriteSpec.LargeWriteOnFreshHandle | test_write.c:78-103 | writing 3 * BUFFER_SIZE + 1 bytes on a fresh handle sends the first three full buffers and leaves only the last byte pending |

## Left out

- `buffered_open.h` is not part of this model. `BUFFER_SIZE` and `O_PREAPPEND` take the values chosen above, and the struct's fields are taken from their uses in `buffered_open.c`.
- `errno`, `perror` and their messages are left out: they are output only and change no state the model has.
- BufferedOpen.Open: open(2) is given the corrected mode of `ModeArgument`, not the C code's. With `O_DIRECTORY` alone and a third argument present, the C code passes the caller's mode where the model passes 0; with no third argument the C behaviour is undefined and has no counterpart here (see Findings).
- The variadic mode argument of `buffered_open` is left out. The mode is an explicit parameter, used as `ModeArgument` selects it; reading an argument the caller never passed has no counterpart in the model.
- A `malloc` failure is a nondeterministic choice. The handle and its two buffers are modelled as allocated together, and `free` is not modelled, since Dafny is garbage collected.
- File contents and the descriptor's cursor are left out. A descriptor is modelled only as the sequence of bytes it has accepted, which is all the write path can observe.
- Kernel.Os.Write: a `write(2)` that returns 0 is not modelled. On it, the flush loop of the C code would spin forever.
- The read buffer's contents are left out, because no modelled operation reads or writes them.
- `file_offset` is only initialised: no operation of `buffered_open.c` changes it.
- The preappend flush, the read path, closing, the mode switch between reading and writing, and EINTR retries are left out. `buffered_open.c` does not implement them: `buffered_read` and `buffered_close` are stubs, and flushing ignores the preappend flag.
- Writes whose source overlaps the handle's own write buffer are excluded by a precondition, because `memcpy` on overlapping memory is undefined.
- Integer widths are left out: `count`, the positions and the results are unbounded integers. A `count` above `SSIZE_MAX`, whose result would not fit the `ssize_t` return type, is not treated specially.
- BufferedOpen.Write: the first `count` bytes of the source must exist. This is what C demands of the caller, but the model cannot check it for a C pointer.
- test_write.c and test_read.c expect `buffered_close` to flush and to succeed. With the stubbed close they do not hold. Only their write-side expectations are stated, on the stream: `SmallWritesStayBuffered` and `LargeWriteOnFreshHandle`.
- part1.c and part2.c are other exercises of the same repository and are not part of this model.

## Findings

| source | as written | input that shows it | evidently intended | confidence | as-written member | corrected member |
|---|---|---|---|---|---|---|
| buffered_open.c:16-20 | the mode is read with `va_arg` whenever `flags` shares a bit with `O_CREAT` or `O_TMPFILE`; Linux's `O_TMPFILE` contains `O_DIRECTORY` | `buffered_open(path, O_DIRECTORY)` with no third argument: the test is non-zero and `va_arg` reads an argument that was never passed (undefined behaviour); stated by `DirectoryAloneReadsMode`, with `ModeArgumentAgrees` relating the two tests | read the mode only when open(2) takes one: `O_CREAT` set, or all of `O_TMPFILE` (glibc's own test is `(flags & __O_TMPFILE) == __O_TMPFILE`) | not executed; follows from the Linux flag values | BufferedOpen.ModeArgumentAsWritten | BufferedOpen.ModeArgument |
