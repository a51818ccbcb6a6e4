/**
  The operating-system side of the buffered-file layer: raw descriptors as the
  kernel sees them. Only the two system calls the layer issues are modelled,
  `open` and `write`, and only as far as the layer can observe them: `open`
  either fails or hands out a descriptor that was not in use, and `write`
  either fails without effect or accepts a non-empty prefix of what it was
  offered, appending it to everything the descriptor accepted before.
 */
module Kernel {

  newtype byte = x: int | 0 <= x < 256

  /** The arguments one successful `open` call was made with. */
  datatype OpenRequest = OpenRequest(path: string, flags: bv32, mode: bv32)

  /** The bytes descriptor `fd` has accepted so far, in order (none if it is not open). */
  function Accepted(files: map<int, seq<byte>>, fd: int): seq<byte>
  {
    if fd in files then files[fd] else []
  }

  class Os {
    /** For each open descriptor, every byte `write` has accepted on it, in order. */
    var files: map<int, seq<byte>>
    /** For each open descriptor, the request that opened it. */
    var requests: map<int, OpenRequest>
    /** The next descriptor number `open` hands out. */
    var next: int

    ghost predicate Valid()
      reads this
    {
      && 0 <= next
      && files.Keys == requests.Keys
      && forall fd :: fd in files ==> 0 <= fd < next
    }

    constructor ()
      ensures Valid() && files == map[] && requests == map[]
    {
      files, requests, next := map[], map[], 3;
    }

    /**
      open(2): fails with -1 and no effect, or returns a descriptor that was
      not open before, on which nothing has been written yet.
     */
    method Open(path: string, flags: bv32, mode: bv32) returns (fd: int)
      requires Valid()
      modifies this
      ensures Valid()
      ensures fd == -1 ==> files == old(files) && requests == old(requests)
      ensures fd != -1 ==>
        && 0 <= fd && fd !in old(files)
        && files == old(files)[fd := []]
        && requests == old(requests)[fd := OpenRequest(path, flags, mode)]
    {
      if * {
        fd := -1;
      } else {
        fd := next;
        next := next + 1;
        files := files[fd := []];
        requests := requests[fd := OpenRequest(path, flags, mode)];
      }
    }

    /**
      write(2) of the `n` bytes `src[from..from + n]`: fails with -1 and no
      effect (always so on a descriptor that is not open), or accepts the first
      `k` of them for some `1 <= k <= n`. A call that accepts nothing and
      returns 0 is not modelled: the flush loop would not terminate on it.
     */
    method Write(fd: int, src: array<byte>, from: nat, n: nat) returns (k: int)
      requires Valid()
      requires 0 < n && from + n <= src.Length
      modifies this
      ensures Valid() && requests == old(requests)
      ensures fd !in old(files) ==> k == -1
      ensures k == -1 ==> files == old(files)
      ensures k != -1 ==>
        && fd in old(files) && 1 <= k <= n
        && files == old(files)[fd := old(files)[fd] + src[from..from + k]]
    {
      if fd !in files {
        k := -1;
      } else if * {
        k := -1;
      } else {
        k :| 1 <= k <= n;
        files := files[fd := files[fd] + src[from..from + k]];
      }
    }
  }
}
