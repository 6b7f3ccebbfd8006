/** `uniquefs_read`: every regular file serves the same seven bytes, clipped to the request and to
    the end of the buffer, and the caller's file offset advances by what was copied. */
module HelloRead {
  import opened Kernel

  /** The string literal "Hello\n" with its terminating NUL: `7*sizeof(char)` bytes. */
  const CONTENT: seq<Byte> := [0x48, 0x65, 0x6C, 0x6C, 0x6F, 0x0A, 0x00]
  const CONTENT_SIZE: nat := |CONTENT|

  function Min(a: nat, b: nat): nat {
    if a <= b then a else b
  }

  /** `buf_size`: the bytes left after the offset, cut down to the requested `size`. */
  function Clipped(pos: nat, size: nat): (n: nat)
    requires pos <= CONTENT_SIZE
    ensures n <= size && pos + n <= CONTENT_SIZE
    ensures n == size || pos + n == CONTENT_SIZE
  {
    var left := CONTENT_SIZE - pos;
    if left > size then size else left
  }

  /** What one read returns: the count copied, the bytes that reached the user buffer, and the
      offset afterwards. */
  datatype ReadReply = ReadReply(copied: nat, data: seq<Byte>, newPos: nat)

  /** One read at offset `pos` of `size` bytes, where `copy_to_user` leaves `uncopied` of the
      clipped count behind (the host promises at most that count). The bytes delivered are the
      buffer's bytes from `pos` on, and the offset moves past exactly those. */
  function ReadResult(pos: nat, size: nat, uncopied: nat): (r: ReadReply)
    requires pos <= CONTENT_SIZE && uncopied <= Clipped(pos, size)
    ensures r.copied + uncopied == Clipped(pos, size)
    ensures r.copied <= size
    ensures r.newPos == pos + r.copied <= CONTENT_SIZE
    ensures |r.data| == r.copied
    ensures forall k :: 0 <= k < r.copied ==> r.data[k] == CONTENT[pos + k]
  {
    var n := Clipped(pos, size) - uncopied;
    ReadReply(n, CONTENT[pos..pos + n], pos + n)
  }

  /** A read at the end of the buffer copies nothing and leaves the offset where it is. */
  lemma ReadAtEndIsEmpty(size: nat, uncopied: nat)
    requires uncopied <= Clipped(CONTENT_SIZE, size)
    ensures ReadResult(CONTENT_SIZE, size, uncopied) == ReadReply(0, [], CONTENT_SIZE)
  {
  }

  /** One `read(2)` call: its requested size and what `copy_to_user` left uncopied. */
  datatype ReadCall = ReadCall(size: nat, uncopied: nat)

  /** Every call in the run gets an uncopied count the host can return at that point. */
  predicate HostFeasible(pos: nat, calls: seq<ReadCall>)
    requires pos <= CONTENT_SIZE
    decreases |calls|
  {
    calls == [] ||
    (calls[0].uncopied <= Clipped(pos, calls[0].size) &&
     HostFeasible(ReadResult(pos, calls[0].size, calls[0].uncopied).newPos, calls[1..]))
  }

  /** The bytes delivered by a run of reads on one open file, and the offset at the end. */
  datatype Session = Session(data: seq<Byte>, pos: nat)

  /** Reads one after another from offset `pos`. Whatever the host copies, the delivered bytes
      are never repeated and never skipped: together they are the buffer's bytes from the
      first offset to the last. */
  function ReadMany(pos: nat, calls: seq<ReadCall>): (s: Session)
    requires pos <= CONTENT_SIZE && HostFeasible(pos, calls)
    ensures pos <= s.pos <= CONTENT_SIZE
    ensures s.data == CONTENT[pos..s.pos]
    decreases |calls|
  {
    if calls == [] then Session([], pos)
    else
      var first := ReadResult(pos, calls[0].size, calls[0].uncopied);
      var rest := ReadMany(first.newPos, calls[1..]);
      assert first.data == CONTENT[pos..first.newPos];
      Session(first.data + rest.data, rest.pos)
  }

  /** The total number of bytes the calls ask for. */
  function Requested(calls: seq<ReadCall>): nat {
    if calls == [] then 0 else calls[0].size + Requested(calls[1..])
  }

  /** With every copy complete, a run of reads ends at the requested total or at the end of
      the buffer, whichever comes first. */
  lemma {:induction false} FullCopiesAdvance(pos: nat, calls: seq<ReadCall>)
    requires pos <= CONTENT_SIZE
    requires forall i :: 0 <= i < |calls| ==> calls[i].uncopied == 0
    ensures HostFeasible(pos, calls)
    ensures ReadMany(pos, calls).pos == Min(CONTENT_SIZE, pos + Requested(calls))
    decreases |calls|
  {
    if calls != [] {
      var first := ReadResult(pos, calls[0].size, 0);
      FullCopiesAdvance(first.newPos, calls[1..]);
    }
  }

  /** Reading from offset 0 with complete copies until at least seven bytes were asked for
      delivers exactly the whole buffer. */
  lemma {:induction false} ReadsFromStartDeliverContent(calls: seq<ReadCall>)
    requires forall i :: 0 <= i < |calls| ==> calls[i].uncopied == 0
    requires Requested(calls) >= CONTENT_SIZE
    ensures HostFeasible(0, calls)
    ensures ReadMany(0, calls).data == CONTENT
  {
    FullCopiesAdvance(0, calls);
    var s := ReadMany(0, calls);
    assert s.pos == CONTENT_SIZE;
    assert CONTENT[0..CONTENT_SIZE] == CONTENT;
  }

  /** An open file's read position (`*offset`, the file's `loff_t f_pos`). */
  class OpenFile {
    var pos: int

    constructor ()
      ensures pos == 0
    {
      pos := 0;
    }

    /** `uniquefs_read` into the user buffer `buffer`, where `copy_to_user` fails on the last
        `uncopied` bytes it is asked for. Only offsets within the buffer are modelled. */
    method Read(buffer: array<Byte>, size: nat, uncopied: nat) returns (copied: nat)
      requires 0 <= pos <= CONTENT_SIZE
      requires uncopied <= Clipped(pos, size)
      requires Clipped(pos, size) - uncopied <= buffer.Length
      modifies this, buffer
      ensures var r := ReadResult(old(pos), size, uncopied);
              copied == r.copied && pos == r.newPos &&
              buffer[..copied] == r.data && buffer[copied..] == old(buffer[copied..])
      ensures pos == old(pos) + copied
    {
      var bufSize := CONTENT_SIZE - pos;
      if bufSize > size {
        bufSize := size;
      }
      copied := bufSize - uncopied;
      var from: nat := pos;
      forall k | 0 <= k < copied {
        buffer[k] := CONTENT[from + k];
      }
      pos := pos + copied;
    }
  }
}
