/**
 * The growable byte buffer of bytesearch (the `buffer` descriptor, bytesearch.c:53-57) with
 * grow_buffer and resize_buffer (bytesearch.c:96-109), and the stream loader load_remaining
 * (bytesearch.c:121-146).
 *
 * The allocated block is the sequence `start` of exactly `allocatedSize` bytes (the C field
 * `allocated`, whose name is a keyword in Dafny); the empty sequence with allocatedSize == 0 stands
 * for the NULL pointer of a buffer not yet allocated. The first `used` bytes are the contents.
 */
module ByteBuffer {
  import opened Wrappers
  import opened Streams
  import Alloc

  datatype Error = ReadError  // die("Read error!") inside fread_ck

  class Buffer {
    var start: seq<bv8>
    var used: nat
    var allocatedSize: nat

    /** The descriptor invariant that buffer_dtor asserts: the block has `allocatedSize` bytes, of which `used` are used. */
    ghost predicate Valid()
      reads this
    {
      |start| == allocatedSize && used <= allocatedSize
    }

    function Contents(): seq<bv8>
      reads this
      requires Valid()
    {
      start[..used]
    }

    /**
     * A buffer without a block, as new_buffer leaves it (bytesearch.c:76-82). new_buffer does not set
     * `used`; load_remaining asserts it is 0, so the model starts it at 0.
     */
    constructor ()
      ensures Valid()
      ensures start == [] && used == 0 && allocatedSize == 0
    {
      start := [];
      used := 0;
      allocatedSize := 0;
    }

    /** grow_buffer: the block becomes the smallest power of two that holds biggerMinimumSize bytes. */
    method Grow(biggerMinimumSize: nat)
      requires Valid()
      requires biggerMinimumSize >= used && biggerMinimumSize > allocatedSize
      modifies this
      ensures Valid()
      ensures allocatedSize == Alloc.CeilPow2(biggerMinimumSize)
      ensures start == Alloc.Realloc(old(start), allocatedSize)
      ensures used == old(used) && Contents() == old(Contents())
    {
      var bytes := Alloc.RoundUpToPowerOfTwo(biggerMinimumSize);
      start := Alloc.Realloc(start, bytes);
      allocatedSize := bytes;
      assert start[..used] == old(start)[..used];
    }

    /** resize_buffer: the block gets exactly exactNewSize bytes; size 0 frees it, which needs a block. */
    method Resize(exactNewSize: nat)
      requires Valid()
      requires exactNewSize >= used
      requires exactNewSize == 0 ==> allocatedSize > 0
      modifies this
      ensures Valid()
      ensures allocatedSize == exactNewSize
      ensures start == Alloc.Realloc(old(start), exactNewSize)
      ensures used == old(used) && Contents() == old(Contents())
    {
      start := Alloc.Realloc(start, exactNewSize);
      allocatedSize := exactNewSize;
      assert start[..used] == old(start)[..used];
    }

    /**
     * One read of the loader: fread_ck into start + used for the free room, then `used += read`.
     * The bytes read land after the contents; a read error (None) is where fread_ck dies.
     */
    method ReadMore(fh: Source) returns (read: Option<nat>)
      requires Valid()
      requires used < allocatedSize && used <= |fh.bytes|
      modifies this
      ensures Valid() && allocatedSize == old(allocatedSize)
      ensures read == FreadCk(fh, old(used), old(allocatedSize) - old(used))
      ensures read.Some? ==> used == old(used) + read.value
      ensures read.Some? ==> Contents() == old(Contents()) + fh.bytes[old(used)..used]
    {
      read := FreadCk(fh, used, allocatedSize - used);
      if read.Some? {
        var data := fh.bytes[used..used + read.value];
        start := start[..used] + data + start[used + |data|..];
        used := used + |data|;
        assert start[..used] == old(start[..used]) + data;
      }
    }

    /**
     * The growth step at the top of the loader's loop (bytesearch.c:127-129): a full block of a power-of-two size
     * grows by one byte, which doubles it; a block with room is left alone.
     */
    method GrowIfFull()
      requires Valid() && Alloc.IsPowerOfTwo(allocatedSize)
      modifies this
      ensures Valid() && Alloc.IsPowerOfTwo(allocatedSize) && used < allocatedSize
      ensures allocatedSize == if old(used) == old(allocatedSize) then 2 * old(allocatedSize) else old(allocatedSize)
      ensures start == if old(used) == old(allocatedSize) then Alloc.Realloc(old(start), allocatedSize) else old(start)
      ensures used == old(used) && Contents() == old(Contents())
    {
      if used == allocatedSize {
        Alloc.CeilPow2AfterFull(allocatedSize);
        Grow(used + 1);
      }
    }

    /**
     * The loop of load_remaining (bytesearch.c:125-143): read until a read delivers nothing, growing the
     * block to used + 1 bytes, which doubles it, whenever it is full. The block stays a power of
     * two in size; ok is false where fread_ck dies of a read error.
     */
    method ReadToEnd(fh: Source) returns (ok: bool)
      requires Valid() && Alloc.IsPowerOfTwo(allocatedSize)
      requires used <= |fh.bytes| && Contents() == fh.bytes[..used]
      modifies this
      ensures Valid() && Alloc.IsPowerOfTwo(allocatedSize)
      ensures ok <==> !fh.failsAtEnd
      ensures ok ==> Contents() == fh.bytes
    {
      while true
        invariant Valid() && Alloc.IsPowerOfTwo(allocatedSize)
        invariant used <= |fh.bytes| && Contents() == fh.bytes[..used]
        decreases |fh.bytes| - used
      {
        GrowIfFull();
        ghost var before := used;
        var read := ReadMore(fh);
        if read.None? {
          return false;
        }
        if read.value == 0 {
          break;
        }
        assert fh.bytes[..used] == fh.bytes[..before] + fh.bytes[before..used];
      }
      assert used == |fh.bytes|;
      return true;
    }
  }

  /**
   * load_remaining: read fh to its end into a fresh buffer of at first 128 bytes, then trim the block
   * to the contents. A source that ends in a read error dies.
   */
  method LoadRemaining(fh: Source) returns (r: Result<Buffer, Error>)
    ensures r.Failure? <==> fh.failsAtEnd
    ensures r.Success? ==> fresh(r.value) && r.value.Valid()
    ensures r.Success? ==> r.value.Contents() == fh.bytes && r.value.allocatedSize == r.value.used
  {
    var buf := new Buffer();
    buf.Grow(128);
    var ok := buf.ReadToEnd(fh);
    if !ok {
      return Failure(ReadError);
    }
    buf.Resize(buf.used);
    return Success(buf);
  }
}
