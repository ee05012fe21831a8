/**
 * The growable byte buffer of blocksearch (the `slice` descriptor, blocksearch.c:117-121) with
 * grow_buffer, grow_buffer_by and resize_buffer (blocksearch.c:162-180), and the stream loader
 * tracked_stream_remainder (blocksearch.c:192-215) that reads the needle from standard input.
 *
 * The allocated block is the sequence `start` of exactly `allocatedSize` bytes (the C field
 * `allocated`, whose name is a keyword in Dafny); the empty sequence with allocatedSize == 0 stands
 * for the NULL pointer of a buffer not yet allocated. The first `active` bytes are the contents.
 */
module BlockSlice {
  import opened Wrappers
  import opened Streams
  import Alloc

  datatype Error = ReadError  // die("Read error") inside fread_ck

  class Slice {
    var start: seq<bv8>
    var active: nat
    var allocatedSize: nat

    /** The descriptor invariant that buffer_dtor asserts: the block has `allocatedSize` bytes, of which `active` are used. */
    ghost predicate Valid()
      reads this
    {
      |start| == allocatedSize && active <= allocatedSize
    }

    function Contents(): seq<bv8>
      reads this
      requires Valid()
    {
      start[..active]
    }

    /** The descriptor new_tracked_buffer sets up: no block, nothing active. */
    constructor ()
      ensures Valid()
      ensures start == [] && active == 0 && allocatedSize == 0
    {
      start := [];
      active := 0;
      allocatedSize := 0;
    }

    /** grow_buffer: the block becomes the smallest power of two that holds biggerMinimumSize bytes. */
    method Grow(biggerMinimumSize: nat)
      requires Valid()
      requires biggerMinimumSize >= active && biggerMinimumSize > allocatedSize
      modifies this
      ensures Valid()
      ensures allocatedSize == Alloc.CeilPow2(biggerMinimumSize)
      ensures start == Alloc.Realloc(old(start), allocatedSize)
      ensures active == old(active) && Contents() == old(Contents())
    {
      var bytes := Alloc.RoundUpToPowerOfTwo(biggerMinimumSize);
      start := Alloc.Realloc(start, bytes);
      allocatedSize := bytes;
      assert start[..active] == old(start)[..active];
    }

    /** grow_buffer_by: room for `increment` more bytes than are active. */
    method GrowBy(increment: nat)
      requires Valid()
      requires increment > 0 && active + increment > allocatedSize
      modifies this
      ensures Valid()
      ensures allocatedSize == Alloc.CeilPow2(old(active) + increment)
      ensures start == Alloc.Realloc(old(start), allocatedSize)
      ensures active == old(active) && Contents() == old(Contents())
    {
      Grow(active + increment);
    }

    /** resize_buffer: the block gets exactly exactNewSize bytes; size 0 frees it, which needs a block. */
    method Resize(exactNewSize: nat)
      requires Valid()
      requires exactNewSize >= active
      requires exactNewSize == 0 ==> allocatedSize > 0
      modifies this
      ensures Valid()
      ensures allocatedSize == exactNewSize
      ensures start == Alloc.Realloc(old(start), exactNewSize)
      ensures active == old(active) && Contents() == old(Contents())
    {
      start := Alloc.Realloc(start, exactNewSize);
      allocatedSize := exactNewSize;
      assert start[..active] == old(start)[..active];
    }

    /**
     * One read of the loader: fread_ck into start + active for the free room, then `active += read`.
     * The bytes read land after the contents; a read error (None) is where fread_ck dies.
     */
    method ReadMore(fh: Source) returns (read: Option<nat>)
      requires Valid()
      requires active < allocatedSize && active <= |fh.bytes|
      modifies this
      ensures Valid() && allocatedSize == old(allocatedSize)
      ensures read == FreadCk(fh, old(active), old(allocatedSize) - old(active))
      ensures read.Some? ==> active == old(active) + read.value
      ensures read.Some? ==> Contents() == old(Contents()) + fh.bytes[old(active)..active]
    {
      read := FreadCk(fh, active, allocatedSize - active);
      if read.Some? {
        var data := fh.bytes[active..active + read.value];
        start := start[..active] + data + start[active + |data|..];
        active := active + |data|;
        assert start[..active] == old(start[..active]) + data;
      }
    }

    /**
     * The growth step at the top of the loader's loop (blocksearch.c:198): a full block of a power-of-two size
     * grows by one byte, which doubles it; a block with room is left alone.
     */
    method GrowIfFull()
      requires Valid() && Alloc.IsPowerOfTwo(allocatedSize)
      modifies this
      ensures Valid() && Alloc.IsPowerOfTwo(allocatedSize) && active < allocatedSize
      ensures allocatedSize == if old(active) == old(allocatedSize) then 2 * old(allocatedSize) else old(allocatedSize)
      ensures start == if old(active) == old(allocatedSize) then Alloc.Realloc(old(start), allocatedSize) else old(start)
      ensures active == old(active) && Contents() == old(Contents())
    {
      if active == allocatedSize {
        Alloc.CeilPow2AfterFull(allocatedSize);
        GrowBy(1);
      }
    }

    /**
     * The loop of tracked_stream_remainder (blocksearch.c:196-212): read until a read delivers nothing,
     * growing the block by one byte, which doubles it, whenever it is full. The block stays a power of
     * two in size; ok is false where fread_ck dies of a read error.
     */
    method ReadToEnd(fh: Source) returns (ok: bool)
      requires Valid() && Alloc.IsPowerOfTwo(allocatedSize)
      requires active <= |fh.bytes| && Contents() == fh.bytes[..active]
      modifies this
      ensures Valid() && Alloc.IsPowerOfTwo(allocatedSize)
      ensures ok <==> !fh.failsAtEnd
      ensures ok ==> Contents() == fh.bytes
    {
      while true
        invariant Valid() && Alloc.IsPowerOfTwo(allocatedSize)
        invariant active <= |fh.bytes| && Contents() == fh.bytes[..active]
        decreases |fh.bytes| - active
      {
        GrowIfFull();
        ghost var before := active;
        var read := ReadMore(fh);
        if read.None? {
          return false;
        }
        if read.value == 0 {
          break;
        }
        assert fh.bytes[..active] == fh.bytes[..before] + fh.bytes[before..active];
      }
      assert active == |fh.bytes|;
      return true;
    }
  }

  /**
   * tracked_stream_remainder: read fh to its end into a fresh buffer of at first 128 bytes, then trim
   * the block to the contents. A source that ends in a read error dies.
   */
  method TrackedStreamRemainder(fh: Source) returns (r: Result<Slice, Error>)
    ensures r.Failure? <==> fh.failsAtEnd
    ensures r.Success? ==> fresh(r.value) && r.value.Valid()
    ensures r.Success? ==> r.value.Contents() == fh.bytes && r.value.allocatedSize == r.value.active
  {
    var buf := new Slice();
    buf.Grow(128);
    var ok := buf.ReadToEnd(fh);
    if !ok {
      return Failure(ReadError);
    }
    buf.Resize(buf.active);
    return Success(buf);
  }
}
