/**
 * Input streams as seen through fread_ck (blocksearch.c:182-190, bytesearch.c:111-119).
 *
 * A stream is modelled by the bytes it still delivers and by how it ends: at end-of-file, or with a
 * read error. The caller keeps the stream position. fread returns fewer bytes than requested only
 * when it reaches the end; at a read error fread_ck dies, which is modelled as None.
 */
module Streams {
  import opened Wrappers

  datatype Source = Source(bytes: seq<bv8>, failsAtEnd: bool)

  /** The number of bytes fread_ck(dst, 1, n, fh) delivers when fh is at position pos, or None for die("Read error"). */
  function FreadCk(fh: Source, pos: nat, n: nat): (r: Option<nat>)
    requires pos <= |fh.bytes|
    requires n > 0
    ensures r.Some? ==> r.value <= n && pos + r.value <= |fh.bytes|
    ensures r.Some? && r.value < n ==> pos + r.value == |fh.bytes| && !fh.failsAtEnd
    ensures r.None? <==> fh.failsAtEnd && |fh.bytes| < pos + n
  {
    if pos + n <= |fh.bytes| then Some(n)
    else if fh.failsAtEnd then None
    else Some(|fh.bytes| - pos)
  }

  /** fread_ck into an array: the bytes delivered are stored at the front of dst. */
  method FreadInto(fh: Source, pos: nat, dst: array<bv8>) returns (r: Option<nat>)
    requires pos <= |fh.bytes|
    requires dst.Length > 0
    modifies dst
    ensures r == FreadCk(fh, pos, dst.Length)
    ensures r.Some? ==> dst[..r.value] == fh.bytes[pos..pos + r.value]
  {
    r := FreadCk(fh, pos, dst.Length);
    if r.Some? {
      var read := r.value;
      forall i | 0 <= i < read {
        dst[i] := fh.bytes[pos + i];
      }
    }
  }
}
