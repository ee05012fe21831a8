/**
 * scan4match (blocksearch.c:274-308): the haystack is read in chunks of B = work->allocated bytes and
 * every chunk is searched on its own for the needle. The partial match is reset at the start of every
 * chunk, so only occurrences lying wholly inside one chunk are reported.
 *
 * The haystack is modelled from offset <start> on: position 0 of the source is file offset fpos.
 */
module BlockScan {
  import opened Wrappers
  import opened Streams
  import BlockHex

  datatype Error =
    | BufferTooSmall  // die("Buffer needs to be at least as large as <needle>!")
    | ReadError       // die("Read error") inside fread_ck

  // ---------------------------------------------------------------------------------------------
  // Substring search

  predicate OccursAt(s: seq<bv8>, needle: seq<bv8>, i: nat) {
    i + |needle| <= |s| && s[i..i + |needle|] == needle
  }

  /** The least index from `from` on where needle occurs in s (FirstOccurrenceIsLeast). */
  function FirstOccurrence(s: seq<bv8>, needle: seq<bv8>, from: nat): (r: Option<nat>)
    decreases |s| - from
    ensures r.Some? ==> from <= r.value && OccursAt(s, needle, r.value)
  {
    if from + |needle| > |s| then None
    else if OccursAt(s, needle, from) then Some(from)
    else FirstOccurrence(s, needle, from + 1)
  }

  /** No index between `from` and the one FirstOccurrence finds holds an occurrence; when it finds none, no index from `from` on does. */
  lemma {:induction false} FirstOccurrenceIsLeast(s: seq<bv8>, needle: seq<bv8>, from: nat)
    decreases |s| - from
    ensures var r := FirstOccurrence(s, needle, from);
      (r.Some? ==> forall j :: from <= j < r.value ==> !OccursAt(s, needle, j))
      && (r.None? ==> forall j :: from <= j ==> !OccursAt(s, needle, j))
  {
    if from + |needle| <= |s| && !OccursAt(s, needle, from) {
      FirstOccurrenceIsLeast(s, needle, from + 1);
    }
  }

  /** FirstOccurrence steps over a start that is no occurrence, whether or not the needle still fits. */
  lemma FirstOccurrenceSkip(s: seq<bv8>, needle: seq<bv8>, from: nat)
    requires !OccursAt(s, needle, from)
    ensures FirstOccurrence(s, needle, from) == FirstOccurrence(s, needle, from + 1)
  {
  }

  /**
   * The inner loop of scan4match over the first `read` bytes of the work buffer. A mismatch after
   * already_matched bytes moves the cursor back to one past the failed candidate's start. The result
   * is the value boff - already_matched + 1 that is added to fpos, taken after the final increment.
   */
  method MatchInChunk(work: array<bv8>, read: nat, needle: seq<bv8>) returns (m: Option<nat>)
    requires read <= work.Length
    requires |needle| >= 1
    ensures m == FirstOccurrence(work[..read], needle, 0)
  {
    ghost var s := work[..read];
    var alreadyMatched: nat := 0;
    var boff: nat := 0;
    ghost var candidate: nat := 0;
    while boff != read
      invariant alreadyMatched < |needle|
      invariant candidate == boff - alreadyMatched && boff <= read
      invariant s[candidate..boff] == needle[..alreadyMatched]
      invariant FirstOccurrence(s, needle, 0) == FirstOccurrence(s, needle, candidate)
      decreases read - candidate, read - boff
    {
      if needle[alreadyMatched] == work[boff] {
        MatchExtends(s, needle, candidate, boff, alreadyMatched);
        alreadyMatched := alreadyMatched + 1;
        if alreadyMatched == |needle| {
          MatchComplete(s, needle, candidate);
          return Some(boff - alreadyMatched + 1);
        }
      } else {
        MismatchSkips(s, needle, candidate, boff, alreadyMatched);
        candidate := candidate + 1;
        boff := boff - alreadyMatched;
        alreadyMatched := 0;
      }
      boff := boff + 1;
    }
    return None;
  }

  /** A partial match at candidate followed by the needle's next byte is one byte longer. */
  lemma MatchExtends(s: seq<bv8>, needle: seq<bv8>, candidate: nat, boff: nat, am: nat)
    requires candidate + am == boff < |s| && am < |needle|
    requires s[candidate..boff] == needle[..am] && s[boff] == needle[am]
    ensures s[candidate..boff + 1] == needle[..am + 1]
  {
    assert s[candidate..boff + 1] == s[candidate..boff] + [s[boff]];
    assert needle[..am + 1] == needle[..am] + [needle[am]];
  }

  /** A partial match covering the whole needle is an occurrence, the first from candidate on. */
  lemma MatchComplete(s: seq<bv8>, needle: seq<bv8>, candidate: nat)
    requires candidate + |needle| <= |s| && s[candidate..candidate + |needle|] == needle[..|needle|]
    ensures FirstOccurrence(s, needle, candidate) == Some(candidate)
  {
    assert OccursAt(s, needle, candidate);
  }

  /** A mismatch after a partial match at candidate rules candidate out. */
  lemma MismatchSkips(s: seq<bv8>, needle: seq<bv8>, candidate: nat, boff: nat, am: nat)
    requires candidate + am == boff < |s| && am < |needle|
    requires s[boff] != needle[am]
    ensures FirstOccurrence(s, needle, candidate) == FirstOccurrence(s, needle, candidate + 1)
  {
    assert !OccursAt(s, needle, candidate) by {
      if candidate + |needle| <= |s| {
        assert s[candidate..candidate + |needle|][am] == s[boff];
      }
    }
    FirstOccurrenceSkip(s, needle, candidate);
  }

  // ---------------------------------------------------------------------------------------------
  // The chunked scan

  /**
   * The outer loop of scan4match from stream position pos: read up to B bytes; stop at a read error
   * or at a read of nothing; otherwise report the first occurrence inside the chunk, or go on after it.
   */
  function ScanFrom(fh: Source, needle: seq<bv8>, B: nat, pos: nat): Result<Option<nat>, Error>
    requires pos <= |fh.bytes| && B >= 1
    decreases |fh.bytes| - pos
  {
    match FreadCk(fh, pos, B)
    case None => Failure(ReadError)
    case Some(read) =>
      if read == 0 then Success(None)
      else match FirstOccurrence(fh.bytes[pos..pos + read], needle, 0)
        case Some(i) => Success(Some(pos + i))
        case None => ScanFrom(fh, needle, B, pos + read)
  }

  /** A read that fails or delivers nothing ends the scan with a read error or with no match. */
  lemma ScanFromStops(fh: Source, needle: seq<bv8>, B: nat, pos: nat)
    requires pos <= |fh.bytes| && B >= 1
    requires FreadCk(fh, pos, B).None? || FreadCk(fh, pos, B) == Some(0)
    ensures ScanFrom(fh, needle, B, pos) == if FreadCk(fh, pos, B).None? then Failure(ReadError) else Success(None)
  {
  }

  /** A chunk with an occurrence: its first one is the result of the scan. */
  lemma ScanFromStepFound(fh: Source, needle: seq<bv8>, B: nat, pos: nat, read: nat, i: nat, found: nat)
    requires pos <= |fh.bytes| && B >= 1
    requires FreadCk(fh, pos, B) == Some(read) && read > 0
    requires FirstOccurrence(fh.bytes[pos..pos + read], needle, 0) == Some(i)
    requires found == pos + i
    ensures ScanFrom(fh, needle, B, pos) == Success(Some(found))
  {
  }

  /** A chunk without an occurrence: the scan goes on after it. */
  lemma ScanFromStepOn(fh: Source, needle: seq<bv8>, B: nat, pos: nat, read: nat, next: nat)
    requires pos <= |fh.bytes| && B >= 1
    requires FreadCk(fh, pos, B) == Some(read) && read > 0
    requires FirstOccurrence(fh.bytes[pos..pos + read], needle, 0).None?
    requires next == pos + read
    ensures next <= |fh.bytes| && ScanFrom(fh, needle, B, pos) == ScanFrom(fh, needle, B, next)
  {
  }

  /** What scan4match writes for a haystack whose position 0 is file offset start, or the error it dies of. */
  function Scan4MatchOutput(fh: Source, needle: seq<bv8>, B: nat, start: nat): Result<string, Error>
    requires B >= 1
  {
    if |needle| > B then Failure(BufferTooSmall)
    else match ScanFrom(fh, needle, B, 0)
      case Failure(e) => Failure(e)
      case Success(None) => Success("\n")
      case Success(Some(p)) => Success(BlockHex.FormatHex(start + p) + "\n")
  }

  /** A scan from the start that reports position p makes scan4match print the file offset start + p. */
  lemma OutputReportsMatch(fh: Source, needle: seq<bv8>, B: nat, start: nat, p: nat, printed: nat)
    requires B >= 1 && |needle| <= B
    requires ScanFrom(fh, needle, B, 0) == Success(Some(p)) && printed == start + p
    ensures Scan4MatchOutput(fh, needle, B, start) == Success(BlockHex.FormatHex(printed) + "\n")
  {
  }

  /**
   * scan4match itself: fpos is the file offset of the haystack's position 0, work the work buffer whose
   * length is the chunk size. The output string stands for the characters written with putchar_ck.
   */
  method Scan4Match(fh: Source, needle: seq<bv8>, work: array<bv8>, fpos: nat) returns (out: Result<string, Error>)
    requires work.Length >= 1 && |needle| >= 1
    modifies work
    ensures out == Scan4MatchOutput(fh, needle, work.Length, fpos)
  {
    if |needle| > work.Length {
      return Failure(BufferTooSmall);
    }
    var pos: nat := 0;
    var offset := fpos;
    ghost var B := work.Length;
    while true
      invariant pos <= |fh.bytes| && offset == fpos + pos
      invariant ScanFrom(fh, needle, B, 0) == ScanFrom(fh, needle, B, pos)
      decreases |fh.bytes| - pos
    {
      var r := FreadInto(fh, pos, work);
      if r.None? {
        ScanFromStops(fh, needle, B, pos);
        return Failure(ReadError);
      }
      var read := r.value;
      if read == 0 {
        ScanFromStops(fh, needle, B, pos);
        break;
      }
      assert work[..read] == fh.bytes[pos..pos + read];
      var m := MatchInChunk(work, read, needle);
      assert m == FirstOccurrence(fh.bytes[pos..pos + read], needle, 0);
      if m.Some? {
        ghost var found := pos + m.value;
        ScanFromStepFound(fh, needle, B, pos, read, m.value, found);
        var matchOffset := offset + m.value;
        OutputReportsMatch(fh, needle, B, fpos, found, matchOffset);
        return Success(BlockHex.FormatHex(matchOffset) + "\n");
      }
      var next := pos + read;
      ScanFromStepOn(fh, needle, B, pos, read, next);
      offset := offset + read;
      pos := next;
    }
    return Success("\n");
  }

  // ---------------------------------------------------------------------------------------------
  // What the scan finds

  /** The offset of position q inside its chunk of B bytes, counted by whole chunks; it is q % B (ChunkOffsetIsMod). */
  function ChunkOffset(q: nat, B: nat): (r: nat)
    requires B >= 1
    decreases q
    ensures r < B && r <= q
  {
    if q < B then q else ChunkOffset(q - B, B)
  }

  /**
   * An occurrence that scan4match can see: needle occurs at q, wholly inside the chunk containing q,
   * and that chunk is read without error. A source that ends in a read error delivers its full
   * chunks only; the read of the incomplete last chunk (or past the last full one) dies.
   */
  predicate Found(fh: Source, needle: seq<bv8>, B: nat, q: nat)
    requires B >= 1
  {
    OccursAt(fh.bytes, needle, q) && ChunkOffset(q, B) + |needle| <= B
    && (fh.failsAtEnd ==> q - ChunkOffset(q, B) + B <= |fh.bytes|)
  }

  lemma MulAtLeast(t: int, B: nat)
    requires t >= 1 && B >= 1
    ensures t * B >= B
  {
  }

  /** Euclidean division is unique: a remainder below B in a == x * B + r is a % B. */
  lemma ModUnique(a: nat, x: nat, r: nat, B: nat)
    requires B >= 1 && r < B && a == x * B + r
    ensures a % B == r
  {
    var t := x - a / B;
    assert t * B == a % B - r;
    if t >= 1 {
      MulAtLeast(t, B);
    }
  }

  lemma ModSub(q: nat, B: nat)
    requires q >= B >= 1
    ensures (q - B) % B == q % B
  {
    var d := q / B;
    assert q == d * B + q % B;
    assert q - B == (d - 1) * B + q % B;
    ModUnique(q - B, d - 1, q % B, B);
  }

  lemma {:induction false} ChunkOffsetIsMod(q: nat, B: nat)
    requires B >= 1
    decreases q
    ensures ChunkOffset(q, B) == q % B
  {
    if q >= B {
      ChunkOffsetIsMod(q - B, B);
      ModSub(q, B);
    }
  }

  /** Positions in the chunk that starts at an aligned pos lie at their distance from pos. */
  lemma {:induction false} OffsetInChunk(pos: nat, q: nat, B: nat)
    requires B >= 1 && ChunkOffset(pos, B) == 0 && pos <= q < pos + B
    decreases pos
    ensures ChunkOffset(q, B) == q - pos
  {
    if pos >= B {
      OffsetInChunk(pos - B, q - B, B);
    }
  }

  lemma SliceOfSlice(s: seq<bv8>, a: nat, b: nat, i: nat, j: nat)
    requires a <= b <= |s| && i <= j <= b - a
    ensures s[a..b][i..j] == s[a + i..a + j]
  {
    assert forall k :: 0 <= k < j - i ==> s[a..b][i..j][k] == s[a + i + k];
  }

  /** An occurrence inside a chunk read at an aligned position is one of the whole stream. */
  lemma OccursInChunk(fh: Source, needle: seq<bv8>, pos: nat, read: nat, i: nat)
    requires pos + read <= |fh.bytes|
    requires OccursAt(fh.bytes[pos..pos + read], needle, i)
    ensures OccursAt(fh.bytes, needle, pos + i)
  {
    SliceOfSlice(fh.bytes, pos, pos + read, i, i + |needle|);
  }

  /** A Found position inside a chunk read at an aligned position is an occurrence in the chunk's bytes. */
  lemma FoundInChunk(fh: Source, needle: seq<bv8>, B: nat, pos: nat, read: nat, q: nat)
    requires B >= 1 && ChunkOffset(pos, B) == 0 && pos <= |fh.bytes|
    requires FreadCk(fh, pos, B) == Some(read)
    requires pos <= q < pos + read && Found(fh, needle, B, q)
    ensures OccursAt(fh.bytes[pos..pos + read], needle, q - pos)
  {
    OffsetInChunk(pos, q, B);
    var i := q - pos;
    assert i + |needle| <= B;
    assert read < B ==> pos + read == |fh.bytes|;
    assert i + |needle| <= read;
    SliceOfSlice(fh.bytes, pos, pos + read, i, i + |needle|);
    assert fh.bytes[pos..pos + read][i..i + |needle|] == fh.bytes[q..q + |needle|] == needle;
  }

  /** A read error at an aligned position: no chunk from there on is read, so nothing there is Found. */
  lemma NothingFoundAfterError(fh: Source, needle: seq<bv8>, B: nat, pos: nat)
    requires B >= 1 && ChunkOffset(pos, B) == 0 && pos <= |fh.bytes|
    requires FreadCk(fh, pos, B).None?
    ensures forall q :: pos <= q ==> !Found(fh, needle, B, q)
  {
    forall q | pos <= q && Found(fh, needle, B, q) ensures false {
      OffsetInChunk(pos, q, B);
    }
  }

  /** An occurrence inside a chunk read at an aligned position is Found. */
  lemma OccurrenceInChunkIsFound(fh: Source, needle: seq<bv8>, B: nat, pos: nat, read: nat, i: nat)
    requires B >= 1 && |needle| >= 1 && ChunkOffset(pos, B) == 0 && pos <= |fh.bytes|
    requires FreadCk(fh, pos, B) == Some(read)
    requires OccursAt(fh.bytes[pos..pos + read], needle, i)
    ensures Found(fh, needle, B, pos + i)
  {
    OccursInChunk(fh, needle, pos, read, i);
    OffsetInChunk(pos, pos + i, B);
  }

  /** The first occurrence inside a chunk is the first Found position from the chunk's start on. */
  lemma FirstFoundInChunk(fh: Source, needle: seq<bv8>, B: nat, pos: nat, read: nat, i: nat)
    requires B >= 1 && |needle| >= 1 && ChunkOffset(pos, B) == 0 && pos <= |fh.bytes|
    requires FreadCk(fh, pos, B) == Some(read)
    requires FirstOccurrence(fh.bytes[pos..pos + read], needle, 0) == Some(i)
    ensures Found(fh, needle, B, pos + i)
    ensures forall q :: pos <= q < pos + i ==> !Found(fh, needle, B, q)
  {
    FirstOccurrenceIsLeast(fh.bytes[pos..pos + read], needle, 0);
    OccurrenceInChunkIsFound(fh, needle, B, pos, read, i);
    forall q | pos <= q < pos + i && Found(fh, needle, B, q) ensures false {
      FoundInChunk(fh, needle, B, pos, read, q);
    }
  }

  /** A chunk without an occurrence holds no Found position, and the next read starts aligned or at a clean end. */
  lemma NothingFoundInChunk(fh: Source, needle: seq<bv8>, B: nat, pos: nat, read: nat)
    requires B >= 1 && ChunkOffset(pos, B) == 0 && pos <= |fh.bytes|
    requires FreadCk(fh, pos, B) == Some(read)
    requires FirstOccurrence(fh.bytes[pos..pos + read], needle, 0).None?
    ensures forall q :: pos <= q < pos + read ==> !Found(fh, needle, B, q)
    ensures ChunkOffset(pos + read, B) == 0 || (pos + read == |fh.bytes| && !fh.failsAtEnd)
  {
    FirstOccurrenceIsLeast(fh.bytes[pos..pos + read], needle, 0);
    forall q | pos <= q < pos + read && Found(fh, needle, B, q) ensures false {
      FoundInChunk(fh, needle, B, pos, read, q);
    }
    if read == B {
      assert ChunkOffset(pos + read, B) == ChunkOffset(pos, B);
    }
  }

  /**
   * What a scan from pos should report: the least position from pos on with a Found occurrence; nothing
   * only for a clean end, and a read error only for a failing one, in both cases when no position from
   * pos on has a Found occurrence.
   */
  ghost predicate ScanCorrect(fh: Source, needle: seq<bv8>, B: nat, pos: nat, r: Result<Option<nat>, Error>)
    requires B >= 1
  {
    match r
    case Success(Some(p)) =>
      pos <= p && Found(fh, needle, B, p) && forall q :: pos <= q < p ==> !Found(fh, needle, B, q)
    case Success(None) =>
      !fh.failsAtEnd && forall q :: pos <= q ==> !Found(fh, needle, B, q)
    case Failure(e) =>
      e == ReadError && fh.failsAtEnd && forall q :: pos <= q ==> !Found(fh, needle, B, q)
  }

  /** A correct report from next on is one from pos on when nothing between pos and next is Found. */
  lemma ScanCorrectBefore(fh: Source, needle: seq<bv8>, B: nat, pos: nat, next: nat, r: Result<Option<nat>, Error>)
    requires B >= 1 && pos <= next
    requires forall q :: pos <= q < next ==> !Found(fh, needle, B, q)
    requires ScanCorrect(fh, needle, B, next, r)
    ensures ScanCorrect(fh, needle, B, pos, r)
  {
  }

  /** A first read that fails: the scan dies of a read error, correctly. */
  lemma ScanCorrectOnError(fh: Source, needle: seq<bv8>, B: nat, pos: nat)
    requires B >= 1 && ChunkOffset(pos, B) == 0 && pos <= |fh.bytes|
    requires FreadCk(fh, pos, B).None?
    ensures ScanCorrect(fh, needle, B, pos, ScanFrom(fh, needle, B, pos))
  {
    assert ScanFrom(fh, needle, B, pos) == Failure(ReadError);
    NothingFoundAfterError(fh, needle, B, pos);
  }

  /** At the clean end of the source the scan reports nothing, correctly. */
  lemma ScanCorrectAtEnd(fh: Source, needle: seq<bv8>, B: nat, pos: nat)
    requires B >= 1 && |needle| >= 1 && pos <= |fh.bytes|
    requires FreadCk(fh, pos, B) == Some(0)
    ensures ScanCorrect(fh, needle, B, pos, ScanFrom(fh, needle, B, pos))
  {
    assert ScanFrom(fh, needle, B, pos) == Success(None);
    assert pos == |fh.bytes| && !fh.failsAtEnd;
  }

  /** A chunk with an occurrence: the scan reports its first one, correctly. */
  lemma ScanCorrectInChunk(fh: Source, needle: seq<bv8>, B: nat, pos: nat, read: nat, i: nat)
    requires B >= 1 && |needle| >= 1 && ChunkOffset(pos, B) == 0 && pos <= |fh.bytes|
    requires FreadCk(fh, pos, B) == Some(read) && read > 0
    requires FirstOccurrence(fh.bytes[pos..pos + read], needle, 0) == Some(i)
    ensures ScanCorrect(fh, needle, B, pos, ScanFrom(fh, needle, B, pos))
  {
    ScanFromStepFound(fh, needle, B, pos, read, i, pos + i);
    FirstFoundIsCorrect(fh, needle, B, pos, read, i, ScanFrom(fh, needle, B, pos));
  }

  /** Reporting the first occurrence inside a chunk read at an aligned position is correct. */
  lemma FirstFoundIsCorrect(fh: Source, needle: seq<bv8>, B: nat, pos: nat, read: nat, i: nat, r: Result<Option<nat>, Error>)
    requires B >= 1 && |needle| >= 1 && ChunkOffset(pos, B) == 0 && pos <= |fh.bytes|
    requires FreadCk(fh, pos, B) == Some(read)
    requires FirstOccurrence(fh.bytes[pos..pos + read], needle, 0) == Some(i)
    requires r == Success(Some(pos + i))
    ensures ScanCorrect(fh, needle, B, pos, r)
  {
    FirstFoundInChunk(fh, needle, B, pos, read, i);
  }

  /** A chunk without an occurrence: a correct report from after it is a correct report from its start. */
  lemma ScanCorrectAfterChunk(fh: Source, needle: seq<bv8>, B: nat, pos: nat, read: nat)
    requires B >= 1 && ChunkOffset(pos, B) == 0 && pos <= |fh.bytes|
    requires FreadCk(fh, pos, B) == Some(read) && read > 0
    requires FirstOccurrence(fh.bytes[pos..pos + read], needle, 0).None?
    requires ScanCorrect(fh, needle, B, pos + read, ScanFrom(fh, needle, B, pos + read))
    ensures ScanCorrect(fh, needle, B, pos, ScanFrom(fh, needle, B, pos))
  {
    ScanFromStepOn(fh, needle, B, pos, read, pos + read);
    NothingFoundInChunk(fh, needle, B, pos, read);
    ScanCorrectBefore(fh, needle, B, pos, pos + read, ScanFrom(fh, needle, B, pos + read));
  }

  /**
   * Starting at an aligned position (or at the end of a source that ends cleanly), the scan reports the
   * least position with a Found occurrence, or reports nothing or dies exactly as ScanCorrect says.
   */
  lemma {:induction false} ScanFromFindsFirst(fh: Source, needle: seq<bv8>, B: nat, pos: nat)
    requires B >= 1 && |needle| >= 1 && pos <= |fh.bytes|
    requires ChunkOffset(pos, B) == 0 || (pos == |fh.bytes| && !fh.failsAtEnd)
    decreases |fh.bytes| - pos
    ensures ScanCorrect(fh, needle, B, pos, ScanFrom(fh, needle, B, pos))
  {
    var f := FreadCk(fh, pos, B);
    if f.None? {
      ScanCorrectOnError(fh, needle, B, pos);
    } else if f.value == 0 {
      ScanCorrectAtEnd(fh, needle, B, pos);
    } else {
      var read := f.value;
      var m := FirstOccurrence(fh.bytes[pos..pos + read], needle, 0);
      if m.Some? {
        ScanCorrectInChunk(fh, needle, B, pos, read, m.value);
      } else {
        NothingFoundInChunk(fh, needle, B, pos, read);
        ScanFromFindsFirst(fh, needle, B, pos + read);
        ScanCorrectAfterChunk(fh, needle, B, pos, read);
      }
    }
  }

  /**
   * The output of scan4match: too long a needle dies before anything is read (a needle as long as a
   * chunk is accepted); otherwise the hexadecimal offset of the first Found occurrence and a newline,
   * or just a newline when a cleanly ending haystack has none, or a read error when a failing one has none.
   */
  lemma Scan4MatchResult(fh: Source, needle: seq<bv8>, B: nat, start: nat)
    requires B >= 1 && |needle| >= 1
    ensures Scan4MatchOutput(fh, needle, B, start) == Failure(BufferTooSmall) <==> |needle| > B
    ensures |needle| <= B && (exists q :: Found(fh, needle, B, q)) ==>
      exists p :: Found(fh, needle, B, p) && (forall q :: q < p ==> !Found(fh, needle, B, q))
        && Scan4MatchOutput(fh, needle, B, start) == Success(BlockHex.FormatHex(start + p) + "\n")
    ensures |needle| <= B && (forall q :: !Found(fh, needle, B, q)) ==>
      Scan4MatchOutput(fh, needle, B, start) == if fh.failsAtEnd then Failure(ReadError) else Success("\n")
  {
    if |needle| <= B {
      ScanFromFindsFirst(fh, needle, B, 0);
    }
  }

  /** The offset written is the hexadecimal text convert_off_t reads back as the match's file offset. */
  lemma Scan4MatchOffsetReadsBack(fh: Source, needle: seq<bv8>, B: nat, start: nat)
    requires B >= 1
    requires Scan4MatchOutput(fh, needle, B, start).Success?
    ensures var out := Scan4MatchOutput(fh, needle, B, start).value;
      |out| >= 1 && out[|out| - 1] == '\n'
      && (out == "\n" ||
          exists p :: ScanFrom(fh, needle, B, 0) == Success(Some(p))
            && BlockHex.ParseHex(out[..|out| - 1]) == Success(start + p))
  {
    OutputReadsBack(Scan4MatchOutput(fh, needle, B, start).value, ScanFrom(fh, needle, B, 0), start);
  }

  /** The line written for a successful scan result r ends in a newline, and its digits read back as start plus the position r reports. */
  lemma OutputReadsBack(out: string, r: Result<Option<nat>, Error>, start: nat)
    requires r.Success?
    requires out == if r.value.None? then "\n" else BlockHex.FormatHex(start + r.value.value) + "\n"
    ensures |out| >= 1 && out[|out| - 1] == '\n'
      && (out == "\n" || exists p :: r == Success(Some(p)) && BlockHex.ParseHex(out[..|out| - 1]) == Success(start + p))
  {
    if r.value.Some? {
      ReadsBackLine(out, start + r.value.value);
    }
  }

  /** A line holding FormatHex(v) reads back as v once its newline is dropped. */
  lemma ReadsBackLine(out: string, v: nat)
    requires out == BlockHex.FormatHex(v) + "\n"
    ensures |out| >= 1 && out[|out| - 1] == '\n' && BlockHex.ParseHex(out[..|out| - 1]) == Success(v)
  {
    assert out[..|out| - 1] == BlockHex.FormatHex(v);
    BlockHex.ParseFormatRoundTrip(v);
  }

  // ---------------------------------------------------------------------------------------------
  // Examples

  /** A start whose byte differs from the needle's first byte is no occurrence. */
  lemma FirstByteDiffers(s: seq<bv8>, needle: seq<bv8>, i: nat)
    requires |needle| >= 1 && i < |s| && s[i] != needle[0]
    ensures !OccursAt(s, needle, i)
  {
    if i + |needle| <= |s| {
      assert s[i..i + |needle|][0] == s[i];
    }
  }

  /** A needle straddling a chunk boundary is not reported: [4, 5] at offset 3 crosses the boundary at 4. */
  lemma StraddlingNeedleIsMissed()
    ensures Scan4MatchOutput(Source([1, 2, 3, 4, 5, 6, 7, 8], false), [4, 5], 4, 0) == Success("\n")
  {
    var fh := Source([1, 2, 3, 4, 5, 6, 7, 8], false);
    var needle: seq<bv8> := [4, 5];
    var first: seq<bv8> := [1, 2, 3, 4];
    var second: seq<bv8> := [5, 6, 7, 8];
    assert fh.bytes[0..4] == first && fh.bytes[4..8] == second;
    FirstByteDiffers(first, needle, 0);
    FirstByteDiffers(first, needle, 1);
    FirstByteDiffers(first, needle, 2);
    assert FirstOccurrence(first, needle, 0) == None;
    FirstByteDiffers(second, needle, 0);
    FirstByteDiffers(second, needle, 1);
    FirstByteDiffers(second, needle, 2);
    assert FirstOccurrence(second, needle, 0) == None;
    assert ScanFrom(fh, needle, 4, 8) == Success(None);
    assert ScanFrom(fh, needle, 4, 4) == Success(None);
    assert ScanFrom(fh, needle, 4, 0) == Success(None);
  }

  /** With a chunk holding the whole haystack the same occurrence is reported. */
  lemma SameNeedleInOneChunk()
    ensures Scan4MatchOutput(Source([1, 2, 3, 4, 5, 6, 7, 8], false), [4, 5], 8, 0) == Success("3\n")
  {
    var fh := Source([1, 2, 3, 4, 5, 6, 7, 8], false);
    var needle: seq<bv8> := [4, 5];
    assert fh.bytes[0..8] == fh.bytes;
    FirstByteDiffers(fh.bytes, needle, 0);
    FirstByteDiffers(fh.bytes, needle, 1);
    FirstByteDiffers(fh.bytes, needle, 2);
    assert OccursAt(fh.bytes, needle, 3) by { assert fh.bytes[3..5] == needle; }
    assert FirstOccurrence(fh.bytes, needle, 0) == Some(3);
    assert ScanFrom(fh, needle, 8, 0) == Success(Some(3));
    assert BlockHex.FormatHex(3) == "3";
    assert BlockHex.FormatHex(0 + 3) + "\n" == "3\n";
  }
}
