/** Raw image chunks: an image that fits on no single volume is cut while it is copied, always on the
    volume that can store the longest piece, and the pieces are concatenated again on the target. */
module ImageChunks {
  import opened Wrappers
  import opened MachineIntegers
  import opened ScatteredStaging

  const IMAGE_CHUNK_MIN_BYTES: u64 := 64 * MIB

  /** Length of the next chunk; a short one only as the rest of the image. */
  function NextImageChunkLen(remaining: u64, available: u64, maxFileBytes: u64): Option<u64> {
    if remaining == 0 then None
    else
      var length := Min(Min(remaining, available), maxFileBytes);
      if length == 0 || (length < IMAGE_CHUNK_MIN_BYTES && length < remaining) then None else Some(length)
  }

  /** In byte numbers: as much as is left of the image, the room and the file limit allow, but no piece below
      64 MiB unless it is the rest. */
  lemma NextImageChunkLenIs(remaining: u64, available: u64, maxFileBytes: u64)
    ensures var most := if available < maxFileBytes then available else maxFileBytes;
      NextImageChunkLen(remaining, available, maxFileBytes) ==
        if remaining == 0 || most == 0 || (most < remaining && most < 67_108_864) then None
        else Some(if remaining < most then remaining else most)
  {
  }

  /** The longest piece a volume can store now. */
  function Storable(c: Capacity): u64 {
    Min(c.usable, c.maxFileBytes)
  }

  /** The volume for the next chunk: the longest piece, then the earliest letter. */
  function WidestVolume(cs: seq<Capacity>): (r: Option<nat>)
    ensures r.None? <==> cs == []
    ensures r.Some? ==> r.value < |cs|
    ensures r.Some? ==> forall i :: 0 <= i < |cs| ==>
      || Storable(cs[i]) < Storable(cs[r.value])
      || (Storable(cs[i]) == Storable(cs[r.value]) && cs[r.value].letter <= cs[i].letter)
  {
    if cs == [] then None
    else
      var n := |cs| - 1;
      var best := WidestVolume(cs[..n]);
      if best.Some? && (Storable(cs[best.value]) > Storable(cs[n])
                        || (Storable(cs[best.value]) == Storable(cs[n])
                            && cs[best.value].letter < cs[n].letter)) then best
      else Some(n)
  }

  datatype Chunk = Chunk(volume: nat, bytes: seq<byte>)

  /** The image as it is rebuilt on the target. */
  function Reassembled(chunks: seq<Chunk>): seq<byte> {
    if chunks == [] then [] else Reassembled(chunks[..|chunks| - 1]) + chunks[|chunks| - 1].bytes
  }

  function ChunkBytesOn(chunks: seq<Chunk>, volume: nat): nat {
    if chunks == [] then 0
    else
      ChunkBytesOn(chunks[..|chunks| - 1], volume)
      + if chunks[|chunks| - 1].volume == volume then |chunks[|chunks| - 1].bytes| else 0
  }

  /** The bytes a volume cannot take in pieces of the minimum length: the remainder behind its longest
      files, and everything when its files must be shorter than the minimum. */
  function Loss(c: Capacity): nat {
    if c.maxFileBytes < IMAGE_CHUNK_MIN_BYTES then c.usable
    else
      var rest := c.usable % c.maxFileBytes;
      if rest < IMAGE_CHUNK_MIN_BYTES then rest else 0
  }

  function Solid(c: Capacity): (s: nat)
    ensures s == c.usable - Loss(c)
  {
    RemainderIsLess(c.usable, c.maxFileBytes);
    c.usable - Loss(c)
  }

  lemma RemainderIsLess(a: nat, m: nat)
    ensures m > 0 ==> a % m <= a
  {
    if m > 0 { assert a == m * (a / m) + a % m; }
  }

  function TotalSolid(cs: seq<Capacity>): nat {
    if cs == [] then 0 else TotalSolid(cs[..|cs| - 1]) + Solid(cs[|cs| - 1])
  }

  /** The longest last piece that fits into what is lost otherwise. */
  function LongestTail(cs: seq<Capacity>): nat {
    if cs == [] then 0
    else Max(LongestTail(cs[..|cs| - 1]), Min(Loss(cs[|cs| - 1]), cs[|cs| - 1].maxFileBytes))
  }

  /** The longest image the chunk rule stores on these volumes. */
  function ChunkRoom(cs: seq<Capacity>): nat {
    TotalSolid(cs) + LongestTail(cs)
  }

  // ---------------------------------------------------------------------------------------------
  // One cut
  // ---------------------------------------------------------------------------------------------

  function Shortened(c: Capacity, length: u64): Capacity
    requires length <= c.usable
  {
    c.(usable := c.usable - length)
  }

  lemma RemainderAfterOne(a: nat, m: nat)
    requires 0 < m <= a
    ensures (a - m) % m == a % m
  {
    var q, r := a / m, a % m;
    assert a - m == m * (q - 1) + r by { assert m * (q - 1) == m * q - m; }
    DivisionIs(a - m, m, q - 1, r);
  }

  /** A full piece leaves the loss of its volume as it was. */
  lemma FullPieceKeepsLoss(c: Capacity)
    requires Storable(c) >= IMAGE_CHUNK_MIN_BYTES
    ensures Loss(Shortened(c, Storable(c))) == Loss(c)
    ensures Solid(Shortened(c, Storable(c))) == Solid(c) - Storable(c)
    ensures Storable(c) <= Solid(c)
  {
    if c.usable >= c.maxFileBytes {
      RemainderAfterOne(c.usable, c.maxFileBytes);
      RemainderIsLess(c.usable - c.maxFileBytes, c.maxFileBytes);
    } else {
      DivisionIs(c.usable, c.maxFileBytes, 0, c.usable);
      DivisionIs(0, c.maxFileBytes, 0, 0);
    }
  }

  lemma {:induction false} TailUnchanged(cs: seq<Capacity>, w: nat, c: Capacity)
    requires w < |cs| && c.maxFileBytes == cs[w].maxFileBytes && Loss(c) == Loss(cs[w])
    ensures LongestTail(cs[w := c]) == LongestTail(cs)
    ensures TotalSolid(cs[w := c]) == TotalSolid(cs) - Solid(cs[w]) + Solid(c)
  {
    var n := |cs| - 1;
    if w < n {
      TailUnchanged(cs[..n], w, c);
      assert cs[w := c][..n] == cs[..n][w := c];
    } else {
      assert cs[w := c][..n] == cs[..n];
    }
  }

  lemma {:induction false} SolidWithin(cs: seq<Capacity>, w: nat)
    requires w < |cs|
    ensures Solid(cs[w]) <= TotalSolid(cs) && Min(Loss(cs[w]), cs[w].maxFileBytes) <= LongestTail(cs)
  {
    if w < |cs| - 1 { SolidWithin(cs[..|cs| - 1], w); }
  }

  lemma ShortVolumeIsLoss(c: Capacity)
    requires Storable(c) < IMAGE_CHUNK_MIN_BYTES
    ensures Loss(c) == c.usable && Solid(c) == 0
  {
    if c.maxFileBytes >= IMAGE_CHUNK_MIN_BYTES { DivisionIs(c.usable, c.maxFileBytes, 0, c.usable); }
  }

  lemma {:induction false} ShortVolumesKeepOneTail(cs: seq<Capacity>, bound: nat)
    requires bound < IMAGE_CHUNK_MIN_BYTES && forall i :: 0 <= i < |cs| ==> Storable(cs[i]) <= bound
    ensures ChunkRoom(cs) <= bound
  {
    if cs != [] {
      ShortVolumesKeepOneTail(cs[..|cs| - 1], bound);
      ShortVolumeIsLoss(cs[|cs| - 1]);
      assert TotalSolid(cs) == 0 by { ShortVolumesHoldNothingSolid(cs); }
    }
  }

  lemma {:induction false} ShortVolumesHoldNothingSolid(cs: seq<Capacity>)
    requires forall i :: 0 <= i < |cs| ==> Storable(cs[i]) < IMAGE_CHUNK_MIN_BYTES
    ensures TotalSolid(cs) == 0
  {
    if cs != [] {
      ShortVolumesHoldNothingSolid(cs[..|cs| - 1]);
      ShortVolumeIsLoss(cs[|cs| - 1]);
    }
  }

  /** The widest volume alone holds as much of the chunk room as its longest piece. */
  lemma WidestPieceIsRoom(cs: seq<Capacity>, w: nat)
    requires w < |cs|
    ensures Storable(cs[w]) <= ChunkRoom(cs)
  {
    SolidWithin(cs, w);
    if Storable(cs[w]) >= IMAGE_CHUNK_MIN_BYTES { FullPieceKeepsLoss(cs[w]); } else { ShortVolumeIsLoss(cs[w]); }
  }

  /** One cut: a full piece shrinks the chunk room by exactly its length; the rest of the image fits;
      and no cut is refused unless the image exceeds the chunk room. */
  lemma CutIsExact(cs: seq<Capacity>, w: nat, remaining: u64)
    requires WidestVolume(cs) == Some(w) && remaining > 0
    ensures match NextImageChunkLen(remaining, cs[w].usable, cs[w].maxFileBytes)
            case None =>
              && remaining > ChunkRoom(cs)
              && forall i :: 0 <= i < |cs| ==> Storable(cs[i]) < IMAGE_CHUNK_MIN_BYTES && Storable(cs[i]) < remaining
            case Some(length) =>
              && 0 < length <= remaining && length <= Storable(cs[w])
              && (length < remaining ==> length >= IMAGE_CHUNK_MIN_BYTES)
              && (length == remaining ==> remaining <= ChunkRoom(cs))
              && (length < remaining ==> ChunkRoom(cs[w := Shortened(cs[w], length)]) == ChunkRoom(cs) - length)
  {
    WidestPieceIsRoom(cs, w);
    match NextImageChunkLen(remaining, cs[w].usable, cs[w].maxFileBytes)
    case None => ShortVolumesKeepOneTail(cs, Storable(cs[w]));
    case Some(length) =>
      if length < remaining {
        FullPieceKeepsLoss(cs[w]);
        TailUnchanged(cs, w, Shortened(cs[w], length));
      }
  }

  // ---------------------------------------------------------------------------------------------
  // The whole image
  // ---------------------------------------------------------------------------------------------

  /** Every piece is on an existing volume, within its file limit, and of at least 64 MiB unless it is the
      last one. */
  predicate GoodChunks(cs: seq<Capacity>, chunks: seq<Chunk>, lastMayBeShort: bool) {
    forall k :: 0 <= k < |chunks| ==>
      && chunks[k].volume < |cs|
      && 0 < |chunks[k].bytes| <= cs[chunks[k].volume].maxFileBytes
      && (|chunks[k].bytes| < 67_108_864 ==> lastMayBeShort && k == |chunks| - 1)
  }

  /** The room used up on each volume is what its pieces take. */
  predicate RoomBalanced(cs: seq<Capacity>, chunks: seq<Chunk>, left: seq<Capacity>) {
    && |left| == |cs|
    && forall i :: 0 <= i < |cs| ==>
         && left[i].letter == cs[i].letter && left[i].maxFileBytes == cs[i].maxFileBytes
         && left[i].usable + ChunkBytesOn(chunks, i) == cs[i].usable
  }

  lemma CutKeepsBalance(cs: seq<Capacity>, chunks: seq<Chunk>, left: seq<Capacity>, w: nat, bytes: seq<byte>)
    requires RoomBalanced(cs, chunks, left) && w < |cs| && |bytes| <= left[w].usable
    ensures RoomBalanced(cs, chunks + [Chunk(w, bytes)], left[w := Shortened(left[w], |bytes|)])
    ensures Reassembled(chunks + [Chunk(w, bytes)]) == Reassembled(chunks) + bytes
  {
    assert (chunks + [Chunk(w, bytes)])[..|chunks|] == chunks;
  }

  lemma CutKeepsGood(cs: seq<Capacity>, chunks: seq<Chunk>, w: nat, bytes: seq<byte>, last: bool)
    requires GoodChunks(cs, chunks, false) && w < |cs| && 0 < |bytes| <= cs[w].maxFileBytes
    requires |bytes| < IMAGE_CHUNK_MIN_BYTES ==> last
    ensures GoodChunks(cs, chunks + [Chunk(w, bytes)], last)
  {
  }

  /** All but `remaining` bytes are copied, and the chunk room has shrunk by exactly what was copied. */
  predicate Copied(image: seq<byte>, cs: seq<Capacity>, chunks: seq<Chunk>, left: seq<Capacity>, remaining: u64) {
    && remaining <= |image|
    && Reassembled(chunks) == image[..|image| - remaining]
    && RoomBalanced(cs, chunks, left) && GoodChunks(cs, chunks, remaining == 0)
    && RoomShrunk(|image|, cs, left, remaining)
  }

  predicate RoomShrunk(size: nat, cs: seq<Capacity>, left: seq<Capacity>, remaining: u64) {
    if remaining == 0 then size <= ChunkRoom(cs) else size - remaining + ChunkRoom(left) == ChunkRoom(cs)
  }

  lemma CutShrinksRoom(size: nat, cs: seq<Capacity>, left: seq<Capacity>, remaining: u64, w: nat)
    requires RoomShrunk(size, cs, left, remaining) && remaining > 0 && WidestVolume(left) == Some(w)
    requires NextImageChunkLen(remaining, left[w].usable, left[w].maxFileBytes).Some?
    ensures var length := NextImageChunkLen(remaining, left[w].usable, left[w].maxFileBytes).value;
      && 0 < length <= remaining && length <= left[w].usable && length <= left[w].maxFileBytes
      && (length < remaining ==> length >= 67_108_864)
      && RoomShrunk(size, cs, left[w := Shortened(left[w], length)], remaining - length)
  {
    CutIsExact(left, w, remaining);
  }

  lemma CutKeepsCopied(image: seq<byte>, cs: seq<Capacity>, chunks: seq<Chunk>, left: seq<Capacity>,
                       remaining: u64, w: nat)
    requires Copied(image, cs, chunks, left, remaining) && remaining > 0 && WidestVolume(left) == Some(w)
    requires NextImageChunkLen(remaining, left[w].usable, left[w].maxFileBytes).Some?
    ensures var length := NextImageChunkLen(remaining, left[w].usable, left[w].maxFileBytes).value;
            var at := |image| - remaining;
      && 0 < length <= remaining && length <= left[w].usable
      && Copied(image, cs, chunks + [Chunk(w, image[at..at + length])], left[w := Shortened(left[w], length)],
                remaining - length)
  {
    CutShrinksRoom(|image|, cs, left, remaining, w);
    var length := NextImageChunkLen(remaining, left[w].usable, left[w].maxFileBytes).value;
    PieceKeepsCopied(image, cs, chunks, left, remaining, w, length);
  }

  lemma PieceKeepsCopied(image: seq<byte>, cs: seq<Capacity>, chunks: seq<Chunk>, left: seq<Capacity>,
                         remaining: u64, w: nat, length: u64)
    requires Copied(image, cs, chunks, left, remaining) && w < |left|
    requires 0 < length <= remaining && length <= left[w].usable && length <= left[w].maxFileBytes
    requires length < remaining ==> length >= 67_108_864
    requires RoomShrunk(|image|, cs, left[w := Shortened(left[w], length)], remaining - length)
    ensures var at := |image| - remaining;
      Copied(image, cs, chunks + [Chunk(w, image[at..at + length])], left[w := Shortened(left[w], length)],
             remaining - length)
  {
    var at := |image| - remaining;
    var piece := image[at..at + length];
    CutKeepsBalance(cs, chunks, left, w, piece);
    CutKeepsGood(cs, chunks, w, piece, length == remaining);
    SliceJoins(image, at, length);
  }

  lemma SliceJoins(image: seq<byte>, at: nat, length: nat)
    requires at + length <= |image|
    ensures image[..at] + image[at..at + length] == image[..at + length]
  {
  }

  /** Cut and copy one more chunk, unless no volume can take one. */
  method WriteNextChunk(image: seq<byte>, ghost cs: seq<Capacity>, chunks: seq<Chunk>, left: seq<Capacity>,
                        remaining: u64)
    returns (written: bool, chunks': seq<Chunk>, left': seq<Capacity>, remaining': u64)
    requires Copied(image, cs, chunks, left, remaining) && remaining > 0
    ensures written ==> Copied(image, cs, chunks', left', remaining') && remaining' < remaining
    ensures !written ==> (chunks', left', remaining') == (chunks, left, remaining)
    ensures !written ==> |image| > ChunkRoom(cs)
    ensures !written ==> forall i :: 0 <= i < |left| ==> Storable(left[i]) < IMAGE_CHUNK_MIN_BYTES
  {
    var best := WidestVolume(left);
    if best.None? { return false, chunks, left, remaining; }
    var w := best.value;
    var length := NextImageChunkLen(remaining, left[w].usable, left[w].maxFileBytes);
    if length.None? {
      CutIsExact(left, w, remaining);
      return false, chunks, left, remaining;
    }
    CutKeepsCopied(image, cs, chunks, left, remaining, w);
    var at := |image| - remaining;
    written := true;
    chunks' := chunks + [Chunk(w, image[at..at + length.value])];
    left' := left[w := Shortened(left[w], length.value)];
    remaining' := remaining - length.value;
  }

  /** Copy the image in chunks. It is stored completely exactly when its length is within the chunk room;
      otherwise no volume is left that could take a piece of the minimum length. */
  method WriteImageChunks(image: seq<byte>, cs: seq<Capacity>)
    returns (chunks: seq<Chunk>, left: seq<Capacity>, complete: bool)
    requires |image| <= U64_MAX
    ensures complete <==> |image| <= ChunkRoom(cs)
    ensures complete ==> Reassembled(chunks) == image
    ensures !complete ==> Reassembled(chunks) < image
    ensures !complete ==> forall i :: 0 <= i < |left| ==> Storable(left[i]) < IMAGE_CHUNK_MIN_BYTES
    ensures GoodChunks(cs, chunks, complete) && RoomBalanced(cs, chunks, left)
  {
    chunks, left, complete := [], cs, true;
    var remaining: u64 := |image|;
    while complete && remaining > 0
      invariant Copied(image, cs, chunks, left, remaining)
      invariant !complete ==> remaining > 0 && |image| > ChunkRoom(cs)
      invariant !complete ==> forall i :: 0 <= i < |left| ==> Storable(left[i]) < IMAGE_CHUNK_MIN_BYTES
      decreases complete, remaining
    {
      complete, chunks, left, remaining := WriteNextChunk(image, cs, chunks, left, remaining);
    }
  }

  lemma LossIsShort(c: Capacity)
    requires c.maxFileBytes >= IMAGE_CHUNK_MIN_BYTES
    ensures Loss(c) < IMAGE_CHUNK_MIN_BYTES
  {
  }

  lemma {:induction false} RoomWithSlack(cs: seq<Capacity>)
    requires forall i :: 0 <= i < |cs| ==> cs[i].maxFileBytes >= IMAGE_CHUNK_MIN_BYTES
    ensures cs != [] ==> ChunkRoom(cs) + (|cs| - 1) * (IMAGE_CHUNK_MIN_BYTES - 1) >= TotalUsable(cs)
    ensures cs == [] ==> TotalUsable(cs) == 0
  {
    if cs != [] {
      RoomWithSlack(cs[..|cs| - 1]);
      LossIsShort(cs[|cs| - 1]);
    }
  }

  /** On volumes whose file limit is at least the minimum, total room beyond the image by one short
      remainder for every volume but one is enough. */
  lemma SlackSuffices(cs: seq<Capacity>, bytes: nat)
    requires forall i :: 0 <= i < |cs| ==> cs[i].maxFileBytes >= IMAGE_CHUNK_MIN_BYTES
    requires cs != [] && TotalUsable(cs) >= bytes + (|cs| - 1) * (IMAGE_CHUNK_MIN_BYTES - 1)
    ensures bytes <= ChunkRoom(cs)
  {
    RoomWithSlack(cs);
  }

  /** The planner asks only for total room, which is weaker: it accepts 100 MiB in chunks over two volumes
      with 63 MiB each, where not a single chunk can be cut. */
  lemma PlannerTestIsWeaker()
    ensures var cs := [Capacity('D', 63 * MIB, U64_MAX), Capacity('E', 63 * MIB, U64_MAX)]; var bytes: u64 := 100 * MIB;
      && PlaceSingle(cs, bytes, true).Success? && PlaceSingle(cs, bytes, true).value.image == Chunked
      && bytes > ChunkRoom(cs)
      && forall w :: WidestVolume(cs) == Some(w) ==> NextImageChunkLen(bytes, cs[w].usable, cs[w].maxFileBytes) == None
  {
    var cs := [Capacity('D', 63 * MIB, U64_MAX), Capacity('E', 63 * MIB, U64_MAX)];
    assert SaturatingTotal(cs[..1]) == 63 * MIB by { assert cs[..1][..0] == []; }
    CutIsExact(cs, WidestVolume(cs).value, 100 * MIB);
  }
}
