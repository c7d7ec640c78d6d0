/** The byte-range partitioner of `divide_file_into_chunks`: a probed file size
    is cut into `num_parts` inclusive ranges `[start, end]`, every range but the
    last spanning `file_size / num_parts` bytes and the last one absorbing the
    remainder. */
module Partitioner {

  /** One range segment (the C struct CHUNK without its URL copy). */
  datatype Chunk = Chunk(start: int, end: int, partNum: int)

  /** Outcome of the partitioner: the size probe may have failed. */
  datatype PartitionResult = Partitioned(chunks: seq<Chunk>) | SizeUnknown

  /** Number of bytes in an inclusive range (0 for the empty range `[a, a-1]`). */
  function Length(c: Chunk): int {
    c.end - c.start + 1
  }

  predicate Contains(c: Chunk, b: int) {
    c.start <= b <= c.end
  }

  /** `cs` is a gapless, non-overlapping cover of `[lo, hi]`, in order:
      it starts at `lo`, ends at `hi`, every range has a non-negative length
      and each range starts right after its predecessor ends. */
  ghost predicate Tiles(cs: seq<Chunk>, lo: int, hi: int) {
    && |cs| > 0
    && cs[0].start == lo
    && cs[|cs| - 1].end == hi
    && (forall i :: 0 <= i < |cs| ==> cs[i].start <= cs[i].end + 1)
    && (forall i :: 0 <= i < |cs| - 1 ==> cs[i].end + 1 == cs[i + 1].start)
  }

  /** Segment `i` of a file of `fileSize` bytes cut into `numParts` parts.
      Both operands of the division are positive here, so C's truncating
      division and Dafny's Euclidean division agree. */
  function ChunkAt(fileSize: int, numParts: int, i: int): Chunk
    requires fileSize > 0 && numParts >= 1
  {
    var chunkSize := fileSize / numParts;
    var start := i * chunkSize;
    Chunk(start, if i == numParts - 1 then fileSize - 1 else start + chunkSize - 1, i)
  }

  /** The whole partition, as the loop of `divide_file_into_chunks` builds it. */
  function Partition(fileSize: int, numParts: int): seq<Chunk>
    requires fileSize > 0 && numParts >= 1
  {
    seq(numParts, i => ChunkAt(fileSize, numParts, i))
  }

  /** The partitioning loop: it refuses a failed or empty size probe and
      otherwise fills an array of `numParts` chunks in index order. */
  method DivideFileIntoChunks(fileSize: int, numParts: int) returns (r: PartitionResult)
    requires fileSize > 0 ==> numParts >= 1
    ensures r.SizeUnknown? <==> fileSize <= 0
    ensures r.Partitioned? ==> r.chunks == Partition(fileSize, numParts)
    ensures r.Partitioned? ==> Tiles(r.chunks, 0, fileSize - 1)
    ensures r.Partitioned? ==> forall i :: 0 <= i < numParts ==> r.chunks[i].partNum == i
  {
    if fileSize <= 0 {
      return SizeUnknown;
    }
    var chunk := new Chunk[numParts];
    var chunkSize := fileSize / numParts;
    var start := 0;
    var end := 0;
    for i := 0 to numParts
      invariant forall k :: 0 <= k < i ==> chunk[k] == ChunkAt(fileSize, numParts, k)
    {
      start := i * chunkSize;
      if i == numParts - 1 {
        end := fileSize - 1;
      } else {
        end := start + chunkSize - 1;
      }
      chunk[i] := Chunk(start, end, i);
    }
    assert chunk[..] == Partition(fileSize, numParts);
    PartitionTiles(fileSize, numParts);
    r := Partitioned(chunk[..]);
  }

  /** The partition is a gapless, non-overlapping cover of `[0, fileSize-1]`,
      also when `numParts > fileSize` makes the leading chunks empty. */
  lemma PartitionTiles(fileSize: int, numParts: int)
    requires fileSize > 0 && numParts >= 1
    ensures Tiles(Partition(fileSize, numParts), 0, fileSize - 1)
  {
    var cs := Partition(fileSize, numParts);
    var q := fileSize / numParts;
    assert q >= 0;
    forall i | 0 <= i < numParts - 1
      ensures cs[i].end + 1 == cs[i + 1].start
    {
      assert cs[i].end + 1 == i * q + q;
      assert cs[i + 1].start == (i + 1) * q;
      MulSucc(i, q);
    }
    forall i | 0 <= i < numParts
      ensures cs[i].start <= cs[i].end + 1
    {
      if i == numParts - 1 {
        LastStartInRange(fileSize, numParts);
      }
    }
    assert cs[0].start == 0 * q == 0;
  }

  lemma MulSucc(i: int, q: int)
    ensures (i + 1) * q == i * q + q
  {
  }

  lemma MulMono(a: int, b: int, q: int)
    requires a <= b && q >= 0
    ensures a * q <= b * q
  {
    assert b * q - a * q == (b - a) * q;
  }

  lemma LastStartInRange(fileSize: int, numParts: int)
    requires fileSize > 0 && numParts >= 1
    ensures (numParts - 1) * (fileSize / numParts) + fileSize / numParts <= fileSize
    ensures fileSize - (numParts - 1) * (fileSize / numParts) == fileSize / numParts + fileSize % numParts
  {
    var q := fileSize / numParts;
    assert fileSize == numParts * q + fileSize % numParts;
    MulSucc(numParts - 1, q);
  }

  /** Every chunk but the last spans exactly `fileSize / numParts` bytes; the
      last one spans that plus the remainder `fileSize % numParts`. */
  lemma PartitionLengths(fileSize: int, numParts: int)
    requires fileSize > 0 && numParts >= 1
    ensures forall i :: 0 <= i < numParts - 1 ==>
      Length(Partition(fileSize, numParts)[i]) == fileSize / numParts
    ensures Length(Partition(fileSize, numParts)[numParts - 1]) == fileSize / numParts + fileSize % numParts
  {
    LastStartInRange(fileSize, numParts);
  }

  /** Chunk `i` starts at `i * chunkSize` and carries part number `i`, so the
      scratch file it is fetched into is determined by its position. */
  lemma PartitionStarts(fileSize: int, numParts: int, i: int)
    requires fileSize > 0 && numParts >= 1 && 0 <= i < numParts
    ensures Partition(fileSize, numParts)[i].start == i * (fileSize / numParts)
    ensures Partition(fileSize, numParts)[i].partNum == i
    ensures i == numParts - 1 <==> Partition(fileSize, numParts)[i].end == fileSize - 1
  {
    if i < numParts - 1 {
      var q := fileSize / numParts;
      MulSucc(i, q);
      MulMono(i + 1, numParts - 1, q);
      LastStartInRange(fileSize, numParts);
    }
  }

  /** Example: 7 bytes in 3 parts are `[0,1]`, `[2,3]`, `[4,6]`. */
  lemma SevenBytesInThreeParts()
    ensures Partition(7, 3) == [Chunk(0, 1, 0), Chunk(2, 3, 1), Chunk(4, 6, 2)]
  {
    assert Partition(7, 3)[2] == Chunk(4, 6, 2);
  }

  /** Example: more parts than bytes leaves the leading chunks empty. */
  lemma TwoBytesInFourParts()
    ensures Partition(2, 4) == [Chunk(0, -1, 0), Chunk(0, -1, 1), Chunk(0, -1, 2), Chunk(0, 1, 3)]
  {
  }

  // ---------------------------------------------------------------------
  // Facts about any tiling.

  /** In a tiling, an earlier range ends before a later one starts. */
  lemma {:induction false} TilesOrdered(cs: seq<Chunk>, lo: int, hi: int, i: int, j: int)
    requires Tiles(cs, lo, hi) && 0 <= i < j < |cs|
    ensures cs[i].end < cs[j].start
    decreases j - i
  {
    if j > i + 1 {
      TilesOrdered(cs, lo, hi, i, j - 1);
    }
  }

  /** Every range of a tiling of `[lo, hi]` lies inside `[lo, hi + 1)`. */
  lemma TilesBounds(cs: seq<Chunk>, lo: int, hi: int, i: int)
    requires Tiles(cs, lo, hi) && 0 <= i < |cs|
    ensures lo <= cs[i].start <= cs[i].end + 1 <= hi + 1
  {
    if i > 0 {
      TilesOrdered(cs, lo, hi, 0, i);
    }
    if i < |cs| - 1 {
      TilesOrdered(cs, lo, hi, i, |cs| - 1);
    }
  }

  /** No byte lies in two ranges of a tiling. */
  lemma TilesDisjoint(cs: seq<Chunk>, lo: int, hi: int, i: int, j: int, b: int)
    requires Tiles(cs, lo, hi) && 0 <= i < |cs| && 0 <= j < |cs|
    requires Contains(cs[i], b) && Contains(cs[j], b)
    ensures i == j
  {
    if i < j {
      TilesOrdered(cs, lo, hi, i, j);
    } else if j < i {
      TilesOrdered(cs, lo, hi, j, i);
    }
  }

  /** Every byte of `[lo, hi]` lies in some range of a tiling. */
  lemma {:induction false} TilesCover(cs: seq<Chunk>, lo: int, hi: int, b: int)
    requires Tiles(cs, lo, hi) && lo <= b <= hi
    ensures exists i :: 0 <= i < |cs| && Contains(cs[i], b)
  {
    var n := |cs|;
    if b <= cs[0].end {
      assert Contains(cs[0], b);
    } else {
      assert n > 1;
      var tail := cs[1..];
      assert Tiles(tail, cs[1].start, hi) by {
        forall i | 0 <= i < |tail| - 1
          ensures tail[i].end + 1 == tail[i + 1].start
        {
          assert tail[i] == cs[i + 1] && tail[i + 1] == cs[i + 2];
        }
      }
      TilesCover(tail, cs[1].start, hi, b);
      var i :| 0 <= i < |tail| && Contains(tail[i], b);
      assert Contains(cs[i + 1], b);
    }
  }

  /** Sum of the lengths of a sequence of ranges. */
  function TotalLength(cs: seq<Chunk>): int {
    if cs == [] then 0 else TotalLength(cs[..|cs| - 1]) + Length(cs[|cs| - 1])
  }

  /** The lengths of a tiling of `[lo, hi]` add up to `hi - lo + 1`. */
  lemma {:induction false} TilesTotalLength(cs: seq<Chunk>, lo: int, hi: int)
    requires Tiles(cs, lo, hi)
    ensures TotalLength(cs) == hi - lo + 1
  {
    var n := |cs|;
    if n > 1 {
      var front := cs[..n - 1];
      assert Tiles(front, lo, cs[n - 2].end) by {
        forall i | 0 <= i < |front| - 1
          ensures front[i].end + 1 == front[i + 1].start
        {
          assert front[i] == cs[i] && front[i + 1] == cs[i + 1];
        }
      }
      TilesTotalLength(front, lo, cs[n - 2].end);
    }
  }

  /** Each byte of the file belongs to exactly one chunk of the partition,
      and the chunk lengths add up to the file size. */
  lemma PartitionCoversExactlyOnce(fileSize: int, numParts: int, b: int)
    requires fileSize > 0 && numParts >= 1 && 0 <= b < fileSize
    ensures exists i :: 0 <= i < numParts && Contains(Partition(fileSize, numParts)[i], b)
    ensures forall i, j ::
      (0 <= i < numParts && 0 <= j < numParts &&
       Contains(Partition(fileSize, numParts)[i], b) && Contains(Partition(fileSize, numParts)[j], b)) ==> i == j
    ensures TotalLength(Partition(fileSize, numParts)) == fileSize
  {
    var cs := Partition(fileSize, numParts);
    PartitionTiles(fileSize, numParts);
    TilesCover(cs, 0, fileSize - 1, b);
    forall i, j | 0 <= i < numParts && 0 <= j < numParts && Contains(cs[i], b) && Contains(cs[j], b)
      ensures i == j
    {
      TilesDisjoint(cs, 0, fileSize - 1, i, j, b);
    }
    TilesTotalLength(cs, 0, fileSize - 1);
  }
}
