/** One download end to end, as `download_URL` composes it: the probed size
    is partitioned, each fetcher leaves its byte range in scratch file
    `part_<i>` while its writes feed the shared counter, and the merge
    concatenates the scratch files. The network transfer itself is not
    modelled: a fetcher that succeeds is taken to leave exactly the bytes of
    its range, written through any series of `write_data` calls. */
module Transfer {
  import opened Partitioner
  import opened Merge
  import opened Progress

  /** The bytes of range `c` of the resource. */
  function Slice(content: seq<byte>, c: Chunk): (s: seq<byte>)
    requires 0 <= c.start <= c.end + 1 <= |content|
    ensures |s| == Length(c)
  {
    content[c.start .. c.end + 1]
  }

  /** Every chunk of the partition lies within the file. */
  lemma PartitionInBounds(fileSize: int, numParts: int)
    requires fileSize > 0 && numParts >= 1
    ensures forall i :: 0 <= i < numParts ==>
      0 <= Partition(fileSize, numParts)[i].start <= Partition(fileSize, numParts)[i].end + 1 <= fileSize
  {
    PartitionTiles(fileSize, numParts);
    forall i | 0 <= i < numParts
      ensures 0 <= Partition(fileSize, numParts)[i].start <= Partition(fileSize, numParts)[i].end + 1 <= fileSize
    {
      TilesBounds(Partition(fileSize, numParts), 0, fileSize - 1, i);
    }
  }

  /** The scratch files once every fetcher has written its whole range. */
  function FetchedParts(content: seq<byte>, numParts: int): (parts: map<nat, seq<byte>>)
    requires |content| > 0 && numParts >= 1
    ensures forall i: nat :: i in parts <==> i < numParts
  {
    PartitionInBounds(|content|, numParts);
    map i: nat | i < numParts :: Slice(content, Partition(|content|, numParts)[i])
  }

  /** Parts `0 .. k-1` of a complete fetch are the file up to the end of
      chunk `k-1`. */
  lemma {:induction false} FetchedPrefix(content: seq<byte>, numParts: int, k: nat)
    requires |content| > 0 && numParts >= 1 && 1 <= k <= numParts
    ensures var cs := Partition(|content|, numParts);
      0 <= cs[k - 1].end + 1 <= |content| &&
      Concat(FetchedParts(content, numParts), k) == content[.. cs[k - 1].end + 1]
  {
    var cs := Partition(|content|, numParts);
    var parts := FetchedParts(content, numParts);
    PartitionTiles(|content|, numParts);
    PartitionInBounds(|content|, numParts);
    if k == 1 {
      calc {
        Concat(parts, 1);
        Concat(parts, 0) + parts[0];
        content[cs[0].start .. cs[0].end + 1];
      }
    } else {
      FetchedPrefix(content, numParts, k - 1);
      assert cs[k - 2].end + 1 == cs[k - 1].start;
      var m := cs[k - 1].start;
      assert content[..m] + content[m .. cs[k - 1].end + 1] == content[.. cs[k - 1].end + 1];
    }
  }

  /** Merge fidelity: after a complete fetch the merge finds every part and
      its output is the resource, byte for byte; no scratch file is left. */
  lemma MergeReconstructs(content: seq<byte>, numParts: int)
    requires |content| > 0 && numParts >= 1
    ensures FirstMissing(FetchedParts(content, numParts), numParts) == numParts
    ensures Concat(FetchedParts(content, numParts), numParts) == content
    ensures RemoveBelow(FetchedParts(content, numParts), numParts) == map[]
  {
    var parts := FetchedParts(content, numParts);
    FirstMissingUnique(parts, numParts, numParts);
    FetchedPrefix(content, numParts, numParts);
    PartitionTiles(|content|, numParts);
    assert content[..|content|] == content;
    assert RemoveBelow(parts, numParts) == map[];
  }

  /** A merge over scratch files whose first missing one is part `i`, and
      whose parts before it are complete, leaves exactly the first
      `start_i` bytes of the resource in the final file. */
  lemma MergeStopsAtMissingPart(content: seq<byte>, numParts: int, parts: map<nat, seq<byte>>, i: nat)
    requires |content| > 0 && numParts >= 1 && i < numParts
    requires forall j :: 0 <= j < i ==> j in parts && parts[j] == FetchedParts(content, numParts)[j]
    requires i !in parts
    ensures FirstMissing(parts, numParts) == i
    ensures 0 <= Partition(|content|, numParts)[i].start <= |content| &&
      Concat(parts, i) == content[.. Partition(|content|, numParts)[i].start]
  {
    FirstMissingUnique(parts, numParts, i);
    var cs := Partition(|content|, numParts);
    PartitionTiles(|content|, numParts);
    PartitionInBounds(|content|, numParts);
    if i > 0 {
      var fetched := FetchedParts(content, numParts);
      ConcatAgrees(parts, fetched, i);
      FetchedPrefix(content, numParts, i);
      assert cs[i - 1].end + 1 == cs[i].start;
    }
  }

  /** Concatenations of two part maps agree where their parts agree. */
  lemma {:induction false} ConcatAgrees(p: map<nat, seq<byte>>, q: map<nat, seq<byte>>, k: nat)
    requires forall j :: 0 <= j < k ==> j in p && j in q && p[j] == q[j]
    ensures Concat(p, k) == Concat(q, k)
  {
    if k > 0 {
      ConcatAgrees(p, q, k - 1);
    }
  }

  // ---------------------------------------------------------------------
  // The counter across all fetchers.

  /** All writes of all fetchers, fetcher by fetcher. */
  function Flatten(perPart: seq<seq<nat>>): seq<nat> {
    if perPart == [] then [] else Flatten(perPart[..|perPart| - 1]) + perPart[|perPart| - 1]
  }

  /** The per-fetcher totals added up. */
  function SumOfSums(perPart: seq<seq<nat>>): nat {
    if perPart == [] then 0 else SumOfSums(perPart[..|perPart| - 1]) + Sum(perPart[|perPart| - 1])
  }

  lemma {:induction false} SumFlatten(perPart: seq<seq<nat>>)
    ensures Sum(Flatten(perPart)) == SumOfSums(perPart)
    decreases |perPart|
  {
    if perPart != [] {
      var front := perPart[..|perPart| - 1];
      SumFlatten(front);
      SumAppend(Flatten(front), perPart[|perPart| - 1]);
    }
  }

  /** If fetcher `i`'s writes add up to the size of part `i`, all writes
      together add up to the size of the merged output. */
  lemma {:induction false} SumOfSumsIsConcatLength(parts: map<nat, seq<byte>>, perPart: seq<seq<nat>>, k: nat)
    requires k <= |perPart|
    requires forall i :: 0 <= i < k ==> i in parts && Sum(perPart[i]) == |parts[i]|
    ensures SumOfSums(perPart[..k]) == |Concat(parts, k)|
  {
    if k > 0 {
      SumOfSumsIsConcatLength(parts, perPart, k - 1);
      assert perPart[..k][..k - 1] == perPart[..k - 1];
    }
  }

  /** No lost update: however the writes of the fetchers interleave, the
      counter ends at the file size, so the display loop stops, and at no
      point of the series does it exceed the file size. */
  lemma CounterReachesFileSize(content: seq<byte>, numParts: int, perPart: seq<seq<nat>>, writes: seq<nat>)
    requires |content| > 0 && numParts >= 1 && |perPart| == numParts
    requires forall i :: 0 <= i < numParts ==> Sum(perPart[i]) == |FetchedParts(content, numParts)[i]|
    requires multiset(writes) == multiset(Flatten(perPart))
    ensures Sum(writes) == |content|
    ensures forall k :: 0 <= k <= |writes| ==> Sum(writes[..k]) <= |content|
  {
    var parts := FetchedParts(content, numParts);
    SumPermutation(writes, Flatten(perPart));
    SumFlatten(perPart);
    SumOfSumsIsConcatLength(parts, perPart, numParts);
    assert perPart[..numParts] == perPart;
    MergeReconstructs(content, numParts);
    forall k | 0 <= k <= |writes|
      ensures Sum(writes[..k]) <= |content|
    {
      SumPrefix(writes, k);
    }
  }

  /** The counter as the display samples it: reading `k` is taken after the
      first `points[k]` writes of the series. */
  function Readings(writes: seq<nat>, points: seq<nat>): (r: seq<int>)
    requires forall k :: 0 <= k < |points| ==> points[k] <= |writes|
    ensures |r| == |points|
  {
    seq(|points|, k requires 0 <= k < |points| => Sum(writes[..points[k]]))
  }

  /** The display of a complete fetch, whose target is the file size and
      whose last sample follows the last write, stops at a reading equal to
      the file size and at the first such reading; every earlier reading is
      below it. */
  lemma DisplayStopsAtFileSize(content: seq<byte>, numParts: int, perPart: seq<seq<nat>>,
                               writes: seq<nat>, points: seq<nat>)
    requires |content| > 0 && numParts >= 1 && |perPart| == numParts
    requires forall i :: 0 <= i < numParts ==> Sum(perPart[i]) == |FetchedParts(content, numParts)[i]|
    requires multiset(writes) == multiset(Flatten(perPart))
    requires forall k :: 0 <= k < |points| ==> points[k] <= |writes|
    requires |points| > 0 && points[|points| - 1] == |writes|
    ensures var readings := Readings(writes, points);
      var stop := FirstAtLeast(readings, |content|);
      && stop < |readings|
      && readings[stop] == |content|
      && (forall k :: 0 <= k < stop ==> readings[k] < |content|)
      && (forall k :: 0 <= k < |readings| && readings[k] == |content| ==> stop <= k)
  {
    var readings := Readings(writes, points);
    CounterReachesFileSize(content, numParts, perPart, writes);
    var last := |points| - 1;
    assert writes[..points[last]] == writes;
    assert readings[last] == |content|;
    var stop := FirstAtLeast(readings, |content|);
    assert stop <= last;
    assert readings[stop] <= |content|;
  }
}
