/** The ordered merge of `merge_parts`: the scratch files `part_0` ..
    `part_<n-1>` are appended, in ascending index order, to the final file and
    each is removed once copied; the merge stops at the first part that cannot
    be opened. Scratch files are keyed by their index (see PartNames for why the
    name determines the index); a part is present when its index is a key. */
module Merge {

  newtype byte = x: int | 0 <= x < 256

  /** Size of the copy buffer of the merge loop. */
  const BUFFER_SIZE: nat := 4096

  datatype MergeStatus =
    | Merged                 // every part was appended and removed
    | CannotCreateFinal      // the final file could not be opened for writing
    | MissingPart(index: nat) // part `index` could not be opened; the merge stopped there

  /** The first index below `n` whose part is missing, or `n` when
      parts `0 .. n-1` are all present. */
  function FirstMissing(parts: map<nat, seq<byte>>, n: nat): (k: nat)
    ensures k <= n
    ensures forall i :: 0 <= i < k ==> i in parts
    ensures k < n ==> k !in parts
  {
    if n == 0 then 0
    else
      var k := FirstMissing(parts, n - 1);
      if k < n - 1 then k else if n - 1 in parts then n else n - 1
  }

  /** The three properties of FirstMissing determine it. */
  lemma {:induction false} FirstMissingUnique(parts: map<nat, seq<byte>>, n: nat, k: nat)
    requires k <= n
    requires forall i :: 0 <= i < k ==> i in parts
    requires k < n ==> k !in parts
    ensures FirstMissing(parts, n) == k
  {
  }

  /** Parts `0 .. k-1` concatenated in ascending index order. */
  function Concat(parts: map<nat, seq<byte>>, k: nat): seq<byte>
    requires forall i :: 0 <= i < k ==> i in parts
  {
    if k == 0 then [] else Concat(parts, k - 1) + parts[k - 1]
  }

  /** The output of merging parts `0 .. k-1` holds every byte of part `i`
      right after the bytes of parts `0 .. i-1`: nothing is skipped,
      duplicated or reordered. */
  lemma {:induction false} ConcatLayout(parts: map<nat, seq<byte>>, k: nat, i: nat)
    requires forall j :: 0 <= j < k ==> j in parts
    requires i < k
    ensures |Concat(parts, i)| + |parts[i]| <= |Concat(parts, k)|
    ensures Concat(parts, k)[|Concat(parts, i)| .. |Concat(parts, i)| + |parts[i]|] == parts[i]
    ensures Concat(parts, k)[..|Concat(parts, i)|] == Concat(parts, i)
  {
    if i < k - 1 {
      ConcatLayout(parts, k - 1, i);
    }
  }

  /** The parts left after parts `0 .. k-1` have been removed. */
  function RemoveBelow(parts: map<nat, seq<byte>>, k: nat): (rest: map<nat, seq<byte>>)
    ensures forall i :: i in rest <==> i in parts && i >= k
    ensures forall i :: i in rest ==> rest[i] == parts[i]
  {
    map i | i in parts && i >= k :: parts[i]
  }

  /** The files a download works on: the scratch files by index and the
      final file. */
  class Workspace {
    var parts: map<nat, seq<byte>>
    var output: seq<byte>

    constructor (parts0: map<nat, seq<byte>>)
      ensures parts == parts0 && output == []
    {
      parts := parts0;
      output := [];
    }

    /** `merge_parts(final_filename, num_parts)`. Whether the final file can be
        created is the outcome of `fopen`, given as `canCreateFinal`. Each
        part is copied in blocks of at most `BUFFER_SIZE` bytes. */
    method MergeParts(numParts: int, canCreateFinal: bool) returns (status: MergeStatus)
      modifies this
      ensures !canCreateFinal ==>
        status == CannotCreateFinal && parts == old(parts) && output == old(output)
      ensures canCreateFinal ==>
        var n := if numParts < 0 then 0 else numParts;
        var k := FirstMissing(old(parts), n);
        && status == (if k < n then MissingPart(k) else Merged)
        && output == Concat(old(parts), k)
        && parts == RemoveBelow(old(parts), k)
    {
      if !canCreateFinal {
        return CannotCreateFinal;
      }
      output := [];
      ghost var n := if numParts < 0 then 0 else numParts;
      ghost var parts0 := parts;
      assert parts0 == RemoveBelow(parts0, 0);
      var i := 0;
      while i < numParts
        invariant 0 <= i <= n
        invariant forall j :: 0 <= j < i ==> j in parts0
        invariant output == Concat(parts0, i)
        invariant parts == RemoveBelow(parts0, i)
      {
        if i !in parts {
          FirstMissingUnique(parts0, n, i);
          return MissingPart(i);
        }
        var part := parts[i];
        ghost var before := output;
        var pos := 0;
        while pos < |part|
          modifies this`output
          invariant 0 <= pos <= |part|
          invariant output == before + part[..pos]
        {
          var bytes := if |part| - pos < BUFFER_SIZE then |part| - pos else BUFFER_SIZE;
          output := output + part[pos .. pos + bytes];
          pos := pos + bytes;
        }
        assert part[..pos] == part;
        parts := map j | j in parts && j != i :: parts[j];
        assert parts == RemoveBelow(parts0, i + 1);
        i := i + 1;
      }
      FirstMissingUnique(parts0, n, n);
      status := Merged;
    }
  }
}
