/** Progress accounting: `write_data` adds the bytes of every write to the
    running total `total_downloaded`, and `progress_display` stops once that
    total reaches `total_file_size`. The writes are taken as one sequential
    series; the mutex that serialises them is not modelled. */
module Progress {

  /** Sum of a series of write amounts. */
  function Sum(s: seq<nat>): nat {
    if s == [] then 0 else Sum(s[..|s| - 1]) + s[|s| - 1]
  }

  lemma {:induction false} SumAppend(a: seq<nat>, b: seq<nat>)
    ensures Sum(a + b) == Sum(a) + Sum(b)
    decreases |b|
  {
    if b == [] {
      assert a + b == a;
    } else {
      var b' := b[..|b| - 1];
      assert (a + b)[..|a + b| - 1] == a + b';
      SumAppend(a, b');
    }
  }

  /** Part of a series never adds up to more than the whole series: during a
      transfer whose writes total the file size, the counter stays at or
      below that size. */
  lemma SumPrefix(a: seq<nat>, k: nat)
    requires k <= |a|
    ensures Sum(a[..k]) <= Sum(a)
  {
    assert a == a[..k] + a[k..];
    SumAppend(a[..k], a[k..]);
  }

  /** The total does not depend on the order of the writes: concurrent
      fetchers whose writes interleave in any order reach the same count. */
  lemma {:induction false} SumPermutation(a: seq<nat>, b: seq<nat>)
    requires multiset(a) == multiset(b)
    ensures Sum(a) == Sum(b)
    decreases |a|
  {
    if a != [] {
      var x := a[|a| - 1];
      var a' := a[..|a| - 1];
      assert a == a' + [x];
      assert x in multiset(b);
      var j :| 0 <= j < |b| && b[j] == x;
      var b' := b[..j] + b[j + 1..];
      assert b == b[..j] + [x] + b[j + 1..];
      assert multiset(b) == multiset(b') + multiset{x} by {
        assert multiset(b) == multiset(b[..j]) + multiset{x} + multiset(b[j + 1..]);
        assert multiset(b') == multiset(b[..j]) + multiset(b[j + 1..]);
      }
      assert multiset(a) == multiset(a') + multiset{x};
      assert multiset(a') == multiset(a) - multiset{x};
      assert multiset(b') == multiset(b) - multiset{x};
      SumPermutation(a', b');
      SumAppend(b[..j] + [x], b[j + 1..]);
      SumAppend(b[..j], [x]);
      SumAppend(b[..j], b[j + 1..]);
      assert Sum([x]) == x by {
        assert [x][..0] == [];
      }
    } else {
      assert b == [];
    }
  }

  /** The shared counters of one transfer. `writes` records the amount
      returned by every `write_data` call since the last reset. */
  class ProgressCounter {
    var totalDownloaded: int
    var totalFileSize: int
    ghost var writes: seq<nat>

    /** The counter is exactly the sum of the amounts the writes returned. */
    ghost predicate Valid()
      reads this
    {
      totalDownloaded == Sum(writes)
    }

    /** The globals' initial values. */
    constructor ()
      ensures Valid() && totalDownloaded == 0 && totalFileSize == 0 && writes == []
    {
      totalDownloaded := 0;
      totalFileSize := 0;
      writes := [];
    }

    /** Both counters are zeroed before each download. */
    method Reset()
      modifies this
      ensures Valid() && totalDownloaded == 0 && totalFileSize == 0 && writes == []
    {
      totalDownloaded := 0;
      totalFileSize := 0;
      writes := [];
    }

    /** The probed size becomes the display's target; the probe may have
        failed and returned -1. */
    method SetFileSize(probed: int)
      requires Valid()
      modifies this`totalFileSize
      ensures Valid() && totalFileSize == probed
    {
      totalFileSize := probed;
    }

    /** `write_data(ptr, size, nmemb, stream)`: `written` is the item count
        `fwrite` reports (at most `nmemb`); the counter grows by, and the call
        returns, `written * size`. */
    method WriteData(size: nat, nmemb: nat, written: nat) returns (amount: nat)
      requires Valid() && written <= nmemb
      modifies this`totalDownloaded, this`writes
      ensures Valid()
      ensures amount == written * size
      ensures totalDownloaded == old(totalDownloaded) + amount >= old(totalDownloaded)
      ensures writes == old(writes) + [amount]
    {
      amount := written * size;
      totalDownloaded := totalDownloaded + amount;
      writes := writes + [amount];
      assert writes[..|writes| - 1] == old(writes);
    }

  }

  /** A series of writes applied to a reset counter leaves it at their sum,
      and the display stops exactly when that sum reaches the probed size. */
  method ApplyWrites(p: ProgressCounter, probed: int, amounts: seq<nat>) returns (stop: bool)
    modifies p
    ensures p.Valid() && p.totalDownloaded == Sum(amounts) && p.totalFileSize == probed
    ensures stop <==> Sum(amounts) >= probed
  {
    p.Reset();
    p.SetFileSize(probed);
    for i := 0 to |amounts|
      invariant p.Valid() && p.writes == amounts[..i] && p.totalFileSize == probed
    {
      var _ := p.WriteData(1, amounts[i], amounts[i]);
      assert amounts[..i + 1] == amounts[..i] + [amounts[i]];
    }
    assert amounts[..|amounts|] == amounts;
    stop := p.totalDownloaded >= p.totalFileSize;
  }

  /** Index of the first reading at or above `target`, or `|readings|` when
      there is none. */
  function FirstAtLeast(readings: seq<int>, target: int): (k: nat)
    ensures k <= |readings|
    ensures forall j :: 0 <= j < k ==> readings[j] < target
    ensures k < |readings| ==> readings[k] >= target
  {
    if readings == [] then 0
    else if readings[0] >= target then 0
    else 1 + FirstAtLeast(readings[1..], target)
  }

  /** The three properties of FirstAtLeast determine it. */
  lemma FirstAtLeastUnique(readings: seq<int>, target: int, k: nat)
    requires k <= |readings|
    requires forall j :: 0 <= j < k ==> readings[j] < target
    requires k < |readings| ==> readings[k] >= target
    ensures FirstAtLeast(readings, target) == k
  {
  }

  /** The polling loop of `progress_display`. `readings` are the values of
      the counter at the successive samples, which the fetch threads
      determine; `target` is `total_file_size`. Every reading is rendered,
      and the loop stops right after rendering the first one that is at or
      above the target. `stopped` is false when the readings run out first. */
  method ProgressDisplay(readings: seq<int>, target: int) returns (shown: seq<int>, stopped: bool)
    ensures stopped <==> exists j :: 0 <= j < |readings| && readings[j] >= target
    ensures stopped ==> shown == readings[..FirstAtLeast(readings, target) + 1]
    ensures !stopped ==> shown == readings
    ensures stopped ==> |shown| > 0 && shown[|shown| - 1] >= target
    ensures forall j :: 0 <= j < |shown| - 1 ==> shown[j] < target
  {
    shown := [];
    stopped := false;
    var i := 0;
    while i < |readings|
      invariant 0 <= i <= |readings|
      invariant shown == readings[..i]
      invariant forall j :: 0 <= j < i ==> readings[j] < target
    {
      var downloaded := readings[i];
      shown := shown + [downloaded];
      if downloaded >= target {
        FirstAtLeastUnique(readings, target, i);
        assert shown == readings[..i + 1];
        stopped := true;
        return;
      }
      i := i + 1;
    }
    assert readings[..i] == readings;
  }
}
