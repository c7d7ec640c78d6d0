/** The bounded URL list: `URLs[MAX_URLS]` with the count `url_count`.
    `get_URL` appends at the end unless the list is full, `delete_URL` shifts
    the later entries one place to the left, and "download all" empties the
    list by deleting index 0 once per entry it started with. */
module Registry {

  const MAX_URLS: nat := 10

  /** `s` without its element at `k`. */
  function RemoveAt<T>(s: seq<T>, k: nat): (r: seq<T>)
    requires k < |s|
    ensures |r| == |s| - 1
  {
    s[..k] + s[k + 1..]
  }

  /** Removing one entry keeps every other entry, in the same relative order:
      the entries before `k` stay where they are and those after it move one
      place to the left. */
  lemma RemoveAtKeepsOrder<T>(s: seq<T>, k: nat)
    requires k < |s|
    ensures forall i :: 0 <= i < k ==> RemoveAt(s, k)[i] == s[i]
    ensures forall i :: k <= i < |s| - 1 ==> RemoveAt(s, k)[i] == s[i + 1]
    ensures multiset(RemoveAt(s, k)) + multiset{s[k]} == multiset(s)
  {
    assert s == s[..k] + [s[k]] + s[k + 1..];
  }

  class UrlRegistry {
    var urls: array<string>
    var count: nat

    ghost predicate Valid()
      reads this
    {
      urls.Length == MAX_URLS && count <= MAX_URLS
    }

    /** The stored URLs, in entry order. */
    ghost function Contents(): seq<string>
      reads this, urls
      requires Valid()
    {
      urls[..count]
    }

    constructor ()
      ensures Valid() && fresh(urls) && Contents() == []
    {
      urls := new string[MAX_URLS](_ => "");
      count := 0;
    }

    /** `get_URL`: the URL read from the console is `url`. */
    method Add(url: string) returns (added: bool)
      requires Valid()
      modifies this`count, urls
      ensures Valid() && urls == old(urls)
      ensures added <==> old(count) < MAX_URLS
      ensures added ==> Contents() == old(Contents()) + [url]
      ensures added ==> urls[..] == old(urls[..])[old(count) := url]
      ensures !added ==> count == old(count) && urls[..] == old(urls[..])
    {
      if count >= MAX_URLS {
        return false;
      }
      urls[count] := url;
      count := count + 1;
      added := true;
    }

    /** `delete_URL(URL_num)`: an index outside `[0, url_count)` changes
        nothing; otherwise the entries after it shift left in place. Slots at
        and beyond the new count keep what they held (the old last entry stays
        behind in its slot). */
    method Delete(index: int) returns (deleted: bool)
      requires Valid()
      modifies this`count, urls
      ensures Valid() && urls == old(urls)
      ensures deleted <==> 0 <= index < old(count)
      ensures deleted ==> count == old(count) - 1 && Contents() == RemoveAt(old(Contents()), index)
      ensures deleted ==> forall j :: 0 <= j < count ==> urls[j] == old(if j < index then urls[j] else urls[j + 1])
      ensures deleted ==> forall j :: count <= j < MAX_URLS ==> urls[j] == old(urls[j])
      ensures !deleted ==> count == old(count) && urls[..] == old(urls[..])
    {
      if index < 0 || index >= count {
        return false;
      }
      var i := index;
      while i < count - 1
        modifies urls
        invariant index <= i <= count - 1
        invariant forall j :: 0 <= j < index ==> urls[j] == old(urls[j])
        invariant forall j :: index <= j < i ==> urls[j] == old(urls[j + 1])
        invariant forall j :: i <= j < MAX_URLS ==> urls[j] == old(urls[j])
      {
        urls[i] := urls[i + 1];
        i := i + 1;
      }
      count := count - 1;
      deleted := true;
      ghost var was := old(Contents());
      assert Contents() == RemoveAt(was, index) by {
        RemoveAtKeepsOrder(was, index);
      }
    }

    /** The clearing loop of "download all": `tempCount` is the count when the
        downloads began, and index 0 is deleted that many times. Every slot
        then holds the old last entry or what it held before. */
    method ClearAll()
      requires Valid()
      modifies this`count, urls
      ensures Valid() && urls == old(urls)
      ensures count == 0 && Contents() == []
      ensures forall j :: 0 <= j < old(count) ==> urls[j] == old(urls[count - 1])
      ensures forall j :: old(count) <= j < MAX_URLS ==> urls[j] == old(urls[j])
    {
      var tempCount := count;
      ghost var orig := urls[..];
      assert orig == old(urls[..]);
      for i := 0 to tempCount
        invariant Valid() && urls == old(urls)
        invariant count == tempCount - i
        invariant forall j :: 0 <= j < count ==> urls[j] == orig[j + i]
        invariant forall j :: count <= j < tempCount ==> urls[j] == orig[tempCount - 1]
        invariant forall j :: tempCount <= j < MAX_URLS ==> urls[j] == orig[j]
      {
        ghost var prev := urls[..];
        var deleted := Delete(0);
        forall j | count <= j < tempCount
          ensures urls[j] == orig[tempCount - 1]
        {
          assert urls[j] == prev[j];
          if j == count {
            assert prev[j] == orig[j + i];
          }
        }
      }
      assert count == 0 && Contents() == [];
    }
  }
}
