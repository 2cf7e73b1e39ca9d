/** The record store: the list of records that the script loads, mutates in
    place and saves back, and the data file that holds it between runs. */
module Store {
  import opened Records

  /** Python's `list.remove(x)` on a value: the list without the first
      element equal to `x`; the list itself when no element equals `x`. */
  function RemoveFirst(s: seq<Entry>, x: Entry): (r: seq<Entry>)
    ensures |r| == if x in s then |s| - 1 else |s|
  {
    if s == [] then []
    else if s[0] == x then s[1..]
    else [s[0]] + RemoveFirst(s[1..], x)
  }

  /** The position of the first element equal to `x`. */
  function FirstIndex(s: seq<Entry>, x: Entry): (i: nat)
    requires x in s
    ensures i < |s| && s[i] == x
    ensures x !in s[..i]
  {
    if s[0] == x then 0
    else
      var j := FirstIndex(s[1..], x);
      assert s[..j + 1] == [s[0]] + s[1..][..j];
      j + 1
  }

  /** Removing the first match cuts out exactly the element at its first
      position: everything before it and everything after it stays, in order. */
  lemma {:induction false} RemoveFirstSplices(s: seq<Entry>, x: Entry)
    requires x in s
    ensures RemoveFirst(s, x) == s[..FirstIndex(s, x)] + s[FirstIndex(s, x) + 1..]
  {
    if s[0] != x {
      RemoveFirstSplices(s[1..], x);
      var j := FirstIndex(s[1..], x);
      assert s[..j + 1] == [s[0]] + s[1..][..j];
      assert s[j + 2..] == s[1..][j + 1..];
    }
  }

  /** Removing a value that is not in the list leaves the list unchanged. */
  lemma {:induction false} RemoveFirstAbsent(s: seq<Entry>, x: Entry)
    requires x !in s
    ensures RemoveFirst(s, x) == s
  {
    if s != [] {
      RemoveFirstAbsent(s[1..], x);
      assert s == [s[0]] + s[1..];
    }
  }

  /** Exactly one copy of `x` is taken out when there is one. */
  lemma {:induction false} RemoveFirstMultiset(s: seq<Entry>, x: Entry)
    ensures multiset(RemoveFirst(s, x)) == multiset(s) - multiset{x}
  {
    if s != [] {
      RemoveFirstMultiset(s[1..], x);
      assert s == [s[0]] + s[1..];
    } else {
      assert multiset(s) == multiset{};
    }
  }

  /** Cutting out the element at position `k` takes one copy of it out of
      the multiset of elements. */
  lemma CutMultiset(s: seq<Entry>, k: nat)
    requires k < |s|
    ensures multiset(s[..k] + s[k + 1..]) == multiset(s) - multiset{s[k]}
  {
    var before, after := s[..k], s[k + 1..];
    assert s == before + ([s[k]] + after);
    assert multiset(s) == multiset(before) + (multiset{s[k]} + multiset(after));
  }

  /** Deleting the record displayed at position `k` by value removes a copy
      of an equal record: the remaining records are the same multiset as if
      position `k` itself had been cut out, though when an equal record comes
      earlier it is that earlier copy which goes, and the order differs. */
  lemma DuplicateRemovalKeepsMultiset(s: seq<Entry>, k: nat)
    requires k < |s|
    ensures multiset(RemoveFirst(s, s[k])) == multiset(s[..k] + s[k + 1..])
  {
    RemoveFirstMultiset(s, s[k]);
    CutMultiset(s, k);
  }

  /** With two distinct records `a` and `b`, deleting the second `a` of
      `[a, b, a]` by value leaves `[b, a]`, not `[a, b]`. */
  lemma DuplicateRemovalReorders(a: Entry, b: Entry)
    requires a != b
    ensures RemoveFirst([a, b, a], a) == [b, a]
    ensures RemoveFirst([a, b, a], a) != [a, b, a][..2]
  {
  }

  /** The in-memory list `data` of the script. */
  class EntryList {
    var items: seq<Entry>

    constructor (loaded: seq<Entry>)
      ensures items == loaded
    {
      items := loaded;
    }

    /** `data.append(entry)`. */
    method Append(e: Entry)
      modifies this
      ensures items == old(items) + [e]
      ensures |items| == |old(items)| + 1 && items[..|old(items)|] == old(items)
    {
      items := items + [e];
      assert items[..|old(items)|] == old(items);
    }

    /** `data.remove(x)`: `found` is false where Python raises ValueError,
        and then the list is left as it was. */
    method Remove(x: Entry) returns (found: bool)
      modifies this
      ensures found == (x in old(items))
      ensures items == RemoveFirst(old(items), x)
      ensures !found ==> items == old(items)
    {
      found := x in items;
      if found {
        var i := FirstIndex(items, x);
        RemoveFirstSplices(items, x);
        items := items[..i] + items[i + 1..];
      } else {
        RemoveFirstAbsent(items, x);
      }
    }
  }

  /** The JSON data file: whether it exists, and the records it holds. */
  class DataFile {
    var present: bool
    var saved: seq<Entry>

    /** The state before the first submission: no file yet. */
    constructor Missing()
      ensures !present
    {
      present := false;
      saved := [];
    }

    /** What `load_data()` returns in the current state. */
    function Contents(): seq<Entry>
      reads this
    {
      if present then saved else []
    }

    /** `load_data()`: the stored records, or the empty list when no file
        exists. */
    method Load() returns (data: seq<Entry>)
      ensures data == Contents()
    {
      data := Contents();
    }

    /** `save_data(data)`: overwrites the file with the whole list. */
    method Save(data: seq<Entry>)
      modifies this
      ensures present && saved == data
      ensures Contents() == data
    {
      present := true;
      saved := data;
    }
  }

  /** Saving a list and loading it again gives the same list back. */
  method SaveThenLoad(file: DataFile, records: seq<Entry>) returns (loaded: seq<Entry>)
    modifies file
    ensures loaded == records
  {
    file.Save(records);
    loaded := file.Load();
  }
}
