/** One run of the intake script against the data file: the submit action,
    the filtered review list and the delete action. Widgets and rendering
    are not modelled; their values arrive as parameters. */
module App {
  import opened Records
  import opened Search
  import opened Store

  /** The submit button: build the record, load the stored list, append
      the record and save the list. */
  method Submit(file: DataFile, itemName: string, hsCode: string, quantity: int,
                port: string, reason: string, image: Option<Upload>)
    modifies file
    ensures file.present
    ensures file.saved == old(file.Contents()) + [BuildEntry(itemName, hsCode, quantity, port, reason, image)]
    ensures |file.saved| == |old(file.Contents())| + 1
    ensures file.saved[..|old(file.Contents())|] == old(file.Contents())
  {
    var entry := BuildEntry(itemName, hsCode, quantity, port, reason, image);
    var data := file.Load();
    var list := new EntryList(data);
    list.Append(entry);
    file.Save(list.items);
  }

  /** The review section: the stored records that match the search term. */
  method Show(file: DataFile, searchTerm: string) returns (filtered: seq<Entry>)
    ensures filtered == Filter(file.Contents(), searchTerm)
    ensures |filtered| <= |file.Contents()|
    ensures forall e :: e in filtered <==> e in file.Contents() && Matches(searchTerm, e)
  {
    var data := file.Load();
    filtered := Filter(data, searchTerm);
    forall e ensures e in filtered <==> e in data && Matches(searchTerm, e) {
      FilterMembership(data, searchTerm, e);
    }
  }

  /** The delete button of the `idx`-th displayed record: a button exists
      only for a displayed record, so `idx` is within the filtered list. The
      record is removed by value from the stored list, which always holds
      it, and the list is saved. */
  method Delete(file: DataFile, searchTerm: string, idx: nat)
    requires idx < |Filter(file.Contents(), searchTerm)|
    modifies file
    ensures file.present
    ensures file.saved == RemoveFirst(old(file.Contents()), Filter(old(file.Contents()), searchTerm)[idx])
    ensures |file.saved| == |old(file.Contents())| - 1
  {
    var data := file.Load();
    var filtered := Filter(data, searchTerm);
    var item := filtered[idx];
    var list := new EntryList(data);
    var found := list.Remove(item);
    assert found;
    file.Save(list.items);
  }

  /** The record that the delete of the `idx`-th displayed record takes out
      of the stored list sits at or before the position it was displayed
      from; it is that position exactly when no equal record comes earlier.
      Either way only one record goes and the others keep their order. */
  lemma {:induction false} DeleteRemovesAtOrBeforeShown(data: seq<Entry>, searchTerm: string, idx: nat)
    requires idx < |Filter(data, searchTerm)|
    ensures Filter(data, searchTerm)[idx] in data
    ensures FirstIndex(data, Filter(data, searchTerm)[idx]) <= KeptIndices(data, searchTerm)[idx]
    ensures FirstIndex(data, Filter(data, searchTerm)[idx]) == KeptIndices(data, searchTerm)[idx]
            <==> Filter(data, searchTerm)[idx] !in data[..KeptIndices(data, searchTerm)[idx]]
    ensures var i := FirstIndex(data, Filter(data, searchTerm)[idx]);
            RemoveFirst(data, Filter(data, searchTerm)[idx]) == data[..i] + data[i + 1..]
  {
    FilterReadsKeptIndices(data, searchTerm);
    var x, p := Filter(data, searchTerm)[idx], KeptIndices(data, searchTerm)[idx];
    assert data[p] == x;
    RemoveFirstSplices(data, x);
  }
}
