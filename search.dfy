/** The search filter of the review section: a record is shown when the
    lower-cased search term is a substring of its lower-cased item name or
    of its lower-cased port. */
module Search {
  import opened Text
  import opened Records

  /** The condition of the list comprehension, for one record. */
  predicate Matches(term: string, e: Entry)
    ensures term == [] ==> Matches(term, e)
  {
    Contains(Lower(e.itemName), Lower(term)) || Contains(Lower(e.port), Lower(term))
  }

  /** The records of `data` that match `term`, in the order of `data`.
      Written as a recursion on the last element; it yields the same list
      as the left-to-right comprehension. */
  function Filter(data: seq<Entry>, term: string): (r: seq<Entry>)
    ensures |r| <= |data|
    ensures forall e :: e in r ==> e in data && Matches(term, e)
  {
    if data == [] then []
    else
      var n := |data| - 1;
      var kept := Filter(data[..n], term);
      if Matches(term, data[n]) then kept + [data[n]] else kept
  }

  /** The list comprehension as written: the records taken left to right. */
  function FilterLeftToRight(data: seq<Entry>, term: string): (r: seq<Entry>)
    ensures |r| <= |data|
  {
    if data == [] then []
    else (if Matches(term, data[0]) then [data[0]] else []) + FilterLeftToRight(data[1..], term)
  }

  /** Filtering a list with one more record at its end. */
  lemma FilterSnoc(s: seq<Entry>, x: Entry, term: string)
    ensures Filter(s + [x], term) == Filter(s, term) + if Matches(term, x) then [x] else []
  {
    assert (s + [x])[..|s|] == s;
  }

  /** Filtering a concatenation filters each part. */
  lemma {:induction false} FilterAppend(a: seq<Entry>, b: seq<Entry>, term: string)
    ensures Filter(a + b, term) == Filter(a, term) + Filter(b, term)
    decreases |b|
  {
    if b == [] {
      assert a + b == a;
    } else {
      var n := |b| - 1;
      var front, last := b[..n], b[n];
      var tail := if Matches(term, last) then [last] else [];
      calc {
        Filter(a + b, term);
      == { assert a + b == (a + front) + [last]; }
        Filter((a + front) + [last], term);
      == { FilterSnoc(a + front, last, term); }
        Filter(a + front, term) + tail;
      == { FilterAppend(a, front, term); }
        Filter(a, term) + Filter(front, term) + tail;
      == { FilterSnoc(front, last, term); assert b == front + [last]; }
        Filter(a, term) + Filter(b, term);
      }
    }
  }

  /** Recursing on the last element gives the comprehension's list. */
  lemma {:induction false} FilterIsComprehension(data: seq<Entry>, term: string)
    ensures Filter(data, term) == FilterLeftToRight(data, term)
  {
    if data != [] {
      FilterIsComprehension(data[1..], term);
      FilterAppend([data[0]], data[1..], term);
      assert data == [data[0]] + data[1..];
      assert Filter([data[0]], term) == if Matches(term, data[0]) then [data[0]] else [];
    }
  }

  /** The positions of `data` that the filter keeps, in increasing order. */
  function KeptIndices(data: seq<Entry>, term: string): (idx: seq<nat>)
    ensures |idx| == |Filter(data, term)|
    ensures forall k :: 0 <= k < |idx| ==> idx[k] < |data|
    ensures forall k, l :: 0 <= k < l < |idx| ==> idx[k] < idx[l]
  {
    if data == [] then []
    else
      var n := |data| - 1;
      KeptIndices(data[..n], term) + if Matches(term, data[n]) then [n] else []
  }

  /** The filtered list is `data` read at the kept positions. */
  lemma {:induction false} FilterReadsKeptIndices(data: seq<Entry>, term: string)
    ensures forall k :: 0 <= k < |KeptIndices(data, term)| ==>
              Filter(data, term)[k] == data[KeptIndices(data, term)[k]]
  {
    if data != [] {
      var n := |data| - 1;
      var front := data[..n];
      FilterReadsKeptIndices(front, term);
      var r, idx := Filter(data, term), KeptIndices(data, term);
      var r0, idx0 := Filter(front, term), KeptIndices(front, term);
      if Matches(term, data[n]) {
        assert r == r0 + [data[n]] && idx == idx0 + [n];
      } else {
        assert r == r0 && idx == idx0;
      }
      forall k | 0 <= k < |idx| ensures r[k] == data[idx[k]] {
        if k < |idx0| {
          assert r[k] == r0[k] == front[idx0[k]];
        }
      }
    }
  }

  /** Position `i` is kept exactly when the record there matches. */
  lemma {:induction false} KeptIndexMatches(data: seq<Entry>, term: string, i: nat)
    requires i < |data|
    ensures i in KeptIndices(data, term) <==> Matches(term, data[i])
  {
    var n := |data| - 1;
    var front := data[..n];
    var idx0 := KeptIndices(front, term);
    assert KeptIndices(data, term) == idx0 + if Matches(term, data[n]) then [n] else [];
    if i < n {
      KeptIndexMatches(front, term, i);
      assert front[i] == data[i];
    } else {
      assert n !in idx0;
    }
  }

  /** The kept positions are exactly those holding a matching record. */
  lemma KeptIndicesAreMatches(data: seq<Entry>, term: string)
    ensures forall i :: 0 <= i < |data| ==>
              (i in KeptIndices(data, term) <==> Matches(term, data[i]))
  {
    forall i | 0 <= i < |data| ensures i in KeptIndices(data, term) <==> Matches(term, data[i]) {
      KeptIndexMatches(data, term, i);
    }
  }

  /** `idx` picks the elements of `r` out of `s`, at increasing positions. */
  ghost predicate Embeds(idx: seq<nat>, r: seq<Entry>, s: seq<Entry>) {
    && |idx| == |r|
    && (forall k :: 0 <= k < |idx| ==> idx[k] < |s| && r[k] == s[idx[k]])
    && (forall k, l :: 0 <= k < l < |idx| ==> idx[k] < idx[l])
  }

  /** `r` is an order-preserving subsequence of `s`. */
  ghost predicate IsSubsequence(r: seq<Entry>, s: seq<Entry>) {
    exists idx :: Embeds(idx, r, s)
  }

  /** The filtered list is an order-preserving subsequence of the data. */
  lemma FilterIsSubsequence(data: seq<Entry>, term: string)
    ensures IsSubsequence(Filter(data, term), data)
  {
    FilterReadsKeptIndices(data, term);
    assert Embeds(KeptIndices(data, term), Filter(data, term), data);
  }

  /** A record is shown exactly when it is stored and matches the term. */
  lemma {:induction false} FilterMembership(data: seq<Entry>, term: string, e: Entry)
    ensures e in Filter(data, term) <==> e in data && Matches(term, e)
  {
    if data != [] {
      var n := |data| - 1;
      FilterMembership(data[..n], term, e);
      assert data == data[..n] + [data[n]];
    }
  }

  /** The empty search term keeps every record, in order. */
  lemma {:induction false} FilterEmptyTerm(data: seq<Entry>)
    ensures Filter(data, "") == data
  {
    if data != [] {
      var n := |data| - 1;
      FilterEmptyTerm(data[..n]);
      assert Lower("") == "";
      assert data == data[..n] + [data[n]];
    }
  }

  /** One record matches a term exactly when it matches its lower-cased form. */
  lemma MatchesIgnoresTermCase(term: string, e: Entry)
    ensures Matches(term, e) == Matches(Lower(term), e)
  {
    LowerIdempotent(term);
  }

  /** Only the lower-cased term is compared, so the case of the term does
      not matter. */
  lemma {:induction false} FilterIgnoresTermCase(data: seq<Entry>, term: string)
    ensures Filter(data, term) == Filter(data, Lower(term))
  {
    if data != [] {
      var n := |data| - 1;
      FilterIgnoresTermCase(data[..n], term);
      MatchesIgnoresTermCase(term, data[n]);
    }
  }
}
