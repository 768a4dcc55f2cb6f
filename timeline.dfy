/** The discrete-event list attached to a spatial unit, as values: an event
    reference, date order, and the two operations of the event collection
    (adding one event, and copying the events of a date window into another
    collection) stated as functions on sequences. The classes in
    events_coll.dfy and event_collection.dfy are proved against these. */
module Timeline {

  /** An event reference. `id` stands for the identity of the pointer (the
      payload behind it is not modelled); `date` is its date and time, as an
      integer count of time units. */
  datatype Event = Event(id: nat, date: int)

  /** Dates never decrease from the front of the list to its back. */
  predicate Sorted(s: seq<Event>) {
    forall i, j :: 0 <= i < j < |s| ==> s[i].date <= s[j].date
  }

  /** `r` is `s` with `e` inserted in front of position `j`: every old event
      is kept, in the same relative order. */
  predicate InsertedAt(r: seq<Event>, s: seq<Event>, j: int, e: Event) {
    0 <= j <= |s| && r == s[..j] + [e] + s[j..]
  }

  /** Where the scan of addEvent stops: the index of the first event whose
      date is not earlier than `d`, or |s| if there is none. */
  function FirstNotEarlier(s: seq<Event>, d: int): (k: nat)
    ensures k <= |s|
    ensures forall i :: 0 <= i < k ==> s[i].date < d
    ensures k < |s| ==> d <= s[k].date
    ensures s != [] && d <= s[|s| - 1].date ==> k < |s|
  {
    if s == [] then 0
    else if d <= s[0].date then 0
    else 1 + FirstNotEarlier(s[1..], d)
  }

  /** The list after addEvent, as the code is written: an empty list gets
      the event; a date not after the first event's goes to the front; else
      a date not before the last event's goes to the back; else the event is
      inserted in front of the event that PRECEDES the first event whose date
      is not earlier (the iterator is stepped back before the insertion). */
  function Added(s: seq<Event>, e: Event): (r: seq<Event>)
    ensures |r| == |s| + 1
  {
    if |s| == 0 then [e]
    else if e.date <= s[0].date then [e] + s
    else if s[|s| - 1].date <= e.date then s + [e]
    else
      var k := FirstNotEarlier(s, e.date);
      s[..k - 1] + [e] + s[k - 1..]
  }

  /** addEvent inserts the new event at one position of the list: every old
      event is kept, in the same relative order, and the multiset of events
      gains exactly the new one. */
  lemma AddedInserts(s: seq<Event>, e: Event)
    ensures exists j :: InsertedAt(Added(s, e), s, j, e)
    ensures multiset(Added(s, e)) == multiset(s) + multiset{e}
  {
    var j := if |s| == 0 || e.date <= s[0].date then 0
             else if s[|s| - 1].date <= e.date then |s|
             else FirstNotEarlier(s, e.date) - 1;
    assert InsertedAt(Added(s, e), s, j, e);
    InsertedMultiset(s, j, e);
  }

  /** Where the front and back branches put the event: a date not after the
      first event's (a tie included) goes in front of the whole old list;
      otherwise a date not before the last event's (a tie included) goes
      behind it. */
  lemma AddedFrontBack(s: seq<Event>, e: Event)
    requires s != []
    ensures e.date <= s[0].date ==> Added(s, e) == [e] + s
    ensures s[0].date < e.date && s[|s| - 1].date <= e.date ==> Added(s, e) == s + [e]
  {
  }

  /** Inserting keeps the multiset of events and adds the new one. */
  lemma InsertedMultiset(s: seq<Event>, j: nat, e: Event)
    requires j <= |s|
    ensures multiset(s[..j] + [e] + s[j..]) == multiset(s) + multiset{e}
  {
    assert s == s[..j] + s[j..];
  }

  /** Inserting `e` between the events not after it and the events not
      before it keeps a sorted list sorted. */
  lemma InsertKeepsSorted(s: seq<Event>, j: nat, e: Event)
    requires Sorted(s) && j <= |s|
    requires forall i :: 0 <= i < j ==> s[i].date <= e.date
    requires forall i :: j <= i < |s| ==> e.date <= s[i].date
    ensures Sorted(s[..j] + [e] + s[j..])
  {
    var r := s[..j] + [e] + s[j..];
    forall a, b | 0 <= a < b < |r| ensures r[a].date <= r[b].date {
      if b < j {
        assert r[a] == s[a] && r[b] == s[b];
      } else if b == j {
        assert r[a] == s[a] && r[b] == e;
      } else if a == j {
        assert r[a] == e && r[b] == s[b - 1];
      } else if a < j {
        assert r[a] == s[a] && r[b] == s[b - 1];
      } else {
        assert r[a] == s[a - 1] && r[b] == s[b - 1];
      }
    }
  }

  /** The scan branch (the first event is strictly earlier and the last one
      strictly later than `e`): the scan always stops inside the list, at an
      index k >= 1, so the fall-through after the loop is never reached; `e`
      lands at index k - 1 and the strictly earlier event that was there
      moves behind it. */
  lemma ScanBranchLandsOneEarly(s: seq<Event>, e: Event)
    requires s != [] && s[0].date < e.date < s[|s| - 1].date
    ensures var k := FirstNotEarlier(s, e.date);
      && 1 <= k < |s|
      && InsertedAt(Added(s, e), s, k - 1, e)
      && Added(s, e)[k - 1] == e
      && Added(s, e)[k] == s[k - 1]
      && s[k - 1].date < e.date
  {
    var k := FirstNotEarlier(s, e.date);
    var r := Added(s, e);
    assert r == s[..k - 1] + [e] + s[k - 1..];
    assert InsertedAt(r, s, k - 1, e);
    InsertedAtIndex(r, s, k - 1, e);
    assert s[k - 1].date < e.date;
  }

  /** After an insertion at `j`, the new event sits at `j` and the old event
      from `j` (if any) right behind it. */
  lemma InsertedAtIndex(r: seq<Event>, s: seq<Event>, j: nat, e: Event)
    requires InsertedAt(r, s, j, e)
    ensures r[j] == e
    ensures j < |s| ==> r[j + 1] == s[j]
  {
  }

  /** The front and back branches of addEvent keep a sorted list sorted. */
  lemma FrontBackKeepSorted(s: seq<Event>, e: Event)
    requires Sorted(s)
    requires s == [] || e.date <= s[0].date || s[|s| - 1].date <= e.date
    ensures Sorted(Added(s, e))
  {
    if s == [] {
    } else if e.date <= s[0].date {
      InsertKeepsSorted(s, 0, e);
      assert Added(s, e) == s[..0] + [e] + s[0..];
    } else {
      InsertKeepsSorted(s, |s|, e);
      assert Added(s, e) == s[..|s|] + [e] + s[|s|..];
    }
  }

  /** On a sorted list, addEvent keeps date order exactly when it does not
      take the scan branch: the front and back branches keep the list
      sorted, and the scan branch always puts the new event in front of a
      strictly earlier one. */
  lemma AddedSortedIff(s: seq<Event>, e: Event)
    requires Sorted(s)
    ensures Sorted(Added(s, e)) <==>
      (s == [] || e.date <= s[0].date || s[|s| - 1].date <= e.date)
  {
    if s == [] || e.date <= s[0].date || s[|s| - 1].date <= e.date {
      FrontBackKeepSorted(s, e);
    } else {
      ScanBranchLandsOneEarly(s, e);
      NotSortedAt(Added(s, e), FirstNotEarlier(s, e.date) - 1);
    }
  }

  /** Two neighbours out of date order make a list unsorted. */
  lemma NotSortedAt(r: seq<Event>, i: nat)
    requires i + 1 < |r| && r[i + 1].date < r[i].date
    ensures !Sorted(r)
  {
  }

  /** The example [1, 3, 5] + 4 of the scan branch gives [1, 4, 3, 5]. */
  lemma ScanBranchExample()
    ensures Added([Event(0, 1), Event(1, 3), Event(2, 5)], Event(3, 4))
         == [Event(0, 1), Event(3, 4), Event(1, 3), Event(2, 5)]
    ensures !Sorted(Added([Event(0, 1), Event(1, 3), Event(2, 5)], Event(3, 4)))
  {
    var s := [Event(0, 1), Event(1, 3), Event(2, 5)];
    assert FirstNotEarlier(s[2..], 4) == 0;
    assert FirstNotEarlier(s[1..], 4) == 1 by {
      assert s[1..][1..] == s[2..];
    }
    assert FirstNotEarlier(s, 4) == 2;
    var r := Added(s, Event(3, 4));
    assert r[1].date > r[2].date;
  }

  /** A tie in the scan branch lands one place early too: [1, 3, 5] + 3
      gives [3, 1, 3, 5]. */
  lemma ScanBranchTieExample()
    ensures Added([Event(0, 1), Event(1, 3), Event(2, 5)], Event(3, 3))
         == [Event(3, 3), Event(0, 1), Event(1, 3), Event(2, 5)]
  {
    var s := [Event(0, 1), Event(1, 3), Event(2, 5)];
    assert FirstNotEarlier(s[1..], 3) == 0;
    assert FirstNotEarlier(s, 3) == 1;
  }

  /** addEvent with the step back removed: the scan branch inserts in front
      of the first event whose date is not earlier. The other branches are
      those of `Added`. */
  function AddedInOrder(s: seq<Event>, e: Event): (r: seq<Event>)
    ensures exists j :: InsertedAt(r, s, j, e)
  {
    if |s| == 0 then
      assert InsertedAt([e], s, 0, e);
      [e]
    else if e.date <= s[0].date then
      assert InsertedAt([e] + s, s, 0, e);
      [e] + s
    else if s[|s| - 1].date <= e.date then
      assert InsertedAt(s + [e], s, |s|, e);
      s + [e]
    else
      var k := FirstNotEarlier(s, e.date);
      assert InsertedAt(s[..k] + [e] + s[k..], s, k, e);
      s[..k] + [e] + s[k..]
  }

  /** The corrected addEvent keeps a sorted list sorted in every branch. */
  lemma AddedInOrderKeepsSorted(s: seq<Event>, e: Event)
    requires Sorted(s)
    ensures Sorted(AddedInOrder(s, e))
  {
    if s == [] || e.date <= s[0].date || s[|s| - 1].date <= e.date {
      AddedSortedIff(s, e);
    } else {
      var k := FirstNotEarlier(s, e.date);
      assert forall i :: k <= i < |s| ==> s[k].date <= s[i].date;
      InsertKeepsSorted(s, k, e);
    }
  }

  /** The corrected insertion differs from the code as written only in the
      scan branch. */
  lemma AddedInOrderOutsideScan(s: seq<Event>, e: Event)
    requires s == [] || e.date <= s[0].date || s[|s| - 1].date <= e.date
    ensures AddedInOrder(s, e) == Added(s, e)
  {
  }

  /** The events of `s` whose date passes `isBetween(date, begin, end)`,
      each as often as it occurs in `s`. */
  function Between(s: seq<Event>, begin: int, end: int,
                   isBetween: (int, int, int) -> bool): (r: seq<Event>)
    ensures |r| <= |s|
    ensures forall x :: x in r <==> x in s && isBetween(x.date, begin, end)
    ensures forall x {:trigger multiset(s)[x]} ::
      multiset(r)[x] == if isBetween(x.date, begin, end) then multiset(s)[x] else 0
  {
    if s == [] then []
    else
      var last := s[|s| - 1];
      assert s == s[..|s| - 1] + [last];
      Between(s[..|s| - 1], begin, end, isBetween)
        + (if isBetween(last.date, begin, end) then [last] else [])
  }

  /** The collection `out` after getEventsBetween has visited `s` in order
      and added every event of the window through addEvent. */
  function Collected(out: seq<Event>, s: seq<Event>, begin: int, end: int,
                     isBetween: (int, int, int) -> bool): (r: seq<Event>)
    ensures |r| == |out| + |Between(s, begin, end, isBetween)|
  {
    if s == [] then out
    else
      var prev := Collected(out, s[..|s| - 1], begin, end, isBetween);
      var last := s[|s| - 1];
      if isBetween(last.date, begin, end) then Added(prev, last) else prev
  }

  /** getEventsBetween adds to `out` exactly the events of the window: the
      multiset of the filled collection is that of `out` plus that of the
      window. */
  lemma {:induction false} CollectedMultiset(out: seq<Event>, s: seq<Event>, begin: int, end: int,
                                             isBetween: (int, int, int) -> bool)
    ensures multiset(Collected(out, s, begin, end, isBetween))
         == multiset(out) + multiset(Between(s, begin, end, isBetween))
  {
    if s != [] {
      var init := s[..|s| - 1];
      var last := s[|s| - 1];
      CollectedMultiset(out, init, begin, end, isBetween);
      if isBetween(last.date, begin, end) {
        AddedInserts(Collected(out, init, begin, end, isBetween), last);
      }
    }
  }

  /** One more source event visited: it is added when its date passes
      `isBetween`, and skipped otherwise. */
  lemma CollectedStep(out: seq<Event>, s: seq<Event>, i: nat, begin: int, end: int,
                      isBetween: (int, int, int) -> bool)
    requires i < |s|
    ensures Collected(out, s[..i + 1], begin, end, isBetween)
         == if isBetween(s[i].date, begin, end)
            then Added(Collected(out, s[..i], begin, end, isBetween), s[i])
            else Collected(out, s[..i], begin, end, isBetween)
  {
    assert s[..i + 1][..i] == s[..i];
  }

  /** Every event of the filled collection was already in `out` or is an
      event of the window. */
  lemma CollectedFrom(out: seq<Event>, s: seq<Event>, begin: int, end: int,
                      isBetween: (int, int, int) -> bool, x: Event)
    requires x in Collected(out, s, begin, end, isBetween)
    ensures x in out || (x in s && isBetween(x.date, begin, end))
  {
    var r := Collected(out, s, begin, end, isBetween);
    CollectedMultiset(out, s, begin, end, isBetween);
    assert x in multiset(r);
  }

  /** A sorted source copied into a sorted collection whose events are all
      dated no later than the source's first event (for one, an empty
      collection) leaves the collection sorted: every insertion takes the
      front or the back branch of addEvent. */
  lemma {:induction false} CollectedSorted(out: seq<Event>, s: seq<Event>, begin: int, end: int,
                                           isBetween: (int, int, int) -> bool)
    requires Sorted(out) && Sorted(s)
    requires forall x, y :: x in out && y in s ==> x.date <= y.date
    ensures Sorted(Collected(out, s, begin, end, isBetween))
  {
    if s != [] {
      var init := s[..|s| - 1];
      var last := s[|s| - 1];
      assert Sorted(init);
      CollectedSorted(out, init, begin, end, isBetween);
      var prev := Collected(out, init, begin, end, isBetween);
      if isBetween(last.date, begin, end) {
        forall x | x in prev ensures x.date <= last.date {
          CollectedFrom(out, init, begin, end, isBetween, x);
        }
        if prev != [] {
          assert prev[|prev| - 1] in prev;
        }
        AddedSortedIff(prev, last);
      }
    }
  }

  /** getEventsBetween from a sorted source into an empty collection yields
      exactly the events of the window, sorted by date. */
  lemma CollectedIntoEmpty(s: seq<Event>, begin: int, end: int,
                           isBetween: (int, int, int) -> bool)
    requires Sorted(s)
    ensures var r := Collected([], s, begin, end, isBetween);
      Sorted(r) && multiset(r) == multiset(Between(s, begin, end, isBetween))
  {
    CollectedSorted([], s, begin, end, isBetween);
    CollectedMultiset([], s, begin, end, isBetween);
  }
}
