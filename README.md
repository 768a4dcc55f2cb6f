# Discrete-event collections of OpenFLUID spatial units

Every spatial unit of an OpenFLUID simulation carries a collection of discrete
events: a list of event references that the engine wants kept in date order. The
collection offers two operations:

- `addEvent` inserts one event. It has four branches:
  - an empty list gets the event;
  - a date not after the first event's goes to the front;
  - otherwise a date not before the last event's goes to the back;
  - otherwise a scan finds the first event whose date is not earlier, steps the
    iterator back one place and inserts there.
- `getEventsBetween` walks the list in order. It adds every event whose date
  passes `isBetween(begin, end)` to a caller-supplied collection, through that
  collection's `addEvent`.

The same algorithm exists twice: in the current engine
(`openfluid::core::EventsCollection` over `Event*`) and in the older ofelib
library (`EventCollection` over `DistributedEvent*`).

Layout:

- `timeline.dfy`, module `Timeline`: the event reference (an id standing for the
  pointer, and an integer date), date order, and both operations as functions on
  sequences (`Added`, `Between`, `Collected`). It holds the lemmas about them and
  the corrected insertion `AddedInOrder`.
- `events_coll.dfy`, module `OpenfluidCore`: class `EventsCollection`. Its
  `seq` field stands for the `std::list` member. `AddEvent` and
  `GetEventsBetween` are written as the C++ is, loops included, and are proved
  equal to `Added` and `Collected`.
- `event_collection.dfy`, module `Ofelib`: class `EventCollection`, the same
  for the ofelib copy.

What the proofs establish about the code as written:

- `addEvent` always returns true and inserts exactly the new event at one
  position. Every old event is kept, in the same relative order.
- In the scan branch the loop always stops inside the list, at an index k >= 1.
  The fall-through after the loop is never reached.
- In the scan branch the new event lands at index k - 1, in front of a strictly
  earlier event. On a sorted list, `addEvent` therefore keeps date order exactly
  when it does not take the scan branch. For example, [1, 3, 5] + 4 gives
  [1, 4, 3, 5].
- `getEventsBetween` returns true and leaves the source unchanged. It visits
  the source in list order and passes each event of the window, once per
  occurrence, to the target's `addEvent`; nothing else is added. The target's
  final order is whatever those insertions produce: it need not follow source
  order (two events with the same date come out reversed when the second one
  goes to the front or through the scan branch, and in source order when it
  goes to the back).
- A sorted source copied into an empty collection (or into a sorted one dated no
  later than the source) gives a sorted collection, because the scan branch is
  never taken there.

Further facts about the code:

- The scan branch does not keep date order (see Findings). A tie lands one
  place too early as well: dates [1, 3, 5] + 3 give [3, 1, 3, 5].
- A tie with the first event goes in front of it. Otherwise, when the first
  event is strictly earlier, a tie with the last event goes behind it.
- `getEventsBetween` appends to a collection the caller supplies, which need not
  be empty.

## Model

| member | source | states |
|---|---|---|
| `Timeline.FirstNotEarlier` | src/openfluid/core/EventsColl.cpp:110-113 | the scan stops at the first index whose date is not earlier than the new event's; every event before it is strictly earlier |
| `Timeline.Added` | src/openfluid/core/EventsColl.cpp:82-124 | addEvent grows the list by exactly one event, in every branch |
| `Timeline.AddedInserts` | src/openfluid/core/EventsColl.cpp:86-121 | the result is the old list with the new event inserted at one position, so every old event is kept in the same relative order, and the multiset of events gains exactly the new one |
| `Timeline.AddedFrontBack` | src/openfluid/core/EventsColl.cpp:94-104 | a date not after the first event's, a tie included, puts the event in front of the unchanged old list; otherwise a date not before the last event's, a tie included, appends it behind the old list |
| `Timeline.InsertedMultiset` | src/openfluid/core/EventsColl.cpp:114 | an insertion into the list adds the inserted event to the multiset of events and loses none |
| `Timeline.InsertKeepsSorted` | src/openfluid/core/EventsColl.cpp:94-104 | inserting an event between the events not after it and those not before it keeps a sorted list sorted; this is why the front and back branches keep date order |
| `Timeline.FrontBackKeepSorted` | src/openfluid/core/EventsColl.cpp:86-104 | the empty, front and back branches turn a sorted list into a sorted list |
| `Timeline.ScanBranchLandsOneEarly` | src/openfluid/core/EventsColl.cpp:108-116 | when the first event is strictly earlier and the last strictly later, the scan stops at some k with 1 <= k < length, so line 123 is not reached from the loop; the event lands at k - 1 and the strictly earlier event from k - 1 moves behind it |
| `Timeline.AddedSortedIff` | src/openfluid/core/EventsColl.cpp:86-121 | on a sorted list, the result is sorted if and only if the list is empty, or the date is not after the first event's, or not before the last event's |
| `Timeline.ScanBranchExample` | src/openfluid/core/EventsColl.cpp:114 | adding date 4 to dates [1, 3, 5] gives [1, 4, 3, 5], which is not sorted |
| `Timeline.ScanBranchTieExample` | src/openfluid/core/EventsColl.cpp:110-114 | adding date 3 to dates [1, 3, 5] gives [3, 1, 3, 5]: in the scan branch a tie also lands in front of the strictly earlier event |
| `Timeline.AddedInOrder` | src/openfluid/core/EventsColl.cpp:114 | the corrected insertion (no step back) also inserts the event at one position, keeping the old events in order |
| `Timeline.AddedInOrderKeepsSorted` | src/openfluid/core/EventsColl.cpp:86-121 | with the step back removed, every branch keeps a sorted list sorted |
| `Timeline.AddedInOrderOutsideScan` | src/openfluid/core/EventsColl.cpp:86-104 | the corrected insertion and the code as written agree outside the scan branch |
| `Timeline.Between` | src/openfluid/core/EventsColl.cpp:137-143 | the window's events are exactly the source events whose date passes isBetween, each occurrence kept: a window event appears exactly as often as in the source, any other event not at all |
| `Timeline.Collected` | src/openfluid/core/EventsColl.cpp:131-146 | getEventsBetween grows the target by exactly the number of source events whose date passes isBetween |
| `Timeline.CollectedStep` | src/openfluid/core/EventsColl.cpp:137-143 | visiting one more source event adds it through addEvent when its date passes isBetween and leaves the target as it was otherwise |
| `Timeline.CollectedMultiset` | src/openfluid/core/EventsColl.cpp:137-143 | the target's multiset becomes its old multiset plus the window's events: each window event is added once and nothing else is |
| `Timeline.CollectedFrom` | src/openfluid/core/EventsColl.cpp:137-143 | every event of the filled target was already there or is a source event whose date passes isBetween |
| `Timeline.CollectedSorted` | src/openfluid/core/EventsColl.cpp:137-142 | a sorted source copied into a sorted target whose events are dated no later than any source event leaves the target sorted |
| `Timeline.CollectedIntoEmpty` | src/openfluid/core/EventsColl.cpp:131-146 | a sorted source copied into an empty target yields a sorted permutation of the window's events |
| `OpenfluidCore.EventsCollection.constructor` | src/openfluid/core/EventsColl.cpp:64-66 | a new collection is empty |
| `OpenfluidCore.EventsCollection.AddEvent` | src/openfluid/core/EventsColl.cpp:82-124 | the in-place insertion returns true; the new list is `Added` of the old one (so `[Ev]` from an empty list, and the old list with the event inserted at one position) |
| `OpenfluidCore.EventsCollection.GetEventsBetween` | src/openfluid/core/EventsColl.cpp:131-146 | returns true, leaves the source unchanged, and leaves the target equal to `Collected` of its old contents and the source |
| `Ofelib.EventCollection.constructor` | src/ofelib/core/EventCollection.cpp:16-18 | a new collection is empty |
| `Ofelib.EventCollection.AddEvent` | src/ofelib/core/EventCollection.cpp:34-76 | the in-place insertion returns true; the new list is `Added` of the old one, with the same branches and the same one-early landing in the scan branch |
| `Ofelib.EventCollection.GetEventsBetween` | src/ofelib/core/EventCollection.cpp:83-98 | returns true, leaves the source unchanged, and leaves the target equal to `Collected` of its old contents and the source |

## Findings

| source | as written | input that shows it | evidently intended | confidence | as-written member | corrected member |
|---|---|---|---|---|---|---|
| src/openfluid/core/EventsColl.cpp:114 (and src/ofelib/core/EventCollection.cpp:66) | `insert(--DEiter, Ev)` steps back before inserting, so the event lands in front of the last strictly earlier event | dates [1, 3, 5], new date 4: result [1, 4, 3, 5] | `insert(DEiter, Ev)`: insert in front of the first event not earlier, which keeps date order | high; not executed | `Timeline.ScanBranchExample` | `Timeline.AddedInOrderKeepsSorted` |

The classes keep the behaviour as written, because they model the code. The
proofs about `getEventsBetween` do not depend on the correction:
`Timeline.AddedInOrderOutsideScan` shows that the two insertions agree outside
the scan branch, and `Timeline.CollectedSorted` shows that copying a sorted
source never reaches that branch when the target is empty, or sorted and dated
no later than every source event.

## Left out

- `println` in both files only writes each event to the console.
- The event payload and `DateTime` are not modelled. An event is an id and an integer date, compared as integers.
- `isBetween` is a function parameter. Its boundary rules (closed or half-open) live in `DateTime.cpp`, which is not part of this model.
- `GetEventsBetween` requires the target collection to be a different object from the source. With the same object, the source would grow while it is walked. A null target is also not modelled.
- Pointer identity is reduced to the `id` field. Two collections holding the same `Event*` hold equal values here. Changes made through one pointer are not seen by the other.
- The destructors are empty and are not modelled.
