/** The scheduler: elements with their slots, and the pool that keeps a heap of due times and a
  map of names in step. */
module Sched {
  import opened Bytes
  import opened Options
  import opened Seals
  import PriQ
  import HashMap

  // ---------------------------------------------------------------- slots

  /** The slot reached by rounding `cur` up to a whole number of offsets after `first`. */
  function Slot(first: int, offset: int, cur: int): int
    requires offset > 0
  {
    if cur <= first then first
    else
      var diff := cur - first;
      first + (diff / offset + if diff % offset != 0 then 1 else 0) * offset
  }

  /** It is the least slot that is not before `cur`. */
  lemma SlotIsLeast(first: int, offset: int, cur: int) returns (k: nat)
    requires offset > 0
    ensures Slot(first, offset, cur) == first + k * offset && Slot(first, offset, cur) >= cur
    ensures forall j: nat {:trigger j * offset} :: first + j * offset >= cur ==>
      first + j * offset >= Slot(first, offset, cur)
  {
    if cur <= first {
      k := 0;
      forall j: nat ensures first + j * offset >= first {
        MulNonNegative(j, offset);
      }
    } else {
      var diff := cur - first;
      var q, r := diff / offset, diff % offset;
      assert diff == q * offset + r;
      k := q + if r != 0 then 1 else 0;
      assert (q + 1) * offset == q * offset + offset;
      assert (k - 1) * offset < diff <= k * offset by {
        assert (k - 1) * offset == k * offset - offset;
      }
      forall j: nat | first + j * offset >= cur ensures j * offset >= k * offset {
        var d := j - (k - 1);
        assert d * offset == j * offset - (k - 1) * offset;
        PositiveFactor(d, offset);
        MulNonNegative(j - k, offset);
        assert (j - k) * offset == j * offset - k * offset;
      }
    }
  }

  /** A number converted to a 32-bit `int`. */
  function Int32(x: int): int {
    (x + 0x8000_0000) % 0x1_0000_0000 - 0x8000_0000
  }

  /** The time that `CalcNext` goes by: the time since the first slot is kept in an `int`. */
  function Seen(first: int, cur: int): int {
    first + Int32(cur - first)
  }

  /** The slot it computes is the least one not before `cur` exactly when less than 2^31 seconds
    have passed since the first slot, or when the first slot is still to come and the time until
    then does not turn positive in an `int`. */
  lemma SlotReached(first: int, offset: int, cur: int)
    requires 0 < offset < 0x8000_0000
    ensures Slot(first, offset, Seen(first, cur)) == Slot(first, offset, cur)
        <==> if cur <= first then Int32(cur - first) <= 0 else cur - first < 0x8000_0000
  {
    var seen := Seen(first, cur);
    var k := SlotIsLeast(first, offset, cur);
    var l := SlotIsLeast(first, offset, seen);
    if cur > first && cur - first >= 0x8000_0000 {
      assert seen <= cur - 0x1_0000_0000;
      SlotWithin(first, offset, seen);
    }
  }

  /** Rounding up adds less than one offset. */
  lemma SlotWithin(first: int, offset: int, cur: int)
    requires offset > 0
    ensures Slot(first, offset, cur) < if cur <= first then first + 1 else cur + offset
  {
    if cur > first {
      var q, r := (cur - first) / offset, (cur - first) % offset;
      assert cur - first == q * offset + r;
      assert (q + 1) * offset == q * offset + offset;
    }
  }

  lemma PositiveFactor(a: int, b: int)
    requires a * b > 0 && b > 0
    ensures a > 0
  {
    if a <= 0 {
      MulNonNegative(-a, b);
    }
  }

  lemma MulNonNegative(a: int, b: int)
    requires a >= 0 && b >= 0
    ensures a * b >= 0
  {
  }

  // ---------------------------------------------------------------- elements

  /** One time an element's macro was run: for which slot, and when. */
  datatype Firing = Firing(slot: int, now: int)

  /** No firing was early, and each was for a later slot than the one before. */
  predicate Orderly(fired: seq<Firing>) {
    && (forall i :: 0 <= i < |fired| ==> 0 <= fired[i].slot <= fired[i].now)
    && (forall i, j :: 0 <= i < j < |fired| ==> fired[i].slot < fired[j].slot)
  }

  /** Every firing so far was for a slot before `next`. */
  predicate Before(fired: seq<Firing>, next: int) {
    forall i :: 0 <= i < |fired| ==> fired[i].slot < next
  }

  /** What an element holds: its times, its flags and its record of runs. */
  datatype Job = Job(first: int, offset: int, last: int, next: int, pause: bool, during: bool, fired: seq<Firing>)

  /** The slot has come: a run is recorded, or for a paused element that there would have been one. */
  function Ran(j: Job, now: int): Job {
    if j.next < 0 then j else if j.pause then j.(during := true) else j.(fired := j.fired + [Firing(j.next, now)])
  }

  /** The next slot at the time `cur`, or 0 when there is none. */
  function Due(j: Job, cur: int): (int, Job) {
    if j.last != 0 && cur > j.last then (0, j)
    else if j.offset <= 0 then (j.next, j)
    else
      var slot := Slot(j.first, j.offset, Seen(j.first, cur));
      (if j.last != 0 && slot > j.last then 0 else slot, j.(next := slot))
  }

  /** The element taken at the time `now`, its next slot computed at `cur`; None when it goes. */
  function Settled(j: Job, now: int, cur: int): Option<Job> {
    if now < j.next then Some(j)
    else
      var (t, j') := Due(Ran(j, now), cur);
      if t > j.next then Some(j') else None
  }

  /** The time for which the element goes back into the heap; None when it goes. */
  function PutBackFor(j: Job, now: int, cur: int): Option<int> {
    if now < j.next then Some(j.next)
    else
      var (t, j') := Due(Ran(j, now), cur);
      if t > j.next then Some(t) else None
  }

  /** From a time that is not negative on, that time is the element's next slot. */
  lemma PutBackOnTime(j: Job, now: int, cur: int)
    requires j.next >= 0
    ensures var s, t := Settled(j, now, cur), PutBackFor(j, now, cur);
      (s.Some? <==> t.Some?) && (t.Some? ==> t.value == s.value.next >= 0)
  {
  }

  /** An element with an offset, taken when its slot has come, goes on if and only if the clock
    has moved past that slot by the time the next one is computed, and the least slot not
    before the clock is not past the end. That slot is then its next one. */
  lemma GoesOnExactly(j: Job, now: int, cur: int, m: nat)
    requires 0 < j.offset < 0x8000_0000 && j.next == j.first + m * j.offset
    requires 0 <= j.next <= now <= cur < j.first + 0x8000_0000
    ensures Settled(j, now, cur).Some? <==>
      cur > j.next && (j.last == 0 || Slot(j.first, j.offset, cur) <= j.last)
    ensures Settled(j, now, cur).Some? ==> Settled(j, now, cur).value.next == Slot(j.first, j.offset, cur)
  {
    MulNonNegative(m, j.offset);
    var k := SlotIsLeast(j.first, j.offset, cur);
    assert Seen(j.first, cur) == cur;
    assert cur == j.next ==> Slot(j.first, j.offset, cur) <= j.first + m * j.offset;
  }

  /** An element without an offset goes after its one run. */
  lemma OnceOnly(j: Job, now: int, cur: int)
    requires j.offset <= 0 <= j.next <= now
    ensures Settled(j, now, cur) == None
  {
  }

  class Elem {
    const name: bytes
    var first: int
    var next: int
    var offset: int
    var last: int
    var pause: bool
    var during: bool
    ghost var fired: seq<Firing>

    constructor (name: bytes)
      ensures this.name == name && fired == [] && first == next == offset == last == 0 && !pause && !during
    {
      this.name := name;
      first, next, offset, last := 0, 0, 0, 0;
      pause, during := false, false;
      fired := [];
    }

    ghost function AsJob(): Job
      reads this
    {
      Job(first, offset, last, next, pause, during, fired)
    }

    ghost predicate InOrder()
      reads this
    {
      Orderly(fired)
    }

    ghost predicate Waiting()
      reads this
    {
      InOrder() && Before(fired, next)
    }

    /** The slot has come: run the macro, or note that it would have run. What the macro does is
      not modelled. */
    method Run(now: int)
      requires Waiting() && now >= next
      modifies this`fired, this`during
      ensures InOrder() && forall i :: 0 <= i < |fired| ==> fired[i].slot <= next
      ensures fired == old(fired) + if next >= 0 && !pause then [Firing(next, now)] else []
      ensures AsJob() == Ran(old(AsJob()), now)
    {
      if next >= 0 {
        if !pause {
          fired := fired + [Firing(next, now)];
        } else {
          during := true;
        }
      }
    }

    /** `Pause` and `Resume`. */
    method SetPause(on: bool)
      requires Waiting()
      modifies this`pause, this`during
      ensures Waiting() && AsJob() == old(AsJob()).(pause := on, during := on && old(during))
    {
      if !on && during {
        during := false;
      }
      pause := on;
    }

    /** `SetTimes` at the time `now`. */
    method SetTimes(First: int, Offset: int, Last: int, now: int)
      modifies this`first, this`next, this`offset, this`last
      ensures first == (if First == 0 then now else First) && next == First && offset == Offset && last == Last
    {
      first := First;
      if first == 0 {
        first := now;
      }
      next := First;
      offset := Offset;
      if offset <= 0 {
        last := first;
      }
      last := Last;
    }

    /** `CalcNext` at the time `cur`. */
    method CalcNext(cur: int) returns (t: int)
      modifies this`next
      ensures offset > 0 ==>
        var slot := Slot(first, offset, Seen(first, cur));
        t == (if last != 0 && (cur > last || slot > last) then 0 else slot)
      ensures offset <= 0 ==> t == if last != 0 && cur > last then 0 else old(next)
      ensures next == old(next) || (offset > 0 && next == Slot(first, offset, Seen(first, cur)))
      ensures t == next || t == 0
      ensures (t, AsJob()) == Due(old(AsJob()), cur)
    {
      if last != 0 && cur > last { return 0; }
      if offset <= 0 { return next; }
      var diff := Int32(cur - first);
      if diff > 0 {
        var cnt := diff / offset;
        if diff % offset != 0 {
          cnt := cnt + 1;
        }
        next := first + cnt * offset;
      } else {
        next := first;
      }
      if last != 0 && next > last { return 0; }
      return next;
    }
  }

  /** The times of an element stay above the negated sentinel. */
  ghost predicate FitsIn(e: Elem, compMAX: int)
    reads e
  {
    -e.next < compMAX && -e.first < compMAX
  }

  // ---------------------------------------------------------------- the pool

  type Entry = PriQ.Item<Elem?>
  type Names = map<bytes, Elem>

  /** The map finds the element under its own name. */
  ghost predicate Named(names: Names, e: Elem) {
    HashMap.Lower(e.name) in names && names[HashMap.Lower(e.name)] == e
  }

  /** Each entry is there once, and no two have the same element. */
  ghost predicate Single(entries: multiset<Entry>) {
    && (forall x :: x in entries ==> entries[x] == 1)
    && (forall x, y :: x in entries && y in entries && x.s == y.s ==> x == y)
  }

  ghost predicate InHeap(entries: multiset<Entry>, e: Elem?) {
    exists x :: x in entries && x.s == e
  }

  /** The heap's elements and the one in hand are exactly the map's values, each under its own
    name and in one place only. */
  ghost predicate Agree(entries: multiset<Entry>, names: Names, hand: Elem?) {
    forall t {:trigger Wanted(OfHeap, t)} :: Wanted(OfHeap, t) ==> Agreeing(entries, names, hand)
  }

  ghost predicate Agreeing(entries: multiset<Entry>, names: Names, hand: Elem?) {
    && Single(entries)
    && (forall x :: x in entries ==> x.s != null && Named(names, x.s))
    && (forall k :: k in names ==> HashMap.Lower(names[k].name) == k && (names[k] == hand || InHeap(entries, names[k])))
    && (hand != null ==> Named(names, hand) && !InHeap(entries, hand))
  }

  /** The entry of an element for the time `t`: the heap has the latest key on top. */
  function EntryFor(t: int, e: Elem?): Entry {
    PriQ.Item(-t, e)
  }

  /** No entry's key is above that of `x`: none is due before it. */
  ghost predicate IsFirst(entries: multiset<Entry>, x: Entry) {
    x in entries && forall y :: y in entries ==> y.c <= x.c
  }

  predicate HasOtherName(x: Entry, name: bytes) {
    x.s != null && HashMap.Lower(x.s.name) != HashMap.Lower(name)
  }

  /** The heap has what it had under other names than `name`. */
  ghost predicate Freed(before: multiset<Entry>, after: multiset<Entry>, name: bytes) {
    && (forall x :: x in before && HasOtherName(x, name) ==> x in after)
    && (forall x :: x in after ==> x in before && HasOtherName(x, name))
  }

  /** The heap has the element for the time `t`, and what it had under other names. */
  ghost predicate Scheduled(before: multiset<Entry>, after: multiset<Entry>, t: int, elem: Elem) {
    && EntryFor(t, elem) in after
    && (forall x :: x in before && HasOtherName(x, elem.name) ==> x in after)
    && (forall x :: x in after ==> x == EntryFor(t, elem) || (x in before && HasOtherName(x, elem.name)))
  }

  /** The heap has what it had and, if a time is given, the element for that time. */
  ghost predicate Queued(before: multiset<Entry>, after: multiset<Entry>, e: Elem, t: Option<int>) {
    && (t.Some? ==> EntryFor(t.value, e) in after)
    && (forall x :: x in before ==> x in after)
    && (forall x :: x in after ==> x in before || (t.Some? && x == EntryFor(t.value, e)))
  }

  /** Every element but the one in hand is in the heap for its next slot. */
  ghost predicate Timely(entries: multiset<Entry>, names: Names, hand: Elem?)
    reads names.Values
  {
    forall k :: k in names && names[k] != hand ==>
      names[k].next >= 0 && EntryFor(names[k].next, names[k]) in entries
  }

  /** Taking the place of `e` out of the heap keeps its order: the place is the top, or the last
    key does not exceed that of its parent. */
  ghost predicate LeavesOrder(items: seq<Entry>, e: Elem) {
    forall j :: 0 <= j < |items| && items[j].s == e ==> StaysOrdered(items, j)
  }

  predicate StaysOrdered(items: seq<Entry>, j: nat)
    requires j < |items|
  {
    j == 0 || items[|items| - 1].c <= items[(j + 1) / 2 - 1].c
  }

  class Pool {
    const heap: PriQ.PriQ<Elem?>
    var names: Names

    /** The element taken off the heap and not yet put back or dropped. */
    ghost var hand: Elem?

    ghost function Entries(): multiset<Entry>
      requires heap.Valid()
      reads heap, heap.p
    {
      multiset(heap.Items())
    }

    ghost predicate Valid()
      reads this, heap, heap.p
    {
      heap.Valid() && Agree(Entries(), names, hand)
    }

    constructor (compMAX: int)
      ensures Valid() && names == map[] && hand == null && heap.compMAX == compMAX && fresh(heap) && fresh(heap.p)
      ensures heap.InOrder() && Entries() == multiset{}
    {
      heap := new PriQ.PriQ<Elem?>(compMAX, 0);
      names := map[];
      hand := null;
    }

    /** `FindElem`: the place of the element in the heap, or 0. */
    method FindElem(elem: Elem) returns (i: nat)
      requires heap.Valid()
      ensures i <= |heap.Items()| && (i > 0 ==> heap.Items()[i - 1].s == elem)
      ensures i == 0 ==> !InHeap(Entries(), elem)
    {
      i := 1;
      var ok, cur := heap.GetNext(i);
      while ok
        invariant i > 0 && ok == (i <= |heap.Items()|) && (ok ==> cur == heap.Items()[i - 1])
        invariant i <= |heap.Items()| + 1
        invariant forall j :: 0 <= j < i - 1 ==> heap.Items()[j].s != elem
        decreases |heap.Items()| + 1 - i
      {
        if cur.s == elem { return; }
        i := i + 1;
        ok, cur := heap.GetNext(i);
      }
      ghost var items := heap.Items();
      assert forall x :: x in multiset(items) ==> x in items;
      return 0;
    }

    /** `RemoveElem`. */
    method RemoveElem(elem: Elem) returns (found: bool)
      requires heap.Valid()
      modifies heap, heap.p
      ensures heap.Valid() && heap.p == old(heap.p)
      ensures found == old(InHeap(Entries(), elem))
      ensures !found ==> Entries() == old(Entries())
      ensures found ==> exists x :: x in old(Entries()) && x.s == elem && Entries() + multiset{x} == old(Entries())
      ensures old(heap.InOrder()) && old(Single(Entries())) ==>
        (heap.InOrder() <==> old(LeavesOrder(heap.Items(), elem)))
    {
      var i := FindElem(elem);
      if i > 0 {
        RemovePlace(i, elem);
        return true;
      } else {
        NoPlace(heap.Items(), elem);
        return false;
      }
    }

    method RemovePlace(i: nat, ghost elem: Elem)
      requires heap.Valid() && 0 < i <= |heap.Items()| && heap.Items()[i - 1].s == elem
      modifies heap, heap.p
      ensures heap.Valid() && heap.p == old(heap.p) && old(InHeap(Entries(), elem))
      ensures exists x :: x in old(Entries()) && x.s == elem && Entries() + multiset{x} == old(Entries())
      ensures old(heap.InOrder()) && old(Single(Entries())) ==>
        (heap.InOrder() <==> old(LeavesOrder(heap.Items(), elem)))
    {
      ghost var items := heap.Items();
      ghost var x := items[i - 1];
      assert x in items;
      if Single(multiset(items)) {
        OnePlace(items, i - 1, elem);
      }
      var s := heap.Remove(i);
    }

    /** `RemoveHeap`: the top element goes into the caller's hand. */
    method RemoveHeap() returns (e: Elem?, ghost x: Entry)
      requires Valid() && hand == null
      modifies this`hand, heap, heap.p
      ensures Valid() && hand == e && names == old(names) && heap.p == old(heap.p)
      ensures e == null <==> old(Entries()) == multiset{}
      ensures e == null ==> Entries() == old(Entries()) && heap.Items() == old(heap.Items())
      ensures e != null ==> e in names.Values
      ensures e != null ==> x.s == e && x in old(Entries()) && Entries() + multiset{x} == old(Entries())
      ensures old(heap.InOrder()) ==> heap.InOrder() && (e != null ==> IsFirst(old(Entries()), x))
    {
      x := PriQ.Item(0, null);
      var n := heap.Count();
      if n == 0 { return null, x; }
      ghost var before := Entries();
      e, x := HeapRemove();
      hand := e;
      TakenAgrees(before, Entries(), names, x);
    }

    method HeapRemove() returns (e: Elem?, ghost x: Entry)
      requires heap.Valid() && |heap.Items()| > 0
      modifies heap, heap.p
      ensures heap.Valid() && heap.p == old(heap.p) && x.s == e
      ensures x in old(Entries()) && Entries() + multiset{x} == old(Entries())
      ensures old(heap.InOrder()) ==> heap.InOrder() && IsFirst(old(Entries()), x)
    {
      ghost var items := heap.Items();
      x := items[0];
      assert x in items;
      if heap.InOrder() {
        PriQ.TopOfItems(heap.p[..], heap.N);
        assert forall y :: y in multiset(items) ==> y in items;
      }
      e := heap.Remove(1);
    }

    /** `InsertHeap`: the element gets its name and a place in the heap. It is the one in hand,
      or its name is free. */
    method InsertHeap(t: int, e: Elem)
      requires Valid() && -t < heap.compMAX && !InHeap(Entries(), e)
      requires hand == e || HashMap.Lower(e.name) !in names
      modifies this, heap, heap.p
      ensures Valid() && names == old(names)[HashMap.Lower(e.name) := e]
      ensures hand == if old(hand) == e then null else old(hand)
      ensures heap.p == old(heap.p) || fresh(heap.p)
      ensures Entries() == old(Entries()) + multiset{EntryFor(t, e)}
      ensures old(heap.InOrder()) ==> heap.InOrder()
    {
      PutInHeap(t, e);
      TakeName(e);
    }

    /** The place in the heap; heap and map agree again when the element has its name. */
    method PutInHeap(t: int, e: Elem)
      requires Valid() && -t < heap.compMAX && !InHeap(Entries(), e)
      requires hand == e || HashMap.Lower(e.name) !in names
      modifies heap, heap.p
      ensures heap.Valid()
      ensures Agree(Entries(), names[HashMap.Lower(e.name) := e], if hand == e then null else hand)
      ensures heap.p == old(heap.p) || fresh(heap.p)
      ensures Entries() == old(Entries()) + multiset{EntryFor(t, e)}
      ensures old(heap.InOrder()) ==> heap.InOrder()
    {
      ghost var before := Entries();
      HeapInsert(t, e);
      PutAgrees(before, Entries(), names, hand, EntryFor(t, e));
    }

    method TakeName(e: Elem)
      requires heap.Valid()
      modifies this`names, this`hand
      ensures heap.Valid() && Entries() == old(Entries()) && heap.InOrder() == old(heap.InOrder())
      ensures names == old(names)[HashMap.Lower(e.name) := e] && hand == if old(hand) == e then null else old(hand)
    {
      names := names[HashMap.Lower(e.name) := e];
      hand := if hand == e then null else hand;
    }

    method HeapInsert(t: int, e: Elem)
      requires heap.Valid() && -t < heap.compMAX
      modifies heap, heap.p
      ensures heap.Valid() && Entries() == old(Entries()) + multiset{EntryFor(t, e)}
      ensures heap.p == old(heap.p) || fresh(heap.p)
      ensures old(heap.InOrder()) ==> heap.InOrder()
    {
      heap.Insert(-t, e);
    }

    /** `Delete`: the name goes, and its element leaves the heap unless it is in hand. */
    method Delete(name: bytes) returns (found: bool)
      requires Valid()
      modifies this, heap, heap.p
      ensures Valid() && heap.p == old(heap.p)
      ensures found == (HashMap.Lower(name) in old(names)) && names == old(names) - {HashMap.Lower(name)}
      ensures Entries() <= old(Entries()) && Freed(old(Entries()), Entries(), name)
      ensures hand == if found && old(names)[HashMap.Lower(name)] == old(hand) then null else old(hand)
      ensures old(heap.InOrder()) ==> (heap.InOrder() <==> old(FreesInOrder(name)))
      ensures (old(AllWaiting()) ==> AllWaiting()) && (old(TimesFit()) ==> TimesFit())
    {
      OpenHand();
      found := Unname(name);
    }

    /** The part of `Delete` that keeps heap and map in agreement. */
    method Unname(name: bytes) returns (found: bool)
      requires Valid()
      modifies this, heap, heap.p
      ensures Valid() && heap.p == old(heap.p)
      ensures found == (HashMap.Lower(name) in old(names)) && names == old(names) - {HashMap.Lower(name)}
      ensures Entries() <= old(Entries()) && Freed(old(Entries()), Entries(), name)
      ensures hand == if found && old(names)[HashMap.Lower(name)] == old(hand) then null else old(hand)
      ensures old(heap.InOrder()) ==> (heap.InOrder() <==> old(FreesInOrder(name)))
    {
      var k := HashMap.Lower(name);
      if k in names {
        var elem := names[k];
        Open(Entries(), names, hand);
        ghost var before, names0, hand0 := Entries(), names, hand;
        var removed := RemoveElem(elem);
        DroppedAgrees(before, Entries(), names0, hand0, k, removed);
        DroppedFreed(before, Entries(), names0, hand0, name, removed);
        DropName(k);
        return true;
      } else {
        assert names - {k} == names;
        NothingFreed(Entries(), names, hand, name);
        return false;
      }
    }

    /** Freeing the name keeps the heap in order. */
    ghost predicate FreesInOrder(name: bytes)
      requires heap.Valid()
      reads this, heap, heap.p
    {
      HashMap.Lower(name) in names ==> LeavesOrder(heap.Items(), names[HashMap.Lower(name)])
    }

    method DropName(k: bytes)
      requires k in names && heap.Valid()
      modifies this`names, this`hand
      ensures heap.Valid() && Entries() == old(Entries()) && heap.InOrder() == old(heap.InOrder())
      ensures names == old(names) - {k} && hand == if old(names)[k] == old(hand) then null else old(hand)
    {
      hand := if names[k] == hand then null else hand;
      names := names - {k};
    }

    /** The element in hand, and every one in the map, has its name. */
    lemma OpenHand()
      requires Valid()
      ensures hand != null ==> Named(names, hand) && !InHeap(Entries(), hand)
      ensures forall k :: k in names ==> HashMap.Lower(names[k].name) == k
    {
      Open(Entries(), names, hand);
    }

    /** `Schedule`: an element takes the place of whatever had its name. While an element is in
      hand, no other one is scheduled under its name. */
    method Schedule(elem: Elem, t: int)
      requires Valid() && -t < heap.compMAX && !InHeap(Entries(), elem)
      requires hand == null || hand == elem || HashMap.Lower(elem.name) != HashMap.Lower(hand.name)
      modifies this, heap, heap.p
      ensures Valid() && names == old(names)[HashMap.Lower(elem.name) := elem]
      ensures hand == if old(hand) == elem then null else old(hand)
      ensures heap.p == old(heap.p) || fresh(heap.p)
      ensures Scheduled(old(Entries()), Entries(), t, elem)
      ensures old(heap.InOrder()) && old(FreesInOrder(elem.name)) ==> heap.InOrder()
      ensures old(AllWaiting()) && elem.Waiting() ==> AllWaiting()
      ensures old(TimesFit()) && Fits(elem) ==> TimesFit()
    {
      OpenHand();
      Rename(elem, t);
    }

    /** The part of `Schedule` that keeps heap and map in agreement. */
    method Rename(elem: Elem, t: int)
      requires Valid() && -t < heap.compMAX && !InHeap(Entries(), elem)
      requires hand == null || hand == elem || HashMap.Lower(elem.name) != HashMap.Lower(hand.name)
      modifies this, heap, heap.p
      ensures Valid() && names == old(names)[HashMap.Lower(elem.name) := elem]
      ensures hand == if old(hand) == elem then null else old(hand)
      ensures heap.p == old(heap.p) || fresh(heap.p)
      ensures Scheduled(old(Entries()), Entries(), t, elem)
      ensures old(heap.InOrder()) && old(FreesInOrder(elem.name)) ==> heap.InOrder()
    {
      ghost var before := Entries();
      OpenHand();
      NamedAnew(names, HashMap.Lower(elem.name), elem);
      var found := Unname(elem.name);
      StillNotInHeap(before, Entries(), elem);
      ghost var between := Entries();
      InsertHeap(t, elem);
      FreedScheduled(before, between, Entries(), t, elem);
    }

    /** The end of an element that has no next slot: its name goes. */
    method Drop(e: Elem)
      requires Valid() && hand == e
      modifies this
      ensures Valid() && hand == null && names == old(names) - {HashMap.Lower(e.name)}
    {
      OpenHand();
      ghost var k := HashMap.Lower(e.name);
      DroppedAgrees(Entries(), Entries(), names, hand, k, false);
      names := names - {HashMap.Lower(e.name)};
      hand := null;
    }

    /** All elements but the one in hand wait for a slot later than those they have run for. */
    ghost predicate AllWaiting()
      reads this, names.Values
    {
      forall k :: k in names && names[k] != hand ==> names[k].Waiting()
    }

    /** Times stay above the negated sentinel. */
    ghost predicate TimesFit()
      reads this, names.Values
    {
      0 < heap.compMAX && forall k :: k in names ==> Fits(names[k])
    }

    ghost predicate Fits(e: Elem)
      reads this, e
    {
      FitsIn(e, heap.compMAX)
    }

    /** One round of `RunThread`, reading the clock as `now` and then as `cur`: the top element
      is taken; if its slot has come it runs, unless it is paused, and is given its next slot
      or dropped; otherwise it is put back. */
    method RunOnce(now: int, cur: int) returns (e: Elem?)
      requires Valid() && hand == null && AllWaiting() && TimesFit()
      modifies this, heap, heap.p, names.Values
      ensures Valid() && hand == null && AllWaiting() && TimesFit()
      ensures (heap.p == old(heap.p) || fresh(heap.p)) && names.Values <= old(names).Values
      ensures e == null <==> old(Entries()) == multiset{}
      ensures e != null ==>
        && e in old(names).Values && e.InOrder()
        && e.fired
          == old(e.fired) + (if now >= old(e.next) >= 0 && !old(e.pause) then [Firing(old(e.next), now)] else [])
      ensures forall f :: f in old(names).Values ==> f.first == old(f.first)
      ensures forall f :: f in old(names).Values && f != e ==> f.fired == old(f.fired) && f.next == old(f.next)
      ensures old(heap.InOrder()) ==> heap.InOrder()
      ensures old(Timely(Entries(), names, null)) ==> Timely(Entries(), names, null)
      ensures old(heap.InOrder()) && old(Timely(Entries(), names, null)) && e != null ==>
        forall f :: f in old(names).Values ==> old(e.next) <= old(f.next)
    {
      e := TakeFirst();
      if e != null {
        SettleTaken(e, now, cur);
      }
    }

    /** The element taken is the next one due. */
    method TakeFirst() returns (e: Elem?)
      requires Valid() && hand == null
      modifies this`hand, heap, heap.p
      ensures Valid() && hand == e && names == old(names) && heap.p == old(heap.p)
      ensures e == null <==> old(Entries()) == multiset{}
      ensures e != null ==> e in names.Values
      ensures old(heap.InOrder()) ==> heap.InOrder()
      ensures old(Timely(Entries(), names, null)) ==> Timely(Entries(), names, e) && (e != null ==> e.next >= 0)
      ensures old(heap.InOrder()) && old(Timely(Entries(), names, null)) && e != null ==>
        forall f :: f in names.Values ==> e.next <= f.next
    {
      ghost var before, timely := Entries(), Timely(Entries(), names, null);
      ghost var x;
      e, x := RemoveHeap();
      if e != null && timely {
        TakenTimely(before, Entries(), names, x);
      }
    }

    /** The same for the element it has taken. */
    method SettleTaken(e: Elem, now: int, cur: int)
      requires Valid() && hand == e && e.Waiting() && AllWaiting() && TimesFit() && e in names.Values
      modifies this, heap, heap.p, e
      ensures Valid() && hand == null && AllWaiting() && TimesFit()
      ensures (heap.p == old(heap.p) || fresh(heap.p)) && names.Values <= old(names).Values
      ensures e.InOrder() && e.first == old(e.first)
      ensures e.fired
        == old(e.fired) + (if now >= old(e.next) >= 0 && !old(e.pause) then [Firing(old(e.next), now)] else [])
      ensures old(heap.InOrder()) ==> heap.InOrder()
      ensures old(Timely(Entries(), names, e) && e.next >= 0) ==> Timely(Entries(), names, null)
    {
      ghost var before, j := names, e.AsJob();
      OpenHand();
      Settle(e, now, cur);
      PutBackTimely(before, e, j, now, cur);
      forall k | k in names ensures names[k].Waiting() && Fits(names[k]) {
        assert names[k] == before[k];
      }
    }

    /** An element put back from a time that is not negative is in the heap for its next slot. */
    lemma PutBackTimely(before: Names, e: Elem, j: Job, now: int, cur: int)
      requires heap.Valid() && Named(before, e) && Goes(before, e, names, j, now, cur)
      requires PutBackFor(j, now, cur).Some? ==> EntryFor(PutBackFor(j, now, cur).value, e) in Entries()
      ensures j.next >= 0 && HashMap.Lower(e.name) in names ==> e.next >= 0 && EntryFor(e.next, e) in Entries()
    {
      if j.next >= 0 {
        PutBackOnTime(j, now, cur);
      }
    }

    /** What `RunThread` does with the element it has taken. */
    method Settle(e: Elem, now: int, cur: int)
      requires Valid() && hand == e && e.Waiting()
      requires 0 < heap.compMAX && Fits(e)
      modifies this, heap, heap.p, e
      ensures Valid() && hand == null && (heap.p == old(heap.p) || fresh(heap.p))
      ensures forall k :: k in names ==> k in old(names) && names[k] == old(names)[k] && (names[k] == e ==> e.Waiting())
      ensures e.InOrder() && Fits(e) && e.first == old(e.first)
      ensures e.fired
        == old(e.fired) + (if now >= old(e.next) >= 0 && !old(e.pause) then [Firing(old(e.next), now)] else [])
      ensures Goes(old(names), e, names, old(e.AsJob()), now, cur)
      ensures Queued(old(Entries()), Entries(), e, PutBackFor(old(e.AsJob()), now, cur))
      ensures old(heap.InOrder()) ==> heap.InOrder()
    {
      if now >= e.next {
        RunDue(e, now, cur);
      } else {
        OpenHand();
        InsertHeap(e.next, e);
      }
    }

    /** The element keeps its name with what settling makes of it, or the name goes. */
    ghost predicate Goes(before: Names, e: Elem, after: Names, j: Job, now: int, cur: int)
      reads e
    {
      match Settled(j, now, cur)
      case Some(j') => after == before && e.AsJob() == j'
      case None => after == before - {HashMap.Lower(e.name)}
    }

    /** Its slot has come: it runs, and gets its next slot or goes. */
    method RunDue(e: Elem, now: int, cur: int)
      requires Valid() && hand == e && e.Waiting() && now >= e.next
      requires 0 < heap.compMAX && Fits(e)
      modifies this, heap, heap.p, e
      ensures Valid() && hand == null && (heap.p == old(heap.p) || fresh(heap.p))
      ensures forall k :: k in names ==> k in old(names) && names[k] == old(names)[k] && (names[k] == e ==> e.Waiting())
      ensures e.InOrder() && Fits(e) && e.first == old(e.first)
      ensures e.fired
        == old(e.fired) + (if old(e.next) >= 0 && !old(e.pause) then [Firing(old(e.next), now)] else [])
      ensures Goes(old(names), e, names, old(e.AsJob()), now, cur)
      ensures Queued(old(Entries()), Entries(), e, PutBackFor(old(e.AsJob()), now, cur))
      ensures old(heap.InOrder()) ==> heap.InOrder()
    {
      OpenHand();
      ghost var before, j := names, e.AsJob();
      var godot := e.next;
      var next := RunElem(e, now, cur);
      GoesOn(before, e, j, now, cur, next);
      if next > godot {
        Reschedule(e, next);
      } else {
        Drop(e);
      }
    }

    /** The element in hand goes back under its own name, which frees nothing. */
    method Reschedule(e: Elem, t: int)
      requires Valid() && hand == e && -t < heap.compMAX
      modifies this, heap, heap.p
      ensures Valid() && hand == null && names == old(names)
      ensures heap.p == old(heap.p) || fresh(heap.p)
      ensures Queued(old(Entries()), Entries(), e, Some(t))
      ensures old(heap.InOrder()) ==> heap.InOrder()
    {
      OpenHand();
      HandNotQueued(heap.Items(), names, e);
      ghost var before := names;
      Schedule(e, t);
      assert names == before;
    }

    lemma GoesOn(before: Names, e: Elem, j: Job, now: int, cur: int, next: int)
      requires now >= j.next && (next, e.AsJob()) == Due(Ran(j, now), cur)
      ensures Goes(before, e, if next > j.next then before else before - {HashMap.Lower(e.name)}, j, now, cur)
    {
    }

    /** The part of that which concerns the element. */
    method RunElem(e: Elem, now: int, cur: int) returns (next: int)
      requires e.Waiting() && now >= e.next && 0 < heap.compMAX && Fits(e)
      modifies e
      ensures e.InOrder() && Fits(e) && -next < heap.compMAX && e.first == old(e.first)
      ensures next > old(e.next) ==> e.Waiting()
      ensures e.fired
        == old(e.fired) + (if old(e.next) >= 0 && !old(e.pause) then [Firing(old(e.next), now)] else [])
      ensures (next, e.AsJob()) == Due(Ran(old(e.AsJob()), now), cur)
    {
      e.Run(now);
      next := CalcNext(e, cur);
    }

    /** The next slot of the element in hand, which has run for the one before. */
    method CalcNext(e: Elem, cur: int) returns (next: int)
      requires e.InOrder() && forall i :: 0 <= i < |e.fired| ==> e.fired[i].slot <= e.next
      requires 0 < heap.compMAX && Fits(e)
      modifies e`next
      ensures -next < heap.compMAX && Fits(e)
      ensures next > old(e.next) ==> e.Waiting()
      ensures (next, e.AsJob()) == Due(old(e.AsJob()), cur)
    {
      next := e.CalcNext(cur);
      if e.offset > 0 {
        SlotNotBefore(e.first, e.offset, Seen(e.first, cur));
      }
    }
  }

  // ---------------------------------------------------------------- runs

  /** A step of any thread: define an element at the time `now`, delete, pause or resume one, or, in
    the thread that runs elements, take the top one or settle the one taken. */
  datatype Move =
    | Define(name: bytes, first: int, offset: int, last: int, now: int, late: int)
    | Delete(name: bytes)
    | Pause(name: bytes)
    | Resume(name: bytes)
    | Take
    | Settle(now: int, cur: int)

  /** Times stay above the negated sentinel. */
  predicate MoveFits(m: Move, compMAX: int) {
    m.Define? ==> -m.first < compMAX && -m.now < compMAX
  }

  /** The pool for its users: what is scheduled under each name, and the name of the one in hand; for
    every definition so far the record of its runs, kept when the element goes; for every name
    which definition it stems from; for every name the time it was last scheduled for; and whether
    the queue is known to be in order. */
  datatype Plan = Plan(jobs: map<bytes, Job>, hand: Option<bytes>, records: seq<seq<Firing>>, number: map<bytes, nat>,
                       due: map<bytes, int>, ordered: bool)

  const NO_PLAN := Plan(map[], None, [], map[], map[], true)

  /** The plan becomes `c`; if the name `k` was taken, then freeing it may put the queue in disorder. */
  predicate Frees(a: Plan, k: bytes, c: Plan, b: Plan) {
    b == c.(ordered := b.ordered) && (k !in a.jobs ==> b.ordered == a.ordered)
  }

  /** No name is due before `k`. */
  predicate IsNext(a: Plan, k: bytes) {
    k in a.due && forall l :: l in a.due ==> a.due[k] <= a.due[l]
  }

  /** What a move does to the plan. The name in hand is not defined anew or deleted. While the queue
    is in order, the one taken is the next one due. */
  predicate Moves(m: Move, a: Plan, b: Plan) {
    match m
    case Define(name, first, offset, last, now, late) =>
      var k := HashMap.Lower(name);
      var (t, j) := Due(Started(first, offset, last, now), now);
      if a.hand == Some(k) then b == a
      else if t <= now - late then b == a.(records := a.records + [[]])
      else Frees(a, k, With(a, k, t, j), b)
    case Delete(name) =>
      var k := HashMap.Lower(name);
      if a.hand == Some(k) then b == a else Frees(a, k, Without(a, k), b)
    case Pause(name) => b == Flagged(a, HashMap.Lower(name), true)
    case Resume(name) => b == Flagged(a, HashMap.Lower(name), false)
    case Take =>
      if a.hand.Some? || a.jobs == map[] then b == a
      else
        && b.hand.Some? && b.hand.value in a.jobs && b == a.(hand := b.hand)
        && (a.ordered ==> IsNext(a, b.hand.value))
    case Settle(now, cur) =>
      if a.hand == None then b == a
      else
        var k := a.hand.value;
        k in a.jobs && k in a.number && a.number[k] < |a.records| && b == PutBack(a, k, now, cur)
  }

  /** The element of a name is settled: its record is brought up to date, and it stays or goes. */
  function PutBack(a: Plan, k: bytes, now: int, cur: int): Plan
    requires k in a.jobs && k in a.number && a.number[k] < |a.records|
  {
    var c := a.(hand := None, records := a.records[a.number[k] := Record(a.jobs[k], now)]);
    match Settled(a.jobs[k], now, cur)
    case Some(j) => c.(jobs := c.jobs[k := j], due := c.due[k := PutBackFor(a.jobs[k], now, cur).value])
    case None => Without(c, k)
  }

  function Without(a: Plan, k: bytes): Plan {
    a.(jobs := a.jobs - {k}, number := a.number - {k}, due := a.due - {k})
  }

  /** A new definition, scheduled for the time `t`. */
  function With(a: Plan, k: bytes, t: int, j: Job): Plan {
    a.(jobs := a.jobs[k := j], records := a.records + [[]], number := a.number[k := |a.records|], due := a.due[k := t])
  }

  /** The runs of an element after it was taken at the time `now`. */
  function Record(j: Job, now: int): seq<Firing> {
    if now < j.next then j.fired else Ran(j, now).fired
  }

  /** An element with its times just set. */
  function Started(first: int, offset: int, last: int, now: int): Job {
    Job(if first == 0 then now else first, offset, last, first, false, false, [])
  }

  function Flagged(a: Plan, k: bytes, pause: bool): Plan {
    if k !in a.jobs then a
    else a.(jobs := a.jobs[k := a.jobs[k].(pause := pause, during := pause && a.jobs[k].during)])
  }

  /** In a plan every record is in order, and what is scheduled waits for a later slot than those it
    has run for. */
  ghost predicate Planned(a: Plan) {
    && a.jobs.Keys == a.number.Keys == a.due.Keys
    && (forall i :: 0 <= i < |a.records| ==> Orderly(a.records[i]))
    && (forall k :: PlannedAt(a, k))
    && (forall k, l :: k in a.number && l in a.number && a.number[k] == a.number[l] ==> k == l)
  }

  ghost predicate PlannedAt(a: Plan, k: bytes) {
    k in a.jobs && k in a.number ==>
      && a.number[k] < |a.records| && a.jobs[k].fired == a.records[a.number[k]]
      && Before(a.jobs[k].fired, a.jobs[k].next)
  }

  lemma RecordOrderly(j: Job, now: int, cur: int)
    requires Orderly(j.fired) && Before(j.fired, j.next)
    ensures Orderly(Record(j, now))
    ensures var s := Settled(j, now, cur);
      s.Some? ==> s.value.fired == Record(j, now) && Before(s.value.fired, s.value.next)
  {
  }

  /** Every move keeps that. */
  lemma MovesPlanned(m: Move, a: Plan, b: Plan)
    requires Planned(a) && Moves(m, a, b)
    ensures Planned(b)
  {
    if m.Settle? && a.hand.Some? {
      SettlesPlanned(m.now, m.cur, a, b);
    } else if m.Define? {
      DefinesPlanned(m, a, b);
    } else {
      forall k ensures PlannedAt(b, k) {
        assert PlannedAt(a, k);
      }
    }
  }

  lemma DefinesPlanned(m: Move, a: Plan, b: Plan)
    requires Planned(a) && m.Define? && Moves(m, a, b)
    ensures Planned(b)
  {
    var k := HashMap.Lower(m.name);
    var (t, j) := Due(Started(m.first, m.offset, m.last, m.now), m.now);
    WithPlanned(a, k, t, j);
    forall l ensures PlannedAt(b, l) {
      assert PlannedAt(a, l) && PlannedAt(With(a, k, t, j), l) && PlannedAt(a.(records := a.records + [[]]), l);
    }
  }

  lemma WithPlanned(a: Plan, k: bytes, t: int, j: Job)
    requires Planned(a) && j.fired == []
    ensures Planned(With(a, k, t, j)) && Planned(a.(records := a.records + [[]]))
  {
    forall l ensures PlannedAt(With(a, k, t, j), l) && PlannedAt(a.(records := a.records + [[]]), l) {
      assert PlannedAt(a, l);
    }
    forall l | l in a.number ensures a.number[l] < |a.records| {
      assert PlannedAt(a, l);
    }
  }

  lemma SettlesPlanned(now: int, cur: int, a: Plan, b: Plan)
    requires Planned(a) && a.hand.Some? && Moves(Settle(now, cur), a, b)
    ensures Planned(b)
  {
    var k := a.hand.value;
    assert PlannedAt(a, k);
    RecordOrderly(a.jobs[k], now, cur);
    forall l ensures PlannedAt(b, l) {
      assert PlannedAt(a, l);
    }
  }

  /** In every run all records are in order, also of the elements that have gone. */
  lemma {:induction false} RunPlanned(moves: seq<Move>, n: nat, trace: seq<Plan>)
    requires Traced(moves, n, trace)
    ensures forall i :: 0 <= i <= n ==> Planned(trace[i])
  {
    if n > 0 {
      RunPlanned(moves, n - 1, trace[..n]);
      assert Moves(moves[n - 1], trace[n - 1], trace[n]);
      MovesPlanned(moves[n - 1], trace[n - 1], trace[n]);
      forall i | 0 <= i < n ensures Planned(trace[i]) {
        assert trace[i] == trace[..n][i];
      }
    }
  }

  /** The move frees a name that another element is scheduled under. */
  predicate TakesAway(m: Move, a: Plan) {
    (m.Define? || m.Delete?) && HashMap.Lower(m.name) in a.jobs && a.hand != Some(HashMap.Lower(m.name))
  }

  /** As long as no move does that, the queue stays in order, and every element taken is the next
    one due. */
  lemma {:induction false} RunInTurn(moves: seq<Move>, n: nat, trace: seq<Plan>)
    requires Traced(moves, n, trace) && forall i :: 0 <= i < n ==> !TakesAway(moves[i], trace[i])
    ensures forall i :: 0 <= i <= n ==> trace[i].ordered
    ensures forall i :: 0 <= i < n && moves[i].Take? && trace[i].hand == None && trace[i].jobs != map[] ==>
      trace[i + 1].hand.Some? && IsNext(trace[i], trace[i + 1].hand.value)
  {
    if n > 0 {
      RunInTurn(moves, n - 1, trace[..n]);
      forall i | 0 <= i < n ensures trace[i].ordered {
        assert trace[i] == trace[..n][i];
      }
      assert Moves(moves[n - 1], trace[n - 1], trace[n]);
      MoveInTurn(moves[n - 1], trace[n - 1], trace[n]);
    }
  }

  lemma MoveInTurn(m: Move, a: Plan, b: Plan)
    requires Moves(m, a, b) && a.ordered && !TakesAway(m, a)
    ensures b.ordered
  {
  }

  /** Everything is scheduled for its next slot. */
  ghost predicate OnTime(a: Plan) {
    forall k :: OnTimeAt(a, k)
  }

  ghost predicate OnTimeAt(a: Plan, k: bytes) {
    k in a.jobs && k in a.due ==> a.due[k] == a.jobs[k].next >= 0
  }

  /** No first time is negative, nor the time before which a definition is too late. */
  predicate MoveNotNegative(m: Move) {
    m.Define? ==> m.first >= 0 && m.now >= m.late
  }

  lemma MoveOnTime(m: Move, a: Plan, b: Plan)
    requires Moves(m, a, b) && OnTime(a) && MoveNotNegative(m) && a.jobs.Keys == a.due.Keys
    ensures OnTime(b)
  {
    if m.Settle? && a.hand.Some? {
      SettleOnTime(m.now, m.cur, a, b);
    } else {
      forall k ensures OnTimeAt(b, k) {
        assert OnTimeAt(a, k);
      }
    }
  }

  lemma SettleOnTime(now: int, cur: int, a: Plan, b: Plan)
    requires a.hand.Some? && Moves(Settle(now, cur), a, b) && OnTime(a) && a.jobs.Keys == a.due.Keys
    ensures OnTime(b)
  {
    var k := a.hand.value;
    forall l ensures OnTimeAt(b, l) {
      assert OnTimeAt(a, l) && OnTimeAt(a, k);
      PutBackOnTime(a.jobs[k], now, cur);
    }
  }

  lemma {:induction false} RunOnTime(moves: seq<Move>, n: nat, trace: seq<Plan>)
    requires Traced(moves, n, trace) && forall i :: 0 <= i < n ==> MoveNotNegative(moves[i])
    ensures forall i :: 0 <= i <= n ==> OnTime(trace[i])
  {
    if n > 0 {
      RunOnTime(moves, n - 1, trace[..n]);
      RunPlanned(moves, n, trace);
      forall i | 0 <= i < n ensures OnTime(trace[i]) {
        assert trace[i] == trace[..n][i];
      }
      assert Moves(moves[n - 1], trace[n - 1], trace[n]);
      MoveOnTime(moves[n - 1], trace[n - 1], trace[n]);
    }
  }

  /** Then a round takes an element whose next slot no other comes before. If the slot of any
    element has come, then so has that one's, and it runs unless it is paused. */
  lemma RoundRunsDue(moves: seq<Move>, n: nat, trace: seq<Plan>, i: nat)
    requires Traced(moves, n, trace) && i + 1 < n && moves[i].Take? && moves[i + 1].Settle?
    requires forall j :: 0 <= j < n ==> !TakesAway(moves[j], trace[j]) && MoveNotNegative(moves[j])
    requires trace[i].hand == None && trace[i].jobs != map[]
    ensures trace[i + 1].hand.Some?
    ensures var a, k, now := trace[i], trace[i + 1].hand.value, moves[i + 1].now;
      && k in a.jobs && k in a.number && a.number[k] < |a.records| == |trace[i + 2].records|
      && (forall l :: l in a.jobs ==> a.jobs[k].next <= a.jobs[l].next)
      && ((exists l :: l in a.jobs && a.jobs[l].next <= now) ==>
            trace[i + 2].records[a.number[k]]
              == a.records[a.number[k]] + if a.jobs[k].pause then [] else [Firing(a.jobs[k].next, now)])
  {
    RunInTurn(moves, n, trace);
    RunOnTime(moves, n, trace);
    RunPlanned(moves, n, trace);
    assert Moves(moves[i], trace[i], trace[i + 1]) && Moves(moves[i + 1], trace[i + 1], trace[i + 2]);
    var a, k, now := trace[i], trace[i + 1].hand.value, moves[i + 1].now;
    assert PlannedAt(a, k) && OnTimeAt(a, k);
    forall l | l in a.jobs ensures a.jobs[k].next <= a.jobs[l].next {
      assert OnTimeAt(a, l);
    }
  }

  /** The pool has what the plan says, and `elems` are the elements that were defined, in order. */
  ghost predicate Follows(pool: Pool, elems: seq<Elem>, a: Plan)
    reads pool, pool.names.Values, All(elems)
  {
    && Kept(pool.names, a.jobs) && Recorded(elems, a.records) && Numbered(pool.names, elems, a.number)
    && a.hand == if pool.hand == null then None else Some(HashMap.Lower(pool.hand.name))
  }

  /** The heap has every entry for the time that the plan says, and it is in order when that does. */
  ghost predicate Waits(pool: Pool, a: Plan)
    requires pool.heap.Valid()
    reads pool, pool.heap, pool.heap.p
  {
    DueAs(pool.Entries(), a.due) && (a.ordered ==> pool.heap.InOrder())
  }

  ghost predicate DueAs(entries: multiset<Entry>, due: map<bytes, int>) {
    forall x :: x in entries ==> DueAt(x, due)
  }

  predicate DueAt(x: Entry, due: map<bytes, int>) {
    x.s != null && HashMap.Lower(x.s.name) in due && x.c == -due[HashMap.Lower(x.s.name)]
  }

  function All(elems: seq<Elem>): set<Elem> {
    set e | e in elems
  }

  /** Each element has run as its record says. */
  ghost predicate Recorded(elems: seq<Elem>, records: seq<seq<Firing>>)
    reads All(elems)
  {
    |elems| == |records| && forall i :: RecordedAt(elems, records, i)
  }

  ghost predicate RecordedAt(elems: seq<Elem>, records: seq<seq<Firing>>, i: int)
    reads All(elems)
  {
    0 <= i < |elems| && i < |records| ==> elems[i] in All(elems) && elems[i].fired == records[i]
  }

  /** The elements differ, and those in the map are the definitions with the numbers given. */
  ghost predicate Numbered(names: Names, elems: seq<Elem>, number: map<bytes, nat>) {
    && names.Keys == number.Keys
    && (forall k :: NumberedAt(names, elems, number, k))
    && (forall i, j :: 0 <= i < j < |elems| ==> elems[i] != elems[j])
  }

  ghost predicate NumberedAt(names: Names, elems: seq<Elem>, number: map<bytes, nat>, k: bytes) {
    k in names && k in number ==> number[k] < |elems| && elems[number[k]] == names[k]
  }

  /** The same for all elements but one, which may change. */
  ghost predicate RecordedBut(elems: seq<Elem>, records: seq<seq<Firing>>, n: nat)
    requires n < |elems|
    reads All(elems) - {elems[n]}
  {
    |elems| == |records| && forall i :: RecordedBeside(elems, records, n, i)
  }

  ghost predicate RecordedBeside(elems: seq<Elem>, records: seq<seq<Firing>>, n: nat, i: int)
    requires n < |elems|
    reads All(elems) - {elems[n]}
  {
    0 <= i < |elems| && i < |records| && elems[i] != elems[n] ==> elems[i] in All(elems) && elems[i].fired == records[i]
  }

  lemma RecordedApart(elems: seq<Elem>, records: seq<seq<Firing>>, n: nat)
    requires Recorded(elems, records) && n < |elems|
    ensures RecordedBut(elems, records, n) && elems[n].fired == records[n]
  {
    assert RecordedAt(elems, records, n);
    forall i ensures RecordedBeside(elems, records, n, i) {
      assert RecordedAt(elems, records, i);
    }
  }

  lemma RecordedPut(elems: seq<Elem>, records: seq<seq<Firing>>, n: nat)
    requires n < |elems| && RecordedBut(elems, records, n)
    requires forall i, j :: 0 <= i < j < |elems| ==> elems[i] != elems[j]
    ensures Recorded(elems, records[n := elems[n].fired])
  {
    var records' := records[n := elems[n].fired];
    forall i ensures RecordedAt(elems, records', i) {
      assert RecordedBeside(elems, records, n, i);
    }
  }

  /** A new element, and its name when it is scheduled. */
  lemma NumberedMore(names: Names, elems: seq<Elem>, number: map<bytes, nat>, records: seq<seq<Firing>>, e: Elem,
                     k: bytes)
    requires Numbered(names, elems, number) && Recorded(elems, records) && e !in elems && e.fired == []
    ensures All(elems + [e]) == All(elems) + {e} && Recorded(elems + [e], records + [[]])
    ensures Numbered(names, elems + [e], number) && Numbered(names[k := e], elems + [e], number[k := |elems|])
  {
    var more, names', number' := elems + [e], names[k := e], number[k := |elems|];
    forall i ensures RecordedAt(more, records + [[]], i) {
      assert RecordedAt(elems, records, i);
    }
    forall l ensures l in names' <==> l in number' {
      assert l in names <==> l in number;
    }
    forall l ensures NumberedAt(names, more, number, l) && NumberedAt(names', more, number', l) {
      assert NumberedAt(names, elems, number, l);
    }
  }

  lemma NumberedLess(names: Names, elems: seq<Elem>, number: map<bytes, nat>, k: bytes)
    requires Numbered(names, elems, number)
    ensures Numbered(names - {k}, elems, number - {k})
  {
    forall l ensures NumberedAt(names - {k}, elems, number - {k}, l) {
      assert NumberedAt(names, elems, number, l);
    }
  }

  /** The elements hold what is planned under their names. */
  ghost predicate Kept(names: Names, jobs: map<bytes, Job>)
    reads names.Values
  {
    names.Keys == jobs.Keys && forall k :: KeptAt(names, jobs, k)
  }

  ghost predicate KeptAt(names: Names, jobs: map<bytes, Job>, k: bytes)
    reads names.Values
  {
    k in names && k in jobs ==> names[k].AsJob() == jobs[k]
  }

  lemma KeptLess(names: Names, jobs: map<bytes, Job>, k: bytes)
    requires Kept(names, jobs)
    ensures Kept(names - {k}, jobs - {k})
  {
    var names', jobs' := names - {k}, jobs - {k};
    forall l ensures KeptAt(names', jobs', l) {
      assert KeptAt(names, jobs, l);
    }
  }

  lemma KeptPut(names: Names, jobs: map<bytes, Job>, k: bytes, e: Elem)
    requires Kept(names - {k}, jobs - {k})
    ensures Kept(names[k := e], jobs[k := e.AsJob()])
  {
    var names', jobs' := names[k := e], jobs[k := e.AsJob()];
    forall l ensures l in names' <==> l in jobs' {
      assert l in names - {k} <==> l in jobs - {k};
    }
    forall l ensures KeptAt(names', jobs', l) {
      assert KeptAt(names - {k}, jobs - {k}, l);
    }
  }

  /** The pool, and all elements ever defined: each has run for later and later slots, and never
    early; those in the map and not in hand wait for a later one still. */
  ghost predicate Sound(pool: Pool, born: set<Elem>)
    reads pool, pool.heap, pool.heap.p, born
  {
    pool.Valid() && 0 < pool.heap.compMAX && Healthy(pool.names, pool.heap.compMAX, born)
  }

  ghost predicate Healthy(names: Names, compMAX: int, born: set<Elem>)
    reads born
  {
    && (forall e :: e in born ==> e.InOrder())
    && (forall k :: HealthyAt(names, compMAX, born, k))
  }

  ghost predicate HealthyAt(names: Names, compMAX: int, born: set<Elem>, k: bytes)
    reads born
  {
    k in names ==> names[k] in born && names[k].Waiting() && FitsIn(names[k], compMAX)
  }

  lemma HealthyValues(names: Names, compMAX: int, born: set<Elem>)
    requires Healthy(names, compMAX, born)
    ensures names.Values <= born
  {
    forall k | k in names ensures names[k] in born {
      assert HealthyAt(names, compMAX, born, k);
    }
  }

  /** The name `k` and its element apart. */
  lemma HealthyLess(names: Names, compMAX: int, born: set<Elem>, k: bytes)
    requires Healthy(names, compMAX, born)
    ensures k in names ==> names[k] in born && names[k].Waiting() && FitsIn(names[k], compMAX)
    ensures Healthy(names - {k}, compMAX, born)
    ensures k in names && (forall l :: l in names && l != k ==> names[l] != names[k]) ==>
      Healthy(names - {k}, compMAX, born - {names[k]})
  {
    assert HealthyAt(names, compMAX, born, k);
    var less := names - {k};
    forall l ensures HealthyAt(less, compMAX, born, l) {
      assert HealthyAt(names, compMAX, born, l);
    }
    if k in names && forall l :: l in names && l != k ==> names[l] != names[k] {
      var others := born - {names[k]};
      forall l ensures HealthyAt(less, compMAX, others, l) {
        assert HealthyAt(names, compMAX, born, l);
      }
    }
  }

  /** An element more, and its name. */
  lemma HealthyMore(names: Names, compMAX: int, born: set<Elem>, k: bytes, e: Elem)
    requires Healthy(names, compMAX, born) && e.InOrder()
    ensures Healthy(names, compMAX, born + {e})
    ensures e.Waiting() && FitsIn(e, compMAX) ==> Healthy(names[k := e], compMAX, born + {e})
  {
    var more, all := names[k := e], born + {e};
    forall l ensures HealthyAt(names, compMAX, all, l) {
      assert HealthyAt(names, compMAX, born, l);
    }
    if e.Waiting() && FitsIn(e, compMAX) {
      forall l ensures HealthyAt(more, compMAX, all, l) {
        assert HealthyAt(names, compMAX, born, l);
      }
    }
  }

  /** Any run of moves from an empty pool does to it what the moves do to a plan, `trace` being the
    plans before each move and at the end. At its end heap, hand and map agree. Every element that
    was defined has run as its record says, whether it is still there or not, and every record is
    in order: each run when its slot had come, for strictly increasing slots. */
  method RunMoves(compMAX: int, moves: seq<Move>)
    returns (pool: Pool, ghost elems: seq<Elem>, ghost trace: seq<Plan>)
    requires 0 < compMAX && forall i :: 0 <= i < |moves| ==> MoveFits(moves[i], compMAX)
    ensures Traced(moves, |moves|, trace) && Follows(pool, elems, trace[|moves|])
    ensures forall i :: 0 <= i <= |moves| ==> Planned(trace[i])
    ensures pool.Valid()
    ensures forall e: Elem :: e in pool.names.Values <==> InHeap(pool.Entries(), e) || e == pool.hand
  {
    pool := new Pool(compMAX);
    elems, trace := [], [NO_PLAN];
    var e: Elem? := null;
    var i := 0;
    while i < |moves|
      invariant 0 <= i <= |moves| && fresh(pool) && fresh(pool.heap) && fresh(All(elems))
      invariant pool.heap.p == null || fresh(pool.heap.p)
      invariant pool.heap.compMAX == compMAX && Sound(pool, All(elems)) && pool.hand == e
      invariant Traced(moves, i, trace) && Follows(pool, elems, trace[i]) && Waits(pool, trace[i])
    {
      RunPlanned(moves, i, trace);
      ghost var b;
      e, elems, b := MakeMove(pool, moves[i], e, elems, trace[i]);
      TracedMore(moves, i, trace, b);
      trace := trace + [b];
      i := i + 1;
    }
    RunPlanned(moves, i, trace);
    HeapAndHandAreMap(pool.Entries(), pool.names, pool.hand);
  }

  /** The first `n` moves lead along the trace, from an empty plan. */
  ghost predicate Traced(moves: seq<Move>, n: nat, trace: seq<Plan>) {
    && n <= |moves| && |trace| == n + 1 && trace[0] == NO_PLAN
    && forall i :: 0 <= i < n ==> Moves(moves[i], trace[i], trace[i + 1])
  }

  lemma TracedMore(moves: seq<Move>, n: nat, trace: seq<Plan>, b: Plan)
    requires Traced(moves, n, trace) && n < |moves| && Moves(moves[n], trace[n], b)
    ensures Traced(moves, n + 1, trace + [b])
  {
  }

  /** One move; `e` is the element that the running thread has in hand. */
  method MakeMove(pool: Pool, m: Move, e: Elem?, ghost elems: seq<Elem>, ghost a: Plan)
    returns (e': Elem?, ghost elems': seq<Elem>, ghost b: Plan)
    requires Sound(pool, All(elems)) && MoveFits(m, pool.heap.compMAX) && pool.hand == e && Follows(pool, elems, a)
    requires Waits(pool, a) && a.jobs.Keys == a.due.Keys
    modifies pool, pool.heap, pool.heap.p, All(elems)
    ensures Sound(pool, All(elems')) && pool.hand == e' && fresh(All(elems') - All(elems))
    ensures Moves(m, a, b) && Follows(pool, elems', b) && Waits(pool, b)
    ensures pool.heap.p == old(pool.heap.p) || fresh(pool.heap.p)
  {
    e', elems', b := e, elems, a;
    match m
    case Define(name, first, offset, last, now, late) =>
      if e == null || HashMap.Lower(e.name) != HashMap.Lower(name) {
        elems', b := DefineElem(pool, name, first, offset, last, now, late, elems, a);
      }
    case Delete(name) =>
      if e == null || HashMap.Lower(e.name) != HashMap.Lower(name) {
        b := DeleteName(pool, name, elems, a);
      }
    case Pause(name) => b := Flag(pool, name, true, elems, a);
    case Resume(name) => b := Flag(pool, name, false, elems, a);
    case Take =>
      if e == null {
        e', b := TakeMove(pool, elems, a);
      }
    case Settle(now, cur) =>
      if e != null {
        pool.OpenHand();
        HealthyValues(pool.names, pool.heap.compMAX, All(elems));
        b := SettleHand(pool, e, now, cur, elems, a);
        e' := null;
      }
  }

  /** `Define`: a new element is scheduled for its next slot, unless that is too late already. */
  method DefineElem(pool: Pool, name: bytes, first: int, offset: int, last: int, now: int, late: int,
                    ghost elems: seq<Elem>, ghost a: Plan)
    returns (ghost elems': seq<Elem>, ghost b: Plan)
    requires Sound(pool, All(elems)) && -first < pool.heap.compMAX && -now < pool.heap.compMAX
    requires Follows(pool, elems, a) && Waits(pool, a)
    requires pool.hand == null || HashMap.Lower(name) != HashMap.Lower(pool.hand.name)
    modifies pool, pool.heap, pool.heap.p
    ensures Sound(pool, All(elems')) && pool.hand == old(pool.hand) && fresh(All(elems') - All(elems))
    ensures Moves(Define(name, first, offset, last, now, late), a, b) && Follows(pool, elems', b) && Waits(pool, b)
    ensures pool.heap.p == old(pool.heap.p) || fresh(pool.heap.p)
  {
    var elem, t := NewElem(name, first, offset, last, now);
    elems', b := elems + [elem], a.(records := a.records + [[]]);
    NumberedMore(pool.names, elems, a.number, a.records, elem, HashMap.Lower(name));
    HealthyMore(pool.names, pool.heap.compMAX, All(elems), HashMap.Lower(name), elem);
    if t > now - late {
      b := ScheduleNew(pool, elem, t, elems, a);
    }
    DefineMoves(name, first, offset, last, now, late, t, elem.AsJob(), a, b);
  }

  lemma DefineMoves(name: bytes, first: int, offset: int, last: int, now: int, late: int, t: int, j: Job, a: Plan,
                    b: Plan)
    requires a.hand != Some(HashMap.Lower(name)) && (t, j) == Due(Started(first, offset, last, now), now)
    requires if t > now - late then Frees(a, HashMap.Lower(name), With(a, HashMap.Lower(name), t, j), b)
             else b == a.(records := a.records + [[]])
    ensures Moves(Define(name, first, offset, last, now, late), a, b)
  {
  }

  method ScheduleNew(pool: Pool, elem: Elem, t: int, ghost elems: seq<Elem>, ghost a: Plan) returns (ghost b: Plan)
    requires Sound(pool, All(elems)) && elem !in elems && elem.Waiting() && elem.fired == []
    requires pool.Fits(elem) && -t < pool.heap.compMAX && Follows(pool, elems, a) && Waits(pool, a)
    requires pool.hand == null || HashMap.Lower(elem.name) != HashMap.Lower(pool.hand.name)
    modifies pool, pool.heap, pool.heap.p
    ensures Sound(pool, All(elems + [elem])) && pool.hand == old(pool.hand)
    ensures var k := HashMap.Lower(elem.name); Frees(a, k, With(a, k, t, elem.AsJob()), b)
    ensures Follows(pool, elems + [elem], b) && Waits(pool, b)
    ensures pool.heap.p == old(pool.heap.p) || fresh(pool.heap.p)
  {
    ghost var k := HashMap.Lower(elem.name);
    NotYetThere(pool, elem, elems);
    KeptLess(pool.names, a.jobs, k);
    KeptPut(pool.names, a.jobs, k, elem);
    NumberedMore(pool.names, elems, a.number, a.records, elem, k);
    HealthyMore(pool.names, pool.heap.compMAX, All(elems), k, elem);
    b := ScheduleKnown(pool, elem, t, k, elems, a);
  }

  /** The same, with what will be known of all elements said of the names to come. */
  method ScheduleKnown(pool: Pool, elem: Elem, t: int, ghost k: bytes, ghost elems: seq<Elem>, ghost a: Plan)
    returns (ghost b: Plan)
    requires pool.Valid() && -t < pool.heap.compMAX && !InHeap(pool.Entries(), elem) && pool.hand != elem
    requires k == HashMap.Lower(elem.name) && Waits(pool, a) && pool.names.Keys == a.jobs.Keys
    requires pool.hand == null || k != HashMap.Lower(pool.hand.name)
    requires a.hand == (if pool.hand == null then None else Some(HashMap.Lower(pool.hand.name)))
    requires Kept(pool.names[k := elem], a.jobs[k := elem.AsJob()]) && Recorded(elems + [elem], a.records + [[]])
    requires Numbered(pool.names[k := elem], elems + [elem], a.number[k := |elems|]) && |elems| == |a.records|
    modifies pool, pool.heap, pool.heap.p
    ensures pool.Valid() && pool.hand == old(pool.hand) && pool.names == old(pool.names)[k := elem]
    ensures Frees(a, k, With(a, k, t, elem.AsJob()), b) && Follows(pool, elems + [elem], b) && Waits(pool, b)
    ensures pool.heap.p == old(pool.heap.p) || fresh(pool.heap.p)
  {
    ghost var free := k !in pool.names;
    QueueNew(pool, elem, t, a.due);
    b := With(a, k, t, elem.AsJob()).(ordered := if free then a.ordered else pool.heap.InOrder());
    ScheduledFollows(pool, free, elem, k, t, elems, a, b);
  }

  lemma ScheduledFollows(pool: Pool, free: bool, elem: Elem, k: bytes, t: int, elems: seq<Elem>, a: Plan, b: Plan)
    requires pool.Valid() && a.hand == (if pool.hand == null then None else Some(HashMap.Lower(pool.hand.name)))
    requires Kept(pool.names, a.jobs[k := elem.AsJob()]) && Recorded(elems + [elem], a.records + [[]])
    requires Numbered(pool.names, elems + [elem], a.number[k := |elems|]) && |elems| == |a.records|
    requires DueAs(pool.Entries(), a.due[k := t]) && (free ==> k !in a.jobs) && (!free ==> k in a.jobs)
    requires free && a.ordered ==> pool.heap.InOrder()
    requires b == With(a, k, t, elem.AsJob()).(ordered := if free then a.ordered else pool.heap.InOrder())
    ensures Frees(a, k, With(a, k, t, elem.AsJob()), b) && Follows(pool, elems + [elem], b) && Waits(pool, b)
  {
  }

  lemma NotYetThere(pool: Pool, elem: Elem, elems: seq<Elem>)
    requires Sound(pool, All(elems)) && elem !in elems
    ensures !InHeap(pool.Entries(), elem) && pool.hand != elem
  {
    HeapAndHandAreMap(pool.Entries(), pool.names, pool.hand);
    HealthyValues(pool.names, pool.heap.compMAX, All(elems));
  }

  /** What scheduling it does to the pool alone. */
  method QueueNew(pool: Pool, elem: Elem, t: int, ghost due: map<bytes, int>)
    requires pool.Valid() && -t < pool.heap.compMAX && !InHeap(pool.Entries(), elem) && pool.hand != elem
    requires pool.hand == null || HashMap.Lower(elem.name) != HashMap.Lower(pool.hand.name)
    requires DueAs(pool.Entries(), due)
    modifies pool, pool.heap, pool.heap.p
    ensures pool.Valid() && pool.hand == old(pool.hand)
    ensures pool.names == old(pool.names)[HashMap.Lower(elem.name) := elem]
    ensures DueAs(pool.Entries(), due[HashMap.Lower(elem.name) := t])
    ensures old(pool.heap.InOrder()) && HashMap.Lower(elem.name) !in old(pool.names) ==> pool.heap.InOrder()
    ensures pool.heap.p == old(pool.heap.p) || fresh(pool.heap.p)
  {
    ghost var before := pool.Entries();
    pool.Rename(elem, t);
    ScheduledDue(before, pool.Entries(), t, elem, due);
  }

  lemma ScheduledDue(before: multiset<Entry>, after: multiset<Entry>, t: int, elem: Elem, due: map<bytes, int>)
    requires DueAs(before, due) && Scheduled(before, after, t, elem)
    ensures DueAs(after, due[HashMap.Lower(elem.name) := t])
  {
    forall x | x in after ensures DueAt(x, due[HashMap.Lower(elem.name) := t]) {
      if x != EntryFor(t, elem) {
        assert DueAt(x, due) && HasOtherName(x, elem.name);
      }
    }
  }

  lemma FreedDue(before: multiset<Entry>, after: multiset<Entry>, name: bytes, due: map<bytes, int>)
    requires DueAs(before, due) && Freed(before, after, name)
    ensures DueAs(after, due - {HashMap.Lower(name)})
  {
    forall x | x in after ensures DueAt(x, due - {HashMap.Lower(name)}) {
      assert DueAt(x, due) && HasOtherName(x, name);
    }
  }

  /** A new element with its times set, and its next slot. */
  method NewElem(name: bytes, first: int, offset: int, last: int, now: int) returns (elem: Elem, t: int)
    ensures fresh(elem) && elem.name == name && elem.fired == []
    ensures elem.first == (if first == 0 then now else first)
    ensures elem.next >= first || elem.next >= now
    ensures t == elem.next || t == 0
    ensures (t, elem.AsJob()) == Due(Started(first, offset, last, now), now)
  {
    elem := new Elem(name);
    elem.SetTimes(first, offset, last, now);
    assert elem.AsJob() == Started(first, offset, last, now);
    t := elem.CalcNext(now);
    if offset > 0 {
      SlotNotBefore(elem.first, offset, Seen(elem.first, now));
    }
  }

  method DeleteName(pool: Pool, name: bytes, ghost elems: seq<Elem>, ghost a: Plan) returns (ghost b: Plan)
    requires Sound(pool, All(elems)) && Follows(pool, elems, a) && Waits(pool, a)
    requires pool.hand == null || HashMap.Lower(name) != HashMap.Lower(pool.hand.name)
    modifies pool, pool.heap, pool.heap.p
    ensures Sound(pool, All(elems)) && pool.hand == old(pool.hand)
    ensures Moves(Delete(name), a, b) && Follows(pool, elems, b) && Waits(pool, b)
    ensures pool.heap.p == old(pool.heap.p)
  {
    ghost var k := HashMap.Lower(name);
    KeptLess(pool.names, a.jobs, k);
    NumberedLess(pool.names, elems, a.number, k);
    HealthyLess(pool.names, pool.heap.compMAX, All(elems), k);
    var found := FreeName(pool, name, a.due);
    b := Without(a, k).(ordered := if found then pool.heap.InOrder() else a.ordered);
    FreedFollows(pool, found, k, elems, a, b);
    FreedMoves(name, a, b);
  }

  lemma FreedMoves(name: bytes, a: Plan, b: Plan)
    requires a.hand != Some(HashMap.Lower(name)) && Frees(a, HashMap.Lower(name), Without(a, HashMap.Lower(name)), b)
    ensures Moves(Delete(name), a, b)
  {
  }

  lemma FreedFollows(pool: Pool, found: bool, k: bytes, elems: seq<Elem>, a: Plan, b: Plan)
    requires pool.Valid() && a.hand == (if pool.hand == null then None else Some(HashMap.Lower(pool.hand.name)))
    requires Kept(pool.names, a.jobs - {k}) && Numbered(pool.names, elems, a.number - {k}) && Recorded(elems, a.records)
    requires DueAs(pool.Entries(), a.due - {k}) && found == (k in a.jobs)
    requires !found && a.ordered ==> pool.heap.InOrder()
    requires b == Without(a, k).(ordered := if found then pool.heap.InOrder() else a.ordered)
    ensures Frees(a, k, Without(a, k), b) && Follows(pool, elems, b) && Waits(pool, b)
  {
  }

  /** What deleting a name does to the pool alone. */
  method FreeName(pool: Pool, name: bytes, ghost due: map<bytes, int>) returns (found: bool)
    requires pool.Valid() && DueAs(pool.Entries(), due)
    requires pool.hand == null || HashMap.Lower(name) != HashMap.Lower(pool.hand.name)
    modifies pool, pool.heap, pool.heap.p
    ensures pool.Valid() && pool.hand == old(pool.hand) && pool.heap.p == old(pool.heap.p)
    ensures pool.names == old(pool.names) - {HashMap.Lower(name)} && found == (HashMap.Lower(name) in old(pool.names))
    ensures DueAs(pool.Entries(), due - {HashMap.Lower(name)})
    ensures old(pool.heap.InOrder()) && !found ==> pool.heap.InOrder()
  {
    ghost var before := pool.Entries();
    pool.OpenHand();
    found := pool.Delete(name);
    FreedDue(before, pool.Entries(), name, due);
  }

  /** `Pause` and `Resume`: set or clear the flags of a name's element. The run that resuming makes
    up for is not modelled. */
  method Flag(pool: Pool, name: bytes, pause: bool, ghost elems: seq<Elem>, ghost a: Plan) returns (ghost b: Plan)
    requires Sound(pool, All(elems)) && Follows(pool, elems, a) && Waits(pool, a)
    modifies All(elems)
    ensures Sound(pool, All(elems))
    ensures b == Flagged(a, HashMap.Lower(name), pause) && Follows(pool, elems, b) && Waits(pool, b)
  {
    var k := HashMap.Lower(name);
    b := Flagged(a, k, pause);
    if k in pool.names {
      var elem := pool.names[k];
      pool.OpenHand();
      HealthyValues(pool.names, pool.heap.compMAX, All(elems));
      SetFlag(pool.names, pool.heap.compMAX, k, elem, pause, elems, a);
    }
  }

  method SetFlag(ghost names: Names, ghost compMAX: int, ghost k: bytes, elem: Elem, pause: bool,
                 ghost elems: seq<Elem>, ghost a: Plan)
    requires Kept(names, a.jobs) && Healthy(names, compMAX, All(elems)) && k in names && names[k] == elem
    requires Recorded(elems, a.records) && Numbered(names, elems, a.number)
    requires forall l :: l in names && l != k ==> names[l] != elem
    modifies elem
    ensures k in a.jobs && Healthy(names, compMAX, All(elems)) && Recorded(elems, a.records)
    ensures Kept(names, Flagged(a, k, pause).jobs)
  {
    ghost var born, n := All(elems), a.number[k];
    assert NumberedAt(names, elems, a.number, k);
    RecordedApart(elems, a.records, n);
    KeptLess(names, a.jobs, k);
    HealthyLess(names, compMAX, born, k);
    assert KeptAt(names, a.jobs, k);
    elem.SetPause(pause);
    RecordedPut(elems, a.records, n);
    assert a.records[n := elem.fired] == a.records;
    KeptPut(names, a.jobs, k, elem);
    HealthyMore(names - {k}, compMAX, born - {elem}, k, elem);
    assert names[k := elem] == names && (names - {k})[k := elem] == names && born - {elem} + {elem} == born;
  }

  method TakeMove(pool: Pool, ghost elems: seq<Elem>, ghost a: Plan) returns (e: Elem?, ghost b: Plan)
    requires Sound(pool, All(elems)) && pool.hand == null && Follows(pool, elems, a) && Waits(pool, a)
    requires a.jobs.Keys == a.due.Keys
    modifies pool`hand, pool.heap, pool.heap.p
    ensures Sound(pool, All(elems)) && pool.hand == e
    ensures Moves(Take, a, b) && Follows(pool, elems, b) && Waits(pool, b)
    ensures pool.heap.p == old(pool.heap.p)
  {
    e, b := TakeTop(pool, a);
  }

  method TakeTop(pool: Pool, ghost a: Plan) returns (e: Elem?, ghost b: Plan)
    requires pool.Valid() && pool.hand == null && Waits(pool, a)
    requires a.hand == None && pool.names.Keys == a.jobs.Keys == a.due.Keys
    modifies pool`hand, pool.heap, pool.heap.p
    ensures pool.Valid() && pool.hand == e && pool.names == old(pool.names)
    ensures b == a.(hand := if e == null then None else Some(HashMap.Lower(e.name)))
    ensures Moves(Take, a, b) && Waits(pool, b)
    ensures pool.heap.p == old(pool.heap.p)
  {
    HeapNotEmpty(pool);
    e := TakeNext(pool, a);
    pool.OpenHand();
    b := a.(hand := if e == null then None else Some(HashMap.Lower(e.name)));
  }

  /** What taking the next element does to the pool alone. */
  method TakeNext(pool: Pool, ghost a: Plan) returns (e: Elem?)
    requires pool.Valid() && pool.hand == null && Waits(pool, a) && pool.names.Keys == a.due.Keys
    modifies pool`hand, pool.heap, pool.heap.p
    ensures pool.Valid() && pool.hand == e && pool.names == old(pool.names) && Waits(pool, a)
    ensures e == null <==> old(pool.Entries()) == multiset{}
    ensures e != null ==> e in pool.names.Values && (a.ordered ==> IsNext(a, HashMap.Lower(e.name)))
    ensures pool.heap.p == old(pool.heap.p)
  {
    ghost var before := pool.Entries();
    ghost var x;
    e, x := pool.RemoveHeap();
    if e != null {
      TakenDue(before, pool.Entries(), pool.names, x, a);
    }
  }

  /** The first entry is of the name that is due next. */
  lemma TakenDue(before: multiset<Entry>, after: multiset<Entry>, names: Names, x: Entry, a: Plan)
    requires Agree(before, names, null) && after + multiset{x} == before && x.s != null
    requires DueAs(before, a.due) && names.Keys == a.due.Keys
    ensures DueAs(after, a.due) && (IsFirst(before, x) ==> IsNext(a, HashMap.Lower(x.s.name)))
  {
    Open(before, names, null);
    LessOne(before, after, x);
    assert DueAt(x, a.due);
    forall l | l in a.due && IsFirst(before, x) ensures a.due[HashMap.Lower(x.s.name)] <= a.due[l] {
      var y :| y in before && y.s == names[l];
      assert DueAt(y, a.due);
    }
  }

  /** With nothing in hand, something is in the heap when there are names. */
  lemma HeapNotEmpty(pool: Pool)
    requires pool.Valid() && pool.hand == null
    ensures pool.names != map[] ==> pool.Entries() != multiset{}
  {
    HeapAndHandAreMap(pool.Entries(), pool.names, pool.hand);
    if pool.names != map[] {
      var k :| k in pool.names;
      assert pool.names[k] in pool.names.Values;
    }
  }

  method SettleHand(pool: Pool, e: Elem, now: int, cur: int, ghost elems: seq<Elem>, ghost a: Plan)
    returns (ghost b: Plan)
    requires Sound(pool, All(elems)) && pool.hand == e && Follows(pool, elems, a) && Waits(pool, a)
    modifies pool, pool.heap, pool.heap.p, e
    ensures Sound(pool, All(elems)) && pool.hand == null
    ensures Moves(Settle(now, cur), a, b) && Follows(pool, elems, b) && Waits(pool, b)
    ensures pool.heap.p == old(pool.heap.p) || fresh(pool.heap.p)
  {
    pool.OpenHand();
    ghost var k := HashMap.Lower(e.name);
    SettleFrom(pool, e, k, elems, a);
    SettleApart(pool, e, now, cur, k, elems, a);
    b := PutBack(a, k, now, cur);
    SettleMoves(a, k, now, cur);
  }

  lemma SettleMoves(a: Plan, k: bytes, now: int, cur: int)
    requires a.hand == Some(k) && k in a.jobs && k in a.number && a.number[k] < |a.records|
    ensures Moves(Settle(now, cur), a, PutBack(a, k, now, cur))
  {
  }

  /** The same, with what is known of the others apart. */
  method SettleApart(pool: Pool, e: Elem, now: int, cur: int, ghost k: bytes, ghost elems: seq<Elem>, ghost a: Plan)
    requires pool.Valid() && pool.hand == e && e.Waiting() && 0 < pool.heap.compMAX && pool.Fits(e) && Waits(pool, a)
    requires k == HashMap.Lower(e.name) && k in pool.names && pool.names[k] == e
    requires k in a.jobs && k in a.number && a.number[k] < |elems| && a.jobs[k] == e.AsJob()
    requires elems[a.number[k]] == e && RecordedBut(elems, a.records, a.number[k])
    requires Numbered(pool.names, elems, a.number) && Kept(pool.names - {k}, a.jobs - {k})
    requires Healthy(pool.names - {k}, pool.heap.compMAX, All(elems) - {e})
    modifies pool, pool.heap, pool.heap.p, e
    ensures pool.Valid() && pool.hand == null && Healthy(pool.names, pool.heap.compMAX, All(elems))
    ensures var b := PutBack(a, k, now, cur);
      && Waits(pool, b)
      && Kept(pool.names, b.jobs) && Recorded(elems, b.records) && Numbered(pool.names, elems, b.number)
    ensures pool.heap.p == old(pool.heap.p) || fresh(pool.heap.p)
  {
    ghost var names := pool.names;
    pool.OpenHand();
    SettleAlone(pool, e, now, cur, a.due);
    PutBackDue(a, k, now, cur);
    SettleTo(names, pool.names, pool.heap.compMAX, e, k, now, cur, elems, a);
  }

  /** What settling does to the pool alone. */
  method SettleAlone(pool: Pool, e: Elem, now: int, cur: int, ghost due: map<bytes, int>)
    requires pool.Valid() && pool.hand == e && e.Waiting() && DueAs(pool.Entries(), due)
    requires 0 < pool.heap.compMAX && pool.Fits(e)
    modifies pool, pool.heap, pool.heap.p, e
    ensures pool.Valid() && pool.hand == null && (pool.heap.p == old(pool.heap.p) || fresh(pool.heap.p))
    ensures SettledTo(old(pool.names), pool.names, pool.heap.compMAX, e, HashMap.Lower(e.name), old(e.AsJob()),
                      now, cur)
    ensures DueAs(pool.Entries(), DueAfter(due, HashMap.Lower(e.name), PutBackFor(old(e.AsJob()), now, cur)))
    ensures old(pool.heap.InOrder()) ==> pool.heap.InOrder()
  {
    ghost var before, j := pool.Entries(), e.AsJob();
    ghost var names := pool.names;
    pool.OpenHand();
    HandNotQueued(pool.heap.Items(), pool.names, e);
    pool.Settle(e, now, cur);
    SettledIs(pool, names, e, j, now, cur);
    SettledDue(before, pool.Entries(), e, PutBackFor(j, now, cur), due);
  }

  lemma SettledIs(pool: Pool, before: Names, e: Elem, j: Job, now: int, cur: int)
    requires Named(before, e) && pool.Goes(before, e, pool.names, j, now, cur) && e.InOrder() && pool.Fits(e)
    requires HashMap.Lower(e.name) in pool.names ==> e.Waiting()
    requires e.fired == j.fired + if now >= j.next >= 0 && !j.pause then [Firing(j.next, now)] else []
    ensures SettledTo(before, pool.names, pool.heap.compMAX, e, HashMap.Lower(e.name), j, now, cur)
  {
  }

  lemma PutBackDue(a: Plan, k: bytes, now: int, cur: int)
    requires k in a.jobs && k in a.number && a.number[k] < |a.records|
    ensures var b := PutBack(a, k, now, cur);
      b.ordered == a.ordered && b.due == DueAfter(a.due, k, PutBackFor(a.jobs[k], now, cur))
  {
  }

  /** The element has run as it should, and keeps its name or not. */
  ghost predicate SettledTo(before: Names, after: Names, compMAX: int, e: Elem, k: bytes, j: Job, now: int, cur: int)
    reads e
  {
    && e.InOrder() && e.fired == Record(j, now)
    && match Settled(j, now, cur)
       case Some(j') => after == before && e.AsJob() == j' && e.Waiting() && FitsIn(e, compMAX)
       case None => after == before - {k}
  }

  function DueAfter(due: map<bytes, int>, k: bytes, t: Option<int>): map<bytes, int> {
    if t.Some? then due[k := t.value] else due - {k}
  }

  lemma SettledDue(before: multiset<Entry>, after: multiset<Entry>, e: Elem, t: Option<int>, due: map<bytes, int>)
    requires DueAs(before, due) && Queued(before, after, e, t)
    requires forall x :: x in before ==> HasOtherName(x, e.name)
    ensures DueAs(after, DueAfter(due, HashMap.Lower(e.name), t))
  {
    var due' := DueAfter(due, HashMap.Lower(e.name), t);
    forall x | x in after ensures DueAt(x, due') {
      if x in before {
        assert DueAt(x, due) && HasOtherName(x, e.name);
      }
    }
  }

  /** With the one in hand settled, the same can be said of all again. */
  lemma SettleTo(before: Names, after: Names, compMAX: int, e: Elem, k: bytes, now: int, cur: int,
                 elems: seq<Elem>, a: Plan)
    requires k in before && before[k] == e && k in a.jobs && k in a.number && a.number[k] < |elems|
    requires elems[a.number[k]] == e && RecordedBut(elems, a.records, a.number[k])
    requires Numbered(before, elems, a.number) && Kept(before - {k}, a.jobs - {k})
    requires Healthy(before - {k}, compMAX, All(elems) - {e})
    requires SettledTo(before, after, compMAX, e, k, a.jobs[k], now, cur)
    ensures var b := PutBack(a, k, now, cur);
      && Kept(after, b.jobs) && Recorded(elems, b.records) && Numbered(after, elems, b.number)
      && Healthy(after, compMAX, All(elems))
  {
    RecordedPut(elems, a.records, a.number[k]);
    HealthyMore(before - {k}, compMAX, All(elems) - {e}, k, e);
    NamedAnew(before, k, e);
    assert All(elems) - {e} + {e} == All(elems) && before[k := e] == before;
    KeptPut(before, a.jobs, k, e);
    NumberedLess(before, elems, a.number, k);
  }

  /** What can be said of all elements but the one in hand. */
  lemma SettleFrom(pool: Pool, e: Elem, k: bytes, elems: seq<Elem>, a: Plan)
    requires Sound(pool, All(elems)) && pool.hand == e && Follows(pool, elems, a) && k == HashMap.Lower(e.name)
    requires Named(pool.names, e) && forall l :: l in pool.names ==> HashMap.Lower(pool.names[l].name) == l
    ensures k in a.jobs && k in a.number && a.jobs[k] == e.AsJob() && e.Waiting() && pool.Fits(e)
    ensures var n := a.number[k];
      n < |elems| && elems[n] == e && RecordedBut(elems, a.records, n) && a.records[n] == e.fired
    ensures Kept(pool.names - {k}, a.jobs - {k})
    ensures Healthy(pool.names - {k}, pool.heap.compMAX, All(elems) - {e})
  {
    assert KeptAt(pool.names, a.jobs, k) && NumberedAt(pool.names, elems, a.number, k);
    RecordedApart(elems, a.records, a.number[k]);
    KeptLess(pool.names, a.jobs, k);
    HealthyLess(pool.names, pool.heap.compMAX, All(elems), k);
  }

  lemma SlotNotBefore(first: int, offset: int, cur: int)
    requires offset > 0
    ensures Slot(first, offset, cur) >= first
  {
    var k := SlotIsLeast(first, offset, cur);
    MulNonNegative(k, offset);
  }

  /** What is in the heap, with the element in hand, is what the map has. */
  lemma HeapAndHandAreMap(entries: multiset<Entry>, names: Names, hand: Elem?)
    requires Agree(entries, names, hand)
    ensures forall e: Elem :: e in names.Values <==> InHeap(entries, e) || e == hand
  {
    Open(entries, names, hand);
    forall e: Elem ensures e in names.Values <==> InHeap(entries, e) || e == hand {
      if e in names.Values {
        var k :| k in names && names[k] == e;
      }
      if InHeap(entries, e) {
        var x :| x in entries && x.s == e;
        assert Named(names, x.s);
      }
    }
  }

  lemma Open(entries: multiset<Entry>, names: Names, hand: Elem?)
    requires Agree(entries, names, hand)
    ensures Agreeing(entries, names, hand)
  {
    assert Wanted(OfHeap, 0);
  }

  lemma TakenAgrees(before: multiset<Entry>, after: multiset<Entry>, names: Names, x: Entry)
    requires Agree(before, names, null) && after + multiset{x} == before
    ensures x.s != null && Agree(after, names, x.s) && x.s in names.Values
  {
    Open(before, names, null);
    assert x in before;
    LessOne(before, after, x);
    forall k | k in names ensures HashMap.Lower(names[k].name) == k && (names[k] == x.s || InHeap(after, names[k])) {
      var y :| y in before && y.s == names[k];
      assert y == x || y in after;
    }
  }

  /** An element is at no other place of the heap. */
  lemma OnePlace(items: seq<Entry>, i: nat, e: Elem)
    requires i < |items| && items[i].s == e && Single(multiset(items))
    ensures LeavesOrder(items, e) <==> StaysOrdered(items, i)
  {
    forall j | 0 <= j < |items| && items[j].s == e ensures j == i {
      assert items[i] in multiset(items) && items[j] in multiset(items);
      if j != i {
        TwicePlaced(items, if i < j then i else j, if i < j then j else i);
      }
    }
  }

  lemma TwicePlaced<T>(s: seq<T>, i: nat, j: nat)
    requires i < j < |s| && s[i] == s[j]
    ensures multiset(s)[s[i]] >= 2
  {
    assert s == s[..j] + s[j..];
    assert s[i] in s[..j] && s[j] in s[j..];
  }

  lemma NoPlace(items: seq<Entry>, e: Elem)
    requires !InHeap(multiset(items), e)
    ensures LeavesOrder(items, e)
  {
    forall j | 0 <= j < |items| ensures items[j].s != e {
      assert items[j] in multiset(items);
    }
  }

  /** The first of elements that are in the heap for their next slots has the least of these. */
  lemma TakenTimely(before: multiset<Entry>, after: multiset<Entry>, names: Names, x: Entry)
    requires Agree(before, names, null) && after + multiset{x} == before && Timely(before, names, null) && x.s != null
    ensures Timely(after, names, x.s) && x.s.next >= 0
    ensures IsFirst(before, x) ==> forall f :: f in names.Values ==> x.s.next <= f.next
  {
    Open(before, names, null);
    LessOne(before, after, x);
    assert x in before && Named(names, x.s);
    assert EntryFor(x.s.next, x.s) in before;
    assert x == EntryFor(x.s.next, x.s);
    forall f | f in names.Values ensures f.next >= 0 && EntryFor(f.next, f) in before {
      var k :| k in names && names[k] == f;
    }
  }

  /** Taking one of several single entries away. */
  lemma LessOne(before: multiset<Entry>, after: multiset<Entry>, x: Entry)
    requires Single(before) && after + multiset{x} == before
    ensures Single(after) && !InHeap(after, x.s)
    ensures forall y :: y in after <==> y in before && y != x
  {
    assert before[x] == after[x] + 1;
    forall y ensures y in after <==> y in before && y != x {
      if y != x {
        assert before[y] == after[y];
      }
    }
    forall y | y in after ensures after[y] == 1 {
      assert before[y] == after[y];
    }
  }

  lemma MoreOne(before: multiset<Entry>, after: multiset<Entry>, x: Entry)
    requires Single(before) && after == before + multiset{x} && !InHeap(before, x.s)
    ensures Single(after)
    ensures forall y :: y in after <==> y in before || y == x
  {
    assert x !in before;
    forall y | y in after ensures after[y] == 1 {
      if y != x {
        assert after[y] == before[y];
      }
    }
  }

  lemma NamedAnew(names: Names, k: bytes, e: Elem)
    ensures (names - {k})[k := e] == names[k := e]
  {
  }

  lemma StillNotInHeap(before: multiset<Entry>, after: multiset<Entry>, e: Elem)
    requires after <= before && !InHeap(before, e)
    ensures !InHeap(after, e)
  {
    assert forall x :: x in after ==> x in before;
  }

  lemma PutOther(before: multiset<Entry>, after: multiset<Entry>, names: Names, hand: Elem?, x: Entry, k: bytes)
    requires Agreeing(before, names, hand) && after == before + multiset{x} && k in names
    ensures HashMap.Lower(names[k].name) == k && (names[k] == hand || InHeap(after, names[k]))
  {
    if names[k] != hand {
      var y :| y in before && y.s == names[k];
      assert y in after;
    }
  }

  lemma PutAgrees(before: multiset<Entry>, after: multiset<Entry>, names: Names, hand: Elem?, x: Entry)
    requires Agree(before, names, hand) && after == before + multiset{x} && x.s != null
    requires !InHeap(before, x.s) && (hand == x.s || HashMap.Lower(x.s.name) !in names)
    ensures Agree(after, names[HashMap.Lower(x.s.name) := x.s], if hand == x.s then null else hand)
  {
    Open(before, names, hand);
    MoreOne(before, after, x);
    var k0 := HashMap.Lower(x.s.name);
    var names' := names[k0 := x.s];
    var hand' := if hand == x.s then null else hand;
    forall k | k in names'
      ensures HashMap.Lower(names'[k].name) == k && (names'[k] == hand' || InHeap(after, names'[k]))
    {
      if k == k0 {
        assert x in after;
      } else {
        PutOther(before, after, names, hand, x, k);
      }
    }
    forall y | y in after ensures y.s != null && Named(names', y.s) {
      if y != x {
        assert y in before && Named(names, y.s) && y.s != x.s;
      }
    }
    if hand' != null {
      assert Named(names, hand') && !InHeap(before, hand');
    }
  }

  lemma DroppedAgrees(before: multiset<Entry>, after: multiset<Entry>, names: Names, hand: Elem?, k: bytes,
                      removed: bool)
    requires Agree(before, names, hand) && k in names
    requires removed == InHeap(before, names[k])
    requires !removed ==> after == before
    requires removed ==> exists x :: x in before && x.s == names[k] && after + multiset{x} == before
    ensures Agree(after, names - {k}, if names[k] == hand then null else hand)
  {
    Open(before, names, hand);
    if removed {
      var x :| x in before && x.s == names[k] && after + multiset{x} == before;
      LessOne(before, after, x);
    }
    DropOne(before, after, names, hand, k);
  }

  lemma DroppedFreed(before: multiset<Entry>, after: multiset<Entry>, names: Names, hand: Elem?, name: bytes,
                     removed: bool)
    requires Agree(before, names, hand) && HashMap.Lower(name) in names
    requires removed == InHeap(before, names[HashMap.Lower(name)])
    requires !removed ==> after == before
    requires removed ==> exists x :: x in before && x.s == names[HashMap.Lower(name)] && after + multiset{x} == before
    ensures Freed(before, after, name)
  {
    Open(before, names, hand);
    var e := names[HashMap.Lower(name)];
    forall x | x in before ensures HasOtherName(x, name) <==> x.s != e {
      assert Named(names, x.s);
    }
    if removed {
      var x :| x in before && x.s == e && after + multiset{x} == before;
      LessOne(before, after, x);
    }
  }

  lemma NothingFreed(entries: multiset<Entry>, names: Names, hand: Elem?, name: bytes)
    requires Agree(entries, names, hand) && HashMap.Lower(name) !in names
    ensures Freed(entries, entries, name)
  {
    Open(entries, names, hand);
    forall x | x in entries ensures HasOtherName(x, name) {
      assert Named(names, x.s);
    }
  }

  lemma FreedScheduled(before: multiset<Entry>, between: multiset<Entry>, after: multiset<Entry>, t: int, elem: Elem)
    requires Freed(before, between, elem.name) && after == between + multiset{EntryFor(t, elem)}
    ensures Scheduled(before, after, t, elem)
  {
  }

  /** Nothing is in the heap under the name of the element in hand. */
  lemma HandNotQueued(items: seq<Entry>, names: Names, e: Elem)
    requires Agree(multiset(items), names, e)
    ensures forall x :: x in multiset(items) ==> HasOtherName(x, e.name)
    ensures LeavesOrder(items, e)
  {
    Open(multiset(items), names, e);
    forall x | x in multiset(items) ensures HasOtherName(x, e.name) {
      assert Named(names, x.s);
    }
    NoPlace(items, e);
  }

  lemma DropOther(before: multiset<Entry>, after: multiset<Entry>, names: Names, hand: Elem?, k: bytes, l: bytes)
    requires Agreeing(before, names, hand) && k in names && l in names && l != k
    requires forall y :: y in after <==> y in before && y.s != names[k]
    ensures HashMap.Lower(names[l].name) == l && (names[l] == hand || InHeap(after, names[l]))
  {
    if names[l] != hand {
      var y :| y in before && y.s == names[l];
      assert HashMap.Lower(names[l].name) == l && HashMap.Lower(names[k].name) == k;
      assert y in after;
    }
  }

  lemma DropOne(before: multiset<Entry>, after: multiset<Entry>, names: Names, hand: Elem?, k: bytes)
    requires Agreeing(before, names, hand) && k in names && Single(after)
    requires forall y :: y in after <==> y in before && y.s != names[k]
    ensures Agree(after, names - {k}, if names[k] == hand then null else hand)
  {
    var names' := names - {k};
    forall l | l in names'
      ensures HashMap.Lower(names'[l].name) == l && (names'[l] == hand || InHeap(after, names'[l]))
    {
      DropOther(before, after, names, hand, k, l);
    }
    forall y | y in after ensures y.s != null && Named(names', y.s) {
      assert y in before && Named(names, y.s);
    }
    if hand != null && hand != names[k] {
      DropKeepsHand(before, after, names, hand, k);
    }
  }

  lemma DropKeepsHand(before: multiset<Entry>, after: multiset<Entry>, names: Names, hand: Elem, k: bytes)
    requires Agreeing(before, names, hand) && k in names && names[k] != hand
    requires forall y :: y in after ==> y in before
    ensures Named(names - {k}, hand) && !InHeap(after, hand)
  {
    assert Named(names, hand) && !InHeap(before, hand);
  }
}
