/** The priority queue: a heap in an array whose place 0 holds a sentinel above every key. */
module PriQ {

  datatype Item<S> = Item(c: int, s: S)

  /** No key is above that of its parent, as far as place `n`, but perhaps at place `k`. */
  ghost predicate OrderedBut<S>(s: seq<Item<S>>, n: nat, k: nat)
    requires n < |s|
  {
    forall j :: 2 <= j <= n && j != k ==> s[j].c <= s[j / 2].c
  }

  ghost predicate Ordered<S>(s: seq<Item<S>>, n: nat)
    requires n < |s|
  {
    OrderedBut(s, n, 0)
  }

  /** The items of a heap of `n`. */
  function Content<S>(s: seq<Item<S>>, n: nat): seq<Item<S>>
    requires n < |s|
  {
    s[1..n + 1]
  }

  // ---------------------------------------------------------------- sifting up

  /** Moving parents down from the hole at `k` until `v` fits there. */
  function Up<S>(s: seq<Item<S>>, k: nat, v: Item<S>): (r: seq<Item<S>>)
    requires 0 < k < |s|
    ensures |r| == |s|
    decreases k
  {
    if k >= 2 && s[k / 2].c <= v.c then Up(s[k := s[k / 2]], k / 2, v) else s[k := v]
  }

  lemma {:induction false} UpOrders<S>(s: seq<Item<S>>, n: nat, k: nat, v: Item<S>)
    requires 0 < k <= n < |s|
    requires forall j :: 2 <= j <= n && j != k && j / 2 != k ==> s[j].c <= s[j / 2].c
    requires forall j :: 2 <= j <= n && j / 2 == k ==> s[j].c <= v.c && (k >= 2 ==> s[j].c <= s[k / 2].c)
    ensures Ordered(Up(s, k, v), n)
    decreases k
  {
    if k >= 2 && s[k / 2].c <= v.c {
      var s' := s[k := s[k / 2]];
      forall j | 2 <= j <= n && j / 2 == k / 2 ensures s'[j].c <= v.c && (k / 2 >= 2 ==> s'[j].c <= s'[k / 2 / 2].c) {
      }
      UpOrders(s', n, k / 2, v);
    }
  }

  lemma {:induction false} UpKeeps<S>(s: seq<Item<S>>, n: nat, k: nat, v: Item<S>)
    requires 0 < k <= n < |s|
    ensures multiset(Content(Up(s, k, v), n)) == multiset(Content(s[k := v], n))
    ensures Up(s, k, v)[n + 1..] == s[n + 1..] && Up(s, k, v)[0] == s[0]
    decreases k
  {
    if k >= 2 && s[k / 2].c <= v.c {
      var s' := s[k := s[k / 2]];
      UpKeeps(s', n, k / 2, v);
      HoleMoves(s, n, k, k / 2, v);
    }
  }

  /** Exchanging two items keeps the content. */
  lemma Swapped<S>(s: seq<Item<S>>, n: nat, i: nat, j: nat)
    requires 0 < i <= n < |s| && 0 < j <= n && i != j
    ensures multiset(Content(s[i := s[j]][j := s[i]], n)) == multiset(Content(s, n))
  {
    var a, b := Content(s, n), Content(s[i := s[j]][j := s[i]], n);
    assert b == a[i - 1 := a[j - 1]][j - 1 := a[i - 1]];
  }

  /** Moving the hole for `v` from `k` to `j` keeps the content. */
  lemma HoleMoves<S>(s: seq<Item<S>>, n: nat, k: nat, j: nat, v: Item<S>)
    requires 0 < k <= n < |s| && 0 < j <= n && k != j
    ensures multiset(Content(s[k := s[j]][j := v], n)) == multiset(Content(s[k := v], n))
  {
    var t := s[k := v];
    Swapped(t, n, k, j);
    assert s[k := s[j]][j := v] == t[k := t[j]][j := t[k]];
  }

  // ---------------------------------------------------------------- sifting down

  /** The child of `k` with the higher key. */
  function Child<S>(s: seq<Item<S>>, n: nat, k: nat): (j: nat)
    requires 0 < k <= n / 2 && n < |s|
    ensures j / 2 == k && k < j <= n
  {
    if 2 * k < n && s[2 * k].c < s[2 * k + 1].c then 2 * k + 1 else 2 * k
  }

  /** Moving children up into the hole at `k` until `v` fits there. */
  function Down<S>(s: seq<Item<S>>, n: nat, k: nat, v: Item<S>): (r: seq<Item<S>>)
    requires 0 < k < |s| && n < |s|
    ensures |r| == |s|
    decreases |s| - k
  {
    if k <= n / 2 && v.c < s[Child(s, n, k)].c then Down(s[k := s[Child(s, n, k)]], n, Child(s, n, k), v)
    else s[k := v]
  }

  /** All is in order below, and at `k` itself exactly when `v` is not above the parent there. */
  lemma {:induction false} DownOrders<S>(s: seq<Item<S>>, n: nat, k: nat, v: Item<S>)
    requires 0 < k <= n < |s|
    requires forall j :: 2 <= j <= n && j != k && j / 2 != k ==> s[j].c <= s[j / 2].c
    requires forall j :: 2 <= j <= n && j / 2 == k && k >= 2 ==> s[j].c <= s[k / 2].c
    ensures var r := Down(s, n, k, v);
      && OrderedBut(r, n, k) && (forall j :: 0 <= j < k ==> r[j] == s[j])
      && (k >= 2 ==> (r[k].c <= r[k / 2].c <==> v.c <= s[k / 2].c))
    decreases |s| - k
  {
    if k <= n / 2 && v.c < s[Child(s, n, k)].c {
      var j0 := Child(s, n, k);
      var s' := s[k := s[j0]];
      DownPrepares(s, n, k);
      DownOrders(s', n, j0, v);
      DownEnds(s, n, k, v, Down(s', n, j0, v));
    }
  }

  /** What sifting on from the higher child means for the place before. */
  lemma DownEnds<S>(s: seq<Item<S>>, n: nat, k: nat, v: Item<S>, r: seq<Item<S>>)
    requires 0 < k <= n / 2 && n < |s| == |r| && v.c < s[Child(s, n, k)].c
    requires forall j :: 2 <= j <= n && j / 2 == k && k >= 2 ==> s[j].c <= s[k / 2].c
    requires var j0 := Child(s, n, k);
      && OrderedBut(r, n, j0) && (forall j :: 0 <= j < j0 ==> r[j] == s[k := s[j0]][j])
      && r[j0].c <= r[j0 / 2].c
    ensures OrderedBut(r, n, k) && (forall j :: 0 <= j < k ==> r[j] == s[j])
    ensures k >= 2 ==> (r[k].c <= r[k / 2].c <==> v.c <= s[k / 2].c)
  {
    var j0 := Child(s, n, k);
    assert r[k] == s[j0];
    assert k >= 2 ==> r[k / 2] == s[k / 2] && s[j0].c <= s[k / 2].c;
  }

  /** Moving the higher child up leaves everything in order but around its old place. */
  lemma DownPrepares<S>(s: seq<Item<S>>, n: nat, k: nat)
    requires 0 < k <= n / 2 && n < |s|
    requires forall j :: 2 <= j <= n && j != k && j / 2 != k ==> s[j].c <= s[j / 2].c
    requires forall j :: 2 <= j <= n && j / 2 == k && k >= 2 ==> s[j].c <= s[k / 2].c
    ensures var j0 := Child(s, n, k);
      var s' := s[k := s[j0]];
      && (forall j :: 2 <= j <= n && j != j0 && j / 2 != j0 ==> s'[j].c <= s'[j / 2].c)
      && (forall j :: 2 <= j <= n && j / 2 == j0 && j0 >= 2 ==> s'[j].c <= s'[j0 / 2].c)
  {
    var j0 := Child(s, n, k);
    var s' := s[k := s[j0]];
    forall j | 2 <= j <= n && j != j0 && j / 2 != j0 ensures s'[j].c <= s'[j / 2].c {
      if j == k {
        assert s[j0].c <= s[k / 2].c;
      } else if j / 2 == k {
        assert j == 2 * k || j == 2 * k + 1;
      }
    }
  }

  lemma {:induction false} DownKeeps<S>(s: seq<Item<S>>, n: nat, k: nat, v: Item<S>)
    requires 0 < k <= n < |s|
    ensures multiset(Content(Down(s, n, k, v), n)) == multiset(Content(s[k := v], n))
    ensures Down(s, n, k, v)[n + 1..] == s[n + 1..]
    decreases |s| - k
  {
    if k <= n / 2 && v.c < s[Child(s, n, k)].c {
      var j0 := Child(s, n, k);
      var s' := s[k := s[j0]];
      DownKeeps(s', n, j0, v);
      HoleMoves(s, n, k, j0, v);
    }
  }

  // ---------------------------------------------------------------- taking one item out

  /** `after` has the items of `before` but for the one at `i`. */
  ghost predicate Drops<S>(before: seq<Item<S>>, after: seq<Item<S>>, i: int) {
    0 <= i < |before| && multiset(after) + multiset{before[i]} == multiset(before)
  }

  /** `remove(i)` on the array: the last item goes to `i` and sinks. */
  function Removed<S>(s: seq<Item<S>>, n: nat, i: nat): (r: seq<Item<S>>)
    requires 0 < i <= n < |s|
    ensures |r| == |s|
  {
    Down(s[i := s[n]], n - 1, i, s[n])
  }

  /** It drops exactly the item at `i`. */
  lemma RemovedDrops<S>(s: seq<Item<S>>, n: nat, i: nat)
    requires 0 < i <= n < |s|
    ensures multiset(Content(Removed(s, n, i), n - 1)) + multiset{s[i]} == multiset(Content(s, n))
  {
    if i < n {
      RemovedInner(s, n, i);
    } else {
      RemovedLast(s, n);
      assert Content(s, n) == Content(Removed(s, n, i), n - 1) + [s[n]];
    }
  }

  lemma RemovedInner<S>(s: seq<Item<S>>, n: nat, i: nat)
    requires 0 < i < n < |s|
    ensures multiset(Content(Removed(s, n, i), n - 1)) + multiset{s[i]} == multiset(Content(s, n))
  {
    var b := Content(s, n)[..n - 1];
    LastMoved(s, n, i);
    DownKeeps(s[i := s[n]], n - 1, i, s[n]);
    Replaced(b, i - 1, s[n]);
  }

  /** The last item over the one at `i`. */
  lemma LastMoved<S>(s: seq<Item<S>>, n: nat, i: nat)
    requires 0 < i < n < |s|
    ensures var b, t := Content(s, n)[..n - 1], s[i := s[n]];
      Content(s, n) == b + [s[n]] && b[i - 1] == s[i] && t[i := s[n]] == t && Content(t, n - 1) == b[i - 1 := s[n]]
  {
  }

  lemma Replaced<T>(b: seq<T>, i: nat, v: T)
    requires i < |b|
    ensures multiset(b[i := v]) + multiset{b[i]} == multiset(b + [v])
  {
  }

  lemma RemovedLast<S>(s: seq<Item<S>>, n: nat)
    requires 0 < n < |s|
    ensures Removed(s, n, n) == s
  {
    assert s[n := s[n]] == s && !(n <= (n - 1) / 2);
  }

  lemma RemovedBelow<S>(s: seq<Item<S>>, n: nat, i: nat)
    requires 0 < i < n < |s| && Ordered(s, n)
    ensures Ordered(Removed(s, n, i), n - 1) <==> i == 1 || s[n].c <= s[i / 2].c
  {
    RemovedPrepares(s, n, i);
    DownOrders(s[i := s[n]], n - 1, i, s[n]);
    OrderedFrom(Removed(s, n, i), n - 1, i);
  }

  /** With the last item at `i`, all is in order but around that place. */
  lemma RemovedPrepares<S>(s: seq<Item<S>>, n: nat, i: nat)
    requires 0 < i < n < |s| && Ordered(s, n)
    ensures var t := s[i := s[n]];
      && (forall j :: 2 <= j < n && j != i && j / 2 != i ==> t[j].c <= t[j / 2].c)
      && (forall j :: 2 <= j < n && j / 2 == i && i >= 2 ==> t[j].c <= t[i / 2].c)
      && (i >= 2 ==> t[i / 2] == s[i / 2])
  {
    var t := s[i := s[n]];
    forall j | 2 <= j < n && j / 2 == i && i >= 2 ensures t[j].c <= t[i / 2].c {
      assert s[j].c <= s[i].c <= s[i / 2].c;
    }
  }

  lemma OrderedFrom<S>(r: seq<Item<S>>, n: nat, k: nat)
    requires 0 < k <= n < |r| && OrderedBut(r, n, k)
    ensures Ordered(r, n) <==> k == 1 || r[k].c <= r[k / 2].c
  {
  }

  /** It keeps heap order if and only if the item was the top or the last key does not exceed
    that of the parent. */
  lemma RemovedOrdered<S>(s: seq<Item<S>>, n: nat, i: nat)
    requires 0 < i <= n < |s| && Ordered(s, n)
    ensures Ordered(Removed(s, n, i), n - 1) <==> i == 1 || s[n].c <= s[i / 2].c
  {
    if i < n {
      RemovedBelow(s, n, i);
    } else {
      RemovedLast(s, n);
    }
  }

  /** In heap order the first item has the highest key. */
  lemma {:induction false} TopIsHighest<S>(s: seq<Item<S>>, n: nat, k: nat)
    requires 0 < k <= n < |s| && Ordered(s, n)
    ensures s[k].c <= s[1].c
  {
    if k > 1 {
      TopIsHighest(s, n, k / 2);
    }
  }

  // ---------------------------------------------------------------- the class

  class PriQ<S(0)> {
    const compMAX: int
    var p: array?<Item<S>>
    var N: nat
    var Max: nat

    const MIN_GROW := 4

    ghost predicate Valid()
      reads this, p
    {
      N <= Max && (if p == null then Max == 0 else Max < p.Length) && (p != null ==> N < p.Length)
      && forall k :: 1 <= k <= N ==> p[k].c < compMAX
    }

    /** The items in array order. */
    ghost function Items(): seq<Item<S>>
      requires Valid()
      reads this, p
    {
      if p == null then [] else Content(p[..], N)
    }

    ghost predicate InOrder()
      requires Valid()
      reads this, p
    {
      p == null || Ordered(p[..], N)
    }

    constructor (compMAX: int, mElem: nat)
      ensures Valid() && InOrder() && Items() == [] && this.compMAX == compMAX && fresh(p)
    {
      this.compMAX := compMAX;
      N := 0;
      Max := mElem;
      p := new Item<S>[mElem + 1];
    }

    /** `empty` and `count`. */
    method Count() returns (n: nat)
      requires Valid()
      ensures n == |Items()|
    {
      n := N;
    }

    /** `getnext`: the item at place `i`, when there is one. */
    method GetNext(i: nat) returns (ok: bool, v: Item<S>)
      requires Valid() && i > 0
      ensures ok == (i <= |Items()|) && (ok ==> v == Items()[i - 1])
    {
      ok := i <= N;
      v := *;
      if ok {
        v := p[i];
      }
    }

    /** `grow`: a larger array with the same items. */
    method Grow(newMax: nat)
      requires Valid() && newMax >= N
      modifies this
      ensures Valid() && fresh(p) && Max == newMax && N == old(N)
      ensures Items() == old(Items()) && (old(InOrder()) ==> InOrder())
    {
      var tp := new Item<S>[newMax + 1];
      if p != null {
        var i := 1;
        while i <= N
          invariant 1 <= i <= N + 1
          invariant forall k :: 1 <= k < i ==> tp[k] == p[k]
          modifies tp
        {
          tp[i] := p[i];
          i := i + 1;
        }
        assert tp[1..N + 1] == p[1..N + 1];
      }
      p := tp;
      Max := newMax;
    }

    /** `upheap`. */
    method UpHeap(k: nat)
      requires Valid() && p != null && 0 < k <= N
      modifies p
      ensures p[1..] == Up(old(p[..]), k, old(p[k]))[1..]
    {
      var v := p[k];
      p[0] := Item(compMAX, p[0].s);
      ghost var s := p[..];
      var k := k;
      ghost var whole := Up(s, k, v);
      UpFirst(old(p[..]), k, v, p[0]);
      while p[k / 2].c <= v.c
        invariant 0 < k <= N && p[0].c == compMAX && v.c < compMAX
        invariant Up(p[..], k, v) == whole
        decreases k
      {
        p[k] := p[k / 2];
        k := k / 2;
      }
      p[k] := v;
      assert p[..] == whole;
    }

    /** `downheap`. */
    method DownHeap(k: nat)
      requires Valid() && p != null && 0 < k < p.Length
      modifies p
      ensures p[..] == Down(old(p[..]), N, k, old(p[k]))
    {
      var v := p[k];
      var k := k;
      ghost var whole := Down(p[..], N, k, v);
      while k <= N / 2
        invariant 0 < k < p.Length
        invariant Down(p[..], N, k, v) == whole
        decreases p.Length - k
      {
        var j := k + k;
        if j < N && p[j].c < p[j + 1].c {
          j := j + 1;
        }
        if v.c >= p[j].c { break; }
        ghost var s := p[..];
        assert j == Child(s, N, k) && s[j] == p[j];
        p[k] := p[j];
        assert p[..] == s[k := s[j]];
        k := j;
      }
      p[k] := v;
    }

    /** `insert`. */
    method Insert(c: int, x: S)
      requires Valid() && c < compMAX
      modifies this, p
      ensures Valid() && multiset(Items()) == multiset(old(Items())) + multiset{Item(c, x)}
      ensures p == old(p) || fresh(p)
      ensures old(InOrder()) ==> InOrder()
    {
      if N >= Max {
        Grow(if Max < MIN_GROW then MIN_GROW else Max * 2);
      }
      Append(c, x);
    }

    /** The part of `insert` after growing. */
    method Append(c: int, x: S)
      requires Valid() && c < compMAX && N < Max && p != null
      modifies this`N, p
      ensures Valid() && multiset(Items()) == multiset(old(Items())) + multiset{Item(c, x)}
      ensures old(InOrder()) ==> InOrder()
    {
      ghost var s, n, v := p[..], N, Item(c, x);
      PutLast(Item(c, x));
      InsertMeans(s, n, v);
      InsertKeys(s, n, v, p[..], compMAX);
    }

    /** The part of that which works on the array. */
    method PutLast(v: Item<S>)
      requires Valid() && v.c < compMAX && N < Max && p != null
      modifies this`N, p
      ensures N == old(N) + 1 && p[1..] == Up(old(p[..])[N := v], N, v)[1..]
    {
      ghost var s := p[..];
      N := N + 1;
      p[N] := v;
      assert p[..] == s[N := v];
      UpHeap(N);
    }

    /** `remove`: the item at place `i` leaves, and the last one sinks from its place. */
    method Remove(i: nat) returns (x: S)
      requires Valid() && 0 < i <= |Items()|
      modifies this, p
      ensures Valid() && p == old(p) && N == old(N) - 1 && x == old(Items())[i - 1].s
      ensures Drops(old(Items()), Items(), i - 1)
      ensures old(InOrder()) ==>
        (InOrder() <==> i == 1 || old(Items())[|old(Items())| - 1].c <= old(Items())[i / 2 - 1].c)
    {
      x := TakeAt(i);
      ghost var s, n := p[..], N;
      ghost var r := TakeOut(i);
      assert old(Items()) == Content(s, n) && Items() == Content(r, n - 1);
    }

    /** The part of `remove` that works on the array. */
    method TakeOut(i: nat) returns (ghost r: seq<Item<S>>)
      requires Valid() && p != null && 0 < i <= N
      modifies this`N, p
      ensures N == old(N) - 1 && p[..] == r && |r| == p.Length
      ensures Lacks(old(p[..]), old(N), i, compMAX, r)
    {
      ghost var s, n := p[..], N;
      r := Removed(s, n, i);
      Sink(i, r);
      RemovedMeans(s, n, i, compMAX, r);
    }

    /** The value at place `i`. */
    method TakeAt(i: nat) returns (x: S)
      requires Valid() && 0 < i <= |Items()|
      ensures x == Items()[i - 1].s
    {
      x := p[i].s;
    }

    /** The last item goes to place `i` and sinks. */
    method Sink(i: nat, ghost r: seq<Item<S>>)
      requires Valid() && p != null && 0 < i <= N && r == Removed(p[..], N, i)
      modifies this`N, p
      ensures p[..] == r && N == old(N) - 1
    {
      p[i] := p[N];
      N := N - 1;
      DownHeap(i);
    }

    /** Taking the top until nothing is left gives all items in the order of their keys. */
    method Drain() returns (out: seq<Item<S>>)
      requires Valid() && InOrder()
      modifies this, p
      ensures Valid() && Items() == []
      ensures multiset(out) == multiset(old(Items()))
      ensures forall i, j :: 0 <= i < j < |out| ==> out[i].c >= out[j].c
    {
      out := [];
      ghost var p0 := p;
      while N > 0
        invariant Valid() && InOrder() && p == p0
        invariant multiset(out) + multiset(Items()) == multiset(old(Items()))
        invariant Sorted(out, Items())
        decreases N
      {
        out := DrainOne(out);
      }
      assert Items() == [];
    }

    /** One round of that: the top goes behind those taken so far. */
    method DrainOne(out: seq<Item<S>>) returns (out': seq<Item<S>>)
      requires Valid() && InOrder() && N > 0 && Sorted(out, Items())
      modifies this, p
      ensures Valid() && InOrder() && p == old(p) && N == old(N) - 1 && Sorted(out', Items())
      ensures multiset(out') + multiset(Items()) == multiset(out) + multiset(old(Items()))
    {
      ghost var items := Items();
      TopOfItems(p[..], N);
      var ok, v := GetNext(1);
      var x := Remove(1);
      DrainStep(items, Items(), v, out);
      out' := out + [v];
    }
  }

  /** What is out is in order, and nothing still inside is above any of it. */
  ghost predicate Sorted<S>(out: seq<Item<S>>, inside: seq<Item<S>>) {
    && (forall i, j :: 0 <= i < j < |out| ==> out[i].c >= out[j].c)
    && (forall i, x :: 0 <= i < |out| && x in inside ==> x.c <= out[i].c)
  }

  lemma DrainStep<S>(items: seq<Item<S>>, rest: seq<Item<S>>, v: Item<S>, out: seq<Item<S>>)
    requires multiset(rest) + multiset{v} == multiset(items) && Sorted(out, items)
    requires forall x :: x in items ==> x.c <= v.c
    ensures Sorted(out + [v], rest)
    ensures multiset(out + [v]) + multiset(rest) == multiset(out) + multiset(items)
  {
    forall x | x in rest ensures x in items {
      assert x in multiset(rest);
      assert x in multiset(items);
    }
    assert v in multiset(items);
    assert v in items;
  }

  lemma TopOfItems<S>(s: seq<Item<S>>, n: nat)
    requires 0 < n < |s| && Ordered(s, n)
    ensures forall x :: x in Content(s, n) ==> x.c <= s[1].c
  {
    forall x | x in Content(s, n) ensures x.c <= s[1].c {
      var k :| 0 <= k < n && Content(s, n)[k] == x;
      TopIsHighest(s, n, k + 1);
    }
  }

  /** Putting an item last and sifting it up adds it and keeps the order. */
  lemma InsertMeans<S>(s: seq<Item<S>>, n: nat, v: Item<S>)
    requires n + 1 < |s|
    ensures var r := Up(s[n + 1 := v], n + 1, v);
      && multiset(Content(r, n + 1)) == multiset(Content(s, n)) + multiset{v}
      && (Ordered(s, n) ==> Ordered(r, n + 1))
  {
    var t := s[n + 1 := v];
    UpKeeps(t, n + 1, n + 1, v);
    assert t[n + 1 := v] == t;
    assert Content(t, n + 1) == Content(s, n) + [v];
    if Ordered(s, n) {
      LastOrdered(s, n, v);
    }
  }

  lemma LastOrdered<S>(s: seq<Item<S>>, n: nat, v: Item<S>)
    requires n + 1 < |s| && Ordered(s, n)
    ensures Ordered(Up(s[n + 1 := v], n + 1, v), n + 1)
  {
    var t := s[n + 1 := v];
    forall j | 2 <= j <= n + 1 && j != n + 1 && j / 2 != n + 1 ensures t[j].c <= t[j / 2].c {
    }
    UpOrders(t, n + 1, n + 1, v);
  }

  lemma InsertKeys<S>(s: seq<Item<S>>, n: nat, v: Item<S>, r: seq<Item<S>>, max: int)
    requires n + 1 < |s| == |r| && v.c < max && r[1..] == Up(s[n + 1 := v], n + 1, v)[1..]
    requires forall k :: 1 <= k <= n ==> s[k].c < max
    ensures forall k :: 1 <= k <= n + 1 ==> r[k].c < max
    ensures Content(r, n + 1) == Content(Up(s[n + 1 := v], n + 1, v), n + 1)
    ensures Ordered(Up(s[n + 1 := v], n + 1, v), n + 1) ==> Ordered(r, n + 1)
  {
    var u := Up(s[n + 1 := v], n + 1, v);
    UpKeys(s[n + 1 := v], n + 1, n + 1, v, max);
    forall k | 1 <= k <= n + 1 ensures r[k] == u[k] {
      assert r[k] == r[1..][k - 1] == u[1..][k - 1];
    }
  }

  /** Sifting puts no key at or above the sentinel anywhere. */
  lemma {:induction false} UpKeys<S>(s: seq<Item<S>>, n: nat, k: nat, v: Item<S>, max: int)
    requires 0 < k <= n < |s| && v.c < max && forall j :: 1 <= j <= n ==> s[j].c < max
    ensures forall j :: 1 <= j <= n ==> Up(s, k, v)[j].c < max
    decreases k
  {
    if k >= 2 && s[k / 2].c <= v.c {
      UpKeys(s[k := s[k / 2]], n, k / 2, v, max);
    }
  }

  lemma {:induction false} DownKeys<S>(s: seq<Item<S>>, n: nat, k: nat, v: Item<S>, max: int)
    requires 0 < k < |s| && n < |s| && v.c < max && forall j :: 1 <= j <= n ==> s[j].c < max
    ensures forall j :: 1 <= j <= n ==> Down(s, n, k, v)[j].c < max
    decreases |s| - k
  {
    if k <= n / 2 && v.c < s[Child(s, n, k)].c {
      DownKeys(s[k := s[Child(s, n, k)]], n, Child(s, n, k), v, max);
    }
  }

  /** The array `r` has the items of `s` but for the one at `i`, and when it is still in order. */
  ghost predicate Lacks<S>(s: seq<Item<S>>, n: nat, i: nat, max: int, r: seq<Item<S>>) {
    && 0 < i <= n < |s| == |r| && (forall k :: 1 <= k < n ==> r[k].c < max)
    && Drops(Content(s, n), Content(r, n - 1), i - 1)
    && (Ordered(s, n) ==>
         (Ordered(r, n - 1) <==> i == 1 || Content(s, n)[n - 1].c <= Content(s, n)[i / 2 - 1].c))
  }

  /** All that `remove` promises, of the array it leaves. */
  lemma RemovedMeans<S>(s: seq<Item<S>>, n: nat, i: nat, max: int, r: seq<Item<S>>)
    requires 0 < i <= n < |s| && forall k :: 1 <= k <= n ==> s[k].c < max
    requires r == Removed(s, n, i)
    ensures Lacks(s, n, i, max, r)
  {
    RemovedKeys(s, n, i, max);
    RemovedDrops(s, n, i);
    assert Content(s, n)[i - 1] == s[i] && Content(s, n)[n - 1] == s[n];
    if Ordered(s, n) {
      RemovedOrdered(s, n, i);
    }
  }

  lemma RemovedKeys<S>(s: seq<Item<S>>, n: nat, i: nat, max: int)
    requires 0 < i <= n < |s| && forall k :: 1 <= k <= n ==> s[k].c < max
    ensures forall k :: 1 <= k < n ==> Removed(s, n, i)[k].c < max
  {
    DownKeys(s[i := s[n]], n - 1, i, s[n], max);
  }

  /** What is at place 0 does not matter to sifting up. */
  lemma {:induction false} UpFirst<S>(s: seq<Item<S>>, k: nat, v: Item<S>, x: Item<S>)
    requires 0 < k < |s|
    ensures Up(s[0 := x], k, v) == Up(s, k, v)[0 := x]
    decreases k
  {
    if k >= 2 && s[k / 2].c <= v.c {
      assert s[0 := x][k := s[k / 2]] == s[k := s[k / 2]][0 := x];
      UpFirst(s[k := s[k / 2]], k / 2, v, x);
    }
  }

  /** Inserting any items below the sentinel and draining the queue sorts them. */
  method InsertAndDrain<S(0)>(compMAX: int, items: seq<Item<S>>) returns (out: seq<Item<S>>)
    requires forall i :: 0 <= i < |items| ==> items[i].c < compMAX
    ensures multiset(out) == multiset(items)
    ensures forall i, j :: 0 <= i < j < |out| ==> out[i].c >= out[j].c
  {
    var q := new PriQ<S>(compMAX, 0);
    InsertAll(q, items);
    out := q.Drain();
  }

  method InsertAll<S(0)>(q: PriQ<S>, items: seq<Item<S>>)
    requires q.Valid() && q.InOrder() && q.Items() == []
    requires forall i :: 0 <= i < |items| ==> items[i].c < q.compMAX
    modifies q, q.p
    ensures q.Valid() && q.InOrder() && multiset(q.Items()) == multiset(items)
    ensures q.p == old(q.p) || fresh(q.p)
  {
    var k := 0;
    while k < |items|
      invariant 0 <= k <= |items| && q.Valid() && q.InOrder()
      invariant q.p == old(q.p) || fresh(q.p)
      invariant multiset(q.Items()) == multiset(items[..k])
    {
      q.Insert(items[k].c, items[k].s);
      TakeMore(items, k);
      k := k + 1;
    }
    assert items[..k] == items;
  }

  lemma TakeMore<S>(s: seq<Item<S>>, k: nat)
    requires k < |s|
    ensures multiset(s[..k + 1]) == multiset(s[..k]) + multiset{s[k]}
  {
    assert s[..k + 1] == s[..k] + [s[k]];
  }
}
