/** The map over the hash table, the string hash it uses, and the table's own check. */
module HashMap {
  import opened Bytes
  import opened Options
  import opened Seals
  import opened HashChains
  import opened HashTable
  import opened HashScan

  /** What a map holds: for every canonical key the data of its node. */
  ghost function View(index: Index): map<bytes, int>
    reads set k | k in index :: index[k].node
  {
    map k | k in index :: index[k].node.data
  }

  /** `CMap`. */
  class Map {
    const table: Table

    /** Adding a key takes room in the table. */
    ghost predicate HasRoom()
      reads table
    {
      table.nodecount < table.maxcount
    }

    constructor (h: Hashing, maxcount: nat)
      requires GoodHashing(h)
      ensures table.Valid() && fresh(table) && fresh(table.table) && table.rep.nodes == {}
      ensures table.h == h && table.maxcount == maxcount
      ensures View(table.rep.index) == map[] && table.rep.calls == 0
    {
      table := new Table(h, maxcount);
    }

    /** `Find`. */
    method Find(key: bytes) returns (r: Option<int>)
      requires table.Valid()
      ensures var v := View(table.rep.index);
        r == if table.h.canon(key) in v then Some(v[table.h.canon(key)]) else None
    {
      var node := table.Lookup(key);
      r := if node != null then Some(node.data) else None;
    }

    /** `AddNotFound`: a new node under a key that is not there yet. */
    method AddNotFound(key: bytes) returns (node: Node)
      requires table.Valid() && HasRoom() && table.h.canon(key) !in table.rep.index
      modifies table, table.table, table.rep.nodes`next
      ensures table.Valid() && fresh(node) && (table.table == old(table.table) || fresh(table.table))
      ensures table.rep.nodes == old(table.rep.nodes) + {node} && table.rep.calls == old(table.rep.calls) + 1
      ensures table.h.canon(key) in table.rep.index && table.rep.index[table.h.canon(key)].node == node
      ensures View(table.rep.index) == old(View(table.rep.index))[table.h.canon(key) := node.data]
    {
      IndexNodes(table);
      var junk: int := *;
      node := new Node(junk);
      table.Insert(node, key);
    }

    /** `Set`. */
    method Set(key: bytes, d: int)
      requires table.Valid() && (table.h.canon(key) in table.rep.index || HasRoom())
      modifies table, table.table, table.rep.nodes
      ensures table.Valid() && (table.table == old(table.table) || fresh(table.table))
      ensures fresh(table.rep.nodes - old(table.rep.nodes))
      ensures View(table.rep.index) == old(View(table.rep.index))[table.h.canon(key) := d]
      ensures table.rep.calls == old(table.rep.calls) + if table.h.canon(key) in old(table.rep.index) then 0 else 1
    {
      var node := table.Lookup(key);
      if node == null {
        SetNew(key, d);
      } else {
        IndexNodes(table);
        Write(node, key, d);
      }
    }

    method SetNew(key: bytes, d: int)
      requires table.Valid() && HasRoom() && table.h.canon(key) !in table.rep.index
      modifies table, table.table, table.rep.nodes
      ensures table.Valid() && (table.table == old(table.table) || fresh(table.table))
      ensures fresh(table.rep.nodes - old(table.rep.nodes))
      ensures View(table.rep.index) == old(View(table.rep.index))[table.h.canon(key) := d]
      ensures table.rep.calls == old(table.rep.calls) + 1
    {
      ghost var view := View(table.rep.index);
      var node := AddNotFound(key);
      UpdateTwice(view, table.h.canon(key), node.data, d);
      Write(node, key, d);
    }

    /** Overwrite the data of a key's node: no other key's data changes. */
    method Write(node: Node, key: bytes, d: int)
      requires table.Valid() && table.h.canon(key) in table.rep.index
      requires table.rep.index[table.h.canon(key)].node == node
      modifies node`data
      ensures table.Valid() && table.rep == old(table.rep)
      ensures View(table.rep.index) == old(View(table.rep.index))[table.h.canon(key) := d]
    {
      IndexNodes(table);
      node.data := d;
    }

    /** `Del`. */
    method Del(key: bytes) returns (d: Option<int>)
      requires table.Valid()
      modifies table, table.table, table.rep.nodes`next
      ensures table.Valid() && (table.table == old(table.table) || fresh(table.table))
      ensures table.rep.nodes <= old(table.rep.nodes)
      ensures var v := old(View(table.rep.index));
        d == if table.h.canon(key) in v then Some(v[table.h.canon(key)]) else None
      ensures View(table.rep.index) == old(View(table.rep.index)) - {table.h.canon(key)}
      ensures table.rep.calls == old(table.rep.calls) + if table.h.canon(key) in old(table.rep.index) then 1 else 0
    {
      d := None;
      var node := table.Lookup(key);
      if node != null {
        var data := TakeOut(node, key);
        d := Some(data);
      } else {
        NotThere(View(table.rep.index), table.h.canon(key));
      }
    }

    /** A key's node leaves the table. */
    method TakeOut(node: Node, key: bytes) returns (data: int)
      requires table.Valid() && table.h.canon(key) in table.rep.index
      requires table.rep.index[table.h.canon(key)].node == node
      modifies table, table.table, table.rep.nodes`next
      ensures table.Valid() && (table.table == old(table.table) || fresh(table.table))
      ensures table.rep.nodes <= old(table.rep.nodes) && table.rep.calls == old(table.rep.calls) + 1
      ensures old(View(table.rep.index))[table.h.canon(key)] == data
      ensures View(table.rep.index) == old(View(table.rep.index)) - {table.h.canon(key)}
    {
      KeyOf(table, key);
      IndexNodes(table);
      data := node.data;
      table.Delete(node);
    }

    /** `Clear`. */
    method Clear()
      requires table.Valid()
      modifies table, table.table, table.rep.nodes`next
      ensures table.Valid() && View(table.rep.index) == map[]
    {
      FreeNodes(table);
    }

    /** `Enum`: every key of the map once, with its data, and nothing else. */
    method Enum() returns (seen: seq<(bytes, int)>)
      requires table.Valid()
      ensures |seen| == |View(table.rep.index)|
      ensures var v := View(table.rep.index);
        && (forall i :: 0 <= i < |seen| ==> table.h.canon(seen[i].0) in v && v[table.h.canon(seen[i].0)] == seen[i].1)
        && (forall i, j :: 0 <= i < j < |seen| ==> table.h.canon(seen[i].0) != table.h.canon(seen[j].0))
    {
      ghost var all := Flat(table.rep.chains);
      FlatLists(table.h, table.rep.chains, table.rep.index);
      IndexKeys(table);
      ListCount(table.h, table.rep.index, all);
      AllKeys(table);
      ghost var v := View(table.rep.index);
      ghost var pairs := Pairs(all);
      forall i | 0 <= i < |all|
        ensures table.h.canon(pairs[i].0) in v && v[table.h.canon(pairs[i].0)] == pairs[i].1
        ensures pairs[i].0 == all[i].key
      {
        assert all[i] in all;
        PairsAt(all, i);
      }
      seen := Walk();
      assert |View(table.rep.index)| == |table.rep.index| by {
        assert View(table.rep.index).Keys == table.rep.index.Keys;
      }
    }

    /** The scan of `Enum`: it meets the entries of the chains in order. */
    method Walk() returns (seen: seq<(bytes, int)>)
      requires table.Valid()
      ensures seen == old(Pairs(Flat(table.rep.chains)))
    {
      seen := [];
      ghost var all := Flat(table.rep.chains);
      ghost var want := Pairs(all);
      AllPairs(all);
      var scan := new Scan(table);
      ghost var rest := scan.left;
      var node := scan.Next();
      while node != null
        invariant Walking(table, scan, node, rest) && WalkedTo(all, want, rest, seen)
        decreases |rest|
      {
        node, seen := Step(scan, node, all, want, rest, seen);
        rest := rest[1..];
      }
    }

    /** One round of that. */
    method Step(scan: Scan, node: Node, ghost all: Chain, ghost want: seq<(bytes, int)>, ghost rest: Chain,
                seen: seq<(bytes, int)>)
      returns (node': Node?, seen': seq<(bytes, int)>)
      requires Walking(table, scan, node, rest) && WalkedTo(all, want, rest, seen)
      requires forall i :: 0 <= i < |all| ==> want[i] == (all[i].node.key, all[i].node.data)
      modifies scan
      ensures rest != [] && Walking(table, scan, node', rest[1..]) && WalkedTo(all, want, rest[1..], seen')
    {
      WalkMore(all, want, rest, seen);
      seen' := seen + [(node.key, node.data)];
      node' := scan.Next();
    }
  }

  /** The first pairs of the list are seen, and the entries behind them are still to come. */
  ghost predicate WalkedTo(all: Chain, want: seq<(bytes, int)>, rest: Chain, seen: seq<(bytes, int)>) {
    |seen| <= |all| == |want| && rest == all[|seen|..] && seen == want[..|seen|]
  }

  lemma WalkMore(all: Chain, want: seq<(bytes, int)>, rest: Chain, seen: seq<(bytes, int)>)
    requires WalkedTo(all, want, rest, seen) && rest != []
    ensures |seen| < |all| && rest[0] == all[|seen|] && WalkedTo(all, want, rest[1..], seen + [want[|seen|]])
  {
  }

  lemma NotThere(m: map<bytes, int>, k: bytes)
    requires k !in m
    ensures m - {k} == m
  {
  }

  lemma UpdateTwice(m: map<bytes, int>, k: bytes, a: int, b: int)
    ensures m[k := a][k := b] == m[k := b]
  {
  }

  /** A scan has returned `node`, and what it has still to return follows it in `rest`. */
  ghost predicate Walking(table: Table, scan: Scan, node: Node?, rest: Chain)
    reads scan, table, table.table, table.rep.nodes`next, table.rep.nodes`key, table.rep.nodes`hkey
  {
    && table.Valid() && scan.table == table && scan.Valid()
    && if node == null then rest == [] else rest != [] && node == rest[0].node && scan.left == rest[1..]
  }

  /** The keys and data in the nodes of a list of entries. */
  ghost function Pairs(all: Chain): (r: seq<(bytes, int)>)
    reads Nodes(all)
    ensures |r| == |all|
  {
    if all == [] then []
    else
      assert all[0] in all;
      [(all[0].node.key, all[0].node.data)] + Pairs(all[1..])
  }

  lemma {:induction false} PairsAt(all: Chain, i: nat)
    requires i < |all|
    ensures Pairs(all)[i] == (all[i].node.key, all[i].node.data)
  {
    if i > 0 {
      PairsAt(all[1..], i - 1);
    }
  }

  lemma AllPairs(all: Chain)
    ensures forall i :: 0 <= i < |all| ==> Pairs(all)[i] == (all[i].node.key, all[i].node.data)
  {
    forall i | 0 <= i < |all| ensures Pairs(all)[i] == (all[i].node.key, all[i].node.data) {
      PairsAt(all, i);
    }
  }

  lemma AllKeys(table: Table)
    requires table.Valid()
    ensures forall e :: e in Flat(table.rep.chains) ==> e.node in table.rep.nodes && e.node.key == e.key
  {
    var all := Flat(table.rep.chains);
    AllNodes(table);
    forall e | e in all ensures e.node in table.rep.nodes && e.node.key == e.key {
      var i :| 0 <= i < |all| && all[i] == e;
    }
  }

  /** The nodes of the index are those in use, one for each key. */
  lemma IndexNodes(table: Table)
    requires table.Valid()
    ensures forall k :: k in table.rep.index ==> table.rep.index[k].node in table.rep.nodes
    ensures forall k, l :: k in table.rep.index && l in table.rep.index && k != l ==>
      table.rep.index[k].node != table.rep.index[l].node
  {
    assert Wanted(OfNodes, 0);
    Unseal(table.h, table.rep.chains, table.rep.index);
  }

  /** The node found for a key carries a key that compares equal to it. */
  lemma KeyOf(table: Table, key: bytes)
    requires table.Valid() && table.h.canon(key) in table.rep.index
    ensures var node := table.rep.index[table.h.canon(key)].node;
      node in table.rep.nodes && table.h.canon(node.key) == table.h.canon(key)
  {
    var k := table.h.canon(key);
    var node := table.rep.index[k].node;
    IndexNodes(table);
    var c, i := NodeEntry(table.table, table.h, table.rep.chains, table.rep.index, table.rep.nodes, node);
  }

  /** The canonical keys of a list of entries. */
  function Keys(h: Hashing, all: Chain): set<bytes> {
    set e | e in all :: h.canon(e.key)
  }

  lemma {:induction false} KeyCount(h: Hashing, all: Chain)
    requires forall i, j :: 0 <= i < j < |all| ==> h.canon(all[i].key) != h.canon(all[j].key)
    ensures |Keys(h, all)| == |all|
  {
    if all != [] {
      var n := |all| - 1;
      KeyCount(h, all[..n]);
      assert all == all[..n] + [all[n]];
      assert Keys(h, all) == Keys(h, all[..n]) + {h.canon(all[n].key)};
      assert h.canon(all[n].key) !in Keys(h, all[..n]);
    }
  }

  /** A list of all entries has one for each key. */
  lemma ListCount(h: Hashing, index: Index, all: Chain)
    requires LeftIsAll(h, index, all)
    requires forall k :: k in index ==> h.canon(index[k].key) == k
    ensures |all| == |index|
    ensures forall i, j :: 0 <= i < j < |all| ==> h.canon(all[i].key) != h.canon(all[j].key)
    ensures forall i :: 0 <= i < |all| ==> h.canon(all[i].key) in index && index[h.canon(all[i].key)] == all[i]
  {
    assert Wanted(OfScan, 0);
    forall i | 0 <= i < |all| ensures h.canon(all[i].key) in index && index[h.canon(all[i].key)] == all[i] {
      assert all[i] in all;
    }
    KeyCount(h, all);
    assert Keys(h, all) == index.Keys;
  }

  /** An entry of the index carries the key it is found by. */
  lemma IndexKeys(table: Table)
    requires table.Valid()
    ensures forall k :: k in table.rep.index ==> table.h.canon(table.rep.index[k].key) == k
  {
    Unseal(table.h, table.rep.chains, table.rep.index);
    forall k | k in table.rep.index ensures table.h.canon(table.rep.index[k].key) == k {
      assert Findable(table.h, table.rep.chains, k, table.rep.index[k]);
    }
  }

  // ---------------------------------------------------------------- runs

  datatype Op = Set(key: bytes, d: int) | Del(key: bytes) | Find(key: bytes)

  /** What an operation does to a finite map, and what it returns. */
  function Does(h: Hashing, op: Op, v: map<bytes, int>): (map<bytes, int>, Option<int>) {
    var k := h.canon(op.key);
    var was := if k in v then Some(v[k]) else None;
    match op
    case Set(_, d) => (v[k := d], None)
    case Del(_) => (v - {k}, was)
    case Find(_) => (v, was)
  }

  /** The map and the results after a run of operations. */
  function After(h: Hashing, ops: seq<Op>): (r: (map<bytes, int>, seq<Option<int>>))
    ensures |r.0| <= |ops| && |r.1| == |ops|
  {
    if ops == [] then (map[], [])
    else
      var n := |ops| - 1;
      var (v, results) := After(h, ops[..n]);
      var (v', r) := Does(h, ops[n], v);
      assert |v'| <= |v| + 1 by { DoesSize(h, ops[n], v); }
      (v', results + [r])
  }

  lemma AfterMore(h: Hashing, ops: seq<Op>, i: nat)
    requires i < |ops|
    ensures var (v, results) := After(h, ops[..i]);
      var (v', r) := Does(h, ops[i], v);
      After(h, ops[..i + 1]) == (v', results + [r]) && |v| <= i
  {
    assert ops[..i + 1][..i] == ops[..i];
  }

  lemma DoesSize(h: Hashing, op: Op, v: map<bytes, int>)
    ensures |Does(h, op, v).0| <= |v| + 1
  {
    var k := h.canon(op.key);
    var v' := Does(h, op, v).0;
    assert v'.Keys <= v.Keys + {k};
    Subset(v'.Keys, v.Keys + {k});
  }

  lemma {:induction false} Subset(a: set<bytes>, b: set<bytes>)
    requires a <= b
    ensures |a| <= |b|
  {
    if a != {} {
      var x :| x in a;
      Subset(a - {x}, b - {x});
    }
  }

  /** Any run of operations on a map over a table does and returns what it does on a finite map, and
    resizing has visited at most three chain slots or nodes for each. */
  method RunOps(h: Hashing, maxcount: nat, ops: seq<Op>) returns (m: Map, results: seq<Option<int>>)
    requires GoodHashing(h) && |ops| <= maxcount
    ensures m.table.Valid() && View(m.table.rep.index) == After(h, ops).0 && results == After(h, ops).1
    ensures m.table.rep.calls <= |ops| && m.table.rep.work <= 3 * |ops|
  {
    m := new Map(h, maxcount);
    results := [];
    var i := 0;
    while i < |ops|
      invariant 0 <= i <= |ops| && fresh(m.table) && fresh(m.table.table) && fresh(m.table.rep.nodes)
      invariant Holds(m, h, maxcount, ops, i, results)
    {
      results := RunOp(m, h, maxcount, ops, i, results);
      i := i + 1;
    }
    assert ops[..i] == ops;
    ghost var k := TableBounds(m.table);
  }

  /** The map stands for what the first `i` operations make of a finite map. */
  ghost predicate Holds(m: Map, h: Hashing, maxcount: nat, ops: seq<Op>, i: nat, results: seq<Option<int>>)
    reads m.table, m.table.table, m.table.rep.nodes, set k | k in m.table.rep.index :: m.table.rep.index[k].node
  {
    && i <= |ops| && m.table.Valid() && m.table.h == h && m.table.maxcount == maxcount
    && (View(m.table.rep.index), results) == After(h, ops[..i]) && m.table.rep.calls <= i
  }

  method RunOp(m: Map, ghost h: Hashing, ghost maxcount: nat, ops: seq<Op>, i: nat, results: seq<Option<int>>)
    returns (results': seq<Option<int>>)
    requires Holds(m, h, maxcount, ops, i, results) && i < |ops| <= maxcount
    modifies m.table, m.table.table, m.table.rep.nodes
    ensures Holds(m, h, maxcount, ops, i + 1, results')
    ensures m.table.table == old(m.table.table) || fresh(m.table.table)
    ensures fresh(m.table.rep.nodes - old(m.table.rep.nodes))
  {
    AfterMore(h, ops, i);
    var r := MakeOp(m, ops[i], After(h, ops[..i]).0);
    results' := results + [r];
  }

  method MakeOp(m: Map, op: Op, ghost v: map<bytes, int>) returns (r: Option<int>)
    requires m.table.Valid() && View(m.table.rep.index) == v && |v| < m.table.maxcount
    modifies m.table, m.table.table, m.table.rep.nodes
    ensures m.table.Valid() && (View(m.table.rep.index), r) == Does(m.table.h, op, v)
    ensures m.table.table == old(m.table.table) || fresh(m.table.table)
    ensures fresh(m.table.rep.nodes - old(m.table.rep.nodes))
    ensures m.table.rep.calls <= old(m.table.rep.calls) + 1
  {
    assert v.Keys == m.table.rep.index.Keys && |v.Keys| == |v| && |m.table.rep.index.Keys| == |m.table.rep.index|;
    r := None;
    match op
    case Set(key, d) => m.Set(key, d);
    case Del(key) => r := m.Del(key);
    case Find(key) => r := m.Find(key);
  }

  // ---------------------------------------------------------------- sizes

  function Doubled(k: nat): nat {
    if k == 0 then INIT_SIZE else 2 * Doubled(k - 1)
  }

  lemma {:induction false} SizeDoubled(n: nat) returns (k: nat)
    requires IsSize(n)
    ensures n == Doubled(k) && n >= INIT_SIZE
  {
    if n == INIT_SIZE {
      k := 0;
    } else {
      k := SizeDoubled(n / 2);
      k := k + 1;
    }
  }

  /** In every run the table has 64 chains doubled some number of times, its marks are half and
    twice that, its load is at most two, and resizing has visited at most three chain slots or
    nodes for each insert or delete so far. */
  lemma TableBounds(t: Table) returns (k: nat)
    requires t.Valid()
    ensures t.nchains == Doubled(k) && t.nchains >= INIT_SIZE
    ensures 2 * t.lowmark == t.nchains && t.highmark == 2 * t.nchains && t.nodecount <= t.highmark
    ensures t.nodecount == |t.rep.index| == Total(t.rep.chains)
    ensures t.rep.work <= 3 * t.rep.calls
  {
    k := SizeDoubled(t.nchains);
  }

  predicate PowerOfTwo(n: nat) {
    n == 1 || (n > 1 && n % 2 == 0 && PowerOfTwo(n / 2))
  }

  lemma {:induction false} SizesArePowers(n: nat)
    requires IsSize(n)
    ensures PowerOfTwo(n / 2) && PowerOfTwo(n) && PowerOfTwo(2 * n)
  {
    if n == INIT_SIZE {
      assert PowerOfTwo(8) && PowerOfTwo(32);
    } else {
      SizesArePowers(n / 2);
    }
    assert (2 * n) / 2 == n;
  }

  /** `is_power_of_two`. */
  method IsPowerOfTwo(arg: nat) returns (r: bool)
    ensures r == PowerOfTwo(arg)
  {
    if arg == 0 { return false; }
    var a := arg;
    while a % 2 == 0
      invariant a > 0 && PowerOfTwo(a) == PowerOfTwo(arg)
      decreases a
    {
      a := a / 2;
    }
    return a == 1;
  }

  /** The bits that two numbers have in common. */
  function And(a: nat, b: nat): nat {
    if a == 0 || b == 0 then 0 else 2 * And(a / 2, b / 2) + a % 2 * (b % 2)
  }

  /** Anding with one less than a power of two gives the remainder. */
  lemma {:induction false} AndMask(a: nat, mask: nat)
    requires PowerOfTwo(mask + 1)
    ensures And(a, mask) == a % (mask + 1)
    decreases mask
  {
    if mask > 0 {
      var k := (mask + 1) / 2;
      assert mask / 2 == k - 1 && mask % 2 == 1;
      AndMask(a / 2, k - 1);
      HalfMod(a, k);
    }
  }

  lemma HalfMod(a: nat, k: nat)
    requires k > 0
    ensures 2 * ((a / 2) % k) + a % 2 == a % (2 * k)
  {
    var q, y := a / 2 / k, (a / 2) % k;
    assert a / 2 == k * q + y;
    assert a == 2 * k * q + (2 * y + a % 2);
    ModOf(a, 2 * k, q, 2 * y + a % 2);
  }

  lemma ModOf(a: nat, n: nat, q: nat, y: nat)
    requires a == n * q + y && y < n
    ensures a % n == y
  {
    var d: int, m: int := a / n - q, a % n;
    assert n * d == y - m by {
      assert a == n * (a / n) + m;
      Distributes(n, a / n, q);
    }
    AtLeastOnce(n, d);
  }

  lemma Distributes(n: int, a: int, b: int)
    ensures n * (a - b) == n * a - n * b
  {
  }

  lemma AtLeastOnce(n: int, d: int)
    requires n >= 0
    ensures d >= 1 ==> n * d >= n
    ensures d <= -1 ==> n * d <= -n
  {
  }

  /** What `hash_verify` tests of a table whose memory holds the given chains. */
  ghost predicate Passes(t: Table, dynamic: bool, chains: Chains)
    reads t
  {
    && (dynamic ==> t.lowmark < t.highmark && PowerOfTwo(t.highmark) && PowerOfTwo(t.lowmark))
    && (forall c :: 0 <= c < |chains| ==> InPlace(chains[c], t.mask, c))
    && Total(chains) == t.nodecount
  }

  /** Every entry's hash selects the chain it is in. */
  ghost predicate InPlace(chain: Chain, mask: nat, c: nat) {
    forall i :: 0 <= i < |chain| ==> And(chain[i].hkey, mask) == c
  }

  /** `hash_verify`: the table's own check, on dynamic and static tables, valid or not. */
  method Verify(t: Table, dynamic: bool, ghost chains: Chains, ghost nodes: set<Node>) returns (ok: bool)
    requires t.nchains == |chains| && Stored(t.table, chains, nodes)
    ensures ok <==> Passes(t, dynamic, chains)
  {
    if dynamic {
      if t.lowmark >= t.highmark { return false; }
      var p := IsPowerOfTwo(t.highmark);
      if !p { return false; }
      p := IsPowerOfTwo(t.lowmark);
      if !p { return false; }
    }
    var count, chain := 0, 0;
    while chain < t.nchains
      invariant 0 <= chain <= t.nchains && count == Total(chains[..chain])
      invariant forall c :: 0 <= c < chain ==> InPlace(chains[c], t.mask, c)
    {
      OpenStored(t.table, chains, nodes);
      var good;
      good, count := VerifyChain(t.table[chain], t.mask, chain, count, chains[chain]);
      if !good { return false; }
      assert chains[..chain + 1][..chain] == chains[..chain];
      chain := chain + 1;
    }
    assert chains[..chain] == chains;
    return count == t.nodecount;
  }

  /** The inner loop of `hash_verify`. */
  method VerifyChain(head: Node?, mask: nat, chain: nat, count: nat, ghost all: Chain) returns (good: bool, count': nat)
    requires Linked(head, all)
    ensures good <==> InPlace(all, mask, chain)
    ensures good ==> count' == count + |all|
  {
    count' := count;
    var hptr := head;
    ghost var i := 0;
    while hptr != null
      invariant 0 <= i <= |all| && hptr == Head(all, i) && count' == count + i
      invariant InPlace(all[..i], mask, chain)
      decreases |all| - i
    {
      assert Carries(all, i);
      if And(hptr.hkey, mask) != chain { return false, count'; }
      count' := count' + 1;
      hptr := hptr.next;
      i := i + 1;
    }
    assert all[..i] == all;
    return true, count';
  }

  /** The check accepts every valid table. */
  lemma ValidPasses(t: Table)
    requires t.Valid()
    ensures t.nchains == |t.rep.chains| && Stored(t.table, t.rep.chains, t.rep.nodes)
    ensures Passes(t, true, t.rep.chains)
  {
    var chains := t.rep.chains;
    SizesArePowers(t.nchains);
    Unseal(t.h, chains, t.rep.index);
    forall c | 0 <= c < |chains| ensures InPlace(chains[c], t.mask, c) {
      assert AllPlaced(t.h, t.rep.index, t.nchains, c, chains[c]);
      forall i | 0 <= i < |chains[c]| ensures And(chains[c][i].hkey, t.mask) == c {
        AndMask(chains[c][i].hkey, t.mask);
        assert chains[c][i] in chains[c] && Placed(t.h, t.rep.index, t.nchains, c, chains[c][i]);
      }
    }
  }

  // ---------------------------------------------------------------- string keys

  type word = bv32

  const RANDBOX: seq<word> := [
    0x49848f1b, 0xe6255dba, 0x36da5bdc, 0x47bf94e9,
    0x8cbcce22, 0x559fc06a, 0xd268f536, 0xe10af79a,
    0xc1af4d69, 0x1d2917b5, 0xec4c304d, 0x9ee5016c,
    0x69232f74, 0xfead7bb3, 0xe9089ab6, 0xf012f6ae
  ]

  /** Mix four bits of a character into the hash and rotate it left. */
  function Mix(acc: word, nibble: nat, shift: nat): word
    requires nibble < 16 && (shift == 1 || shift == 2)
  {
    var x := acc ^ RANDBOX[(nibble + (acc & 0xf) as nat) % 16];
    if shift == 1 then (x << 1) | (x >> 31) else (x << 2) | (x >> 30)
  }

  function MixChar(acc: word, c: byte): word {
    Mix(Mix(acc, c % 16, 1), (c / 16) % 16, 2)
  }

  function Hashed(s: bytes): word {
    if s == [] then 0 else MixChar(Hashed(s[..|s| - 1]), s[|s| - 1])
  }

  /** The lower-case form of a key. */
  function Lower(s: bytes): (r: bytes)
    ensures |r| == |s|
  {
    seq(|s|, k requires 0 <= k < |s| => ToLower(s[k]))
  }

  /** `HashCaseCharPtr` hashes the lower-case form of the key. */
  method HashCase(key: bytes) returns (acc: word)
    ensures acc == Hashed(Lower(key))
  {
    acc := 0;
    var p := 0;
    while p < |key|
      invariant 0 <= p <= |key| && acc == Hashed(Lower(key)[..p])
    {
      acc := Mix(acc, ToLower(key[p]) % 16, 1);
      acc := Mix(acc, (ToLower(key[p]) / 16) % 16, 2);
      assert Lower(key)[..p + 1][..p] == Lower(key)[..p];
      p := p + 1;
    }
    assert Lower(key)[..p] == Lower(key);
  }

  /** A number of the sign `stricmp` gives: zero when no lower-case characters differ. */
  function CompareCase(x: bytes, y: bytes): int {
    if x == [] || y == [] then |x| - |y|
    else if ToLower(x[0]) != ToLower(y[0]) then ToLower(x[0]) as int - ToLower(y[0]) as int
    else CompareCase(x[1..], y[1..])
  }

  /** Keys compare equal exactly when their lower-case forms are the same. */
  lemma {:induction false} CompareIsLower(x: bytes, y: bytes)
    ensures CompareCase(x, y) == 0 <==> Lower(x) == Lower(y)
    decreases |x|
  {
    if x != [] && y != [] {
      CompareIsLower(x[1..], y[1..]);
      assert Lower(x)[1..] == Lower(x[1..]) && Lower(y)[1..] == Lower(y[1..]);
      assert Lower(x)[0] == ToLower(x[0]) && Lower(y)[0] == ToLower(y[0]);
      assert Lower(x) == [ToLower(x[0])] + Lower(x)[1..];
      assert Lower(y) == [ToLower(y[0])] + Lower(y)[1..];
    } else {
      assert |Lower(x)| == |x| && |Lower(y)| == |y|;
    }
  }

  /** The two functions of a map with string keys. */
  const StringHashing := Hashing((s: bytes) => Hashed(Lower(s)) as nat, (s: bytes) => Lower(s))

  /** Keys equal without regard to case hash alike. */
  lemma StringsHashAlike(x: bytes, y: bytes)
    ensures GoodHashing(StringHashing)
    ensures CompareCase(x, y) == 0 ==> Hashed(Lower(x)) == Hashed(Lower(y))
    ensures StringHashing.canon(x) == StringHashing.canon(y) <==> CompareCase(x, y) == 0
  {
    CompareIsLower(x, y);
  }
}
