/** Scanning a table, and emptying it by a scan. */
module HashScan {
  import opened Bytes
  import opened Seals
  import opened HashChains
  import opened HashTable

  /** All entries, chain after chain. */
  function Flat(chains: Chains): Chain {
    if chains == [] then [] else chains[0] + Flat(chains[1..])
  }

  /** A scan that will return `next` first has `left` still to return: `next` is at `p` in chain `c`. */
  ghost predicate ScanAt(chains: Chains, c: nat, p: nat, next: Node?, left: Chain) {
    if next == null then left == []
    else
      && c < |chains| && p < |chains[c]| && next == chains[c][p].node
      && left == chains[c][p..] + Flat(chains[c + 1..])
  }

  lemma FlatSkip(chains: Chains, c: nat)
    requires c < |chains|
    ensures Flat(chains[c..]) == chains[c] + Flat(chains[c + 1..])
  {
    assert chains[c..][1..] == chains[c + 1..];
  }

  lemma {:induction false} FlatMembers(chains: Chains, e: Entry)
    ensures e in Flat(chains) <==> exists c :: 0 <= c < |chains| && e in chains[c]
  {
    if chains != [] {
      FlatMembers(chains[1..], e);
      if c :| 0 <= c < |chains| && e in chains[c] {
        if c > 0 {
          assert e in chains[1..][c - 1];
        }
      }
      if e in Flat(chains[1..]) {
        var c :| 0 <= c < |chains[1..]| && e in chains[1..][c];
        assert e in chains[c + 1];
      }
    }
  }

  /** The chains from `c` on hold no entry twice. */
  lemma {:induction false} FlatNoDup(h: Hashing, chains: Chains, index: Index, c: nat)
    requires Represents(h, chains, index) && c <= |chains|
    ensures NoDup(Flat(chains[c..]))
    decreases |chains| - c
  {
    if c < |chains| {
      FlatSkip(chains, c);
      FlatNoDup(h, chains, index, c + 1);
      assert AllPlaced(h, index, |chains|, c, chains[c]);
      forall e | e in Flat(chains[c + 1..]) ensures e !in chains[c] {
        FlatMembers(chains[c + 1..], e);
        var d :| 0 <= d < |chains[c + 1..]| && e in chains[c + 1..][d];
        assert chains[c + 1..][d] == chains[c + 1 + d];
        ChainsApart(h, chains, index, c, c + 1 + d);
        assert e.node in Nodes(chains[c + 1 + d]);
        assert e.node !in Nodes(chains[c]);
      }
      NoDupConcat(chains[c], Flat(chains[c + 1..]));
    }
  }

  /** What is left is in the index, with nothing twice. */
  ghost predicate LeftIn(h: Hashing, index: Index, left: Chain) {
    forall t {:trigger Wanted(OfScan, t)} :: Wanted(OfScan, t) ==> Listed(h, index, left)
  }

  /** What is left is all the index holds, once. */
  ghost predicate LeftIsAll(h: Hashing, index: Index, left: Chain) {
    forall t {:trigger Wanted(OfScan, t)} :: Wanted(OfScan, t) ==>
      Listed(h, index, left) && forall k :: k in index ==> index[k] in left
  }

  ghost predicate Listed(h: Hashing, index: Index, left: Chain) {
    NoDup(left) && forall e :: e in left ==> h.canon(e.key) in index && index[h.canon(e.key)] == e
  }

  /** The flat chains list every entry of the index exactly once. */
  lemma FlatLists(h: Hashing, chains: Chains, index: Index)
    requires Sealed(h, chains, index)
    ensures LeftIsAll(h, index, Flat(chains)) && LeftIn(h, index, Flat(chains))
  {
    assert Wanted(OfScan, 0);
    Unseal(h, chains, index);
    assert chains[0..] == chains;
    FlatNoDup(h, chains, index, 0);
    forall e | e in Flat(chains) ensures h.canon(e.key) in index && index[h.canon(e.key)] == e {
      FlatMembers(chains, e);
      var c :| 0 <= c < |chains| && e in chains[c];
      assert Placed(h, index, |chains|, c, e);
    }
    forall k | k in index ensures index[k] in Flat(chains) {
      FlatMembers(chains, index[k]);
      assert Findable(h, chains, k, index[k]);
    }
  }

  /** Entries from the place of the scan on are left to return. */
  lemma StillLeft(chains: Chains, c: nat, p: nat, next: Node?, left: Chain, d: nat, q: nat)
    requires ScanAt(chains, c, p, next, left) && d < |chains| && q < |chains[d]| && next != null
    ensures d > c || (d == c && q >= p) ==> chains[d][q] in left
  {
    if d > c {
      assert chains[c + 1..][d - c - 1] == chains[d];
      FlatMembers(chains[c + 1..], chains[d][q]);
    } else if d == c && q >= p {
      assert chains[c][p..][q - p] == chains[c][q];
    }
  }

  lemma WithoutTail(chain: Chain, q: nat, p: nat)
    requires q < p < |chain|
    ensures Without(chain, q)[p - 1..] == chain[p..]
    ensures Without(chain, q)[p - 1] == chain[p]
  {
  }

  /** Taking out an entry that is not left to return moves the scan by at most one place. */
  lemma ScanSurvives(chains: Chains, c: nat, p: nat, next: Node?, left: Chain, d: nat, q: nat) returns (p': nat)
    requires ScanAt(chains, c, p, next, left) && d < |chains| && q < |chains[d]| && chains[d][q] !in left
    ensures ScanAt(Removed(chains, d, q), c, p', next, left)
  {
    p' := p;
    if next != null {
      StillLeft(chains, c, p, next, left, d, q);
      var chains' := Removed(chains, d, q);
      assert chains'[c + 1..] == chains[c + 1..];
      if d == c {
        p' := p - 1;
        WithoutTail(chains[c], q, p);
      }
    }
  }

  ghost predicate StartsAt(table: Table, c: nat)
    reads table, table.table
  {
    && c < |table.rep.chains| == table.table.Length
    && table.rep.chains[c] != [] && table.table[c] == table.rep.chains[c][0].node
  }

  /** The first chain from `c` on that is not empty, or the number of chains. */
  method NextChain(table: Table, c: nat) returns (c': nat)
    requires table.Valid() && c <= table.nchains
    ensures var all := table.rep.chains;
      && c <= c' <= table.nchains == |all| && Flat(all[c'..]) == Flat(all[c..])
      && (c' == table.nchains ==> Flat(all[c'..]) == [])
      && (c' < table.nchains ==> StartsAt(table, c') && Flat(all[c'..]) == all[c'] + Flat(all[c' + 1..]))
  {
    ghost var all := table.rep.chains;
    c' := c;
    TableLength(table);
    while c' < table.nchains && table.table[c'] == null
      invariant c <= c' <= table.nchains && Flat(all[c'..]) == Flat(all[c..])
    {
      AtChain(table, c');
      c' := c' + 1;
    }
    if c' < table.nchains {
      AtChain(table, c');
    }
  }

  lemma TableLength(table: Table)
    requires table.Valid()
    ensures table.table.Length == table.nchains == |table.rep.chains|
  {
    OpenStored(table.table, table.rep.chains, table.rep.nodes);
  }

  /** A chain is empty, or its first node is where the table points. */
  lemma AtChain(table: Table, c: nat)
    requires table.Valid() && c < table.nchains
    ensures table.table.Length == table.nchains == |table.rep.chains|
    ensures var all := table.rep.chains;
      && Flat(all[c..]) == all[c] + Flat(all[c + 1..])
      && if table.table[c] == null then all[c] == [] else StartsAt(table, c)
  {
    OpenStored(table.table, table.rep.chains, table.rep.nodes);
    FlatSkip(table.rep.chains, c);
    assert Linked(table.table[c], table.rep.chains[c]);
  }

  class Scan {
    const table: Table
    var chain: nat
    var next: Node?

    /** What is left to return, and the place of `next` in its chain. */
    ghost var left: Chain
    ghost var place: nat

    ghost predicate Valid()
      reads this, table
    {
      ScanAt(table.rep.chains, chain, place, next, left)
    }

    /** `hash_scan_begin`. */
    constructor (table: Table)
      requires table.Valid()
      ensures Valid() && this.table == table && left == Flat(table.rep.chains)
    {
      this.table := table;
      ghost var all := table.rep.chains;
      assert all[0..] == all;
      var c := NextChain(table, 0);
      chain := c;
      place := 0;
      left := Flat(all);
      if c < table.nchains {
        next := table.table[c];
        assert all[c][0..] == all[c];
      } else {
        next := null;
      }
    }

    /** `hash_scan_next`: returns the first node left, or null. The table is not changed. */
    method Next() returns (node: Node?)
      requires Valid() && table.Valid()
      modifies this
      ensures Valid()
      ensures old(left) == [] ==> node == null && left == []
      ensures old(left) != [] ==> node == old(left)[0].node && left == old(left)[1..]
    {
      node := next;
      ghost var all := table.rep.chains;
      if node != null {
        LinkAt(table, chain, place);
        if node.next != null {
          next := node.next;
          place := place + 1;
        } else {
          assert left == [all[chain][place]] + Flat(all[chain + 1..]);
          var c := NextChain(table, chain + 1);
          if c < table.nchains {
            chain := c;
            place := 0;
            next := table.table[c];
            assert all[c][0..] == all[c];
          } else {
            next := null;
          }
        }
        left := left[1..];
      }
    }

    /** `hash_scan_delete` on a node the scan has passed: the scan goes on undisturbed. */
    method DeletePassed(node: Node)
      requires Valid() && table.Valid() && node in table.rep.nodes
      requires forall e :: e in left ==> e.node != node
      modifies this, table, table.table, table.rep.nodes`next
      ensures Valid() && table.Valid() && table.table == old(table.table)
      ensures left == old(left) && table.rep.nodes == old(table.rep.nodes) - {node}
      ensures table.rep.index == old(table.rep.index) - {table.h.canon(node.key)}
      ensures table.rep.calls == old(table.rep.calls) + 1 && table.nodecount == old(table.nodecount) - 1
    {
      ghost var at := table.ScanDelete(node);
      ghost var c := node.hkey % table.nchains;
      place := ScanSurvives(old(table.rep.chains), chain, place, next, left, c, at);
    }
  }

  /** A node in a chain points to the next one there. */
  lemma LinkAt(table: Table, c: nat, p: nat)
    requires table.Valid() && c < |table.rep.chains| && p < |table.rep.chains[c]|
    ensures table.rep.chains[c][p].node.next == Head(table.rep.chains[c], p + 1)
  {
    OpenStored(table.table, table.rep.chains, table.rep.nodes);
    assert Linked(table.table[c], table.rep.chains[c]) && Carries(table.rep.chains[c], p);
  }

  /** An entry left is in the table under its own key, and no other one left has its node. */
  lemma LeftNode(table: Table, left: Chain, i: nat)
    requires table.Valid() && LeftIn(table.h, table.rep.index, left) && i < |left|
    ensures left[i].node in table.rep.nodes && left[i].node.key == left[i].key
    ensures forall j :: 0 <= j < |left| && j != i ==> left[j].node != left[i].node
  {
    var h, index, e := table.h, table.rep.index, left[i];
    assert Wanted(OfScan, 0);
    OwnsNode(index, table.rep.nodes, h.canon(e.key));
    var c, p := NodeEntry(table.table, h, table.rep.chains, index, table.rep.nodes, e.node);
    Unseal(h, table.rep.chains, index);
    assert h.canon(e.node.key) == h.canon(e.key);
  }

  /** The entries behind the first one stay left whether that one is taken out or not. */
  lemma FirstLeft(table: Table, left: Chain)
    requires table.Valid() && LeftIn(table.h, table.rep.index, left) && left != []
    ensures var e := left[0];
      && e.node in table.rep.nodes && e.node.key == e.key
      && (forall f :: f in left[1..] ==> f.node != e.node)
      && LeftIn(table.h, table.rep.index, left[1..])
      && LeftIn(table.h, table.rep.index - {table.h.canon(e.key)}, left[1..])
  {
    LeftNode(table, left, 0);
    assert Wanted(OfScan, 0);
    forall f | f in left[1..] ensures f in left && f != left[0] {
      var j :| 0 <= j < |left| - 1 && left[1..][j] == f;
      assert left[j + 1] == f;
    }
  }

  lemma FirstLeftOfAll(table: Table, left: Chain)
    requires table.Valid() && LeftIsAll(table.h, table.rep.index, left) && left != []
    ensures LeftIsAll(table.h, table.rep.index - {table.h.canon(left[0].key)}, left[1..])
  {
    var h, index, e := table.h, table.rep.index, left[0];
    assert Wanted(OfScan, 0);
    FirstLeft(table, left);
    Unseal(h, table.rep.chains, index);
    var index' := index - {h.canon(e.key)};
    forall l | l in index' ensures index'[l] in left[1..] {
      assert Findable(h, table.rep.chains, l, index[l]);
      assert index[l] in left && index[l] != e && left == [e] + left[1..];
    }
  }

  lemma EmptyTable(table: Table)
    requires table.Valid() && LeftIsAll(table.h, table.rep.index, [])
    ensures table.rep.index == map[] && table.rep.nodes == {} && table.nodecount == 0
  {
    var index := table.rep.index;
    assert Wanted(OfNodes, 0) && Wanted(OfScan, 0);
    Unseal(table.h, table.rep.chains, index);
  }

  /** `hash_free_nodes`: scan the table and take out every node as it is returned. */
  method FreeNodes(table: Table)
    requires table.Valid()
    modifies table, table.table, table.rep.nodes`next
    ensures table.Valid() && table.rep.index == map[] && table.rep.nodes == {} && table.nodecount == 0
    ensures table.rep.calls == old(table.rep.calls) + old(table.nodecount)
  {
    FlatLists(table.h, table.rep.chains, table.rep.index);
    var scan := new Scan(table);
    ghost var left := scan.left;
    var node := scan.Next();
    while node != null
      invariant table.table == old(table.table) && table.rep.nodes <= old(table.rep.nodes)
      invariant Sweeping(scan, table, node, left) && LeftIsAll(table.h, table.rep.index, left)
      invariant table.rep.calls + table.nodecount == old(table.rep.calls) + old(table.nodecount)
      decreases |left|
    {
      FirstLeftOfAll(table, left);
      node := SweepNext(scan, table, node, true, left);
      left := left[1..];
    }
    EmptyTable(table);
  }

  /** The node just returned and what the scan has left are still in the table. */
  ghost predicate Sweeping(scan: Scan, table: Table, node: Node?, left: Chain)
    reads scan, table, table.table, table.rep.nodes`next, table.rep.nodes`key, table.rep.nodes`hkey
  {
    && table.Valid() && scan.table == table && scan.Valid()
    && LeftIn(table.h, table.rep.index, left)
    && if node == null then left == [] else left != [] && node == left[0].node && scan.left == left[1..]
  }

  /** One round: take out the node just returned or keep it, and ask for the next one. */
  method SweepNext(scan: Scan, table: Table, node: Node, remove: bool, ghost left: Chain) returns (node': Node?)
    requires Sweeping(scan, table, node, left)
    modifies scan, table, table.table, table.rep.nodes`next
    ensures left != [] && Sweeping(scan, table, node', left[1..])
    ensures table.table == old(table.table) && table.rep.nodes <= old(table.rep.nodes)
    ensures table.rep.index == old(table.rep.index) - if remove then {table.h.canon(left[0].key)} else {}
    ensures table.rep.calls == old(table.rep.calls) + if remove then 1 else 0
    ensures table.nodecount == old(table.nodecount) - if remove then 1 else 0
  {
    if remove {
      SweepOut(scan, table, node, left);
    } else {
      FirstLeft(table, left);
    }
    node' := scan.Next();
  }

  method SweepOut(scan: Scan, table: Table, node: Node, ghost left: Chain)
    requires Sweeping(scan, table, node, left)
    modifies scan, table, table.table, table.rep.nodes`next
    ensures table.Valid() && scan.Valid() && scan.left == left[1..] && LeftIn(table.h, table.rep.index, left[1..])
    ensures table.table == old(table.table) && table.rep.nodes <= old(table.rep.nodes)
    ensures table.rep.index == old(table.rep.index) - {table.h.canon(left[0].key)}
    ensures table.rep.calls == old(table.rep.calls) + 1 && table.nodecount == old(table.nodecount) - 1
  {
    ghost var rest, index := left[1..], table.rep.index - {table.h.canon(left[0].key)};
    FirstLeft(table, left);
    scan.DeletePassed(node);
    assert table.rep.index == index && scan.left == rest;
  }

  // ---------------------------------------------------------------- keeping and removing

  /** The canonical keys of those of the first `n` entries that are chosen. */
  function Chosen(h: Hashing, all: Chain, drop: seq<bool>, n: nat): set<bytes>
    requires n <= |all| && n <= |drop|
  {
    set i | 0 <= i < n && drop[i] :: h.canon(all[i].key)
  }

  /** Scan a table, keeping or taking out each node as it is returned, by any choice: every node is
    returned once, and those not taken out are what the table holds at the end. */
  method Sweep(table: Table, drop: seq<bool>) returns (seen: seq<Node>)
    requires table.Valid() && |drop| >= table.nodecount
    modifies table, table.table, table.rep.nodes`next
    ensures table.Valid() && table.table == old(table.table)
    ensures |seen| == old(table.nodecount) && (set node | node in seen) == old(table.rep.nodes)
    ensures forall i, j :: 0 <= i < j < |seen| ==> seen[i] != seen[j]
    ensures table.rep.index
         == old(table.rep.index) - set i | 0 <= i < |seen| && drop[i] :: table.h.canon(seen[i].key)
  {
    ghost var all := Flat(table.rep.chains);
    FlatLists(table.h, table.rep.chains, table.rep.index);
    AllNodes(table);
    seen := SweepList(table, drop, all);
    forall i | 0 <= i < |seen| ensures seen[i].key == all[i].key {
      assert all[i].node in old(table.rep.nodes);
      assert all[i].node.key == old(all[i].node.key);
    }
    ChosenKeys(table.h, all, seen, drop);
  }

  lemma ChosenKeys(h: Hashing, all: Chain, seen: seq<Node>, drop: seq<bool>)
    requires |all| == |seen| <= |drop|
    requires forall i :: 0 <= i < |seen| ==> seen[i] == all[i].node && seen[i].key == all[i].key
    ensures (set i | 0 <= i < |seen| && drop[i] :: h.canon(seen[i].key)) == Chosen(h, all, drop, |all|)
    ensures (set node | node in seen) == Nodes(all)
  {
    forall node | node in Nodes(all) ensures node in seen {
      var i :| 0 <= i < |all| && all[i].node == node;
      assert seen[i] == node;
    }
  }

  /** The scan of that: it meets the entries of the chains in order. */
  method SweepList(table: Table, drop: seq<bool>, ghost all: Chain) returns (seen: seq<Node>)
    requires table.Valid() && |drop| >= |all|
    requires all == Flat(table.rep.chains) && LeftIn(table.h, table.rep.index, all)
    modifies table, table.table, table.rep.nodes`next
    ensures table.Valid() && table.table == old(table.table)
    ensures |seen| == |all| && forall i :: 0 <= i < |seen| ==> seen[i] == all[i].node
    ensures table.rep.index == old(table.rep.index) - Chosen(table.h, all, drop, |all|)
  {
    ghost var left, was := all, table.rep.index;
    var scan := new Scan(table);
    var node := scan.Next();
    seen := [];
    while node != null
      invariant table.table == old(table.table) && table.rep.nodes <= old(table.rep.nodes)
      invariant Sweeping(scan, table, node, left)
      invariant SweptTo(table.h, all, drop, was, table.rep.index, left, seen)
      decreases |left|
    {
      node, seen := SweepOne(scan, table, node, drop, seen, all, was, left);
      left := left[1..];
    }
  }

  /** One round of that. */
  method SweepOne(scan: Scan, table: Table, node: Node, drop: seq<bool>, seen: seq<Node>,
                  ghost all: Chain, ghost was: Index, ghost left: Chain)
    returns (node': Node?, seen': seq<Node>)
    requires Sweeping(scan, table, node, left) && SweptTo(table.h, all, drop, was, table.rep.index, left, seen)
    modifies scan, table, table.table, table.rep.nodes`next
    ensures left != [] && Sweeping(scan, table, node', left[1..])
    ensures table.table == old(table.table) && table.rep.nodes <= old(table.rep.nodes)
    ensures SweptTo(table.h, all, drop, was, table.rep.index, left[1..], seen')
  {
    SweptMore(table.h, all, drop, was, table.rep.index, left, seen);
    node' := SweepNext(scan, table, node, drop[|seen|], left);
    seen' := seen + [node];
  }

  /** The first entries are seen, and those chosen of them are out of the index. */
  ghost predicate SweptTo(h: Hashing, all: Chain, drop: seq<bool>, was: Index, index: Index, left: Chain,
                          seen: seq<Node>) {
    && |seen| <= |all| <= |drop| && (forall i :: 0 <= i < |seen| ==> seen[i] == all[i].node)
    && left == all[|seen|..] && index == was - Chosen(h, all, drop, |seen|)
  }

  lemma SweptMore(h: Hashing, all: Chain, drop: seq<bool>, was: Index, index: Index, left: Chain, seen: seq<Node>)
    requires SweptTo(h, all, drop, was, index, left, seen) && left != []
    ensures |seen| < |all|
    ensures SweptTo(h, all, drop, was, index - if drop[|seen|] then {h.canon(left[0].key)} else {}, left[1..],
                    seen + [left[0].node])
  {
    var n := |seen|;
    assert left[0] == all[n];
    var more := if drop[n] then {h.canon(all[n].key)} else {};
    assert Chosen(h, all, drop, n + 1) == Chosen(h, all, drop, n) + more;
  }

  /** The flat chains hold every node in use once, under the key in the node. */
  lemma AllNodes(table: Table)
    requires table.Valid()
    ensures var all := Flat(table.rep.chains);
      && |all| == table.nodecount && Nodes(all) == table.rep.nodes
      && (forall i, j :: 0 <= i < j < |all| ==> all[i].node != all[j].node)
      && (forall i :: 0 <= i < |all| ==> all[i].node.key == all[i].key)
  {
    var all, index := Flat(table.rep.chains), table.rep.index;
    FlatLists(table.h, table.rep.chains, index);
    FlatTotal(table.rep.chains);
    forall i | 0 <= i < |all|
      ensures all[i].node in table.rep.nodes && all[i].node.key == all[i].key
      ensures forall j :: 0 <= j < |all| && j != i ==> all[j].node != all[i].node
    {
      LeftNode(table, all, i);
    }
    forall node | node in table.rep.nodes ensures node in Nodes(all) {
      var c, i := NodeEntry(table.table, table.h, table.rep.chains, index, table.rep.nodes, node);
      FlatMembers(table.rep.chains, table.rep.chains[c][i]);
    }
  }

  lemma {:induction false} FlatTotal(chains: Chains)
    ensures |Flat(chains)| == Total(chains)
  {
    if chains != [] {
      FlatTotal(chains[1..]);
      TotalConcat([chains[0]], chains[1..]);
      assert chains == [chains[0]] + chains[1..] && [chains[0]][..0] == [];
    }
  }
}
