/** The extendible hash table: linked chains in an array that doubles when the load passes two
  and halves when it falls to one half. */
module HashTable {
  import opened Bytes
  import opened Seals
  import opened HashChains

  const INIT_SIZE := 64

  function Head(chain: Chain, i: nat): Node? {
    if i < |chain| then chain[i].node else null
  }

  /** The node of the `i`th entry carries it and points to the next one. */
  ghost predicate Carries(chain: Chain, i: nat)
    requires i < |chain|
    reads Nodes(chain)`next, Nodes(chain)`key, Nodes(chain)`hkey
  {
    var e := chain[i];
    assert e in chain;
    e.node.next == Head(chain, i + 1) && e.node.hkey == e.hkey && e.node.key == e.key
  }

  /** `head` starts a null-terminated list of nodes that carries `chain`. */
  ghost predicate Linked(head: Node?, chain: Chain)
    reads Nodes(chain)`next, Nodes(chain)`key, Nodes(chain)`hkey
  {
    && head == Head(chain, 0)
    && forall i :: 0 <= i < |chain| ==> Carries(chain, i)
  }

  predicate NodesDiffer(chain: Chain) {
    forall i, j :: 0 <= i < j < |chain| ==> chain[i].node != chain[j].node
  }

  lemma LinkedTail(head: Node?, chain: Chain)
    requires Linked(head, chain) && chain != []
    ensures head == chain[0].node && Linked(head.next, chain[1..])
    ensures head.hkey == chain[0].hkey && head.key == chain[0].key
  {
    assert Carries(chain, 0);
    forall i | 0 <= i < |chain| - 1 ensures Carries(chain[1..], i) {
      assert Carries(chain, i + 1);
    }
  }

  lemma LinkedPush(e: Entry, head: Node?, chain: Chain)
    requires Linked(head, chain) && e.node.next == head
    requires e.node.hkey == e.hkey && e.node.key == e.key
    ensures Linked(e.node, [e] + chain)
  {
    var longer := [e] + chain;
    forall i | 0 <= i < |longer| ensures Carries(longer, i) {
      if i > 0 {
        assert Carries(chain, i - 1);
      }
    }
  }

  /** The inner loop of `grow_table`: sort a chain's nodes by their exposed bit, pushing each in
    front of its side. */
  method SplitChain(head: Node?, n: nat, ghost chain: Chain) returns (low: Node?, high: Node?, ghost steps: nat)
    requires n > 0 && NodesDiffer(chain) && Linked(head, chain)
    modifies Nodes(chain)`next
    ensures Linked(low, Side(chain, n, false)) && Linked(high, Side(chain, n, true))
    ensures steps == |chain|
  {
    low, high, steps := null, null, 0;
    var hptr := head;
    ghost var rest: Chain, lo: Chain, hi: Chain := chain, [], [];
    while hptr != null
      invariant steps <= |chain| && rest == chain[steps..]
      invariant lo == Side(chain[..steps], n, false) && hi == Side(chain[..steps], n, true)
      invariant Linked(hptr, rest) && Linked(low, lo) && Linked(high, hi)
      decreases |chain| - steps
    {
      SideMore(chain, steps, n);
      hptr, low, high, lo, hi := SplitNode(hptr, low, high, n, chain, steps, rest, lo, hi);
      rest := rest[1..];
      steps := steps + 1;
    }
    assert chain[..steps] == chain;
  }

  /** One round of that: push a node in front of its side. */
  method SplitNode(hptr: Node, low: Node?, high: Node?, n: nat, ghost chain: Chain, ghost i: nat,
                   ghost rest: Chain, ghost lo: Chain, ghost hi: Chain)
    returns (next: Node?, low': Node?, high': Node?, ghost lo': Chain, ghost hi': Chain)
    requires n > 0 && NodesDiffer(chain) && i < |chain| && rest == chain[i..]
    requires lo == Side(chain[..i], n, false) && hi == Side(chain[..i], n, true)
    requires Linked(hptr, rest) && Linked(low, lo) && Linked(high, hi)
    modifies Nodes(chain)`next
    ensures Linked(next, rest[1..]) && Linked(low', lo') && Linked(high', hi')
    ensures lo' == (if Exposed(rest[0], n) then lo else [rest[0]] + lo)
    ensures hi' == (if Exposed(rest[0], n) then [rest[0]] + hi else hi)
  {
    ghost var e := rest[0];
    next, low', high', lo', hi' := hptr.next, low, high, lo, hi;
    LinkedTail(hptr, rest);
    SideApart(chain, i, n, false);
    SideApart(chain, i, n, true);
    assert rest[1..] == chain[i + 1..];
    if (hptr.hkey / n) % 2 == 1 {
      hptr.next := high;
      LinkedPush(e, high, hi);
      high' := hptr;
      hi' := [e] + hi;
    } else {
      hptr.next := low;
      LinkedPush(e, low, lo);
      low' := hptr;
      lo' := [e] + lo;
    }
  }

  /** One entry more goes in front of its side. */
  lemma SideMore(chain: Chain, i: nat, n: nat)
    requires n > 0 && i < |chain|
    ensures forall high ::
      Side(chain[..i + 1], n, high)
      == if Exposed(chain[i], n) == high then [chain[i]] + Side(chain[..i], n, high) else Side(chain[..i], n, high)
    ensures chain[i..][1..] == chain[i + 1..]
  {
    assert chain[..i + 1][..i] == chain[..i];
  }

  /** The node at `i` is in neither side of the entries before it, nor in the entries after it. */
  lemma SideApart(chain: Chain, i: nat, n: nat, high: bool)
    requires n > 0 && NodesDiffer(chain) && i < |chain|
    ensures chain[i] in chain && Nodes(chain[i + 1..]) <= Nodes(chain) - {chain[i].node}
    ensures Nodes(Side(chain[..i], n, high)) <= Nodes(chain) - {chain[i].node}
  {
    forall e | e in Side(chain[..i], n, high) ensures e in chain && e.node != chain[i].node {
      SideMembers(chain[..i], n, high, e);
      assert e in chain[..i];
    }
    forall e | e in chain[i + 1..] ensures e in chain && e.node != chain[i].node {
      var j :| 0 <= j < |chain| - i - 1 && chain[i + 1..][j] == e;
      assert chain[i + 1 + j] == e;
    }
  }

  /** One round of `shrink_table`: hang the high chain behind the last node of the low one. */
  method Splice(low: Node?, high: Node?, ghost a: Chain, ghost b: Chain) returns (head: Node?, ghost steps: nat)
    requires Linked(low, a) && Linked(high, b) && NodesDiffer(a) && Nodes(a) !! Nodes(b)
    modifies Nodes(a)`next
    ensures Linked(head, a + b) && steps == |a|
  {
    steps := 0;
    if low != null {
      var tail := low;
      assert Carries(a, 0);
      while tail.next != null
        invariant steps < |a| && tail == a[steps].node && a[steps] in a
        invariant Linked(low, a)
        decreases |a| - steps
      {
        assert Carries(a, steps);
        tail := tail.next;
        steps := steps + 1;
      }
      assert Carries(a, steps);
      assert steps == |a| - 1;
      ghost var c := a + b;
      tail.next := high;
      forall i | 0 <= i < |c| ensures Carries(c, i) {
        if i < |a| - 1 {
          assert old(Carries(a, i)) && a[i] in a && a[i].node != tail;
        } else if i >= |a| {
          assert old(Carries(b, i - |a|)) && b[i - |a|] in b;
        }
      }
      return low, steps + 1;
    } else {
      assert a + b == b;
      return high, 0;
    }
  }

  /** A dynamic table's sizes: 64 doubled any number of times. */
  predicate IsSize(n: nat) {
    n == INIT_SIZE || (n > INIT_SIZE && n % 2 == 0 && IsSize(n / 2))
  }

  /** Resizing work saved up: a table far from a load of one has seen that many calls since it
    was last resized. */
  function Saved(count: nat, n: nat): nat {
    if count >= n then 3 * (count - n) else if n <= 2 * INIT_SIZE then 0 else 3 * (n - count)
  }

  /** A table of `n` places with the contents of `table` as far as they go. */
  method Realloc(table: array<Node?>, n: nat) returns (newtable: array<Node?>)
    ensures fresh(newtable) && newtable.Length == n
    ensures forall c :: 0 <= c < n ==> newtable[c] == if c < table.Length then table[c] else null
  {
    newtable := new Node?[n](_ => null);
    var c := 0;
    while c < n && c < table.Length
      invariant 0 <= c <= n && c <= table.Length
      invariant forall d :: 0 <= d < n ==> newtable[d] == if d < c then table[d] else null
    {
      newtable[c] := table[c];
      c := c + 1;
    }
  }

  /** The sizes, marks and mask of a dynamic table, and the bound on its resizing work. */
  ghost predicate Sizes(nchains: nat, mask: nat, lowmark: nat, highmark: nat, nodecount: nat, calls: nat, work: nat) {
    && IsSize(nchains) && mask + 1 == nchains && 2 * lowmark == nchains && highmark == 2 * nchains
    && nodecount <= highmark && work + Saved(nodecount, nchains) <= 3 * calls
  }

  /** What growing costs has been saved up. */
  lemma GrownSizes(nchains: nat, mask: nat, lowmark: nat, highmark: nat, count: nat, calls: nat, work: nat)
    requires Sizes(nchains, mask, lowmark, highmark, count, calls, work) && count == highmark
    ensures Sizes(2 * nchains, 2 * mask + 1, 2 * lowmark, 2 * highmark, count, calls, work + nchains + count)
  {
    var n := nchains;
    SizeEven(n);
    assert (2 * n) / 2 == n && 2 * n % 2 == 0 && 2 * n > INIT_SIZE;
    assert IsSize(2 * n);
    assert Saved(count, n) == 3 * n && Saved(count, 2 * n) == 0;
  }

  /** A call saves up for the resizing to come. */
  lemma InsertSizes(nchains: nat, mask: nat, lowmark: nat, highmark: nat, count: nat, calls: nat, work: nat)
    requires Sizes(nchains, mask, lowmark, highmark, count, calls, work)
    ensures count < highmark ==> Sizes(nchains, mask, lowmark, highmark, count + 1, calls + 1, work)
    ensures count > 0 ==> Sizes(nchains, mask, lowmark, highmark, count - 1, calls + 1, work)
  {
  }

  /** What shrinking costs has been saved up. */
  lemma ShrunkSizes(nchains: nat, mask: nat, lowmark: nat, highmark: nat, count: nat, calls: nat, work: nat,
                    visited: nat)
    requires Sizes(nchains, mask, lowmark, highmark, count, calls, work) && INIT_SIZE < count <= lowmark
    requires visited <= nchains + count
    ensures Sizes(nchains / 2, mask / 2, lowmark / 2, highmark / 2, count, calls, work + visited)
  {
    assert IsSize(nchains / 2);
  }

  lemma SizeEven(n: nat)
    requires IsSize(n)
    ensures n % 2 == 0 && n >= INIT_SIZE
  {
  }

  /** `nodes` are the nodes of the index; looked into only where it is wanted. */
  ghost predicate Owns(nodes: set<Node>, index: Index) {
    forall t {:trigger Wanted(OfNodes, t)} :: Wanted(OfNodes, t) ==> nodes == set k | k in index :: index[k].node
  }

  ghost predicate InChain(chains: Chains, c: nat, i: nat, node: Node) {
    c < |chains| && i < |chains[c]| && chains[c][i].node == node
  }

  /** The chains without the entry at `i` of chain `c`. */
  function Removed(chains: Chains, c: nat, i: nat): Chains
    requires c < |chains| && i < |chains[c]|
  {
    chains[c := Without(chains[c], i)]
  }

  /** The walk along one chain of `hash_lookup`. */
  method FindNode(head: Node?, ghost chain: Chain, h: Hashing, hkey: nat, key: bytes) returns (node: Node?)
    requires Linked(head, chain)
    ensures node == null ==> forall e :: e in chain ==> !(e.hkey == hkey && h.canon(e.key) == h.canon(key))
    ensures node != null ==>
      exists i :: 0 <= i < |chain| && chain[i].node == node && h.canon(chain[i].key) == h.canon(key)
  {
    node := head;
    ghost var i := 0;
    while node != null
      invariant 0 <= i <= |chain| && node == Head(chain, i)
      invariant forall j :: 0 <= j < i ==> !(chain[j].hkey == hkey && h.canon(chain[j].key) == h.canon(key))
      decreases |chain| - i
    {
      assert Carries(chain, i);
      if node.hkey == hkey && h.canon(node.key) == h.canon(key) {
        return;
      }
      node := node.next;
      i := i + 1;
    }
  }

  lemma LookupMeans(h: Hashing, chains: Chains, index: Index, key: bytes, node: Node?)
    requires GoodHashing(h) && Sealed(h, chains, index)
    requires var chain := chains[h.hash(key) % |chains|];
      && (node == null ==> forall e :: e in chain ==> !(e.hkey == h.hash(key) && h.canon(e.key) == h.canon(key)))
      && (node != null ==>
        exists i :: 0 <= i < |chain| && chain[i].node == node && h.canon(chain[i].key) == h.canon(key))
    ensures node == if h.canon(key) in index then index[h.canon(key)].node else null
  {
    Unseal(h, chains, index);
    var c := h.hash(key) % |chains|;
    if node != null {
      var i :| 0 <= i < |chains[c]| && chains[c][i].node == node && h.canon(chains[c][i].key) == h.canon(key);
      FoundIsIndexed(h, chains, index, key, c, i);
    } else if h.canon(key) in index {
      IndexedIsChained(h, chains, index, key);
    }
  }

  /** The nodes in the lower half of the chains, which shrinking walks along. */
  function LowerHalf(chains: Chains): nat {
    Total(chains[..|chains| / 2])
  }

  /** What a table stands for: its chains, the index they represent, the nodes in use, the
    calls of insert and delete so far, and the chain slots and nodes resizing has visited. */
  datatype Rep = Rep(chains: Chains, index: Index, nodes: set<Node>, calls: nat, work: nat)

  class Table {
    const h: Hashing
    const maxcount: nat
    var table: array<Node?>
    var nchains: nat
    var nodecount: nat
    var lowmark: nat
    var highmark: nat
    var mask: nat

    /** What the table stands for. */
    ghost var rep: Rep

    ghost predicate Valid()
      reads this, table, rep.nodes`next, rep.nodes`key, rep.nodes`hkey
    {
      && GoodHashing(h)
      && Sizes(nchains, mask, lowmark, highmark, nodecount, rep.calls, rep.work)
      && nchains == |rep.chains| && nodecount == |rep.index| == Total(rep.chains)
      && Stored(table, rep.chains, rep.nodes)
      && Sealed(h, rep.chains, rep.index)
      && Owns(rep.nodes, rep.index)
    }

    /** `hash_create`. */
    constructor (h: Hashing, maxcount: nat)
      requires GoodHashing(h)
      ensures Valid() && fresh(table) && this.h == h && this.maxcount == maxcount
      ensures rep.index == map[] && rep.nodes == {} && rep.calls == 0 && rep.work == 0
    {
      this.h := h;
      this.maxcount := maxcount;
      table := new Node?[INIT_SIZE](_ => null);
      nchains := INIT_SIZE;
      nodecount := 0;
      lowmark := INIT_SIZE / 2;
      highmark := INIT_SIZE * 2;
      mask := INIT_SIZE - 1;
      rep := Rep(seq(INIT_SIZE, _ => []), map[], {}, 0, 0);
      new;
      TotalEmpty(rep.chains);
    }

    /** `hash_lookup`: the node of the key, or null when the index does not have it. */
    method Lookup(key: bytes) returns (node: Node?)
      requires Valid()
      ensures node == if h.canon(key) in rep.index then rep.index[h.canon(key)].node else null
    {
      var hkey := h.hash(key);
      var c := hkey % (mask + 1);
      OpenStored(table, rep.chains, rep.nodes);
      node := FindNode(table[c], rep.chains[c], h, hkey, key);
      LookupMeans(h, rep.chains, rep.index, key, node);
    }

    /** `hash_insert`: the node joins the table under a new key; the table may grow first. */
    method Insert(node: Node, key: bytes)
      requires Valid() && node !in rep.nodes && node.next == null
      requires nodecount < maxcount && h.canon(key) !in rep.index
      modifies this, table, rep.nodes`next, node`next, node`key, node`hkey
      ensures Valid() && (table == old(table) || fresh(table))
      ensures rep.index == old(rep.index)[h.canon(key) := Entry(node, h.hash(key), key)]
      ensures rep.nodes == old(rep.nodes) + {node} && rep.calls == old(rep.calls) + 1
      ensures rep.work == old(rep.work) + old(if nodecount >= highmark then nchains + nodecount else 0)
    {
      if nodecount >= highmark {
        GrowTable();
      }
      InsertHere(node, key);
    }

    /** The part of `hash_insert` after growing. */
    method InsertHere(node: Node, key: bytes)
      requires Valid() && node !in rep.nodes
      requires nodecount < highmark && h.canon(key) !in rep.index
      modifies this, table, node`next, node`key, node`hkey
      ensures Valid() && table == old(table)
      ensures rep.index == old(rep.index)[h.canon(key) := Entry(node, h.hash(key), key)]
      ensures rep.nodes == old(rep.nodes) + {node} && rep.calls == old(rep.calls) + 1 && rep.work == old(rep.work)
    {
      var hkey := h.hash(key);
      var chain := hkey % (mask + 1);
      ghost var e := Entry(node, hkey, key);
      ghost var chains' := rep.chains[chain := [e] + rep.chains[chain]];
      ghost var index' := rep.index[h.canon(key) := e];
      InsertSealed(h, rep.chains, rep.index, rep.nodes, e, chains', index');
      InsertSizes(nchains, mask, lowmark, highmark, nodecount, rep.calls, rep.work);
      PushNode(table, chain, node, key, hkey, rep.chains, rep.nodes);
      nodecount := nodecount + 1;
      rep := Rep(chains', index', rep.nodes + {node}, rep.calls + 1, rep.work);
    }

    /** `hash_delete`: the node leaves the table; the table may shrink first. */
    method Delete(node: Node)
      requires Valid() && node in rep.nodes
      modifies this, table, rep.nodes`next
      ensures Valid() && (table == old(table) || fresh(table)) && node.next == null
      ensures rep.index == old(rep.index) - {h.canon(node.key)} && rep.nodes == old(rep.nodes) - {node}
      ensures rep.calls == old(rep.calls) + 1
      ensures rep.work == old(rep.work) +
        old(if nodecount <= lowmark && nodecount > INIT_SIZE then nchains + LowerHalf(rep.chains) else 0)
    {
      if nodecount <= lowmark && nodecount > INIT_SIZE {
        ShrinkTable();
      }
      ghost var at := ScanDelete(node);
    }

    /** `hash_scan_delete`: the same without shrinking. */
    method ScanDelete(node: Node) returns (ghost at: nat)
      requires Valid() && node in rep.nodes
      modifies this, table, rep.nodes`next
      ensures Valid() && table == old(table) && node.next == null && nchains == old(nchains)
      ensures rep.index == old(rep.index) - {h.canon(node.key)} && rep.nodes == old(rep.nodes) - {node}
      ensures rep.calls == old(rep.calls) + 1 && rep.work == old(rep.work) && nodecount == old(nodecount) - 1
      ensures InChain(old(rep.chains), node.hkey % nchains, at, node)
      ensures rep.chains == Removed(old(rep.chains), node.hkey % nchains, at)
    {
      ghost var c0;
      c0, at := NodeEntry(table, h, rep.chains, rep.index, rep.nodes, node);
      RemoveSealed(h, rep.chains, rep.index, rep.nodes, c0, at);
      ghost var chains, nodes := Removed(rep.chains, c0, at), rep.nodes - {node};
      ghost var index := rep.index - {h.canon(node.key)};
      InsertSizes(nchains, mask, lowmark, highmark, nodecount, rep.calls, rep.work);
      var chain := node.hkey % (mask + 1);
      UnlinkNode(table, chain, node, rep.chains, at, rep.nodes);
      nodecount := nodecount - 1;
      rep := Rep(chains, index, nodes, rep.calls + 1, rep.work);
    }

    /** `grow_table`. */
    method GrowTable()
      requires Valid() && nodecount == highmark
      modifies this, rep.nodes`next
      ensures Valid() && fresh(table)
      ensures rep.index == old(rep.index) && rep.nodes == old(rep.nodes) && rep.calls == old(rep.calls)
        && nodecount == old(nodecount)
      ensures nchains == 2 * old(nchains) && rep.work == old(rep.work) + old(nchains) + nodecount
    {
      GrownSizes(nchains, mask, lowmark, highmark, nodecount, rep.calls, rep.work);
      ghost var visited, split;
      table, visited, split := GrowArray(table, nchains, h, rep.chains, rep.index, rep.nodes);
      rep := rep.(chains := split, work := rep.work + visited);
      mask := 2 * mask + 1;
      nchains := 2 * nchains;
      lowmark := 2 * lowmark;
      highmark := 2 * highmark;
    }

    /** `shrink_table`. */
    method ShrinkTable()
      requires Valid() && nodecount <= lowmark && nodecount > INIT_SIZE
      modifies this, table, rep.nodes`next
      ensures Valid() && fresh(table)
      ensures rep.index == old(rep.index) && rep.nodes == old(rep.nodes) && rep.calls == old(rep.calls)
        && nodecount == old(nodecount)
      ensures 2 * nchains == old(nchains) && rep.work == old(rep.work) + old(nchains + LowerHalf(rep.chains))
    {
      ghost var visited, joined;
      TotalPrefix(rep.chains, nchains / 2);
      SizeEven(nchains);
      table, visited, joined := ShrinkArray(table, nchains / 2, h, rep.chains, rep.index, rep.nodes);
      ShrunkSizes(nchains, mask, lowmark, highmark, nodecount, rep.calls, rep.work, visited);
      rep := rep.(chains := joined, work := rep.work + visited);
      mask := mask / 2;
      nchains := nchains / 2;
      lowmark := lowmark / 2;
      highmark := highmark / 2;
    }
  }

  /** The part of `shrink_table` that makes the smaller table. */
  method ShrinkArray(table: array<Node?>, n: nat, ghost h: Hashing, ghost chains: Chains, ghost index: Index,
                     ghost nodes: set<Node>)
    returns (newtable: array<Node?>, ghost visited: nat, ghost joined: Chains)
    requires n > 0 && 2 * n == |chains| && Stored(table, chains, nodes) && Sealed(h, chains, index)
    modifies table, nodes`next
    ensures fresh(newtable) && |joined| == n && Stored(newtable, joined, nodes) && Sealed(h, joined, index)
    ensures Total(joined) == Total(chains) && visited == 2 * n + Total(chains[..n])
  {
    ShrunkSealed(h, chains, index);
    OpenStored(table, chains, nodes);
    joined := Shrunk(chains);
    visited := ShrinkChains(table, n, chains, nodes);
    newtable := Realloc(table, n);
  }

  /** The loop of `shrink_table` over the chains. */
  method ShrinkChains(table: array<Node?>, n: nat, ghost chains: Chains, ghost nodes: set<Node>)
    returns (ghost visited: nat)
    requires n > 0 && 2 * n == |chains| && LinkedAll(table, chains, nodes) && Apart(chains)
    modifies table, nodes`next
    ensures forall c :: 0 <= c < n ==> Nodes(Shrunk(chains)[c]) <= nodes && Linked(table[c], Shrunk(chains)[c])
    ensures visited == 2 * n + Total(chains[..n])
  {
    var chain := 0;
    visited := 0;
    ghost var cur := chains;
    while chain < n
      invariant 0 <= chain <= n && JoinedTo(cur, chains, n, chain)
      invariant visited == 2 * chain + Total(chains[..chain])
      invariant LinkedBut(table, cur, nodes, n, chain) && Apart(cur)
    {
      JoinStep(cur, chains, n, chain);
      ghost var steps := ShrinkChain(table, n, chain, cur, nodes);
      cur := JoinUp(cur, n, chain);
      assert chains[..chain + 1][..chain] == chains[..chain];
      visited := visited + 2 + steps;
      chain := chain + 1;
    }
  }

  /** The first `chain` pairs are joined, the others are not. */
  ghost predicate JoinedTo(cur: Chains, chains: Chains, n: nat, chain: nat)
    requires |chains| == 2 * n
  {
    && |cur| == 2 * n
    && (forall c :: 0 <= c < chain && c < n ==> cur[c] == Shrunk(chains)[c])
    && (forall c :: chain <= c < n || n + chain <= c < 2 * n ==> cur[c] == chains[c])
  }

  lemma JoinStep(cur: Chains, chains: Chains, n: nat, chain: nat)
    requires n > 0 && |chains| == 2 * n && chain < n && JoinedTo(cur, chains, n, chain)
    ensures JoinedTo(JoinUp(cur, n, chain), chains, n, chain + 1)
    ensures cur[chain] == chains[chain]
  {
  }

  lemma TotalPrefix(chains: Chains, n: nat)
    requires n <= |chains|
    ensures Total(chains[..n]) <= Total(chains)
  {
    assert chains == chains[..n] + chains[n..];
    TotalConcat(chains[..n], chains[n..]);
  }

  /** The chains with the one `n` higher hung behind chain `c`. */
  function JoinUp(chains: Chains, n: nat, c: nat): Chains
    requires n > 0 && |chains| == 2 * n && c < n
  {
    chains[c := chains[c] + chains[c + n]][c + n := []]
  }

  /** Every place starts its list, but for the first `chain` ones of the upper half. */
  ghost predicate LinkedBut(table: array<Node?>, chains: Chains, nodes: set<Node>, n: nat, chain: nat)
    reads table, nodes`next, nodes`key, nodes`hkey
  {
    && table.Length == |chains|
    && forall c :: 0 <= c < |chains| && !(n <= c < n + chain) ==>
         Nodes(chains[c]) <= nodes && Linked(table[c], chains[c])
  }

  /** One round of the loop of `shrink_table`. */
  method ShrinkChain(table: array<Node?>, n: nat, chain: nat, ghost cur: Chains, ghost nodes: set<Node>)
    returns (ghost steps: nat)
    requires n > 0 && |cur| == 2 * n && chain < n
    requires LinkedBut(table, cur, nodes, n, chain) && Apart(cur)
    modifies table, nodes`next
    ensures LinkedBut(table, JoinUp(cur, n, chain), nodes, n, chain + 1) && Apart(JoinUp(cur, n, chain))
    ensures steps == |cur[chain]|
  {
    JoinApart(cur, n, chain);
    var head;
    head, steps := Splice(table[chain], table[chain + n], cur[chain], cur[chain + n]);
    table[chain] := head;
  }

  lemma JoinApart(cur: Chains, n: nat, chain: nat)
    requires n > 0 && |cur| == 2 * n && chain < n && Apart(cur)
    ensures Apart(JoinUp(cur, n, chain))
    ensures Nodes(cur[chain] + cur[chain + n]) == Nodes(cur[chain]) + Nodes(cur[chain + n])
  {
    var a, b := cur[chain], cur[chain + n];
    var ab: Chain := a + b;
    forall i, j | 0 <= i < j < |ab| ensures ab[i].node != ab[j].node {
      if i < |a| <= j {
        assert a[i].node in Nodes(a) && b[j - |a|].node in Nodes(b);
      }
    }
    assert Nodes(a + b) == Nodes(a) + Nodes(b);
  }

  lemma ShrunkSealed(h: Hashing, chains: Chains, index: Index)
    requires Sealed(h, chains, index) && |chains| % 2 == 0
    ensures Sealed(h, Shrunk(chains), index) && Apart(chains) && Total(Shrunk(chains)) == Total(chains)
  {
    Unseal(h, chains, index);
    RepresentsApart(h, chains, index);
    ShrunkRepresents(h, chains, index);
    ShrunkTotal(chains);
  }

  /** The part of `grow_table` that makes the new table. */
  method GrowArray(table: array<Node?>, n: nat, ghost h: Hashing, ghost chains: Chains, ghost index: Index,
                   ghost nodes: set<Node>)
    returns (newtable: array<Node?>, ghost visited: nat, ghost split: Chains)
    requires n == |chains| && Stored(table, chains, nodes) && Sealed(h, chains, index)
    modifies nodes`next
    ensures fresh(newtable) && |split| == 2 * n && Stored(newtable, split, nodes) && Sealed(h, split, index)
    ensures Total(split) == Total(chains) && visited == n + Total(chains)
  {
    GrownSealed(h, chains, index);
    OpenStored(table, chains, nodes);
    newtable := Realloc(table, 2 * n);
    visited := GrowChains(newtable, n, chains, nodes);
    split := Grown(chains);
  }

  /** Every place of the table starts the list that carries its chain. */
  ghost predicate LinkedAll(table: array<Node?>, chains: Chains, nodes: set<Node>)
    reads table, nodes`next, nodes`key, nodes`hkey
  {
    && table.Length == |chains|
    && forall c :: 0 <= c < |chains| ==> Nodes(chains[c]) <= nodes && Linked(table[c], chains[c])
  }

  /** The same, looked into only where it is wanted. */
  ghost predicate Stored(table: array<Node?>, chains: Chains, nodes: set<Node>)
    reads table, nodes`next, nodes`key, nodes`hkey
  {
    forall t {:trigger Wanted(OfLinks, t)} :: Wanted(OfLinks, t) ==> LinkedAll(table, chains, nodes)
  }

  lemma OpenStored(table: array<Node?>, chains: Chains, nodes: set<Node>)
    requires Stored(table, chains, nodes)
    ensures LinkedAll(table, chains, nodes)
  {
    assert Wanted(OfLinks, 0);
  }

  /** No chain shares a node with another one, or has one twice. */
  ghost predicate Apart(chains: Chains) {
    && (forall c :: 0 <= c < |chains| ==> NodesDiffer(chains[c]))
    && (forall c, d :: 0 <= c < |chains| && 0 <= d < |chains| && c != d ==> Nodes(chains[c]) !! Nodes(chains[d]))
  }

  lemma RepresentsApart(h: Hashing, chains: Chains, index: Index)
    requires Represents(h, chains, index)
    ensures Apart(chains)
  {
    forall c, d | 0 <= c < |chains| && 0 <= d < |chains| && c != d
      ensures Nodes(chains[c]) !! Nodes(chains[d])
    {
      ChainsApart(h, chains, index, c, d);
    }
    forall c | 0 <= c < |chains| ensures NodesDiffer(chains[c]) {
      forall i, j | 0 <= i < j < |chains[c]| ensures chains[c][i].node != chains[c][j].node {
        ChainNodes(h, chains, index, c, i, j);
      }
    }
  }

  lemma GrownSealed(h: Hashing, chains: Chains, index: Index)
    requires Sealed(h, chains, index)
    ensures Sealed(h, Grown(chains), index) && Apart(chains) && Total(Grown(chains)) == Total(chains)
  {
    Unseal(h, chains, index);
    RepresentsApart(h, chains, index);
    GrownRepresents(h, chains, index);
    GrownTotal(chains);
  }

  /** The loop of `grow_table` over the chains. */
  method GrowChains(table: array<Node?>, n: nat, ghost all: Chains, ghost nodes: set<Node>) returns (ghost visited: nat)
    requires n > 0 && table.Length == 2 * n && |all| == n && Apart(all)
    requires forall c :: 0 <= c < n ==> Nodes(all[c]) <= nodes && Linked(table[c], all[c])
    requires forall c :: n <= c < 2 * n ==> table[c] == null
    modifies table, nodes`next
    ensures LinkedAll(table, Grown(all), nodes) && visited == n + Total(all)
  {
    var chain := 0;
    visited := 0;
    ghost var cur: Chains := all + seq(n, _ => []);
    while chain < n
      invariant 0 <= chain <= n && SplitTo(cur, all, n, chain)
      invariant visited == chain + Total(all[..chain])
      invariant LinkedAll(table, cur, nodes) && Apart(cur)
    {
      SplitStep(cur, all, n, chain);
      ghost var steps := GrowChain(table, n, chain, cur, nodes);
      cur := SplitUp(cur, n, chain);
      assert all[..chain + 1][..chain] == all[..chain];
      visited := visited + 1 + steps;
      chain := chain + 1;
    }
    assert all[..n] == all;
    assert cur == Grown(all);
  }

  /** The first `chain` chains are split, the others are not. */
  ghost predicate SplitTo(cur: Chains, all: Chains, n: nat, chain: nat)
    requires n > 0 && |all| == n
  {
    && |cur| == 2 * n
    && (forall c :: 0 <= c < 2 * n && (c < chain || n <= c < n + chain) ==> cur[c] == Grown(all)[c])
    && (forall c :: chain <= c < n ==> cur[c] == all[c])
    && (forall c :: n + chain <= c < 2 * n ==> cur[c] == [])
  }

  lemma SplitStep(cur: Chains, all: Chains, n: nat, chain: nat)
    requires n > 0 && |all| == n && chain < n && SplitTo(cur, all, n, chain)
    ensures SplitTo(SplitUp(cur, n, chain), all, n, chain + 1)
    ensures cur[chain] == all[chain] && cur[chain + n] == []
  {
  }

  /** The chains with chain `c` split between its place and the one `n` higher. */
  function SplitUp(chains: Chains, n: nat, c: nat): Chains
    requires n > 0 && |chains| == 2 * n && c < n
  {
    chains[c := Side(chains[c], n, false)][c + n := Side(chains[c], n, true)]
  }

  lemma SideNodes(chain: Chain, n: nat)
    requires n > 0 && NodesDiffer(chain)
    ensures Nodes(Side(chain, n, false)) <= Nodes(chain) && Nodes(Side(chain, n, true)) <= Nodes(chain)
    ensures Nodes(Side(chain, n, false)) !! Nodes(Side(chain, n, true))
    ensures NodesDiffer(Side(chain, n, false)) && NodesDiffer(Side(chain, n, true))
  {
    forall e | e in Side(chain, n, false) ensures e in chain && !Exposed(e, n) {
      SideMembers(chain, n, false, e);
    }
    forall e | e in Side(chain, n, true) ensures e in chain && Exposed(e, n) {
      SideMembers(chain, n, true, e);
    }
    SideDiffer(chain, n, false);
    SideDiffer(chain, n, true);
    forall e, f | e in Side(chain, n, false) && f in Side(chain, n, true) ensures e.node != f.node {
      assert e in chain && f in chain && e != f;
    }
  }

  lemma {:induction false} SideDiffer(chain: Chain, n: nat, high: bool)
    requires n > 0 && NodesDiffer(chain)
    ensures NodesDiffer(Side(chain, n, high))
  {
    if chain != [] {
      var last := |chain| - 1;
      SideDiffer(chain[..last], n, high);
      forall e | e in Side(chain[..last], n, high) ensures e.node != chain[last].node {
        SideMembers(chain[..last], n, high, e);
        assert e in chain[..last];
      }
    }
  }

  lemma SplitApart(cur: Chains, n: nat, chain: nat)
    requires n > 0 && |cur| == 2 * n && chain < n && cur[chain + n] == [] && Apart(cur)
    ensures Apart(SplitUp(cur, n, chain))
    ensures Nodes(Side(cur[chain], n, false)) <= Nodes(cur[chain])
    ensures Nodes(Side(cur[chain], n, true)) <= Nodes(cur[chain])
  {
    SideNodes(cur[chain], n);
  }

  /** One round of that loop. */
  method GrowChain(table: array<Node?>, n: nat, chain: nat, ghost cur: Chains, ghost nodes: set<Node>)
    returns (ghost steps: nat)
    requires n > 0 && |cur| == 2 * n && chain < n && cur[chain + n] == []
    requires LinkedAll(table, cur, nodes) && Apart(cur)
    modifies table, nodes`next
    ensures LinkedAll(table, SplitUp(cur, n, chain), nodes) && Apart(SplitUp(cur, n, chain))
    ensures steps == |cur[chain]|
  {
    var low, high;
    SplitApart(cur, n, chain);
    low, high, steps := SplitChain(table[chain], n, cur[chain]);
    table[chain] := low;
    table[chain + n] := high;
    ghost var split := SplitUp(cur, n, chain);
    forall c | 0 <= c < |split| ensures Nodes(split[c]) <= nodes && Linked(table[c], split[c]) {
      if c != chain && c != chain + n {
        assert old(Linked(table[c], cur[c]));
      }
    }
  }

  // ---------------------------------------------------------------- one node

  lemma InsertSealed(h: Hashing, chains: Chains, index: Index, nodes: set<Node>, e: Entry, chains': Chains,
                     index': Index)
    requires Sealed(h, chains, index) && Owns(nodes, index)
    requires e.hkey == h.hash(e.key) && h.canon(e.key) !in index && e.node !in nodes
    requires chains' == chains[e.hkey % |chains| := [e] + chains[e.hkey % |chains|]]
    requires index' == index[h.canon(e.key) := e]
    ensures Sealed(h, chains', index') && Owns(nodes + {e.node}, index')
    ensures Total(chains') == Total(chains) + 1 && |index'| == |index| + 1
  {
    OwnsInsert(h, index, nodes, e);
    Unseal(h, chains, index);
    forall k | k in index ensures index[k].node != e.node {
      OwnsNode(index, nodes, k);
    }
    InsertRepresents(h, chains, index, e);
  }

  lemma OwnsNode(index: Index, nodes: set<Node>, k: bytes)
    requires Owns(nodes, index) && k in index
    ensures index[k].node in nodes
  {
    assert Wanted(OfNodes, 0);
  }

  lemma OwnsInsert(h: Hashing, index: Index, nodes: set<Node>, e: Entry)
    requires Owns(nodes, index) && h.canon(e.key) !in index
    ensures var index' := index[h.canon(e.key) := e];
      Owns(nodes + {e.node}, index') && |index'| == |index| + 1
  {
    assert Wanted(OfNodes, 0);
    var k0 := h.canon(e.key);
    var index' := index[k0 := e];
    forall x ensures x in nodes + {e.node} <==> x in set k | k in index' :: index'[k].node {
      if x in nodes {
        var k :| k in index && index[k].node == x;
        assert k in index' && index'[k].node == x;
      }
      if x == e.node {
        assert k0 in index' && index'[k0].node == x;
      }
    }
    assert index'.Keys == index.Keys + {k0};
  }

  /** Put a node in front of a chain. */
  method PushNode(table: array<Node?>, chain: nat, node: Node, key: bytes, hkey: nat, ghost chains: Chains,
                  ghost nodes: set<Node>)
    requires Stored(table, chains, nodes) && chain < |chains| && node !in nodes
    modifies table, node`next, node`key, node`hkey
    ensures Stored(table, chains[chain := [Entry(node, hkey, key)] + chains[chain]], nodes + {node})
  {
    OpenStored(table, chains, nodes);
    ghost var e := Entry(node, hkey, key);
    ghost var chains' := chains[chain := [e] + chains[chain]];
    node.key := key;
    node.hkey := hkey;
    node.next := table[chain];
    table[chain] := node;
    LinkedPush(e, node.next, chains[chain]);
    assert LinkedAll(table, chains', nodes + {node});
  }

  /** Where a node of the table is, and how the index knows it. */
  lemma NodeEntry(table: array<Node?>, h: Hashing, chains: Chains, index: Index, nodes: set<Node>, node: Node)
    returns (c: nat, i: nat)
    requires Stored(table, chains, nodes) && Sealed(h, chains, index) && Owns(nodes, index) && node in nodes
    ensures c == node.hkey % |chains| && i < |chains[c]| && chains[c][i] == Entry(node, node.hkey, node.key)
    ensures h.canon(node.key) in index && index[h.canon(node.key)] == chains[c][i]
  {
    assert Wanted(OfNodes, 0);
    Unseal(h, chains, index);
    OpenStored(table, chains, nodes);
    var k :| k in index && index[k].node == node;
    var e := index[k];
    assert Findable(h, chains, k, e);
    c := e.hkey % |chains|;
    i :| 0 <= i < |chains[c]| && chains[c][i] == e;
    assert Linked(table[c], chains[c]) && Carries(chains[c], i);
  }

  lemma RemoveSealed(h: Hashing, chains: Chains, index: Index, nodes: set<Node>, c: nat, i: nat)
    requires Sealed(h, chains, index) && Owns(nodes, index) && c < |chains| && i < |chains[c]|
    ensures var e := chains[c][i];
      var chains' := Removed(chains, c, i);
      var k := h.canon(e.key);
      && Sealed(h, chains', index - {k}) && Owns(nodes - {e.node}, index - {k})
      && Total(chains') == Total(chains) - 1 && |index - {k}| == |index| - 1 && Apart(chains)
  {
    Unseal(h, chains, index);
    RemoveRepresents(h, chains, index, c, i);
    RepresentsApart(h, chains, index);
    OwnsRemove(h, chains, index, nodes, chains[c][i]);
  }

  lemma OwnsRemove(h: Hashing, chains: Chains, index: Index, nodes: set<Node>, e: Entry)
    requires Represents(h, chains, index) && Owns(nodes, index)
    requires h.canon(e.key) in index && index[h.canon(e.key)] == e
    ensures var k := h.canon(e.key);
      Owns(nodes - {e.node}, index - {k}) && |index - {k}| == |index| - 1
  {
    assert Wanted(OfNodes, 0);
    var k0 := h.canon(e.key);
    var index' := index - {k0};
    forall x ensures x in nodes - {e.node} <==> x in set k | k in index' :: index'[k].node {
      if x in nodes - {e.node} {
        var k :| k in index && index[k].node == x;
        assert k in index' && index'[k].node == x;
      }
    }
    assert index'.Keys == index.Keys - {k0};
  }

  /** Take a node out of its chain: the chain's head changes, or its predecessor's link. */
  method UnlinkChain(head: Node, node: Node, ghost chain: Chain, ghost i: nat) returns (head': Node?)
    requires Linked(head, chain) && NodesDiffer(chain) && i < |chain| && chain[i].node == node
    modifies Nodes(chain)`next
    ensures Linked(head', Without(chain, i)) && node.next == null
  {
    ghost var rest := Without(chain, i);
    assert Carries(chain, i) && Carries(chain, 0);
    if head == node {
      head' := node.next;
      assert i == 0;
      node.next := null;
      forall j | 0 <= j < |rest| ensures Carries(rest, j) {
        assert old(Carries(chain, j + 1)) && rest[j] == chain[j + 1] && chain[j + 1] in chain;
      }
    } else {
      head' := head;
      var hptr := FindBefore(head, node, chain, i);
      hptr.next := node.next;
      node.next := null;
      assert |rest| == |chain| - 1;
      forall j | 0 <= j < |rest| ensures Carries(rest, j) {
        if j < i {
          assert old(Carries(chain, j)) && rest[j] == chain[j] && chain[j] in chain;
        } else {
          assert old(Carries(chain, j + 1)) && rest[j] == chain[j + 1] && chain[j + 1] in chain;
        }
      }
    }
  }

  /** Walk to the predecessor of a node that is not the first. */
  method FindBefore(head: Node, node: Node, ghost chain: Chain, ghost i: nat) returns (hptr: Node)
    requires Linked(head, chain) && NodesDiffer(chain) && 0 < i < |chain| && chain[i].node == node
    ensures hptr == chain[i - 1].node
  {
    hptr := head;
    ghost var j := 0;
    assert Carries(chain, 0);
    while hptr.next != node
      invariant j < i && hptr == chain[j].node && Carries(chain, j)
      decreases i - j
    {
      hptr := hptr.next;
      j := j + 1;
      assert Carries(chain, j);
    }
    assert chain[j + 1].node == node;
  }

  lemma WithoutNodes(chain: Chain, i: nat)
    requires NodesDiffer(chain) && i < |chain|
    ensures Nodes(Without(chain, i)) == Nodes(chain) - {chain[i].node}
  {
    forall e ensures e in Without(chain, i) <==> e in chain && e.node != chain[i].node {
      WithoutEntry(chain, i, e);
    }
  }

  lemma WithoutEntry(chain: Chain, i: nat, e: Entry)
    requires NodesDiffer(chain) && i < |chain|
    ensures e in Without(chain, i) <==> e in chain && e.node != chain[i].node
  {
    var rest := Without(chain, i);
    if e in rest {
      var j :| 0 <= j < |rest| && rest[j] == e;
      assert e == chain[if j < i then j else j + 1];
    }
    if e in chain && e.node != chain[i].node {
      var j :| 0 <= j < |chain| && chain[j] == e;
      assert e == rest[if j < i then j else j - 1];
    }
  }

  /** The same in a table. */
  method UnlinkNode(table: array<Node?>, c: nat, node: Node, ghost chains: Chains, ghost i: nat, ghost nodes: set<Node>)
    requires Stored(table, chains, nodes) && Apart(chains)
    requires c < |chains| && i < |chains[c]| && chains[c][i].node == node
    modifies table, nodes`next
    ensures Stored(table, Removed(chains, c, i), nodes - {node}) && node.next == null
  {
    OpenStored(table, chains, nodes);
    assert chains[c][i] in chains[c];
    assert node in Nodes(chains[c]);
    WithoutNodes(chains[c], i);
    ghost var chains' := Removed(chains, c, i);
    assert Linked(table[c], chains[c]) && chains[c] != [];
    var head := UnlinkChain(table[c], node, chains[c], i);
    table[c] := head;
    assert LinkedAll(table, chains', nodes - {node});
  }
}
