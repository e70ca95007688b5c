/** The chains of the extendible hash table as sequences: how they represent an index of keys,
  and what splitting and splicing them does to it. */
module HashChains {
  import opened Bytes
  import opened Seals

  /** A table node. The data word is opaque to the table. */
  class Node {
    var next: Node?
    var key: bytes
    var data: int
    var hkey: nat

    /** `hnode_init`. */
    constructor (data: int)
      ensures next == null && this.data == data
    {
      this.data := data;
      next := null;
      key := [];
      hkey := 0;
    }
  }

  /** A node with the key and hash it was inserted with. */
  datatype Entry = Entry(node: Node, hkey: nat, key: bytes)

  /** The two functions a table is created with. Keys compare equal when they have the same
    canonical form. */
  datatype Hashing = Hashing(hash: bytes -> nat, canon: bytes -> bytes)

  /** Keys that compare equal hash alike. */
  ghost predicate GoodHashing(h: Hashing) {
    forall a, b :: h.canon(a) == h.canon(b) ==> h.hash(a) == h.hash(b)
  }

  type Chain = seq<Entry>
  type Chains = seq<Chain>
  type Index = map<bytes, Entry>

  predicate NoDup(chain: Chain) {
    forall i, j :: 0 <= i < j < |chain| ==> chain[i] != chain[j]
  }

  /** The entry is in the chain its hash selects, under its own key. */
  ghost predicate Placed(h: Hashing, index: Index, n: nat, c: nat, e: Entry)
    requires n > 0
  {
    && e.hkey % n == c && e.hkey == h.hash(e.key)
    && h.canon(e.key) in index && index[h.canon(e.key)] == e
  }

  ghost predicate AllPlaced(h: Hashing, index: Index, n: nat, c: nat, chain: Chain)
    requires n > 0
  {
    NoDup(chain) && forall e :: e in chain ==> Placed(h, index, n, c, e)
  }

  /** The index key is that of its entry, and the entry is found in its chain. */
  ghost predicate Findable(h: Hashing, chains: Chains, k: bytes, e: Entry)
    requires |chains| > 0
  {
    h.canon(e.key) == k && e in chains[e.hkey % |chains|]
  }

  /** The chains hold exactly the entries of the index, one for each canonical key and each
    node, each in the chain that its hash selects. */
  ghost predicate Represents(h: Hashing, chains: Chains, index: Index) {
    && |chains| > 0
    && (forall c :: 0 <= c < |chains| ==> AllPlaced(h, index, |chains|, c, chains[c]))
    && (forall k :: k in index ==> Findable(h, chains, k, index[k]))
    && (forall k, l :: k in index && l in index && index[k].node == index[l].node ==> k == l)
  }

  /** The same, stated so that the verifier looks into it only where it is wanted. */
  ghost predicate Sealed(h: Hashing, chains: Chains, index: Index) {
    |chains| > 0 && forall t {:trigger Wanted(OfIndex, t)} :: Wanted(OfIndex, t) ==> Represents(h, chains, index)
  }

  lemma Unseal(h: Hashing, chains: Chains, index: Index)
    requires Sealed(h, chains, index)
    ensures Represents(h, chains, index)
  {
    assert Wanted(OfIndex, 0);
  }

  function Nodes(chain: Chain): set<Node> {
    set e | e in chain :: e.node
  }

  /** Different chains share no node. */
  lemma ChainsApart(h: Hashing, chains: Chains, index: Index, c: nat, d: nat)
    requires Represents(h, chains, index) && c < |chains| && d < |chains| && c != d
    ensures Nodes(chains[c]) !! Nodes(chains[d])
  {
    forall e, f | e in chains[c] && f in chains[d] ensures e.node != f.node {
      assert Placed(h, index, |chains|, c, e) && Placed(h, index, |chains|, d, f);
    }
  }

  /** In one chain the nodes differ. */
  lemma ChainNodes(h: Hashing, chains: Chains, index: Index, c: nat, i: nat, j: nat)
    requires Represents(h, chains, index) && c < |chains| && i < |chains[c]| && j < |chains[c]|
    ensures chains[c][i].node == chains[c][j].node ==> i == j
  {
    var e, f := chains[c][i], chains[c][j];
    assert Placed(h, index, |chains|, c, e) && Placed(h, index, |chains|, c, f);
  }

  /** An entry found in its chain by hash and canonical key is the one the index has. */
  lemma FoundIsIndexed(h: Hashing, chains: Chains, index: Index, key: bytes, c: nat, i: nat)
    requires Represents(h, chains, index) && c < |chains| && i < |chains[c]|
    requires h.canon(chains[c][i].key) == h.canon(key)
    ensures h.canon(key) in index && index[h.canon(key)] == chains[c][i]
  {
    assert Placed(h, index, |chains|, c, chains[c][i]);
  }

  /** An indexed key has its entry in the chain of its own hash, with that hash. */
  lemma IndexedIsChained(h: Hashing, chains: Chains, index: Index, key: bytes)
    requires GoodHashing(h) && Represents(h, chains, index) && h.canon(key) in index
    ensures var e := index[h.canon(key)];
      e in chains[h.hash(key) % |chains|] && e.hkey == h.hash(key) && h.canon(e.key) == h.canon(key)
  {
    var e := index[h.canon(key)];
    assert Findable(h, chains, h.canon(key), e);
    assert Placed(h, index, |chains|, e.hkey % |chains|, e);
  }

  // ---------------------------------------------------------------- size

  function Total(chains: Chains): nat {
    if chains == [] then 0 else Total(chains[..|chains| - 1]) + |chains[|chains| - 1]|
  }

  lemma {:induction false} TotalUpdate(chains: Chains, c: nat, x: Chain)
    requires c < |chains|
    ensures Total(chains[c := x]) == Total(chains) - |chains[c]| + |x|
  {
    var n := |chains| - 1;
    if c == n {
      assert chains[c := x][..n] == chains[..n];
    } else {
      assert chains[c := x][..n] == chains[..n][c := x];
      TotalUpdate(chains[..n], c, x);
    }
  }

  lemma {:induction false} TotalConcat(a: Chains, b: Chains)
    ensures Total(a + b) == Total(a) + Total(b)
  {
    if b == [] {
      assert a + b == a;
    } else {
      var n := |b| - 1;
      assert (a + b)[..|a + b| - 1] == a + b[..n];
      TotalConcat(a, b[..n]);
    }
  }

  lemma {:induction false} TotalPairs(a: Chains, b: Chains, s: Chains)
    requires |a| == |b| == |s|
    requires forall c :: 0 <= c < |a| ==> |s[c]| == |a[c]| + |b[c]|
    ensures Total(s) == Total(a) + Total(b)
  {
    if a != [] {
      var n := |a| - 1;
      TotalPairs(a[..n], b[..n], s[..n]);
    }
  }

  lemma {:induction false} TotalEmpty(chains: Chains)
    requires forall c :: 0 <= c < |chains| ==> chains[c] == []
    ensures Total(chains) == 0
  {
    if chains != [] {
      TotalEmpty(chains[..|chains| - 1]);
    }
  }

  // ---------------------------------------------------------------- growing

  /** The bit of the hash that a table of `n` chains exposes when it doubles. */
  predicate Exposed(e: Entry, n: nat)
    requires n > 0
  {
    (e.hkey / n) % 2 == 1
  }

  /** The entries of a chain on one side of the exposed bit, in reverse order. */
  function Side(chain: Chain, n: nat, high: bool): (r: Chain)
    requires n > 0
  {
    if chain == [] then []
    else
      var last := |chain| - 1;
      var rest := Side(chain[..last], n, high);
      if Exposed(chain[last], n) == high then [chain[last]] + rest else rest
  }

  lemma {:induction false} SideMembers(chain: Chain, n: nat, high: bool, e: Entry)
    requires n > 0
    ensures e in Side(chain, n, high) <==> e in chain && Exposed(e, n) == high
  {
    if chain != [] {
      var last := |chain| - 1;
      assert chain == chain[..last] + [chain[last]];
      SideMembers(chain[..last], n, high, e);
    }
  }

  lemma {:induction false} SideNoDup(chain: Chain, n: nat, high: bool)
    requires n > 0 && NoDup(chain)
    ensures NoDup(Side(chain, n, high))
  {
    if chain != [] {
      var last := |chain| - 1;
      SideNoDup(chain[..last], n, high);
      SideMembers(chain[..last], n, high, chain[last]);
      assert chain[last] !in chain[..last];
    }
  }

  lemma {:induction false} SideLengths(chain: Chain, n: nat)
    requires n > 0
    ensures |Side(chain, n, false)| + |Side(chain, n, true)| == |chain|
  {
    if chain != [] {
      SideLengths(chain[..|chain| - 1], n);
    }
  }

  /** Every chain splits in two: its low side stays, its high side goes to the sister chain in
    the upper half. */
  function Grown(chains: Chains): (r: Chains)
    requires |chains| > 0
    ensures |r| == 2 * |chains|
  {
    Sides(chains, false) + Sides(chains, true)
  }

  function Sides(chains: Chains, high: bool): (r: Chains)
    requires |chains| > 0
    ensures |r| == |chains|
  {
    seq(|chains|, c requires 0 <= c < |chains| => Side(chains[c], |chains|, high))
  }

  lemma GrownTotal(chains: Chains)
    requires |chains| > 0
    ensures Total(Grown(chains)) == Total(chains)
  {
    var n := |chains|;
    TotalConcat(Sides(chains, false), Sides(chains, true));
    forall c | 0 <= c < n ensures |chains[c]| == |Sides(chains, false)[c]| + |Sides(chains, true)[c]| {
      SideLengths(chains[c], n);
    }
    TotalPairs(Sides(chains, false), Sides(chains, true), chains);
  }

  /** The remainder by twice the size is the old one, plus the size if the exposed bit is set. */
  lemma ExposedMod(h: nat, n: nat)
    requires n > 0
    ensures h % (2 * n) == h % n + if (h / n) % 2 == 1 then n else 0
  {
    var q, r := h / n, h % n;
    assert h == q * n + r;
    var s, b := q / 2, q % 2;
    assert q * n == s * (2 * n) + b * n by {
      assert q == 2 * s + b;
      assert (2 * s + b) * n == s * (2 * n) + b * n;
    }
    assert 0 <= b * n + r < 2 * n by {
      assert b == 0 || b == 1;
    }
    ModUnique(h, 2 * n, s, b * n + r);
    assert b == 0 || b == 1;
  }

  lemma ModUnique(h: nat, m: nat, q: nat, r: nat)
    requires m > 0 && h == q * m + r && r < m
    ensures h % m == r
  {
    var q', r' := h / m, h % m;
    var d := q - q';
    assert q' * m + r' == h;
    assert d * m == q * m - q' * m;
    if d > 0 {
      MulAtLeast(d, m);
    } else if d < 0 {
      MulAtLeast(-d, m);
    }
  }

  lemma MulAtLeast(d: nat, m: nat)
    requires d > 0
    ensures d * m >= m
  {
    assert d * m == (d - 1) * m + m;
  }

  /** Growing changes no entry: the same index is represented. */
  lemma GrownRepresents(h: Hashing, chains: Chains, index: Index)
    requires Represents(h, chains, index)
    ensures Represents(h, Grown(chains), index)
  {
    var n := |chains|;
    var g := Grown(chains);
    forall c | 0 <= c < 2 * n ensures AllPlaced(h, index, 2 * n, c, g[c]) {
      var c0 := if c < n then c else c - n;
      var high := c >= n;
      assert g[c] == Side(chains[c0], n, high);
      assert AllPlaced(h, index, n, c0, chains[c0]);
      SideNoDup(chains[c0], n, high);
      forall e | e in g[c] ensures Placed(h, index, 2 * n, c, e) {
        SideMembers(chains[c0], n, high, e);
        ExposedMod(e.hkey, n);
      }
    }
    forall k | k in index ensures Findable(h, g, k, index[k]) {
      var e := index[k];
      assert Findable(h, chains, k, e);
      ExposedMod(e.hkey, n);
      var high := Exposed(e, n);
      SideMembers(chains[e.hkey % n], n, high, e);
      assert g[e.hkey % (2 * n)] == Side(chains[e.hkey % n], n, high);
    }
  }

  // ---------------------------------------------------------------- shrinking

  /** Every chain in the lower half gets its sister chain appended. */
  function Shrunk(chains: Chains): (r: Chains)
    requires |chains| % 2 == 0
    ensures |r| == |chains| / 2
  {
    var n := |chains| / 2;
    seq(n, c requires 0 <= c < n => chains[c] + chains[c + n])
  }

  lemma ShrunkTotal(chains: Chains)
    requires |chains| % 2 == 0
    ensures Total(Shrunk(chains)) == Total(chains)
  {
    var n := |chains| / 2;
    assert chains == chains[..n] + chains[n..];
    TotalConcat(chains[..n], chains[n..]);
    TotalPairs(chains[..n], chains[n..], Shrunk(chains));
  }

  lemma NoDupConcat(a: Chain, b: Chain)
    requires NoDup(a) && NoDup(b) && forall e :: e in a ==> e !in b
    ensures NoDup(a + b)
  {
    forall i, j | 0 <= i < j < |a + b| ensures (a + b)[i] != (a + b)[j] {
      if i < |a| <= j {
        assert a[i] in a && b[j - |a|] in b;
      }
    }
  }

  /** Shrinking changes no entry either. */
  lemma ShrunkRepresents(h: Hashing, chains: Chains, index: Index)
    requires Represents(h, chains, index) && |chains| % 2 == 0
    ensures Represents(h, Shrunk(chains), index)
  {
    var n := |chains| / 2;
    var s := Shrunk(chains);
    forall c | 0 <= c < n ensures AllPlaced(h, index, n, c, s[c]) {
      assert AllPlaced(h, index, 2 * n, c, chains[c]) && AllPlaced(h, index, 2 * n, c + n, chains[c + n]);
      forall e | e in s[c] ensures Placed(h, index, n, c, e) {
        ExposedMod(e.hkey, n);
      }
      var low, high := chains[c], chains[c + n];
      forall e | e in low ensures e !in high {
        assert Placed(h, index, 2 * n, c, e);
      }
      NoDupConcat(low, high);
    }
    forall k | k in index ensures Findable(h, s, k, index[k]) {
      var e := index[k];
      assert Findable(h, chains, k, e);
      ExposedMod(e.hkey, n);
    }
  }

  // ---------------------------------------------------------------- inserting and removing

  lemma InsertRepresents(h: Hashing, chains: Chains, index: Index, e: Entry)
    requires Represents(h, chains, index)
    requires e.hkey == h.hash(e.key) && h.canon(e.key) !in index
    requires forall k :: k in index ==> index[k].node != e.node
    ensures var c := e.hkey % |chains|;
      && Represents(h, chains[c := [e] + chains[c]], index[h.canon(e.key) := e])
      && Total(chains[c := [e] + chains[c]]) == Total(chains) + 1
  {
    var c := e.hkey % |chains|;
    var chains' := chains[c := [e] + chains[c]];
    var k0 := h.canon(e.key);
    var index' := index[k0 := e];
    TotalUpdate(chains, c, [e] + chains[c]);
    forall d | 0 <= d < |chains| ensures AllPlaced(h, index', |chains|, d, chains'[d]) {
      assert AllPlaced(h, index, |chains|, d, chains[d]);
      forall f | f in chains[d] ensures Placed(h, index', |chains|, d, f) && f != e {
        assert Placed(h, index, |chains|, d, f);
      }
      assert Placed(h, index', |chains|, c, e);
    }
    forall k | k in index' ensures Findable(h, chains', k, index'[k]) {
      if k != k0 {
        assert Findable(h, chains, k, index[k]);
      }
    }
  }

  /** A chain without its entry at `i`. */
  function Without(chain: Chain, i: nat): Chain
    requires i < |chain|
  {
    chain[..i] + chain[i + 1..]
  }

  lemma RemoveRepresents(h: Hashing, chains: Chains, index: Index, c: nat, i: nat)
    requires Represents(h, chains, index) && c < |chains| && i < |chains[c]|
    ensures var e := chains[c][i];
      var chains' := chains[c := Without(chains[c], i)];
      && h.canon(e.key) in index && index[h.canon(e.key)] == e
      && Represents(h, chains', index - {h.canon(e.key)})
      && Total(chains') == Total(chains) - 1
  {
    var e := chains[c][i];
    assert Placed(h, index, |chains|, c, e);
    TotalUpdate(chains, c, Without(chains[c], i));
    var chains', index' := chains[c := Without(chains[c], i)], index - {h.canon(e.key)};
    forall d | 0 <= d < |chains| ensures AllPlaced(h, index', |chains|, d, chains'[d]) {
      RemovePlaced(h, chains, index, c, i, d);
    }
    forall k | k in index' ensures Findable(h, chains', k, index'[k]) {
      RemoveFindable(h, chains, index, c, i, k);
    }
  }

  lemma RemovePlaced(h: Hashing, chains: Chains, index: Index, c: nat, i: nat, d: nat)
    requires Represents(h, chains, index) && c < |chains| && i < |chains[c]| && d < |chains|
    ensures AllPlaced(h, index - {h.canon(chains[c][i].key)}, |chains|, d, chains[c := Without(chains[c], i)][d])
  {
    var e, chains' := chains[c][i], chains[c := Without(chains[c], i)];
    assert AllPlaced(h, index, |chains|, d, chains[d]) && AllPlaced(h, index, |chains|, c, chains[c]);
    assert Placed(h, index, |chains|, c, e);
    forall f | f in chains'[d] ensures Placed(h, index - {h.canon(e.key)}, |chains|, d, f) {
      assert f in chains[d] && Placed(h, index, |chains|, d, f);
      if d != c {
        assert f != e;
      }
    }
  }

  lemma RemoveFindable(h: Hashing, chains: Chains, index: Index, c: nat, i: nat, k: bytes)
    requires Represents(h, chains, index) && c < |chains| && i < |chains[c]|
    requires k in index && k != h.canon(chains[c][i].key)
    ensures Findable(h, chains[c := Without(chains[c], i)], k, index[k])
  {
    var e, f, x := chains[c][i], index[k], Without(chains[c], i);
    assert Findable(h, chains, k, f);
    if f.hkey % |chains| == c {
      var j :| 0 <= j < |chains[c]| && chains[c][j] == f;
      assert f != e;
      assert f == if j < i then x[j] else x[j - 1];
    }
  }
}
