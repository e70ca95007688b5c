/** Reference-counted buffers: handles share blocks, and a block is copied before it grows. */
module BufRef {
  import opened Bytes

  const GROW_BY := 256

  /** A block: its header fields and its bytes. `live` tells that it has not been freed. */
  class Block {
    var refs: int
    var alloc: nat
    var count: nat
    var data: bytes
    ghost var live: bool

    /** `malloc`: a block of `z` bytes that nobody has set. */
    constructor (z: nat)
      ensures live && |data| == z
    {
      refs := *;
      alloc := *;
      count := *;
      data := seq(z, _ => 0);
      live := true;
      new;
      data := Junk(z);
    }

    /** Give the block back. It must not have been given back before. */
    method Release()
      requires live
      modifies this`live
      ensures !live
    {
      live := false;
    }
  }

  /** `n` bytes of any value. */
  method Junk(n: nat) returns (r: bytes)
    ensures |r| == n
  {
    r := [];
    while |r| < n
      invariant |r| <= n
    {
      var b: byte := *;
      r := r + [b];
    }
  }

  /** A new block of `n` bytes for one handle. */
  method NewBlock(n: nat) returns (b: Block)
    ensures fresh(b) && b.live && b.refs == 1 && b.alloc == b.count == n == |b.data|
  {
    b := new Block(n);
    b.refs, b.alloc, b.count := 1, n, n;
  }

  /** A new block of `z` bytes for one handle, the first `m` ones copied. */
  method CopyBlock(from: Block, z: nat, m: nat, n: nat) returns (b: Block)
    requires m <= |from.data| && m <= z && n <= z
    ensures fresh(b) && b.live && b.refs == 1 && b.alloc == z == |b.data| && b.count == n
    ensures b.data[..m] == from.data[..m]
  {
    b := new Block(z);
    b.data := from.data[..m] + b.data[m..];
    b.refs, b.alloc, b.count := 1, z, n;
  }

  /** All handles there are, and all blocks ever allocated. */
  class Pool {
    ghost var handles: set<Handle>
    ghost var blocks: set<Block>

    /** The block a copy has counted a handle on that is not there yet. */
    ghost var ahead: Block?

    /** The handles on a block. */
    ghost function Users(b: Block): set<Handle>
      reads this, handles
    {
      set h | h in handles && h.buf == b
    }

    /** A live block's count is the number of handles on it, with the one counted ahead, and at
      least one; a freed block has none. */
    ghost predicate Counted(b: Block)
      reads this, handles, b
    {
      if b.live then b.refs == |Users(b)| + (if b == ahead then 1 else 0) && b.refs > 0
        && b.count <= b.alloc == |b.data|
      else Users(b) == {} && b != ahead
    }

    /** Between calls no handle is counted ahead. */
    ghost predicate Valid()
      reads this, handles, blocks
    {
      Consistent() && ahead == null
    }

    ghost predicate Consistent()
      reads this, handles, blocks
    {
      && (forall h :: h in handles && h.buf != null ==> h.buf in blocks)
      && (forall b :: b in blocks ==> Counted(b))
    }

    /** What every handle stands for. */
    ghost function Values(): map<Handle, bytes>
      reads this, handles, set h | h in handles :: h.buf
    {
      map h | h in handles :: h.Value()
    }

    constructor ()
      ensures Valid() && handles == {} && blocks == {}
    {
      handles := {};
      blocks := {};
      ahead := null;
    }
  }

  class Handle {
    var buf: Block?

    /** The bytes the handle stands for. */
    ghost function Value(): bytes
      reads this, buf
    {
      if buf == null || buf.count > |buf.data| then [] else buf.data[..buf.count]
    }

    /** No other handle is on the block. */
    ghost predicate Alone()
      reads this, buf
    {
      buf != null && buf.refs == 1
    }

    /** An empty handle joins the pool. */
    constructor (ghost pool: Pool)
      requires pool.Valid()
      modifies pool
      ensures pool.Valid() && buf == null && pool.handles == old(pool.handles) + {this}
        && pool.blocks == old(pool.blocks)
      ensures pool.Values() == old(pool.Values())[this := []]
    {
      buf := null;
      new;
      Join(pool);
    }

    method Join(ghost pool: Pool)
      requires pool.Valid() && buf == null && this !in pool.handles
      modifies pool
      ensures pool.Valid() && pool.handles == old(pool.handles) + {this} && pool.blocks == old(pool.blocks)
      ensures pool.Values() == old(pool.Values())[this := []]
    {
      pool.handles := pool.handles + {this};
      forall b | b in pool.blocks ensures pool.Counted(b) {
        assert old(pool.Counted(b));
        assert pool.Users(b) == old(pool.Users(b));
      }
    }

    /** `Count`. */
    method Count() returns (n: nat)
      ensures buf != null ==> n == buf.count
      ensures buf == null ==> n == 0
    {
      n := if buf != null then buf.count else 0;
    }

    /** A handle's block is live and fits its count. */
    lemma OnLive(pool: Pool)
      requires pool.Consistent() && this in pool.handles && buf != null
      ensures buf in pool.blocks && this in pool.Users(buf) && pool.Counted(buf) && buf.live
      ensures |pool.Users(buf) - {this}| == |pool.Users(buf)| - 1
      ensures buf.refs == 1 ==> pool.Users(buf) - {this} == {} && buf != pool.ahead
    {
      assert pool.Counted(buf);
      assert this in pool.Users(buf);
    }

    /** `_Free` and `free`: count one handle less; the last one gives the block back. */
    method StepOff(ghost pool: Pool)
      requires pool.Consistent() && this in pool.handles && buf != null
      modifies this, buf
      ensures pool.Consistent() && buf == null
      ensures pool.Values() == old(pool.Values())[this := []]
      ensures old(buf).live == (old(buf.refs) > 1)
      ensures old(buf).data == old(buf.data) && old(buf).count == old(buf.count)
    {
      ghost var b0, users := buf, pool.Users(buf);
      OnLive(pool);
      buf.refs := buf.refs - 1;
      if buf.refs <= 0 {
        buf.Release();
      }
      buf := null;
      assert pool.Users(b0) == users - {this};
      forall b | b in pool.blocks ensures pool.Counted(b) {
        assert old(pool.Counted(b));
        if b != b0 {
          assert pool.Users(b) == old(pool.Users(b));
        }
      }
      forall h | h in pool.handles && h != this ensures h.Value() == old(h.Value()) {
        assert h.buf == old(h.buf)
          && (h.buf != null ==> h.buf.data == old(h.buf.data) && h.buf.count == old(h.buf.count));
      }
    }

    /** `Free`. */
    method Free(ghost pool: Pool)
      requires pool.Valid() && this in pool.handles
      modifies this, buf
      ensures pool.Valid() && buf == null
      ensures pool.Values() == old(pool.Values())[this := []]
    {
      if buf != null {
        StepOff(pool);
      }
    }

    /** Step onto a new block with one handle. */
    method StepOn(ghost pool: Pool, b: Block)
      requires pool.Valid() && this in pool.handles && buf == null
      requires b !in pool.blocks && b.live && b.refs == 1 && b.count <= b.alloc == |b.data|
      requires forall h :: h in pool.handles ==> h.buf != b
      modifies this, pool
      ensures pool.Valid() && buf == b && pool.handles == old(pool.handles) && pool.blocks == old(pool.blocks) + {b}
      ensures pool.Values() == old(pool.Values())[this := b.data[..b.count]]
    {
      buf := b;
      pool.blocks := pool.blocks + {b};
      assert pool.Users(b) == {this};
      forall c | c in pool.blocks ensures pool.Counted(c) {
        if c != b {
          assert old(pool.Counted(c));
          assert pool.Users(c) == old(pool.Users(c));
        }
      }
    }

    /** `Grow`: make the handle stand for `n` bytes of its own, the first ones kept. */
    method Grow(ghost pool: Pool, n: int)
      requires pool.Valid() && this in pool.handles
      modifies pool, this, buf
      ensures pool.Valid() && pool.handles == old(pool.handles)
      ensures pool.blocks >= old(pool.blocks) && fresh(pool.blocks - old(pool.blocks))
      ensures n > 0 ==> Alone()
      ensures n <= 0 ==> buf == null || Alone()
      ensures |Value()| == if n > 0 then n else 0
      ensures forall i :: 0 <= i < |Value()| && i < |old(Value())| ==> Value()[i] == old(Value())[i]
      ensures pool.Values() == old(pool.Values())[this := Value()]
    {
      if buf != null { OnLive(pool); }
      if n > 0 {
        if buf == null {
          GrowNew(pool, n);
        } else {
          var z := n + (if GROW_BY > n / 2 then GROW_BY else n / 2);
          if buf.refs == 1 {
            GrowAlone(pool, n, z);
          } else {
            GrowShared(pool, n, z);
          }
        }
      } else if buf != null {
        if buf.refs == 1 {
          SetCount(pool, 0);
        } else {
          StepOff(pool);
        }
      }
    }

    /** A block for an empty handle. */
    method GrowNew(ghost pool: Pool, n: nat)
      requires pool.Valid() && this in pool.handles && buf == null
      modifies pool, this
      ensures pool.Valid() && pool.handles == old(pool.handles) && Alone() && |Value()| == n
      ensures pool.blocks >= old(pool.blocks) && fresh(pool.blocks - old(pool.blocks))
      ensures pool.Values() == old(pool.Values())[this := Value()]
    {
      var b := NewBlock(n);
      StepOn(pool, b);
    }

    /** `SetCount` on a block of one handle. */
    method SetCount(ghost pool: Pool, n: nat)
      requires pool.Valid() && this in pool.handles && Alone() && n <= buf.alloc
      modifies buf
      ensures pool.Valid() && Alone() && buf.count == n <= |buf.data| && buf.data == old(buf.data)
      ensures pool.Values() == old(pool.Values())[this := buf.data[..n]]
    {
      OnlyUser(pool);
      buf.count := n;
      forall b | b in pool.blocks ensures pool.Counted(b) {
        assert old(pool.Counted(b));
      }
    }

    /** A block of one handle is this one's. */
    lemma OnlyUser(pool: Pool)
      requires pool.Valid() && this in pool.handles && Alone()
      ensures buf in pool.blocks && pool.Counted(buf) && buf.live
      ensures forall h :: h in pool.handles && h != this ==> h.buf != buf
    {
      OnLive(pool);
      forall h | h in pool.handles && h.buf == buf ensures h == this {
        assert h in pool.Users(buf);
      }
    }

    /** `realloc` the block when it is too small. */
    method GrowAlone(ghost pool: Pool, n: nat, z: nat)
      requires pool.Valid() && this in pool.handles && Alone() && 0 < n <= z
      modifies buf
      ensures pool.Valid() && Alone() && |Value()| == n
      ensures forall i :: 0 <= i < n && i < |old(Value())| ==> Value()[i] == old(Value())[i]
      ensures pool.Values() == old(pool.Values())[this := Value()]
    {
      OnlyUser(pool);
      if n > buf.alloc {
        Realloc(pool, z);
      }
      SetCount(pool, n);
      assert buf.data[..n] == Value();
    }

    /** `realloc` and `SetAlloc` on a block of one handle. */
    method Realloc(ghost pool: Pool, z: nat)
      requires pool.Valid() && this in pool.handles && Alone() && buf.alloc <= z
      modifies buf`data, buf`alloc
      ensures pool.Valid() && Alone() && buf.alloc == z && old(buf.data) <= buf.data
      ensures Value() == old(Value()) && pool.Values() == old(pool.Values())
    {
      OnlyUser(pool);
      var more := Junk(z - buf.alloc);
      buf.data := buf.data + more;
      buf.alloc := z;
      forall b | b in pool.blocks ensures pool.Counted(b) {
        assert old(pool.Counted(b));
      }
    }

    /** Copy what is kept to a new block and step off the shared one. */
    method GrowShared(ghost pool: Pool, n: nat, z: nat)
      requires pool.Valid() && this in pool.handles && buf != null && 0 < n <= z
      modifies pool, this, buf
      ensures pool.Valid() && pool.handles == old(pool.handles) && Alone() && |Value()| == n
      ensures pool.blocks >= old(pool.blocks) && fresh(pool.blocks - old(pool.blocks))
      ensures forall i :: 0 <= i < n && i < |old(Value())| ==> Value()[i] == old(Value())[i]
      ensures pool.Values() == old(pool.Values())[this := Value()]
    {
      OnLive(pool);
      ghost var was := Value();
      var b := CopyKept(n, z);
      Replace(pool, b);
      KeptStart(was, b.data, n);
      assert Value() == b.data[..n];
    }

    /** A new block of `n` bytes that starts with the handle's. */
    method CopyKept(n: nat, z: nat) returns (b: Block)
      requires buf != null && buf.count <= |buf.data| && 0 < n <= z
      ensures fresh(b) && b.live && b.refs == 1 && b.alloc == z == |b.data| && b.count == n
      ensures forall i :: 0 <= i < n && i < |Value()| ==> b.data[i] == Value()[i]
    {
      var m := if buf.count < n then buf.count else n;
      b := CopyBlock(buf, z, m, n);
      forall i | 0 <= i < m ensures b.data[i] == Value()[i] {
        assert b.data[..m][i] == buf.data[..m][i];
      }
    }

    /** `Change`: give the handle a block of its own with the same bytes. */
    method Change(ghost pool: Pool)
      requires pool.Valid() && this in pool.handles
      modifies pool, this, buf
      ensures pool.Valid() && pool.handles == old(pool.handles) && (buf != null ==> Alone())
      ensures pool.blocks >= old(pool.blocks) && fresh(pool.blocks - old(pool.blocks))
      ensures Value() == old(Value()) && (buf == null <==> old(buf) == null)
      ensures pool.Values() == old(pool.Values())
    {
      if buf != null {
        OnLive(pool);
        var b := CopyBlock(buf, buf.alloc, buf.count, buf.count);
        ghost var values := pool.Values();
        assert values[this] == Value() == b.data[..b.count];
        Replace(pool, b);
        UpdateBack(values, this);
      }
    }

    /** Step off the block and onto a new one. */
    method Replace(ghost pool: Pool, b: Block)
      requires pool.Valid() && this in pool.handles && buf != null
      requires b !in pool.blocks && b.live && b.refs == 1 && b.count <= b.alloc == |b.data|
      requires forall h :: h in pool.handles ==> h.buf != b
      modifies pool, this, buf
      ensures pool.Valid() && pool.handles == old(pool.handles) && pool.blocks == old(pool.blocks) + {b}
      ensures buf == b && b.refs == 1 && b.data == old(b.data) && b.count == old(b.count) && b.count <= |b.data|
      ensures pool.Values() == old(pool.Values())[this := b.data[..b.count]]
    {
      ghost var values := pool.Values();
      StepOff(pool);
      StepOn(pool, b);
      UpdateTwice(values, this, b.data[..b.count]);
    }

    /** `Copy`, the copy constructor and assignment: share the other handle's block. */
    method Copy(ghost pool: Pool, other: Handle)
      requires pool.Valid() && this in pool.handles && other in pool.handles
      modifies pool`ahead, this, buf, other.buf
      ensures pool.Valid() && buf == old(other.buf)
      ensures pool.Values() == old(pool.Values())[this := old(other.Value())]
    {
      if buf != other.buf {
        if other.buf != null {
          Share(pool, other);
        } else {
          Free(pool);
        }
      }
    }

    /** Count one handle more on the other's block, step off the own one, and step on. */
    method Share(ghost pool: Pool, other: Handle)
      requires pool.Valid() && this in pool.handles && other in pool.handles
      requires other.buf != null && buf != other.buf
      modifies pool`ahead, this, buf, other.buf
      ensures pool.Valid() && buf == old(other.buf)
      ensures pool.Values() == old(pool.Values())[this := old(other.Value())]
    {
      var b := other.buf;
      other.IncRef(pool);
      ghost var values := pool.Values();
      if buf != null {
        StepOff(pool);
      }
      other.OnLive(pool);
      assert pool.Values() == values[this := []];
      StepOnto(pool, b);
      UpdateTwice(values, this, other.Value());
    }

    /** `IncRef`: a handle is counted ahead. */
    method IncRef(ghost pool: Pool)
      requires pool.Valid() && this in pool.handles && buf != null
      modifies pool`ahead, buf`refs
      ensures pool.Consistent() && pool.ahead == buf && pool.Values() == old(pool.Values())
    {
      OnLive(pool);
      buf.refs := buf.refs + 1;
      pool.ahead := buf;
      forall b | b in pool.blocks ensures pool.Counted(b) {
        assert old(pool.Counted(b)) && pool.Users(b) == old(pool.Users(b));
      }
    }

    /** Step onto the block on which a handle has been counted. */
    method StepOnto(ghost pool: Pool, b: Block)
      requires pool.Consistent() && this in pool.handles && buf == null
      requires b == pool.ahead && b in pool.blocks && b.live
      modifies pool`ahead, this
      ensures pool.Valid() && buf == b
      ensures pool.Values() == old(pool.Values())[this := b.data[..b.count]]
    {
      assert pool.Counted(b) && this !in pool.Users(b);
      ghost var users := pool.Users(b);
      buf := b;
      pool.ahead := null;
      assert pool.Users(b) == users + {this};
      forall c | c in pool.blocks ensures pool.Counted(c) {
        assert old(pool.Counted(c));
        if c != b {
          assert pool.Users(c) == old(pool.Users(c));
        }
      }
    }

    /** Write one byte in place, as a user does right after a positive `Grow` or a `Change`. */
    method Write(ghost pool: Pool, i: nat, c: byte)
      requires pool.Valid() && this in pool.handles && Alone() && i < |Value()|
      modifies buf
      ensures pool.Valid() && Alone()
      ensures pool.Values() == old(pool.Values())[this := old(Value())[i := c]]
    {
      OnlyUser(pool);
      buf.data := buf.data[i := c];
      forall b | b in pool.blocks ensures pool.Counted(b) {
        assert old(pool.Counted(b));
      }
    }
  }

  lemma UpdateBack(m: map<Handle, bytes>, h: Handle)
    requires h in m
    ensures m[h := m[h]] == m
  {
  }

  lemma KeptStart(was: bytes, data: bytes, n: nat)
    requires n <= |data| && forall i :: 0 <= i < n && i < |was| ==> data[i] == was[i]
    ensures forall i :: 0 <= i < n && i < |was| ==> data[..n][i] == was[i]
  {
  }

  lemma UpdateTwice(m: map<Handle, bytes>, h: Handle, v: bytes)
    ensures m[h := []][h := v] == m[h := v]
  {
  }

  /** No handle is on a freed block, and a live block has as many handles as it counts, and one
    at least: nothing dangles and nothing leaks. */
  lemma NothingDangles(pool: Pool)
    requires pool.Valid()
    ensures forall h :: h in pool.handles && h.buf != null ==> h.buf.live
    ensures forall b :: b in pool.blocks && b.live ==>
      b.refs == |pool.Users(b)| && exists h :: h in pool.handles && h.buf == b
  {
    forall h | h in pool.handles && h.buf != null ensures h.buf.live {
      h.OnLive(pool);
    }
    forall b | b in pool.blocks && b.live
      ensures b.refs == |pool.Users(b)| && exists h :: h in pool.handles && h.buf == b
    {
      assert pool.Counted(b) && |pool.Users(b)| > 0;
      var h :| h in pool.Users(b);
    }
  }

  // ---------------------------------------------------------------- runs

  /** An operation on handles known by number. */
  datatype Op =
    | Copy(h: nat, from: nat)
    | Grow(h: nat, n: int)
    | Change(h: nat)
    | Free(h: nat)
    | Write(h: nat, i: nat, c: byte)

  /** The handle that may be written: the one a positive `Grow` or a `Change` has just prepared. */
  function Ready(op: Op, ready: int): int {
    match op
    case Grow(h, n) => if n > 0 then h else -1
    case Change(h) => h
    case Write(h, _, _) => ready
    case _ => -1
  }

  /** A write is made to the prepared handle, and inside its bytes. */
  predicate Writes(op: Op, ready: int, v: seq<bytes>) {
    op.Write? && op.h == ready && op.h < |v| && op.i < |v[op.h]|
  }

  predicate InRange(op: Op, count: nat) {
    op.h < count && (op.Copy? ==> op.from < count)
  }

  /** What an operation does to as many independent byte sequences: `Grow` keeps what fits and
    adds bytes of any value. */
  predicate Does(op: Op, ready: int, v: seq<bytes>, v': seq<bytes>)
    requires InRange(op, |v|)
  {
    match op
    case Copy(h, from) => v' == v[h := v[from]]
    case Grow(h, n) => |v'| == |v| && v' == v[h := v'[h]] && Grows(v[h], v'[h], n)
    case Change(h) => v' == v
    case Free(h) => v' == v[h := []]
    case Write(h, i, c) => v' == if Writes(op, ready, v) then v[h := Put(v[h], i, c)] else v
  }

  function Put(t: bytes, i: nat, c: byte): bytes
    requires i < |t|
  {
    t[i := c]
  }

  predicate Grows(t: bytes, t': bytes, n: int) {
    && |t'| == (if n > 0 then n else 0)
    && forall i :: 0 <= i < |t'| && i < |t| ==> t'[i] == t[i]
  }

  function ReadyAfter(ops: seq<Op>): int {
    if ops == [] then -1 else Ready(ops[|ops| - 1], ReadyAfter(ops[..|ops| - 1]))
  }

  /** The pool has these handles, all different, and they stand for these bytes. */
  ghost predicate StandsFor(pool: Pool, hs: seq<Handle>, v: seq<bytes>)
    reads pool, pool.handles, pool.blocks, set h | h in pool.handles :: h.buf
  {
    && pool.Valid() && |hs| == |v| && (forall k :: 0 <= k < |hs| ==> hs[k] in pool.handles)
    && (forall j, k :: 0 <= j < k < |hs| ==> hs[j] != hs[k])
    && (forall k :: 0 <= k < |hs| ==> pool.Values()[hs[k]] == v[k])
  }

  /** Any run of operations on any number of handles does to them what it does to independent
    byte sequences: `trace` holds the sequences before each operation and at the end. */
  method RunOps(count: nat, ops: seq<Op>) returns (hs: seq<Handle>, pool: Pool, ghost trace: seq<seq<bytes>>)
    requires forall i :: 0 <= i < |ops| ==> InRange(ops[i], count)
    ensures Traced(ops, |ops|, trace, count) && StandsFor(pool, hs, trace[|ops|])
  {
    hs, pool := MakeHandles(count);
    trace := [seq(count, _ => [])];
    var i := 0;
    var ready: int := -1;
    while i < |ops|
      invariant 0 <= i <= |ops| && |hs| == count && ready == ReadyAfter(ops[..i])
      invariant fresh(pool) && fresh(pool.handles) && fresh(pool.blocks)
      invariant Traced(ops, i, trace, count) && StandsFor(pool, hs, trace[i]) && Prepared(hs, ready)
    {
      ghost var v := MakeOp(pool, hs, ops[i], ready, trace[i]);
      ready := Ready(ops[i], ready);
      TracedMore(ops, i, trace, count, v);
      trace := trace + [v];
      i := i + 1;
    }
  }

  /** The first `n` operations lead along the trace, from empty byte sequences. */
  ghost predicate Traced(ops: seq<Op>, n: nat, trace: seq<seq<bytes>>, count: nat) {
    && n <= |ops| && |trace| == n + 1 && trace[0] == seq(count, _ => [])
    && (forall i :: 0 <= i <= n ==> |trace[i]| == count)
    && (forall i :: 0 <= i < n ==> InRange(ops[i], count) && Does(ops[i], ReadyAfter(ops[..i]), trace[i], trace[i + 1]))
  }

  lemma TracedMore(ops: seq<Op>, n: nat, trace: seq<seq<bytes>>, count: nat, v: seq<bytes>)
    requires Traced(ops, n, trace, count) && n < |ops| && InRange(ops[n], count)
    requires |v| == count && Does(ops[n], ReadyAfter(ops[..n]), trace[n], v)
    ensures Traced(ops, n + 1, trace + [v], count)
    ensures ReadyAfter(ops[..n + 1]) == Ready(ops[n], ReadyAfter(ops[..n]))
  {
    assert ops[..n + 1][..n] == ops[..n];
    var more := trace + [v];
    assert forall i :: 0 <= i <= n ==> more[i] == trace[i];
  }

  /** The prepared handle is alone on its block. */
  ghost predicate Prepared(hs: seq<Handle>, ready: int)
    reads hs, set h | h in hs :: h.buf
  {
    0 <= ready < |hs| && hs[ready].buf != null ==> hs[ready].Alone()
  }

  /** New empty handles in a new pool. */
  method MakeHandles(count: nat) returns (hs: seq<Handle>, pool: Pool)
    ensures fresh(pool) && fresh(pool.handles) && pool.blocks == {} && |hs| == count
    ensures StandsFor(pool, hs, seq(count, _ => [])) && Prepared(hs, -1)
  {
    pool := new Pool();
    hs := [];
    while |hs| < count
      invariant |hs| <= count && fresh(pool) && fresh(pool.handles) && pool.blocks == {}
      invariant StandsFor(pool, hs, seq(|hs|, _ => []))
    {
      var h := new Handle(pool);
      hs := hs + [h];
    }
  }

  /** One operation; a write that is not prepared or not inside is not made. */
  method MakeOp(pool: Pool, hs: seq<Handle>, op: Op, ready: int, ghost v: seq<bytes>) returns (ghost v': seq<bytes>)
    requires StandsFor(pool, hs, v) && Prepared(hs, ready) && InRange(op, |hs|)
    modifies pool, pool.handles, pool.blocks
    ensures StandsFor(pool, hs, v') && Prepared(hs, Ready(op, ready)) && |v'| == |v| && Does(op, ready, v, v')
    ensures pool.handles == old(pool.handles)
    ensures pool.blocks >= old(pool.blocks) && fresh(pool.blocks - old(pool.blocks))
  {
    var h := hs[op.h];
    v' := v;
    match op
    case Copy(_, from) =>
      h.Copy(pool, hs[from]);
      v' := v[op.h := v[from]];
    case Grow(_, n) =>
      h.Grow(pool, n);
      v' := v[op.h := h.Value()];
    case Change(_) =>
      h.Change(pool);
    case Free(_) =>
      h.Free(pool);
      v' := v[op.h := []];
    case Write(_, i, c) =>
      if op.h == ready {
        v' := WriteReady(pool, hs, op.h, i, c, v);
      }
  }

  method WriteReady(pool: Pool, hs: seq<Handle>, k: nat, i: nat, c: byte, ghost v: seq<bytes>)
    returns (ghost v': seq<bytes>)
    requires StandsFor(pool, hs, v) && Prepared(hs, k) && k < |hs|
    modifies pool.blocks
    ensures StandsFor(pool, hs, v') && Prepared(hs, k)
    ensures v' == if i < |v[k]| then v[k := Put(v[k], i, c)] else v
  {
    var h := hs[k];
    v' := v;
    if h.buf != null {
      h.OnLive(pool);
      if i < h.buf.count {
        h.Write(pool, i, c);
        v' := v[k := Put(v[k], i, c)];
      }
    }
  }
}
