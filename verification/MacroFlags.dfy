/** The quote flags of an argument list, whose number is kept in a signed byte. */
module MacroFlags {
  import opened Bytes
  import opened Macro

  const GROW_BY := 16

  /** A number converted to a signed `char`. */
  function Int8(x: int): int {
    (x + 128) % 256 - 128
  }

  /** The options of `qArgAry`: the block they are in, and `myOptsN`. */
  class Flags {
    var opts: seq<byte>
    var optsN: int

    /** The number is that of the bytes in the block, as far as it fits. */
    ghost predicate Valid()
      reads this
    {
      optsN == Int8(|opts|)
    }

    constructor ()
      ensures Valid() && opts == []
    {
      opts, optsN := [], 0;
    }

    /** Setting the flag `n` writes inside the block: a block that grows is cleared from the place
      `myOptsN` on. */
    ghost predicate Inside(n: nat)
      reads this
    {
      if n >= optsN then 0 <= optsN else n < |opts|
    }

    /** `SetQuot`. */
    method SetQuot(n: nat, value: byte)
      requires Valid() && Inside(n)
      modifies this
      ensures Valid() && |opts| == (if n >= old(optsN) then n + GROW_BY else |old(opts)|)
      ensures opts == (if n >= old(optsN) then Grown(old(opts), old(optsN), n + GROW_BY) else old(opts))[n := value]
    {
      if n >= optsN {
        opts := Grown(opts, optsN, n + GROW_BY);
        optsN := Int8(n + GROW_BY);
      }
      opts := opts[n := value];
    }

    /** `GetQuot`. */
    method GetQuot(n: nat) returns (value: byte)
      requires Valid() && n < 128
      ensures value == if n < optsN then opts[n] else 0
    {
      value := if n < optsN then opts[n] else 0;
    }
  }

  /** A block of `size` bytes with the first `n` ones kept and the others zero. */
  function Grown(opts: seq<byte>, n: nat, size: nat): seq<byte>
    requires n <= |opts|
  {
    seq(size, i requires 0 <= i < size => if i < n then opts[i] else 0)
  }

  function Zeros(n: nat): seq<byte> {
    seq(n, _ => 0)
  }

  /** The flags of the arguments of a call, set one after the other and then read. Up to 112 come
    back; with 113 the number has wrapped and all read as zero, and setting one more would write
    outside the block. */
  method Keep(flags: seq<byte>) returns (back: seq<byte>, f: Flags)
    requires |flags| <= MAX_ARGS + 1
    ensures back == if |flags| <= MAX_ARGS then flags else Zeros(|flags|)
    ensures back == flags <==> |flags| <= MAX_ARGS || forall i :: 0 <= i < |flags| ==> flags[i] == 0
    ensures f.Inside(|flags|) <==> |flags| <= MAX_ARGS
  {
    f := SetAll(flags);
    back := GetAll(f, |flags|);
    assert f.opts[..|flags|] == flags;
  }

  method SetAll(flags: seq<byte>) returns (f: Flags)
    requires |flags| <= MAX_ARGS + 1
    ensures f.Valid() && |f.opts| == Size(|flags|) && f.opts[..|flags|] == flags
  {
    f := new Flags();
    var i := 0;
    while i < |flags|
      invariant 0 <= i <= |flags| && fresh(f) && f.Valid() && |f.opts| == Size(i) && f.opts[..i] == flags[..i]
    {
      ghost var opts := f.opts;
      f.SetQuot(i, flags[i]);
      assert f.opts[..i] == opts[..i];
      assert flags[..i + 1] == flags[..i] + [flags[i]] && f.opts[..i + 1] == f.opts[..i] + [f.opts[i]];
      i := i + 1;
    }
  }

  method GetAll(f: Flags, n: nat) returns (back: seq<byte>)
    requires n <= MAX_ARGS + 1 && f.Valid() && |f.opts| == Size(n)
    ensures back == if n <= MAX_ARGS then f.opts[..n] else Zeros(n)
  {
    back := [];
    var i := 0;
    while i < n
      invariant 0 <= i <= n && back == if n <= MAX_ARGS then f.opts[..i] else Zeros(i)
    {
      var value := f.GetQuot(i);
      back := back + [value];
      i := i + 1;
    }
  }

  /** How many bytes the block has after the first `n` flags were set in order. */
  function Size(n: nat): (r: nat)
    ensures n <= r
  {
    (n + GROW_BY - 1) / GROW_BY * GROW_BY
  }
}
