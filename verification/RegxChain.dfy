/** Chains of alternatives while they are built: appending one, and linking the operands of all
  of them to what follows the chain. */
module RegxChain {
  import opened Bytes
  import opened RegxCode
  import opened RegxSyntax
  import opened RegxLayout
  import opened RegxPatch
  import opened RegxEmit

  lemma BranchKept(code: bytes, code': bytes, q: int, e: int, br: int, x: Re)
    requires Ok(x) && 0 <= q && q + 3 <= br && |code| == br + 3 + Size(x) && Relinked(code, code', q, e)
    requires Fresh(code, br, BRANCH) && Laid(code, br + 3, x, NULL)
    ensures Fresh(code', br, BRANCH) && Laid(code', br + 3, x, NULL)
  {
    FreshKept(code, code', q, e, br, BRANCH);
    Beside(code, code', q, e, br + 3, x, NULL);
  }

  lemma AltAppended(code: bytes, code': bytes, a: int, acc: Re, x: Re, br: int, q: int)
    requires OkAlts(acc) && Ok(x) && 0 <= a && br == a + SizeAlts(acc) && |code| == br + 3 + Size(x)
    requires LaidAlts(code, a, acc, NULL, 0, 0) && Fresh(code, br, BRANCH) && Laid(code, br + 3, x, NULL)
    requires q == a + LastBranch(acc) && Relinked(code, code', q, br)
    ensures LaidAlts(code', a, Alt(acc, x), NULL, 0, 0)
  {
    ChainPatched(code, code', a, acc, 0, 0, br);
    BranchKept(code, code', q, br, br, x);
  }

  /** Distance from the start of a chain to its `j`-th BRANCH node. */
  function NthBranch(x: Re, j: nat): nat
    requires j < Count(x)
  {
    if x.Alt? then if j < Count(x.x) then NthBranch(x.x, j) else SizeAlts(x.x) else 0
  }

  lemma {:induction false} FirstBranch(x: Re)
    ensures NthBranch(x, 0) == 0
  {
    if x.Alt? { FirstBranch(x.x); }
  }

  function NthOperand(x: Re, j: nat): Re
    requires j < Count(x)
  {
    if x.Alt? then if j < Count(x.x) then NthOperand(x.x, j) else x.y else x
  }

  lemma {:induction false} NthInside(x: Re, j: nat)
    requires j < Count(x) && OkAlts(x)
    ensures Ok(NthOperand(x, j)) && NthBranch(x, j) + 3 + Size(NthOperand(x, j)) <= SizeAlts(x)
  {
    if x.Alt? && j < Count(x.x) { NthInside(x.x, j); }
  }

  lemma {:induction false} NthNode(code: bytes, a: int, x: Re, c: int, o: int, m: nat, j: nat)
    requires OkAlts(x) && LaidAlts(code, a, x, c, o, m) && j < Count(x)
    ensures NodeAt(code, a + NthBranch(x, j), BRANCH, if j + 1 < Count(x) then a + NthBranch(x, j + 1) else c)
    ensures Laid(code, a + NthBranch(x, j) + 3, NthOperand(x, j), if j < m then o else NULL)
  {
    var b, next := a + NthBranch(x, j), if j + 1 < Count(x) then a + NthBranch(x, j + 1) else c;
    NthLaid(code, a, x, c, o, m, j, b, next);
  }

  /** The same with the places named. */
  lemma {:induction false} NthLaid(code: bytes, a: int, x: Re, c: int, o: int, m: nat, j: nat, b: int, next: int)
    requires OkAlts(x) && LaidAlts(code, a, x, c, o, m) && j < Count(x)
    requires b == a + NthBranch(x, j) && next == if j + 1 < Count(x) then a + NthBranch(x, j + 1) else c
    ensures NodeAt(code, b, BRANCH, next) && Laid(code, b + 3, NthOperand(x, j), if j < m then o else NULL)
    decreases x
  {
    if x.Alt? && j < Count(x.x) {
      NthLaid(code, a, x.x, a + SizeAlts(x.x), o, m, j, b, next);
    }
  }

  lemma {:induction false} MorePatched(code: bytes, a: int, x: Re, c: int, o: int, m: nat, n: nat)
    requires LaidAlts(code, a, x, c, o, m) && Count(x) <= m && Count(x) <= n
    ensures LaidAlts(code, a, x, c, o, n)
    decreases x
  {
    if x.Alt? { MorePatched(code, a, x.x, a + SizeAlts(x.x), o, m, n); }
  }

  /** While no operand is linked it does not matter where they will lead. */
  lemma {:induction false} NonePatched(code: bytes, a: int, x: Re, c: int, o: int, o': int)
    requires LaidAlts(code, a, x, c, o, 0)
    ensures LaidAlts(code, a, x, c, o', 0)
    decreases x
  {
    if x.Alt? { NonePatched(code, a, x.x, a + SizeAlts(x.x), o, o'); }
  }

  /** Linking the `j`-th operand. */
  lemma {:induction false} OperandPatched(code: bytes, code': bytes, a: int, x: Re, c: int, o: int, j: nat, q: int)
    requires OkAlts(x) && LaidAlts(code, a, x, c, o, j) && j < Count(x) && NULL <= c && 0 <= o
    requires q == a + NthBranch(x, j) + 3 + Tail(NthOperand(x, j)) && Relinked(code, code', q, o)
    requires 0 <= a && a + SizeAlts(x) <= |code|
    ensures LaidAlts(code', a, x, c, o, j + 1)
    decreases x, 0
  {
    NthInside(x, j);
    TailInside(NthOperand(x, j));
    if x.Alt? {
      if j < Count(x.x) {
        NthInside(x.x, j);
        InnerPatched(code, code', a, x.x, x.y, c, o, j, q);
      } else {
        OuterPatched(code, code', a, x.x, x.y, c, o, q);
      }
    } else {
      NodeKept(code, code', q, o, a, BRANCH, c);
      Patched(code, code', a + 3, x, o);
    }
  }

  lemma {:induction false} InnerPatched(code: bytes, code': bytes, a: int, y: Re, z: Re, c: int, o: int, j: nat, q: int)
    requires OkAlts(y) && Ok(z) && LaidAlts(code, a, Alt(y, z), c, o, j) && j < Count(y) && NULL <= c && 0 <= o
    requires q == a + NthBranch(y, j) + 3 + Tail(NthOperand(y, j)) && Relinked(code, code', q, o)
    requires 0 <= a && a + SizeAlts(y) + 3 + Size(z) <= |code| && q + 3 <= a + SizeAlts(y)
    ensures LaidAlts(code', a, Alt(y, z), c, o, j + 1)
    decreases y, 1
  {
    var b := a + SizeAlts(y);
    OperandPatched(code, code', a, y, b, o, j, q);
    NodeKept(code, code', q, o, b, BRANCH, c);
    Beside(code, code', q, o, b + 3, z, NULL);
  }

  lemma ChainBeside(code: bytes, code': bytes, q: int, o: int, a: int, x: Re, c: int, m: nat)
    requires OkAlts(x) && LaidAlts(code, a, x, c, o, m) && Relinked(code, code', q, o) && NULL <= c && 0 <= o
    requires 0 <= a && a + SizeAlts(x) <= q
    ensures LaidAlts(code', a, x, c, o, m)
  {
    Outside(code, code', q, o, a, a + SizeAlts(x));
    MovedAlts(code, code', a, a, 0, x, c, c, o, o, m);
  }

  lemma OuterPatched(code: bytes, code': bytes, a: int, y: Re, z: Re, c: int, o: int, q: int)
    requires OkAlts(y) && Ok(z) && LaidAlts(code, a, Alt(y, z), c, o, Count(y)) && NULL <= c && 0 <= o
    requires q == a + SizeAlts(y) + 3 + Tail(z) && Relinked(code, code', q, o)
    requires 0 <= a && a + SizeAlts(y) + 3 + Size(z) <= |code|
    ensures LaidAlts(code', a, Alt(y, z), c, o, Count(y) + 1)
  {
    var b := a + SizeAlts(y);
    ChainBeside(code, code', q, o, a, y, b, Count(y));
    MorePatched(code', a, y, b, o, Count(y), Count(y) + 1);
    NodeKept(code, code', q, o, b, BRANCH, c);
    Patched(code, code', b + 3, z, o);
  }

  /** The chain with nothing behind it stays when code is appended. */
  lemma ChainAppend(code: bytes, code': bytes, a: int, x: Re, c: int, o: int, m: nat)
    requires OkAlts(x) && LaidAlts(code, a, x, c, o, m) && SameBytes(code, code', 0, |code|, 0)
    requires NULL <= c && 0 <= o && 0 <= a && a + SizeAlts(x) <= |code|
    ensures LaidAlts(code', a, x, c, o, m)
  {
    MovedAlts(code, code', a, a, 0, x, c, c, o, o, m);
  }
}
