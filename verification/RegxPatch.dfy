/** What the emitting primitives keep: moved bytes keep their layout, a chain walk finds the
  open end of a fragment, and patching that end closes the fragment. */
module RegxPatch {
  import opened Bytes
  import opened RegxCode
  import opened RegxSyntax
  import opened RegxLayout

  /** `code'` holds at distance `d` the bytes that `code` holds from `a` up to `b`. */
  predicate SameBytes(code: bytes, code': bytes, a: int, b: int, d: int) {
    && 0 <= a && b <= |code| && 0 <= a + d && b + d <= |code'|
    && forall k {:trigger Byte(k)} :: Byte(k) && a <= k < b ==> code'[k + d] == code[k]
  }

  /** Where an exit leads after a move: open ends stay open. */
  function Shift(e: int, d: int): int {
    if e == NULL then NULL else e + d
  }

  lemma NodeMoved(code: bytes, code': bytes, a: int, d: nat, op: byte, e: int)
    requires NodeAt(code, a, op, e) && SameBytes(code, code', a, a + 3, d)
    requires op == BACK ==> 0 <= e
    ensures NodeAt(code', a + d, op, Shift(e, d))
  {
    assert Byte(a) && Byte(a + 1) && Byte(a + 2);
  }

  lemma StringMoved(code: bytes, code': bytes, a: int, d: nat, w: bytes)
    requires StringAt(code, a, w) && SameBytes(code, code', a, a + |w| + 1, d)
    ensures StringAt(code', a + d, w)
  {
    assert Byte(a + |w|);
    forall k | 0 <= k < |w|
      ensures code'[a + d..a + d + |w|][k] == w[k]
    {
      assert Byte(a + k) && code[a..a + |w|][k] == code[a + k];
    }
  }

  lemma UnitMoved(code: bytes, code': bytes, a: int, d: nat, op: byte, w: bytes, e: int)
    requires UnitAt(code, a, op, w, e) && op != BACK
    requires SameBytes(code, code', a, a + (if HasOperand(op) then 4 + |w| else 3), d)
    ensures UnitAt(code', a + d, op, w, Shift(e, d))
  {
    NodeMoved(code, code', a, d, op, e);
    if HasOperand(op) {
      StringMoved(code, code', a + 3, d, w);
    }
  }

  /** Relocation: offsets are relative, so a moved fragment keeps its layout. */
  lemma {:induction false} Moved(code: bytes, code': bytes, a: int, d: nat, x: Re, e: int)
    requires Ok(x) && Laid(code, a, x, e) && SameBytes(code, code', a, a + Size(x), d) && NULL <= e
    ensures Laid(code', a + d, x, Shift(e, d))
    decreases x, 0, 1
  {
    match x
    case Unit(op, w) =>
      assert Tree(x);
      UnitMoved(code, code', a, d, op, w, e);
    case Rep(op, y) => RepMoved(code, code', a, d, op, y, e);
    case Loop0(y) => Loop0Moved(code, code', a, d, y, e);
    case Loop1(y) => Loop1Moved(code, code', a, d, y, e);
    case Opt(y) => OptMoved(code, code', a, d, y, e);
    case Group(no, y) => GroupMoved(code, code', a, d, no, y, e);
    case Empty =>
      assert Tree(x);
      NodeMoved(code, code', a, d, NOTHING, e);
    case Cat(y, z) => CatMoved(code, code', a, d, y, z, e);
  }

  lemma RepMoved(code: bytes, code': bytes, a: int, d: nat, op: byte, y: Re, e: int)
    requires Ok(Rep(op, y)) && Laid(code, a, Rep(op, y), e) && SameBytes(code, code', a, a + 3 + Size(y), d)
    ensures Laid(code', a + d, Rep(op, y), Shift(e, d))
  {
    assert Tree(Rep(op, y));
    NodeMoved(code, code', a, d, op, e);
    UnitMoved(code, code', a + 3, d, y.op, y.w, NULL);
  }

  lemma {:induction false} CatMoved(code: bytes, code': bytes, a: int, d: nat, y: Re, z: Re, e: int)
    requires Ok(y) && Ok(z) && Laid(code, a, Cat(y, z), e) && NULL <= e
    requires SameBytes(code, code', a, a + Size(y) + Size(z), d)
    ensures Laid(code', a + d, Cat(y, z), Shift(e, d))
    decreases Cat(y, z), 0, 0
  {
    assert Tree(Cat(y, z));
    Moved(code, code', a, d, y, a + Size(y));
    Moved(code, code', a + Size(y), d, z, e);
  }

  lemma {:induction false} Loop0Moved(code: bytes, code': bytes, a: int, d: nat, y: Re, e: int)
    requires Ok(Loop0(y)) && Laid(code, a, Loop0(y), e) && SameBytes(code, code', a, a + Size(Loop0(y)), d) && NULL <= e
    ensures Laid(code', a + d, Loop0(y), Shift(e, d))
    decreases y, 2, 0
  {
    var k := a + 3 + Size(y);
    var a', k', e' := a + d, k + d, Shift(e, d);
    Loop0Parts(code, a, y, e, k);
    Loop0NodesMoved(code, code', a, k, d, e);
    MovedTo(code, code', a + 3, a' + 3, d, y, k, k');
    Loop0Laid(code', a', y, e', k');
  }

  lemma Loop0Parts(code: bytes, a: int, y: Re, e: int, k: int)
    requires Laid(code, a, Loop0(y), e) && k == a + 3 + Size(y)
    ensures NodeAt(code, a, BRANCH, k + 3) && NodeAt(code, k, BACK, a) && Laid(code, a + 3, y, k)
    ensures NodeAt(code, k + 3, BRANCH, k + 6) && NodeAt(code, k + 6, NOTHING, e)
  {
    assert Tree(Loop0(y));
  }

  lemma Loop0Laid(code: bytes, a: int, y: Re, e: int, k: int)
    requires k == a + 3 + Size(y) && Laid(code, a + 3, y, k)
    requires NodeAt(code, a, BRANCH, k + 3) && NodeAt(code, k, BACK, a)
    requires NodeAt(code, k + 3, BRANCH, k + 6) && NodeAt(code, k + 6, NOTHING, e)
    ensures Laid(code, a, Loop0(y), e)
  {
  }

  lemma Loop0NodesMoved(code: bytes, code': bytes, a: int, k: int, d: nat, e: int)
    requires SameBytes(code, code', a, k + 9, d) && NULL <= e && a + 3 <= k
    requires NodeAt(code, a, BRANCH, k + 3) && NodeAt(code, k, BACK, a)
    requires NodeAt(code, k + 3, BRANCH, k + 6) && NodeAt(code, k + 6, NOTHING, e)
    ensures NodeAt(code', a + d, BRANCH, k + 3 + d) && NodeAt(code', k + d, BACK, a + d)
    ensures NodeAt(code', k + 3 + d, BRANCH, k + 6 + d) && NodeAt(code', k + 6 + d, NOTHING, Shift(e, d))
  {
    NodeMoved(code, code', a, d, BRANCH, k + 3);
    NodeMoved(code, code', k, d, BACK, a);
    NodeMoved(code, code', k + 3, d, BRANCH, k + 6);
    NodeMoved(code, code', k + 6, d, NOTHING, e);
  }

  lemma {:induction false} Loop1Moved(code: bytes, code': bytes, a: int, d: nat, y: Re, e: int)
    requires Ok(Loop1(y)) && Laid(code, a, Loop1(y), e) && SameBytes(code, code', a, a + Size(Loop1(y)), d) && NULL <= e
    ensures Laid(code', a + d, Loop1(y), Shift(e, d))
    decreases y, 2, 0
  {
    var b := a + Size(y);
    Loop1Parts(code, a, y, e, b);
    NodeMoved(code, code', b, d, BRANCH, b + 6);
    NodeMoved(code, code', b + 3, d, BACK, a);
    NodeMoved(code, code', b + 6, d, BRANCH, b + 9);
    NodeMoved(code, code', b + 9, d, NOTHING, e);
    var a', b', e' := a + d, b + d, Shift(e, d);
    MovedTo(code, code', a, a', d, y, b, b');
    Loop1Laid(code', a', y, e', b');
  }

  lemma Loop1Parts(code: bytes, a: int, y: Re, e: int, b: int)
    requires Laid(code, a, Loop1(y), e) && b == a + Size(y)
    ensures Laid(code, a, y, b) && NodeAt(code, b, BRANCH, b + 6) && NodeAt(code, b + 3, BACK, a)
    ensures NodeAt(code, b + 6, BRANCH, b + 9) && NodeAt(code, b + 9, NOTHING, e)
  {
    assert Tree(Loop1(y));
  }

  lemma Loop1Laid(code: bytes, a: int, y: Re, e: int, b: int)
    requires b == a + Size(y) && Laid(code, a, y, b) && NodeAt(code, b, BRANCH, b + 6)
    requires NodeAt(code, b + 3, BACK, a) && NodeAt(code, b + 6, BRANCH, b + 9) && NodeAt(code, b + 9, NOTHING, e)
    ensures Laid(code, a, Loop1(y), e)
  {
  }

  lemma {:induction false} OptMoved(code: bytes, code': bytes, a: int, d: nat, y: Re, e: int)
    requires Ok(Opt(y)) && Laid(code, a, Opt(y), e) && SameBytes(code, code', a, a + Size(Opt(y)), d) && NULL <= e
    ensures Laid(code', a + d, Opt(y), Shift(e, d))
    decreases y, 2, 0
  {
    var b := a + 3 + Size(y);
    var a', b', e' := a + d, b + d, Shift(e, d);
    OptParts(code, a, y, e, b);
    OptNodesMoved(code, code', a, b, d, e);
    MovedTo(code, code', a + 3, a' + 3, d, y, b + 3, b' + 3);
    OptLaid(code', a', y, e', b');
  }

  lemma OptNodesMoved(code: bytes, code': bytes, a: int, b: int, d: nat, e: int)
    requires SameBytes(code, code', a, b + 6, d) && NULL <= e && a + 3 <= b
    requires NodeAt(code, a, BRANCH, b) && NodeAt(code, b, BRANCH, b + 3) && NodeAt(code, b + 3, NOTHING, e)
    ensures NodeAt(code', a + d, BRANCH, b + d) && NodeAt(code', b + d, BRANCH, b + 3 + d)
    ensures NodeAt(code', b + 3 + d, NOTHING, Shift(e, d))
  {
    NodeMoved(code, code', a, d, BRANCH, b);
    NodeMoved(code, code', b, d, BRANCH, b + 3);
    NodeMoved(code, code', b + 3, d, NOTHING, e);
  }

  lemma OptParts(code: bytes, a: int, y: Re, e: int, b: int)
    requires Laid(code, a, Opt(y), e) && b == a + 3 + Size(y)
    ensures NodeAt(code, a, BRANCH, b) && Laid(code, a + 3, y, b + 3)
    ensures NodeAt(code, b, BRANCH, b + 3) && NodeAt(code, b + 3, NOTHING, e)
  {
    assert Tree(Opt(y));
  }

  lemma OptLaid(code: bytes, a: int, y: Re, e: int, b: int)
    requires b == a + 3 + Size(y) && NodeAt(code, a, BRANCH, b) && Laid(code, a + 3, y, b + 3)
    requires NodeAt(code, b, BRANCH, b + 3) && NodeAt(code, b + 3, NOTHING, e)
    ensures Laid(code, a, Opt(y), e)
  {
  }

  lemma {:induction false} GroupMoved(code: bytes, code': bytes, a: int, d: nat, no: nat, y: Re, e: int)
    requires Ok(Group(no, y)) && Laid(code, a, Group(no, y), e) && NULL <= e
    requires SameBytes(code, code', a, a + Size(Group(no, y)), d)
    ensures Laid(code', a + d, Group(no, y), Shift(e, d))
    decreases y, 2, 0
  {
    var c := a + 3 + SizeAlts(y);
    var a', c', e' := a + d, c + d, Shift(e, d);
    GroupParts(code, a, no, y, e, c);
    NodeMoved(code, code', a, d, OPEN + no, a + 3);
    NodeMoved(code, code', c, d, CLOSE + no, e);
    MovedAlts(code, code', a + 3, a' + 3, d, y, c, c', c, c', Count(y));
    GroupLaid(code', a', no, y, e', c');
  }

  lemma GroupParts(code: bytes, a: int, no: nat, y: Re, e: int, c: int)
    requires Laid(code, a, Group(no, y), e) && c == a + 3 + SizeAlts(y)
    ensures no < MAX_SUBX && NodeAt(code, a, OPEN + no, a + 3) && LaidAlts(code, a + 3, y, c, c, Count(y))
    ensures NodeAt(code, c, CLOSE + no, e)
  {
    assert Tree(Group(no, y));
  }

  lemma GroupLaid(code: bytes, a: int, no: nat, y: Re, e: int, c: int)
    requires no < MAX_SUBX && c == a + 3 + SizeAlts(y) && NodeAt(code, a, OPEN + no, a + 3)
    requires LaidAlts(code, a + 3, y, c, c, Count(y)) && NodeAt(code, c, CLOSE + no, e)
    ensures Laid(code, a, Group(no, y), e)
  {
  }

  /** The same for a chain, with the places after the move named. */
  lemma {:induction false} MovedAlts(code: bytes, code': bytes, a: int, a': int, d: nat, x: Re, c: int, c': int,
                                     o: int, o': int, m: nat)
    requires OkAlts(x) && LaidAlts(code, a, x, c, o, m) && SameBytes(code, code', a, a + SizeAlts(x), d)
    requires NULL <= c && 0 <= o && a' == a + d && c' == Shift(c, d) && o' == o + d
    ensures LaidAlts(code', a', x, c', o', m)
    decreases x, 1, 0
  {
    var b := if x.Alt? then a + SizeAlts(x.x) else a;
    var b', last, e := b + d, LastOperand(x), if m >= Count(x) then o else NULL;
    AltParts(code, a, x, b, c, o, m, e);
    BranchMoved(code, code', b, b', d, last, c, c', e, Shift(e, d));
    if x.Alt? {
      MovedAlts(code, code', a, a', d, x.x, b, b', o, o', m);
    }
    AltLaid(code', a', x, b', c', o', m, Shift(e, d));
  }

  lemma {:induction false} BranchMoved(code: bytes, code': bytes, b: int, b': int, d: nat, x: Re, c: int, c': int,
                                       e: int, e': int)
    requires Ok(x) && NodeAt(code, b, BRANCH, c) && Laid(code, b + 3, x, e) && NULL <= c && NULL <= e
    requires SameBytes(code, code', b, b + 3 + Size(x), d)
    requires b' == b + d && c' == Shift(c, d) && e' == Shift(e, d)
    ensures NodeAt(code', b', BRANCH, c') && Laid(code', b' + 3, x, e')
    decreases x, 0, 3
  {
    NodeMoved(code, code', b, d, BRANCH, c);
    MovedTo(code, code', b + 3, b' + 3, d, x, e, e');
  }

  /** The last alternative. */
  function LastOperand(x: Re): Re {
    if x.Alt? then x.y else x
  }

  /** The same for a fragment. */
  lemma {:induction false} MovedTo(code: bytes, code': bytes, a: int, a': int, d: nat, x: Re, e: int, e': int)
    requires Ok(x) && Laid(code, a, x, e) && SameBytes(code, code', a, a + Size(x), d) && NULL <= e
    requires a' == a + d && e' == Shift(e, d)
    ensures Laid(code', a', x, e')
    decreases x, 0, 2
  {
    Moved(code, code', a, d, x, e);
  }

  /** A chain is a shorter chain, if there is more than one alternative, and the last one behind it. */
  lemma AltParts(code: bytes, a: int, x: Re, b: int, c: int, o: int, m: nat, e: int)
    requires LaidAlts(code, a, x, c, o, m) && b == (if x.Alt? then a + SizeAlts(x.x) else a)
    requires e == if m >= Count(x) then o else NULL
    ensures x.Alt? ==> LaidAlts(code, a, x.x, b, o, m)
    ensures NodeAt(code, b, BRANCH, c) && Laid(code, b + 3, LastOperand(x), e)
  {
  }

  lemma AltLaid(code: bytes, a: int, x: Re, b: int, c: int, o: int, m: nat, e: int)
    requires b == (if x.Alt? then a + SizeAlts(x.x) else a) && e == if m >= Count(x) then o else NULL
    requires x.Alt? ==> LaidAlts(code, a, x.x, b, o, m)
    requires NodeAt(code, b, BRANCH, c) && Laid(code, b + 3, LastOperand(x), e)
    ensures LaidAlts(code, a, x, c, o, m)
  {
  }

  /** Distance from the start of a fragment to the node its exit leaves from. */
  function Tail(x: Re): nat {
    match x
    case Unit(op, w) => 0
    case Rep(op, y) => 0
    case Loop0(y) => 9 + Size(y)
    case Loop1(y) => 9 + Size(y)
    case Opt(y) => 6 + Size(y)
    case Group(no, y) => 3 + SizeAlts(y)
    case Empty => 0
    case Cat(y, z) => Size(y) + Tail(z)
    case Alt(y, z) => 0
  }

  lemma {:induction false} TailInside(x: Re)
    requires Ok(x)
    ensures Tail(x) + 3 <= Size(x)
  {
    match x
    case Cat(y, z) => TailInside(z);
    case _ =>
  }

  /** Distance to the last BRANCH node of a chain. */
  function LastBranch(x: Re): nat {
    if x.Alt? then SizeAlts(x.x) else 0
  }

  /** Following next offsets from `p` leads to the node `q`, which has none. */
  predicate Walk(code: bytes, p: int, q: int)
    decreases |code| - p
  {
    IsNode(code, p) &&
    if Offset(code, p) == 0 then p == q else code[p] != BACK && Walk(code, p + Offset(code, p), q)
  }

  lemma Hop(code: bytes, a: int, op: byte, e: int, q: int)
    requires NodeAt(code, a, op, e) && op != BACK && e != NULL && Walk(code, e, q)
    ensures Walk(code, a, q)
  {
    assert Byte(a);
  }

  /** The walk from a fragment goes to its open end, or on from its exit. */
  lemma {:induction false} FragWalk(code: bytes, a: int, x: Re, e: int, q: int)
    requires Ok(x) && Laid(code, a, x, e)
    requires if e == NULL then q == a + Tail(x) else Walk(code, e, q)
    ensures Walk(code, a, q)
    decreases x, 0, 1
  {
    assert Tree(x);
    match x
    case Unit(op, w) => EndWalk(code, a, op, e, q);
    case Rep(op, y) => EndWalk(code, a, op, e, q);
    case Empty => EndWalk(code, a, NOTHING, e, q);
    case Loop0(y) =>
      var k := a + 3 + Size(y);
      EndWalk(code, k + 6, NOTHING, e, q);
      Hop(code, k + 3, BRANCH, k + 6, q);
      Hop(code, a, BRANCH, k + 3, q);
    case Loop1(y) => Loop1Walk(code, a, y, e, q);
    case Opt(y) =>
      var b := a + 3 + Size(y);
      EndWalk(code, b + 3, NOTHING, e, q);
      Hop(code, b, BRANCH, b + 3, q);
      Hop(code, a, BRANCH, b, q);
    case Group(no, y) => GroupWalk(code, a, no, y, e, q);
    case Cat(y, z) =>
      FragWalk(code, a + Size(y), z, e, q);
      FragWalk(code, a, y, a + Size(y), q);
  }

  lemma EndWalk(code: bytes, a: int, op: byte, e: int, q: int)
    requires NodeAt(code, a, op, e) && op != BACK
    requires if e == NULL then q == a else Walk(code, e, q)
    ensures Walk(code, a, q)
  {
    assert Byte(a);
  }

  lemma {:induction false} Loop1Walk(code: bytes, a: int, y: Re, e: int, q: int)
    requires Ok(Loop1(y)) && Laid(code, a, Loop1(y), e)
    requires if e == NULL then q == a + Tail(Loop1(y)) else Walk(code, e, q)
    ensures Walk(code, a, q)
    decreases y, 2, 0
  {
    assert Tree(Loop1(y));
    var b := a + Size(y);
    EndWalk(code, b + 9, NOTHING, e, q);
    Hop(code, b + 6, BRANCH, b + 9, q);
    Hop(code, b, BRANCH, b + 6, q);
    FragWalk(code, a, y, b, q);
  }

  lemma {:induction false} GroupWalk(code: bytes, a: int, no: nat, y: Re, e: int, q: int)
    requires Ok(Group(no, y)) && Laid(code, a, Group(no, y), e)
    requires if e == NULL then q == a + Tail(Group(no, y)) else Walk(code, e, q)
    ensures Walk(code, a, q)
    decreases y, 2, 0
  {
    assert Tree(Group(no, y));
    var c := a + 3 + SizeAlts(y);
    EndWalk(code, c, CLOSE + no, e, q);
    ChainWalk(code, a + 3, y, c, c, Count(y), q);
    Hop(code, a, OPEN + no, a + 3, q);
  }

  lemma {:induction false} ChainWalk(code: bytes, a: int, x: Re, c: int, o: int, m: nat, q: int)
    requires OkAlts(x) && LaidAlts(code, a, x, c, o, m)
    requires if c == NULL then q == a + LastBranch(x) else Walk(code, c, q)
    ensures Walk(code, a, q)
    decreases x, 1, 0
  {
    if x.Alt? {
      var b := a + SizeAlts(x.x);
      EndWalk(code, b, BRANCH, c, q);
      ChainWalk(code, a, x.x, b, o, m, q);
    } else {
      EndWalk(code, a, BRANCH, c, q);
    }
  }

  /** `code'` is `code` with the next offset of the node at `q` changed to lead to `e`. */
  predicate Relinked(code: bytes, code': bytes, q: int, e: int) {
    && |code'| == |code| && IsNode(code, q)
    && (forall k {:trigger Byte(k)} :: Byte(k) && 0 <= k < |code| && k != q + 1 && k != q + 2 ==> code'[k] == code[k])
    && Next(code', q) == e
  }

  /** The code with a next offset written to the node at `q`. */
  function WithOffset(code: bytes, q: int, offset: nat): bytes
    requires IsNode(code, q)
  {
    code[q + 1 := offset / 256 % 256][q + 2 := offset % 256]
  }

  /** How far the node at `q` is from an address, in the direction of its offset. */
  function Distance(code: bytes, q: int, val: int): int
    requires IsNode(code, q)
  {
    if code[q] == BACK then q - val else val - q
  }

  /** An offset reads back as it was written exactly when it is below 64K; a multiple of 64K reads
    back as no offset, so that the node counts as the last one. */
  lemma OffsetKept(code: bytes, q: int, offset: nat)
    requires IsNode(code, q)
    ensures Offset(WithOffset(code, q, offset), q) == offset <==> offset < 0x1_0000
    ensures offset % 0x1_0000 == 0 ==> Next(WithOffset(code, q, offset), q) == NULL
  {
    assert offset / 256 % 256 * 256 + offset % 256 == offset % 0x1_0000;
  }

  lemma Outside(code: bytes, code': bytes, q: int, e: int, a: int, b: int)
    requires Relinked(code, code', q, e) && 0 <= a && b <= |code| && (b <= q + 1 || q + 3 <= a)
    ensures SameBytes(code, code', a, b, 0)
  {
  }

  lemma NodeRelinked(code: bytes, code': bytes, a: int, op: byte, e: int)
    requires NodeAt(code, a, op, NULL) && Relinked(code, code', a, e)
    ensures NodeAt(code', a, op, e)
  {
    assert Byte(a);
  }

  /** Patching the open end of a fragment closes it. */
  lemma {:induction false} Patched(code: bytes, code': bytes, a: int, x: Re, e: int)
    requires Ok(x) && Laid(code, a, x, NULL) && Relinked(code, code', a + Tail(x), e)
    requires 0 <= a && a + Size(x) <= |code|
    ensures Laid(code', a, x, e)
    decreases x, 1
  {
    if x.Cat? {
      assert Tree(x);
      CatPatched(code, code', a, x.x, x.y, e);
    } else {
      NodePatched(code, code', a, x, e);
    }
  }

  lemma NodePatched(code: bytes, code': bytes, a: int, x: Re, e: int)
    requires Ok(x) && !x.Cat? && Laid(code, a, x, NULL) && Relinked(code, code', a + Tail(x), e)
    requires 0 <= a && a + Size(x) <= |code|
    ensures Laid(code', a, x, e)
  {
    var q := a + Tail(x);
    TailInside(x);
    TailPatched(code, code', a, x, e);
    Outside(code, code', q, e, a, q);
    Outside(code, code', q, e, q + 3, a + Size(x));
    BodyPatched(code, code', a, x, e);
  }

  /** The opcode of the node a fragment ends with. */
  function TailOp(x: Re): int {
    match x
    case Unit(op, w) => op
    case Rep(op, y) => op
    case Group(no, y) => CLOSE + no
    case _ => NOTHING
  }

  lemma TailPatched(code: bytes, code': bytes, a: int, x: Re, e: int)
    requires Ok(x) && !x.Cat? && Laid(code, a, x, NULL) && Relinked(code, code', a + Tail(x), e)
    ensures 0 <= TailOp(x) < 256 && NodeAt(code', a + Tail(x), TailOp(x), e)
  {
    assert Tree(x);
    assert Byte(a + Tail(x));
  }

  lemma BodyPatched(code: bytes, code': bytes, a: int, x: Re, e: int)
    requires Ok(x) && !x.Cat? && Laid(code, a, x, NULL)
    requires 0 <= TailOp(x) < 256 && NodeAt(code', a + Tail(x), TailOp(x), e)
    requires SameBytes(code, code', a, a + Tail(x), 0) && SameBytes(code, code', a + Tail(x) + 3, a + Size(x), 0)
    ensures Laid(code', a, x, e)
  {
    match x
    case Unit(op, w) =>
      assert Tree(x);
      UnitPatched(code, code', a, op, w, e);
    case Rep(op, y) => RepPatched(code, code', a, op, y, e);
    case Empty => assert Tree(x);
    case Loop0(y) => Loop0Patched(code, code', a, y, e);
    case Loop1(y) => Loop1Patched(code, code', a, y, e);
    case Opt(y) => OptPatched(code, code', a, y, e);
    case Group(no, y) => GroupPatched(code, code', a, no, y, e);
  }

  lemma {:induction false} CatPatched(code: bytes, code': bytes, a: int, y: Re, z: Re, e: int)
    requires Ok(y) && Ok(z) && Laid(code, a, y, a + Size(y)) && Laid(code, a + Size(y), z, NULL)
    requires Relinked(code, code', a + Size(y) + Tail(z), e) && 0 <= a && a + Size(y) + Size(z) <= |code|
    ensures Laid(code', a, y, a + Size(y)) && Laid(code', a + Size(y), z, e)
    decreases Cat(y, z), 0
  {
    Patched(code, code', a + Size(y), z, e);
    Beside(code, code', a + Size(y) + Tail(z), e, a, y, a + Size(y));
  }

  lemma RepPatched(code: bytes, code': bytes, a: int, op: byte, y: Re, e: int)
    requires Ok(Rep(op, y)) && Laid(code, a, Rep(op, y), NULL) && NodeAt(code', a, op, e)
    requires SameBytes(code, code', a + 3, a + 3 + Size(y), 0)
    ensures Laid(code', a, Rep(op, y), e)
  {
    assert Tree(Rep(op, y));
    UnitMoved(code, code', a + 3, 0, y.op, y.w, NULL);
  }

  /** A fragment that does not contain the patched node keeps its layout. */
  lemma Beside(code: bytes, code': bytes, q: int, e: int, a: int, x: Re, b: int)
    requires Ok(x) && Laid(code, a, x, b) && NULL <= b && Relinked(code, code', q, e)
    requires 0 <= a && a + Size(x) <= |code| && (a + Size(x) <= q || q + 3 <= a)
    ensures Laid(code', a, x, b)
  {
    Outside(code, code', q, e, a, a + Size(x));
    Moved(code, code', a, 0, x, b);
  }

  lemma UnitPatched(code: bytes, code': bytes, a: int, op: byte, w: bytes, e: int)
    requires UnitAt(code, a, op, w, NULL) && NodeAt(code', a, op, e)
    requires SameBytes(code, code', a + 3, a + (if HasOperand(op) then 4 + |w| else 3), 0)
    ensures UnitAt(code', a, op, w, e)
  {
    if HasOperand(op) { StringMoved(code, code', a + 3, 0, w); }
  }

  lemma Loop0Patched(code: bytes, code': bytes, a: int, y: Re, e: int)
    requires Ok(Loop0(y)) && Laid(code, a, Loop0(y), NULL) && NodeAt(code', a + Tail(Loop0(y)), NOTHING, e)
    requires SameBytes(code, code', a, a + Tail(Loop0(y)), 0)
    ensures Laid(code', a, Loop0(y), e)
  {
    var k := a + 3 + Size(y);
    Loop0Parts(code, a, y, NULL, k);
    NodeMoved(code, code', a, 0, BRANCH, k + 3);
    NodeMoved(code, code', k, 0, BACK, a);
    NodeMoved(code, code', k + 3, 0, BRANCH, k + 6);
    MovedTo(code, code', a + 3, a + 3, 0, y, k, k);
    Loop0Laid(code', a, y, e, k);
  }

  lemma Loop1Patched(code: bytes, code': bytes, a: int, y: Re, e: int)
    requires Ok(Loop1(y)) && Laid(code, a, Loop1(y), NULL) && NodeAt(code', a + Tail(Loop1(y)), NOTHING, e)
    requires SameBytes(code, code', a, a + Tail(Loop1(y)), 0)
    ensures Laid(code', a, Loop1(y), e)
  {
    var b := a + Size(y);
    Loop1Parts(code, a, y, NULL, b);
    NodeMoved(code, code', b, 0, BRANCH, b + 6);
    NodeMoved(code, code', b + 3, 0, BACK, a);
    NodeMoved(code, code', b + 6, 0, BRANCH, b + 9);
    MovedTo(code, code', a, a, 0, y, b, b);
    Loop1Laid(code', a, y, e, b);
  }

  lemma OptPatched(code: bytes, code': bytes, a: int, y: Re, e: int)
    requires Ok(Opt(y)) && Laid(code, a, Opt(y), NULL) && NodeAt(code', a + Tail(Opt(y)), NOTHING, e)
    requires SameBytes(code, code', a, a + Tail(Opt(y)), 0)
    ensures Laid(code', a, Opt(y), e)
  {
    var b := a + 3 + Size(y);
    OptParts(code, a, y, NULL, b);
    NodeMoved(code, code', a, 0, BRANCH, b);
    NodeMoved(code, code', b, 0, BRANCH, b + 3);
    MovedTo(code, code', a + 3, a + 3, 0, y, b + 3, b + 3);
    OptLaid(code', a, y, e, b);
  }

  lemma GroupPatched(code: bytes, code': bytes, a: int, no: nat, y: Re, e: int)
    requires Ok(Group(no, y)) && Laid(code, a, Group(no, y), NULL)
    requires NodeAt(code', a + Tail(Group(no, y)), CLOSE + no, e)
    requires SameBytes(code, code', a, a + Tail(Group(no, y)), 0)
    ensures Laid(code', a, Group(no, y), e)
  {
    var c := a + 3 + SizeAlts(y);
    GroupParts(code, a, no, y, NULL, c);
    NodeMoved(code, code', a, 0, OPEN + no, a + 3);
    MovedAlts(code, code', a + 3, a + 3, 0, y, c, c, c, c, Count(y));
    GroupLaid(code', a, no, y, e, c);
  }

  /** Patching the last BRANCH node of a chain continues the chain. */
  lemma ChainPatched(code: bytes, code': bytes, a: int, x: Re, o: int, m: nat, c: int)
    requires OkAlts(x) && LaidAlts(code, a, x, NULL, o, m) && Relinked(code, code', a + LastBranch(x), c)
    requires 0 <= a && a + SizeAlts(x) <= |code| && 0 <= o
    ensures LaidAlts(code', a, x, c, o, m)
  {
    var q := a + LastBranch(x);
    Outside(code, code', q, c, a, q + 1);
    Outside(code, code', q, c, q + 3, a + SizeAlts(x));
    NodeRelinked(code, code', q, BRANCH, c);
    if x.Alt? {
      AltPatched(code, code', a, x.x, x.y, o, m, c);
    } else {
      Moved(code, code', a + 3, 0, x, if m >= 1 then o else NULL);
    }
  }

  lemma AltPatched(code: bytes, code': bytes, a: int, y: Re, z: Re, o: int, m: nat, c: int)
    requires OkAlts(y) && Ok(z) && LaidAlts(code, a, Alt(y, z), NULL, o, m) && 0 <= o
    requires NodeAt(code', a + SizeAlts(y), BRANCH, c)
    requires SameBytes(code, code', a, a + SizeAlts(y), 0)
    requires SameBytes(code, code', a + SizeAlts(y) + 3, a + SizeAlts(y) + 3 + Size(z), 0)
    ensures LaidAlts(code', a, Alt(y, z), c, o, m)
  {
    var b, e := a + SizeAlts(y), if m >= Count(y) + 1 then o else NULL;
    AltParts(code, a, Alt(y, z), b, NULL, o, m, e);
    MovedAlts(code, code', a, a, 0, y, b, b, o, o, m);
    MovedTo(code, code', b + 3, b + 3, 0, z, e, e);
    AltLaid(code', a, Alt(y, z), b, c, o, m, e);
  }

  /** `code'` is `code` with one node of opcode `op` inserted at `a`. */
  predicate Inserted(code: bytes, code': bytes, a: int, op: byte) {
    0 <= a <= |code| && code' == code[..a] + [op, 0, 0] + code[a..]
  }

  lemma InsertMoves(code: bytes, code': bytes, a: int, op: byte)
    requires Inserted(code, code', a, op)
    ensures SameBytes(code, code', 0, a, 0) && SameBytes(code, code', a, |code|, 3) && NodeAt(code', a, op, NULL)
  {
  }

  lemma AppendKeeps(code: bytes, code': bytes, m: bytes)
    requires code' == code + m
    ensures SameBytes(code, code', 0, |code|, 0)
  {
  }

  /** A node other than the patched one stays. */
  lemma NodeKept(code: bytes, code': bytes, q: int, e: int, a: int, op: byte, b: int)
    requires NodeAt(code, a, op, b) && Relinked(code, code', q, e) && (a + 3 <= q || q + 3 <= a)
    ensures NodeAt(code', a, op, b)
  {
    assert Byte(a) && Byte(a + 1) && Byte(a + 2);
  }

  /** Appending a node leaves a fragment alone. */
  lemma {:induction false} FragAppend(code: bytes, code': bytes, m: bytes, a: int, x: Re, e: int)
    requires code' == code + m && Ok(x) && Laid(code, a, x, e) && NULL <= e && 0 <= a && a + Size(x) <= |code|
    ensures Laid(code', a, x, e)
  {
    AppendKeeps(code, code', m);
    assert SameBytes(code, code', a, a + Size(x), 0);
    MovedTo(code, code', a, a, 0, x, e, e);
  }
}
