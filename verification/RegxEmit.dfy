/** The emission sequences for `*`, `+` and `?`, step by step: what stands in the program after
  each insertion, appended node and patched link. */
module RegxEmit {
  import opened Bytes
  import opened RegxCode
  import opened RegxSyntax
  import opened RegxLayout
  import opened RegxPatch

  /** A node whose next offset is still zero. */
  predicate Fresh(code: bytes, a: int, op: byte) {
    IsNode(code, a) && code[a] == op && Offset(code, a) == 0
  }

  lemma FreshKept(code: bytes, code': bytes, q: int, e: int, a: int, op: byte)
    requires Fresh(code, a, op) && Relinked(code, code', q, e) && (a + 3 <= q || q + 3 <= a)
    ensures Fresh(code', a, op)
  {
    assert Byte(a) && Byte(a + 1) && Byte(a + 2);
  }

  lemma FreshLinked(code: bytes, code': bytes, a: int, op: byte, e: int)
    requires Fresh(code, a, op) && Relinked(code, code', a, e)
    ensures NodeAt(code', a, op, e)
  {
    assert Byte(a);
  }

  lemma FreshAppend(code: bytes, code': bytes, m: bytes, a: int, op: byte)
    requires Fresh(code, a, op) && code' == code + m
    ensures Fresh(code', a, op)
  {
  }

  lemma NodeAppend(code: bytes, code': bytes, m: bytes, a: int, op: byte, e: int)
    requires NodeAt(code, a, op, e) && code' == code + m
    ensures NodeAt(code', a, op, e)
  {
  }

  /** The open end of a fragment is a forward node that is still unlinked. */
  lemma {:induction false} OpenEnd(code: bytes, a: int, x: Re)
    requires Ok(x) && Laid(code, a, x, NULL) && 0 <= a
    ensures IsNode(code, a + Tail(x)) && code[a + Tail(x)] != BACK && Tail(x) + 3 <= Size(x)
    ensures Walk(code, a, a + Tail(x))
    decreases x
  {
    TailInside(x);
    FragWalk(code, a, x, NULL, a + Tail(x));
    assert Tree(x);
    match x
    case Cat(y, z) => OpenEnd(code, a + Size(y), z);
    case _ =>
  }

  /** Operand moved up behind a new operator node. */
  lemma OperandMoved(c0: bytes, c1: bytes, a: int, op: byte, y: Re)
    requires Ok(y) && Laid(c0, a, y, NULL) && |c0| == a + Size(y) && Inserted(c0, c1, a, op)
    ensures Fresh(c1, a, op) && Laid(c1, a + 3, y, NULL) && SameBytes(c0, c1, 0, a, 0)
  {
    InsertMoves(c0, c1, a, op);
    Moved(c0, c1, a, 3, y, NULL);
  }

  /** A node appended behind `BRANCH y`. */
  lemma NodeBehind(c1: bytes, c2: bytes, a: int, y: Re, op: byte)
    requires Ok(y) && Fresh(c1, a, BRANCH) && Laid(c1, a + 3, y, NULL) && |c1| == a + 3 + Size(y)
    requires c2 == c1 + [op, 0, 0]
    ensures Fresh(c2, a, BRANCH) && Laid(c2, a + 3, y, NULL) && Fresh(c2, a + 3 + Size(y), op)
  {
    FreshAppend(c1, c2, [op, 0, 0], a, BRANCH);
    FragAppend(c1, c2, [op, 0, 0], a + 3, y, NULL);
  }

  /** The operand linked to the node `k` behind it, its own last node being `q`. */
  lemma OperandLinked(c2: bytes, c3: bytes, a: int, y: Re, q: int, k: int)
    requires Ok(y) && 0 <= a && Laid(c2, a + 3, y, NULL)
    requires q == a + 3 + Tail(y) && a + 3 + Size(y) <= |c2| && Relinked(c2, c3, q, k)
    ensures Laid(c3, a + 3, y, k)
  {
    Patched(c2, c3, a + 3, y, k);
  }

  lemma AroundOperand(c2: bytes, c3: bytes, a: int, y: Re, q: int, e: int, k: int, op: byte)
    requires Ok(y) && Fresh(c2, a, BRANCH) && Fresh(c2, k, op) && a + 3 + Size(y) <= k
    requires q == a + 3 + Tail(y) && Relinked(c2, c3, q, e)
    ensures Fresh(c3, a, BRANCH) && Fresh(c3, k, op)
  {
    TailInside(y);
    FreshKept(c2, c3, q, e, a, BRANCH);
    FreshKept(c2, c3, q, e, k, op);
  }

  lemma FragToFresh(code: bytes, a: int, x: Re, e: int, op: byte)
    requires Ok(x) && Laid(code, a, x, e) && e != NULL && Fresh(code, e, op)
    ensures Walk(code, a, e)
  {
    FragWalk(code, a, x, e, e);
  }

  /** The BACK node linked to the start of the loop. */
  lemma BackLinked(c3: bytes, c4: bytes, a: int, y: Re, k: int)
    requires Ok(y) && Fresh(c3, a, BRANCH) && Laid(c3, a + 3, y, k) && Fresh(c3, k, BACK)
    requires k == a + 3 + Size(y) && Relinked(c3, c4, k, a) && k + 3 == |c3|
    ensures Fresh(c4, a, BRANCH) && Laid(c4, a + 3, y, k) && NodeAt(c4, k, BACK, a)
  {
    FreshKept(c3, c4, k, a, a, BRANCH);
    Beside(c3, c4, k, a, a + 3, y, k);
    FreshLinked(c3, c4, k, BACK, a);
  }

  /** `BACK` behind a loop body, with the body linked to it. */
  ghost predicate LoopBody(code: bytes, p: int, y: Re, k: int, a: int) {
    Laid(code, p, y, k) && NodeAt(code, k, BACK, a)
  }

  lemma LoopBodyAppend(code: bytes, code': bytes, m: bytes, p: int, y: Re, k: int, a: int)
    requires Ok(y) && 0 <= p && LoopBody(code, p, y, k, a) && k == p + Size(y) && code' == code + m
    ensures LoopBody(code', p, y, k, a)
  {
    FragAppend(code, code', m, p, y, k);
    NodeAppend(code, code', m, k, BACK, a);
  }

  lemma LoopBodyBeside(code: bytes, code': bytes, q: int, e: int, p: int, y: Re, k: int, a: int)
    requires Ok(y) && 0 <= p && LoopBody(code, p, y, k, a) && k == p + Size(y) && Relinked(code, code', q, e)
    requires q + 3 <= p || k + 3 <= q
    ensures LoopBody(code', p, y, k, a)
  {
    Beside(code, code', q, e, p, y, k);
    NodeKept(code, code', q, e, k, BACK, a);
  }

  lemma Loop0Done(code: bytes, a: int, y: Re, k: int)
    requires k == a + 3 + Size(y) && NodeAt(code, a, BRANCH, k + 3) && LoopBody(code, a + 3, y, k, a)
    requires NodeAt(code, k + 3, BRANCH, k + 6) && Fresh(code, k + 6, NOTHING)
    ensures Laid(code, a, Loop0(y), NULL)
  {
    assert Tree(Loop0(y));
  }

  lemma Loop1Done(code: bytes, a: int, y: Re, b: int)
    requires b == a + Size(y) && Laid(code, a, y, b) && NodeAt(code, b, BRANCH, b + 6) && NodeAt(code, b + 3, BACK, a)
    requires NodeAt(code, b + 6, BRANCH, b + 9) && Fresh(code, b + 9, NOTHING)
    ensures Laid(code, a, Loop1(y), NULL)
  {
    assert Tree(Loop1(y));
  }

  lemma OptDone(code: bytes, a: int, y: Re, b: int)
    requires b == a + 3 + Size(y) && NodeAt(code, a, BRANCH, b) && Laid(code, a + 3, y, b + 3)
    requires NodeAt(code, b, BRANCH, b + 3) && Fresh(code, b + 3, NOTHING)
    ensures Laid(code, a, Opt(y), NULL)
  {
    assert Tree(Opt(y));
  }

  lemma RepDone(c0: bytes, c1: bytes, a: int, op: byte, y: Re)
    requires Ok(y) && y.Unit? && Laid(c0, a, y, NULL) && |c0| == a + Size(y) && Inserted(c0, c1, a, op)
    ensures Laid(c1, a, Rep(op, y), NULL) && SameBytes(c0, c1, 0, a, 0)
  {
    OperandMoved(c0, c1, a, op, y);
    assert Tree(y) && Tree(Rep(op, y));
  }

  /** `code'` is `code` with the open fragment `x` appended at `ret`. */
  ghost predicate Emitted(code: bytes, code': bytes, ret: int, x: Re) {
    ret == |code| && |code'| == |code| + Size(x) && SameBytes(code, code', 0, |code|, 0) && Laid(code', ret, x, NULL)
  }

  lemma UnitEmitted(code: bytes, code': bytes, op: byte, w: bytes)
    requires code' == code + [op, 0, 0] + (if HasOperand(op) then w + [0] else [])
    ensures Emitted(code, code', |code|, Unit(op, w))
  {
    var a := |code|;
    assert NodeAt(code', a, op, NULL);
    if HasOperand(op) { assert code'[a + 3..a + 3 + |w|] == w; }
    assert Tree(Unit(op, w));
  }

  /** Distance from the start of a branch to the start of its last piece. */
  function LastPiece(x: Re): nat {
    if x.Cat? then Size(x.x) else 0
  }

  /** The walk from the last piece of a branch finds the open end of the branch. */
  lemma LastPieceEnd(code: bytes, a: int, x: Re)
    requires Ok(x) && Laid(code, a, x, NULL) && 0 <= a
    ensures IsNode(code, a + Tail(x)) && code[a + Tail(x)] != BACK && Tail(x) + 3 <= Size(x)
    ensures Walk(code, a + LastPiece(x), a + Tail(x))
  {
    OpenEnd(code, a, x);
    if x.Cat? {
      assert Tree(x);
      OpenEnd(code, a + Size(x.x), x.y);
    }
  }

  /** A piece appended to a branch and the branch linked to it. */
  lemma PieceJoined(code: bytes, code': bytes, a: int, acc: Re, x: Re, q: int, b: int)
    requires Ok(acc) && Ok(x) && 0 <= a && b == a + Size(acc) && |code| == b + Size(x)
    requires Laid(code, a, acc, NULL) && Laid(code, b, x, NULL)
    requires q == a + Tail(acc) && Relinked(code, code', q, b)
    ensures Laid(code', a, Cat(acc, x), NULL)
  {
    TailInside(acc);
    Patched(code, code', a, acc, b);
    Beside(code, code', q, b, b, x, NULL);
    assert Tree(Cat(acc, x));
  }
}
