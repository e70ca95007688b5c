/** Where the nodes of a pattern tree stand in a program. Next offsets are relative, so a
  fragment keeps its layout when its bytes are moved, and its open end can be patched later. */
module RegxLayout {
  import opened Bytes
  import opened RegxCode
  import opened RegxSyntax

  function Size(x: Re): nat
    decreases x, 0
  {
    match x
    case Unit(op, w) => if HasOperand(op) then 4 + |w| else 3
    case Rep(op, y) => 3 + Size(y)
    case Loop0(y) => 12 + Size(y)
    case Loop1(y) => 12 + Size(y)
    case Opt(y) => 9 + Size(y)
    case Group(no, y) => 6 + SizeAlts(y)
    case Empty => 3
    case Cat(y, z) => Size(y) + Size(z)
    case Alt(y, z) => 0
  }

  function SizeAlts(x: Re): nat
    decreases x, 1
  {
    if x.Alt? then SizeAlts(x.x) + 3 + Size(x.y) else 3 + Size(x)
  }

  /** How many alternatives. */
  function Count(x: Re): nat {
    if x.Alt? then Count(x.x) + 1 else 1
  }

  /** Names an address of interest: statements about whole stretches of code apply to the
    addresses named with it, so that they are used where a proof asks for them. */
  predicate Byte(k: int) {
    true
  }

  /** A node with this opcode and this successor, which is NULL while it is unpatched. */
  predicate NodeAt(code: bytes, a: int, op: byte, next: int) {
    IsNode(code, a) && code[a] == op && Next(code, a) == next
  }

  /** A NUL-terminated operand string. */
  predicate StringAt(code: bytes, a: int, w: bytes) {
    0 <= a && a + |w| < |code| && code[a..a + |w|] == w && code[a + |w|] == 0
  }

  predicate UnitAt(code: bytes, a: int, op: byte, w: bytes, next: int) {
    NodeAt(code, a, op, next) && (HasOperand(op) ==> StringAt(code, a + 3, w))
  }

  /** Names a tree of interest: a layout says something about the trees named with it, so that
    it is taken apart where a proof asks for it. */
  predicate Tree(x: Re) {
    true
  }

  /** The nodes of `x` stand at `a`; where the fragment ends it continues at `e`, or is still open. */
  ghost predicate Laid(code: bytes, a: int, x: Re, e: int)
    decreases x, 0
  {
    forall v: Re {:trigger Tree(v)} :: Tree(v) && v == x ==>
      match v
      case Unit(op, w) => UnitAt(code, a, op, w, e)
      case Rep(op, y) => NodeAt(code, a, op, e) && y.Unit? && UnitAt(code, a + 3, y.op, y.w, NULL)
      case Loop0(y) =>
        var k := a + 3 + Size(y);
        NodeAt(code, a, BRANCH, k + 3) && Laid(code, a + 3, y, k) && NodeAt(code, k, BACK, a)
        && NodeAt(code, k + 3, BRANCH, k + 6) && NodeAt(code, k + 6, NOTHING, e)
      case Loop1(y) =>
        var b := a + Size(y);
        Laid(code, a, y, b) && NodeAt(code, b, BRANCH, b + 6) && NodeAt(code, b + 3, BACK, a)
        && NodeAt(code, b + 6, BRANCH, b + 9) && NodeAt(code, b + 9, NOTHING, e)
      case Opt(y) =>
        var b := a + 3 + Size(y);
        NodeAt(code, a, BRANCH, b) && Laid(code, a + 3, y, b + 3)
        && NodeAt(code, b, BRANCH, b + 3) && NodeAt(code, b + 3, NOTHING, e)
      case Group(no, y) =>
        var c := a + 3 + SizeAlts(y);
        no < MAX_SUBX && NodeAt(code, a, OPEN + no, a + 3) && LaidAlts(code, a + 3, y, c, c, Count(y))
        && NodeAt(code, c, CLOSE + no, e)
      case Empty => NodeAt(code, a, NOTHING, e)
      case Cat(y, z) => Laid(code, a, y, a + Size(y)) && Laid(code, a + Size(y), z, e)
      case Alt(y, z) => false
  }

  /** The chain of BRANCH nodes of `x` stands at `a` and continues at `c`; the first `m` branches
    continue at `o`, the others are still open. */
  ghost predicate LaidAlts(code: bytes, a: int, x: Re, c: int, o: int, m: nat)
    decreases x, 1
  {
    var e := if m >= Count(x) then o else NULL;
    if x.Alt? then
      var b := a + SizeAlts(x.x);
      LaidAlts(code, a, x.x, b, o, m) && NodeAt(code, b, BRANCH, c) && Laid(code, b + 3, x.y, e)
    else
      NodeAt(code, a, BRANCH, c) && Laid(code, a + 3, x, e)
  }

  lemma {:induction false} StringIsOperand(code: bytes, a: nat, w: bytes)
    requires StringAt(code, a, w) && NulFree(w)
    ensures Operand(code, a) == w
    decreases |w|
  {
    if w != [] {
      assert code[a] == w[0];
      assert code[a + 1..a + |w|] == w[1..];
      StringIsOperand(code, a + 1, w[1..]);
    }
  }

  /** The whole program of `x` stands at `a`: its alternatives, all leading to END. */
  ghost predicate IsProgram(code: bytes, a: int, x: Re) {
    var e := a + SizeAlts(x);
    LaidAlts(code, a, x, e, e, Count(x)) && NodeAt(code, e, END, NULL)
  }
}
