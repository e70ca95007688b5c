/** Patterns as trees, the language a tree stands for, and the flags the compiler keeps. */
module RegxSyntax {
  import opened Bytes
  import opened RegxCode

  /** A pattern. Concatenations and alternatives nest to the left, as the compiler appends them.
    `Unit` is one node with an optional string operand; `Rep` repeats a simple node with one of
    the four repeat nodes; `Loop0`, `Loop1` and `Opt` are the branching forms of `*`, `+` and `?`. */
  datatype Re =
    | Unit(op: byte, w: bytes)
    | Rep(rop: byte, x: Re)
    | Loop0(x: Re)
    | Loop1(x: Re)
    | Opt(x: Re)
    | Group(no: nat, x: Re)
    | Empty
    | Cat(x: Re, y: Re)
    | Alt(x: Re, y: Re)

  /** Does `s[i..j]`, in its place in `s`, belong to the language of `x`, when only groups up to
    `cap` can match at all? With `cap` at least the number of groups this is the usual language. */
  ghost predicate L(x: Re, cap: nat, s: bytes, i: nat, j: nat)
    requires i <= j <= |s|
    decreases x, 0, j - i
  {
    match x
    case Unit(op, w) => UnitStep(op, w, s, i) == j
    case Rep(op, y) =>
      if op == STAR || op == STARX then LStar(y, cap, s, i, j) else LPlus(y, cap, s, i, j)
    case Loop0(y) => LStar(y, cap, s, i, j)
    case Loop1(y) => LPlus(y, cap, s, i, j)
    case Opt(y) => i == j || L(y, cap, s, i, j)
    case Group(no, y) => no <= cap && L(y, cap, s, i, j)
    case Empty => i == j
    case Cat(y, z) => exists m :: i <= m <= j && L(y, cap, s, i, m) && L(z, cap, s, m, j)
    case Alt(y, z) => L(y, cap, s, i, j) || L(z, cap, s, i, j)
  }

  /** Any number of consecutive members of `x`; empty ones add nothing and are not counted. */
  ghost predicate LStar(x: Re, cap: nat, s: bytes, i: nat, j: nat)
    requires i <= j <= |s|
    decreases x, 1, j - i
  {
    i == j || exists m :: i < m <= j && L(x, cap, s, i, m) && LStar(x, cap, s, m, j)
  }

  /** At least one member of `x`. */
  ghost predicate LPlus(x: Re, cap: nat, s: bytes, i: nat, j: nat)
    requires i <= j <= |s|
    decreases x, 2, j - i
  {
    exists m :: i <= m <= j && L(x, cap, s, i, m) && LStar(x, cap, s, m, j)
  }

  lemma StarSplit(x: Re, cap: nat, s: bytes, i: nat, j: nat) returns (m: nat)
    requires i < j <= |s| && LStar(x, cap, s, i, j)
    ensures i < m <= j && L(x, cap, s, i, m) && LStar(x, cap, s, m, j)
  {
    m :| i < m <= j && L(x, cap, s, i, m) && LStar(x, cap, s, m, j);
  }

  lemma PlusSplit(x: Re, cap: nat, s: bytes, i: nat, j: nat) returns (m: nat)
    requires i <= j <= |s| && LPlus(x, cap, s, i, j)
    ensures i <= m <= j && L(x, cap, s, i, m) && LStar(x, cap, s, m, j)
  {
    m :| i <= m <= j && L(x, cap, s, i, m) && LStar(x, cap, s, m, j);
  }

  lemma CatSplit(x: Re, y: Re, cap: nat, s: bytes, i: nat, j: nat) returns (m: nat)
    requires i <= j <= |s| && L(Cat(x, y), cap, s, i, j)
    ensures i <= m <= j && L(x, cap, s, i, m) && L(y, cap, s, m, j)
  {
    m :| i <= m <= j && L(x, cap, s, i, m) && L(y, cap, s, m, j);
  }

  predicate HasOperand(op: byte) {
    op == ANYOF || op == ANYBUT || op == EXACTLY
  }

  /** The HASWIDTH flag the compiler computes. */
  predicate Wide(x: Re) {
    match x
    case Unit(op, w) => op == ANY || HasOperand(op)
    case Rep(op, y) => op == PLUS || op == PLUSX
    case Loop0(y) => false
    case Loop1(y) => true
    case Opt(y) => false
    case Group(no, y) => Wide(y)
    case Empty => false
    case Cat(y, z) => Wide(y) || Wide(z)
    case Alt(y, z) => Wide(y) && Wide(z)
  }

  /** The SIMPLE flag: one node that takes exactly one character. */
  predicate Simple(x: Re) {
    x.Unit? && (x.op == ANY || x.op == ANYOF || x.op == ANYBUT || (x.op == EXACTLY && |x.w| == 1))
  }

  /** The SPSTART flag: the pattern starts with a `*` or a `?` piece. */
  predicate SpStart(x: Re) {
    match x
    case Rep(op, y) => op == STAR || op == STARX
    case Loop0(y) => true
    case Opt(y) => true
    case Group(no, y) => SpStart(y)
    case Cat(y, z) => SpStart(y)
    case Alt(y, z) => SpStart(y) || SpStart(z)
    case _ => false
  }

  /** The trees the compiler builds for one branch of an alternative. */
  predicate Ok(x: Re)
    decreases x, 0
  {
    match x
    case Unit(op, w) =>
      IsUnit(op) && op != BACK && op != NOTHING && NulFree(w)
      && (if HasOperand(op) then op == EXACTLY ==> w != [] else w == [])
    case Rep(op, y) =>
      (op == STAR || op == STARX || op == PLUS || op == PLUSX) && Simple(y) && Ok(y)
    case Loop0(y) => Ok(y) && Wide(y)
    case Loop1(y) => Ok(y) && Wide(y)
    case Opt(y) => Ok(y)
    case Group(no, y) => 1 <= no < MAX_SUBX && OkAlts(y)
    case Empty => true
    case Cat(y, z) => Ok(y) && Ok(z)
    case Alt(y, z) => false
  }

  /** The trees the compiler builds for alternatives. */
  predicate OkAlts(x: Re)
    decreases x, 1
  {
    if x.Alt? then OkAlts(x.x) && Ok(x.y) else Ok(x)
  }

  /** HASWIDTH is sound: a tree that carries it never matches the empty string. */
  lemma {:induction false} WideIsSound(x: Re, cap: nat, s: bytes, i: nat, j: nat)
    requires i <= j <= |s|
    requires OkAlts(x) && Wide(x) && L(x, cap, s, i, j)
    ensures i < j
  {
    match x
    case Unit(op, w) =>
    case Rep(op, y) =>
      var m := PlusSplit(y, cap, s, i, j);
      WideIsSound(y, cap, s, i, m);
    case Loop1(y) =>
      assert Ok(y);
      var m := PlusSplit(y, cap, s, i, j);
      WideIsSound(y, cap, s, i, m);
    case Group(no, y) => WideIsSound(y, cap, s, i, j);
    case Cat(y, z) =>
      assert Ok(y) && Ok(z);
      var m :| i <= m <= j && L(y, cap, s, i, m) && L(z, cap, s, m, j);
      if Wide(y) { WideIsSound(y, cap, s, i, m); } else { WideIsSound(z, cap, s, m, j); }
    case Alt(y, z) =>
      if L(y, cap, s, i, j) { WideIsSound(y, cap, s, i, j); } else { WideIsSound(z, cap, s, i, j); }
  }
}
