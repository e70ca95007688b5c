/** The pattern syntax: the parser as the compiler runs it, with literal runs gathered into
  one node, and a reference parser that reads one character at a time. */
module RegxGrammar {
  import opened Bytes
  import opened RegxCode
  import opened RegxSyntax
  import opened RegxLayout

  const NL: byte := 10
  const DOLLAR: byte := 36
  const LPAR: byte := 40
  const RPAR: byte := 41
  const TIMES: byte := 42
  const CROSS: byte := 43
  const MINUS: byte := 45
  const DOT: byte := 46
  const LESS: byte := 60
  const GREATER: byte := 62
  const QUERY: byte := 63
  const LBRACKET: byte := 91
  const BACKSLASH: byte := 92
  const RBRACKET: byte := 93
  const CARET: byte := 94
  const BAR: byte := 124

  /** Next offsets are 16 bits wide, so positions in a program stay below this. */
  const LIMIT := 0x10000

  /** What a parser makes of a pattern: an error, a program beyond 64K, or a tree with the
    position after it and the next group number. */
  datatype Parsed = Fail | TooBig | Done(x: Re, i: nat, no: nat)

  predicate IsMult(c: byte) {
    c == TIMES || c == CROSS || c == QUERY
  }

  /** Characters that end a branch. */
  predicate IsStop(c: byte) {
    c == 0 || c == RPAR || c == NL || c == BAR
  }

  /** Characters that end a literal and keep the one before them. */
  predicate IsMagic(c: byte) {
    c == DOT || c == LBRACKET || c == LPAR || c == RPAR || c == BAR || c == NL || c == DOLLAR || c == CARET || c == 0
  }

  datatype Literal = Literal(w: bytes, end: nat, single: bool)

  /** A run of literal characters from `k`: `reg` is where the current character starts, or
    NULL while it is the only one. Before a multiplier the last character of a longer run is given back. */
  function LitLoop(p: bytes, k: nat, w: bytes, reg: int): (r: Literal)
    requires k < |p| && NulFree(p) && NulFree(w)
    requires reg == NULL <==> w == []
    requires reg != NULL ==> 0 < reg <= k && !IsMult(At(p, reg))
    ensures NulFree(r.w) && r.w != [] && r.end <= |p|
    ensures reg == NULL ==> k < r.end
    ensures reg != NULL ==> reg <= r.end
    ensures r.single ==> reg == NULL && r.w == [p[k]] && r.end == k + 1
    ensures IsMult(At(p, r.end)) ==> r.single
    decreases |p| - k
  {
    var c, next := p[k], At(p, k + 1);
    if IsMagic(next) then Literal(w + [c], k + 1, reg == NULL)
    else if IsMult(next) then
      if reg == NULL then Literal(w + [c], k + 1, true) else Literal(w, reg, false)
    else if next == BACKSLASH then
      var quoted := At(p, k + 2);
      if quoted == 0 || quoted == LESS || quoted == GREATER then Literal(w + [c], k + 1, reg == NULL)
      else LitLoop(p, k + 2, w + [c], k + 1)
    else LitLoop(p, k + 1, w + [c], k + 1)
  }

  /** The characters from `lo` to `hi`, as the range loop emits them. */
  function Range(lo: nat, hi: byte): (r: bytes)
    ensures forall c: byte :: c in r <==> lo <= c <= hi
    ensures |r| == if lo <= hi then hi - lo + 1 else 0
    decreases hi + 1 - lo
  {
    if lo > hi then [] else [lo] + Range(lo + 1, hi)
  }

  datatype Class = BadClass | Class(w: bytes, end: nat)

  /** The rest of a bracket expression from `k`, `w` being what it lists so far. */
  function ClassLoop(p: bytes, k: nat, w: bytes): (r: Class)
    requires 0 < k <= |p| && NulFree(p) && NulFree(w)
    ensures r.Class? ==> NulFree(r.w) && k < r.end <= |p|
    decreases |p| - k
  {
    var c := At(p, k);
    if c == 0 then BadClass
    else if c == RBRACKET then Class(w, k + 1)
    else if c == MINUS then
      var hi := At(p, k + 1);
      if hi == RBRACKET || hi == 0 then ClassLoop(p, k + 1, w + [MINUS])
      else if p[k - 1] + 1 > hi + 1 then BadClass
      else ClassLoop(p, k + 2, w + Range(p[k - 1] as int + 1, hi))
    else ClassLoop(p, k + 1, w + [c])
  }

  /** A bracket expression after its opening bracket and optional caret. */
  function ClassFrom(p: bytes, k: nat): (r: Class)
    requires 0 < k <= |p| && NulFree(p)
    ensures r.Class? ==> NulFree(r.w) && k < r.end <= |p|
  {
    var c := At(p, k);
    if c == RBRACKET || c == MINUS then ClassLoop(p, k + 1, [c]) else ClassLoop(p, k, [])
  }

  function ClassAtom(p: bytes, i: nat, no: nat): (r: Parsed)
    requires i < |p| && NulFree(p)
    ensures r.Done? ==> i < r.i <= |p| && Ok(r.x) && Wide(r.x) && Simple(r.x) && r.no == no
  {
    var negated := At(p, i + 1) == CARET;
    var c := ClassFrom(p, if negated then i + 2 else i + 1);
    if c.BadClass? then Fail else Done(Unit(if negated then ANYBUT else ANYOF, c.w), c.end, no)
  }

  /** Atoms that both parsers read alike: everything but literals and groups. */
  function PlainAtom(p: bytes, i: nat, no: nat): (r: Parsed)
    requires i <= |p| && NulFree(p) && !StartsLiteral(p, i) && At(p, i) != LPAR
    ensures !r.TooBig?
    ensures r.Done? ==> i < r.i <= |p| && Ok(r.x) && r.no == no && r.x.Unit? && r.x.op != EXACTLY
  {
    var c := At(p, i);
    if c == CARET then Done(Unit(BOL, []), i + 1, no)
    else if c == DOLLAR then Done(Unit(EOL, []), i + 1, no)
    else if c == DOT then Done(Unit(ANY, []), i + 1, no)
    else if c == LBRACKET then ClassAtom(p, i, no)
    else if c == BACKSLASH && At(p, i + 1) == LESS then Done(Unit(WORDA, []), i + 2, no)
    else if c == BACKSLASH && At(p, i + 1) == GREATER then Done(Unit(WORDZ, []), i + 2, no)
    else Fail
  }

  predicate StartsLiteral(p: bytes, i: nat) {
    var c, next := At(p, i), At(p, i + 1);
    if c == BACKSLASH then next != 0 && next != LESS && next != GREATER
    else !IsMagic(c) && !IsMult(c)
  }

  /** Where the character of a literal stands: after the backslash, if there is one. */
  function Quoted(p: bytes, i: nat): nat {
    if At(p, i) == BACKSLASH then i + 1 else i
  }

  /** Append a piece to a branch. */
  function Join(acc: Re, x: Re): Re {
    if acc.Empty? then x else Cat(acc, x)
  }

  /** The tree of an atom with the multiplier `op`, and how many characters the multiplier takes. */
  function Multiplied(x: Re, op: byte, lazy: bool): (r: (Re, nat))
    requires IsMult(op)
    ensures 1 <= r.1 <= 2 && (r.1 == 2 ==> lazy)
  {
    if op == QUERY then (Opt(x), 1)
    else if op == TIMES then
      if !Simple(x) then (Loop0(x), 1) else if lazy then (Rep(STARX, x), 2) else (Rep(STAR, x), 1)
    else
      if !Simple(x) then (Loop1(x), 1) else if lazy then (Rep(PLUSX, x), 2) else (Rep(PLUS, x), 1)
  }

  // The parser of the compiler; `size` is the length of the program so far.

  function Atom(p: bytes, i: nat, no: nat, size: nat): (r: Parsed)
    requires i <= |p| && NulFree(p) && 1 <= no
    ensures r.Done? ==> i < r.i <= |p| && Ok(r.x) && !r.x.Empty? && !r.x.Cat? && no <= r.no
    decreases |p| - i, 1
  {
    if StartsLiteral(p, i) then
      var l := LitLoop(p, Quoted(p, i), [], NULL);
      Done(Unit(EXACTLY, l.w), l.end, no)
    else if At(p, i) == LPAR then Regex(p, i + 1, true, no, size)
    else PlainAtom(p, i, no)
  }

  function Piece(p: bytes, i: nat, no: nat, size: nat): (r: Parsed)
    requires i <= |p| && NulFree(p) && 1 <= no
    ensures r.Done? ==> i < r.i <= |p| && Ok(r.x) && !r.x.Empty? && !r.x.Cat? && no <= r.no && size + Size(r.x) < LIMIT
    decreases |p| - i, 2
  {
    var a := Atom(p, i, no, size);
    if !a.Done? then a
    else
      var op := At(p, a.i);
      if !IsMult(op) then if size + Size(a.x) < LIMIT then a else TooBig
      else if !Wide(a.x) && op != QUERY then Fail
      else
        var m := Multiplied(a.x, op, At(p, a.i + 1) == QUERY);
        if size + Size(m.0) >= LIMIT then TooBig
        else if IsMult(At(p, a.i + m.1)) then Fail
        else Done(m.0, a.i + m.1, a.no)
  }

  /** The rest of a branch whose pieces so far are `acc`, their code starting at `size`. */
  function Pieces(p: bytes, i: nat, no: nat, acc: Re, size: nat): (r: Parsed)
    requires i <= |p| && NulFree(p) && 1 <= no && Ok(acc)
    ensures r.Done? ==> i <= r.i <= |p| && Ok(r.x) && no <= r.no && size + Size(r.x) < LIMIT && IsStop(At(p, r.i))
    decreases |p| - i, 3
  {
    if IsStop(At(p, i)) then if size + Size(acc) < LIMIT then Done(acc, i, no) else TooBig
    else
      var r := Piece(p, i, no, if acc.Empty? then size else size + Size(acc));
      if !r.Done? then r else Pieces(p, r.i, r.no, Join(acc, r.x), size)
  }

  lemma PiecesStep(p: bytes, i: nat, no: nat, acc: Re, size: nat, end: nat)
    requires i <= |p| && NulFree(p) && 1 <= no && Ok(acc) && !IsStop(At(p, i))
    requires end == if acc.Empty? then size else size + Size(acc)
    ensures var r := Piece(p, i, no, end);
            Pieces(p, i, no, acc, size) == if r.Done? then Pieces(p, r.i, r.no, Join(acc, r.x), size) else r
  {
  }

  function Branch(p: bytes, i: nat, no: nat, size: nat): (r: Parsed)
    requires i <= |p| && NulFree(p) && 1 <= no
    ensures r.Done? ==> i <= r.i <= |p| && Ok(r.x) && no <= r.no && size + 3 + Size(r.x) < LIMIT && IsStop(At(p, r.i))
    decreases |p| - i, 4
  {
    Pieces(p, i, no, Empty, size + 3)
  }

  /** More alternatives after `acc`, whose code starts at `size`. */
  function Branches(p: bytes, i: nat, no: nat, acc: Re, size: nat): (r: Parsed)
    requires i <= |p| && NulFree(p) && 1 <= no && OkAlts(acc) && size + SizeAlts(acc) < LIMIT
    ensures r.Done? ==> i <= r.i <= |p| && OkAlts(r.x) && no <= r.no && size + SizeAlts(r.x) < LIMIT
    decreases |p| - i, 5
  {
    if At(p, i) == BAR || At(p, i) == NL then
      var r := Branch(p, i + 1, no, size + SizeAlts(acc));
      if !r.Done? then r else Branches(p, r.i, r.no, Alt(acc, r.x), size)
    else Done(acc, i, no)
  }

  lemma BranchesStep(p: bytes, i: nat, no: nat, acc: Re, size: nat, end: nat)
    requires i <= |p| && NulFree(p) && 1 <= no && OkAlts(acc) && (At(p, i) == BAR || At(p, i) == NL)
    requires end == size + SizeAlts(acc) < LIMIT
    ensures var r := Branch(p, i + 1, no, end);
            Branches(p, i, no, acc, size) == if r.Done? then Branches(p, r.i, r.no, Alt(acc, r.x), size) else r
  {
  }

  function Regex(p: bytes, i: nat, paren: bool, no: nat, size: nat): (r: Parsed)
    requires i <= |p| && NulFree(p) && 1 <= no
    ensures r.Done? ==> i <= r.i <= |p| && no <= r.no
    ensures r.Done? && paren ==> i < r.i && Ok(r.x) && r.x.Group?
    ensures r.Done? && !paren ==> r.i == |p| && OkAlts(r.x) && size + SizeAlts(r.x) + 3 < LIMIT
    decreases |p| - i, 6
  {
    if paren && no >= MAX_SUBX then Fail
    else
      var size' := if paren then size + 3 else size;
      var b := Branch(p, i, if paren then no + 1 else no, size');
      if !b.Done? then b
      else
        var r := Branches(p, b.i, b.no, b.x, size');
        if !r.Done? then r
        else if size' + SizeAlts(r.x) + 3 >= LIMIT then TooBig
        else if paren then if At(p, r.i) == RPAR then Done(Group(no, r.x), r.i + 1, r.no) else Fail
        else if At(p, r.i) == 0 then r else Fail
  }

  /** The tree `Compile` makes of a pattern, its program starting with the magic byte. */
  function Compiled(p: bytes): Parsed
    requires NulFree(p)
  {
    Regex(p, 0, false, 1, 1)
  }
}
