/** Why the shortcuts of the matcher are sound: what every match of a pattern must start with
  and must contain, and where the compiler reads that off the program. */
module RegxShortcuts {
  import opened Bytes
  import opened RegxCode
  import opened RegxSyntax
  import opened RegxLayout
  import opened RegxPatch

  /** The literal a branch starts with, if its first node is one. */
  function FirstLiteral(x: Re): bytes {
    match x
    case Unit(op, w) => if op == EXACTLY then w else []
    case Loop1(y) => FirstLiteral(y)
    case Cat(y, z) => FirstLiteral(y)
    case _ => []
  }

  /** Is the first node of a branch the start-of-line test? */
  predicate StartsWithBol(x: Re) {
    match x
    case Unit(op, w) => op == BOL
    case Loop1(y) => StartsWithBol(y)
    case Cat(y, z) => StartsWithBol(y)
    case _ => false
  }

  /** The literals on the main chain of a branch, in order. */
  function Literals(x: Re): seq<bytes> {
    match x
    case Unit(op, w) => if op == EXACTLY then [w] else []
    case Loop1(y) => Literals(y)
    case Cat(y, z) => Literals(y) + Literals(z)
    case _ => []
  }

  lemma {:induction false} FirstLiteralIsRequired(x: Re, cap: nat, s: bytes, i: nat, j: nat)
    requires i <= j <= |s| && L(x, cap, s, i, j)
    ensures StartsAt(s, i, FirstLiteral(x))
    ensures StartsWithBol(x) ==> i == 0
  {
    match x
    case Unit(op, w) =>
    case Loop1(y) =>
      var m := PlusSplit(y, cap, s, i, j);
      FirstLiteralIsRequired(y, cap, s, i, m);
    case Cat(y, z) =>
      var m := CatSplit(y, z, cap, s, i, j);
      FirstLiteralIsRequired(y, cap, s, i, m);
    case _ =>
  }

  lemma {:induction false} LiteralIsRequired(x: Re, cap: nat, s: bytes, i: nat, j: nat, w: bytes) returns (k: nat)
    requires i <= j <= |s| && L(x, cap, s, i, j) && w in Literals(x)
    ensures i <= k <= j && StartsAt(s, k, w)
  {
    match x
    case Unit(op, v) => k := i;
    case Loop1(y) =>
      var m := PlusSplit(y, cap, s, i, j);
      k := LiteralIsRequired(y, cap, s, i, m, w);
    case Cat(y, z) =>
      var m := CatSplit(y, z, cap, s, i, j);
      if w in Literals(y) { k := LiteralIsRequired(y, cap, s, i, m, w); }
      else { k := LiteralIsRequired(z, cap, s, m, j, w); }
  }

  /** The literals passed on the walk that starts at `p`. */
  function Passed(code: bytes, p: int): seq<bytes>
    decreases |code| - p
  {
    if !IsNode(code, p) then []
    else
      (if code[p] == EXACTLY then [Operand(code, p + 3)] else [])
      + (if Offset(code, p) == 0 || code[p] == BACK then [] else Passed(code, p + Offset(code, p)))
  }

  lemma PassedHop(code: bytes, a: int, op: byte, e: int)
    requires NodeAt(code, a, op, e) && op != BACK && e != NULL && op != EXACTLY
    ensures Passed(code, a) == Passed(code, e)
  {
  }

  /** The walk through a fragment passes exactly the literals on its main chain. */
  lemma {:induction false} FragPassed(code: bytes, a: int, x: Re, e: int)
    requires Ok(x) && Laid(code, a, x, e) && e != NULL && 0 <= a
    ensures Passed(code, a) == Literals(x) + Passed(code, e)
    decreases x, 0, 1
  {
    assert Tree(x);
    match x
    case Unit(op, w) => UnitPassed(code, a, op, w, e);
    case Rep(op, y) => PassedHop(code, a, op, e);
    case Empty => PassedHop(code, a, NOTHING, e);
    case Loop0(y) =>
      var k := a + 3 + Size(y);
      PassedHop(code, k + 6, NOTHING, e);
      PassedHop(code, k + 3, BRANCH, k + 6);
      PassedHop(code, a, BRANCH, k + 3);
    case Loop1(y) => Loop1Passed(code, a, y, e);
    case Opt(y) =>
      var b := a + 3 + Size(y);
      PassedHop(code, b + 3, NOTHING, e);
      PassedHop(code, b, BRANCH, b + 3);
      PassedHop(code, a, BRANCH, b);
    case Group(no, y) => GroupPassed(code, a, no, y, e);
    case Cat(y, z) =>
      FragPassed(code, a + Size(y), z, e);
      FragPassed(code, a, y, a + Size(y));
  }

  lemma UnitPassed(code: bytes, a: int, op: byte, w: bytes, e: int)
    requires Ok(Unit(op, w)) && UnitAt(code, a, op, w, e) && e != NULL && 0 <= a
    ensures Passed(code, a) == (if op == EXACTLY then [w] else []) + Passed(code, e)
  {
    if op == EXACTLY { StringIsOperand(code, a + 3, w); }
  }

  lemma {:induction false} Loop1Passed(code: bytes, a: int, y: Re, e: int)
    requires Ok(y) && Laid(code, a, Loop1(y), e) && e != NULL && 0 <= a
    ensures Passed(code, a) == Literals(y) + Passed(code, e)
    decreases y, 2, 0
  {
    assert Tree(Loop1(y));
    var b := a + Size(y);
    PassedHop(code, b + 9, NOTHING, e);
    PassedHop(code, b + 6, BRANCH, b + 9);
    PassedHop(code, b, BRANCH, b + 6);
    FragPassed(code, a, y, b);
  }

  lemma {:induction false} GroupPassed(code: bytes, a: int, no: nat, y: Re, e: int)
    requires Ok(Group(no, y)) && Laid(code, a, Group(no, y), e) && e != NULL && 0 <= a
    ensures Passed(code, a) == Passed(code, e)
    decreases y, 2, 0
  {
    assert Tree(Group(no, y));
    var c := a + 3 + SizeAlts(y);
    PassedHop(code, c, CLOSE + no, e);
    ChainPassed(code, a + 3, y, c, c, Count(y));
    PassedHop(code, a, OPEN + no, a + 3);
  }

  /** One step of the walk from `p` to `e`. */
  lemma PassedStep(code: bytes, p: int, e: int)
    requires 0 <= p && Walk(code, p, e)
    ensures IsNode(code, p) && (Next(code, p) == NULL || Walk(code, Next(code, p), e)) && p != NULL
    ensures Next(code, p) != NULL ==> p < Next(code, p) < |code|
    ensures Passed(code, p) == (if code[p] == EXACTLY then [Operand(code, p + 3)] else [])
                               + (if Next(code, p) == NULL then [] else Passed(code, Next(code, p)))
  {
  }

  lemma {:induction false} ChainPassed(code: bytes, a: int, x: Re, c: int, o: int, m: nat)
    requires OkAlts(x) && LaidAlts(code, a, x, c, o, m) && c != NULL && 0 <= a
    ensures Passed(code, a) == Passed(code, c)
    decreases x, 1, 0
  {
    if x.Alt? {
      var b := a + SizeAlts(x.x);
      PassedHop(code, b, BRANCH, c);
      ChainPassed(code, a, x.x, b, o, m);
    } else {
      PassedHop(code, a, BRANCH, c);
    }
  }

  /** The first node of a fragment tells what every match must start with. */
  lemma {:induction false} FirstNode(code: bytes, a: int, x: Re, e: int)
    requires Ok(x) && Laid(code, a, x, e)
    ensures IsNode(code, a)
    ensures code[a] == EXACTLY <==> FirstLiteral(x) != []
    ensures code[a] == EXACTLY ==> a + 3 < |code| && code[a + 3] == FirstLiteral(x)[0]
    ensures code[a] == BOL <==> StartsWithBol(x)
    decreases x
  {
    assert Tree(x);
    match x
    case Unit(op, w) =>
      if op == EXACTLY { assert code[a + 3] == code[a + 3..a + 3 + |w|][0]; }
    case Loop1(y) => FirstNode(code, a, y, a + Size(y));
    case Cat(y, z) => FirstNode(code, a, y, a + Size(y));
    case _ =>
  }

  /** The longest of `ws`, later ones winning ties, or `best` if that is longer than all. */
  function Longest(best: bytes, ws: seq<bytes>): (r: bytes)
    ensures r == best || r in ws
    ensures |best| <= |r| && forall w :: w in ws ==> |w| <= |r|
    decreases |ws|
  {
    if ws == [] then best else Longest(if |ws[0]| >= |best| then ws[0] else best, ws[1..])
  }

  lemma StartsWithHead(text: bytes, k: nat, w: bytes)
    requires w != [] && StartsAt(text, k, w)
    ensures text[k] == w[0]
  {
    assert text[k..k + |w|][0] == text[k];
  }

  lemma {:induction false} LiteralsAreNotEmpty(x: Re)
    requires Ok(x)
    ensures [] !in Literals(x)
  {
    match x
    case Loop1(y) => LiteralsAreNotEmpty(y);
    case Cat(y, z) =>
      LiteralsAreNotEmpty(y);
      LiteralsAreNotEmpty(z);
    case _ =>
  }

  /** Between two occurrences of its first character a string does not start. */
  lemma FirstCharacter(text: bytes, w: bytes, from: nat, to: nat)
    requires w != [] && from <= to <= |text| && forall i :: from <= i < to ==> text[i] != w[0]
    ensures forall k :: from <= k < to ==> !StartsAt(text, k, w)
    ensures !StartsAt(text, |text|, w)
  {
    forall k | from <= k < to
      ensures !StartsAt(text, k, w)
    {
      if StartsAt(text, k, w) { StartsWithHead(text, k, w); }
    }
  }

  lemma StartsAtZero(x: Re, cap: nat, text: bytes)
    requires StartsWithBol(x)
    ensures forall i, j :: 0 < i <= j <= |text| ==> !L(x, cap, text, i, j)
  {
    forall i, j | 0 < i <= j <= |text|
      ensures !L(x, cap, text, i, j)
    {
      if L(x, cap, text, i, j) { FirstLiteralIsRequired(x, cap, text, i, j); }
    }
  }

  lemma StartsWithChar(x: Re, cap: nat, text: bytes, from: nat, to: nat)
    requires FirstLiteral(x) != [] && from <= to <= |text|
    requires forall i :: from <= i < to ==> text[i] != FirstLiteral(x)[0]
    ensures forall i, j :: from <= i <= j <= |text| && i < to ==> !L(x, cap, text, i, j)
    ensures !L(x, cap, text, |text|, |text|)
  {
    FirstCharacter(text, FirstLiteral(x), from, to);
    forall i, j | from <= i <= j <= |text| && (i < to || i == |text|)
      ensures !L(x, cap, text, i, j)
    {
      if L(x, cap, text, i, j) { FirstLiteralIsRequired(x, cap, text, i, j); }
    }
  }

  lemma MustBeThere(x: Re, cap: nat, text: bytes, w: bytes)
    requires w in Literals(x) && !exists k :: 0 <= k <= |text| && StartsAt(text, k, w)
    ensures forall i, j :: 0 <= i <= j <= |text| ==> !L(x, cap, text, i, j)
  {
    forall i, j | 0 <= i <= j <= |text|
      ensures !L(x, cap, text, i, j)
    {
      if L(x, cap, text, i, j) { var k := LiteralIsRequired(x, cap, text, i, j, w); }
    }
  }
}
