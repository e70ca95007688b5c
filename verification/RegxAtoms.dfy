/** What the characters of a pattern mean: single characters, anchors, bracket expressions and
  multipliers, said of the text alone. */
module RegxAtoms {
  import opened Bytes
  import opened RegxCode
  import opened RegxSyntax
  import opened RegxEnds
  import opened RegxGrammar
  import opened RegxReference

  /** The characters with a meaning. */
  lemma Characters(c: byte)
    ensures IsMult(c) <==> c == Ascii('*') || c == Ascii('+') || c == Ascii('?')
    ensures IsStop(c) <==> c == 0 || c == Ascii(')') || c == Ascii('|') || c == Ascii('\n')
    ensures TIMES == Ascii('*') && CROSS == Ascii('+') && QUERY == Ascii('?')
    ensures IsWordChar(c) <==> IsAlnum(c) || c == Ascii('_')
  {
  }

  // ---------------------------------------------------------------- bracket expressions

  /** Is the hyphen at `q` one that makes a range, in a bracket expression whose list starts at
    `k`? It is not the first of the list, nor the last, nor itself the end of a range. */
  predicate IsDash(p: bytes, k: nat, q: int) {
    && k < q < |p| && p[q] == Ascii('-')
    && q + 1 < |p| && p[q + 1] != Ascii(']')
    && !IsDash(p, k, q - 1)
  }

  /** The list ends at the first closing bracket that is not its first character. */
  predicate Closes(p: bytes, k: nat, z: nat) {
    k < z < |p| && p[z] == Ascii(']') && forall q :: k < q < z ==> p[q] != Ascii(']')
  }

  /** The character stands in the list, or between the ends of a range, before `z`. */
  predicate Lists(p: bytes, k: nat, z: nat, c: byte) {
    || (exists q :: k <= q < z <= |p| && p[q] == c && !IsDash(p, k, q))
    || (exists q :: k < q < z - 1 && z <= |p| && IsDash(p, k, q) && p[q - 1] <= c <= p[q + 1])
  }

  /** No range before `z` is empty. */
  predicate Straight(p: bytes, k: nat, z: nat) {
    forall q :: k < q < z - 1 && z <= |p| && IsDash(p, k, q) ==> p[q - 1] <= p[q + 1]
  }

  /** What has been read of a list up to `j`. */
  ghost predicate Reading(p: bytes, k: nat, j: nat, w: bytes) {
    && 0 < k <= j <= |p| && NulFree(p) && NulFree(w)
    && !IsDash(p, k, j - 1) && Straight(p, k, j)
    && (forall q :: k < q < j ==> p[q] != Ascii(']'))
    && (forall c: byte :: c in w <==> Lists(p, k, j, c))
    && (j == k ==> At(p, k) != RBRACKET && At(p, k) != MINUS)
  }

  lemma ReadPlain(p: bytes, k: nat, j: nat, w: bytes)
    requires Reading(p, k, j, w) && j < |p| && !IsDash(p, k, j) && (p[j] != Ascii(']') || j == k)
    ensures NulFree(w + [p[j]]) && Reading(p, k, j + 1, w + [p[j]])
  {
    forall c: byte ensures c in w + [p[j]] <==> Lists(p, k, j + 1, c) {
      assert c in w <==> Lists(p, k, j, c);
      if c == p[j] {
        assert k <= j < j + 1 && !IsDash(p, k, j);
      }
      forall q | k < q < j && IsDash(p, k, q) && j + 1 <= |p| ensures q < j - 1 {
      }
    }
  }

  lemma ReadRange(p: bytes, k: nat, j: nat, w: bytes)
    requires Reading(p, k, j, w) && j < |p| && IsDash(p, k, j) && p[j - 1] <= p[j + 1]
    ensures var w' := w + Range(p[j - 1] as int + 1, p[j + 1]); NulFree(w') && Reading(p, k, j + 2, w')
  {
    var lo, hi := p[j - 1], p[j + 1];
    var w' := w + Range(lo as int + 1, hi);
    assert !IsDash(p, k, j + 1) && !IsDash(p, k, j - 1);
    assert Lists(p, k, j, lo) by {
      assert k <= j - 1 < j && p[j - 1] == lo;
    }
    forall c: byte ensures c in w' <==> Lists(p, k, j + 2, c) {
      assert c in w <==> Lists(p, k, j, c);
      if Lists(p, k, j, c) || lo <= c <= hi {
        ListsOn(p, k, j, c);
      } else {
        ListsNoMore(p, k, j, c);
      }
    }
  }

  lemma ListsOn(p: bytes, k: nat, j: nat, c: byte)
    requires k < j && j + 2 <= |p| && IsDash(p, k, j)
    requires Lists(p, k, j, c) || p[j - 1] <= c <= p[j + 1]
    ensures Lists(p, k, j + 2, c)
  {
    if p[j - 1] <= c <= p[j + 1] {
      assert k < j < j + 2 - 1;
    } else if q :| k <= q < j <= |p| && p[q] == c && !IsDash(p, k, q) {
      assert k <= q < j + 2;
    } else {
      var q :| k < q < j - 1 && IsDash(p, k, q) && p[q - 1] <= c <= p[q + 1];
      assert k < q < j + 2 - 1;
    }
  }

  lemma ListsNoMore(p: bytes, k: nat, j: nat, c: byte)
    requires k < j && j + 2 <= |p| && IsDash(p, k, j) && p[j - 1] <= p[j + 1]
    requires !Lists(p, k, j, c) && !(p[j - 1] <= c <= p[j + 1])
    ensures !Lists(p, k, j + 2, c)
  {
    assert !IsDash(p, k, j - 1);
    forall q | k <= q < j + 2 ensures !(p[q] == c && !IsDash(p, k, q)) {
      assert q < j || q == j || q == j + 1;
    }
    forall q | k < q < j + 1 && IsDash(p, k, q) ensures !(p[q - 1] <= c <= p[q + 1]) {
      assert q < j - 1 || q == j;
    }
  }

  /** What a bracket expression lists, and which ones are refused: those without an end, and those
    with an empty range before it. */
  ghost predicate ClassIs(p: bytes, k: nat, r: Class) {
    match r
    case BadClass => forall z: nat :: Closes(p, k, z) ==> !Straight(p, k, z)
    case Class(w, end) =>
      && end > 0 && Closes(p, k, end - 1) && Straight(p, k, end - 1)
      && forall c: byte :: c in w <==> Lists(p, k, end - 1, c)
  }

  lemma {:induction false} LoopLists(p: bytes, k: nat, j: nat, w: bytes)
    requires Reading(p, k, j, w)
    ensures ClassIs(p, k, ClassLoop(p, j, w))
    decreases |p| - j
  {
    var c := At(p, j);
    if c == 0 {
      assert j == |p|;
    } else if c == RBRACKET {
      assert Closes(p, k, j);
    } else if c == MINUS && At(p, j + 1) != RBRACKET && At(p, j + 1) != 0 {
      assert IsDash(p, k, j);
      if p[j - 1] > p[j + 1] {
        forall z: nat | Closes(p, k, z) ensures !Straight(p, k, z) {
          assert z > j + 1 && k < j < z - 1;
        }
      } else {
        ReadRange(p, k, j, w);
        LoopLists(p, k, j + 2, w + Range(p[j - 1] as int + 1, p[j + 1]));
      }
    } else {
      assert !IsDash(p, k, j);
      ReadPlain(p, k, j, w);
      LoopLists(p, k, j + 1, w + [c]);
    }
  }

  lemma ClassLists(p: bytes, k: nat)
    requires 0 < k <= |p| && NulFree(p)
    ensures ClassIs(p, k, ClassFrom(p, k))
  {
    var c := At(p, k);
    assert !IsDash(p, k, k) && !IsDash(p, k, k - 1);
    if c == RBRACKET || c == MINUS {
      assert Reading(p, k, k + 1, [c]) by {
        forall d: byte ensures d in [c] <==> Lists(p, k, k + 1, d) {
          if d == c {
            assert p[k] == d && !IsDash(p, k, k);
          }
        }
      }
      LoopLists(p, k, k + 1, [c]);
    } else {
      LoopLists(p, k, k, []);
    }
  }

  // ---------------------------------------------------------------- atoms

  predicate WordAt(s: bytes, i: int) {
    0 <= i < |s| && (IsAlnum(s[i]) || s[i] == Ascii('_'))
  }

  /** Where the list of the bracket expression at `i` starts. */
  function ListFrom(p: bytes, i: nat): nat {
    if At(p, i + 1) == Ascii('^') then i + 2 else i + 1
  }

  /** The atom at `i` ends at `end`, unless it is a group. */
  ghost predicate AtomEnds(p: bytes, i: nat, end: nat)
    requires i < |p|
  {
    var c, d := p[i], At(p, i + 1);
    if c == Ascii('[') then
      end > 0 && Closes(p, ListFrom(p, i), end - 1) && Straight(p, ListFrom(p, i), end - 1)
    else if c == Ascii('\\') then d != 0 && end == i + 2
    else !IsStop(c) && !IsMult(c) && end == i + 1
  }

  /** The atom from `i` to `end` matches the text between `a` and `b`. */
  predicate AtomMatches(p: bytes, i: nat, end: nat, s: bytes, a: nat, b: nat)
    requires i < |p| && a <= b <= |s|
  {
    var c, d := p[i], At(p, i + 1);
    if c == Ascii('^') then a == b == 0
    else if c == Ascii('$') then a == b == |s|
    else if c == Ascii('.') then b == a + 1
    else if c == Ascii('[') then
      b == a + 1 && end > 0 && Lists(p, ListFrom(p, i), end - 1, s[a]) == (d != Ascii('^'))
    else if c == Ascii('\\') && d == Ascii('<') then a == b && WordAt(s, a) && !WordAt(s, a - 1)
    else if c == Ascii('\\') && d == Ascii('>') then a == b && !WordAt(s, a)
    else b == a + 1 && s[a] == if c == Ascii('\\') then d else c
  }

  /** It takes one character, and is no anchor or word end. */
  predicate TakesChar(p: bytes, i: nat)
    requires i < |p|
  {
    var c, d := p[i], At(p, i + 1);
    c != Ascii('^') && c != Ascii('$') && (c == Ascii('\\') ==> d != Ascii('<') && d != Ascii('>'))
  }

  /** The reference reads the atom at `i` if there is one, and its tree matches what it says; the
    tree has width and is simple exactly when it takes a character. */
  ghost predicate ReadsAtom(p: bytes, i: nat, r: Parsed, cap: nat, s: bytes, a: nat, b: nat)
    requires i < |p| && a <= b <= |s|
  {
    && (r.Done? <==> exists end: nat :: AtomEnds(p, i, end))
    && (r.Done? ==> AtomEnds(p, i, r.i) && (L(r.x, cap, s, a, b) <==> AtomMatches(p, i, r.i, s, a, b)))
    && (r.Done? ==> Simple(r.x) == Wide(r.x) == TakesChar(p, i))
  }

  lemma AtomMeans(p: bytes, i: nat, no: nat, cap: nat, s: bytes, a: nat, b: nat)
    requires i < |p| && NulFree(p) && p[i] != Ascii('(') && a <= b <= |s|
    ensures ReadsAtom(p, i, RefAtom(p, i, no), cap, s, a, b)
  {
    if p[i] == LBRACKET {
      ClassMeans(p, i, no, cap, s, a, b);
    } else if StartsLiteral(p, i) {
      assert AtomEnds(p, i, Quoted(p, i) + 1);
      if a < |s| {
        assert s[a..a + 1] == [s[a]];
      }
    } else {
      AnchorMeans(p, i, no, cap, s, a, b);
    }
  }

  lemma AnchorMeans(p: bytes, i: nat, no: nat, cap: nat, s: bytes, a: nat, b: nat)
    requires i < |p| && NulFree(p) && p[i] != Ascii('(') && p[i] != Ascii('[') && a <= b <= |s| && !StartsLiteral(p, i)
    ensures ReadsAtom(p, i, RefAtom(p, i, no), cap, s, a, b)
  {
    var r := RefAtom(p, i, no);
    if r.Done? {
      assert AtomEnds(p, i, r.i);
    }
  }

  lemma ClassMeans(p: bytes, i: nat, no: nat, cap: nat, s: bytes, a: nat, b: nat)
    requires i < |p| && NulFree(p) && p[i] == Ascii('[') && a <= b <= |s|
    ensures ReadsAtom(p, i, RefAtom(p, i, no), cap, s, a, b)
  {
    var k := ListFrom(p, i);
    ClassLists(p, k);
    var r := ClassFrom(p, k);
    if r.Class? {
      assert AtomEnds(p, i, r.end);
      if a < |s| {
        assert s[a] in r.w <==> Lists(p, k, r.end - 1, s[a]);
      }
    } else {
      forall end: nat ensures !AtomEnds(p, i, end) {
        if end > 0 && Closes(p, k, end - 1) {
          assert !Straight(p, k, end - 1);
        }
      }
    }
  }

  // ---------------------------------------------------------------- multipliers, groups, alternatives

  predicate NoTests(x: Re) {
    match x
    case Unit(op, w) => op == ANY || HasOperand(op)
    case Rep(op, y) => NoTests(y)
    case Loop0(y) => NoTests(y)
    case Loop1(y) => NoTests(y)
    case Opt(y) => NoTests(y)
    case Group(no, y) => NoTests(y)
    case Empty => true
    case Cat(y, z) => NoTests(y) && NoTests(z)
    case Alt(y, z) => NoTests(y) && NoTests(z)
  }

  /** HASWIDTH is exact on trees without anchors and word ends: those that lack it, which a `*` or
    `+` is refused on, match the empty string everywhere. */
  lemma {:induction false} WideIsExact(x: Re, cap: nat, s: bytes, i: nat)
    requires i <= |s| && OkAlts(x) && NoTests(x) && HighestGroup(x) <= cap
    ensures Wide(x) <==> !L(x, cap, s, i, i)
    decreases x
  {
    if Wide(x) {
      if L(x, cap, s, i, i) {
        WideIsSound(x, cap, s, i, i);
        assert false;
      }
    } else {
      match x
      case Unit(op, w) =>
      case Rep(op, y) =>
      case Loop0(y) =>
      case Loop1(y) =>
      case Opt(y) =>
      case Group(no, y) => WideIsExact(y, cap, s, i);
      case Empty =>
      case Cat(y, z) =>
        assert Ok(y) && Ok(z);
        WideIsExact(y, cap, s, i);
        WideIsExact(z, cap, s, i);
        assert i <= i <= i && L(y, cap, s, i, i) && L(z, cap, s, i, i);
      case Alt(y, z) => if !Wide(y) { WideIsExact(y, cap, s, i); } else { WideIsExact(z, cap, s, i); }
    }
  }

  /** How often `c` stands in the text from `i` on, without a gap. */
  function Run(c: byte, s: bytes, i: nat): (n: nat)
    requires i <= |s|
    ensures i + n <= |s|
    decreases |s| - i
  {
    if i < |s| && s[i] == c then 1 + Run(c, s, i + 1) else 0
  }

  lemma {:induction false} RunIsRepeats(c: byte, s: bytes, i: nat)
    requires i <= |s|
    ensures Run(c, s, i) == Repeats(EXACTLY, [c], s, i)
    decreases |s| - i
  {
    if i < |s| && s[i] == c {
      RunIsRepeats(c, s, i + 1);
    }
  }

  /** A pattern that is one piece. */
  lemma OnePiece(p: bytes, x: Re)
    requires NulFree(p) && p != [] && !IsStop(p[0]) && RefPiece(p, 0, 1) == Done(x, |p|, 1)
    ensures Reference(p) == Done(x, |p|, 1)
  {
    assert RefPieces(p, |p|, 1, x) == Done(x, |p|, 1);
    assert RefPieces(p, 0, 1, Empty) == Done(x, |p|, 1);
    assert RefBranches(p, |p|, 1, x) == Done(x, |p|, 1);
  }

  /** The ends of what a pattern matches from `i` on, the preferred ones first. */
  ghost predicate PatternEnds(p: bytes, cap: nat, s: bytes, i: nat, ends: seq<nat>)
    requires i <= |s|
  {
    NulFree(p) && Reference(p).Done? && Ends(Reference(p).x, cap, s, i) == ends
  }

  /** A letter or digit, and one that may be left out but need not. */
  lemma OptionPatterns(c: byte, cap: nat, s: bytes, i: nat)
    requires IsAlnum(c) && i <= |s|
    ensures PatternEnds([c], cap, s, i, if At(s, i) == c then [i + 1] else [])
    ensures PatternEnds([c, Ascii('?')], cap, s, i, if At(s, i) == c then [i + 1, i] else [i])
  {
    var x := Unit(EXACTLY, [c]);
    SimpleEnds(x, cap, s, i);
    PiecePattern([c], x, cap, s, i, if At(s, i) == c then [i + 1] else []);
    PiecePattern([c, Ascii('?')], Opt(x), cap, s, i, if At(s, i) == c then [i + 1, i] else [i]);
  }

  /** One with a multiplier takes as many as there are, and then fewer. */
  lemma GreedyPatterns(c: byte, cap: nat, s: bytes, i: nat)
    requires IsAlnum(c) && i <= |s|
    ensures PatternEnds([c, Ascii('*')], cap, s, i, InOrder(false, i, i + Run(c, s, i)))
    ensures PatternEnds([c, Ascii('+')], cap, s, i, InOrder(false, i + 1, i + Run(c, s, i)))
  {
    var x, hi := Unit(EXACTLY, [c]), i + Run(c, s, i);
    RunIsRepeats(c, s, i);
    GreedyEnds(x, cap, s, i, hi);
    PiecePattern([c, Ascii('*')], Loop0(x), cap, s, i, InOrder(false, i, hi));
    PiecePattern([c, Ascii('+')], Loop1(x), cap, s, i, InOrder(false, i + 1, hi));
  }

  /** With a question mark behind it takes as few as it may, and then more. */
  lemma LazyPatterns(c: byte, cap: nat, s: bytes, i: nat)
    requires IsAlnum(c) && i <= |s|
    ensures PatternEnds([c, Ascii('*'), Ascii('?')], cap, s, i, InOrder(true, i, i + Run(c, s, i)))
    ensures PatternEnds([c, Ascii('+'), Ascii('?')], cap, s, i, InOrder(true, i + 1, i + Run(c, s, i)))
  {
    var x, hi := Unit(EXACTLY, [c]), i + Run(c, s, i);
    RunIsRepeats(c, s, i);
    LazyEnds(x, cap, s, i, hi);
    PiecePattern([c, Ascii('*'), Ascii('?')], Rep(STARX, x), cap, s, i, InOrder(true, i, hi));
    PiecePattern([c, Ascii('+'), Ascii('?')], Rep(PLUSX, x), cap, s, i, InOrder(true, i + 1, hi));
  }

  lemma PiecePattern(p: bytes, x: Re, cap: nat, s: bytes, i: nat, ends: seq<nat>)
    requires NulFree(p) && p != [] && !IsStop(p[0]) && RefPiece(p, 0, 1) == Done(x, |p|, 1)
    requires i <= |s| && Ends(x, cap, s, i) == ends
    ensures PatternEnds(p, cap, s, i, ends)
  {
    OnePiece(p, x);
  }

  lemma GreedyEnds(x: Re, cap: nat, s: bytes, i: nat, hi: nat)
    requires i <= |s| && Simple(x) && Ok(x) && hi == i + Repeats(x.op, x.w, s, i)
    ensures Ends(Loop0(x), cap, s, i) == InOrder(false, i, hi)
    ensures Ends(Loop1(x), cap, s, i) == InOrder(false, i + 1, hi)
  {
    SimpleRounds(x, false, cap, s, i, hi);
    SimplePlus(x, false, cap, s, i, hi);
  }

  lemma LazyEnds(x: Re, cap: nat, s: bytes, i: nat, hi: nat)
    requires i <= |s| && Simple(x) && Ok(x) && hi == i + Repeats(x.op, x.w, s, i)
    ensures Ends(Rep(STARX, x), cap, s, i) == InOrder(true, i, hi)
    ensures Ends(Rep(PLUSX, x), cap, s, i) == InOrder(true, i + 1, hi)
  {
    SimpleRounds(x, true, cap, s, i, hi);
    SimplePlus(x, true, cap, s, i, hi);
  }

  /** One letter or digit behind another, either of two, on one line or on two, and one in a group. */
  lemma BranchPatterns(c: byte, bar: byte, d: byte, cap: nat, s: bytes, i: nat)
    requires IsAlnum(c) && IsAlnum(d) && i <= |s| && (bar == Ascii('|') || bar == Ascii('\n'))
    ensures PatternEnds([c, d], cap, s, i, if At(s, i) == c && At(s, i + 1) == d then [i + 2] else [])
    ensures PatternEnds([c, bar, d], cap, s, i,
                        (if At(s, i) == c then [i + 1] else []) + if At(s, i) == d then [i + 1] else [])
    ensures PatternEnds([Ascii('('), c, Ascii(')')], cap, s, i, if cap > 0 && At(s, i) == c then [i + 1] else [])
  {
    TwoChars(c, d);
    TwoCharEnds(c, d, cap, s, i);
    TwoBranches(c, bar, d);
    OneGroup(c);
    SimpleEnds(Unit(EXACTLY, [c]), cap, s, i);
    SimpleEnds(Unit(EXACTLY, [d]), cap, s, i);
  }

  lemma TwoCharEnds(c: byte, d: byte, cap: nat, s: bytes, i: nat)
    requires IsAlnum(c) && IsAlnum(d) && i <= |s|
    ensures Ends(Cat(Unit(EXACTLY, [c]), Unit(EXACTLY, [d])), cap, s, i)
         == if At(s, i) == c && At(s, i + 1) == d then [i + 2] else []
  {
    SimpleEnds(Unit(EXACTLY, [c]), cap, s, i);
    if At(s, i) == c {
      ThenNext(Unit(EXACTLY, [d]), cap, s, i);
      SimpleEnds(Unit(EXACTLY, [d]), cap, s, i + 1);
    }
  }

  lemma ThenNext(x: Re, cap: nat, s: bytes, i: nat)
    requires i < |s|
    ensures ThenEnds(x, cap, s, i, [i + 1]) == Ends(x, cap, s, i + 1)
  {
    ThenPlace(x, cap, s, i, i + 1, [i + 1]);
    ThenOne(x, cap, s, i + 1);
  }

  lemma TwoChars(c: byte, d: byte)
    requires IsAlnum(c) && IsAlnum(d)
    ensures Reference([c, d]) == Done(Cat(Unit(EXACTLY, [c]), Unit(EXACTLY, [d])), 2, 1)
  {
    var p, x := [c, d], Cat(Unit(EXACTLY, [c]), Unit(EXACTLY, [d]));
    assert RefPiece(p, 0, 1) == Done(Unit(EXACTLY, [c]), 1, 1);
    assert RefPiece(p, 1, 1) == Done(Unit(EXACTLY, [d]), 2, 1);
    assert RefPieces(p, 2, 1, x) == Done(x, 2, 1);
    assert RefPieces(p, 1, 1, Unit(EXACTLY, [c])) == Done(x, 2, 1);
    assert RefPieces(p, 0, 1, Empty) == Done(x, 2, 1);
    assert RefBranches(p, 2, 1, x) == Done(x, 2, 1);
  }

  lemma TwoBranches(c: byte, bar: byte, d: byte)
    requires IsAlnum(c) && IsAlnum(d) && (bar == Ascii('|') || bar == Ascii('\n'))
    ensures Reference([c, bar, d]) == Done(Alt(Unit(EXACTLY, [c]), Unit(EXACTLY, [d])), 3, 1)
  {
    var p, x, y := [c, bar, d], Unit(EXACTLY, [c]), Unit(EXACTLY, [d]);
    assert RefPiece(p, 0, 1) == Done(x, 1, 1);
    assert RefPieces(p, 1, 1, x) == Done(x, 1, 1);
    assert RefPieces(p, 0, 1, Empty) == Done(x, 1, 1);
    assert RefPiece(p, 2, 1) == Done(y, 3, 1);
    assert RefPieces(p, 3, 1, y) == Done(y, 3, 1);
    assert RefPieces(p, 2, 1, Empty) == Done(y, 3, 1);
    assert RefBranches(p, 3, 1, Alt(x, y)) == Done(Alt(x, y), 3, 1);
    assert RefBranches(p, 1, 1, x) == Done(Alt(x, y), 3, 1);
  }

  lemma OneGroup(c: byte)
    requires IsAlnum(c)
    ensures Reference([Ascii('('), c, Ascii(')')]) == Done(Group(1, Unit(EXACTLY, [c])), 3, 2)
  {
    var p, x := [Ascii('('), c, Ascii(')')], Unit(EXACTLY, [c]);
    assert RefPiece(p, 1, 2) == Done(x, 2, 2);
    assert RefPieces(p, 2, 2, x) == Done(x, 2, 2);
    assert RefPieces(p, 1, 2, Empty) == Done(x, 2, 2);
    assert RefBranches(p, 2, 2, x) == Done(x, 2, 2);
    assert RefRegex(p, 1, true, 1) == Done(Group(1, x), 3, 2);
    assert RefPiece(p, 0, 1) == Done(Group(1, x), 3, 2);
    assert RefPieces(p, 3, 2, Group(1, x)) == Done(Group(1, x), 3, 2);
    assert RefPieces(p, 0, 1, Empty) == Done(Group(1, x), 3, 2);
    assert RefBranches(p, 3, 2, Group(1, x)) == Done(Group(1, x), 3, 2);
  }
}
