/** A reference reading of the pattern syntax, one character at a time and with one meaning for
  each multiplier, and the proof that the compiler's parser, which gathers literal runs and
  picks special repeat nodes, accepts the same patterns and means the same: the same members,
  in the same order of preference. */
module RegxReference {
  import opened Bytes
  import opened RegxCode
  import opened RegxSyntax
  import opened RegxEnds
  import opened RegxLayout
  import opened RegxGrammar

  function RefAtom(p: bytes, i: nat, no: nat): (r: Parsed)
    requires i <= |p| && NulFree(p)
    ensures r.Done? ==> i < r.i <= |p|
    decreases |p| - i, 1
  {
    if StartsLiteral(p, i) then Done(Unit(EXACTLY, [p[Quoted(p, i)]]), Quoted(p, i) + 1, no)
    else if At(p, i) == LPAR then RefRegex(p, i + 1, true, no)
    else PlainAtom(p, i, no)
  }

  /** `x?`, `x*` and `x+`; a `?` behind `*` or `+` of a single character asks for the shortest match first. */
  function RefMultiplied(x: Re, op: byte, lazy: bool): (r: (Re, nat))
    requires IsMult(op)
  {
    if op == QUERY then (Opt(x), 1)
    else if Simple(x) && lazy then (Rep(if op == TIMES then STARX else PLUSX, x), 2)
    else (if op == TIMES then Loop0(x) else Loop1(x), 1)
  }

  function RefPiece(p: bytes, i: nat, no: nat): (r: Parsed)
    requires i <= |p| && NulFree(p)
    ensures r.Done? ==> i < r.i <= |p|
    decreases |p| - i, 2
  {
    var a := RefAtom(p, i, no);
    if !a.Done? then a
    else
      var op := At(p, a.i);
      if !IsMult(op) then a
      else if !Wide(a.x) && op != QUERY then Fail
      else
        var m := RefMultiplied(a.x, op, At(p, a.i + 1) == QUERY);
        if IsMult(At(p, a.i + m.1)) then Fail else Done(m.0, a.i + m.1, a.no)
  }

  function RefPieces(p: bytes, i: nat, no: nat, acc: Re): (r: Parsed)
    requires i <= |p| && NulFree(p)
    ensures r.Done? ==> i <= r.i <= |p|
    decreases |p| - i, 3
  {
    if IsStop(At(p, i)) then Done(acc, i, no)
    else
      var r := RefPiece(p, i, no);
      if !r.Done? then r else RefPieces(p, r.i, r.no, Join(acc, r.x))
  }

  function RefBranches(p: bytes, i: nat, no: nat, acc: Re): (r: Parsed)
    requires i <= |p| && NulFree(p)
    ensures r.Done? ==> i <= r.i <= |p|
    decreases |p| - i, 4
  {
    if At(p, i) == BAR || At(p, i) == NL then
      var r := RefPieces(p, i + 1, no, Empty);
      if !r.Done? then r else RefBranches(p, r.i, r.no, Alt(acc, r.x))
    else Done(acc, i, no)
  }

  function RefRegex(p: bytes, i: nat, paren: bool, no: nat): (r: Parsed)
    requires i <= |p| && NulFree(p)
    ensures r.Done? ==> i <= r.i <= |p| && (paren ==> i < r.i)
    decreases |p| - i, 5
  {
    if paren && no >= MAX_SUBX then Fail
    else
      var b := RefPieces(p, i, if paren then no + 1 else no, Empty);
      if !b.Done? then b
      else
        var r := RefBranches(p, b.i, b.no, b.x);
        if !r.Done? then r
        else if paren then if At(p, r.i) == RPAR then Done(Group(no, r.x), r.i + 1, r.no) else Fail
        else if At(p, r.i) == 0 then r else Fail
  }

  /** The tree the reference reading gives a pattern. */
  function Reference(p: bytes): Parsed
    requires NulFree(p)
  {
    RefRegex(p, 0, false, 1)
  }

  /** Append the characters of `w` one by one. */
  function JoinChars(acc: Re, w: bytes): Re
    decreases |w|
  {
    if w == [] then acc else JoinChars(Join(acc, Unit(EXACTLY, [w[0]])), w[1..])
  }

  /** A compiler tree as the reference reads it: runs taken apart, one form for each multiplier
    that is not lazy. */
  function FlatPiece(x: Re): Re
    decreases x, 0
  {
    match x
    case Rep(op, y) =>
      if op == STAR then Loop0(FlatPiece(y)) else if op == PLUS then Loop1(FlatPiece(y)) else Rep(op, FlatPiece(y))
    case Loop0(y) => Loop0(FlatPiece(y))
    case Loop1(y) => Loop1(FlatPiece(y))
    case Opt(y) => Opt(FlatPiece(y))
    case Group(no, y) => Group(no, FlatAlts(y))
    case _ => x
  }

  function FlatJoin(acc: Re, x: Re): Re
    decreases x, 1
  {
    if x.Unit? && x.op == EXACTLY then JoinChars(acc, x.w) else Join(acc, FlatPiece(x))
  }

  function FlatBranch(x: Re): Re
    decreases x, 2
  {
    match x
    case Empty => Empty
    case Cat(y, z) => FlatJoin(FlatBranch(y), z)
    case _ => FlatJoin(Empty, x)
  }

  function FlatAlts(x: Re): Re
    decreases x, 3
  {
    if x.Alt? then Alt(FlatAlts(x.x), FlatBranch(x.y)) else FlatBranch(x)
  }

  // The two parsers agree.

  lemma RefStep(p: bytes, i: nat, no: nat, acc: Re, c: byte, k: nat)
    requires i <= |p| && NulFree(p) && StartsLiteral(p, i) && !IsStop(At(p, i)) && k == Quoted(p, i) && k < |p|
      && c == p[k]
    requires !IsMult(At(p, k + 1))
    ensures RefPieces(p, i, no, acc) == RefPieces(p, k + 1, no, Join(acc, Unit(EXACTLY, [c])))
  {
    assert RefPiece(p, i, no) == Done(Unit(EXACTLY, [c]), k + 1, no);
  }

  /** A literal run that ends before a character that is no multiplier is, for the reference, as
    many pieces as it has characters. */
  lemma {:induction false} RunIsPieces(p: bytes, k: nat, w: bytes, reg: int, i: nat, no: nat, acc: Re)
    requires k < |p| && NulFree(p) && NulFree(w) && (reg == NULL <==> w == [])
    requires reg != NULL ==> 0 < reg <= k && !IsMult(At(p, reg)) && reg == i
    requires i <= |p| && StartsLiteral(p, i) && k == Quoted(p, i)
    requires !IsMult(At(p, LitLoop(p, k, w, reg).end))
    ensures var l := LitLoop(p, k, w, reg);
            |w| <= |l.w| && l.w[..|w|] == w
              && RefPieces(p, i, no, acc) == RefPieces(p, l.end, no, JoinChars(acc, l.w[|w|..]))
    decreases |p| - k
  {
    var c, next := p[k], At(p, k + 1);
    var l := LitLoop(p, k, w, reg);
    if IsMult(next) {
      assert l.w[|w|..] == [];
    } else if IsMagic(next)
      || (next == BACKSLASH && (At(p, k + 2) == 0 || At(p, k + 2) == LESS || At(p, k + 2) == GREATER)) {
      RefStep(p, i, no, acc, c, k);
      assert l.end == k + 1 && l.w == w + [c];
      LastChar(acc, w, c);
    } else {
      var acc', k' := Join(acc, Unit(EXACTLY, [c])), if next == BACKSLASH then k + 2 else k + 1;
      RefStep(p, i, no, acc, c, k);
      RunGoesOn(p, k, k', w, reg);
      RunIsPieces(p, k', w + [c], k + 1, k + 1, no, acc');
      NextChars(acc, w, c, l.w);
    }
  }

  /** A run that does not end at `k` goes on with the next character, quoted or not. */
  lemma RunGoesOn(p: bytes, k: nat, k': nat, w: bytes, reg: int)
    requires k < |p| && NulFree(p) && NulFree(w) && (reg == NULL <==> w == [])
    requires reg != NULL ==> 0 < reg <= k && !IsMult(At(p, reg))
    requires var next := At(p, k + 1);
      && !IsMult(next) && !IsMagic(next) && k' == (if next == BACKSLASH then k + 2 else k + 1)
      && (next == BACKSLASH ==> At(p, k + 2) != 0 && At(p, k + 2) != LESS && At(p, k + 2) != GREATER)
    ensures k' < |p| && NulFree(w + [p[k]]) && StartsLiteral(p, k + 1) && k' == Quoted(p, k + 1)
    ensures LitLoop(p, k, w, reg) == LitLoop(p, k', w + [p[k]], k + 1)
  {
  }

  lemma LastChar(acc: Re, w: bytes, c: byte)
    ensures (w + [c])[|w|..] == [c] && (w + [c])[..|w|] == w
    ensures JoinChars(acc, [c]) == Join(acc, Unit(EXACTLY, [c]))
  {
    assert [c][1..] == [];
  }

  lemma NextChars(acc: Re, w: bytes, c: byte, all: bytes)
    requires |w| < |all| && all[..|w| + 1] == w + [c]
    ensures all[..|w|] == w
    ensures JoinChars(acc, all[|w|..]) == JoinChars(Join(acc, Unit(EXACTLY, [c])), all[|w| + 1..])
  {
    assert all[..|w|] == all[..|w| + 1][..|w|];
    assert all[|w|] == all[..|w| + 1][|w|] == c;
    assert all[|w|..][0] == c && all[|w|..][1..] == all[|w| + 1..];
  }

  /** The two parsers agree on a piece, on a branch, on alternatives. */
  predicate SamePiece(r: Parsed, q: Parsed) {
    r.TooBig? || if r.Done? then q == Done(FlatPiece(r.x), r.i, r.no) else q == Fail
  }

  predicate SameBranch(r: Parsed, q: Parsed) {
    r.TooBig? || if r.Done? then q == Done(FlatBranch(r.x), r.i, r.no) else q == Fail
  }

  predicate SameAlts(r: Parsed, q: Parsed) {
    r.TooBig? || if r.Done? then q == Done(FlatAlts(r.x), r.i, r.no) else q == Fail
  }

  lemma {:induction false} FlatWide(x: Re)
    requires Ok(x)
    ensures Wide(FlatPiece(x)) == Wide(x) && Simple(FlatPiece(x)) == Simple(x)
    decreases x, 0
  {
    match x
    case Group(no, y) => FlatAltsWide(y);
    case _ =>
  }

  lemma {:induction false} JoinCharsWide(acc: Re, w: bytes)
    ensures Wide(JoinChars(acc, w)) == (Wide(acc) || w != [])
    decreases |w|
  {
    if w != [] { JoinCharsWide(Join(acc, Unit(EXACTLY, [w[0]])), w[1..]); }
  }

  lemma {:induction false} FlatJoinWide(acc: Re, x: Re)
    requires Ok(x)
    ensures Wide(FlatJoin(acc, x)) == (Wide(acc) || Wide(x))
    decreases x, 1
  {
    if x.Unit? && x.op == EXACTLY { JoinCharsWide(acc, x.w); } else if !x.Cat? { FlatWide(x); }
  }

  lemma {:induction false} FlatBranchWide(x: Re)
    requires Ok(x)
    ensures Wide(FlatBranch(x)) == Wide(x)
    decreases x, 2
  {
    if x.Cat? {
      FlatBranchWide(x.x);
      FlatJoinWide(FlatBranch(x.x), x.y);
    } else if !x.Empty? {
      FlatJoinWide(Empty, x);
    }
  }

  lemma {:induction false} FlatAltsWide(x: Re)
    requires OkAlts(x)
    ensures Wide(FlatAlts(x)) == Wide(x)
    decreases x, 3
  {
    if x.Alt? {
      FlatAltsWide(x.x);
      FlatBranchWide(x.y);
    } else {
      FlatBranchWide(x);
    }
  }

  /** A literal at `i` that gives its last character to no multiplier. */
  predicate PlainRun(p: bytes, i: nat)
    requires i <= |p| && NulFree(p)
  {
    StartsLiteral(p, i) && !IsMult(At(p, LitLoop(p, Quoted(p, i), [], NULL).end))
  }

  lemma {:induction false} AtomAgrees(p: bytes, i: nat, no: nat, size: nat)
    requires i <= |p| && NulFree(p) && 1 <= no && !PlainRun(p, i)
    ensures SamePiece(Atom(p, i, no, size), RefAtom(p, i, no))
    decreases |p| - i, 1
  {
    if !StartsLiteral(p, i) && At(p, i) == LPAR { RegexAgrees(p, i + 1, true, no, size); }
  }

  lemma {:induction false} PieceAgrees(p: bytes, i: nat, no: nat, size: nat)
    requires i <= |p| && NulFree(p) && 1 <= no && !PlainRun(p, i)
    ensures SamePiece(Piece(p, i, no, size), RefPiece(p, i, no))
    decreases |p| - i, 2
  {
    AtomAgrees(p, i, no, size);
    var a := Atom(p, i, no, size);
    if a.Done? {
      FlatWide(a.x);
      if IsMult(At(p, a.i)) { MultipliedAgrees(a.x, At(p, a.i), At(p, a.i + 1) == QUERY); }
    }
  }

  lemma MultipliedAgrees(x: Re, op: byte, lazy: bool)
    requires IsMult(op) && Ok(x)
    ensures var m, q := Multiplied(x, op, lazy), RefMultiplied(FlatPiece(x), op, lazy);
            FlatPiece(m.0) == q.0 && m.1 == q.1
  {
    FlatWide(x);
  }

  lemma {:induction false} PiecesAgree(p: bytes, i: nat, no: nat, acc: Re, size: nat)
    requires i <= |p| && NulFree(p) && 1 <= no && Ok(acc)
    ensures SameBranch(Pieces(p, i, no, acc, size), RefPieces(p, i, no, FlatBranch(acc)))
    decreases |p| - i, 3, 1
  {
    if !IsStop(At(p, i)) {
      var end := if acc.Empty? then size else size + Size(acc);
      var r := Piece(p, i, no, end);
      PiecesStep(p, i, no, acc, size, end);
      OnePieceAgrees(p, i, no, acc, end);
      if r.Done? {
        assert FlatBranch(Join(acc, r.x)) == FlatJoin(FlatBranch(acc), r.x);
        PiecesAgree(p, r.i, r.no, Join(acc, r.x), size);
      }
    }
  }

  /** What one piece is for the compiler is one piece, or a run of them, for the reference. */
  lemma {:induction false} OnePieceAgrees(p: bytes, i: nat, no: nat, acc: Re, end: nat)
    requires i <= |p| && NulFree(p) && 1 <= no && Ok(acc) && !IsStop(At(p, i))
    ensures var r := Piece(p, i, no, end);
            r.TooBig? || RefPieces(p, i, no, FlatBranch(acc))
                      == if r.Done? then RefPieces(p, r.i, r.no, FlatJoin(FlatBranch(acc), r.x)) else Fail
    decreases |p| - i, 3, 0
  {
    if PlainRun(p, i) {
      RunIsPieces(p, Quoted(p, i), [], NULL, i, no, FlatBranch(acc));
      var l := LitLoop(p, Quoted(p, i), [], NULL);
      assert l.w[0..] == l.w;
    } else {
      PieceAgrees(p, i, no, end);
    }
  }

  lemma {:induction false} BranchesAgree(p: bytes, i: nat, no: nat, acc: Re, size: nat)
    requires i <= |p| && NulFree(p) && 1 <= no && OkAlts(acc) && size + SizeAlts(acc) < LIMIT
    ensures SameAlts(Branches(p, i, no, acc, size), RefBranches(p, i, no, FlatAlts(acc)))
    decreases |p| - i, 5
  {
    if At(p, i) == BAR || At(p, i) == NL {
      PiecesAgree(p, i + 1, no, Empty, size + SizeAlts(acc) + 3);
      var r := Branch(p, i + 1, no, size + SizeAlts(acc));
      if r.Done? { BranchesAgree(p, r.i, r.no, Alt(acc, r.x), size); }
    }
  }

  lemma {:induction false} RegexAgrees(p: bytes, i: nat, paren: bool, no: nat, size: nat)
    requires i <= |p| && NulFree(p) && 1 <= no
    ensures paren ==> SamePiece(Regex(p, i, true, no, size), RefRegex(p, i, true, no))
    ensures !paren ==> SameAlts(Regex(p, i, false, no, size), RefRegex(p, i, false, no))
    decreases |p| - i, 6
  {
    if !(paren && no >= MAX_SUBX) {
      var size', no' := if paren then size + 3 else size, if paren then no + 1 else no;
      PiecesAgree(p, i, no', Empty, size' + 3);
      var b := Branch(p, i, no', size');
      if b.Done? { BranchesAgree(p, b.i, b.no, b.x, size'); }
    }
  }

  /** Within 64K the compiler accepts exactly the patterns of the reference grammar, with the
    same tree up to literal runs and repeat nodes. */
  lemma CompilerAgrees(p: bytes)
    requires NulFree(p) && !Compiled(p).TooBig?
    ensures SameAlts(Compiled(p), Reference(p))
  {
    RegexAgrees(p, 0, false, 1, 1);
  }

  // The two trees mean the same, in the same order.

  /** `x` and `y` have the same ends on `s`, in the same order. */
  ghost predicate SameEnds(x: Re, y: Re, cap: nat, s: bytes) {
    forall i: nat :: i <= |s| ==> Ends(x, cap, s, i) == Ends(y, cap, s, i)
  }

  lemma {:induction false} SameThen(x: Re, y: Re, cap: nat, s: bytes, i: nat, at: seq<nat>)
    requires SameEnds(x, y, cap, s) && i <= |s| && Within(at, i, |s|)
    ensures ThenEnds(x, cap, s, i, at) == ThenEnds(y, cap, s, i, at)
    decreases |at|
  {
    if at != [] {
      SameThen(x, y, cap, s, i, at[1..]);
    }
  }

  lemma {:induction false} SameRounds(x: Re, y: Re, lazy: bool, cap: nat, s: bytes, i: nat)
    requires SameEnds(x, y, cap, s) && i <= |s|
    ensures Rounds(x, lazy, cap, s, i) == Rounds(y, lazy, cap, s, i)
    decreases |s| - i
  {
    SameRoundsFrom(x, y, lazy, cap, s, i, Ends(x, cap, s, i));
  }

  lemma {:induction false} SameRoundsFrom(x: Re, y: Re, lazy: bool, cap: nat, s: bytes, i: nat, at: seq<nat>)
    requires SameEnds(x, y, cap, s) && i <= |s| && Within(at, i, |s|)
    ensures RoundsFrom(x, lazy, cap, s, i, at) == RoundsFrom(y, lazy, cap, s, i, at)
    decreases |s| - i, |at|
  {
    if at != [] {
      SameRoundsFrom(x, y, lazy, cap, s, i, at[1..]);
      if at[0] > i {
        SameRounds(x, y, lazy, cap, s, at[0]);
      }
    }
  }

  lemma {:induction false} SameThenRounds(x: Re, y: Re, lazy: bool, cap: nat, s: bytes, i: nat, at: seq<nat>)
    requires SameEnds(x, y, cap, s) && i <= |s| && Within(at, i, |s|)
    ensures ThenRounds(x, lazy, cap, s, i, at) == ThenRounds(y, lazy, cap, s, i, at)
    decreases |at|
  {
    if at != [] {
      SameThenRounds(x, y, lazy, cap, s, i, at[1..]);
      SameRounds(x, y, lazy, cap, s, at[0]);
    }
  }

  /** Where the places come from does not matter. */
  lemma {:induction false} ThenPlace(x: Re, cap: nat, s: bytes, i: nat, j: nat, at: seq<nat>)
    requires i <= |s| && j <= |s| && Within(at, i, |s|) && Within(at, j, |s|)
    ensures ThenEnds(x, cap, s, i, at) == ThenEnds(x, cap, s, j, at)
    decreases |at|
  {
    if at != [] {
      ThenPlace(x, cap, s, i, j, at[1..]);
    }
  }

  lemma {:induction false} ThenConcat(x: Re, cap: nat, s: bytes, i: nat, a: seq<nat>, b: seq<nat>)
    requires i <= |s| && Within(a, i, |s|) && Within(b, i, |s|)
    ensures ThenEnds(x, cap, s, i, a + b) == ThenEnds(x, cap, s, i, a) + ThenEnds(x, cap, s, i, b)
    decreases |a|
  {
    if a == [] {
      assert a + b == b;
    } else {
      assert (a + b)[1..] == a[1..] + b;
      ThenConcat(x, cap, s, i, a[1..], b);
    }
  }

  /** One tree after another is their concatenation. */
  lemma {:induction false} ThenThen(x: Re, y: Re, cap: nat, s: bytes, i: nat, at: seq<nat>)
    requires i <= |s| && Within(at, i, |s|)
    ensures ThenEnds(y, cap, s, i, ThenEnds(x, cap, s, i, at)) == ThenEnds(Cat(x, y), cap, s, i, at)
    decreases |at|
  {
    if at != [] {
      var first := Ends(x, cap, s, at[0]);
      ThenThen(x, y, cap, s, i, at[1..]);
      ThenConcat(y, cap, s, i, first, ThenEnds(x, cap, s, i, at[1..]));
      ThenPlace(y, cap, s, i, at[0], first);
    }
  }

  /** Appending to a branch goes on from its ends. */
  lemma JoinEnds(acc: Re, x: Re, cap: nat, s: bytes, i: nat)
    requires i <= |s|
    ensures Ends(Join(acc, x), cap, s, i) == ThenEnds(x, cap, s, i, Ends(acc, cap, s, i))
  {
    if acc.Empty? {
      ThenOne(x, cap, s, i);
    }
  }

  lemma ThenOne(x: Re, cap: nat, s: bytes, i: nat)
    requires i <= |s|
    ensures ThenEnds(x, cap, s, i, [i]) == Ends(x, cap, s, i)
  {
    var at := [i];
    assert at[1..] == [] && Ends(x, cap, s, i) + [] == Ends(x, cap, s, i);
  }

  /** A string is its first character and then the others. */
  lemma StringParts(w: bytes, cap: nat, s: bytes)
    requires |w| > 1 && NulFree(w)
    ensures SameEnds(Cat(Unit(EXACTLY, [w[0]]), Unit(EXACTLY, w[1..])), Unit(EXACTLY, w), cap, s)
  {
    var x, y := Unit(EXACTLY, [w[0]]), Unit(EXACTLY, w[1..]);
    forall i: nat | i <= |s| ensures Ends(Cat(x, y), cap, s, i) == Ends(Unit(EXACTLY, w), cap, s, i) {
      StringFirst(w, s, i);
      if Ends(x, cap, s, i) == [i + 1] {
        ThenPlace(y, cap, s, i, i + 1, [i + 1]);
        ThenOne(y, cap, s, i + 1);
      }
    }
  }

  lemma StringFirst(w: bytes, s: bytes, i: nat)
    requires |w| > 1 && NulFree(w) && i <= |s|
    ensures var j := UnitStep(EXACTLY, [w[0]], s, i);
      && (j == NULL || j == i + 1)
      && UnitStep(EXACTLY, w, s, i) == if j == NULL then NULL else UnitStep(EXACTLY, w[1..], s, i + 1)
  {
    if i < |s| {
      assert s[i..i + 1] == [s[i]];
      if i + |w| <= |s| {
        assert s[i..i + |w|] == [s[i]] + s[i + 1..i + |w|];
        assert w == [w[0]] + w[1..];
        assert s[i + 1..i + |w|] == w[1..] ==> s[i + 1] == w[1];
      }
    }
  }

  /** Appending characters one by one is appending the string. */
  lemma {:induction false} JoinCharsEnds(acc: Re, w: bytes, cap: nat, s: bytes, i: nat)
    requires i <= |s| && NulFree(w) && w != []
    ensures Ends(JoinChars(acc, w), cap, s, i) == ThenEnds(Unit(EXACTLY, w), cap, s, i, Ends(acc, cap, s, i))
    decreases |w|
  {
    var c, at := Unit(EXACTLY, [w[0]]), Ends(acc, cap, s, i);
    JoinEnds(acc, c, cap, s, i);
    if |w| == 1 {
      assert w == [w[0]] && w[1..] == [];
    } else {
      JoinCharsEnds(Join(acc, c), w[1..], cap, s, i);
      ThenThen(c, Unit(EXACTLY, w[1..]), cap, s, i, at);
      StringParts(w, cap, s);
      SameThen(Cat(c, Unit(EXACTLY, w[1..])), Unit(EXACTLY, w), cap, s, i, at);
    }
  }

  lemma {:induction false} FlatPieceEnds(x: Re, cap: nat, s: bytes)
    requires Ok(x)
    ensures SameEnds(FlatPiece(x), x, cap, s)
    decreases x, 0
  {
    match x
    case Rep(op, y) => assert FlatPiece(y) == y;
    case Loop0(y) =>
      FlatPieceEnds(y, cap, s);
      LoopEnds(FlatPiece(y), y, cap, s);
    case Loop1(y) =>
      FlatPieceEnds(y, cap, s);
      LoopEnds(FlatPiece(y), y, cap, s);
    case Opt(y) => FlatPieceEnds(y, cap, s);
    case Group(no, y) => FlatAltsEnds(y, cap, s);
    case _ =>
  }

  lemma LoopEnds(x: Re, y: Re, cap: nat, s: bytes)
    requires SameEnds(x, y, cap, s)
    ensures SameEnds(Loop0(x), Loop0(y), cap, s) && SameEnds(Loop1(x), Loop1(y), cap, s)
  {
    forall i: nat | i <= |s|
      ensures Ends(Loop0(x), cap, s, i) == Ends(Loop0(y), cap, s, i)
      ensures Ends(Loop1(x), cap, s, i) == Ends(Loop1(y), cap, s, i)
    {
      SameRounds(x, y, false, cap, s, i);
      SameThenRounds(x, y, false, cap, s, i, Ends(x, cap, s, i));
    }
  }

  lemma FlatJoinEnds(acc: Re, x: Re, cap: nat, s: bytes, i: nat)
    requires i <= |s| && Ok(x) && SameEnds(FlatPiece(x), x, cap, s)
    ensures Ends(FlatJoin(acc, x), cap, s, i) == ThenEnds(x, cap, s, i, Ends(acc, cap, s, i))
  {
    if x.Unit? && x.op == EXACTLY {
      JoinCharsEnds(acc, x.w, cap, s, i);
    } else {
      JoinEnds(acc, FlatPiece(x), cap, s, i);
      SameThen(FlatPiece(x), x, cap, s, i, Ends(acc, cap, s, i));
    }
  }

  lemma {:induction false} FlatBranchEnds(x: Re, cap: nat, s: bytes)
    requires Ok(x)
    ensures SameEnds(FlatBranch(x), x, cap, s)
    decreases x, 2
  {
    if x.Cat? {
      FlatBranchEnds(x.x, cap, s);
      FlatPieceEnds(x.y, cap, s);
    } else if !x.Empty? {
      FlatPieceEnds(x, cap, s);
    }
    forall i: nat | i <= |s| ensures Ends(FlatBranch(x), cap, s, i) == Ends(x, cap, s, i) {
      if x.Cat? {
        FlatJoinEnds(FlatBranch(x.x), x.y, cap, s, i);
      } else if !x.Empty? {
        FlatJoinEnds(Empty, x, cap, s, i);
        ThenOne(x, cap, s, i);
      }
    }
  }

  /** Taking runs apart and choosing special repeat nodes changes neither the members nor their
    order of preference. */
  lemma {:induction false} FlatAltsEnds(x: Re, cap: nat, s: bytes)
    requires OkAlts(x)
    ensures SameEnds(FlatAlts(x), x, cap, s)
    decreases x, 3
  {
    if x.Alt? {
      FlatAltsEnds(x.x, cap, s);
      FlatBranchEnds(x.y, cap, s);
    } else {
      FlatBranchEnds(x, cap, s);
    }
  }

  /** The highest group number in a tree. */
  function HighestGroup(x: Re): nat {
    match x
    case Unit(op, w) => 0
    case Rep(op, y) => HighestGroup(y)
    case Loop0(y) => HighestGroup(y)
    case Loop1(y) => HighestGroup(y)
    case Opt(y) => HighestGroup(y)
    case Group(no, y) => var h := HighestGroup(y); if no > h then no else h
    case Empty => 0
    case Cat(y, z) => var h, k := HighestGroup(y), HighestGroup(z); if h > k then h else k
    case Alt(y, z) => var h, k := HighestGroup(y), HighestGroup(z); if h > k then h else k
  }

  /** Groups within the cap do not notice it. */
  lemma {:induction false} EndsCap(x: Re, cap: nat, cap': nat, s: bytes, i: nat)
    requires i <= |s| && HighestGroup(x) <= cap && HighestGroup(x) <= cap'
    ensures Ends(x, cap, s, i) == Ends(x, cap', s, i)
    decreases x, 0
  {
    match x
    case Unit(op, w) =>
    case Rep(op, y) =>
      EndsCap(y, cap, cap', s, i);
      RoundsCap(y, op == STARX, cap, cap', s, i);
      ThenRoundsCap(y, op == PLUSX, cap, cap', s, i, Ends(y, cap, s, i));
    case Loop0(y) => RoundsCap(y, false, cap, cap', s, i);
    case Loop1(y) =>
      EndsCap(y, cap, cap', s, i);
      ThenRoundsCap(y, false, cap, cap', s, i, Ends(y, cap, s, i));
    case Opt(y) => EndsCap(y, cap, cap', s, i);
    case Group(no, y) => EndsCap(y, cap, cap', s, i);
    case Empty =>
    case Cat(y, z) =>
      EndsCap(y, cap, cap', s, i);
      ThenEndsCap(z, cap, cap', s, i, Ends(y, cap, s, i));
    case Alt(y, z) =>
      EndsCap(y, cap, cap', s, i);
      EndsCap(z, cap, cap', s, i);
  }

  lemma {:induction false} ThenEndsCap(x: Re, cap: nat, cap': nat, s: bytes, i: nat, at: seq<nat>)
    requires i <= |s| && Within(at, i, |s|) && HighestGroup(x) <= cap && HighestGroup(x) <= cap'
    ensures ThenEnds(x, cap, s, i, at) == ThenEnds(x, cap', s, i, at)
    decreases x, 1, |at|
  {
    if at != [] {
      EndsCap(x, cap, cap', s, at[0]);
      ThenEndsCap(x, cap, cap', s, i, at[1..]);
    }
  }

  lemma {:induction false} RoundsCap(x: Re, lazy: bool, cap: nat, cap': nat, s: bytes, i: nat)
    requires i <= |s| && HighestGroup(x) <= cap && HighestGroup(x) <= cap'
    ensures Rounds(x, lazy, cap, s, i) == Rounds(x, lazy, cap', s, i)
    decreases x, 2, |s| - i
  {
    EndsCap(x, cap, cap', s, i);
    RoundsFromCap(x, lazy, cap, cap', s, i, Ends(x, cap, s, i));
  }

  lemma {:induction false} RoundsFromCap(x: Re, lazy: bool, cap: nat, cap': nat, s: bytes, i: nat, at: seq<nat>)
    requires i <= |s| && Within(at, i, |s|) && HighestGroup(x) <= cap && HighestGroup(x) <= cap'
    ensures RoundsFrom(x, lazy, cap, s, i, at) == RoundsFrom(x, lazy, cap', s, i, at)
    decreases x, 2, |s| - i, |at|
  {
    if at != [] {
      if at[0] > i {
        RoundsCap(x, lazy, cap, cap', s, at[0]);
      }
      RoundsFromCap(x, lazy, cap, cap', s, i, at[1..]);
    }
  }

  lemma {:induction false} ThenRoundsCap(x: Re, lazy: bool, cap: nat, cap': nat, s: bytes, i: nat, at: seq<nat>)
    requires i <= |s| && Within(at, i, |s|) && HighestGroup(x) <= cap && HighestGroup(x) <= cap'
    ensures ThenRounds(x, lazy, cap, s, i, at) == ThenRounds(x, lazy, cap', s, i, at)
    decreases x, 3, |at|
  {
    if at != [] {
      RoundsCap(x, lazy, cap, cap', s, at[0]);
      ThenRoundsCap(x, lazy, cap, cap', s, i, at[1..]);
    }
  }

  /** Whatever number of groups can match, the compiled program and the pattern as the reference
    reads it have the same ends everywhere, in the same order of preference, and so the same
    members. */
  lemma CompiledAlike(p: bytes, cap: nat, s: bytes, i: nat)
    requires NulFree(p) && Compiled(p).Done? && i <= |s|
    ensures Reference(p).Done?
    ensures Ends(Compiled(p).x, cap, s, i) == Ends(Reference(p).x, cap, s, i)
    ensures forall j :: i <= j <= |s| ==> (L(Compiled(p).x, cap, s, i, j) <==> L(Reference(p).x, cap, s, i, j))
  {
    CompilerAgrees(p);
    FlatAltsEnds(Compiled(p).x, cap, s);
    forall j | i <= j <= |s|
      ensures L(Compiled(p).x, cap, s, i, j) <==> L(Reference(p).x, cap, s, i, j)
    {
      EndsAre(Compiled(p).x, cap, s, i, j);
      EndsAre(Reference(p).x, cap, s, i, j);
    }
  }

  /** With at most nine groups, what the compiled program can match is what the pattern as the
    reference reads it can match with all its groups, in the same order of preference. */
  lemma CompiledLanguage(p: bytes, s: bytes, i: nat)
    requires NulFree(p) && Compiled(p).Done? && i <= |s|
    requires HighestGroup(Compiled(p).x) <= MATCHED_GROUPS
    ensures Reference(p).Done?
    ensures Ends(Compiled(p).x, MATCHED_GROUPS, s, i) == Ends(Reference(p).x, MAX_SUBX, s, i)
    ensures forall j :: i <= j <= |s| ==>
      (L(Compiled(p).x, MATCHED_GROUPS, s, i, j) <==> L(Reference(p).x, MAX_SUBX, s, i, j))
  {
    CompiledAlike(p, MAX_SUBX, s, i);
    EndsCap(Compiled(p).x, MATCHED_GROUPS, MAX_SUBX, s, i);
    forall j | i <= j <= |s|
      ensures L(Compiled(p).x, MATCHED_GROUPS, s, i, j) <==> L(Reference(p).x, MAX_SUBX, s, i, j)
    {
      EndsAre(Compiled(p).x, MATCHED_GROUPS, s, i, j);
      EndsAre(Reference(p).x, MAX_SUBX, s, i, j);
    }
  }
}
