/** The machine on compiled code takes the ends of the language's members in their order of
  preference: backtracking is complete, and it terminates because HASWIDTH is sound. */
module RegxMeaning {
  import opened Bytes
  import opened RegxCode
  import opened RegxSyntax
  import opened RegxEnds
  import opened RegxLayout

  const CAP: nat := MATCHED_GROUPS

  /** The verdicts of a program on a text, by node address and text position. */
  type Results = (int, int) -> Verdict

  /** Names a place of interest: `Runs` speaks only of places named with it, so that it
    is used where a proof asks for it and nowhere else. */
  predicate Place(pc: int, i: int) {
    true
  }

  ghost predicate Runs(code: bytes, s: bytes, R: Results) {
    forall pc: int, i: int {:trigger Place(pc, i)} :: Place(pc, i) && 0 <= i <= |s| ==> R(pc, i) == Res(code, s, pc, i)
  }

  lemma UnitRuns(code: bytes, s: bytes, R: Results, pc: nat, op: byte, w: bytes, e: int, i: nat)
    requires Runs(code, s, R) && i <= |s| && NodeAt(code, pc, op, e) && IsUnit(op)
    requires HasOperand(op) ==> Operand(code, pc + 3) == w
    requires var j := UnitStep(op, w, s, i);
             j != NULL ==> !R(e, j).Unknown?
    ensures var j := UnitStep(op, w, s, i);
            R(pc, i) == if j == NULL then No else R(e, j)
  {
    var j := UnitStep(op, w, s, i);
    assert UnitStep(op, Operand(code, pc + 3), s, i) == j;
    assert Place(pc, i) && Place(e, j);
    ResUnit(code, s, pc, i);
  }

  lemma OpenCloseRuns(code: bytes, s: bytes, R: Results, pc: nat, op: byte, e: int, i: nat)
    requires Runs(code, s, R) && i <= |s| && NodeAt(code, pc, op, e) && IsOpenClose(op)
    requires !R(e, i).Unknown?
    ensures R(pc, i) == R(e, i)
  {
    assert Place(pc, i) && Place(e, i);
    ResOpenClose(code, s, pc, i);
  }

  /** What a chain of alternatives does when everything before `f` failed. */
  ghost function Else(code: bytes, R: Results, f: int, i: int): Verdict {
    if IsNode(code, f) && code[f] == BRANCH then R(f, i) else No
  }

  lemma BranchRuns(code: bytes, s: bytes, R: Results, pc: nat, f: int, i: nat)
    requires Runs(code, s, R) && i <= |s| && NodeAt(code, pc, BRANCH, f)
    requires !R(pc + 3, i).Unknown? && !Else(code, R, f, i).Unknown?
    ensures R(pc, i) == if R(pc + 3, i).No? then Else(code, R, f, i) else R(pc + 3, i)
  {
    assert Place(pc, i) && Place(pc + 3, i) && Place(f, i);
    ResBranch(code, s, pc, i);
  }

  /** Going on at `e` from the first of some places that leads to a match; No if none does. */
  ghost function Pick(R: Results, e: int, ends: seq<nat>): Verdict {
    if ends == [] then No else if R(e, ends[0]).No? then Pick(R, e, ends[1..]) else R(e, ends[0])
  }

  /** The verdict at `a` is that of going on at `e` from the first of the places `ends` that leads
    to a match. */
  ghost predicate Agrees(R: Results, ends: seq<nat>, a: int, e: int, i: int) {
    R(a, i) == Pick(R, e, ends) && !R(a, i).Unknown?
  }

  /** The program at `e` decides every position that a fragment started at `i` can end at. */
  ghost predicate Decided(s: bytes, R: Results, e: int, i: int, wide: bool) {
    forall j :: i <= j <= |s| && (wide ==> i < j) ==> !R(e, j).Unknown?
  }

  lemma {:induction false} PickDecided(R: Results, e: int, ends: seq<nat>)
    requires forall m :: m in ends ==> !R(e, m).Unknown?
    ensures !Pick(R, e, ends).Unknown?
  {
    if ends != [] {
      assert ends[0] in ends && forall m :: m in ends[1..] ==> m in ends;
      PickDecided(R, e, ends[1..]);
    }
  }

  lemma {:induction false} PickConcat(R: Results, e: int, a: seq<nat>, b: seq<nat>)
    ensures Pick(R, e, a + b) == if Pick(R, e, a).No? then Pick(R, e, b) else Pick(R, e, a)
  {
    if a == [] {
      assert a + b == b;
    } else {
      assert (a + b)[1..] == a[1..] + b;
      PickConcat(R, e, a[1..], b);
    }
  }

  lemma PickOne(R: Results, e: int, i: nat)
    ensures Pick(R, e, [i]) == R(e, i)
  {
    assert Pick(R, e, [i][1..]) == No;
  }

  /** Places that go on alike from two nodes. */
  lemma {:induction false} PickSame(R: Results, b: int, e: int, ends: seq<nat>)
    requires forall m :: m in ends ==> R(b, m) == R(e, m)
    ensures Pick(R, b, ends) == Pick(R, e, ends)
  {
    if ends != [] {
      assert ends[0] in ends && forall m :: m in ends[1..] ==> m in ends;
      PickSame(R, b, e, ends[1..]);
    }
  }

  lemma {:induction false} PickThen(R: Results, x: Re, s: bytes, i: nat, at: seq<nat>, b: int, e: int)
    requires i <= |s| && Within(at, i, |s|)
    requires forall m :: m in at ==> i <= m <= |s| && R(b, m) == Pick(R, e, Ends(x, CAP, s, m))
    ensures Pick(R, b, at) == Pick(R, e, ThenEnds(x, CAP, s, i, at))
  {
    if at != [] {
      assert at[0] in at && forall m :: m in at[1..] ==> m in at;
      PickThen(R, x, s, i, at[1..], b, e);
      PickConcat(R, e, Ends(x, CAP, s, at[0]), ThenEnds(x, CAP, s, i, at[1..]));
    }
  }

  lemma {:induction false} PickRoundsFrom(R: Results, x: Re, s: bytes, i: nat, at: seq<nat>, b: int, e: int)
    requires i <= |s| && Within(at, i, |s|)
    requires forall m :: m in at ==> i < m <= |s| && R(b, m) == Pick(R, e, Rounds(x, false, CAP, s, m))
    ensures Pick(R, b, at) == Pick(R, e, RoundsFrom(x, false, CAP, s, i, at))
  {
    if at != [] {
      assert at[0] in at && forall m :: m in at[1..] ==> m in at;
      PickRoundsFrom(R, x, s, i, at[1..], b, e);
      PickConcat(R, e, Rounds(x, false, CAP, s, at[0]), RoundsFrom(x, false, CAP, s, i, at[1..]));
    }
  }

  lemma {:induction false} PickThenRounds(R: Results, x: Re, s: bytes, i: nat, at: seq<nat>, b: int, e: int)
    requires i <= |s| && Within(at, i, |s|)
    requires forall m :: m in at ==> i <= m <= |s| && R(b, m) == Pick(R, e, Rounds(x, false, CAP, s, m))
    ensures Pick(R, b, at) == Pick(R, e, ThenRounds(x, false, CAP, s, i, at))
  {
    if at != [] {
      assert at[0] in at && forall m :: m in at[1..] ==> m in at;
      PickThenRounds(R, x, s, i, at[1..], b, e);
      PickConcat(R, e, Rounds(x, false, CAP, s, at[0]), ThenRounds(x, false, CAP, s, i, at[1..]));
    }
  }

  // ---------------------------------------------------------------- single nodes and repeats

  lemma {:induction false} DownPicks(code: bytes, s: bytes, R: Results, e: int, i: nat, least: nat, no: int)
    returns (n: nat)
    requires Runs(code, s, R) && i + no <= |s| && i <= |s|
    requires forall j :: i + least <= j <= i + no ==> !R(e, j).Unknown?
    ensures BtDown(code, s, e, i, least, no, n) == Pick(R, e, InOrder(false, i + least, i + no))
    ensures !BtDown(code, s, e, i, least, no, n).Unknown?
    decreases no - least
  {
    n := 0;
    if least <= no {
      assert Place(e, i + no);
      n := Fuel(code, s, e, i + no);
      LastFirst(i + least, i + no);
      if R(e, i + no).No? {
        var m := DownPicks(code, s, R, e, i, least, no - 1);
        BtMonotone(code, s, e, i + no, n, n + m);
        BtDownMonotone(code, s, e, i, least, no - 1, m, n + m);
        n := n + m;
      }
    }
  }

  lemma {:induction false} UpPicks(code: bytes, s: bytes, R: Results, e: int, i: nat, no: nat, most: nat)
    returns (n: nat)
    requires Runs(code, s, R) && i + most <= |s| && i <= |s|
    requires forall j :: i + no <= j <= i + most ==> !R(e, j).Unknown?
    ensures BtUp(code, s, e, i, no, most, n) == Pick(R, e, InOrder(true, i + no, i + most))
    ensures !BtUp(code, s, e, i, no, most, n).Unknown?
    decreases most - no
  {
    n := 0;
    if no <= most {
      assert Place(e, i + no);
      n := Fuel(code, s, e, i + no);
      if R(e, i + no).No? {
        var m := UpPicks(code, s, R, e, i, no + 1, most);
        BtMonotone(code, s, e, i + no, n, n + m);
        BtUpMonotone(code, s, e, i, no + 1, most, m, n + m);
        n := n + m;
      }
    }
  }

  lemma {:induction false} RepeatsOperand(op: byte, w: bytes, v: bytes, s: bytes, i: nat)
    requires i <= |s| && (HasOperand(op) ==> v == w)
    ensures Repeats(op, w, s, i) == Repeats(op, v, s, i)
    decreases |s| - i
  {
    if i < |s| && Takes(op, w, s[i]) { RepeatsOperand(op, w, v, s, i + 1); }
  }

  lemma RepPicks(code: bytes, s: bytes, R: Results, op: byte, x: Re, a: nat, e: nat, i: nat)
    requires Runs(code, s, R) && i <= |s| && NodeAt(code, a, op, e) && Ok(Rep(op, x))
    requires NodeAt(code, a + 3, x.op, NULL) && (HasOperand(x.op) ==> Operand(code, a + 6) == x.w)
    requires Decided(s, R, e, i, op == PLUS || op == PLUSX)
    ensures var lo, hi := if op == STAR || op == STARX then i else i + 1, i + Repeats(x.op, x.w, s, i);
      Agrees(R, InOrder(op == STARX || op == PLUSX, lo, hi), a, e, i)
  {
    var most := Repeats(x.op, x.w, s, i);
    assert most == Repeats(code[a + 3], Operand(code, a + 6), s, i) by {
      RepeatsOperand(x.op, x.w, Operand(code, a + 6), s, i);
    }
    var least := if op == STAR || op == STARX then 0 else 1;
    var n: nat;
    if op == STAR || op == PLUS {
      n := DownPicks(code, s, R, e, i, least, most);
      assert Bt(code, s, a, i, n + 1) == BtDown(code, s, e, i, least, most, n);
    } else {
      n := UpPicks(code, s, R, e, i, least, most);
      assert Bt(code, s, a, i, n + 1) == BtUp(code, s, e, i, least, most, n);
    }
    assert Place(a, i);
    ResFrom(code, s, a, i, n + 1);
  }

  lemma RepFrag(code: bytes, s: bytes, R: Results, op: byte, x: Re, a: nat, e: nat, i: nat)
    requires Runs(code, s, R) && i <= |s| && Ok(Rep(op, x)) && Laid(code, a, Rep(op, x), e)
    requires Decided(s, R, e, i, op == PLUS || op == PLUSX)
    ensures Agrees(R, Ends(Rep(op, x), CAP, s, i), a, e, i)
  {
    assert Tree(Rep(op, x));
    if HasOperand(x.op) { StringIsOperand(code, a + 6, x.w); }
    RepPicks(code, s, R, op, x, a, e, i);
    RepEnds(op, x, CAP, s, i);
  }

  lemma UnitFrag(code: bytes, s: bytes, R: Results, x: Re, a: nat, e: nat, i: nat)
    requires Runs(code, s, R) && i <= |s| && x.Unit? && Ok(x) && Laid(code, a, x, e)
    requires Decided(s, R, e, i, Wide(x))
    ensures Agrees(R, Ends(x, CAP, s, i), a, e, i)
  {
    assert Tree(x);
    if HasOperand(x.op) { StringIsOperand(code, a + 3, x.w); }
    var j := UnitStep(x.op, x.w, s, i);
    UnitRuns(code, s, R, a, x.op, x.w, e, i);
    if j != NULL {
      PickOne(R, e, j);
    }
  }

  /** A NOTHING or BACK node just goes on. */
  lemma PassRuns(code: bytes, s: bytes, R: Results, a: nat, op: byte, e: nat, i: nat)
    requires Runs(code, s, R) && i <= |s| && NodeAt(code, a, op, e) && !R(e, i).Unknown?
    requires op == NOTHING || op == BACK
    ensures R(a, i) == R(e, i)
  {
    UnitRuns(code, s, R, a, op, [], e, i);
  }

  /** The empty alternative that ends a loop or an option. */
  lemma EmptyBranchFrag(code: bytes, s: bytes, R: Results, b: nat, e: nat, i: nat)
    requires Runs(code, s, R) && i <= |s| && NodeAt(code, b, BRANCH, b + 3) && NodeAt(code, b + 3, NOTHING, e)
    requires !R(e, i).Unknown?
    ensures R(b, i) == R(e, i)
  {
    PassRuns(code, s, R, b + 3, NOTHING, e, i);
    BranchRuns(code, s, R, b, b + 3, i);
  }

  /** A BACK edge from `k` to `a` passes verdicts on. */
  lemma BackRuns(code: bytes, s: bytes, R: Results, k: nat, a: nat, i: nat)
    requires Runs(code, s, R) && i <= |s| && NodeAt(code, k, BACK, a)
    requires forall j :: i < j <= |s| ==> !R(a, j).Unknown?
    ensures forall j :: i < j <= |s| ==> R(k, j) == R(a, j)
  {
    forall j | i < j <= |s|
      ensures R(k, j) == R(a, j)
    {
      PassRuns(code, s, R, k, BACK, a, j);
    }
  }

  // ---------------------------------------------------------------- fragments

  /** All ends of a fragment go on decided. */
  lemma EndsDecided(s: bytes, R: Results, x: Re, e: int, i: nat)
    requires i <= |s| && OkAlts(x) && Decided(s, R, e, i, Wide(x))
    ensures !Pick(R, e, Ends(x, CAP, s, i)).Unknown?
    ensures forall m :: m in Ends(x, CAP, s, i) ==> i <= m <= |s| && (Wide(x) ==> i < m) && !R(e, m).Unknown?
  {
    forall m | m in Ends(x, CAP, s, i) ensures i <= m <= |s| && (Wide(x) ==> i < m) && !R(e, m).Unknown? {
      WideEnds(x, CAP, s, i, m);
    }
    PickDecided(R, e, Ends(x, CAP, s, i));
  }

  /** One choice of a loop at `a`: one more round, then `a` again, or on to `e`. */
  lemma LoopStep(s: bytes, R: Results, y: Re, a: int, e: int, i: nat)
    requires i <= |s| && OkAlts(y) && Wide(y)
    requires forall j :: i < j <= |s| ==> Agrees(R, Rounds(y, false, CAP, s, j), a, e, j)
    requires Agrees(R, Ends(y, CAP, s, i), a + 3, a, i) && !R(e, i).Unknown?
    requires R(a, i) == if R(a + 3, i).No? then R(e, i) else R(a + 3, i)
    ensures Agrees(R, Rounds(y, false, CAP, s, i), a, e, i)
  {
    var at := Ends(y, CAP, s, i);
    forall m | m in at ensures i < m <= |s| && R(a, m) == Pick(R, e, Rounds(y, false, CAP, s, m)) {
      WideEnds(y, CAP, s, i, m);
    }
    PickRoundsFrom(R, y, s, i, at, a, e);
    PickConcat(R, e, RoundsFrom(y, false, CAP, s, i, at), [i]);
    PickOne(R, e, i);
  }

  lemma {:induction false} Loop0Frag(code: bytes, s: bytes, R: Results, y: Re, a: nat, e: nat, i: nat)
    requires Runs(code, s, R) && i <= |s| && Ok(y) && Wide(y) && Laid(code, a, Loop0(y), e)
    requires Decided(s, R, e, i, false)
    ensures Agrees(R, Rounds(y, false, CAP, s, i), a, e, i)
    decreases y, 2, |s| - i
  {
    assert Tree(Loop0(y));
    var k := a + 3 + Size(y);
    forall j | i < j <= |s|
      ensures Agrees(R, Rounds(y, false, CAP, s, j), a, e, j) && !R(a, j).Unknown?
    {
      Loop0Frag(code, s, R, y, a, e, j);
    }
    BackRuns(code, s, R, k, a, i);
    assert Decided(s, R, k, i, true);
    Frag(code, s, R, y, a + 3, k, i);
    EndsDecided(s, R, y, k, i);
    PickSame(R, k, a, Ends(y, CAP, s, i));
    EmptyBranchFrag(code, s, R, k + 3, e, i);
    BranchRuns(code, s, R, a, k + 3, i);
    LoopStep(s, R, y, a, e, i);
  }

  /** The choice after the first round of `x+`, where the next round starts at `a`. */
  lemma {:induction false} Loop1Frag(code: bytes, s: bytes, R: Results, y: Re, a: nat, e: nat, i: nat)
    requires Runs(code, s, R) && i <= |s| && Ok(y) && Wide(y) && Laid(code, a, Loop1(y), e)
    requires Decided(s, R, e, i, false)
    ensures Agrees(R, Rounds(y, false, CAP, s, i), a + Size(y), e, i)
    decreases y, 2, |s| - i
  {
    assert Tree(Loop1(y));
    var b := a + Size(y);
    forall j | i < j <= |s|
      ensures Agrees(R, Rounds(y, false, CAP, s, j), b, e, j) && !R(b, j).Unknown?
    {
      Loop1Frag(code, s, R, y, a, e, j);
    }
    assert Decided(s, R, b, i, true);
    Frag(code, s, R, y, a, b, i);
    PassRuns(code, s, R, b + 3, BACK, a, i);
    EmptyBranchFrag(code, s, R, b + 6, e, i);
    BranchRuns(code, s, R, b, b + 6, i);
    LoopStep(s, R, y, b, e, i);
  }

  lemma {:induction false} Loop1Whole(code: bytes, s: bytes, R: Results, y: Re, a: nat, e: nat, i: nat)
    requires Runs(code, s, R) && i <= |s| && Ok(y) && Wide(y) && Laid(code, a, Loop1(y), e)
    requires Decided(s, R, e, i, true)
    ensures Agrees(R, Ends(Loop1(y), CAP, s, i), a, e, i)
    decreases y, 3, 0
  {
    assert Tree(Loop1(y));
    var b := a + Size(y);
    forall j | i < j <= |s|
      ensures Agrees(R, Rounds(y, false, CAP, s, j), b, e, j) && !R(b, j).Unknown?
    {
      Loop1Frag(code, s, R, y, a, e, j);
    }
    assert Decided(s, R, b, i, true);
    Frag(code, s, R, y, a, b, i);
    EndsDecided(s, R, y, b, i);
    PickThenRounds(R, y, s, i, Ends(y, CAP, s, i), b, e);
  }

  lemma {:induction false} CatFrag(code: bytes, s: bytes, R: Results, y: Re, z: Re, a: nat, e: nat, i: nat)
    requires Runs(code, s, R) && i <= |s| && Ok(y) && Ok(z) && Laid(code, a, y, a + Size(y))
      && Laid(code, a + Size(y), z, e)
    requires Decided(s, R, e, i, Wide(y) || Wide(z))
    ensures Agrees(R, Ends(Cat(y, z), CAP, s, i), a, e, i)
    decreases Cat(y, z), 0, 0
  {
    var b := a + Size(y);
    forall j | i <= j <= |s| && (Wide(y) ==> i < j)
      ensures Agrees(R, Ends(z, CAP, s, j), b, e, j) && !R(b, j).Unknown?
    {
      assert Decided(s, R, e, j, Wide(z));
      Frag(code, s, R, z, b, e, j);
    }
    assert Decided(s, R, b, i, Wide(y));
    Frag(code, s, R, y, a, b, i);
    EndsDecided(s, R, y, b, i);
    PickThen(R, z, s, i, Ends(y, CAP, s, i), b, e);
  }

  lemma {:induction false} OptFrag(code: bytes, s: bytes, R: Results, y: Re, a: nat, e: nat, i: nat)
    requires Runs(code, s, R) && i <= |s| && Ok(y) && Laid(code, a, Opt(y), e)
    requires Decided(s, R, e, i, false)
    ensures Agrees(R, Ends(Opt(y), CAP, s, i), a, e, i)
    decreases y, 2, 0
  {
    assert Tree(Opt(y));
    var b := a + 3 + Size(y);
    var n := b + 3;
    forall j | i <= j <= |s|
      ensures R(n, j) == R(e, j) && !R(n, j).Unknown?
    {
      PassRuns(code, s, R, n, NOTHING, e, j);
    }
    assert Decided(s, R, n, i, Wide(y));
    Frag(code, s, R, y, a + 3, n, i);
    EndsDecided(s, R, y, n, i);
    PickSame(R, n, e, Ends(y, CAP, s, i));
    EmptyBranchFrag(code, s, R, b, e, i);
    BranchRuns(code, s, R, a, b, i);
    PickConcat(R, e, Ends(y, CAP, s, i), [i]);
    PickOne(R, e, i);
  }

  /** A group the matcher knows: its verdict is that of the alternatives inside. */
  lemma {:induction false} GroupFrag(code: bytes, s: bytes, R: Results, no: nat, y: Re, a: nat, e: nat, i: nat)
    requires Runs(code, s, R) && i <= |s| && Ok(Group(no, y)) && Laid(code, a, Group(no, y), e)
    requires no <= MATCHED_GROUPS
    requires Decided(s, R, e, i, Wide(y))
    ensures Agrees(R, Ends(Group(no, y), CAP, s, i), a, e, i)
    decreases y, 2, 0
  {
    assert Tree(Group(no, y));
    var c := a + 3 + SizeAlts(y);
    forall j | i <= j <= |s| && (Wide(y) ==> i < j)
      ensures R(c, j) == R(e, j) && !R(c, j).Unknown?
    {
      OpenCloseRuns(code, s, R, c, CLOSE + no, e, j);
    }
    assert Decided(s, R, c, i, Wide(y));
    AltsFrag(code, s, R, y, a + 3, c, c, i, Count(y));
    OpenCloseRuns(code, s, R, a, OPEN + no, a + 3, i);
    EndsDecided(s, R, y, c, i);
    PickSame(R, c, e, Ends(y, CAP, s, i));
  }

  /** The matcher has no case for a group beyond the ninth, so its node fails. */
  lemma HighGroupFrag(code: bytes, s: bytes, R: Results, no: nat, y: Re, a: nat, e: nat, i: nat)
    requires Runs(code, s, R) && i <= |s| && Ok(Group(no, y)) && Laid(code, a, Group(no, y), e)
    requires no > MATCHED_GROUPS
    ensures Agrees(R, Ends(Group(no, y), CAP, s, i), a, e, i)
  {
    assert Tree(Group(no, y));
    assert Place(a, i);
    assert Bt(code, s, a, i, 1) == No;
    ResFrom(code, s, a, i, 1);
  }

  /** The verdict at `a` is what some places give when it goes on at `e`, and else what `f` gives. */
  ghost predicate ChoiceAgrees(code: bytes, R: Results, ends: seq<nat>, a: int, f: int, e: int, i: int) {
    && R(a, i) == (if Pick(R, e, ends).No? then Else(code, R, f, i) else Pick(R, e, ends))
    && !R(a, i).Unknown?
  }

  lemma BranchAgrees(code: bytes, s: bytes, R: Results, ends: seq<nat>, a: nat, f: nat, e: nat, i: nat)
    requires Runs(code, s, R) && i <= |s| && NodeAt(code, a, BRANCH, f) && Agrees(R, ends, a + 3, e, i)
    requires !Else(code, R, f, i).Unknown?
    ensures ChoiceAgrees(code, R, ends, a, f, e, i)
  {
    BranchRuns(code, s, R, a, f, i);
  }

  /** A chain of alternatives at `a`: the branches of `x` in turn, each going on at `e`,
    and after the last of them whatever `f` offers. */
  lemma {:induction false} AltsFrag(code: bytes, s: bytes, R: Results, x: Re, a: nat, f: nat, e: nat, i: nat, m: nat)
    requires Runs(code, s, R) && i <= |s| && OkAlts(x) && m >= Count(x) && LaidAlts(code, a, x, f, e, m)
    requires Decided(s, R, e, i, Wide(x)) && !Else(code, R, f, i).Unknown?
    ensures IsNode(code, a) && code[a] == BRANCH
    ensures ChoiceAgrees(code, R, Ends(x, CAP, s, i), a, f, e, i)
    decreases x, 1, 0
  {
    if x.Alt? {
      AltFrag(code, s, R, x.x, x.y, a, a + SizeAlts(x.x), f, e, i, m);
    } else {
      Frag(code, s, R, x, a + 3, e, i);
      BranchAgrees(code, s, R, Ends(x, CAP, s, i), a, f, e, i);
    }
  }

  lemma {:induction false} AltFrag(code: bytes, s: bytes, R: Results, y: Re, z: Re, a: nat, b: nat, f: nat, e: nat,
                                   i: nat, m: nat)
    requires Runs(code, s, R) && i <= |s| && OkAlts(y) && Ok(z) && m >= Count(y)
    requires LaidAlts(code, a, y, b, e, m) && NodeAt(code, b, BRANCH, f) && Laid(code, b + 3, z, e)
    requires Decided(s, R, e, i, Wide(y) && Wide(z)) && !Else(code, R, f, i).Unknown?
    ensures IsNode(code, a) && code[a] == BRANCH
    ensures ChoiceAgrees(code, R, Ends(Alt(y, z), CAP, s, i), a, f, e, i)
    decreases Alt(y, z), 0, 0
  {
    assert Decided(s, R, e, i, Wide(z)) && Decided(s, R, e, i, Wide(y));
    Frag(code, s, R, z, b + 3, e, i);
    BranchAgrees(code, s, R, Ends(z, CAP, s, i), b, f, e, i);
    AltsFrag(code, s, R, y, a, b, e, i, m);
    PickConcat(R, e, Ends(y, CAP, s, i), Ends(z, CAP, s, i));
  }

  /** Compiled code means its tree: the machine run from `a` at `i` decides, and it goes on with
    the code after the fragment from the ends of the tree's members in their order of preference,
    up to the first one that leads to a match. */
  lemma {:induction false} Frag(code: bytes, s: bytes, R: Results, x: Re, a: nat, e: nat, i: nat)
    requires Runs(code, s, R) && i <= |s| && Ok(x) && Laid(code, a, x, e)
    requires Decided(s, R, e, i, Wide(x))
    ensures Agrees(R, Ends(x, CAP, s, i), a, e, i)
    decreases x, 0, 1
  {
    assert Tree(x);
    match x
    case Unit(op, w) => UnitFrag(code, s, R, x, a, e, i);
    case Rep(op, y) => RepFrag(code, s, R, op, y, a, e, i);
    case Loop0(y) => Loop0Frag(code, s, R, y, a, e, i);
    case Loop1(y) => Loop1Whole(code, s, R, y, a, e, i);
    case Opt(y) => OptFrag(code, s, R, y, a, e, i);
    case Group(no, y) =>
      if no <= MATCHED_GROUPS {
        GroupFrag(code, s, R, no, y, a, e, i);
      } else {
        HighGroupFrag(code, s, R, no, y, a, e, i);
      }
    case Empty => EmptyFrag(code, s, R, a, e, i);
    case Cat(y, z) => CatFrag(code, s, R, y, z, a, e, i);
  }

  lemma EmptyFrag(code: bytes, s: bytes, R: Results, a: nat, e: nat, i: nat)
    requires Runs(code, s, R) && i <= |s| && Laid(code, a, Empty, e)
    requires !R(e, i).Unknown?
    ensures Agrees(R, Ends(Empty, CAP, s, i), a, e, i)
  {
    assert Tree(Empty);
    PassRuns(code, s, R, a, NOTHING, e, i);
    PickOne(R, e, i);
  }

  lemma PickYes(R: Results, e: int, ends: seq<nat>)
    requires forall m :: m in ends ==> R(e, m) == Yes(m)
    ensures Pick(R, e, ends) == if ends == [] then No else Yes(ends[0])
  {
    if ends != [] {
      assert ends[0] in ends;
    }
  }

  /** The machine on a whole program: it decides at every position, and answers with the preferred
    end of a member there; it fails only where there is no member. */
  lemma ProgramMeans(code: bytes, s: bytes, a: nat, x: Re, i: nat)
    requires OkAlts(x) && IsProgram(code, a, x) && i <= |s|
    ensures Res(code, s, a, i) == Preferred(x, CAP, s, i)
  {
    var R: Results := (pc: int, k: int) => if 0 <= k <= |s| then Res(code, s, pc, k) else No;
    assert Runs(code, s, R);
    var e := a + SizeAlts(x);
    forall j | i <= j <= |s|
      ensures R(e, j) == Yes(j)
    {
      assert Bt(code, s, e, j, 1) == Yes(j);
      ResFrom(code, s, e, j, 1);
    }
    assert Decided(s, R, e, i, Wide(x));
    AltsFrag(code, s, R, x, a, e, e, i, Count(x));
    EndsDecided(s, R, x, e, i);
    PickYes(R, e, Ends(x, CAP, s, i));
    assert R(a, i) == Res(code, s, a, i);
  }
}
