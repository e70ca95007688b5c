/** Where the members of a pattern end, in the order in which the pattern prefers them. */
module RegxEnds {
  import opened Bytes
  import opened RegxCode
  import opened RegxSyntax

  predicate Within(ends: seq<nat>, i: nat, n: nat) {
    forall k :: 0 <= k < |ends| ==> i <= ends[k] <= n
  }

  /** The ends of members of `x` that start at `i`, the preferred ones first: those of an
    alternative before those of later ones; those with something optional before those without;
    and of a repeat those with one more round before those that stop, or the other way round
    when it is lazy. */
  function Ends(x: Re, cap: nat, s: bytes, i: nat): (r: seq<nat>)
    requires i <= |s|
    ensures Within(r, i, |s|)
    decreases x, 0
  {
    match x
    case Unit(op, w) => var j := UnitStep(op, w, s, i); if j == NULL then [] else [j]
    case Rep(op, y) =>
      if op == STAR || op == STARX then Rounds(y, op == STARX, cap, s, i)
      else ThenRounds(y, op == PLUSX, cap, s, i, Ends(y, cap, s, i))
    case Loop0(y) => Rounds(y, false, cap, s, i)
    case Loop1(y) => ThenRounds(y, false, cap, s, i, Ends(y, cap, s, i))
    case Opt(y) => Ends(y, cap, s, i) + [i]
    case Group(no, y) => if no <= cap then Ends(y, cap, s, i) else []
    case Empty => [i]
    case Cat(y, z) => ThenEnds(z, cap, s, i, Ends(y, cap, s, i))
    case Alt(y, z) => Ends(y, cap, s, i) + Ends(z, cap, s, i)
  }

  /** The ends of members that start at the places `at`, in the order of these. */
  function ThenEnds(x: Re, cap: nat, s: bytes, i: nat, at: seq<nat>): (r: seq<nat>)
    requires i <= |s| && Within(at, i, |s|)
    ensures Within(r, i, |s|)
    decreases x, 1, |at|
  {
    if at == [] then [] else Ends(x, cap, s, at[0]) + ThenEnds(x, cap, s, i, at[1..])
  }

  /** The same for any number of rounds. A round that takes nothing is not counted. */
  function Rounds(x: Re, lazy: bool, cap: nat, s: bytes, i: nat): (r: seq<nat>)
    requires i <= |s|
    ensures Within(r, i, |s|)
    decreases x, 2, |s| - i
  {
    var more := RoundsFrom(x, lazy, cap, s, i, Ends(x, cap, s, i));
    if lazy then [i] + more else more + [i]
  }

  /** More rounds after one that ended at the places `at`. */
  function RoundsFrom(x: Re, lazy: bool, cap: nat, s: bytes, i: nat, at: seq<nat>): (r: seq<nat>)
    requires i <= |s| && Within(at, i, |s|)
    ensures Within(r, i, |s|)
    decreases x, 2, |s| - i, |at|
  {
    if at == [] then []
    else (if at[0] > i then Rounds(x, lazy, cap, s, at[0]) else []) + RoundsFrom(x, lazy, cap, s, i, at[1..])
  }

  function ThenRounds(x: Re, lazy: bool, cap: nat, s: bytes, i: nat, at: seq<nat>): (r: seq<nat>)
    requires i <= |s| && Within(at, i, |s|)
    ensures Within(r, i, |s|)
    decreases x, 3, |at|
  {
    if at == [] then [] else Rounds(x, lazy, cap, s, at[0]) + ThenRounds(x, lazy, cap, s, i, at[1..])
  }

  // ---------------------------------------------------------------- they are the members' ends

  /** They are the ends of all members and of nothing else. */
  lemma {:induction false} EndsAre(x: Re, cap: nat, s: bytes, i: nat, m: nat)
    requires i <= m <= |s|
    ensures m in Ends(x, cap, s, i) <==> L(x, cap, s, i, m)
    decreases x, 0
  {
    match x
    case Unit(op, w) =>
    case Rep(op, y) =>
      if op == STAR || op == STARX {
        RoundsAre(y, op == STARX, cap, s, i, m);
      } else {
        PlusAre(y, op == PLUSX, cap, s, i, m);
      }
    case Loop0(y) => RoundsAre(y, false, cap, s, i, m);
    case Loop1(y) => PlusAre(y, false, cap, s, i, m);
    case Opt(y) => EndsAre(y, cap, s, i, m);
    case Group(no, y) => EndsAre(y, cap, s, i, m);
    case Empty =>
    case Cat(y, z) =>
      var at := Ends(y, cap, s, i);
      ThenEndsAre(z, cap, s, i, at, m);
      forall p: nat | i <= p <= m ensures p in at <==> L(y, cap, s, i, p) {
        EndsAre(y, cap, s, i, p);
      }
      if L(x, cap, s, i, m) {
        var p := CatSplit(y, z, cap, s, i, m);
        assert p in at;
      }
    case Alt(y, z) =>
      EndsAre(y, cap, s, i, m);
      EndsAre(z, cap, s, i, m);
  }

  lemma {:induction false} ThenEndsAre(x: Re, cap: nat, s: bytes, i: nat, at: seq<nat>, m: nat)
    requires i <= m <= |s| && Within(at, i, |s|)
    ensures m in ThenEnds(x, cap, s, i, at) <==> exists p :: p in at && p <= m && L(x, cap, s, p, m)
    decreases x, 1, |at|
  {
    if at != [] {
      ThenEndsAre(x, cap, s, i, at[1..], m);
      if at[0] <= m {
        EndsAre(x, cap, s, at[0], m);
      }
      assert forall p :: p in at <==> p == at[0] || p in at[1..];
    }
  }

  lemma {:induction false} RoundsAre(x: Re, lazy: bool, cap: nat, s: bytes, i: nat, m: nat)
    requires i <= m <= |s|
    ensures m in Rounds(x, lazy, cap, s, i) <==> LStar(x, cap, s, i, m)
    decreases x, 2, |s| - i
  {
    var at := Ends(x, cap, s, i);
    RoundsFromAre(x, lazy, cap, s, i, at, m);
    forall p: nat | i <= p <= m ensures p in at <==> L(x, cap, s, i, p) {
      EndsAre(x, cap, s, i, p);
    }
    if i < m && LStar(x, cap, s, i, m) {
      var p := StarSplit(x, cap, s, i, m);
      assert p in at;
    }
  }

  lemma {:induction false} RoundsFromAre(x: Re, lazy: bool, cap: nat, s: bytes, i: nat, at: seq<nat>, m: nat)
    requires i <= m <= |s| && Within(at, i, |s|)
    ensures m in RoundsFrom(x, lazy, cap, s, i, at) <==>
      exists p :: p in at && i < p <= m && LStar(x, cap, s, p, m)
    decreases x, 2, |s| - i, |at|
  {
    if at != [] {
      RoundsFromAre(x, lazy, cap, s, i, at[1..], m);
      if i < at[0] <= m {
        RoundsAre(x, lazy, cap, s, at[0], m);
      }
      assert forall p :: p in at <==> p == at[0] || p in at[1..];
    }
  }

  lemma {:induction false} ThenRoundsAre(x: Re, lazy: bool, cap: nat, s: bytes, i: nat, at: seq<nat>, m: nat)
    requires i <= m <= |s| && Within(at, i, |s|)
    ensures m in ThenRounds(x, lazy, cap, s, i, at) <==> exists p :: p in at && p <= m && LStar(x, cap, s, p, m)
    decreases x, 3, |at|
  {
    if at != [] {
      ThenRoundsAre(x, lazy, cap, s, i, at[1..], m);
      if at[0] <= m {
        RoundsAre(x, lazy, cap, s, at[0], m);
      }
      assert forall p :: p in at <==> p == at[0] || p in at[1..];
    }
  }

  lemma {:induction false} PlusAre(x: Re, lazy: bool, cap: nat, s: bytes, i: nat, m: nat)
    requires i <= m <= |s|
    ensures m in ThenRounds(x, lazy, cap, s, i, Ends(x, cap, s, i)) <==> LPlus(x, cap, s, i, m)
    decreases x, 4
  {
    var at := Ends(x, cap, s, i);
    ThenRoundsAre(x, lazy, cap, s, i, at, m);
    forall p: nat | i <= p <= m ensures p in at <==> L(x, cap, s, i, p) {
      EndsAre(x, cap, s, i, p);
    }
    if LPlus(x, cap, s, i, m) {
      var p := PlusSplit(x, cap, s, i, m);
      assert p in at;
    }
  }

  /** A tree with the width flag ends behind its start. */
  lemma WideEnds(x: Re, cap: nat, s: bytes, i: nat, m: nat)
    requires i <= |s| && OkAlts(x) && m in Ends(x, cap, s, i)
    ensures i <= m <= |s| && (Wide(x) ==> i < m)
  {
    EndsAre(x, cap, s, i, m);
    if Wide(x) {
      WideIsSound(x, cap, s, i, m);
    }
  }

  /** The end of a member that is preferred to all others; No if there is no member. */
  function Preferred(x: Re, cap: nat, s: bytes, i: nat): Verdict
    requires i <= |s|
  {
    if Ends(x, cap, s, i) == [] then No else Yes(Ends(x, cap, s, i)[0])
  }

  /** It is the end of a member, and there is one when there is any member. */
  lemma PreferredIsMember(x: Re, cap: nat, s: bytes, i: nat)
    requires i <= |s|
    ensures match Preferred(x, cap, s, i)
            case Unknown => false
            case Yes(k) => i <= k <= |s| && L(x, cap, s, i, k)
            case No => forall j :: i <= j <= |s| ==> !L(x, cap, s, i, j)
  {
    var ends := Ends(x, cap, s, i);
    if ends == [] {
      forall j | i <= j <= |s| ensures !L(x, cap, s, i, j) {
        EndsAre(x, cap, s, i, j);
      }
    } else {
      assert ends[0] in ends;
      EndsAre(x, cap, s, i, ends[0]);
    }
  }

  // ---------------------------------------------------------------- repeats of one character

  /** The places from `lo` to `hi`, the last one first unless `lazy`. */
  function InOrder(lazy: bool, lo: nat, hi: int): seq<nat>
    decreases hi + 1 - lo
  {
    if hi < lo then []
    else if lazy then [lo] + InOrder(lazy, lo + 1, hi)
    else InOrder(lazy, lo + 1, hi) + [lo]
  }

  lemma {:induction false} LastFirst(lo: nat, hi: nat)
    requires lo <= hi
    ensures InOrder(false, lo, hi) == [hi] + InOrder(false, lo, hi - 1)
    decreases hi - lo
  {
    if lo < hi {
      LastFirst(lo + 1, hi);
      assert [hi] + InOrder(false, lo + 1, hi - 1) + [lo] == [hi] + (InOrder(false, lo + 1, hi - 1) + [lo]);
    }
  }

  lemma SimpleEnds(x: Re, cap: nat, s: bytes, i: nat)
    requires i <= |s| && Simple(x)
    ensures Ends(x, cap, s, i) == if i < |s| && Takes(x.op, x.w, s[i]) then [i + 1] else []
  {
    if x.op == EXACTLY && i < |s| {
      assert s[i..i + 1] == [s[i]];
    }
  }

  /** One more round of one character, then the rest. */
  lemma OneRound(x: Re, lazy: bool, cap: nat, s: bytes, i: nat, hi: nat)
    requires i < |s| && i < hi && Ends(x, cap, s, i) == [i + 1]
    requires Rounds(x, lazy, cap, s, i + 1) == InOrder(lazy, i + 1, hi)
    ensures Rounds(x, lazy, cap, s, i) == InOrder(lazy, i, hi)
  {
    var at, more := [i + 1], Rounds(x, lazy, cap, s, i + 1);
    assert at[1..] == [] && more + [] == more;
    assert RoundsFrom(x, lazy, cap, s, i, at) == more;
  }

  lemma NoRound(x: Re, lazy: bool, cap: nat, s: bytes, i: nat)
    requires i <= |s| && Ends(x, cap, s, i) == []
    ensures Rounds(x, lazy, cap, s, i) == InOrder(lazy, i, i)
  {
    assert RoundsFrom(x, lazy, cap, s, i, []) == [];
    assert InOrder(lazy, i, i) == [i];
  }

  lemma OnlyRounds(x: Re, lazy: bool, cap: nat, s: bytes, i: nat, at: seq<nat>)
    requires i <= |s| && Within(at, i, |s|)
    ensures at == [] ==> ThenRounds(x, lazy, cap, s, i, at) == []
    ensures |at| == 1 ==> ThenRounds(x, lazy, cap, s, i, at) == Rounds(x, lazy, cap, s, at[0])
  {
    if |at| == 1 {
      assert at[1..] == [];
      assert Rounds(x, lazy, cap, s, at[0]) + [] == Rounds(x, lazy, cap, s, at[0]);
    }
  }

  /** A simple node takes a character where it can be repeated at all. */
  lemma FirstRepeat(x: Re, cap: nat, s: bytes, i: nat, hi: nat)
    requires i <= |s| && Simple(x) && hi == i + Repeats(x.op, x.w, s, i)
    ensures hi == i ==> Ends(x, cap, s, i) == []
    ensures hi > i ==> i < |s| && Ends(x, cap, s, i) == [i + 1] && hi == i + 1 + Repeats(x.op, x.w, s, i + 1)
  {
    SimpleEnds(x, cap, s, i);
  }

  lemma {:induction false} SimpleRounds(x: Re, lazy: bool, cap: nat, s: bytes, i: nat, hi: nat)
    requires i <= |s| && Simple(x) && hi == i + Repeats(x.op, x.w, s, i)
    ensures Rounds(x, lazy, cap, s, i) == InOrder(lazy, i, hi)
    decreases |s| - i
  {
    FirstRepeat(x, cap, s, i, hi);
    if i < hi {
      SimpleRounds(x, lazy, cap, s, i + 1, hi);
      OneRound(x, lazy, cap, s, i, hi);
    } else {
      NoRound(x, lazy, cap, s, i);
    }
  }

  lemma SimplePlus(x: Re, lazy: bool, cap: nat, s: bytes, i: nat, hi: nat)
    requires i <= |s| && Simple(x) && hi == i + Repeats(x.op, x.w, s, i)
    ensures ThenRounds(x, lazy, cap, s, i, Ends(x, cap, s, i)) == InOrder(lazy, i + 1, hi)
  {
    FirstRepeat(x, cap, s, i, hi);
    OnlyRounds(x, lazy, cap, s, i, Ends(x, cap, s, i));
    if i < hi {
      SimpleRounds(x, lazy, cap, s, i + 1, hi);
    } else {
      assert InOrder(lazy, i + 1, hi) == [];
    }
  }

  /** A greedy repeat of one character prefers as many as there are, a lazy one as few as it may
    take, and no end is missing in between. */
  lemma RepEnds(op: byte, x: Re, cap: nat, s: bytes, i: nat)
    requires i <= |s| && Ok(Rep(op, x))
    ensures var lo, hi := if op == STAR || op == STARX then i else i + 1, i + Repeats(x.op, x.w, s, i);
      Ends(Rep(op, x), cap, s, i) == InOrder(op == STARX || op == PLUSX, lo, hi)
  {
    var lazy, hi := op == STARX || op == PLUSX, i + Repeats(x.op, x.w, s, i);
    if op == STAR || op == STARX {
      SimpleRounds(x, lazy, cap, s, i, hi);
    } else {
      SimplePlus(x, lazy, cap, s, i, hi);
    }
  }
}
