/** The node program that the pattern compiler emits, and the plain backtracking
  machine that gives it a meaning. No shortcut of the matcher appears here. */
module RegxCode {
  import opened Bytes

  const END: byte := 0
  const BOL: byte := 1
  const EOL: byte := 2
  const ANY: byte := 3
  const ANYOF: byte := 4
  const ANYBUT: byte := 5
  const BRANCH: byte := 6
  const BACK: byte := 7
  const EXACTLY: byte := 8
  const NOTHING: byte := 9
  const STAR: byte := 10
  const PLUS: byte := 11
  const WORDA: byte := 12
  const WORDZ: byte := 13
  const STARX: byte := 14
  const PLUSX: byte := 15
  const MAX_SUBX := 35
  const OPEN: byte := 20
  const CLOSE: byte := 56
  const MAGIC: byte := 92

  /** The highest group number the matcher has a case for. */
  const MATCHED_GROUPS := 9

  const NULL := -1

  /** The 16-bit next offset of the node at `p`, high byte first. */
  function Offset(code: bytes, p: int): nat
    requires 0 <= p && p + 2 < |code|
  {
    (code[p + 1] as int) * 256 + code[p + 2] as int
  }

  /** Address of the next node, or NULL. Offsets count backward only from a BACK node. */
  function Next(code: bytes, p: int): int
    requires 0 <= p && p + 2 < |code|
  {
    if Offset(code, p) == 0 then NULL
    else if code[p] == BACK then p - Offset(code, p)
    else p + Offset(code, p)
  }

  predicate IsNode(code: bytes, p: int) {
    0 <= p && p + 2 < |code|
  }

  /** The NUL-terminated operand string at `p`. */
  function Operand(code: bytes, p: nat): (w: bytes)
    ensures NulFree(w)
    decreases |code| - p
  {
    if p >= |code| || code[p] == 0 then [] else [code[p]] + Operand(code, p + 1)
  }

  predicate IsWordChar(c: byte) {
    IsAlnum(c) || c == 95
  }

  predicate IsUnit(op: byte) {
    op == BOL || op == EOL || op == WORDA || op == WORDZ || op == ANY || op == EXACTLY
    || op == ANYOF || op == ANYBUT || op == NOTHING || op == BACK
  }

  /** Does the text at `i` start with `w`? */
  predicate StartsAt(s: bytes, i: nat, w: bytes) {
    i + |w| <= |s| && s[i..i + |w|] == w
  }

  /** One node without choice: the position after it, or NULL if it does not match at `i`. */
  function UnitStep(op: byte, w: bytes, s: bytes, i: nat): (r: int)
    requires i <= |s|
    ensures r == NULL || i <= r <= |s|
  {
    if op == BOL then if i == 0 then i else NULL
    else if op == EOL then if i == |s| then i else NULL
    else if op == WORDA then
      if IsWordChar(At(s, i)) && (i == 0 || !IsWordChar(s[i - 1])) then i else NULL
    else if op == WORDZ then if IsWordChar(At(s, i)) then NULL else i
    else if op == ANY then if i < |s| then i + 1 else NULL
    else if op == ANYOF then if i < |s| && s[i] in w then i + 1 else NULL
    else if op == ANYBUT then if i < |s| && s[i] !in w then i + 1 else NULL
    else if op == EXACTLY then
      if At(w, 0) == At(s, i) && StartsAt(s, i, w) then i + |w| else NULL
    else i
  }

  /** Can a simple node take the one character `c`? The repeat loop looks only at the
    first character of a literal. */
  predicate Takes(op: byte, w: bytes, c: byte) {
    op == ANY || (op == ANYOF && c in w) || (op == ANYBUT && c !in w)
    || (op == EXACTLY && w != [] && c == w[0])
  }

  /** How many characters from `i` on a simple node can take one after the other. */
  function Repeats(op: byte, w: bytes, s: bytes, i: nat): (n: nat)
    requires i <= |s|
    ensures i + n <= |s|
    ensures forall k :: i <= k < i + n ==> Takes(op, w, s[k])
    ensures i + n < |s| ==> !Takes(op, w, s[i + n])
    decreases |s| - i
  {
    if i < |s| && Takes(op, w, s[i]) then 1 + Repeats(op, w, s, i + 1) else 0
  }

  /** Outcome of running the program: undecided within the fuel, no match, or a match ending at `end`. */
  datatype Verdict = Unknown | No | Yes(end: nat)

  predicate IsOpenClose(op: byte) {
    OPEN < op <= OPEN + MATCHED_GROUPS || CLOSE < op <= CLOSE + MATCHED_GROUPS
  }

  /** Plain backtracking from node `pc` at text position `i`, choices in program order,
    with at most `n` nodes on any path. */
  function Bt(code: bytes, s: bytes, pc: int, i: nat, n: nat): Verdict
    requires i <= |s|
    decreases n, 0, 0
  {
    if n == 0 then Unknown
    else if pc == NULL then No
    else if !IsNode(code, pc) then Unknown
    else
      var op := code[pc];
      var next := Next(code, pc);
      if op == END then Yes(i)
      else if IsUnit(op) then
        var j := UnitStep(op, Operand(code, pc + 3), s, i);
        if j == NULL then No else Bt(code, s, next, j, n - 1)
      else if IsOpenClose(op) then Bt(code, s, next, i, n - 1)
      else if op == BRANCH then
        var first := Bt(code, s, pc + 3, i, n - 1);
        if first.No? && IsNode(code, next) && code[next] == BRANCH then Bt(code, s, next, i, n - 1)
        else first
      else if op == STAR || op == PLUS || op == STARX || op == PLUSX then
        if !IsNode(code, pc + 3) then Unknown
        else
          var most := Repeats(code[pc + 3], Operand(code, pc + 6), s, i);
          var least := if op == STAR || op == STARX then 0 else 1;
          if op == STAR || op == PLUS then BtDown(code, s, next, i, least, most, n - 1)
          else BtUp(code, s, next, i, least, most, n - 1)
      else No
  }

  /** Try the rest of the program after `no`, `no - 1`, ..., `least` repeats. */
  function BtDown(code: bytes, s: bytes, pc: int, i: nat, least: nat, no: int, n: nat): Verdict
    requires i <= |s| && i + no <= |s|
    decreases n, 1, no - least
  {
    if no < least then No
    else
      var r := Bt(code, s, pc, i + no, n);
      if r.No? then BtDown(code, s, pc, i, least, no - 1, n) else r
  }

  /** Try the rest of the program after `no`, `no + 1`, ..., `most` repeats. */
  function BtUp(code: bytes, s: bytes, pc: int, i: nat, no: nat, most: nat, n: nat): Verdict
    requires i <= |s| && i + most <= |s|
    decreases n, 1, most - no
  {
    if no > most then No
    else
      var r := Bt(code, s, pc, i + no, n);
      if r.No? then BtUp(code, s, pc, i, no + 1, most, n) else r
  }

  /** More fuel never changes a verdict. */
  lemma {:induction false} BtMonotone(code: bytes, s: bytes, pc: int, i: nat, n: nat, m: nat)
    requires i <= |s| && n <= m
    requires !Bt(code, s, pc, i, n).Unknown?
    ensures Bt(code, s, pc, i, m) == Bt(code, s, pc, i, n)
    decreases n, 0, 0
  {
    if pc != NULL {
      var op := code[pc];
      var next := Next(code, pc);
      if op == END {
      } else if IsUnit(op) {
        var j := UnitStep(op, Operand(code, pc + 3), s, i);
        if j != NULL { BtMonotone(code, s, next, j, n - 1, m - 1); }
      } else if IsOpenClose(op) {
        BtMonotone(code, s, next, i, n - 1, m - 1);
      } else if op == BRANCH {
        BtMonotone(code, s, pc + 3, i, n - 1, m - 1);
        if Bt(code, s, pc + 3, i, n - 1).No? && IsNode(code, next) && code[next] == BRANCH {
          BtMonotone(code, s, next, i, n - 1, m - 1);
        }
      } else if op == STAR || op == PLUS || op == STARX || op == PLUSX {
        var most := Repeats(code[pc + 3], Operand(code, pc + 6), s, i);
        var least := if op == STAR || op == STARX then 0 else 1;
        if op == STAR || op == PLUS {
          BtDownMonotone(code, s, next, i, least, most, n - 1, m - 1);
        } else {
          BtUpMonotone(code, s, next, i, least, most, n - 1, m - 1);
        }
      }
    }
  }

  lemma {:induction false} BtDownMonotone(code: bytes, s: bytes, pc: int, i: nat, least: nat, no: int, n: nat, m: nat)
    requires i <= |s| && i + no <= |s| && n <= m
    requires !BtDown(code, s, pc, i, least, no, n).Unknown?
    ensures BtDown(code, s, pc, i, least, no, m) == BtDown(code, s, pc, i, least, no, n)
    decreases n, 1, no - least
  {
    if no >= least {
      BtMonotone(code, s, pc, i + no, n, m);
      if Bt(code, s, pc, i + no, n).No? { BtDownMonotone(code, s, pc, i, least, no - 1, n, m); }
    }
  }

  lemma {:induction false} BtUpMonotone(code: bytes, s: bytes, pc: int, i: nat, no: nat, most: nat, n: nat, m: nat)
    requires i <= |s| && i + most <= |s| && n <= m
    requires !BtUp(code, s, pc, i, no, most, n).Unknown?
    ensures BtUp(code, s, pc, i, no, most, m) == BtUp(code, s, pc, i, no, most, n)
    decreases n, 1, most - no
  {
    if no <= most {
      BtMonotone(code, s, pc, i + no, n, m);
      if Bt(code, s, pc, i + no, n).No? { BtUpMonotone(code, s, pc, i, no + 1, most, n, m); }
    }
  }

  /** The verdict with enough fuel; Unknown only if no amount of fuel decides. */
  ghost function Res(code: bytes, s: bytes, pc: int, i: nat): (r: Verdict)
    requires i <= |s|
  {
    if exists n: nat :: !Bt(code, s, pc, i, n).Unknown? then
      var n: nat :| !Bt(code, s, pc, i, n).Unknown?;
      Bt(code, s, pc, i, n)
    else Unknown
  }

  lemma ResFrom(code: bytes, s: bytes, pc: int, i: nat, n: nat)
    requires i <= |s|
    requires !Bt(code, s, pc, i, n).Unknown?
    ensures Res(code, s, pc, i) == Bt(code, s, pc, i, n)
  {
    var m: nat :| !Bt(code, s, pc, i, m).Unknown? && Res(code, s, pc, i) == Bt(code, s, pc, i, m);
    if m <= n { BtMonotone(code, s, pc, i, m, n); } else { BtMonotone(code, s, pc, i, n, m); }
  }

  /** A fuel that decides. */
  lemma Fuel(code: bytes, s: bytes, pc: int, i: nat) returns (n: nat)
    requires i <= |s|
    requires !Res(code, s, pc, i).Unknown?
    ensures Bt(code, s, pc, i, n) == Res(code, s, pc, i)
  {
    n :| !Bt(code, s, pc, i, n).Unknown?;
    ResFrom(code, s, pc, i, n);
  }

  lemma ResUnit(code: bytes, s: bytes, pc: nat, i: nat)
    requires i <= |s| && IsNode(code, pc) && IsUnit(code[pc])
    requires var j := UnitStep(code[pc], Operand(code, pc + 3), s, i);
             j != NULL ==> !Res(code, s, Next(code, pc), j).Unknown?
    ensures var j := UnitStep(code[pc], Operand(code, pc + 3), s, i);
            Res(code, s, pc, i) == if j == NULL then No else Res(code, s, Next(code, pc), j)
  {
    var j := UnitStep(code[pc], Operand(code, pc + 3), s, i);
    if j == NULL {
      ResFrom(code, s, pc, i, 1);
    } else {
      var n := Fuel(code, s, Next(code, pc), j);
      assert Bt(code, s, pc, i, n + 1) == Bt(code, s, Next(code, pc), j, n);
      ResFrom(code, s, pc, i, n + 1);
    }
  }

  lemma ResOpenClose(code: bytes, s: bytes, pc: nat, i: nat)
    requires i <= |s| && IsNode(code, pc) && IsOpenClose(code[pc])
    requires !Res(code, s, Next(code, pc), i).Unknown?
    ensures Res(code, s, pc, i) == Res(code, s, Next(code, pc), i)
  {
    var n := Fuel(code, s, Next(code, pc), i);
    assert Bt(code, s, pc, i, n + 1) == Bt(code, s, Next(code, pc), i, n);
    ResFrom(code, s, pc, i, n + 1);
  }

  /** What a chain of alternatives does when everything before `f` failed. */
  ghost function Otherwise(code: bytes, s: bytes, f: int, i: nat): Verdict
    requires i <= |s|
  {
    if IsNode(code, f) && code[f] == BRANCH then Res(code, s, f, i) else No
  }

  lemma ResBranch(code: bytes, s: bytes, pc: nat, i: nat)
    requires i <= |s| && IsNode(code, pc) && code[pc] == BRANCH
    requires !Res(code, s, pc + 3, i).Unknown? && !Otherwise(code, s, Next(code, pc), i).Unknown?
    ensures Res(code, s, pc, i) ==
            if Res(code, s, pc + 3, i).No? then Otherwise(code, s, Next(code, pc), i) else Res(code, s, pc + 3, i)
  {
    var next := Next(code, pc);
    var n := Fuel(code, s, pc + 3, i);
    if Res(code, s, pc + 3, i).No? && IsNode(code, next) && code[next] == BRANCH {
      var m := Fuel(code, s, next, i);
      var b := n + m;
      BtMonotone(code, s, pc + 3, i, n, b);
      BtMonotone(code, s, next, i, m, b);
      ResFrom(code, s, pc, i, b + 1);
    } else {
      ResFrom(code, s, pc, i, n + 1);
    }
  }
}
