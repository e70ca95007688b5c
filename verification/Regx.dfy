/** The pattern compiler and matcher object. */
module Regx {
  import opened Bytes
  import opened RegxCode
  import opened RegxSyntax
  import opened RegxLayout
  import opened RegxPatch
  import opened RegxEmit
  import opened RegxChain
  import opened RegxGrammar
  import opened RegxShortcuts
  import opened RegxEnds
  import opened RegxMeaning

  class RegX {
    /** The program; `|code|` is where the next byte goes. */
    var code: bytes
    var subxCount: nat

    /** Shortcuts for matching: the character a match must begin with or NUL, whether it can only
      begin at the start, and where in the program a string stands that it must contain, or NULL. */
    var start: byte
    var anchor: bool
    var must: int
    var mustLen: nat

    /** The text being matched, and the position reached in it. */
    var input: bytes
    var inputPtr: int

    /** The position after the last match. */
    var endp: int

    /** The pattern tree that the program was compiled from. */
    ghost var tree: Re

    constructor ()
      ensures code == []
    {
      code, subxCount := [], 0;
      start, anchor, must, mustLen := 0, false, NULL, 0;
      input, inputPtr, endp := [], 0, 0;
      tree := Empty;
    }

    /** The object holds a compiled program and shortcuts that fit it. */
    ghost predicate Valid()
      reads this
    {
      && |code| == 4 + SizeAlts(tree) && |code| < LIMIT && code[0] == MAGIC
      && OkAlts(tree) && IsProgram(code, 1, tree)
      && (start != 0 ==> Ok(tree) && FirstLiteral(tree) != [] && start == FirstLiteral(tree)[0])
      && (anchor ==> Ok(tree) && StartsWithBol(tree))
      && (must != NULL ==> 0 <= must && mustLen == |Operand(code, must)| && mustLen > 0)
      && (must != NULL ==> 0 <= must && Operand(code, must) in Literals(tree))
    }

    /** Compile a pattern; on success the object holds its program. */
    method Compile(exp: bytes) returns (ok: bool)
      requires NulFree(exp) && !Compiled(exp).TooBig?
      modifies this
      ensures ok == Compiled(exp).Done?
      ensures ok ==> Valid() && tree == Compiled(exp).x
      ensures ok ==> start == if tree.Alt? || FirstLiteral(tree) == [] then 0 else FirstLiteral(tree)[0]
      ensures ok ==> anchor == (!tree.Alt? && StartsWithBol(tree))
      ensures ok ==> var lits := if tree.Alt? || !SpStart(tree) then [] else Literals(tree);
                     if lits == [] then must == NULL else must != NULL && Operand(code, must) == Longest([], lits)
    {
      code, subxCount := [], 1;
      ParseC(MAGIC);
      ghost var c0 := code;
      var ret, parse, width, spstart := Parse(exp, 0, false);
      if ret == NULL { return false; }
      tree := Compiled(exp).x;
      assert code[0] == MAGIC by { assert Byte(0); }
      start, anchor, must, mustLen := 0, false, NULL, 0;
      FindShortcuts(spstart);
      if must != NULL { LiteralsAreNotEmpty(tree); }
      ok := true;
    }

    /** Look for what makes matching faster, if there is only one alternative. */
    method FindShortcuts(spstart: bool)
      requires OkAlts(tree) && IsProgram(code, 1, tree) && spstart == SpStart(tree) && |code| == 4 + SizeAlts(tree)
      requires start == 0 && !anchor && must == NULL
      modifies this`start, this`anchor, this`must, this`mustLen
      ensures start == if tree.Alt? || FirstLiteral(tree) == [] then 0 else FirstLiteral(tree)[0]
      ensures anchor == (!tree.Alt? && StartsWithBol(tree))
      ensures var lits := if tree.Alt? || !SpStart(tree) then [] else Literals(tree);
              if lits == [] then must == NULL
              else 0 <= must && Operand(code, must) == Longest([], lits) && mustLen == |Operand(code, must)|
    {
      ghost var e := 1 + SizeAlts(tree);
      ProgramStart(code, tree);
      var scan: int := ParseNext(1);
      if code[scan] == END {
        FindStart(e);
        if spstart {
          FragPassed(code, 4, tree, e);
          FindMust(e);
        }
      }
    }

    /** The first character, or that a match can only start where the text does. */
    method FindStart(ghost e: int)
      requires Ok(tree) && Laid(code, 4, tree, e) && start == 0 && !anchor
      modifies this`start, this`anchor
      ensures start == if FirstLiteral(tree) == [] then 0 else FirstLiteral(tree)[0]
      ensures anchor == StartsWithBol(tree)
    {
      var scan := 4;
      FirstNode(code, 4, tree, e);
      if code[scan] == EXACTLY {
        start := code[7];
      } else if code[scan] == BOL {
        anchor := true;
      }
    }

    /** Find the longest literal on the main chain of a program without alternatives. */
    method FindMust(ghost e: int)
      requires Passed(code, 4) == Literals(tree) && Walk(code, 4, e)
      modifies this`must, this`mustLen
      ensures if Literals(tree) == [] then must == NULL
              else 0 <= must && mustLen == |Operand(code, must)| && Operand(code, must) == Longest([], Literals(tree))
    {
      var longest, len := NULL, 0;
      ghost var lits := Literals(tree);
      ghost var best: bytes, rest := [], lits;
      var scan: int := 4;
      while scan != NULL
        invariant ToScan(scan, e, rest) && Longest(best, rest) == Longest([], lits)
        invariant LongestAt(longest, len, best) && if longest == NULL then rest == lits else lits != []
        decreases if scan == NULL then 0 else 1 + |code| - scan
      {
        PassedStep(code, scan, e);
        if code[scan] == EXACTLY {
          longest, len, best, rest := KeepLonger(scan, longest, len, best, rest);
        }
        scan := ParseNext(scan);
      }
      must, mustLen := longest, len;
    }

    /** The literals from `scan` on are those not looked at yet. */
    ghost predicate ToScan(scan: int, e: int, rest: seq<bytes>)
      reads this
    {
      if scan == NULL then rest == [] else 0 <= scan < |code| && Walk(code, scan, e) && Passed(code, scan) == rest
    }

    /** The longest literal so far. */
    ghost predicate LongestAt(longest: int, len: nat, best: bytes)
      reads this
    {
      if longest == NULL then best == [] && len == 0
      else 0 <= longest && Operand(code, longest) == best && len == |best|
    }

    /** Keep the literal at `scan` when it is at least as long as the longest one before. */
    method KeepLonger(scan: nat, longest: int, len: nat, ghost best: bytes, ghost rest: seq<bytes>)
      returns (longest': int, len': nat, ghost best': bytes, ghost rest': seq<bytes>)
      requires scan + 3 <= |code| && rest != [] && rest[0] == Operand(code, scan + 3)
      requires LongestAt(longest, len, best)
      ensures Longest(best', rest') == Longest(best, rest) && rest' == rest[1..]
      ensures longest' != NULL && LongestAt(longest', len', best')
    {
      var lit := Operand(code, scan + 3);
      longest', len' := longest, len;
      if |lit| >= len { longest', len' := scan + 3, |lit|; }
      LongestStep(best, lit, rest);
      best', rest' := if |lit| >= |best| then lit else best, rest[1..];
    }

    method ParseC(b: byte)
      modifies this`code
      ensures code == old(code) + [b]
    {
      code := code + [b];
    }

    method ParseNode(op: byte) returns (ret: nat)
      modifies this`code
      ensures ret == |old(code)| && code == old(code) + [op, 0, 0]
      ensures NodeAt(code, ret, op, NULL)
    {
      ret := |code|;
      code := code + [op, 0, 0];
    }

    /** Insert an operator in front of already emitted code, shifting that code up. */
    method ParseInsert(op: byte, opnd: nat)
      requires opnd <= |code|
      modifies this`code
      ensures Inserted(old(code), code, opnd, op)
    {
      ghost var was := code;
      var src := |code|;
      code := code + [0, 0, 0];
      var dst := |code|;
      while src > opnd
        invariant opnd <= src && dst == src + 3 && Shifting(was, code, src)
      {
        dst, src := dst - 1, src - 1;
        code := code[dst := code[src]];
      }
      ShiftingEnds(was, code, opnd, op);
      code := code[opnd := op][opnd + 1 := 0][opnd + 2 := 0];
    }

    method ParseNext(p: nat) returns (next: int)
      requires IsNode(code, p)
      ensures next == Next(code, p)
    {
      var offset := (code[p + 1] as int) * 256 + code[p + 2] as int;
      if offset == 0 { return NULL; }
      if code[p] == BACK { next := p - offset; } else { next := p + offset; }
    }

    /** Link the end of the node chain that starts at `p` to `val`: the two offset bytes of its last
      node are written, and lead there if the offset fits them. */
    method ParseTail(p: nat, val: nat, ghost q: int)
      requires IsNode(code, q) && Walk(code, p, q)
      requires if code[q] == BACK then val < q else q < val
      modifies this`code
      ensures var offset := Distance(old(code), q, val);
              if offset < LIMIT then Relinked(old(code), code, q, val) else code == WithOffset(old(code), q, offset)
    {
      var scan := p;
      while true
        invariant code == old(code) && Walk(code, scan, q)
        decreases |code| - scan
      {
        var temp := ParseNext(scan);
        if temp == NULL { break; }
        scan := temp;
      }
      var offset := Distance(code, scan, val);
      OffsetKept(code, scan, offset);
      code := WithOffset(code, scan, offset);
    }

    /** The same for the operand of a BRANCH node; other nodes have none. */
    method ParseOpTail(p: nat, val: nat, ghost q: int)
      requires IsNode(code, p)
      requires code[p] == BRANCH ==> IsNode(code, q) && Walk(code, p + 3, q) && |code| <= LIMIT
      requires code[p] == BRANCH ==> val < |code| && if code[q] == BACK then val < q else q < val
      modifies this`code
      ensures if old(code)[p] == BRANCH then Relinked(old(code), code, q, val) else code == old(code)
    {
      if code[p] != BRANCH { return; }
      ParseTail(p + 3, val, q);
    }

    /** `x*` for an operand that is not one simple node: a BRANCH in front, and the loop back. */
    method OpenLoop0(ret: nat, ghost y: Re)
      requires Ok(y) && Laid(code, ret, y, NULL) && |code| == ret + Size(y) && |code| + 6 < LIMIT
      modifies this`code
      ensures SameBytes(old(code), code, 0, ret, 0) && |code| == old(|code|) + 6
      ensures var k := ret + 3 + Size(y);
              Fresh(code, ret, BRANCH) && Laid(code, ret + 3, y, k) && NodeAt(code, k, BACK, ret)
    {
      var k := Enclose(BACK, ret, y);
      ghost var c2, q := code, ret + 3 + Tail(y);
      OpenEnd(c2, ret + 3, y);
      ParseOpTail(ret, k, q);
      ghost var c3 := code;
      OperandLinked(c2, c3, ret, y, q, k);
      AroundOperand(c2, c3, ret, y, q, k, k, BACK);
      FragToFresh(c3, ret + 3, y, k, BACK);
      Outside(c2, c3, q, k, 0, ret);
      LinkBack(ret, k, y);
    }

    /** A BRANCH in front of the operand and a node behind it. */
    method Enclose(op: byte, ret: nat, ghost y: Re) returns (k: nat)
      requires Ok(y) && Laid(code, ret, y, NULL) && |code| == ret + Size(y)
      modifies this`code
      ensures SameBytes(old(code), code, 0, ret, 0) && |code| == k + 3 && k == ret + 3 + Size(y)
      ensures Fresh(code, ret, BRANCH) && Laid(code, ret + 3, y, NULL) && Fresh(code, k, op)
    {
      ghost var c0 := code;
      ParseInsert(BRANCH, ret);
      ghost var c1 := code;
      OperandMoved(c0, c1, ret, BRANCH, y);
      k := ParseNode(op);
      NodeBehind(c1, code, ret, y, op);
      assert SameBytes(c1, code, 0, ret, 0);
    }

    /** Link the BACK node behind the operand to the BRANCH in front of it. */
    method LinkBack(ret: nat, k: nat, ghost y: Re)
      requires Ok(y) && k == ret + 3 + Size(y) && |code| == k + 3 && |code| < LIMIT
      requires Fresh(code, ret, BRANCH) && Laid(code, ret + 3, y, k) && Fresh(code, k, BACK) && Walk(code, ret + 3, k)
      modifies this`code
      ensures SameBytes(old(code), code, 0, ret, 0) && |code| == old(|code|)
      ensures Fresh(code, ret, BRANCH) && Laid(code, ret + 3, y, k) && NodeAt(code, k, BACK, ret)
    {
      ghost var c3 := code;
      ParseOpTail(ret, ret, k);
      BackLinked(c3, code, ret, y, k);
      Outside(c3, code, k, ret, 0, ret);
    }

    method EmitLoop0(ret: nat, ghost y: Re)
      requires Ok(y) && Laid(code, ret, y, NULL) && |code| == ret + Size(y) && |code| + 12 < LIMIT
      modifies this`code
      ensures SameBytes(old(code), code, 0, ret, 0) && |code| == old(|code|) + 12 && Laid(code, ret, Loop0(y), NULL)
    {
      OpenLoop0(ret, y);
      CloseLoop0(ret, ret + 3 + Size(y), y);
    }

    method CloseLoop0(ret: nat, ghost k: nat, ghost y: Re)
      requires Ok(y) && k == ret + 3 + Size(y) && |code| == k + 3 && |code| + 6 < LIMIT
      requires Fresh(code, ret, BRANCH) && LoopBody(code, ret + 3, y, k, ret)
      modifies this`code
      ensures SameBytes(old(code), code, 0, ret, 0) && |code| == old(|code|) + 6 && Laid(code, ret, Loop0(y), NULL)
    {
      ghost var c4 := code;
      var b := ParseNode(BRANCH);
      ghost var c5 := code;
      FreshAppend(c4, c5, [BRANCH, 0, 0], ret, BRANCH);
      LoopBodyAppend(c4, c5, [BRANCH, 0, 0], ret + 3, y, k, ret);
      ParseTail(ret, b, ret);
      ghost var c6 := code;
      FreshLinked(c5, c6, ret, BRANCH, b);
      FreshKept(c5, c6, ret, b, b, BRANCH);
      LoopBodyBeside(c5, c6, ret, b, ret + 3, y, k, ret);
      var n := ParseNode(NOTHING);
      ghost var c7 := code;
      NodeAppend(c6, c7, [NOTHING, 0, 0], ret, BRANCH, b);
      FreshAppend(c6, c7, [NOTHING, 0, 0], b, BRANCH);
      LoopBodyAppend(c6, c7, [NOTHING, 0, 0], ret + 3, y, k, ret);
      Hop(c7, ret, BRANCH, b, b);
      ParseTail(ret, n, b);
      FreshLinked(c7, code, b, BRANCH, n);
      FreshKept(c7, code, b, n, n, NOTHING);
      NodeKept(c7, code, b, n, ret, BRANCH, b);
      LoopBodyBeside(c7, code, b, n, ret + 3, y, k, ret);
      Loop0Done(code, ret, y, k);
      Outside(c5, c6, ret, b, 0, ret);
      Outside(c7, code, b, n, 0, ret);
    }

    /** `x+` for an operand that is not one simple node: the loop follows the operand. */
    method EmitLoop1(ret: nat, ghost y: Re)
      requires Ok(y) && Laid(code, ret, y, NULL) && |code| == ret + Size(y) && |code| + 12 < LIMIT
      modifies this`code
      ensures SameBytes(old(code), code, 0, ret, 0) && |code| == old(|code|) + 12 && Laid(code, ret, Loop1(y), NULL)
    {
      ghost var c0, q := code, ret + Tail(y);
      var next := ParseNode(BRANCH);
      ghost var c1 := code;
      FragAppend(c0, c1, [BRANCH, 0, 0], ret, y, NULL);
      OpenEnd(c1, ret, y);
      ParseTail(ret, next, q);
      ghost var c2 := code;
      Patched(c1, c2, ret, y, next);
      FreshKept(c1, c2, q, next, next, BRANCH);
      Outside(c1, c2, q, next, 0, ret);
      var back := ParseNode(BACK);
      ghost var c3 := code;
      FragAppend(c2, c3, [BACK, 0, 0], ret, y, next);
      FreshAppend(c2, c3, [BACK, 0, 0], next, BRANCH);
      ParseTail(back, ret, back);
      ghost var c4 := code;
      Beside(c3, c4, back, ret, ret, y, next);
      FreshKept(c3, c4, back, ret, next, BRANCH);
      FreshLinked(c3, c4, back, BACK, ret);
      Outside(c3, c4, back, ret, 0, ret);
      CloseLoop1(ret, next, y);
    }

    /** The choice after the first round: once more, or the empty alternative. */
    method CloseLoop1(ret: nat, next: nat, ghost y: Re)
      requires Ok(y) && next == ret + Size(y) && |code| == next + 6 && |code| + 6 < LIMIT
      requires Laid(code, ret, y, next) && Fresh(code, next, BRANCH) && NodeAt(code, next + 3, BACK, ret)
      modifies this`code
      ensures SameBytes(old(code), code, 0, ret, 0) && |code| == old(|code|) + 6 && Laid(code, ret, Loop1(y), NULL)
    {
      ghost var c4 := code;
      var b := ParseNode(BRANCH);
      ghost var c5 := code;
      FragAppend(c4, c5, [BRANCH, 0, 0], ret, y, next);
      FreshAppend(c4, c5, [BRANCH, 0, 0], next, BRANCH);
      NodeAppend(c4, c5, [BRANCH, 0, 0], next + 3, BACK, ret);
      ParseTail(next, b, next);
      ghost var c6 := code;
      Beside(c5, c6, next, b, ret, y, next);
      FreshLinked(c5, c6, next, BRANCH, b);
      NodeKept(c5, c6, next, b, next + 3, BACK, ret);
      FreshKept(c5, c6, next, b, b, BRANCH);
      Outside(c5, c6, next, b, 0, ret);
      var n := ParseNode(NOTHING);
      ghost var c7 := code;
      FragAppend(c6, c7, [NOTHING, 0, 0], ret, y, next);
      NodeAppend(c6, c7, [NOTHING, 0, 0], next, BRANCH, b);
      NodeAppend(c6, c7, [NOTHING, 0, 0], next + 3, BACK, ret);
      FreshAppend(c6, c7, [NOTHING, 0, 0], b, BRANCH);
      Hop(c7, next, BRANCH, b, b);
      FragWalk(c7, ret, y, next, b);
      ParseTail(ret, n, b);
      Beside(c7, code, b, n, ret, y, next);
      NodeKept(c7, code, b, n, next, BRANCH, b);
      NodeKept(c7, code, b, n, next + 3, BACK, ret);
      FreshLinked(c7, code, b, BRANCH, n);
      FreshKept(c7, code, b, n, n, NOTHING);
      Outside(c7, code, b, n, 0, ret);
      Loop1Done(code, ret, y, next);
    }

    /** `x?`: either the operand or the empty alternative. */
    method EmitOpt(ret: nat, ghost y: Re)
      requires Ok(y) && Laid(code, ret, y, NULL) && |code| == ret + Size(y) && |code| + 9 < LIMIT
      modifies this`code
      ensures SameBytes(old(code), code, 0, ret, 0) && |code| == old(|code|) + 9 && Laid(code, ret, Opt(y), NULL)
    {
      var b := Enclose(BRANCH, ret, y);
      ghost var c2 := code;
      ParseTail(ret, b, ret);
      ghost var c3 := code;
      FreshLinked(c2, c3, ret, BRANCH, b);
      Beside(c2, c3, ret, b, ret + 3, y, NULL);
      FreshKept(c2, c3, ret, b, b, BRANCH);
      Outside(c2, c3, ret, b, 0, ret);
      CloseOpt(ret, b, y);
    }

    method CloseOpt(ret: nat, b: nat, ghost y: Re)
      requires Ok(y) && b == ret + 3 + Size(y) && |code| == b + 3 && |code| + 3 < LIMIT
      requires NodeAt(code, ret, BRANCH, b) && Laid(code, ret + 3, y, NULL) && Fresh(code, b, BRANCH)
      modifies this`code
      ensures SameBytes(old(code), code, 0, ret, 0) && |code| == old(|code|) + 3 && Laid(code, ret, Opt(y), NULL)
    {
      ghost var c3 := code;
      var n := ParseNode(NOTHING);
      ghost var c4 := code;
      NodeAppend(c3, c4, [NOTHING, 0, 0], ret, BRANCH, b);
      FragAppend(c3, c4, [NOTHING, 0, 0], ret + 3, y, NULL);
      FreshAppend(c3, c4, [NOTHING, 0, 0], b, BRANCH);
      Hop(c4, ret, BRANCH, b, b);
      ParseTail(ret, n, b);
      ghost var c5 := code;
      NodeKept(c4, c5, b, n, ret, BRANCH, b);
      Beside(c4, c5, b, n, ret + 3, y, NULL);
      FreshLinked(c4, c5, b, BRANCH, n);
      FreshKept(c4, c5, b, n, n, NOTHING);
      Outside(c4, c5, b, n, 0, ret);
      CloseOptTail(ret, b, n, y);
    }

    /** The operand of an option leads to its end, too. */
    method CloseOptTail(ret: nat, b: nat, n: nat, ghost y: Re)
      requires Ok(y) && b == ret + 3 + Size(y) && n == b + 3 && |code| == n + 3 && |code| < LIMIT
      requires NodeAt(code, ret, BRANCH, b) && Laid(code, ret + 3, y, NULL) && NodeAt(code, b, BRANCH, n)
      requires Fresh(code, n, NOTHING)
      modifies this`code
      ensures SameBytes(old(code), code, 0, ret, 0) && |code| == old(|code|) && Laid(code, ret, Opt(y), NULL)
    {
      ghost var c5, q := code, ret + 3 + Tail(y);
      OpenEnd(c5, ret + 3, y);
      ParseOpTail(ret, n, q);
      NodeKept(c5, code, q, n, ret, BRANCH, b);
      OperandLinked(c5, code, ret, y, q, n);
      NodeKept(c5, code, q, n, b, BRANCH, n);
      FreshKept(c5, code, q, n, n, NOTHING);
      Outside(c5, code, q, n, 0, ret);
      OptDone(code, ret, y, b);
    }

    /** A repeat node in front of a simple operand. */
    method EmitRep(op: byte, ret: nat, ghost y: Re)
      requires Ok(y) && y.Unit? && Laid(code, ret, y, NULL) && |code| == ret + Size(y)
      modifies this`code
      ensures SameBytes(old(code), code, 0, ret, 0) && |code| == old(|code|) + 3 && Laid(code, ret, Rep(op, y), NULL)
    {
      ghost var c0 := code;
      ParseInsert(op, ret);
      RepDone(c0, code, ret, op, y);
    }

    /** Gather a run of literal characters from `k` into one node. */
    method ParseLiteral(p: bytes, k: nat) returns (ret: nat, i: nat, simple: bool)
      requires NulFree(p) && k < |p|
      modifies this`code
      ensures var l := LitLoop(p, k, [], NULL);
              i == l.end && simple == l.single && Emitted(old(code), code, ret, Unit(EXACTLY, l.w))
    {
      ret := ParseNode(EXACTLY);
      var parse, regprev := k, NULL;
      ghost var w: bytes := [];
      ghost var start := code;
      while true
        invariant parse < |p| && NulFree(w) && (regprev == NULL <==> w == [])
        invariant regprev != NULL ==> 0 < regprev <= parse && !IsMult(At(p, regprev))
        invariant code == start + w && LitLoop(p, parse, w, regprev) == LitLoop(p, k, [], NULL)
        decreases |p| - parse
      {
        var ch := p[parse];
        parse := parse + 1;
        var next := At(p, parse);
        if IsMagic(next) {
          ParseC(ch);
          w := w + [ch];
          break;
        } else if IsMult(next) {
          if regprev == NULL {
            ParseC(ch);
            w := w + [ch];
          } else {
            parse := regprev;
          }
          break;
        } else if next == BACKSLASH {
          ParseC(ch);
          w := w + [ch];
          var quoted := At(p, parse + 1);
          if quoted == 0 || quoted == LESS || quoted == GREATER { break; }
          regprev := parse;
          parse := parse + 1;
        } else {
          ParseC(ch);
          w := w + [ch];
          regprev := parse;
        }
      }
      ParseC(0);
      i, simple := parse, regprev == NULL;
      UnitEmitted(old(code), code, EXACTLY, w);
    }

    /** Emit the characters from `lo` to `hi`. */
    method ParseRange(lo: nat, hi: byte)
      modifies this`code
      ensures code == old(code) + Range(lo, hi)
    {
      var iclass := lo;
      while iclass <= hi
        invariant code + Range(iclass, hi) == old(code) + Range(lo, hi)
        decreases hi + 1 - iclass
      {
        ParseC(iclass);
        iclass := iclass + 1;
      }
    }

    /** The characters after the opening bracket. */
    method ParseClass(p: bytes, k: nat) returns (ok: bool, i: nat)
      requires NulFree(p) && 0 < k <= |p|
      modifies this`code
      ensures var c := ClassFrom(p, k);
              ok == c.Class? && (ok ==> i == c.end && code == old(code) + c.w + [0])
    {
      var parse := k;
      ghost var w: bytes := [];
      ghost var start := code;
      if At(p, parse) == RBRACKET || At(p, parse) == MINUS {
        ParseC(p[parse]);
        w := [p[parse]];
        parse := parse + 1;
      }
      while At(p, parse) != 0 && At(p, parse) != RBRACKET
        invariant 0 < parse <= |p| && NulFree(w) && code == start + w
        invariant ClassLoop(p, parse, w) == ClassFrom(p, k)
        decreases |p| - parse
      {
        if p[parse] == MINUS {
          parse := parse + 1;
          if At(p, parse) == RBRACKET || At(p, parse) == 0 {
            ParseC(MINUS);
            w := w + [MINUS];
          } else {
            var iclass: nat, classend := p[parse - 2] as int + 1, p[parse];
            if iclass > classend as int + 1 { return false, 0; }
            ParseRange(iclass, classend);
            w := w + Range(iclass, classend);
            parse := parse + 1;
          }
        } else {
          ParseC(p[parse]);
          w := w + [p[parse]];
          parse := parse + 1;
        }
      }
      ParseC(0);
      if At(p, parse) != RBRACKET { return false, 0; }
      return true, parse + 1;
    }

    /** The lowest level: one node, or a parenthesized pattern. */
    method ParseAtom(p: bytes, i: nat) returns (ret: int, parse: nat, width: bool, simple: bool, spstart: bool)
      requires NulFree(p) && i < |p| && 1 <= subxCount && !IsStop(p[i])
      requires !Atom(p, i, subxCount, |code|).TooBig?
      modifies this`code, this`subxCount
      ensures var r := Atom(p, i, old(subxCount), old(|code|));
              if r.Done? then
                parse == r.i && subxCount == r.no && Emitted(old(code), code, ret, r.x)
                && width == Wide(r.x) && spstart == SpStart(r.x) && (IsMult(At(p, r.i)) ==> simple == Simple(r.x))
              else ret == NULL
      decreases |p| - i, 1
    {
      parse, width, simple, spstart := i + 1, false, false, false;
      var c := p[i];
      if c == CARET {
        ret := ParseNode(BOL);
        UnitEmitted(old(code), code, BOL, []);
      } else if c == DOLLAR {
        ret := ParseNode(EOL);
        UnitEmitted(old(code), code, EOL, []);
      } else if c == DOT {
        ret := ParseNode(ANY);
        UnitEmitted(old(code), code, ANY, []);
        width, simple := true, true;
      } else if c == LBRACKET {
        ret, parse := ParseBracket(p, i);
        width, simple := true, true;
      } else if c == LPAR {
        ret, parse, width, spstart := Parse(p, i + 1, true);
      } else if IsMult(c) {
        ret := NULL;
      } else if c == BACKSLASH && At(p, i + 1) == 0 {
        ret := NULL;
      } else if c == BACKSLASH && At(p, i + 1) == LESS {
        ret := ParseNode(WORDA);
        UnitEmitted(old(code), code, WORDA, []);
        parse := i + 2;
      } else if c == BACKSLASH && At(p, i + 1) == GREATER {
        ret := ParseNode(WORDZ);
        UnitEmitted(old(code), code, WORDZ, []);
        parse := i + 2;
      } else {
        ret, parse, simple := ParseLiteral(p, if c == BACKSLASH then i + 1 else i);
        width := true;
      }
    }

    method ParseBracket(p: bytes, i: nat) returns (ret: int, parse: nat)
      requires NulFree(p) && i < |p|
      modifies this`code
      ensures var r := ClassAtom(p, i, 1);
              if r.Done? then parse == r.i && Emitted(old(code), code, ret, r.x) else ret == NULL
    {
      var negated := At(p, i + 1) == CARET;
      var op := if negated then ANYBUT else ANYOF;
      ret := ParseNode(op);
      var ok: bool;
      ok, parse := ParseClass(p, if negated then i + 2 else i + 1);
      if !ok {
        ret := NULL;
      } else {
        UnitEmitted(old(code), code, op, ClassFrom(p, if negated then i + 2 else i + 1).w);
      }
    }

    /** Alternatives, for a whole pattern or for what follows an opening parenthesis. */
    method Parse(p: bytes, i: nat, paren: bool) returns (ret: int, parse: nat, width: bool, spstart: bool)
      requires NulFree(p) && i <= |p| && 1 <= subxCount
      requires !Regex(p, i, paren, subxCount, |code|).TooBig?
      modifies this`code, this`subxCount
      ensures var r := Regex(p, i, paren, old(subxCount), old(|code|));
              if r.Done? then
                parse == r.i && subxCount == r.no && width == Wide(r.x) && spstart == SpStart(r.x)
                && if paren then Emitted(old(code), code, ret, r.x) else ProgramEmitted(old(code), code, ret, r.x)
              else ret == NULL
      decreases |p| - i, 8
    {
      if paren && subxCount >= MAX_SUBX { return NULL, 0, false, false; }
      ghost var c0, x := code, Empty;
      var parno := subxCount;
      if paren {
        subxCount := subxCount + 1;
        ret := ParseNode(OPEN + parno);
      } else {
        ret := |code|;
      }
      var ok;
      ok, parse, width, spstart, x := ParseBody(p, i, ret, paren, parno, c0);
      if !ok { return NULL, 0, false, false; }
      if paren {
        parse := parse + 1;
        if At(p, parse - 1) != RPAR { ret := NULL; }
      } else if At(p, parse) != 0 {
        ret := NULL;
      }
    }

    /** The alternatives and the node that closes them. */
    method ParseBody(p: bytes, i: nat, ret: nat, paren: bool, parno: nat, ghost c0: bytes)
      returns (ok: bool, parse: nat, width: bool, spstart: bool, ghost x: Re)
      requires NulFree(p) && i <= |p| && 1 <= subxCount && ret == |c0| && SameBytes(c0, code, 0, ret, 0)
      requires if paren then parno < MAX_SUBX && |code| == ret + 3 && Fresh(code, ret, OPEN + parno) else |code| == ret
      requires !Branch(p, i, subxCount, |code|).TooBig?
      requires var b := Branch(p, i, subxCount, |code|);
               b.Done? ==> var r := Branches(p, b.i, b.no, b.x, |code|);
                           !r.TooBig? && (r.Done? ==> |code| + SizeAlts(r.x) + 3 < LIMIT)
      modifies this`code, this`subxCount
      ensures var b := Branch(p, i, old(subxCount), old(|code|));
              ok == (b.Done? && Branches(p, b.i, b.no, b.x, old(|code|)).Done?) && (ok ==>
                var r := Branches(p, b.i, b.no, b.x, old(|code|));
                x == r.x && parse == r.i && subxCount == r.no && width == Wide(x) && spstart == SpStart(x)
                && if paren then Emitted(c0, code, ret, Group(parno, x)) else ProgramEmitted(c0, code, ret, x))
      decreases |p| - i, 7, 1
    {
      ok, parse, width, spstart, x := ParseAlternatives(p, i, ret, paren, parno);
      if ok {
        CloseBody(ret, paren, parno, c0, x);
      }
    }

    method CloseBody(ret: nat, paren: bool, parno: nat, ghost c0: bytes, ghost x: Re)
      requires OkAlts(x) && ret == |c0| && SameBytes(c0, code, 0, ret, 0) && (paren ==> parno < MAX_SUBX)
      requires var base := if paren then ret + 3 else ret;
               && HeadAt(code, ret, paren, parno, base) && |code| == base + SizeAlts(x) && |code| + 3 < LIMIT
               && LaidAlts(code, base, x, NULL, 0, 0)
      modifies this`code
      ensures if paren then Emitted(c0, code, ret, Group(parno, x)) else ProgramEmitted(c0, code, ret, x)
    {
      ghost var c1 := code;
      CloseAlternatives(ret, paren, parno, if paren then ret + 3 else ret, x);
      if paren { GroupEmitted(c0, c1, code, parno, x); }
    }

    /** The closing node, and the links of the chain and of all its operands to it. */
    method CloseAlternatives(ret: nat, paren: bool, parno: nat, ghost base: nat, ghost x: Re)
      requires OkAlts(x) && HeadAt(code, ret, paren, parno, base)
      requires |code| == base + SizeAlts(x) && |code| + 3 < LIMIT && LaidAlts(code, base, x, NULL, 0, 0)
      modifies this`code
      ensures |code| == old(|code|) + 3 && SameBytes(old(code), code, 0, ret, 0)
        && HeadAt(code, ret, paren, parno, base)
      ensures var e := base + SizeAlts(x);
              LaidAlts(code, base, x, e, e, Count(x)) && Fresh(code, e, if paren then CLOSE + parno else END)
    {
      var op := if paren then CLOSE + parno else END;
      ghost var c0, q := code, base + LastBranch(x);
      var ender := ParseNode(op);
      ghost var c1 := code;
      AppendKeeps(c0, c1, [op, 0, 0]);
      ChainAppend(c0, c1, base, x, NULL, 0, 0);
      HeadUnder(c0, c1, ret, paren, parno, base);
      HeadWalk(c1, ret, paren, parno, base, x, q);
      ParseTail(ret, ender, q);
      ChainClosed(c1, code, base, x, ret, paren, parno, op, ender, q);
      LinkOperands(ret, ender, paren, parno, op, base, x);
    }

    method LinkOperands(ret: nat, ender: nat, ghost paren: bool, ghost parno: nat, ghost op: byte, ghost base: nat,
                        ghost x: Re)
      requires OkAlts(x) && HeadAt(code, ret, paren, parno, base) && op != BRANCH && op != BACK
      requires ender == base + SizeAlts(x) && |code| == ender + 3 && |code| < LIMIT && Fresh(code, ender, op)
      requires LaidAlts(code, base, x, ender, ender, 0)
      modifies this`code
      ensures |code| == old(|code|) && SameBytes(old(code), code, 0, ret, 0) && HeadAt(code, ret, paren, parno, base)
      ensures LaidAlts(code, base, x, ender, ender, Count(x)) && Fresh(code, ender, op)
    {
      var br: int := ret;
      ghost var c0, n := code, Count(x);
      ghost var j: int := if paren then -1 else 0;
      FirstBranch(x);
      while br != NULL
        invariant -1 <= j <= n + 1 && br == BranchAddress(ret, base, x, ender, j)
        invariant |code| == ender + 3 && Fresh(code, ender, op) && HeadAt(code, ret, paren, parno, base)
        invariant j == -1 ==> paren
        invariant LaidAlts(code, base, x, ender, ender, if j < 0 then 0 else if j > n then n else j)
        invariant SameBytes(c0, code, 0, ret, 0)
        decreases n + 1 - j
      {
        br := LinkOperand(br, ender, ret, paren, parno, op, base, x, j);
        j := j + 1;
      }
    }

    method LinkOperand(br: nat, ender: nat, ghost ret: nat, ghost paren: bool, ghost parno: nat, ghost op: byte,
                       ghost base: nat, ghost x: Re, ghost j: int) returns (next: int)
      requires OkAlts(x) && HeadAt(code, ret, paren, parno, base) && op != BRANCH && op != BACK
      requires ender == base + SizeAlts(x) && |code| == ender + 3 && |code| < LIMIT && Fresh(code, ender, op)
      requires -1 <= j <= Count(x) && (j == -1 ==> paren) && br == BranchAddress(ret, base, x, ender, j)
      requires LaidAlts(code, base, x, ender, ender, if j < 0 then 0 else j)
      modifies this`code
      ensures |code| == old(|code|) && SameBytes(old(code), code, 0, ret, 0) && HeadAt(code, ret, paren, parno, base)
      ensures LaidAlts(code, base, x, ender, ender, if j < Count(x) then j + 1 else j) && Fresh(code, ender, op)
      ensures next == BranchAddress(ret, base, x, ender, j + 1)
    {
      ghost var c, q, m := code, 0, if j < 0 then 0 else j as nat;
      if 0 <= j < Count(x) {
        q := br + 3 + Tail(NthOperand(x, m));
        BeforeLink(c, base, x, ender, m, br, q);
      }
      ParseOpTail(br, ender, q);
      if 0 <= j < Count(x) {
        AfterLink(c, code, ret, paren, parno, base, x, ender, op, m, br, q);
      }
      FirstBranch(x);
      next := ParseNext(br);
    }

    /** The first alternative, linked behind the OPEN node if there is one, and the others. */
    method ParseAlternatives(p: bytes, i: nat, ret: nat, paren: bool, ghost parno: nat)
      returns (ok: bool, parse: nat, width: bool, spstart: bool, ghost x: Re)
      requires NulFree(p) && i <= |p| && 1 <= subxCount && (paren ==> parno < MAX_SUBX)
      requires if paren then |code| == ret + 3 && Fresh(code, ret, OPEN + parno) else |code| == ret
      requires !Branch(p, i, subxCount, |code|).TooBig?
      requires var b := Branch(p, i, subxCount, |code|); b.Done? ==> !Branches(p, b.i, b.no, b.x, |code|).TooBig?
      modifies this`code, this`subxCount
      ensures var base := old(|code|);
              var b := Branch(p, i, old(subxCount), base);
              ok == (b.Done? && Branches(p, b.i, b.no, b.x, base).Done?) && (ok ==>
                var r := Branches(p, b.i, b.no, b.x, base);
                && x == r.x && parse == r.i && subxCount == r.no && |code| == base + SizeAlts(x)
                && SameBytes(old(code), code, 0, ret, 0)
                && LaidAlts(code, base, x, NULL, 0, 0) && HeadAt(code, ret, paren, parno, base)
                && width == Wide(x) && spstart == SpStart(x))
      decreases |p| - i, 7, 0
    {
      ghost var c1, base, b := code, |code|, Branch(p, i, subxCount, |code|);
      x := Empty;
      var br;
      br, parse, width, spstart := ParseBranch(p, i);
      if br == NULL { return false, 0, false, false, Empty; }
      ghost var c2 := code;
      if paren {
        NodeUnder(c1, c2, ret, OPEN + parno);
        ParseTail(ret, br, ret);
        FreshLinked(c2, code, ret, OPEN + parno, br);
        BranchKept(c2, code, ret, br, br, b.x);
        Outside(c2, code, ret, br, 0, ret);
      }
      ok, parse, width, spstart := ParseBranches(p, parse, ret, paren, width, spstart, parno, base, b.x);
      if ok { x := Branches(p, b.i, b.no, b.x, base).x; }
    }

    /** Further alternatives, each linked behind the one before. */
    method ParseBranches(p: bytes, i: nat, ret: nat, paren: bool, width0: bool, spstart0: bool,
                         ghost parno: nat, ghost base: nat, ghost first: Re)
      returns (ok: bool, parse: nat, width: bool, spstart: bool)
      requires NulFree(p) && i <= |p| && 1 <= subxCount && OkAlts(first)
      requires |code| == base + SizeAlts(first) && |code| < LIMIT && LaidAlts(code, base, first, NULL, 0, 0)
      requires HeadAt(code, ret, paren, parno, base) && width0 == Wide(first) && spstart0 == SpStart(first)
      requires !Branches(p, i, subxCount, first, base).TooBig?
      modifies this`code, this`subxCount
      ensures var r := Branches(p, i, old(subxCount), first, base);
              ok == r.Done? && (ok ==>
                && parse == r.i && subxCount == r.no && |code| == base + SizeAlts(r.x)
                && SameBytes(old(code), code, 0, ret, 0)
                && LaidAlts(code, base, r.x, NULL, 0, 0) && HeadAt(code, ret, paren, parno, base)
                && width == Wide(r.x) && spstart == SpStart(r.x))
      decreases |p| - i, 6
    {
      parse, width, spstart := i, width0, spstart0;
      ghost var c0, acc, goal := code, first, Branches(p, i, subxCount, first, base);
      while At(p, parse) == BAR || At(p, parse) == NL
        invariant i <= parse <= |p| && 1 <= subxCount
        invariant BranchesAt(c0, code, ret, paren, parno, base, acc, width, spstart)
        invariant Branches(p, parse, subxCount, acc, base) == goal
        decreases |p| - parse
      {
        ok, parse, width, spstart, acc := ParseAnother(p, parse, ret, paren, width, spstart, parno, base, acc, c0);
        if !ok { return false, 0, false, false; }
      }
      ok := true;
    }

    /** One round of that. */
    method ParseAnother(p: bytes, i: nat, ret: nat, paren: bool, width0: bool, spstart0: bool, ghost parno: nat,
                        ghost base: nat, ghost acc: Re, ghost c0: bytes)
      returns (ok: bool, parse: nat, width: bool, spstart: bool, ghost acc': Re)
      requires NulFree(p) && i <= |p| && 1 <= subxCount && (At(p, i) == BAR || At(p, i) == NL)
      requires BranchesAt(c0, code, ret, paren, parno, base, acc, width0, spstart0)
      requires !Branches(p, i, subxCount, acc, base).TooBig?
      modifies this`code, this`subxCount
      ensures ok ==> i < parse <= |p| && 1 <= subxCount
      ensures ok ==> BranchesAt(c0, code, ret, paren, parno, base, acc', width, spstart)
      ensures ok ==> Branches(p, parse, subxCount, acc', base) == Branches(p, i, old(subxCount), acc, base)
      ensures !ok ==> !Branches(p, i, old(subxCount), acc, base).Done?
      decreases |p| - i, 5
    {
      ghost var r := Branch(p, i + 1, subxCount, |code|);
      BranchesStep(p, i, subxCount, acc, base, |code|);
      acc' := acc;
      ok, parse, width, spstart := ParseNextBranch(p, i + 1, ret, paren, parno, base, acc);
      if ok {
        width, spstart, acc' := width0 && width, spstart0 || spstart, Alt(acc, r.x);
      }
    }

    method ParseNextBranch(p: bytes, i: nat, ret: nat, paren: bool, ghost parno: nat, ghost base: nat, ghost acc: Re)
      returns (ok: bool, parse: nat, width: bool, spstart: bool)
      requires NulFree(p) && i <= |p| && 1 <= subxCount && OkAlts(acc)
      requires AltsAt(code, base, acc) && HeadAt(code, ret, paren, parno, base)
      requires !Branch(p, i, subxCount, |code|).TooBig?
      modifies this`code, this`subxCount
      ensures var r := Branch(p, i, old(subxCount), old(|code|));
              ok == r.Done? && (ok ==>
                && parse == r.i && subxCount == r.no && SameBytes(old(code), code, 0, ret, 0)
                && AltsAt(code, base, Alt(acc, r.x)) && HeadAt(code, ret, paren, parno, base)
                && width == Wide(r.x) && spstart == SpStart(r.x))
      decreases |p| - i, 6
    {
      ghost var c1, r := code, Branch(p, i, subxCount, |code|);
      var br;
      br, parse, width, spstart := ParseBranch(p, i);
      ok := br != NULL;
      if ok {
        ghost var c2, q := code, base + LastBranch(acc);
        ChainAppend(c1, c2, base, acc, NULL, 0, 0);
        HeadUnder(c1, c2, ret, paren, parno, base);
        HeadWalk(c2, ret, paren, parno, base, acc, q);
        ParseTail(ret, br, q);
        AltAppended(c2, code, base, acc, r.x, br, q);
        HeadKept(c2, code, q, br, ret, paren, parno, base);
        Outside(c2, code, q, br, 0, ret);
      }
    }

    /** An atom and the multiplier behind it. */
    method ParsePiece(p: bytes, i: nat) returns (ret: int, parse: nat, width: bool, spstart: bool)
      requires NulFree(p) && i < |p| && 1 <= subxCount && !IsStop(p[i])
      requires !Piece(p, i, subxCount, |code|).TooBig?
      modifies this`code, this`subxCount
      ensures var r := Piece(p, i, old(subxCount), old(|code|));
              if r.Done? then
                parse == r.i && subxCount == r.no && Emitted(old(code), code, ret, r.x)
                && width == Wide(r.x) && spstart == SpStart(r.x)
              else ret == NULL
      decreases |p| - i, 2
    {
      ghost var c0, a := code, Atom(p, i, subxCount, |code|);
      var simple: bool;
      ret, parse, width, simple, spstart := ParseAtom(p, i);
      if ret == NULL { return; }
      var op := At(p, parse);
      if !IsMult(op) { return; }
      if !width && op != QUERY {
        ret := NULL;
        return;
      }
      width, spstart := op == CROSS, op != CROSS;
      parse := ParseMult(p, parse, ret, simple, c0, a.x);
      if IsMult(At(p, parse)) { ret := NULL; }
    }

    /** The multiplier behind an atom, with the mark that asks for the shortest match first. */
    method ParseMult(p: bytes, i: nat, ret: nat, simple: bool, ghost c0: bytes, ghost x: Re) returns (parse: nat)
      requires Emitted(c0, code, ret, x) && Ok(x) && IsMult(At(p, i)) && simple == Simple(x)
      requires ret + Size(Multiplied(x, At(p, i), At(p, i + 1) == QUERY).0) < LIMIT
      modifies this`code
      ensures var m := Multiplied(x, At(p, i), At(p, i + 1) == QUERY);
              parse == i + m.1 && Emitted(c0, code, ret, m.0)
    {
      var op, lazy := At(p, i), At(p, i + 1) == QUERY;
      ghost var c1 := code;
      Multiply(ret, op, simple, lazy, x);
      Chained(c0, c1, code, ret, x, Multiplied(x, op, lazy).0);
      parse := i + 1;
      if op != QUERY && simple && lazy { parse := parse + 1; }
    }

    /** Emit the code of a multiplier behind, or in front of, its operand. */
    method Multiply(ret: nat, op: byte, simple: bool, lazy: bool, ghost x: Re)
      requires Ok(x) && Laid(code, ret, x, NULL) && |code| == ret + Size(x) && IsMult(op) && simple == Simple(x)
      requires ret + Size(Multiplied(x, op, lazy).0) < LIMIT
      modifies this`code
      ensures var y := Multiplied(x, op, lazy).0;
              SameBytes(old(code), code, 0, ret, 0) && |code| == ret + Size(y) && Laid(code, ret, y, NULL)
    {
      if op == QUERY {
        EmitOpt(ret, x);
      } else if op == TIMES {
        if simple { EmitRep(if lazy then STARX else STAR, ret, x); } else { EmitLoop0(ret, x); }
      } else {
        if simple { EmitRep(if lazy then PLUSX else PLUS, ret, x); } else { EmitLoop1(ret, x); }
      }
    }

    /** Link the last piece of a branch, if there is one, to the piece just emitted. */
    method LinkPiece(chain: int, latest: nat, ghost ret: nat, ghost acc: Re, ghost x: Re)
      requires Ok(acc) && Ok(x) && Fresh(code, ret, BRANCH) && Laid(code, latest, x, NULL)
      requires |code| == latest + Size(x) && |code| <= LIMIT
      requires if acc.Empty? then chain == NULL && latest == ret + 3
               else chain == ret + 3 + LastPiece(acc) && latest == ret + 3 + Size(acc) && Laid(code, ret + 3, acc, NULL)
      modifies this`code
      ensures SameBytes(old(code), code, 0, ret, 0) && |code| == old(|code|)
      ensures Fresh(code, ret, BRANCH) && Laid(code, ret + 3, Join(acc, x), NULL)
    {
      if chain != NULL {
        ghost var c, q := code, ret + 3 + Tail(acc);
        LastPieceEnd(c, ret + 3, acc);
        TailInside(x);
        ParseTail(chain, latest, q);
        PieceJoined(c, code, ret + 3, acc, x, q, latest);
        FreshKept(c, code, q, latest, ret, BRANCH);
        Outside(c, code, q, latest, 0, ret);
      }
    }

    /** Parse one more piece of a branch and link it. */
    method ParseNextPiece(p: bytes, i: nat, chain: int, ghost ret: nat, ghost acc: Re)
      returns (latest: int, parse: nat, width: bool, spstart: bool)
      requires NulFree(p) && i < |p| && 1 <= subxCount && !IsStop(p[i]) && Ok(acc)
      requires !Piece(p, i, subxCount, |code|).TooBig? && Fresh(code, ret, BRANCH)
      requires PiecesAt(code, ret + 3, acc, chain)
      modifies this`code, this`subxCount
      ensures var r := Piece(p, i, old(subxCount), old(|code|));
              if r.Done? then
                parse == r.i && subxCount == r.no && latest != NULL && width == Wide(r.x) && spstart == SpStart(r.x)
                && SameBytes(old(code), code, 0, ret, 0) && Fresh(code, ret, BRANCH)
                && PiecesAt(code, ret + 3, Join(acc, r.x), latest)
              else latest == NULL
      decreases |p| - i, 3
    {
      ghost var c1, r := code, Piece(p, i, subxCount, |code|);
      latest, parse, width, spstart := ParsePiece(p, i);
      if latest != NULL {
        AfterEmitted(c1, code, ret, latest, r.x);
        if chain != NULL { Kept(c1, code, ret + 3, acc); }
        LinkPiece(chain, latest, ret, acc, r.x);
      }
    }

    /** The pieces of one alternative, each linked to the next, behind its BRANCH node `ret`. */
    method ParsePieces(p: bytes, i: nat, ghost ret: nat) returns (ok: bool, parse: nat, width: bool, spstart: bool)
      requires NulFree(p) && i <= |p| && 1 <= subxCount && |code| == ret + 3 && Fresh(code, ret, BRANCH)
      requires !Pieces(p, i, subxCount, Empty, |code|).TooBig?
      modifies this`code, this`subxCount
      ensures var r := Pieces(p, i, old(subxCount), Empty, old(|code|));
              ok == r.Done? && (ok ==>
                && parse == r.i && subxCount == r.no && |code| == ret + 3 + Size(r.x)
                && SameBytes(old(code), code, 0, ret, 0)
                && Fresh(code, ret, BRANCH) && Laid(code, ret + 3, r.x, NULL) && width == Wide(r.x)
                && spstart == SpStart(r.x))
      decreases |p| - i, 4, 0
    {
      width, spstart, parse := false, false, i;
      ghost var c0, goal := code, Pieces(p, i, subxCount, Empty, |code|);
      var chain := NULL;
      ghost var acc := Empty;
      while !IsStop(At(p, parse))
        invariant i <= parse <= |p| && 1 <= subxCount && Ok(acc)
        invariant Pieces(p, parse, subxCount, acc, ret + 3) == goal
        invariant SameBytes(c0, code, 0, ret, 0) && Fresh(code, ret, BRANCH)
        invariant PiecesAt(code, ret + 3, acc, chain)
        invariant width == Wide(acc) && spstart == SpStart(acc)
        decreases |p| - parse
      {
        ghost var r := Piece(p, parse, subxCount, |code|);
        PiecesStep(p, parse, subxCount, acc, ret + 3, |code|);
        var latest, w, s;
        latest, parse, w, s := ParseNextPiece(p, parse, chain, ret, acc);
        if latest == NULL { return false, 0, false, false; }
        width := width || w;
        if chain == NULL { spstart := s; }
        chain := latest;
        acc := Join(acc, r.x);
      }
      if chain == NULL {
        ghost var c := code;
        var n := ParseNode(NOTHING);
        FreshAppend(c, code, [NOTHING, 0, 0], ret, BRANCH);
        assert Tree(Empty);
      }
      ok := true;
    }

    /** One alternative: a BRANCH node and its pieces. */
    method ParseBranch(p: bytes, i: nat) returns (ret: int, parse: nat, width: bool, spstart: bool)
      requires NulFree(p) && i <= |p| && 1 <= subxCount
      requires !Branch(p, i, subxCount, |code|).TooBig?
      modifies this`code, this`subxCount
      ensures var r := Branch(p, i, old(subxCount), old(|code|));
              if r.Done? then
                parse == r.i && subxCount == r.no && BranchEmitted(old(code), code, ret, r.x)
                && width == Wide(r.x) && spstart == SpStart(r.x)
              else ret == NULL
      decreases |p| - i, 5
    {
      ret := ParseNode(BRANCH);
      var ok;
      ok, parse, width, spstart := ParsePieces(p, i, ret);
      if !ok { ret := NULL; }
    }

    /** The first occurrence of `c` from `s` on, or the end of the text. */
    method Find(text: bytes, s: nat, c: byte) returns (k: nat)
      requires s <= |text|
      ensures s <= k <= |text| && (k < |text| ==> text[k] == c) && forall i :: s <= i < k ==> text[i] != c
    {
      k := s;
      while k < |text| && text[k] != c
        invariant s <= k <= |text| && forall i :: s <= i < k ==> text[i] != c
      {
        k := k + 1;
      }
    }

    /** Does `w` occur in the text? Candidates are the places where its first character occurs. */
    method Contains(text: bytes, w: bytes) returns (present: bool)
      requires w != []
      ensures present <==> exists k :: 0 <= k <= |text| && StartsAt(text, k, w)
    {
      var s := Find(text, 0, w[0]);
      while s < |text|
        invariant s <= |text| && (s < |text| ==> text[s] == w[0])
        invariant forall k :: 0 <= k < s ==> !StartsAt(text, k, w)
      {
        if StartsAt(text, s, w) { return true; }
        ghost var from := s + 1;
        s := Find(text, s + 1, w[0]);
        FirstCharacter(text, w, from, s);
      }
      FirstCharacter(text, w, s, |text|);
      return false;
    }

    /** Look for a match; the result is its position counted from 1, or 0. It is the leftmost
      position where the language has a member, with the preferred end there, and what plain
      backtracking at every position in turn would find, whatever the shortcuts skip. */
    method Match(text: bytes) returns (position: nat)
      requires Valid() && NulFree(text)
      modifies this`input, this`inputPtr, this`endp
      ensures position <= |text| + 1
      ensures position > 0 ==> position - 1 <= endp <= |text| && L(tree, MATCHED_GROUPS, text, position - 1, endp)
      ensures forall i, j :: 0 <= i <= j <= |text| && (position > 0 ==> i < position - 1) ==>
        !L(tree, MATCHED_GROUPS, text, i, j)
      ensures position > 0 ==> Preferred(tree, MATCHED_GROUPS, text, position - 1) == Yes(endp)
      ensures position > 0 ==> Res(code, text, 1, position - 1) == Yes(endp)
      ensures forall i :: 0 <= i <= |text| && (position > 0 ==> i < position - 1) ==> Res(code, text, 1, i) == No
    {
      position := Search(text);
      forall i | 0 <= i <= |text| && (position > 0 ==> i < position - 1)
        ensures Res(code, text, 1, i) == No
      {
        ProgramMeans(code, text, 1, tree, i);
        PreferredIsMember(tree, MATCHED_GROUPS, text, i);
      }
      if position > 0 {
        ProgramMeans(code, text, 1, tree, position - 1);
      }
    }

    method Search(text: bytes) returns (position: nat)
      requires Valid() && NulFree(text)
      modifies this`input, this`inputPtr, this`endp
      ensures position <= |text| + 1
      ensures position > 0 ==> position - 1 <= endp <= |text| && L(tree, MATCHED_GROUPS, text, position - 1, endp)
      ensures position > 0 ==> Preferred(tree, MATCHED_GROUPS, text, position - 1) == Yes(endp)
      ensures forall i, j :: 0 <= i <= j <= |text| && (position > 0 ==> i < position - 1) ==>
        !L(tree, MATCHED_GROUPS, text, i, j)
    {
      input := text;
      if must != NULL {
        var present := Contains(text, Operand(code, must));
        if !present {
          MustBeThere(tree, MATCHED_GROUPS, text, Operand(code, must));
          return 0;
        }
      }
      if anchor {
        position := SearchStart();
      } else {
        position := SearchAll();
      }
    }

    /** An anchored pattern is tried only at the start. */
    method SearchStart() returns (position: nat)
      requires Valid() && NulFree(input) && anchor
      modifies this`inputPtr, this`endp
      ensures Found(position)
    {
      var ok := MatchTry(0);
      StartsAtZero(tree, MATCHED_GROUPS, input);
      return if ok then 1 else 0;
    }

    /** The leftmost match, or none. */
    ghost predicate Found(position: nat)
      reads this
    {
      && position <= |input| + 1
      && (position > 0 ==>
           && position - 1 <= endp <= |input| && L(tree, MATCHED_GROUPS, input, position - 1, endp)
           && Preferred(tree, MATCHED_GROUPS, input, position - 1) == Yes(endp))
      && NoneBefore(if position > 0 then position - 1 else |input| + 1)
    }

    /** No match starts before `n`. */
    ghost predicate NoneBefore(n: nat)
      reads this
    {
      forall i, j :: 0 <= i <= j <= |input| && i < n ==> !L(tree, MATCHED_GROUPS, input, i, j)
    }

    /** The loop of `Match`: try every position, from one starting character to the next. */
    method SearchAll() returns (position: nat)
      requires Valid() && NulFree(input) && !anchor
      modifies this`inputPtr, this`endp
      ensures Found(position)
    {
      var s := 0;
      while s <= |input|
        invariant s <= |input| + 1 && NoneBefore(s)
      {
        var ok;
        ok, s := TryFrom(s);
        if ok { return s + 1; }
        s := s + 1;
      }
      return 0;
    }

    /** Skip to where a match can start, and try it there. */
    method TryFrom(from: nat) returns (ok: bool, s: nat)
      requires Valid() && NulFree(input) && from <= |input| && NoneBefore(from)
      modifies this`inputPtr, this`endp
      ensures from <= s <= |input|
      ensures if ok then Found(s + 1) else NoneBefore(s + 1)
    {
      s := from;
      if start != 0 {
        s := Find(input, s, start);
        StartsWithChar(tree, MATCHED_GROUPS, input, from, s);
        if s == |input| { return false, s; }
      }
      ok := MatchTry(s);
    }

    /** Try a match at one position. */
    method MatchTry(s: nat) returns (ok: bool)
      requires Valid() && NulFree(input) && s <= |input|
      modifies this`inputPtr, this`endp
      ensures if ok then s <= endp <= |input| && L(tree, MATCHED_GROUPS, input, s, endp)
        && Preferred(tree, MATCHED_GROUPS, input, s) == Yes(endp)
              else forall j :: s <= j <= |input| ==> !L(tree, MATCHED_GROUPS, input, s, j)
    {
      inputPtr := s;
      ProgramMeans(code, input, 1, tree, s);
      PreferredIsMember(tree, MATCHED_GROUPS, input, s);
      ghost var n := Fuel(code, input, 1, s);
      ok := MatchX(1, n);
      if ok { endp := inputPtr; }
    }

    /** A node without choice: consume what it matches. */
    method MatchUnit(op: byte, w: bytes) returns (ok: bool)
      requires NulFree(input) && NulFree(w) && 0 <= inputPtr <= |input| && IsUnit(op)
      modifies this`inputPtr
      ensures var j := UnitStep(op, w, input, old(inputPtr));
              ok == (j != NULL) && (ok ==> inputPtr == j)
    {
      var c := At(input, inputPtr);
      if op == BOL {
        ok := inputPtr == 0;
      } else if op == EOL {
        ok := c == 0;
      } else if op == WORDA {
        ok := IsWordChar(c) && !(inputPtr > 0 && IsWordChar(input[inputPtr - 1]));
      } else if op == WORDZ {
        ok := !IsWordChar(c);
      } else if op == ANY {
        ok := c != 0;
        if ok { inputPtr := inputPtr + 1; }
      } else if op == EXACTLY {
        if At(w, 0) != c { return false; }
        if |w| > 1 && !StartsAt(input, inputPtr, w) { return false; }
        if |w| == 1 { assert input[inputPtr..inputPtr + 1] == w; }
        inputPtr := inputPtr + |w|;
        ok := true;
      } else if op == ANYOF || op == ANYBUT {
        ok := c != 0 && (c in w) == (op == ANYOF);
        if ok { inputPtr := inputPtr + 1; }
      } else {
        ok := true;
      }
    }

    /** Try each alternative of a chain at the same position. */
    method MatchBranches(first: nat, ghost n: nat) returns (r: bool)
      requires NulFree(input) && 0 <= inputPtr <= |input| && IsNode(code, first) && code[first] == BRANCH
      requires !Bt(code, input, first, inputPtr, n).Unknown?
      modifies this`inputPtr
      ensures var v := Bt(code, input, first, old(inputPtr), n);
              r == v.Yes? && (r ==> inputPtr == v.end)
      decreases n, 0, 0
    {
      ghost var v := Bt(code, input, first, inputPtr, n);
      ghost var m: nat := n;
      var scan, save := first, inputPtr;
      while true
        invariant m <= n && IsNode(code, scan) && code[scan] == BRANCH && inputPtr == save
        invariant Bt(code, input, scan, save, m) == v
        decreases m
      {
        r := MatchX(scan + 3, m - 1);
        if r { return; }
        inputPtr := save;
        var next := ParseNext(scan);
        if !(IsNode(code, next) && code[next] == BRANCH) { return; }
        scan, m := next, m - 1;
      }
    }

    /** How many characters from the current position on the simple node at `p` takes. */
    method MatchRepeat(p: nat) returns (count: nat)
      requires IsNode(code, p) && 0 <= inputPtr <= |input|
      modifies this`inputPtr
      ensures count == Repeats(code[p], Operand(code, p + 3), input, old(inputPtr))
    {
      var scan := inputPtr as nat;
      var op, w := code[p], Operand(code, p + 3);
      count := 0;
      while scan < |input| && Takes(op, w, input[scan])
        invariant scan <= |input| && scan == old(inputPtr) + count
        invariant count + Repeats(op, w, input, scan) == Repeats(op, w, input, old(inputPtr))
      {
        count, scan := count + 1, scan + 1;
      }
      inputPtr := scan;
    }

    /** The character the node at `next` must start with, or NUL if that is not known. */
    method NextChar(next: int) returns (nextch: byte)
      requires IsNode(code, next) || next == NULL
      ensures nextch != 0 ==> next != NULL && code[next] == EXACTLY && nextch == At(Operand(code, next + 3), 0)
    {
      nextch := 0;
      if next != NULL && code[next] == EXACTLY { nextch := At(code, next + 3); }
    }

    /** As many repeats as there are, giving back one at a time. */
    method MatchGreedy(scan: nat, next: int, least: nat, ghost n: nat) returns (r: bool)
      requires NulFree(input) && 0 <= inputPtr <= |input| && IsNode(code, scan + 3) && NULL <= next
      requires var most := Repeats(code[scan + 3], Operand(code, scan + 6), input, inputPtr);
               !BtDown(code, input, next, inputPtr, least, most, n).Unknown?
      modifies this`inputPtr
      ensures var most := Repeats(code[scan + 3], Operand(code, scan + 6), input, old(inputPtr));
              var v := BtDown(code, input, next, old(inputPtr), least, most, n);
              r == v.Yes? && (r ==> inputPtr == v.end)
      decreases n, 1, 0
    {
      var save: nat := inputPtr;
      var no: int := MatchRepeat(scan + 3);
      ghost var v := BtDown(code, input, next, save, least, no, n);
      inputPtr := save + no;
      if no < least { return false; }
      var nextch := NextChar(next);
      while no >= least
        invariant -1 <= no && save + no <= |input| && BtDown(code, input, next, save, least, no, n) == v
        invariant no >= 0 ==> inputPtr == save + no
      {
        r := MatchNext(next, nextch, n);
        if r { return; }
        no := no - 1;
        inputPtr := save + no;
      }
      return false;
    }

    /** The rest of the program, unless the next character is not the one it must start with. */
    method MatchNext(next: int, nextch: byte, ghost n: nat) returns (r: bool)
      requires NulFree(input) && 0 <= inputPtr <= |input| && NULL <= next
      requires !Bt(code, input, next, inputPtr, n).Unknown?
      requires nextch != 0 ==> next != NULL && code[next] == EXACTLY && nextch == At(Operand(code, next + 3), 0)
      modifies this`inputPtr
      ensures var v := Bt(code, input, next, old(inputPtr), n);
              r == v.Yes? && (r ==> inputPtr == v.end)
      decreases n, 0, 2
    {
      r := false;
      if nextch == 0 || At(input, inputPtr) == nextch {
        if next != NULL {
          r := MatchX(next, n);
        }
      }
    }

    /** As few repeats as possible, taking one more at a time. */
    method MatchLazy(scan: nat, next: int, least: nat, ghost n: nat) returns (r: bool)
      requires NulFree(input) && 0 <= inputPtr <= |input| && IsNode(code, scan + 3) && NULL <= next
      requires var most := Repeats(code[scan + 3], Operand(code, scan + 6), input, inputPtr);
               !BtUp(code, input, next, inputPtr, least, most, n).Unknown?
      modifies this`inputPtr
      ensures var most := Repeats(code[scan + 3], Operand(code, scan + 6), input, old(inputPtr));
              var v := BtUp(code, input, next, old(inputPtr), least, most, n);
              r == v.Yes? && (r ==> inputPtr == v.end)
      decreases n, 1, 0
    {
      var save: nat := inputPtr;
      var no, max := least, 0;
      max := MatchRepeat(scan + 3);
      ghost var v := BtUp(code, input, next, save, least, max, n);
      if no > max { return false; }
      var nextch := NextChar(next);
      while no <= max
        invariant save + max <= |input| && BtUp(code, input, next, save, no, max, n) == v
      {
        inputPtr := save + no;
        r := MatchNext(next, nextch, n);
        if r { return; }
        no := no + 1;
      }
      return false;
    }

    /** Run the program from node `prog`, within a fuel `n` that decides. */
    method MatchX(prog: nat, ghost n: nat) returns (r: bool)
      requires NulFree(input) && 0 <= inputPtr <= |input| && !Bt(code, input, prog, inputPtr, n).Unknown?
      modifies this`inputPtr
      ensures var v := Bt(code, input, prog, old(inputPtr), n);
              r == v.Yes? && (r ==> inputPtr == v.end)
      decreases n, 0, 1
    {
      ghost var v := Bt(code, input, prog, inputPtr, n);
      ghost var m: nat := n;
      var scan: int := prog;
      while scan != NULL
        invariant m <= n && NULL <= scan && 0 <= inputPtr <= |input| && Bt(code, input, scan, inputPtr, m) == v
        decreases m
      {
        var next := ParseNext(scan);
        var op := code[scan];
        if op == END {
          return true;
        } else if IsUnit(op) {
          var ok := MatchUnit(op, Operand(code, scan + 3));
          if !ok { return false; }
          scan := next;
        } else if IsOpenClose(op) {
          if next == NULL { return false; }
          r := MatchX(next, m - 1);
          return;
        } else if op == BRANCH {
          if !(IsNode(code, next) && code[next] == BRANCH) {
            scan := scan + 3;
          } else {
            r := MatchBranches(scan, m);
            return;
          }
        } else if op == STAR || op == PLUS {
          r := MatchGreedy(scan, next, if op == STAR then 0 else 1, m - 1);
          return;
        } else if op == STARX || op == PLUSX {
          r := MatchLazy(scan, next, if op == STARX then 0 else 1, m - 1);
          return;
        } else {
          return false;
        }
        m := m - 1;
      }
      return false;
    }
  }

  /** `code'` is `code` with an open alternative appended at `ret`. */
  ghost predicate BranchEmitted(code: bytes, code': bytes, ret: int, x: Re) {
    ret == |code| && |code'| == |code| + 3 + Size(x) && SameBytes(code, code', 0, |code|, 0)
    && Fresh(code', ret, BRANCH) && Laid(code', ret + 3, x, NULL)
  }

  /** The nodes that closing a chain visits: its head if it has one (`j` is -1), each BRANCH node,
    the closing node. */
  function BranchAddress(ret: int, base: int, x: Re, ender: int, j: int): int {
    if j < 0 then ret else if j < Count(x) then base + NthBranch(x, j) else if j == Count(x) then ender else NULL
  }

  /** What stands before a chain at `base`: the OPEN node of its group, or nothing. */
  predicate HeadAt(code: bytes, ret: int, paren: bool, parno: nat, base: int) {
    if paren then parno < MAX_SUBX && base == ret + 3 && NodeAt(code, ret, OPEN + parno, base) else ret == base
  }

  lemma HeadUnder(c1: bytes, c2: bytes, ret: int, paren: bool, parno: nat, base: int)
    requires HeadAt(c1, ret, paren, parno, base) && SameBytes(c1, c2, 0, |c1|, 0)
    ensures HeadAt(c2, ret, paren, parno, base)
  {
    if paren { NodeMoved(c1, c2, ret, 0, OPEN + parno, base); }
  }

  lemma HeadKept(c1: bytes, c2: bytes, q: int, e: int, ret: int, paren: bool, parno: nat, base: int)
    requires HeadAt(c1, ret, paren, parno, base) && Relinked(c1, c2, q, e) && base <= q
    ensures HeadAt(c2, ret, paren, parno, base)
  {
    if paren { NodeKept(c1, c2, q, e, ret, OPEN + parno, base); }
  }

  /** The walk from the head of a chain finds its last BRANCH node. */
  lemma HeadWalk(code: bytes, ret: int, paren: bool, parno: nat, base: int, acc: Re, q: int)
    requires HeadAt(code, ret, paren, parno, base) && OkAlts(acc) && 0 <= base
    requires LaidAlts(code, base, acc, NULL, 0, 0) && q == base + LastBranch(acc)
    ensures Walk(code, ret, q) && IsNode(code, q) && code[q] == BRANCH
  {
    ChainWalk(code, base, acc, NULL, 0, 0, q);
    if paren { Hop(code, ret, OPEN + parno, base, q); }
  }

  /** The last BRANCH node linked to the closing node. */
  lemma ChainClosed(c1: bytes, c2: bytes, base: nat, x: Re, ret: nat, paren: bool, parno: nat, op: byte, ender: int,
                    q: int)
    requires OkAlts(x) && LaidAlts(c1, base, x, NULL, 0, 0) && base + SizeAlts(x) == ender && ender + 3 <= |c1|
    requires HeadAt(c1, ret, paren, parno, base) && Fresh(c1, ender, op) && ret <= base
    requires q == base + LastBranch(x) && q + 3 <= ender && Relinked(c1, c2, q, ender)
    ensures LaidAlts(c2, base, x, ender, ender, 0) && HeadAt(c2, ret, paren, parno, base)
    ensures Fresh(c2, ender, op) && SameBytes(c1, c2, 0, ret, 0)
  {
    ChainPatched(c1, c2, base, x, 0, 0, ender);
    NonePatched(c2, base, x, ender, 0, ender);
    HeadKept(c1, c2, q, ender, ret, paren, parno, base);
    FreshKept(c1, c2, q, ender, ender, op);
    Outside(c1, c2, q, ender, 0, ret);
  }

  lemma NodeUnder(c1: bytes, c2: bytes, a: int, op: byte)
    requires Fresh(c1, a, op) && SameBytes(c1, c2, 0, |c1|, 0)
    ensures Fresh(c2, a, op)
  {
    assert Byte(a) && Byte(a + 1) && Byte(a + 2);
  }

  /** `code'` is `code` with the program of `x` appended: its alternatives, then END. */
  ghost predicate ProgramEmitted(code: bytes, code': bytes, ret: int, x: Re) {
    var e := |code| + SizeAlts(x);
    ret == |code| && |code'| == e + 3 && SameBytes(code, code', 0, |code|, 0) && IsProgram(code', ret, x)
  }

  lemma BeforeLink(c: bytes, base: int, x: Re, ender: int, m: nat, br: int, q: int)
    requires OkAlts(x) && 0 <= base && m < Count(x) && LaidAlts(c, base, x, ender, ender, m)
    requires br == base + NthBranch(x, m) && q == br + 3 + Tail(NthOperand(x, m)) && ender == base + SizeAlts(x)
    ensures IsNode(c, br) && c[br] == BRANCH && IsNode(c, q) && c[q] != BACK && Walk(c, br + 3, q) && q < ender
  {
    NthNode(c, base, x, ender, ender, m, m);
    NthInside(x, m);
    OpenEndAt(c, br + 3, NthOperand(x, m), q);
  }

  lemma OpenEndAt(c: bytes, a: int, y: Re, q: int)
    requires Ok(y) && Laid(c, a, y, NULL) && 0 <= a && q == a + Tail(y)
    ensures IsNode(c, q) && c[q] != BACK && Walk(c, a, q) && q + 3 <= a + Size(y)
  {
    OpenEnd(c, a, y);
  }

  /** The pieces of a branch stand at `a`, up to the end of the code; the last one is at `chain`. */
  ghost predicate PiecesAt(code: bytes, a: int, acc: Re, chain: int) {
    if acc.Empty? then chain == NULL && |code| == a
    else chain == a + LastPiece(acc) && |code| == a + Size(acc) && Laid(code, a, acc, NULL)
  }

  /** The alternatives stand behind the head, and the flags are theirs. */
  ghost predicate BranchesAt(c0: bytes, code: bytes, ret: int, paren: bool, parno: nat, base: int, acc: Re,
                             width: bool, spstart: bool) {
    && OkAlts(acc) && AltsAt(code, base, acc) && HeadAt(code, ret, paren, parno, base)
    && SameBytes(c0, code, 0, ret, 0) && width == Wide(acc) && spstart == SpStart(acc)
  }

  /** The alternatives stand at `base`, up to the end of the code. */
  ghost predicate AltsAt(code: bytes, base: int, acc: Re) {
    |code| == base + SizeAlts(acc) && |code| < LIMIT && LaidAlts(code, base, acc, NULL, 0, 0)
  }

  lemma AfterLink(c: bytes, c': bytes, ret: int, paren: bool, parno: nat, base: int, x: Re, ender: int, op: byte,
                  m: nat, br: int, q: int)
    requires OkAlts(x) && HeadAt(c, ret, paren, parno, base) && 0 <= ret && 0 <= base && m < Count(x)
    requires ender == base + SizeAlts(x) && |c| == ender + 3 && Fresh(c, ender, op)
    requires LaidAlts(c, base, x, ender, ender, m) && br == base + NthBranch(x, m)
    requires q == br + 3 + Tail(NthOperand(x, m)) && Relinked(c, c', q, ender)
    ensures HeadAt(c', ret, paren, parno, base) && Fresh(c', ender, op) && SameBytes(c, c', 0, ret, 0)
    ensures LaidAlts(c', base, x, ender, ender, m + 1)
    ensures NodeAt(c', br, BRANCH, if m + 1 < Count(x) then base + NthBranch(x, m + 1) else ender)
  {
    NthInside(x, m);
    TailInside(NthOperand(x, m));
    HeadKept(c, c', q, ender, ret, paren, parno, base);
    FreshKept(c, c', q, ender, ender, op);
    Outside(c, c', q, ender, 0, ret);
    LinkedChain(c, c', base, x, ender, m, br, q);
  }

  lemma LinkedChain(c: bytes, c': bytes, base: int, x: Re, ender: int, m: nat, br: int, q: int)
    requires OkAlts(x) && 0 <= base && m < Count(x) && base + SizeAlts(x) <= |c| && 0 <= ender
    requires LaidAlts(c, base, x, ender, ender, m) && br == base + NthBranch(x, m)
    requires q == br + 3 + Tail(NthOperand(x, m)) && Relinked(c, c', q, ender)
    ensures LaidAlts(c', base, x, ender, ender, m + 1)
    ensures NodeAt(c', br, BRANCH, if m + 1 < Count(x) then base + NthBranch(x, m + 1) else ender)
  {
    OperandPatched(c, c', base, x, ender, ender, m, q);
    NthNode(c', base, x, ender, ender, m + 1, m);
  }

  lemma LongestStep(best: bytes, lit: bytes, rest: seq<bytes>)
    requires rest != [] && rest[0] == lit
    ensures Longest(best, rest) == Longest(if |lit| >= |best| then lit else best, rest[1..])
  {
  }

  /** The first node of a program, and what it says about alternatives. */
  lemma ProgramStart(code: bytes, x: Re)
    requires OkAlts(x) && IsProgram(code, 1, x)
    ensures var e := 1 + SizeAlts(x);
            IsNode(code, 1) && 0 <= Next(code, 1) < |code| && (code[Next(code, 1)] == END <==> !x.Alt?)
            && Passed(code, e) == [] && Walk(code, e, e) && (!x.Alt? ==> Laid(code, 4, x, e) && Walk(code, 4, e))
  {
    var e := 1 + SizeAlts(x);
    NthNode(code, 1, x, e, e, Count(x), 0);
    FirstBranch(x);
    if x.Alt? {
      NthNode(code, 1, x, e, e, Count(x), 1);
    } else {
      FragWalk(code, 4, x, e, e);
    }
  }

  /** The bytes from `src` on have moved up by three places. */
  predicate Shifting(was: bytes, code: bytes, src: nat) {
    && src <= |was| && |code| == |was| + 3
    && (forall k :: 0 <= k < src ==> code[k] == was[k])
    && (forall k :: src + 3 <= k < |code| ==> code[k] == was[k - 3])
  }

  lemma ShiftingEnds(was: bytes, code: bytes, a: nat, op: byte)
    requires Shifting(was, code, a)
    ensures Inserted(was, code[a := op][a + 1 := 0][a + 2 := 0], a, op)
  {
  }

  lemma GroupEmitted(c0: bytes, c1: bytes, c2: bytes, parno: nat, x: Re)
    requires OkAlts(x) && parno < MAX_SUBX && SameBytes(c0, c1, 0, |c0|, 0) && SameBytes(c1, c2, 0, |c0|, 0)
    requires |c2| == |c0| + 6 + SizeAlts(x) && HeadAt(c2, |c0|, true, parno, |c0| + 3)
    requires var e := |c0| + 3 + SizeAlts(x); LaidAlts(c2, |c0| + 3, x, e, e, Count(x)) && Fresh(c2, e, CLOSE + parno)
    ensures Emitted(c0, c2, |c0|, Group(parno, x))
  {
    var a, e := |c0|, |c0| + 3 + SizeAlts(x);
    GroupLaid(c2, a, parno, x, NULL, e);
  }

  lemma AfterEmitted(c1: bytes, c2: bytes, ret: int, at: int, x: Re)
    requires Emitted(c1, c2, at, x) && Fresh(c1, ret, BRANCH)
    ensures Fresh(c2, ret, BRANCH)
  {
    assert Byte(ret) && Byte(ret + 1) && Byte(ret + 2);
  }

  lemma Kept(c1: bytes, c2: bytes, a: int, acc: Re)
    requires SameBytes(c1, c2, 0, |c1|, 0) && Ok(acc) && Laid(c1, a, acc, NULL) && 0 <= a && a + Size(acc) <= |c1|
    ensures Laid(c2, a, acc, NULL)
  {
    Moved(c1, c2, a, 0, acc, NULL);
  }

  lemma Chained(c0: bytes, c1: bytes, c2: bytes, ret: int, x: Re, y: Re)
    requires Emitted(c0, c1, ret, x) && SameBytes(c1, c2, 0, ret, 0)
    requires |c2| == ret + Size(y) && Laid(c2, ret, y, NULL)
    ensures Emitted(c0, c2, ret, y)
  {
  }
}
