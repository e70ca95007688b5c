/** The texts that the interpreter and the compiler read alike. */
module MacroSides {
  import opened Bytes
  import opened Options
  import opened Macro

  /** No percent sign starts a name that ends neither in '(' nor in '%', or one that is not bound
    and has arguments. */
  ghost predicate Common(env: Env, s: bytes) {
    forall i :: 0 <= i < |s| && s[i] == PCT ==> CommonAt(env, s, i + 1)
  }

  ghost predicate CommonAt(env: Env, s: bytes, i: nat)
    requires i <= |s|
  {
    IsSymFirst(Peek(s, i)) ==>
      var j := SkipName(s, i + 1);
      Peek(s, j) == PCT || (Peek(s, j) == LP && env.find(s[i..j]).Bound?)
  }

  /** What follows a percent sign of such a text is read alike. */
  lemma {:induction false} FuncAlike(env: Env, s: bytes, i: nat)
    requires Common(env, s) && 0 < i <= |s| && s[i - 1] == PCT
    ensures ScanFunc(Interpreter, env, s, i) == ScanFunc(Compiler, env, s, i)
    decreases |s| - i, 0
  {
    assert CommonAt(env, s, i);
    if IsSymFirst(Peek(s, i)) {
      var j := SkipName(s, i + 1);
      if Peek(s, j) == LP {
        ArgsAlike(env, s, j + 1, FirstMode(QuoteMap(env, s[i..j])), []);
      }
    }
  }

  lemma {:induction false} ArgsAlike(env: Env, s: bytes, i: nat, q: QMode, acc: seq<ArgText>)
    requires Common(env, s) && i <= |s|
    ensures ScanArgs(Interpreter, env, s, i, q, acc) == ScanArgs(Compiler, env, s, i, q, acc)
    decreases |s| - i, 6
  {
    OneAlike(env, s, i, q.mode);
    var one := NextArg(Compiler, env, s, i, q.mode);
    if one.more {
      ArgsAlike(env, s, one.next, NextMode(q), acc + [one.arg]);
    }
  }

  lemma {:induction false} OneAlike(env: Env, s: bytes, i: nat, mode: byte)
    requires Common(env, s) && i <= |s|
    ensures NextArg(Interpreter, env, s, i, mode) == NextArg(Compiler, env, s, i, mode)
    decreases |s| - i, 5
  {
    var i1 := SkipSpace(s, i);
    var quot := Peek(s, i1) == SQ;
    var j := if quot then i1 + 1 else i1;
    if mode != ONE && !quot {
      StartAlike(env, s, After(s, j), Peek(s, j));
    }
  }

  lemma {:induction false} StartAlike(env: Env, s: bytes, i: nat, c: byte)
    requires Common(env, s) && i <= |s|
    requires c == PCT ==> 0 < i && s[i - 1] == PCT
    ensures StartArg(Interpreter, env, s, i, c) == StartArg(Compiler, env, s, i, c)
    decreases |s| - i, 3
  {
    if c == DQ || c == LC {
      ArgAlike(env, s, After(s, i), Peek(s, i), StartState(c), []);
    } else {
      ArgAlike(env, s, i, c, StartState(c), []);
    }
  }

  lemma {:induction false} ArgAlike(env: Env, s: bytes, i: nat, c: byte, m: ArgState, acc: seq<Item>)
    requires Common(env, s) && i <= |s| && m.numsp <= |acc|
    requires c == PCT ==> 0 < i && s[i - 1] == PCT
    ensures ScanArg(Interpreter, env, s, i, c, m, acc) == ScanArg(Compiler, env, s, i, c, m, acc)
    decreases |s| - i, 2
  {
    if c == ESC {
      var e := Peek(s, i);
      MoreAlike(env, s, After(s, i), m.(numsp := 0), if e == EOF then acc else acc + [Ch(e)]);
    } else if c == PCT {
      FuncAlike(env, s, i);
      var f := ScanFunc(Compiler, env, s, i);
      MoreAlike(env, s, f.next, m.(numsp := 0), acc + f.items);
    } else {
      var (m', act) := Step(m, c);
      if act.Keep? {
        MoreAlike(env, s, i, m', acc + [Ch(c)]);
      } else if act.Drop? {
        MoreAlike(env, s, i, m', acc);
      }
    }
  }

  lemma {:induction false} MoreAlike(env: Env, s: bytes, i: nat, m: ArgState, acc: seq<Item>)
    requires Common(env, s) && i <= |s| && m.numsp <= |acc|
    ensures MoreArg(Interpreter, env, s, i, m, acc) == MoreArg(Compiler, env, s, i, m, acc)
    decreases |s| - i, 1
  {
    if Peek(s, i) != EOF {
      ArgAlike(env, s, i + 1, s[i], m, acc);
    }
  }

  /** A whole text is read alike. */
  lemma {:induction false} TextAlike(env: Env, s: bytes, i: nat, acc: seq<Item>)
    requires Common(env, s) && i <= |s|
    ensures ScanText(Interpreter, env, s, i, acc) == ScanText(Compiler, env, s, i, acc)
    decreases |s| - i
  {
    var c := Peek(s, i);
    if c == PCT {
      FuncAlike(env, s, i + 1);
      var f := ScanFunc(Compiler, env, s, i + 1);
      TextAlike(env, s, f.next, acc + f.items);
    } else if c != EOF {
      TextAlike(env, s, i + 1, acc + [Ch(c)]);
    }
  }
}
