/** The macro interpreter: reads a text character by character, writes its output and makes
  the calls as it meets them. */
module MacroInterp {
  import opened Bytes
  import opened Options
  import opened Macro

  /** An input stream over a text held in memory. */
  class Reader {
    const s: bytes
    var pos: nat

    ghost predicate Valid() reads this { pos <= |s| }

    /** What is still to be read. */
    ghost function Rest(): bytes
      requires Valid()
      reads this
    {
      s[pos..]
    }

    constructor (s: bytes)
      ensures this.s == s && pos == 0 && Valid() && Rest() == s
    {
      this.s := s;
      pos := 0;
    }

    method GetC() returns (c: byte)
      requires Valid()
      modifies this
      ensures Valid() && c == Peek(s, old(pos)) && pos == After(s, old(pos))
    {
      if pos < |s| {
        c := s[pos];
        pos := pos + 1;
      } else {
        c := EOF;
      }
    }

    /** Un-read one character; refused at the start or for another character. */
    method UngetC(c: byte) returns (ok: bool)
      requires Valid()
      modifies this
      ensures Valid()
      ensures ok <==> old(pos) > 0 && s[old(pos) - 1] == c
      ensures pos == if ok then old(pos) - 1 else old(pos)
    {
      if pos > 0 && c == s[pos - 1] {
        pos := pos - 1;
        return true;
      }
      return false;
    }

    /** Read up to `n` bytes. */
    method GetS(n: nat) returns (b: bytes)
      requires Valid()
      modifies this
      ensures Valid() && pos == old(pos) + |b|
      ensures old(Rest()) == b + Rest() && (|b| == n || (|b| < n && Rest() == []))
    {
      var e := if pos + n <= |s| then pos + n else |s|;
      b := s[pos..e];
      pos := e;
    }

    /** Read past white space and give the character after it. */
    method GetNonSpace() returns (c: byte)
      requires Valid()
      modifies this
      ensures Valid() && c == Peek(s, SkipSpace(s, old(pos)))
      ensures pos == After(s, SkipSpace(s, old(pos)))
    {
      c := GetC();
      while IsSpace(c)
        invariant Valid() && pos >= old(pos)
        invariant IsSpace(c) ==> pos > old(pos) && c == s[pos - 1]
        invariant IsSpace(c) ==> SkipSpace(s, old(pos)) == SkipSpace(s, pos)
        invariant !IsSpace(c) ==>
          c == Peek(s, SkipSpace(s, old(pos))) && pos == After(s, SkipSpace(s, old(pos)))
        decreases |s| - pos, IsSpace(c)
      {
        c := GetC();
      }
    }
  }


  lemma PrefixedTwice(a: bytes, b: bytes, r: RawScan)
    ensures Prefixed(a, Prefixed(b, r)) == Prefixed(a + b, r)
  {
    assert (a + b) + r.text == a + (b + r.text);
  }

  lemma ParensOpen(s: bytes, i: nat, depth: nat)
    requires i <= |s|
    ensures ScanParens(s, i, LP, depth) == Prefixed([LP], ParenText(s, i, depth + 1))
  {
    var j := SkipSpace(s, i);
    if j == |s| {
      assert MoreParens(s, j, depth + 1, [EOF]) == RawScan([EOF], j, false);
      assert ScanParens(s, j, EOF, depth + 1) == RawScan([EOF], j, false);
    }
  }

  lemma ParensStep(out: bytes, s: bytes, i: nat, depth: nat, t: bytes)
    requires i <= |s|
    ensures Prefixed(out, MoreParens(s, i, depth, t))
         == if Peek(s, i) == EOF then RawScan(out + t, After(s, i), false)
            else Prefixed(out + t, ScanParens(s, i + 1, s[i], depth))
  {
    if Peek(s, i) != EOF {
      PrefixedTwice(out, t, ScanParens(s, i + 1, s[i], depth));
    }
  }

  /** `ParseArgsLPar`: copy text up to the parenthesis closing one already read. Returns that
    parenthesis, or EOF. */
  method ParseArgsLPar(inp: Reader, out: bytes) returns (c: byte, out': bytes)
    requires inp.Valid()
    modifies inp
    ensures inp.Valid() && inp.pos >= old(inp.pos)
    ensures var r := ParenText(inp.s, old(inp.pos), 0);
      inp.pos == r.next && out' == out + r.text && c == if r.more then RP else EOF
  {
    ghost var whole := Prefixed(out, ParenText(inp.s, inp.pos, 0));
    var lpc: nat := 0;
    out' := out;
    while true
      invariant inp.Valid() && inp.pos >= old(inp.pos)
      invariant Prefixed(out', ParenText(inp.s, inp.pos, lpc)) == whole
      decreases |inp.s| - inp.pos
    {
      ghost var top := inp.pos;
      c := inp.GetNonSpace();
      while true
        invariant inp.Valid() && inp.pos >= top && (inp.pos == top ==> c == EOF)
        invariant Prefixed(out', ScanParens(inp.s, inp.pos, c, lpc)) == whole
        decreases |inp.s| - inp.pos
      {
        if c == LP {
          ParensOpen(inp.s, inp.pos, lpc);
          PrefixedTwice(out', [LP], ParenText(inp.s, inp.pos, lpc + 1));
          lpc := lpc + 1;
          out' := out' + [c];
          break;
        } else if c == RP && lpc == 0 {
          out' := out' + [c];
          return;
        }
        out', lpc := ParensChar(inp, out', c, lpc);
        c := inp.GetC();
        if c == EOF { return; }
      }
    }
  }

  /** A character that opens nothing and does not end the text, with the one an escape protects. */
  method ParensChar(inp: Reader, out: bytes, c: byte, lpc: nat) returns (out': bytes, lpc': nat)
    requires inp.Valid() && c != LP && (c == RP ==> lpc > 0)
    modifies inp
    ensures inp.Valid() && inp.pos >= old(inp.pos)
    ensures Prefixed(out, ScanParens(inp.s, old(inp.pos), c, lpc))
         == if Peek(inp.s, inp.pos) == EOF then RawScan(out', After(inp.s, inp.pos), false)
            else Prefixed(out', ScanParens(inp.s, inp.pos + 1, inp.s[inp.pos], lpc'))
  {
    out', lpc' := out + [c], lpc;
    if c == ESC {
      var d := inp.GetC();
      out' := out' + [d];
      assert out' == out + [ESC, d];
    } else if c == RP {
      lpc' := lpc - 1;
    }
    ParensStep(out, inp.s, inp.pos, lpc', out'[|out|..]);
  }

  /** `ParseArgEscaped`: copy a quoted run up to the character `eq`; returns it, or EOF. */
  method ParseArgEscaped(inp: Reader, cur: bytes, eq: byte) returns (c: byte, cur': bytes)
    requires inp.Valid() && eq != EOF
    modifies inp
    ensures inp.Valid() && inp.pos >= old(inp.pos)
    ensures var r := ScanQuoted(inp.s, old(inp.pos), eq, false);
      inp.pos == r.next && cur' == cur + r.text && (c == EOF <==> !r.more)
  {
    ghost var whole := Prefixed(cur, ScanQuoted(inp.s, inp.pos, eq, false));
    var pct := false;
    cur' := cur;
    while true
      invariant inp.Valid() && inp.pos >= old(inp.pos)
      invariant Prefixed(cur', ScanQuoted(inp.s, inp.pos, eq, pct)) == whole
      decreases |inp.s| - inp.pos
    {
      ghost var start, i := cur', inp.pos;
      c := inp.GetC();
      if c == EOF { return; }
      if c == ESC {
        c := inp.GetC();
        if c != EOF {
          cur' := cur' + [c];
        }
      } else if c == PCT {
        pct := !pct;
        cur' := cur' + [c];
      } else if c == eq {
        return;
      } else if c == LP && pct {
        cur' := cur' + [c];
        c, cur' := ParseArgsLPar(inp, cur');
        assert cur' == start + ([LP] + ParenText(inp.s, i + 1, 0).text);
        if c == EOF { return; }
        pct := false;
      } else {
        cur' := cur' + [c];
      }
      assert cur' == start + cur'[|start|..];
      PrefixedTwice(start, cur'[|start|..], ScanQuoted(inp.s, inp.pos, eq, pct));
    }
  }

  /** `RTrim` of the string class. */
  method TrimRight(t: bytes) returns (r: bytes)
    ensures r == RTrim(t)
  {
    var p := |t|;
    assert t[..p] == t;
    while p > 0 && IsSpace(t[p - 1])
      invariant 0 <= p <= |t| && RTrim(t[..p]) == RTrim(t)
    {
      assert t[..p][..p - 1] == t[..p - 1];
      p := p - 1;
    }
    r := t[..p];
  }

  lemma BareStep(out: bytes, s: bytes, i: nat, t: bytes)
    requires i <= |s|
    ensures Prefixed(out, MoreBare(s, i, t))
         == if Peek(s, i) == EOF then RawScan(out + t, After(s, i), false)
            else Prefixed(out + t, ScanBare(s, i + 1, s[i]))
  {
    if Peek(s, i) != EOF {
      PrefixedTwice(out, t, ScanBare(s, i + 1, s[i]));
    }
  }

  /** The main loop of `ParseArgQuoted`: the rest of a raw argument whose next character is `c`. */
  method ParseBare(inp: Reader, cur: bytes, c: byte) returns (more: bool, cur': bytes)
    requires inp.Valid()
    modifies inp
    ensures inp.Valid() && inp.pos >= old(inp.pos)
    ensures Prefixed(cur, ScanBare(inp.s, old(inp.pos), c)) == RawScan(cur', inp.pos, more)
  {
    ghost var whole := Prefixed(cur, ScanBare(inp.s, inp.pos, c));
    var c, d := c, EOF;
    cur' := cur;
    while true
      invariant inp.Valid() && inp.pos >= old(inp.pos)
      invariant Prefixed(cur', ScanBare(inp.s, inp.pos, c)) == whole
      decreases |inp.s| - inp.pos
    {
      ghost var start, i, t := cur', inp.pos, [];
      if c == ESC {
        c := inp.GetC();
        if c != EOF {
          cur' := cur' + [c];
          t := [c];
        }
      } else if c == COMMA {
        return true, cur';
      } else if c == LP {
        cur' := cur' + [c];
        d, cur' := ParseArgsLPar(inp, cur');
        t := [LP] + ParenText(inp.s, i, 0).text;
        assert cur' == start + t;
        if d == EOF { return false, cur'; }
      } else if c == RP {
        return false, cur';
      } else {
        cur' := cur' + [c];
        t := [c];
      }
      assert cur' == start + t;
      BareStep(start, inp.s, inp.pos, t);
      c := inp.GetC();
      if c == EOF { return false, cur'; }
    }
  }

  /** `ParseArgQuoted`: read a raw argument whose first character is `c`. */
  method ParseArgQuoted(inp: Reader, c: byte) returns (more: bool, cur: bytes)
    requires inp.Valid()
    modifies inp
    ensures inp.Valid() && inp.pos >= old(inp.pos)
    ensures ScanRaw(inp.s, old(inp.pos), c) == RawScan(cur, inp.pos, more)
  {
    var c, trim := c, true;
    cur := [];
    if c == DQ || c == LC {
      var d;
      d, cur := ParseArgEscaped(inp, cur, if c == DQ then DQ else RC);
      if d == EOF { return false, cur; }
      c := inp.GetNonSpace();
      trim := false;
    }
    ghost var text := cur;
    ghost var b := ScanBare(inp.s, inp.pos, c);
    assert trim ==> Prefixed(text, b) == b;
    more, cur := ParseBare(inp, cur, c);
    if trim { cur := TrimRight(cur); }
  }

  /** What a scanned text does from a given output and history on. */
  function Done(env: Env, out: bytes, items: seq<Item>, log: seq<Call>): Outcome {
    var e := EvalItems(env, items, log);
    Outcome(out + e.text, e.log)
  }

  lemma DoneConcat(env: Env, out: bytes, xs: seq<Item>, ys: seq<Item>, log: seq<Call>)
    ensures var a := Done(env, out, xs, log); Done(env, out, xs + ys, log) == Done(env, a.text, ys, a.log)
  {
    EvalConcat(env, xs, ys, log);
    var a := EvalItems(env, xs, log);
    var b := EvalItems(env, ys, a.log);
    assert out + (a.text + b.text) == (out + a.text) + b.text;
  }

  lemma DoneEmpty(env: Env, xs: seq<Item>, log: seq<Call>)
    ensures Done(env, [], xs, log) == EvalItems(env, xs, log)
  {
    assert [] + EvalItems(env, xs, log).text == EvalItems(env, xs, log).text;
  }

  lemma DoneText(env: Env, out: bytes, t: bytes, log: seq<Call>)
    ensures Done(env, out, Chars(t), log) == Outcome(out + t, log)
  {
    EvalChars(env, t, log);
  }

  lemma DoneChar(env: Env, out: bytes, xs: seq<Item>, c: byte, log: seq<Call>)
    ensures var a := Done(env, out, xs, log);
      Done(env, out, xs + [Ch(c)], log) == Outcome(a.text + [c], a.log)
  {
    DoneConcat(env, out, xs, [Ch(c)], log);
    EvalOne(env, Ch(c), Done(env, out, xs, log).log);
  }

  /** Dropping trailing characters of a scanned text drops them from its output. */
  lemma EvalTrim(env: Env, xs: seq<Item>, k: nat, log: seq<Call>)
    requires Spaces(xs, k)
    ensures var a := EvalItems(env, xs, log); var b := EvalItems(env, xs[..|xs| - k], log);
      k <= |a.text| && b.text == a.text[..|a.text| - k] && b.log == a.log
  {
    var n := |xs| - k;
    var t := seq(k, j requires 0 <= j < k => xs[n + j].c);
    assert xs[n..] == Chars(t);
    assert xs == xs[..n] + xs[n..];
    EvalConcat(env, xs[..n], xs[n..], log);
    EvalChars(env, t, EvalItems(env, xs[..n], log).log);
  }

  lemma CallDone(env: Env, name: bytes, args: seq<ArgText>, out: bytes, log: seq<Call>)
    requires env.find(name).Bound?
    ensures var a := EvalArgs(env, args, log);
      var call := Call(name, Some(a.args));
      Done(env, out, [Fn(name, args)], log) == Outcome(out + env.eval(a.log, call), a.log + [call])
  {
    EvalOne(env, Fn(name, args), log);
  }

  /** The interpreter. `log` records the calls made so far. */
  class Ctx {
    const env: Env
    var log: seq<Call>

    constructor (env: Env)
      ensures this.env == env && log == []
    {
      this.env := env;
      log := [];
    }

    /** `Eval` of the function bound to `name`: it writes what the environment says. */
    method Eval(name: bytes, args: Option<seq<Arg>>, out: bytes) returns (out': bytes)
      modifies this
      ensures out' == out + env.eval(old(log), Call(name, args))
      ensures log == old(log) + [Call(name, args)]
    {
      out' := out + env.eval(log, Call(name, args));
      log := log + [Call(name, args)];
    }

    /** `ParseC`. */
    method ParseC(inp: Reader, out: bytes, c: byte) returns (out': bytes)
      requires inp.Valid()
      modifies this, inp
      ensures inp.Valid() && inp.pos >= old(inp.pos)
      ensures c != PCT ==> out' == out + [c] && log == old(log) && inp.pos == old(inp.pos)
      ensures c == PCT ==> Follows(ScanFunc(Interpreter, env, inp.s, old(inp.pos)), out, old(log), inp, out')
      decreases |inp.s| - inp.pos, 1
    {
      if c == PCT {
        out' := ParseFunc(inp, out);
      } else {
        out' := out + [c];
      }
    }

    /** A method has read all of a scan, and written and called what it says. */
    ghost predicate Follows(r: Scan, out: bytes, log0: seq<Call>, inp: Reader, out': bytes)
      reads this, inp
    {
      inp.pos == r.next && Outcome(out', log) == Done(env, out, r.items, log0)
    }

    /** `Parse`: interpret a whole text. */
    method Parse(inp: Reader, out: bytes) returns (out': bytes)
      requires inp.Valid()
      modifies this, inp
      ensures inp.Valid() && inp.pos >= old(inp.pos)
      ensures Follows(ScanText(Interpreter, env, inp.s, old(inp.pos), []), out, old(log), inp, out')
    {
      ghost var acc: seq<Item> := [];
      ghost var whole := ScanText(Interpreter, env, inp.s, inp.pos, []);
      out' := out;
      assert Done(env, out, [], log).text == out;
      while true
        invariant inp.Valid() && inp.pos >= old(inp.pos)
        invariant ScanText(Interpreter, env, inp.s, inp.pos, acc) == whole
        invariant Outcome(out', log) == Done(env, out, acc, old(log))
        decreases |inp.s| - inp.pos
      {
        ghost var i := inp.pos;
        var c := inp.GetC();
        if c == EOF { return; }
        out' := ParseC(inp, out', c);
        if c == PCT {
          ghost var r := ScanFunc(Interpreter, env, inp.s, i + 1);
          DoneConcat(env, out, acc, r.items, old(log));
          acc := acc + r.items;
        } else {
          DoneChar(env, out, acc, c, old(log));
          acc := acc + [Ch(c)];
        }
      }
    }

    /** `ParseFunc`: interpret what follows a percent sign. */
    method ParseFunc(inp: Reader, out: bytes) returns (out': bytes)
      requires inp.Valid()
      modifies this, inp
      ensures inp.Valid() && inp.pos >= old(inp.pos)
      ensures Follows(ScanFunc(Interpreter, env, inp.s, old(inp.pos)), out, old(log), inp, out')
      decreases |inp.s| - inp.pos, 0
    {
      ghost var i := inp.pos;
      var c := inp.GetC();
      if IsSymFirst(c) {
        out' := ParseCall(inp, out, c, i);
      } else {
        out' := out + [PCT];
        EvalOne(env, Ch(PCT), log);
        if c != EOF && c != PCT {
          if c == RP || c == COMMA || c == LP || c == DQ {
            var ok := inp.UngetC(c);
          } else {
            out' := out' + [c];
            DoneConcat(env, out, [Ch(PCT)], [Ch(c)], log);
            EvalOne(env, Ch(c), log);
            assert [Ch(PCT)] + [Ch(c)] == [Ch(PCT), Ch(c)];
          }
        }
      }
    }

    /** The part of `ParseFunc` that reads a name, its first character being `c`. */
    method ParseCall(inp: Reader, out: bytes, c: byte, ghost i: nat) returns (out': bytes)
      requires inp.Valid() && inp.pos == i + 1 && inp.s[i] == c && IsSymFirst(c)
      modifies this, inp
      ensures inp.Valid() && inp.pos >= old(inp.pos)
      ensures Follows(ScanFunc(Interpreter, env, inp.s, i), out, old(log), inp, out')
      decreases |inp.s| - inp.pos, 0
    {
      var name, c := [c], c;
      while true
        invariant inp.Valid() && i < inp.pos && name == inp.s[i..inp.pos]
        invariant SkipName(inp.s, i + 1) == SkipName(inp.s, inp.pos)
        invariant log == old(log)
        decreases |inp.s| - inp.pos
      {
        c := inp.GetC();
        if c == EOF { break; }
        if c == LP {
          match env.find(name)
          case Bound(qmap) =>
            out' := CallBound(inp, out, name, qmap);
            return;
          case Unbound =>
            out' := PrintUnbound(inp, out, name);
            return;
        } else if c == PCT {
          if env.find(name).Bound? {
            out' := Eval(name, None, out);
            EvalOne(env, Ref(name), old(log));
            return;
          } else {
            break;
          }
        } else if IsSym(c) {
          name := name + [c];
        } else {
          break;
        }
      }
      out' := out + [PCT] + name;
      if c != EOF {
        out' := out' + [c];
      }
      BrokenOff(out, name, c, out');
    }

    /** What is printed of a name that calls nothing. */
    lemma BrokenOff(out: bytes, name: bytes, c: byte, out': bytes)
      requires out' == if c != EOF then out + [PCT] + name + [c] else out + [PCT] + name
      ensures c != PCT ==> Done(env, out, Chars([PCT] + name + Given(c)), log) == Outcome(out', log)
      ensures c == PCT && env.find(name).Unbound? ==> Done(env, out, [Ref(name)], log) == Outcome(out', log)
    {
      assert out' == out + ([PCT] + name + Given(c));
      if c == PCT {
        EvalOne(env, Ref(name), log);
      } else {
        DoneText(env, out, [PCT] + name + Given(c), log);
      }
    }

    /** The name and the arguments of a call that nothing is bound to. */
    method PrintUnbound(inp: Reader, out: bytes, name: bytes) returns (out': bytes)
      requires inp.Valid()
      modifies inp
      ensures inp.Valid() && inp.pos >= old(inp.pos)
      ensures var p := ParenText(inp.s, old(inp.pos), 0);
        && inp.pos == p.next
        && Done(env, out, Chars([PCT] + name + [LP] + p.text), log) == Outcome(out', log)
    {
      ghost var p := ParenText(inp.s, inp.pos, 0);
      out' := out + [PCT] + name + [LP];
      var c;
      c, out' := ParseArgsLPar(inp, out');
      assert out' == out + ([PCT] + name + [LP] + p.text);
      DoneText(env, out, [PCT] + name + [LP] + p.text, log);
    }

    /** The part of `ParseFunc` that reads the arguments of a bound name and makes the call. */
    method CallBound(inp: Reader, out: bytes, name: bytes, qmap: Option<bytes>) returns (out': bytes)
      requires inp.Valid() && env.find(name) == Bound(qmap)
      modifies this, inp
      ensures inp.Valid() && inp.pos >= old(inp.pos)
      ensures Follows(CallScan(Interpreter, env, inp.s, old(inp.pos), name), out, old(log), inp, out')
      decreases |inp.s| - inp.pos, 7
    {
      ghost var r := ScanArgs(Interpreter, env, inp.s, inp.pos, FirstMode(qmap), []);
      var args;
      if qmap.Some? {
        args := ParseArgsQmap(inp, qmap.value);
      } else {
        args := ParseArgs(inp);
      }
      out' := Eval(name, Some(args), out);
      CallDone(env, name, r.args, out, old(log));
    }

    /** One round of the argument loops: skip white space, note a quote mark, and read an
      argument raw or live. `more` tells that another one follows. */
    method ParseNext(inp: Reader, qmode: byte) returns (arg: Arg, more: bool)
      requires inp.Valid()
      modifies this, inp
      ensures inp.Valid() && inp.pos >= old(inp.pos) && (more ==> inp.pos > old(inp.pos))
      ensures FollowsNext(NextArg(Interpreter, env, inp.s, old(inp.pos), qmode), old(log), inp, arg, more)
      decreases |inp.s| - inp.pos, 5
    {
      var c := inp.GetNonSpace();
      var quot, cur := false, [];
      if c == SQ {
        quot := true;
        c := inp.GetC();
      }
      if qmode == ONE || quot {
        more, cur := ParseArgQuoted(inp, c);
      } else {
        more, cur := ParseArg(inp, c);
      }
      return Arg(cur, quot), more && c != EOF;
    }

    /** `ParseArgs`: the arguments of a function without a quote map. */
    method ParseArgs(inp: Reader) returns (args: seq<Arg>)
      requires inp.Valid()
      modifies this, inp
      ensures inp.Valid() && inp.pos >= old(inp.pos)
      ensures FollowsArgs(ScanArgs(Interpreter, env, inp.s, old(inp.pos), FirstMode(None), []), old(log), inp, args)
      decreases |inp.s| - inp.pos, 6
    {
      ghost var whole := ScanArgs(Interpreter, env, inp.s, inp.pos, FirstMode(None), []);
      ghost var acc: seq<ArgText> := [];
      var more := true;
      args := [];
      while more
        invariant inp.Valid() && inp.pos >= old(inp.pos)
        invariant ArgsSoFar(whole, FirstMode(None), acc, old(log), inp, args, more)
        decreases |inp.s| - inp.pos, more
      {
        ghost var one := NextArg(Interpreter, env, inp.s, inp.pos, ZERO);
        var arg;
        arg, more := ParseNext(inp, ZERO);
        args := args + [arg];
        EvalArgsSnoc(env, acc, one.arg, old(log));
        acc := acc + [one.arg];
      }
    }

    /** `ParseArgsQmap`: the arguments of a function with a quote map. */
    method ParseArgsQmap(inp: Reader, qmap: bytes) returns (args: seq<Arg>)
      requires inp.Valid()
      modifies this, inp
      ensures inp.Valid() && inp.pos >= old(inp.pos)
      ensures FollowsArgs(ScanArgs(Interpreter, env, inp.s, old(inp.pos), FirstMode(Some(qmap)), []), old(log), inp,
        args)
      decreases |inp.s| - inp.pos, 6
    {
      ghost var whole := ScanArgs(Interpreter, env, inp.s, inp.pos, FirstMode(Some(qmap)), []);
      ghost var acc: seq<ArgText> := [];
      var qmode: byte := if At(qmap, 0) == ALL || At(qmap, 0) == ONE then ONE else ZERO;
      var qmap := qmap;
      if At(qmap, 0) != ALL && qmap != [] {
        qmap := qmap[1..];
      }
      var more := true;
      args := [];
      while more
        invariant inp.Valid() && inp.pos >= old(inp.pos)
        invariant ArgsSoFar(whole, QMode(qmode, qmap), acc, old(log), inp, args, more)
        decreases |inp.s| - inp.pos, more
      {
        ghost var one := NextArg(Interpreter, env, inp.s, inp.pos, qmode);
        var arg;
        arg, more := ParseNext(inp, qmode);
        args := args + [arg];
        EvalArgsSnoc(env, acc, one.arg, old(log));
        acc := acc + [one.arg];
        if qmap != [] {
          if qmap[0] == ONE {
            qmode, qmap := ONE, qmap[1..];
          } else if qmap[0] == ZERO {
            qmode, qmap := ZERO, qmap[1..];
          }
        } else {
          qmode := ZERO;
        }
      }
    }

    /** The argument loops stand after `acc`, under mode `q`; the rest is still to be scanned. */
    ghost predicate ArgsSoFar(whole: ArgsScan, q: QMode, acc: seq<ArgText>, log0: seq<Call>, inp: Reader,
                              args: seq<Arg>, more: bool)
      requires inp.Valid()
      reads this, inp
    {
      && ArgOutcome(args, log) == EvalArgs(env, acc, log0)
      && whole == if more then ScanArgs(Interpreter, env, inp.s, inp.pos, q, acc) else ArgsScan(acc, inp.pos)
    }

    ghost predicate FollowsNext(r: OneScan, log0: seq<Call>, inp: Reader, arg: Arg, more: bool)
      reads this, inp
    {
      inp.pos == r.next && more == r.more && (arg, log) == EvalArg(env, r.arg, log0)
    }

    ghost predicate FollowsArgs(r: ArgsScan, log0: seq<Call>, inp: Reader, args: seq<Arg>)
      reads this, inp
    {
      inp.pos == r.next && ArgOutcome(args, log) == EvalArgs(env, r.args, log0)
    }

    ghost predicate FollowsArg(r: ArgScan, log0: seq<Call>, inp: Reader, more: bool, cur: bytes)
      reads this, inp
    {
      inp.pos == r.next && more == r.more && Outcome(cur, log) == EvalItems(env, r.items, log0)
    }

    /** `ParseArg`: interpret a live argument whose first character is `c`. */
    method ParseArg(inp: Reader, c: byte) returns (more: bool, cur: bytes)
      requires inp.Valid()
      modifies this, inp
      ensures inp.Valid() && inp.pos >= old(inp.pos)
      ensures FollowsArg(StartArg(Interpreter, env, inp.s, old(inp.pos), c), old(log), inp, more, cur)
      decreases |inp.s| - inp.pos, 4
    {
      var m, c := StartState(c), c;
      if m.quoted != 0 {
        c := inp.GetC();
      }
      more, cur := ParseArgRest(inp, c, m);
    }

    /** The loop of `ParseArg`, from the state `m` its opening quote leaves. */
    method ParseArgRest(inp: Reader, c: byte, m: ArgState) returns (more: bool, cur: bytes)
      requires inp.Valid() && Quotes(m) && m.numsp == 0
      modifies this, inp
      ensures inp.Valid() && inp.pos >= old(inp.pos)
      ensures FollowsArg(ScanArg(Interpreter, env, inp.s, old(inp.pos), c, m, []), old(log), inp, more, cur)
      decreases |inp.s| - inp.pos, 3
    {
      ghost var whole := ScanArg(Interpreter, env, inp.s, inp.pos, c, m, []);
      ghost var log0 := log;
      var m, c := m, c;
      ghost var acc: seq<Item> := [];
      cur := [];
      while true
        invariant inp.Valid() && inp.pos >= old(inp.pos)
        invariant Quotes(m) && Spaces(acc, m.numsp) && m.numsp <= |cur|
        invariant ScanArg(Interpreter, env, inp.s, inp.pos, c, m, acc) == whole
        invariant Outcome(cur, log) == Done(env, [], acc, log0)
        decreases |inp.s| - inp.pos
      {
        if c == PCT {
          cur, acc := ParseArgCall(inp, cur, acc, whole, m, log0);
          m := m.(numsp := 0);
        } else {
          var act;
          m, act, c := ArgChar(inp, m, c);
          if act.Finish? {
            more := act.more;
            break;
          }
          if act.Keep? {
            cur := cur + [c];
            DoneChar(env, [], acc, c, log0);
            acc := acc + [Ch(c)];
          }
        }
        c := inp.GetC();
        if c == EOF {
          DoneEmpty(env, acc, log0);
          return false, cur;
        }
      }
      DoneEmpty(env, acc, log0);
      EvalTrim(env, acc, m.numsp, log0);
      cur := cur[..|cur| - m.numsp];
    }

    /** The call inside a live argument: `ParseFunc`, and what it adds to the scan. */
    method ParseArgCall(inp: Reader, cur: bytes, ghost acc: seq<Item>, ghost whole: ArgScan, ghost m: ArgState,
                        ghost log0: seq<Call>)
      returns (cur': bytes, ghost acc': seq<Item>)
      requires inp.Valid() && m.numsp <= |acc|
      requires ScanArg(Interpreter, env, inp.s, inp.pos, PCT, m, acc) == whole
      requires Outcome(cur, log) == Done(env, [], acc, log0)
      modifies this, inp
      ensures inp.Valid() && inp.pos >= old(inp.pos)
      ensures MoreArg(Interpreter, env, inp.s, inp.pos, m.(numsp := 0), acc') == whole
      ensures Outcome(cur', log) == Done(env, [], acc', log0)
      decreases |inp.s| - inp.pos, 1
    {
      ghost var r := ScanFunc(Interpreter, env, inp.s, inp.pos);
      cur' := ParseFunc(inp, cur);
      DoneConcat(env, [], acc, r.items, log0);
      acc' := acc + r.items;
    }
  }

  /** The last `k` items are characters. */
  predicate Spaces(acc: seq<Item>, k: nat) {
    k <= |acc| && forall j :: |acc| - k <= j < |acc| ==> acc[j].Ch?
  }

  predicate Quotes(m: ArgState) {
    m.quoted == DQ || m.quoted == LC || m.quoted == 0
  }

  /** What `ParseArg` and `ParseCompArg` do with a character other than '%': read the one an
    escape protects, change the quote, nesting and space counters, and keep or drop the
    character or end the argument. */
  method ArgChar(inp: Reader, m: ArgState, c: byte) returns (m': ArgState, act: Act, c': byte)
    requires inp.Valid() && Quotes(m) && c != PCT
    modifies inp
    ensures inp.Valid() && inp.pos >= old(inp.pos) && Quotes(m')
    ensures act.Keep? ==> m'.numsp <= m.numsp + 1
    ensures !act.Keep? ==> m'.numsp <= m.numsp
    ensures forall side, env, acc {:trigger ScanArg(side, env, inp.s, old(inp.pos), c, m, acc)} | m.numsp <= |acc| ::
      ScanArg(side, env, inp.s, old(inp.pos), c, m, acc) == AfterChar(side, env, inp.s, inp.pos, m', act, c', acc)
  {
    c' := c;
    if c == ESC {
      c' := inp.GetC();
      return m.(numsp := 0), if c' == EOF then Drop else Keep, c';
    }
    m', act := PlainChar(m, c);
  }

  function AfterChar(side: Side, env: Env, s: bytes, i: nat, m: ArgState, act: Act, c: byte, acc: seq<Item>): ArgScan
    requires i <= |s| && m.numsp <= |acc| + if act.Keep? then 1 else 0
  {
    match act
    case Keep => MoreArg(side, env, s, i, m, acc + [Ch(c)])
    case Drop => MoreArg(side, env, s, i, m, acc)
    case Finish(more) => ArgScan(acc[..|acc| - m.numsp], i, more)
  }

  /** The same for a character that is no escape either. */
  method PlainChar(m: ArgState, c: byte) returns (m': ArgState, act: Act)
    requires Quotes(m)
    ensures (m', act) == Step(m, c)
  {
    var quoted, qcnt, lpc, numsp := m.quoted, m.qcnt, m.lpc, m.numsp;
    act := Keep;
    if quoted != 0 {
      if c == LC && quoted == LC {
        qcnt := qcnt + 1;
        act := Drop;
      } else if c == DQ && quoted == DQ {
        quoted, lpc, numsp, act := 0, 0, 0, Drop;
      } else if c == RC && quoted == LC {
        qcnt := qcnt - 1;
        if qcnt <= 0 {
          quoted, numsp, act := 0, 0, Drop;
        }
      }
    } else if lpc != 0 {
      if c == RP {
        lpc := lpc - 1;
        numsp := 0;
      } else if c == LP {
        lpc := lpc + 1;
        numsp := 0;
      } else if IsSpace(c) {
        numsp := numsp + 1;
      } else {
        numsp := 0;
      }
    } else {
      if c == COMMA {
        act := Finish(true);
      } else if c == LP {
        lpc := lpc + 1;
        numsp := 0;
      } else if c == RP {
        act := Finish(false);
      } else if IsSpace(c) {
        numsp := numsp + 1;
      } else {
        numsp := 0;
      }
    }
    m' := ArgState(quoted, qcnt, lpc, numsp);
  }
}
