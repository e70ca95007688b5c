/** Running a compiled stream, and the theorem that it does what interpreting the text does. */
module MacroRun {
  import opened Bytes
  import opened Options
  import opened Macro
  import opened MacroInterp
  import opened MacroStream
  import opened MacroComp
  import opened MacroSides

  /** `Decompile`: print a stream as macro text again. */
  method Decompile(inp: Reader, out: bytes) returns (out': bytes)
    requires inp.Valid()
    modifies inp
    ensures inp.Valid() && inp.pos >= old(inp.pos)
    ensures var whole := Before(out, Decompiled(old(inp.Rest()))); whole.Some? ==> whole.value == out'
    decreases |inp.s| - inp.pos, 3
  {
    ghost var whole := Before(out, Decompiled(inp.Rest()));
    out' := out;
    while true
      invariant inp.Valid() && inp.pos >= old(inp.pos)
      invariant whole.Some? ==> whole == Before(out', Decompiled(inp.Rest()))
      decreases |inp.s| - inp.pos
    {
      ghost var s, start := inp.Rest(), out';
      var b := inp.GetS(BASE_SIZE);
      if |b| != BASE_SIZE || Signed(b[4..8]) < 0 {
        assert |b| == BASE_SIZE ==> s[4..8] == b[4..8];
        assert out' + [] == out';
        return;
      }
      var ln := Signed(b[4..8]);
      assert s[4..8] == b[4..8];
      var dt := inp.GetS(ln);
      ghost var rest := inp.Rest();
      assert s == b + dt + rest;
      if |dt| == ln {
        assert dt == s[8..8 + ln] && rest == s[8 + ln..];
        if b[0] == BC_FUNC {
          dt := MaskInPlace(dt, b[1]);
          out' := out' + [PCT] + dt;
          out' := DecompileCall(inp, out', b[1]);
          DecompiledStep(start, s, ln, out', inp.Rest());
        } else if b[0] == BC_OUT {
          BeforeTwice(start, dt, Decompiled(rest));
          out' := out' + dt;
        }
      } else {
        assert Decompiled(s) == Some([]) && Decompiled(rest) == Some([]);
      }
    }
  }

  lemma BeforeTwice(a: bytes, b: bytes, r: Option<bytes>)
    ensures Before(a, Before(b, r)) == Before(a + b, r)
  {
    if r.Some? {
      assert a + (b + r.value) == (a + b) + r.value;
    }
  }

  lemma DecompiledFunc(s: bytes, ln: nat, t: bytes, rest': bytes)
    requires |s| >= BASE_SIZE + ln && Signed(s[4..8]) == ln && s[0] == BC_FUNC
    requires var r := DecompiledCall(s[8 + ln..], s[1]);
      r.Some? && r.value.rest == rest' && t == [PCT] + Mask(s[8..8 + ln], s[1]) + r.value.text
    ensures Decompiled(s) == Before(t, Decompiled(rest'))
  {
  }

  lemma DecompiledStops(s: bytes, ln: nat)
    requires |s| >= BASE_SIZE + ln && Signed(s[4..8]) == ln && s[0] == BC_FUNC
    requires DecompiledCall(s[8 + ln..], s[1]) == None
    ensures Decompiled(s) == None
  {
  }

  lemma BeforeThree(out: bytes, a: bytes, b: bytes, c: bytes, r: Option<bytes>)
    ensures Before(out, Before(a + b + c, r)) == Before(out + a + b + c, r)
  {
    BeforeTwice(out, a + b + c, r);
    assert out + (a + b + c) == out + a + b + c;
  }

  /** A call record printed, and the rest still to be printed. */
  lemma DecompiledStep(out: bytes, s: bytes, ln: nat, out': bytes, rest': bytes)
    requires |s| >= BASE_SIZE + ln && Signed(s[4..8]) == ln && s[0] == BC_FUNC
    requires var r := DecompiledCall(s[8 + ln..], s[1]);
      r.Some? ==> r.value.rest == rest' && out' == out + [PCT] + Mask(s[8..8 + ln], s[1]) + r.value.text
    ensures Before(out, Decompiled(s)).Some? ==> Before(out, Decompiled(s)) == Before(out', Decompiled(rest'))
  {
    var r := DecompiledCall(s[8 + ln..], s[1]);
    if r.Some? {
      var name := Mask(s[8..8 + ln], s[1]);
      DecompiledFunc(s, ln, [PCT] + name + r.value.text, rest');
      BeforeThree(out, [PCT], name, r.value.text, Decompiled(rest'));
    } else {
      DecompiledStops(s, ln);
    }
  }

  /** The part of `Decompile` that prints what stands behind a name. */
  method DecompileCall(inp: Reader, out: bytes, rn: byte) returns (out': bytes)
    requires inp.Valid()
    modifies inp
    ensures inp.Valid() && inp.pos >= old(inp.pos)
    ensures var r := DecompiledCall(old(inp.Rest()), rn);
      r.Some? ==> r.value.rest == inp.Rest() && out' == out + r.value.text
    decreases |inp.s| - inp.pos, 2
  {
    ghost var s := inp.Rest();
    out' := out;
    var v := inp.GetS(ARGS_SIZE);
    assert |v| == ARGS_SIZE ==> v == s[..2] && inp.Rest() == s[2..];
    if |v| != ARGS_SIZE {
      assert out + [] == out;
      return;
    }
    var cnt := Signed(v);
    out' := out' + [if cnt > 0 then LP else PCT];
    out' := DecompileArgs(inp, out', cnt, rn);
    if cnt > 0 {
      out' := out' + [RP];
    }
  }

  /** The loop of `Decompile` over the arguments of a call. */
  method DecompileArgs(inp: Reader, out: bytes, cnt: int, rn: byte) returns (out': bytes)
    requires inp.Valid()
    modifies inp
    ensures inp.Valid() && inp.pos >= old(inp.pos)
    ensures PrintedSo(DecompiledArgs(old(inp.Rest()), cnt, rn), out, out', inp)
    decreases |inp.s| - inp.pos, 1
  {
    ghost var whole := DecompiledArgs(inp.Rest(), cnt, rn);
    out' := out;
    var i := 0;
    while i < cnt
      invariant inp.Valid() && inp.pos >= old(inp.pos) && (i <= cnt || i == 0)
      invariant PrintsOn(whole, out, out', DecompiledArgs(inp.Rest(), cnt - i, rn))
      decreases cnt - i
    {
      out' := DecompileNext(inp, out, out', cnt - i, rn, whole);
      i := i + 1;
    }
  }

  ghost predicate PrintedSo(r: Option<Printed>, out: bytes, out': bytes, inp: Reader)
    requires inp.Valid()
    reads inp
  {
    r.Some? ==> r.value.rest == inp.Rest() && out' == out + r.value.text
  }

  /** What has been printed since `out`, with what `r` prints, is what the whole prints. */
  ghost predicate PrintsOn(whole: Option<Printed>, out: bytes, out': bytes, r: Option<Printed>) {
    whole.Some? ==> r.Some? && r.value.rest == whole.value.rest && out + whole.value.text == out' + r.value.text
  }

  /** One round of that loop. */
  method DecompileNext(inp: Reader, ghost out: bytes, cur: bytes, n: int, rn: byte, ghost whole: Option<Printed>)
    returns (cur': bytes)
    requires inp.Valid() && n > 0
    requires PrintsOn(whole, out, cur, DecompiledArgs(inp.Rest(), n, rn))
    modifies inp
    ensures inp.Valid() && inp.pos >= old(inp.pos)
    ensures PrintsOn(whole, out, cur', DecompiledArgs(inp.Rest(), n - 1, rn))
    decreases |inp.s| - inp.pos, 0
  {
    cur' := cur;
    ghost var s := inp.Rest();
    var a := inp.GetS(ARG_SIZE);
    if |a| == ARG_SIZE {
      assert a == s[..4];
      var ln, at := Dec(a) / 4, Dec(a) % 4;
      var data := inp.GetS(ln);
      ghost var rest := inp.Rest();
      assert s == a + data + rest;
      if |data| == ln {
        assert data == s[4..4 + ln] && rest == s[4 + ln..];
        data := MaskInPlace(data, rn);
        cur' := DecompileArg(cur', data, at);
        if n > 1 {
          cur' := cur' + [COMMA];
        }
      }
    }
  }

  method DecompileArg(out: bytes, data: bytes, at: nat) returns (out': bytes)
    ensures var r := Before(out, DecompiledArg(data, at)); r.Some? ==> r.value == out'
    decreases |data|, 4
  {
    if at == ARG_CMP {
      var tmp := new Reader(data);
      out' := Decompile(tmp, out);
    } else {
      out' := out;
      if at == ARG_QSTR {
        out' := out' + [SQ];
      }
      out' := out' + data;
    }
  }

  /** A run has ended with the whole outcome. */
  ghost predicate Ran(whole: Option<Outcome>, ctx: Ctx, out: bytes)
    reads ctx
  {
    whole.Some? ==> whole.value == Outcome(out, ctx.log)
  }

  /** What is written, and what the rest of the stream will do, make up the whole outcome. */
  ghost predicate Leads(whole: Option<Outcome>, ctx: Ctx, rest: bytes, out: bytes)
    reads ctx
  {
    whole.Some? ==> whole == Then(out, Run(ctx.env, rest, ctx.log))
  }

  lemma LeadsEnd(whole: Option<Outcome>, ctx: Ctx, rest: bytes, out: bytes)
    requires Leads(whole, ctx, rest, out) && Run(ctx.env, rest, ctx.log) == Some(Outcome([], ctx.log))
    ensures Ran(whole, ctx, out)
  {
    assert out + [] == out;
  }

  /** `RunCompiled`: run a stream. */
  method RunCompiled(ctx: Ctx, inp: Reader, out: bytes) returns (out': bytes)
    requires inp.Valid()
    modifies ctx, inp
    ensures inp.Valid() && inp.pos >= old(inp.pos)
    ensures GoodEnv(ctx.env) ==>
      Ran(Then(out, Run(ctx.env, old(inp.Rest()), old(ctx.log))), ctx, out')
    decreases |inp.s| - inp.pos, 3
  {
    ghost var whole := Then(out, Run(ctx.env, inp.Rest(), ctx.log));
    out' := out;
    while true
      invariant inp.Valid() && inp.pos >= old(inp.pos)
      invariant GoodEnv(ctx.env) ==> Leads(whole, ctx, inp.Rest(), out')
      decreases |inp.s| - inp.pos
    {
      ghost var s, start := inp.Rest(), out';
      var b := inp.GetS(BASE_SIZE);
      if |b| != BASE_SIZE || Signed(b[4..8]) <= 0 {
        assert |b| == BASE_SIZE ==> s[4..8] == b[4..8];
        if GoodEnv(ctx.env) { LeadsEnd(whole, ctx, s, out'); }
        return;
      }
      var ln := Signed(b[4..8]);
      assert s[4..8] == b[4..8];
      var dt := inp.GetS(ln);
      ghost var rest := inp.Rest();
      assert s == b + dt + rest;
      if |dt| == ln {
        assert dt == s[8..8 + ln] && rest == s[8 + ln..];
        if b[0] == BC_FUNC {
          out' := RunFunc(ctx, inp, out', dt, b[1]);
        } else if b[0] == BC_OUT {
          ThenTwice(start, dt, Run(ctx.env, rest, ctx.log));
          out' := out' + dt;
        }
      } else if GoodEnv(ctx.env) {
        LeadsEnd(whole, ctx, s, out');
        assert Run(ctx.env, rest, ctx.log) == Some(Outcome([], ctx.log));
        assert out' + [] == out';
      }
    }
  }

  /** The part of `RunCompiled` that makes one call. */
  method RunFunc(ctx: Ctx, inp: Reader, out: bytes, dt: bytes, rn: byte) returns (out': bytes)
    requires inp.Valid()
    modifies ctx, inp
    ensures inp.Valid() && inp.pos >= old(inp.pos)
    ensures GoodEnv(ctx.env) ==>
      Leads(Then(out, RunNamed(ctx.env, Mask(dt, rn), rn, old(inp.Rest()), old(ctx.log))), ctx, inp.Rest(), out')
    decreases |inp.s| - inp.pos, 2
  {
    ghost var s := inp.Rest();
    var name := MaskInPlace(dt, rn);
    out' := out;
    var found := ctx.env.find(name);
    var v := inp.GetS(ARGS_SIZE);
    assert |v| == ARGS_SIZE ==> v == s[..2] && inp.Rest() == s[2..];
    if found.Bound? {
      if |v| == ARGS_SIZE {
        var args := RunCallArgs(ctx, inp, Signed(v), rn, found.qmap);
        ghost var log1 := ctx.log;
        var given := if Signed(v) == 0 then None else Some(args);
        out' := ctx.Eval(name, given, out');
        ThenTwice(out, ctx.env.eval(log1, Call(name, given)), Run(ctx.env, inp.Rest(), ctx.log));
      }
    } else {
      var cnt := 0;
      if |v| == ARGS_SIZE {
        cnt := Signed(v);
        SkipArgs(inp, cnt);
      }
      ghost var more := Run(ctx.env, inp.Rest(), ctx.log);
      out' := out' + [PCT] + name;
      if cnt > 0 {
        out' := out' + [LP] + DOTS + [RP];
        assert out' == out + ([PCT] + name + [LP] + DOTS + [RP]);
        ThenTwice(out, [PCT] + name + [LP] + DOTS + [RP], more);
      } else {
        out' := out' + [PCT];
        assert out' == out + ([PCT] + name + [PCT]);
        ThenTwice(out, [PCT] + name + [PCT], more);
      }
    }
  }

  /** Pass over the arguments of a name that is not bound. */
  method SkipArgs(inp: Reader, cnt: int)
    requires inp.Valid()
    modifies inp
    ensures inp.Valid() && inp.pos >= old(inp.pos) && inp.Rest() == Skipped(old(inp.Rest()), cnt)
  {
    ghost var goal, left := Skipped(inp.Rest(), cnt), cnt;
    var i := 0;
    while i < cnt
      invariant inp.Valid() && inp.pos >= old(inp.pos) && left == cnt - i && (left >= 0 || i == 0)
      invariant Skipped(inp.Rest(), left) == goal
    {
      var whole := SkipOne(inp, left);
      if !whole { return; }
      i := i + 1;
      left := left - 1;
    }
  }

  /** Pass over one argument, and tell whether it was there. */
  method SkipOne(inp: Reader, ghost n: int) returns (whole: bool)
    requires inp.Valid() && n > 0
    modifies inp
    ensures inp.Valid() && inp.pos >= old(inp.pos)
    ensures Skipped(old(inp.Rest()), n) == if whole then Skipped(inp.Rest(), n - 1) else inp.Rest()
  {
    ghost var s := inp.Rest();
    var a := inp.GetS(ARG_SIZE);
    if |a| == ARG_SIZE {
      assert a == s[..4];
      var cur := inp.GetS(Dec(a) / 4);
      assert s == a + cur + inp.Rest();
      if |cur| != Dec(a) / 4 { return false; }
      assert inp.Rest() == s[4 + Dec(a) / 4..];
    }
    return true;
  }

  /** The runner's quote mode and map agree with `q`; `fixed` tells that they stay as they are. */
  predicate InStep(q: QMode, fixed: bool, qmode: byte, ahead: bytes) {
    && (qmode == ZERO || qmode == ONE) && qmode == q.mode
    && if fixed then NextMode(q) == q else q.ahead == ahead && (ahead == [] || GoodMap(ahead))
  }

  /** The argument loops of `RunCompiled`. */
  method RunCallArgs(ctx: Ctx, inp: Reader, cnt: int, rn: byte, qmap: Option<bytes>) returns (args: seq<Arg>)
    requires inp.Valid()
    modifies ctx, inp
    ensures inp.Valid() && inp.pos >= old(inp.pos)
    ensures GoodEnv(ctx.env) && (qmap.Some? ==> GoodMap(qmap.value)) ==>
      RanArgs(RunArgs(ctx.env, old(inp.Rest()), cnt, rn, FirstMode(qmap), old(ctx.log)), ctx, inp.Rest(), args)
    decreases |inp.s| - inp.pos, 1
  {
    ghost var q, n := FirstMode(qmap), cnt;
    ghost var whole := RunArgs(ctx.env, inp.Rest(), n, rn, q, ctx.log);
    ghost var good := GoodEnv(ctx.env) && (qmap.Some? ==> GoodMap(qmap.value));
    var fixed, qmode, ahead := StartMap(qmap);
    args := [];
    var i := 0;
    WithNoArgs(whole);
    while i < cnt
      invariant inp.Valid() && inp.pos >= old(inp.pos) && n == cnt - i && (n >= 0 || i == 0)
      invariant good ==> InStep(q, fixed, qmode, ahead) && LeadsArgs(whole, ctx, inp.Rest(), n, rn, q, args)
      decreases cnt - i
    {
      args := RunNextArg(ctx, inp, n, rn, qmode, args, whole, q);
      i := i + 1;
      n := n - 1;
      qmode, ahead := StepMap(fixed, qmode, ahead, q);
      q := NextMode(q);
    }
    assert args + [] == args;
  }

  /** The runner's first quote mode, the map ahead, and whether they stay. */
  method StartMap(qmap: Option<bytes>) returns (fixed: bool, qmode: byte, ahead: bytes)
    ensures (qmap.Some? ==> GoodMap(qmap.value)) ==> InStep(FirstMode(qmap), fixed, qmode, ahead)
  {
    match qmap
    case None => return true, ZERO, [];
    case Some(m) =>
      if At(m, 0) == ALL { return true, ONE, []; }
      return false, if At(m, 0) == ONE then ONE else ZERO, if m == [] then [] else m[1..];
  }

  /** One round of the argument loops. */
  method RunNextArg(ctx: Ctx, inp: Reader, ghost n: int, rn: byte, qmode: byte, args: seq<Arg>,
                    ghost whole: Option<Taken>, ghost q: QMode)
    returns (args': seq<Arg>)
    requires inp.Valid() && n > 0
    modifies ctx, inp
    ensures inp.Valid() && inp.pos >= old(inp.pos)
    ensures old(LeadsArgs(whole, ctx, inp.Rest(), n, rn, q, args)) && q.mode == qmode && GoodMode(ctx, qmode) ==>
      LeadsArgs(whole, ctx, inp.Rest(), n - 1, rn, NextMode(q), args')
    decreases |inp.s| - inp.pos, 0
  {
    args' := args;
    ghost var s := inp.Rest();
    var a := inp.GetS(ARG_SIZE);
    if |a| == ARG_SIZE {
      assert a == s[..4];
      var ln, at := Dec(a) / 4, Dec(a) % 4;
      var cur := inp.GetS(ln);
      ghost var rest := inp.Rest();
      assert s == a + cur + rest;
      if |cur| == ln {
        assert cur == s[4..4 + ln] && rest == s[4 + ln..];
        cur := MaskInPlace(cur, rn);
        cur := RunCompArg(ctx, cur, at, qmode);
        args' := args + [Arg(cur, at == ARG_QSTR)];
        WithTwice(args, [Arg(cur, at == ARG_QSTR)], RunArgs(ctx.env, rest, n - 1, rn, NextMode(q), ctx.log));
      }
    }
  }

  ghost predicate GoodMode(ctx: Ctx, qmode: byte) {
    GoodEnv(ctx.env) && (qmode == ZERO || qmode == ONE)
  }

  /** Take the next character of the quote map, if there is one. */
  method StepMap(fixed: bool, qmode: byte, ahead: bytes, ghost q: QMode) returns (qmode': byte, ahead': bytes)
    ensures InStep(q, fixed, qmode, ahead) ==> InStep(NextMode(q), fixed, qmode', ahead')
  {
    qmode', ahead' := qmode, ahead;
    if !fixed {
      if ahead != [] {
        if ahead[0] != ALL {
          qmode', ahead' := ahead[0], ahead[1..];
        }
      } else {
        qmode' := ZERO;
      }
    }
  }

  ghost predicate RanArgs(whole: Option<Taken>, ctx: Ctx, rest: bytes, args: seq<Arg>)
    reads ctx
  {
    whole.Some? ==> whole.value == Taken(args, rest, ctx.log)
  }

  ghost predicate LeadsArgs(whole: Option<Taken>, ctx: Ctx, rest: bytes, n: int, rn: byte, q: QMode, args: seq<Arg>)
    reads ctx
  {
    whole.Some? ==> whole == WithArgs(args, RunArgs(ctx.env, rest, n, rn, q, ctx.log))
  }

  function WithArgs(args: seq<Arg>, t: Option<Taken>): Option<Taken> {
    match t
    case None => None
    case Some(x) => Some(x.(args := args + x.args))
  }

  lemma WithNoArgs(t: Option<Taken>)
    ensures WithArgs([], t) == t
  {
    if t.Some? {
      assert [] + t.value.args == t.value.args;
    }
  }

  lemma WithTwice(xs: seq<Arg>, ys: seq<Arg>, t: Option<Taken>)
    ensures WithArgs(xs, WithArgs(ys, t)) == WithArgs(xs + ys, t)
  {
    if t.Some? {
      assert xs + (ys + t.value.args) == (xs + ys) + t.value.args;
    }
  }

  /** The value of one argument: run it, parse it, print it, or take it as it is. */
  method RunCompArg(ctx: Ctx, data: bytes, at: nat, qmode: byte) returns (value: bytes)
    modifies ctx
    ensures GoodEnv(ctx.env) && (qmode == ZERO || qmode == ONE) ==>
      Ran(RunArg(ctx.env, data, at, qmode, old(ctx.log)), ctx, value)
    decreases |data|, 4
  {
    value := data;
    if at != ARG_QSTR && qmode == ZERO {
      var tmp := new Reader(data);
      if at == ARG_CMP {
        value := RunCompiled(ctx, tmp, []);
        ThenNothing(Run(ctx.env, data, old(ctx.log)));
      } else {
        ghost var items := ScanText(Interpreter, ctx.env, data, 0, []).items;
        DoneEmpty(ctx.env, items, ctx.log);
        value := ctx.Parse(tmp, []);
      }
    } else if at == ARG_CMP && qmode != TWO {
      var tmp := new Reader(data);
      value := Decompile(tmp, []);
      assert Decompiled(data).Some? ==> [] + Decompiled(data).value == Decompiled(data).value;
    }
  }

  /** Interpreting a text, and compiling it and running the stream, from the same history. Each
    gives what its own reading of the text evaluates to, whatever masks the compiler drew; so
    output and calls agree for every text that both read alike. */
  method CompiledAsInterpreted(env: Env, text: bytes, masks: bool, log: seq<Call>)
    returns (stream: bytes, interpreted: Outcome, compiled: Outcome)
    requires GoodEnv(env)
    ensures interpreted == EvalItems(env, ScanText(Interpreter, env, text, 0, []).items, log)
    ensures var items := ScanText(Compiler, env, text, 0, []).items;
      FewArgs(items) && |stream| < LENGTHS ==> compiled == EvalItems(env, items, log)
    ensures var items := ScanText(Compiler, env, text, 0, []).items;
      Common(env, text) && FewArgs(items) && |stream| < LENGTHS ==> compiled == interpreted
  {
    var direct := new Ctx(env);
    direct.log := log;
    var inp := new Reader(text);
    var out := direct.Parse(inp, []);
    interpreted := Outcome(out, direct.log);
    DoneEmpty(env, ScanText(Interpreter, env, text, 0, []).items, log);

    stream := CompileText(env, text, masks);

    var ctx := new Ctx(env);
    ctx.log := log;
    inp := new Reader(stream);
    out := RunCompiled(ctx, inp, []);
    compiled := Outcome(out, ctx.log);

    ghost var items := ScanText(Compiler, env, text, 0, []).items;
    if FewArgs(items) && |stream| < LENGTHS {
      MeansRun(env, stream, items, log);
      ThenNothing(Run(env, stream, log));
    }
    if Common(env, text) {
      TextAlike(env, text, 0, []);
    }
  }

  /** Compile a text to a stream of its own. */
  method CompileText(env: Env, text: bytes, masks: bool) returns (stream: bytes)
    ensures var items := ScanText(Compiler, env, text, 0, []).items;
      FewArgs(items) && |stream| < LENGTHS ==> Means(env, stream, items)
  {
    var comp := new CtxComp(env, masks);
    var inp := new Reader(text);
    stream := comp.Parse(inp, [], []);
    HoldsNothing(env);
    ghost var items := ScanText(Compiler, env, text, 0, []).items;
    assert [] + items == items && items[..|items|] == items;
  }
}
