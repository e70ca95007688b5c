/** The macro compiler: reads a text as the interpreter does, but writes records. */
module MacroComp {
  import opened Bytes
  import opened Options
  import opened Macro
  import opened MacroInterp
  import opened MacroStream

  /** A stream and the text still waiting to be written mean `items` together. */
  ghost predicate Holds(env: Env, out: bytes, buf: bytes, items: seq<Item>) {
    && |buf| <= |items| && items[|items| - |buf|..] == Chars(buf)
    && Means(env, out, items[..|items| - |buf|])
  }

  lemma FewConcat(xs: seq<Item>, ys: seq<Item>)
    ensures FewArgs(xs + ys) <==> FewArgs(xs) && FewArgs(ys)
  {
    var both := xs + ys;
    assert forall k :: 0 <= k < |xs| ==> both[k] == xs[k];
    assert forall k :: 0 <= k < |ys| ==> both[|xs| + k] == ys[k];
  }

  lemma HoldsText(env: Env, out: bytes, buf: bytes, items: seq<Item>, t: bytes)
    requires Holds(env, out, buf, items)
    ensures Holds(env, out, buf + t, items + Chars(t))
  {
    var n := |items| - |buf|;
    var all := items + Chars(t);
    assert all[..n] == items[..n];
    assert all[n..] == items[n..] + Chars(t) == Chars(buf + t);
  }

  lemma HoldsChar(env: Env, out: bytes, buf: bytes, items: seq<Item>, c: byte)
    requires Holds(env, out, buf, items)
    ensures Holds(env, out, buf + [c], items + [Ch(c)])
  {
    var n := |items| - |buf|;
    assert (items + [Ch(c)])[..n] == items[..n];
    assert (items + [Ch(c)])[n..] == items[n..] + [Ch(c)] == Chars(buf + [c]);
  }

  lemma HoldsTrim(env: Env, out: bytes, buf: bytes, items: seq<Item>, k: nat)
    requires Holds(env, out, buf, items) && k <= |buf|
    ensures Holds(env, out, buf[..|buf| - k], items[..|items| - k])
  {
    var n := |items| - |buf|;
    var cut := items[..|items| - k];
    assert cut[..n] == items[..n];
    assert cut[n..] == items[n..][..|buf| - k] == Chars(buf[..|buf| - k]);
  }

  lemma HoldsAll(env: Env, out: bytes, items: seq<Item>)
    requires Means(env, out, items)
    ensures Holds(env, out, [], items)
  {
    assert items[..|items|] == items && items[|items|..] == Chars([]);
  }

  lemma HoldsConcat(env: Env, out: bytes, items: seq<Item>, record: bytes, xs: seq<Item>)
    requires Holds(env, out, [], items) && Means(env, record, xs)
    ensures Holds(env, out + record, [], items + xs)
  {
    assert items[..|items|] == items;
    MeansConcat(env, out, items, record, xs);
    HoldsAll(env, out + record, items + xs);
  }

  /** The same, if calls have few arguments and lengths fit their fields. */
  ghost predicate Fits(env: Env, out: bytes, buf: bytes, items: seq<Item>) {
    FewArgs(items) && |out| < LENGTHS ==> Holds(env, out, buf, items)
  }

  lemma FitsChar(env: Env, out: bytes, buf: bytes, items: seq<Item>, c: byte)
    requires Fits(env, out, buf, items)
    ensures Fits(env, out, buf + [c], items + [Ch(c)])
  {
    FewConcat(items, [Ch(c)]);
    if FewArgs(items) && |out| < LENGTHS {
      HoldsChar(env, out, buf, items, c);
    }
  }

  lemma FitsTrim(env: Env, out: bytes, buf: bytes, items: seq<Item>, k: nat)
    requires Fits(env, out, buf, items) && k <= |buf| && Spaces(items, k)
    ensures Fits(env, out, buf[..|buf| - k], items[..|items| - k])
  {
    var n := |items| - k;
    assert items == items[..n] + items[n..];
    FewConcat(items[..n], items[n..]);
    if FewArgs(items) && |out| < LENGTHS {
      HoldsTrim(env, out, buf, items, k);
    }
  }

  lemma HoldsFlushed(env: Env, out: bytes, rn: byte, pad: bytes, buf: bytes, items: seq<Item>)
    requires |pad| == 2 && buf != [] && |buf| < LENGTHS && Holds(env, out, buf, items)
    ensures Holds(env, out + OutRecord(rn, pad, buf), [], items)
  {
    var done := items[..|items| - |buf|];
    MeansOut(env, rn, pad, buf);
    HoldsAll(env, out, done);
    HoldsConcat(env, out, done, OutRecord(rn, pad, buf), Chars(buf));
    assert items == done + Chars(buf);
  }

  lemma HoldsNothing(env: Env)
    ensures Holds(env, [], [], [])
  {
    MeansNothing(env);
    HoldsAll(env, [], []);
  }

  /** Every argument that is short enough for its length field, and has few arguments in its own
    calls, is kept. */
  ghost predicate KeptIfShort(env: Env, args: seq<CompArg>, xs: seq<ArgText>, q: QMode) {
    && |args| == |xs|
    && forall k :: 0 <= k < |xs| ==>
         FewInArg(xs[k]) && |args[k].text| < LENGTHS ==> Keeps(env, args[k], xs[k], ModeAt(q, k).mode)
  }

  lemma KeptMore(env: Env, args: seq<CompArg>, xs: seq<ArgText>, q: QMode, arg: CompArg, x: ArgText)
    requires KeptIfShort(env, args, xs, q)
    requires FewInArg(x) && |arg.text| < LENGTHS ==> Keeps(env, arg, x, ModeAt(q, |args|).mode)
    ensures KeptIfShort(env, args + [arg], xs + [x], q)
  {
  }

  lemma ArgBytesStep(out: bytes, args: seq<CompArg>, rn: byte, i: nat)
    requires i < |args|
    ensures out + ArgHead(args[i]) + Mask(args[i].text, rn) + ArgBytes(args[i + 1..], rn)
         == out + ArgBytes(args[i..], rn)
  {
    assert args[i..][1..] == args[i + 1..];
    Chain(out, ArgHead(args[i]), Mask(args[i].text, rn), ArgBytes(args[i + 1..], rn));
  }

  lemma Chain(a: bytes, b: bytes, c: bytes, d: bytes)
    ensures a + b + c + d == a + (b + c + d)
  {
  }

  lemma {:induction false} ArgBytesLength(args: seq<CompArg>, rn: byte, k: nat)
    requires k < |args|
    ensures |args[k].text| <= |ArgBytes(args, rn)|
  {
    if k > 0 {
      ArgBytesLength(args[1..], rn, k - 1);
    }
  }

  /** A call record after a flushed stream adds the call. */
  lemma HoldsCall(env: Env, out: bytes, items: seq<Item>, rn: byte, pad: bytes, name: bytes, args: seq<CompArg>,
                  xs: seq<ArgText>)
    requires |pad| == 2 && name != [] && |FuncRecord(rn, pad, name, args)| < LENGTHS
    requires 0 < |args| && FewIn(Fn(name, xs))
    requires Holds(env, out, [], items)
    requires KeptIfShort(env, args, xs, FirstMode(QuoteMap(env, name)))
    ensures Holds(env, out + FuncRecord(rn, pad, name, args), [], items + [Fn(name, xs)])
  {
    forall k | 0 <= k < |args| ensures |args[k].text| < LENGTHS && FewInArg(xs[k]) {
      ArgBytesLength(args, rn, k);
    }
    MeansFunc(env, rn, pad, name, args, xs);
    HoldsConcat(env, out, items, FuncRecord(rn, pad, name, args), [Fn(name, xs)]);
  }

  lemma HoldsRef(env: Env, out: bytes, items: seq<Item>, rn: byte, pad: bytes, name: bytes)
    requires |pad| == 2 && name != [] && |FuncRecord(rn, pad, name, [])| < LENGTHS
    requires Holds(env, out, [], items)
    ensures Holds(env, out + FuncRecord(rn, pad, name, []), [], items + [Ref(name)])
  {
    MeansRef(env, rn, pad, name);
    HoldsConcat(env, out, items, FuncRecord(rn, pad, name, []), [Ref(name)]);
  }

  /** Two bytes of a record header that nobody sets. */
  method Padding() returns (pad: bytes)
    ensures |pad| == 2
  {
    var a: byte := *;
    var b: byte := *;
    return [a, b];
  }

  /** `data` masked in place by `rn`, when there is a mask. */
  method MaskInPlace(data: bytes, rn: byte) returns (r: bytes)
    ensures r == Mask(data, rn)
  {
    r := data;
    if rn != 0 {
      var j := 0;
      while j < |data|
        invariant 0 <= j <= |data| && |r| == |data|
        invariant forall k :: 0 <= k < j ==> r[k] == MaskByte(data[k], rn)
        invariant forall k :: j <= k < |data| ==> r[k] == data[k]
      {
        r := r[j := MaskByte(r[j], rn)];
        j := j + 1;
      }
    } else {
      forall k | 0 <= k < |data| ensures data[k] == MaskByte(data[k], rn) {
        XorZero(data[k]);
      }
    }
  }

  /** The compiler. `outBuf` is text read and not yet written; `masks` turns masking on. */
  class CtxComp {
    const env: Env
    const masks: bool
    var outBuf: bytes

    constructor (env: Env, masks: bool)
      ensures this.env == env && this.masks == masks && outBuf == []
    {
      this.env := env;
      this.masks := masks;
      outBuf := [];
    }

    /** A random mask, or none. */
    method Random() returns (rn: byte)
      ensures !masks ==> rn == 0
    {
      rn := 0;
      if masks {
        rn := *;
      }
    }

    /** `OutFunc`: write a call record. */
    method OutFunc(out: bytes, name: bytes, args: seq<CompArg>) returns (out': bytes, ghost rn: byte, ghost pad: bytes)
      ensures |pad| == 2 && out' == out + FuncRecord(rn, pad, name, args)
    {
      var r := Random();
      var p := Padding();
      rn, pad := r, p;
      var masked := MaskInPlace(name, r);
      out' := out + Base(BC_FUNC, r, p, |name|) + masked + Enc(|args| % Pow256(2), 2);
      var i := 0;
      while i < |args|
        invariant 0 <= i <= |args|
        invariant out' + ArgBytes(args[i..], r) == out + FuncRecord(r, p, name, args)
      {
        ArgBytesStep(out', args, r, i);
        var text := MaskInPlace(args[i].text, r);
        out' := out' + ArgHead(args[i]) + text;
        i := i + 1;
      }
      assert out' + [] == out';
    }

    /** `OutFlush`: write the waiting text. */
    method OutFlush(out: bytes, ghost items: seq<Item>) returns (out': bytes)
      modifies this
      ensures outBuf == [] && |out| + |old(outBuf)| <= |out'|
      ensures |out'| < LENGTHS && Holds(env, out, old(outBuf), items) ==> Holds(env, out', [], items)
    {
      out' := out;
      if outBuf != [] {
        var pad := Padding();
        out' := out + Base(BC_OUT, 0, pad, |outBuf|) + outBuf;
        if |out'| < LENGTHS && Holds(env, out, outBuf, items) {
          HoldsFlushed(env, out, 0, pad, outBuf, items);
          assert out' == out + OutRecord(0, pad, outBuf);
        }
        outBuf := [];
      }
    }

    /** The stream was extended so that it holds what was scanned too. */
    ghost predicate Extends(r: Scan, out: bytes, buf: bytes, items: seq<Item>, inp: Reader, out': bytes)
      reads this, inp
    {
      && |out| <= |out'|
      && inp.pos == r.next
      && (FewArgs(r.items) && |out'| < LENGTHS && Holds(env, out, buf, items) ==>
           Holds(env, out', outBuf, items + r.items))
    }

    /** `Parse`: compile a whole text. */
    method Parse(inp: Reader, out: bytes, ghost items: seq<Item>) returns (out': bytes)
      requires inp.Valid()
      modifies this, inp
      ensures inp.Valid() && inp.pos >= old(inp.pos) && outBuf == []
      ensures Extends(ScanText(Compiler, env, inp.s, old(inp.pos), []), out, old(outBuf), items, inp, out')
    {
      ghost var whole := ScanText(Compiler, env, inp.s, inp.pos, []);
      ghost var buf := outBuf;
      ghost var acc: seq<Item> := [];
      assert items + acc == items;
      out' := out;
      while true
        invariant inp.Valid() && inp.pos >= old(inp.pos) && |out| <= |out'|
        invariant ScanText(Compiler, env, inp.s, inp.pos, acc) == whole
        invariant Holds(env, out, buf, items) ==> Grown(out', items, acc)
        decreases |inp.s| - inp.pos
      {
        var c := inp.GetC();
        if c == EOF { break; }
        out', acc := ParseOne(inp, out', c, items, acc);
      }
      out' := OutFlush(out', items + acc);
    }

    /** The stream holds what was scanned, if that has few enough arguments and is short enough. */
    ghost predicate Grown(out: bytes, items: seq<Item>, acc: seq<Item>)
      reads this
    {
      FewArgs(acc) && |out| < LENGTHS ==> Holds(env, out, outBuf, items + acc)
    }

    /** One round of `Parse`. */
    method ParseOne(inp: Reader, out: bytes, c: byte, ghost items: seq<Item>, ghost acc: seq<Item>)
      returns (out': bytes, ghost acc': seq<Item>)
      requires inp.Valid()
      modifies this, inp
      ensures inp.Valid() && inp.pos >= old(inp.pos) && |out| <= |out'|
      ensures acc' == acc + (if c == PCT then ScanFunc(Compiler, env, inp.s, old(inp.pos)).items else [Ch(c)])
      ensures inp.pos == if c == PCT then ScanFunc(Compiler, env, inp.s, old(inp.pos)).next else old(inp.pos)
      ensures old(Grown(out, items, acc)) ==> Grown(out', items, acc')
    {
      ghost var more := if c == PCT then ScanFunc(Compiler, env, inp.s, inp.pos).items else [Ch(c)];
      acc' := acc + more;
      assert (items + acc) + more == items + acc';
      FewConcat(acc, more);
      out' := ParseC(inp, out, c, items + acc);
    }

    /** `ParseC`. */
    method ParseC(inp: Reader, out: bytes, c: byte, ghost items: seq<Item>) returns (out': bytes)
      requires inp.Valid()
      modifies this, inp
      ensures inp.Valid() && inp.pos >= old(inp.pos)
      ensures c == PCT ==> Extends(ScanFunc(Compiler, env, inp.s, old(inp.pos)), out, old(outBuf), items, inp, out')
      ensures c != PCT ==> Extends(Scan([Ch(c)], old(inp.pos)), out, old(outBuf), items, inp, out')
      decreases |inp.s| - inp.pos, 1
    {
      if c == PCT {
        out' := ParseFunc(inp, out, items);
      } else {
        out' := out;
        OutC(out, c, items);
      }
    }

    /** `OutC`. */
    method OutC(ghost out: bytes, c: byte, ghost items: seq<Item>)
      modifies this
      ensures outBuf == old(outBuf) + [c]
      ensures Holds(env, out, old(outBuf), items) ==> Holds(env, out, outBuf, items + [Ch(c)])
    {
      if Holds(env, out, outBuf, items) {
        HoldsChar(env, out, outBuf, items, c);
      }
      outBuf := outBuf + [c];
    }

    /** `ParseFunc`: compile what follows a percent sign. */
    method ParseFunc(inp: Reader, out: bytes, ghost items: seq<Item>) returns (out': bytes)
      requires inp.Valid()
      modifies this, inp
      ensures inp.Valid() && inp.pos >= old(inp.pos)
      ensures Extends(ScanFunc(Compiler, env, inp.s, old(inp.pos)), out, old(outBuf), items, inp, out')
      decreases |inp.s| - inp.pos, 0
    {
      ghost var i := inp.pos;
      var c := inp.GetC();
      if IsSymFirst(c) {
        out' := ParseCall(inp, out, items, c, i);
      } else {
        out' := out;
        OutC(out, PCT, items);
        if c != EOF && c != PCT {
          if c == RP || c == COMMA || c == LP || c == DQ {
            var ok := inp.UngetC(c);
          } else {
            OutC(out, c, items + [Ch(PCT)]);
            assert items + [Ch(PCT)] + [Ch(c)] == items + [Ch(PCT), Ch(c)];
          }
        }
      }
    }

    /** The part of `ParseFunc` that reads a name, its first character being `c`. */
    method ParseCall(inp: Reader, out: bytes, ghost items: seq<Item>, c: byte, ghost i: nat) returns (out': bytes)
      requires inp.Valid() && inp.pos == i + 1 && inp.s[i] == c && IsSymFirst(c)
      modifies this, inp
      ensures inp.Valid() && inp.pos >= old(inp.pos)
      ensures Extends(ScanFunc(Compiler, env, inp.s, i), out, old(outBuf), items, inp, out')
      decreases |inp.s| - inp.pos, 0
    {
      var name, c := [c], c;
      out' := out;
      while true
        invariant inp.Valid() && i < inp.pos && name == inp.s[i..inp.pos]
        invariant SkipName(inp.s, i + 1) == SkipName(inp.s, inp.pos)
        invariant outBuf == old(outBuf) && out' == out
        decreases |inp.s| - inp.pos
      {
        c := inp.GetC();
        if c == EOF { break; }
        if c == LP {
          out' := CompileCall(inp, out, items, name);
          return;
        } else if c == PCT {
          out' := OutFlush(out, items);
          ghost var flushed := out';
          ghost var rn, pad;
          out', rn, pad := OutFunc(out', name, []);
          if |out'| < LENGTHS && Holds(env, flushed, [], items) {
            HoldsRef(env, flushed, items, rn, pad, name);
          }
          return;
        } else if IsSym(c) {
          name := name + [c];
        } else {
          break;
        }
      }
      OutBroken(out, items, c);
    }

    /** A name broken off by `c` is dropped: the percent sign and `c` are text. */
    method OutBroken(ghost out: bytes, ghost items: seq<Item>, c: byte)
      modifies this
      ensures Holds(env, out, old(outBuf), items) ==>
        Holds(env, out, outBuf, items + Chars([PCT] + [] + Given(c)))
    {
      if Holds(env, out, outBuf, items) {
        HoldsText(env, out, outBuf, items, [PCT] + [] + Given(c));
      }
      outBuf := outBuf + [PCT];
      if c != EOF {
        outBuf := outBuf + [c];
      }
      assert outBuf == old(outBuf) + ([PCT] + [] + Given(c));
    }

    /** The part of `ParseFunc` that compiles the arguments of `name`. */
    method CompileCall(inp: Reader, out: bytes, ghost items: seq<Item>, name: bytes) returns (out': bytes)
      requires inp.Valid() && name != []
      modifies this, inp
      ensures inp.Valid() && inp.pos >= old(inp.pos)
      ensures Extends(CallScan(Compiler, env, inp.s, old(inp.pos), name), out, old(outBuf), items, inp, out')
      decreases |inp.s| - inp.pos, 7
    {
      ghost var r := CallScan(Compiler, env, inp.s, inp.pos, name);
      out' := OutFlush(out, items);
      ghost var flushed := out';
      var args;
      match env.find(name) {
        case Bound(qmap) => args := ParseCompArgs(inp, qmap);
        case Unbound => args := ParseCompArgs(inp, None);
      }
      ghost var rn, pad;
      out', rn, pad := OutFunc(out', name, args);
      if FewArgs(r.items) && |out'| < LENGTHS && Holds(env, flushed, [], items) {
        HoldsCall(env, flushed, items, rn, pad, name, args, r.items[0].args);
      }
    }

    /** `ParseCompArgs`: compile the arguments of a call. */
    method ParseCompArgs(inp: Reader, qmap: Option<bytes>) returns (args: seq<CompArg>)
      requires inp.Valid() && outBuf == []
      modifies this, inp
      ensures inp.Valid() && inp.pos >= old(inp.pos) && outBuf == []
      ensures var r := ScanArgs(Compiler, env, inp.s, old(inp.pos), FirstMode(qmap), []);
        inp.pos == r.next && KeptIfShort(env, args, r.args, FirstMode(qmap))
      decreases |inp.s| - inp.pos, 6
    {
      ghost var q0 := FirstMode(qmap);
      ghost var whole := ScanArgs(Compiler, env, inp.s, inp.pos, q0, []);
      ghost var acc: seq<ArgText>, q := [], q0;
      var qmode: byte := ZERO;
      var ahead := qmap;
      if qmap.Some? {
        qmode := if At(qmap.value, 0) == ALL || At(qmap.value, 0) == ONE then ONE else ZERO;
        ahead := if At(qmap.value, 0) == ALL then None
                 else if qmap.value == [] then Some([])
                 else Some(qmap.value[1..]);
      }
      var more := true;
      args := [];
      while more
        invariant inp.Valid() && inp.pos >= old(inp.pos) && outBuf == []
        invariant InStep(q0, q, qmode, ahead) && q == ModeAt(q0, |args|)
        invariant KeptIfShort(env, args, acc, q0)
        invariant whole == if more then ScanArgs(Compiler, env, inp.s, inp.pos, q, acc) else ArgsScan(acc, inp.pos)
        decreases |inp.s| - inp.pos, more
      {
        ghost var one := NextArg(Compiler, env, inp.s, inp.pos, qmode);
        var arg;
        arg, more := ParseCompNext(inp, qmode);
        ModeAtNext(q0, |args|);
        KeptMore(env, args, acc, q0, arg, one.arg);
        args := args + [arg];
        acc := acc + [one.arg];
        qmode, ahead := StepMap(q0, q, qmode, ahead);
        q := NextMode(q);
      }
    }

    /** Take the next character of the quote map, if there is one. */
    method StepMap(ghost q0: QMode, ghost q: QMode, qmode: byte, ahead: Option<bytes>)
      returns (qmode': byte, ahead': Option<bytes>)
      requires InStep(q0, q, qmode, ahead)
      ensures InStep(q0, NextMode(q), qmode', ahead')
    {
      qmode', ahead' := qmode, ahead;
      if ahead.Some? {
        if ahead.value != [] {
          if ahead.value[0] == ONE {
            return ONE, Some(ahead.value[1..]);
          } else if ahead.value[0] == ZERO {
            return ZERO, Some(ahead.value[1..]);
          }
        } else {
          qmode' := ZERO;
        }
      }
    }

    /** One round of the argument loop. */
    method ParseCompNext(inp: Reader, qmode: byte) returns (arg: CompArg, more: bool)
      requires inp.Valid() && outBuf == [] && (qmode == ZERO || qmode == ONE)
      modifies this, inp
      ensures inp.Valid() && inp.pos >= old(inp.pos) && outBuf == [] && (more ==> inp.pos > old(inp.pos))
      ensures var r := NextArg(Compiler, env, inp.s, old(inp.pos), qmode);
        && inp.pos == r.next && more == r.more
        && (FewInArg(r.arg) && |arg.text| < LENGTHS ==> Keeps(env, arg, r.arg, qmode))
      decreases |inp.s| - inp.pos, 5
    {
      var c := inp.GetNonSpace();
      var quot, cur := ARG_STR, [];
      if c == SQ {
        quot := ARG_QSTR;
        c := inp.GetC();
      }
      if qmode == ONE || quot != 0 {
        more, cur := ParseArgQuoted(inp, c);
      } else {
        more, cur := ParseCompArg(inp, c);
        quot := ARG_CMP;
      }
      return CompArg(cur, quot), more && c != EOF;
    }

    /** `ParseCompArg`: compile a live argument whose first character is `c`. */
    method ParseCompArg(inp: Reader, c: byte) returns (more: bool, cur: bytes)
      requires inp.Valid() && outBuf == []
      modifies this, inp
      ensures inp.Valid() && inp.pos >= old(inp.pos) && outBuf == []
      ensures CompiledArg(StartArg(Compiler, env, inp.s, old(inp.pos), c), inp, more, cur)
      decreases |inp.s| - inp.pos, 4
    {
      var m, c := StartState(c), c;
      if m.quoted != 0 {
        c := inp.GetC();
      }
      more, cur := ParseCompRest(inp, c, m);
    }

    ghost predicate CompiledArg(r: ArgScan, inp: Reader, more: bool, cur: bytes)
      reads this, inp
    {
      && inp.pos == r.next && more == r.more
      && (FewArgs(r.items) && |cur| < LENGTHS ==> Means(env, cur, r.items))
    }

    /** The loop of `ParseCompArg`, from the state `m` its opening quote leaves. */
    method ParseCompRest(inp: Reader, c: byte, m: ArgState) returns (more: bool, cur: bytes)
      requires inp.Valid() && Quotes(m) && m.numsp == 0 && outBuf == []
      modifies this, inp
      ensures inp.Valid() && inp.pos >= old(inp.pos) && outBuf == []
      ensures CompiledArg(ScanArg(Compiler, env, inp.s, old(inp.pos), c, m, []), inp, more, cur)
      decreases |inp.s| - inp.pos, 3
    {
      ghost var whole := ScanArg(Compiler, env, inp.s, inp.pos, c, m, []);
      var m, c, tmp := m, c, [];
      ghost var acc: seq<Item> := [];
      cur := [];
      HoldsNothing(env);
      while true
        invariant inp.Valid() && inp.pos >= old(inp.pos) && outBuf == []
        invariant Quotes(m) && m.numsp <= |tmp| && Spaces(acc, m.numsp)
        invariant ScanArg(Compiler, env, inp.s, inp.pos, c, m, acc) == whole
        invariant Fits(env, cur, tmp, acc)
        decreases |inp.s| - inp.pos
      {
        if c == PCT {
          cur, acc := CompArgCall(inp, cur, tmp, acc, whole, m);
          m := m.(numsp := 0);
          tmp := [];
        } else {
          var act;
          m, act, tmp, acc := CompArgPlain(inp, m, c, cur, tmp, acc);
          if act.Finish? {
            FitsTrim(env, cur, tmp, acc, m.numsp);
            cur := OutText(cur, tmp[..|tmp| - m.numsp], acc[..|acc| - m.numsp]);
            return act.more, cur;
          }
        }
        c := inp.GetC();
        if c == EOF {
          cur := OutText(cur, tmp, acc);
          return false, cur;
        }
      }
    }

    /** Write the text gathered for an argument, under a mask that nobody applies. */
    method OutText(cur: bytes, tmp: bytes, ghost acc: seq<Item>) returns (cur': bytes)
      ensures |cur| <= |cur'|
      ensures Fits(env, cur, tmp, acc) ==> Fits(env, cur', [], acc)
      ensures Fits(env, cur, tmp, acc) && FewArgs(acc) && |cur'| < LENGTHS ==> Means(env, cur', acc)
    {
      cur' := cur;
      assert acc[..|acc|] == acc;
      if tmp != [] {
        var rn := Random();
        var pad := Padding();
        cur' := cur + OutRecord(rn, pad, tmp);
        if |cur'| < LENGTHS && Holds(env, cur, tmp, acc) {
          HoldsFlushed(env, cur, rn, pad, tmp, acc);
        }
      }
    }

    /** A character of a compiled argument that is no percent sign. */
    method CompArgPlain(inp: Reader, m: ArgState, c: byte, ghost cur: bytes, tmp: bytes, ghost acc: seq<Item>)
      returns (m': ArgState, act: Act, tmp': bytes, ghost acc': seq<Item>)
      requires inp.Valid() && Quotes(m) && c != PCT && Fits(env, cur, tmp, acc)
      requires m.numsp <= |tmp| && Spaces(acc, m.numsp)
      modifies inp
      ensures inp.Valid() && inp.pos >= old(inp.pos) && Quotes(m') && Fits(env, cur, tmp', acc')
      ensures m'.numsp <= |tmp'| && Spaces(acc', m'.numsp)
      ensures ScanArg(Compiler, env, inp.s, old(inp.pos), c, m, acc)
           == (if act.Finish? then ArgScan(acc'[..|acc'| - m'.numsp], inp.pos, act.more)
               else MoreArg(Compiler, env, inp.s, inp.pos, m', acc'))
    {
      var c' := c;
      tmp', acc' := tmp, acc;
      m', act, c' := ArgChar(inp, m, c);
      if act.Keep? {
        FitsChar(env, cur, tmp, acc, c');
        tmp' := tmp + [c'];
        acc' := acc + [Ch(c')];
      }
    }

    /** The call inside a compiled argument: write the gathered text, then `ParseFunc`. */
    method CompArgCall(inp: Reader, cur: bytes, tmp: bytes, ghost acc: seq<Item>, ghost whole: ArgScan,
                       ghost m: ArgState)
      returns (cur': bytes, ghost acc': seq<Item>)
      requires inp.Valid() && m.numsp <= |acc| && outBuf == []
      requires ScanArg(Compiler, env, inp.s, inp.pos, PCT, m, acc) == whole
      requires Fits(env, cur, tmp, acc)
      modifies this, inp
      ensures inp.Valid() && inp.pos >= old(inp.pos) && outBuf == []
      ensures MoreArg(Compiler, env, inp.s, inp.pos, m.(numsp := 0), acc') == whole
      ensures Fits(env, cur', [], acc')
      decreases |inp.s| - inp.pos, 1
    {
      acc' := acc;
      ghost var r := ScanFunc(Compiler, env, inp.s, inp.pos);
      cur' := OutText(cur, tmp, acc);
      cur' := ParseFunc(inp, cur', acc);
      acc' := acc + r.items;
      FewConcat(acc, r.items);
      cur' := OutFlush(cur', acc');
    }
  }

  /** The compiler's quote mode and map agree with `q`; a map that holds all arguments raw,
    and an absent one, are dropped, and the mode then stays that of `q0`. */
  predicate InStep(q0: QMode, q: QMode, qmode: byte, ahead: Option<bytes>) {
    && (qmode == ZERO || qmode == ONE)
    && match ahead
    case Some(m) => q == QMode(qmode, m)
    case None => q == q0 && qmode == q0.mode && NextMode(q0) == q0
  }
}
