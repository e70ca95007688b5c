/** The compiled form of a macro text: a stream of records whose names and arguments may be
  masked by a byte, and what running such a stream does. */
module MacroStream {
  import opened Bytes
  import opened Options
  import opened Macro

  const BC_FUNC: byte := 1
  const BC_OUT: byte := 2

  /** Argument kinds: to be parsed, quoted, compiled. */
  const ARG_STR := 0
  const ARG_QSTR := 1
  const ARG_CMP := 2

  /** Lengths of arguments have 30 bits. */
  const LENGTHS := 0x4000_0000

  const BASE_SIZE := 8
  const ARGS_SIZE := 2
  const ARG_SIZE := 4

  // ---------------------------------------------------------------- masking

  /** Exclusive or of two numbers bit by bit. */
  function Xor(a: nat, b: nat): (r: nat)
    decreases a + b
  {
    if a == 0 && b == 0 then 0 else (if a % 2 == b % 2 then 0 else 1) + 2 * Xor(a / 2, b / 2)
  }

  lemma {:induction false} XorBound(a: nat, b: nat, bits: nat)
    requires a < Pow2(bits) && b < Pow2(bits)
    ensures Xor(a, b) < Pow2(bits)
  {
    if bits > 0 {
      XorBound(a / 2, b / 2, bits - 1);
    }
  }

  function Pow2(k: nat): (r: nat)
    ensures r > 0
  {
    if k == 0 then 1 else 2 * Pow2(k - 1)
  }

  lemma {:induction false} XorTwice(a: nat, b: nat)
    ensures Xor(Xor(a, b), b) == a
    decreases a + b
  {
    if a != 0 || b != 0 {
      XorTwice(a / 2, b / 2);
      var x, h := Xor(a, b), Xor(a / 2, b / 2);
      var d := if a % 2 == b % 2 then 0 else 1;
      assert x == d + 2 * h;
      assert x / 2 == h && x % 2 == d;
      assert (if d == b % 2 then 0 else 1) == a % 2;
    }
  }

  function MaskByte(c: byte, rn: byte): byte {
    assert Pow2(8) == 256 by {
      assert Pow2(4) == 16;
    }
    XorBound(c, rn, 8);
    Xor(c, rn)
  }

  function Mask(t: bytes, rn: byte): (r: bytes)
    ensures |r| == |t|
  {
    seq(|t|, k requires 0 <= k < |t| => MaskByte(t[k], rn))
  }

  lemma MaskTwice(t: bytes, rn: byte)
    ensures Mask(Mask(t, rn), rn) == t
  {
    forall k | 0 <= k < |t| ensures Mask(Mask(t, rn), rn)[k] == t[k] {
      XorTwice(t[k], rn);
    }
  }

  // ---------------------------------------------------------------- numbers

  /** A number in little-endian bytes, and back. */
  function Enc(x: nat, width: nat): (r: bytes)
    ensures |r| == width
    decreases width
  {
    if width == 0 then [] else [x % 256] + Enc(x / 256, width - 1)
  }

  function Dec(b: bytes): (r: nat) {
    if b == [] then 0 else b[0] as nat + 256 * Dec(b[1..])
  }

  function Pow256(k: nat): (r: nat)
    ensures r > 0
  {
    if k == 0 then 1 else 256 * Pow256(k - 1)
  }

  lemma {:induction false} DecEnc(x: nat, width: nat)
    requires x < Pow256(width)
    ensures Dec(Enc(x, width)) == x
    decreases width
  {
    if width > 0 {
      DecEnc(x / 256, width - 1);
      assert Enc(x, width)[1..] == Enc(x / 256, width - 1);
    }
  }

  /** A signed field of the given width. */
  function Signed(b: bytes): int {
    if 2 * Dec(b) < Pow256(|b|) then Dec(b) else Dec(b) - Pow256(|b|)
  }

  lemma SignedEnc(x: nat, width: nat)
    requires 2 * x < Pow256(width)
    ensures Signed(Enc(x, width)) == x
  {
    DecEnc(x, width);
  }

  // ---------------------------------------------------------------- records

  /** The header of a record: its kind, its mask, two bytes of padding, its length. */
  function Base(bc: byte, rn: byte, pad: bytes, ln: nat): (r: bytes)
    requires |pad| == 2
    ensures |r| == BASE_SIZE
  {
    [bc, rn] + pad + Enc(ln % Pow256(4), 4)
  }

  /** An argument as the compiler keeps it. */
  datatype CompArg = CompArg(text: bytes, at: nat)

  function ArgHead(a: CompArg): (r: bytes)
    ensures |r| == ARG_SIZE
  {
    Enc(a.at % 4 + 4 * (|a.text| % LENGTHS), 4)
  }

  function ArgBytes(args: seq<CompArg>, rn: byte): bytes {
    if args == [] then []
    else ArgHead(args[0]) + Mask(args[0].text, rn) + ArgBytes(args[1..], rn)
  }

  function OutRecord(rn: byte, pad: bytes, text: bytes): bytes
    requires |pad| == 2
  {
    Base(BC_OUT, rn, pad, |text|) + text
  }

  function FuncRecord(rn: byte, pad: bytes, name: bytes, args: seq<CompArg>): bytes
    requires |pad| == 2
  {
    Base(BC_FUNC, rn, pad, |name|) + Mask(name, rn) + ArgsRecord(rn, args)
  }

  function ArgsRecord(rn: byte, args: seq<CompArg>): bytes {
    Enc(|args| % Pow256(2), 2) + ArgBytes(args, rn)
  }

  // ---------------------------------------------------------------- decompiling

  datatype Printed = Printed(text: bytes, rest: bytes)

  function Before(text: bytes, r: Option<bytes>): Option<bytes> {
    match r
    case None => None
    case Some(t) => Some(text + t)
  }

  /** The stream `s` printed as macro text; None when a length is negative. */
  function Decompiled(s: bytes): Option<bytes>
    decreases |s|, 1
  {
    if |s| < BASE_SIZE then Some([])
    else
      var ln := Signed(s[4..8]);
      if ln < 0 then None
      else if |s| < BASE_SIZE + ln then Some([])
      else
        var data, rest := s[8..8 + ln], s[8 + ln..];
        if s[0] == BC_FUNC then
          match DecompiledCall(rest, s[1])
          case None => None
          case Some(p) => Before([PCT] + Mask(data, s[1]) + p.text, Decompiled(p.rest))
        else if s[0] == BC_OUT then Before(data, Decompiled(rest))
        else Decompiled(rest)
  }

  /** What is printed behind a name, and what is left of the stream. */
  function DecompiledCall(s: bytes, rn: byte): (r: Option<Printed>)
    ensures r.Some? ==> |r.value.rest| <= |s|
    decreases |s|, 2
  {
    if |s| < ARGS_SIZE then Some(Printed([], []))
    else
      var cnt := Signed(s[..2]);
      match DecompiledArgs(s[2..], cnt, rn)
      case None => None
      case Some(p) => Some(Printed([if cnt > 0 then LP else PCT] + p.text + (if cnt > 0 then [RP] else []), p.rest))
  }

  /** The next `n` arguments, with commas between them. */
  function DecompiledArgs(s: bytes, n: int, rn: byte): (r: Option<Printed>)
    ensures r.Some? ==> |r.value.rest| <= |s|
    decreases |s|, 0
  {
    if n <= 0 then Some(Printed([], s))
    else if |s| < ARG_SIZE || |s| < ARG_SIZE + Dec(s[..4]) / 4 then Some(Printed([], []))
    else
      var ln, at := Dec(s[..4]) / 4, Dec(s[..4]) % 4;
      var data, rest := Mask(s[4..4 + ln], rn), s[4 + ln..];
      match DecompiledArg(data, at)
      case None => None
      case Some(t) =>
        match DecompiledArgs(rest, n - 1, rn)
        case None => None
        case Some(p) => Some(Printed(t + (if n > 1 then [COMMA] else []) + p.text, p.rest))
  }

  function DecompiledArg(data: bytes, at: nat): Option<bytes>
    decreases |data|, 2
  {
    if at == ARG_CMP then Decompiled(data) else Some((if at == ARG_QSTR then [SQ] else []) + data)
  }

  // ---------------------------------------------------------------- running

  datatype Taken = Taken(args: seq<Arg>, rest: bytes, log: seq<Call>)

  function Then(text: bytes, r: Option<Outcome>): Option<Outcome> {
    match r
    case None => None
    case Some(o) => Some(Outcome(text + o.text, o.log))
  }

  /** The outcome of running the stream `s` after the calls `log`. It is None only where the code
    has no defined behaviour: an unbound name at the end of the stream, whose argument count is
    read from nowhere, and a negative length in an argument that has to be decompiled. */
  function Run(env: Env, s: bytes, log: seq<Call>): Option<Outcome>
    decreases |s|, 0
  {
    if |s| < BASE_SIZE || Signed(s[4..8]) <= 0 || |s| < BASE_SIZE + Signed(s[4..8]) then Some(Outcome([], log))
    else
      var ln := Signed(s[4..8]);
      var data, rest := s[8..8 + ln], s[8 + ln..];
      if s[0] == BC_FUNC then RunNamed(env, Mask(data, s[1]), s[1], rest, log)
      else if s[0] == BC_OUT then Then(data, Run(env, rest, log))
      else Run(env, rest, log)
  }

  /** What a call record does, its name unmasked and the stream `s` behind it. */
  function RunNamed(env: Env, name: bytes, rn: byte, s: bytes, log: seq<Call>): Option<Outcome>
    decreases |s|, 3
  {
    if |s| < ARGS_SIZE then
      if env.find(name).Bound? then Some(Outcome([], log)) else None
    else
      var cnt := Signed(s[..2]);
      match env.find(name)
      case Unbound =>
        if cnt > 0 then Then([PCT] + name + [LP] + DOTS + [RP], Run(env, Skipped(s[2..], cnt), log))
        else Then([PCT] + name + [PCT], Run(env, s[2..], log))
      case Bound(qmap) =>
        match RunArgs(env, s[2..], cnt, rn, FirstMode(qmap), log)
        case None => None
        case Some(t) =>
          var call := Call(name, if cnt == 0 then None else Some(t.args));
          Then(env.eval(t.log, call), Run(env, t.rest, t.log + [call]))
  }

  /** The stream behind the next `n` arguments. */
  function Skipped(s: bytes, n: int): (r: bytes)
    ensures |r| <= |s|
    decreases |s|
  {
    if n <= 0 then s
    else if |s| < ARG_SIZE || |s| < ARG_SIZE + Dec(s[..4]) / 4 then []
    else Skipped(s[4 + Dec(s[..4]) / 4..], n - 1)
  }

  /** The values of the next `n` arguments of a call; a stream cut short yields fewer. */
  function RunArgs(env: Env, s: bytes, n: int, rn: byte, q: QMode, log: seq<Call>): (r: Option<Taken>)
    ensures r.Some? ==> |r.value.rest| <= |s|
    decreases |s|, 2
  {
    if n <= 0 then Some(Taken([], s, log))
    else if |s| < ARG_SIZE || |s| < ARG_SIZE + Dec(s[..4]) / 4 then Some(Taken([], [], log))
    else
      var ln, at := Dec(s[..4]) / 4, Dec(s[..4]) % 4;
      var data, rest := Mask(s[4..4 + ln], rn), s[4 + ln..];
      match RunArg(env, data, at, q.mode, log)
      case None => None
      case Some(o) =>
        match RunArgs(env, rest, n - 1, rn, NextMode(q), o.log)
        case None => None
        case Some(t) => Some(Taken([Arg(o.text, at == ARG_QSTR)] + t.args, t.rest, t.log))
  }

  /** The value of one argument: run, parsed, decompiled, or taken as it is. */
  function RunArg(env: Env, data: bytes, at: nat, mode: byte, log: seq<Call>): Option<Outcome>
    decreases |data|, 1
  {
    if at != ARG_QSTR && mode == ZERO then
      if at == ARG_CMP then Run(env, data, log)
      else Some(EvalItems(env, ScanText(Interpreter, env, data, 0, []).items, log))
    else if at == ARG_CMP then
      match Decompiled(data)
      case None => None
      case Some(t) => Some(Outcome(t, log))
    else Some(Outcome(data, log))
  }

  lemma XorZero(a: nat)
    ensures Xor(a, 0) == a
  {
  }

  /** Running past `chunk` does what evaluating `items` does, whatever follows and whatever
    was called before. */
  ghost predicate Means(env: Env, chunk: bytes, items: seq<Item>) {
    forall rest, log {:trigger Run(env, chunk + rest, log)} ::
      Run(env, chunk + rest, log)
      == var e := EvalItems(env, items, log); Then(e.text, Run(env, rest, e.log))
  }

  lemma MeansNothing(env: Env)
    ensures Means(env, [], [])
  {
    forall rest, log ensures Run(env, [] + rest, log) == Then([], Run(env, rest, log)) {
      assert [] + rest == rest;
      ThenNothing(Run(env, rest, log));
    }
  }

  lemma ThenNothing(r: Option<Outcome>)
    ensures Then([], r) == r
  {
    if r.Some? {
      assert [] + r.value.text == r.value.text;
    }
  }

  lemma ThenTwice(a: bytes, b: bytes, r: Option<Outcome>)
    ensures Then(a, Then(b, r)) == Then(a + b, r)
  {
    if r.Some? {
      assert a + (b + r.value.text) == (a + b) + r.value.text;
    }
  }

  lemma MeansConcat(env: Env, a: bytes, xs: seq<Item>, b: bytes, ys: seq<Item>)
    requires Means(env, a, xs) && Means(env, b, ys)
    ensures Means(env, a + b, xs + ys)
  {
    forall rest, log
      ensures Run(env, (a + b) + rest, log)
           == var e := EvalItems(env, xs + ys, log); Then(e.text, Run(env, rest, e.log))
    {
      var e := EvalItems(env, xs, log);
      var f := EvalItems(env, ys, e.log);
      assert (a + b) + rest == a + (b + rest);
      assert Run(env, a + (b + rest), log) == Then(e.text, Run(env, b + rest, e.log));
      ThenTwice(e.text, f.text, Run(env, rest, f.log));
      EvalConcat(env, xs, ys, log);
    }
  }

  /** A whole stream evaluates the text it means. */
  lemma MeansRun(env: Env, s: bytes, items: seq<Item>, log: seq<Call>)
    requires Means(env, s, items)
    ensures Run(env, s, log) == Some(EvalItems(env, items, log))
  {
    assert s + [] == s;
    var e := EvalItems(env, items, log);
    assert e.text + [] == e.text;
    assert Run(env, s + [], log) == Then(e.text, Run(env, [], e.log));
  }

  /** The fields of a record header, with its data behind it. */
  lemma BaseFields(bc: byte, rn: byte, pad: bytes, data: bytes, rest: bytes)
    requires |pad| == 2 && |data| < LENGTHS
    ensures var s := Base(bc, rn, pad, |data|) + data + rest;
      && s[0] == bc && s[1] == rn && Signed(s[4..8]) == |data|
      && s[8..8 + |data|] == data && s[8 + |data|..] == rest
  {
    var s := Base(bc, rn, pad, |data|) + data + rest;
    assert Pow256(4) == 0x1_0000_0000 by {
      assert Pow256(2) == 0x1_0000;
    }
    assert |data| % Pow256(4) == |data|;
    assert s[4..8] == Enc(|data|, 4);
    SignedEnc(|data|, 4);
  }

  lemma MeansOut(env: Env, rn: byte, pad: bytes, text: bytes)
    requires |pad| == 2 && text != [] && |text| < LENGTHS
    ensures Means(env, OutRecord(rn, pad, text), Chars(text))
  {
    forall rest, log
      ensures Run(env, OutRecord(rn, pad, text) + rest, log)
           == var e := EvalItems(env, Chars(text), log); Then(e.text, Run(env, rest, e.log))
    {
      BaseFields(BC_OUT, rn, pad, text, rest);
      EvalChars(env, text, log);
    }
  }

  // ---------------------------------------------------------------- calls

  /** What the compiler keeps for an argument read in mode `mode`. */
  ghost predicate Keeps(env: Env, a: CompArg, x: ArgText, mode: byte) {
    match x
    case Raw(t, quot) => a == CompArg(t, if quot then ARG_QSTR else ARG_STR) && (quot || mode != ZERO)
    case Live(items) => a.at == ARG_CMP && Means(env, a.text, items) && mode == ZERO
  }

  ghost predicate KeepsAll(env: Env, args: seq<CompArg>, xs: seq<ArgText>, q: QMode) {
    && |args| == |xs|
    && forall k :: 0 <= k < |xs| ==> Keeps(env, args[k], xs[k], ModeAt(q, k).mode)
  }

  lemma RunKept(env: Env, a: CompArg, x: ArgText, mode: byte, log: seq<Call>)
    requires Keeps(env, a, x, mode)
    ensures var v := EvalArg(env, x, log);
      RunArg(env, a.text, a.at, mode, log) == Some(Outcome(v.0.text, v.1)) && v.0.quot == (a.at == ARG_QSTR)
  {
    if x.Live? {
      MeansRun(env, a.text, x.items, log);
    }
  }

  lemma ArgFields(a: CompArg, rn: byte, rest: bytes)
    requires a.at < 4 && |a.text| < LENGTHS
    ensures var s := ArgHead(a) + Mask(a.text, rn) + rest;
      && Dec(s[..4]) / 4 == |a.text| && Dec(s[..4]) % 4 == a.at
      && Mask(s[4..4 + |a.text|], rn) == a.text && s[4 + |a.text|..] == rest
  {
    HeadFields(a);
    ThreeParts(ArgHead(a), Mask(a.text, rn), rest);
    MaskTwice(a.text, rn);
  }

  lemma HeadFields(a: CompArg)
    requires a.at < 4 && |a.text| < LENGTHS
    ensures Dec(ArgHead(a)) / 4 == |a.text| && Dec(ArgHead(a)) % 4 == a.at
  {
    FourBytes();
    PackedFields(a.at, |a.text|);
    DecEnc(a.at + 4 * |a.text|, 4);
  }

  lemma FourBytes()
    ensures Pow256(4) == 0x1_0000_0000
  {
    assert Pow256(2) == 0x1_0000;
  }

  lemma PackedFields(at: nat, n: nat)
    requires at < 4 && n < LENGTHS
    ensures at % 4 + 4 * (n % LENGTHS) == at + 4 * n < 0x1_0000_0000
    ensures (at + 4 * n) / 4 == n && (at + 4 * n) % 4 == at
  {
  }

  lemma ThreeParts(a: bytes, b: bytes, c: bytes)
    ensures var s := a + b + c;
      s[..|a|] == a && s[|a|..|a| + |b|] == b && s[|a| + |b|..] == c
  {
  }

  lemma {:induction false} RunKeptArgs(env: Env, args: seq<CompArg>, xs: seq<ArgText>, rn: byte, q: QMode,
                                       rest: bytes, log: seq<Call>)
    requires KeepsAll(env, args, xs, q) && |ArgBytes(args, rn)| < LENGTHS
    ensures var v := EvalArgs(env, xs, log);
      RunArgs(env, ArgBytes(args, rn) + rest, |args|, rn, q, log) == Some(Taken(v.args, rest, v.log))
    decreases |args|
  {
    if args == [] {
      assert ArgBytes(args, rn) + rest == rest;
    } else {
      var v := EvalArg(env, xs[0], log);
      FirstArg(args, rn, rest);
      KeptParts(env, args, xs, q, rn);
      RunKeptArgs(env, args[1..], xs[1..], rn, NextMode(q), rest, v.1);
      RunKeptOne(env, args[0], xs[0], ArgBytes(args[1..], rn) + rest, |args|, rn, q, log);
    }
  }

  lemma FirstArg(args: seq<CompArg>, rn: byte, rest: bytes)
    requires args != []
    ensures ArgBytes(args, rn) + rest
         == ArgHead(args[0]) + Mask(args[0].text, rn) + (ArgBytes(args[1..], rn) + rest)
  {
    var h, t, more := ArgHead(args[0]), Mask(args[0].text, rn), ArgBytes(args[1..], rn);
    assert h + t + more + rest == h + t + (more + rest);
  }

  /** The record of the first of `n` arguments. */
  lemma RunKeptOne(env: Env, a: CompArg, x: ArgText, more: bytes, n: nat, rn: byte, q: QMode, log: seq<Call>)
    requires Keeps(env, a, x, q.mode) && a.at < 4 && |a.text| < LENGTHS && n > 0
    ensures var v := EvalArg(env, x, log);
      RunArgs(env, ArgHead(a) + Mask(a.text, rn) + more, n, rn, q, log)
      == match RunArgs(env, more, n - 1, rn, NextMode(q), v.1)
         case None => None
         case Some(t) => Some(Taken([v.0] + t.args, t.rest, t.log))
  {
    ArgFields(a, rn, more);
    RunKept(env, a, x, q.mode, log);
  }

  /** A call record means the call, or its printed form when the name is not bound. */
  lemma MeansFunc(env: Env, rn: byte, pad: bytes, name: bytes, args: seq<CompArg>, xs: seq<ArgText>)
    requires |pad| == 2 && 0 < |name| < LENGTHS && |ArgBytes(args, rn)| < LENGTHS
    requires 0 < |args| <= MAX_ARGS && KeepsAll(env, args, xs, FirstMode(QuoteMap(env, name)))
    ensures Means(env, FuncRecord(rn, pad, name, args), [Fn(name, xs)])
  {
    forall rest, log
      ensures Run(env, FuncRecord(rn, pad, name, args) + rest, log)
           == var e := EvalItems(env, [Fn(name, xs)], log); Then(e.text, Run(env, rest, e.log))
    {
      CallFields(env, rn, pad, name, args, rest, log);
      ArgCount(rn, args, rest);
      EvalOne(env, Fn(name, xs), log);
      if env.find(name).Bound? {
        RunKeptArgs(env, args, xs, rn, FirstMode(QuoteMap(env, name)), rest, log);
      } else {
        SkipKept(env, args, xs, rn, FirstMode(QuoteMap(env, name)), rest);
      }
    }
  }

  /** Skipping the arguments written for a call leads to what follows them. */
  lemma {:induction false} SkipKept(env: Env, args: seq<CompArg>, xs: seq<ArgText>, rn: byte, q: QMode, rest: bytes)
    requires KeepsAll(env, args, xs, q) && |ArgBytes(args, rn)| < LENGTHS
    ensures Skipped(ArgBytes(args, rn) + rest, |args|) == rest
    decreases |args|
  {
    if args == [] {
      assert ArgBytes(args, rn) + rest == rest;
    } else {
      FirstArg(args, rn, rest);
      KeptParts(env, args, xs, q, rn);
      SkipKept(env, args[1..], xs[1..], rn, NextMode(q), rest);
      SkipKeptOne(args[0], ArgBytes(args[1..], rn) + rest, |args|, rn);
    }
  }

  lemma SkipKeptOne(a: CompArg, more: bytes, n: nat, rn: byte)
    requires a.at < 4 && |a.text| < LENGTHS && n > 0
    ensures Skipped(ArgHead(a) + Mask(a.text, rn) + more, n) == Skipped(more, n - 1)
  {
    ArgFields(a, rn, more);
  }

  /** The first argument and the others are kept, and their records are short enough. */
  lemma KeptParts(env: Env, args: seq<CompArg>, xs: seq<ArgText>, q: QMode, rn: byte)
    requires KeepsAll(env, args, xs, q) && args != [] && |ArgBytes(args, rn)| < LENGTHS
    ensures Keeps(env, args[0], xs[0], q.mode) && args[0].at < 4 && |args[0].text| < LENGTHS
    ensures KeepsAll(env, args[1..], xs[1..], NextMode(q)) && |ArgBytes(args[1..], rn)| < LENGTHS
  {
    assert Keeps(env, args[0], xs[0], ModeAt(q, 0).mode);
    KeptTail(env, args, xs, q);
  }

  lemma KeptTail(env: Env, args: seq<CompArg>, xs: seq<ArgText>, q: QMode)
    requires KeepsAll(env, args, xs, q) && args != []
    ensures KeepsAll(env, args[1..], xs[1..], NextMode(q))
  {
    forall k | 0 <= k < |xs| - 1
      ensures Keeps(env, args[1..][k], xs[1..][k], ModeAt(NextMode(q), k).mode)
    {
      assert Keeps(env, args[k + 1], xs[k + 1], ModeAt(q, k + 1).mode);
    }
  }

  /** Running a call record, whose data and arguments are given. */
  lemma RunCall(env: Env, s: bytes, rn: byte, data: bytes, tail: bytes, log: seq<Call>)
    requires |s| >= 8 && s[0] == BC_FUNC && s[1] == rn && 0 < |data| && Signed(s[4..8]) == |data|
    requires |s| == 8 + |data| + |tail| && s[8..8 + |data|] == data && s[8 + |data|..] == tail
    requires |tail| >= 2
    ensures Run(env, s, log) == RunNamed(env, Mask(data, rn), rn, tail, log)
  {
  }

  lemma CallFields(env: Env, rn: byte, pad: bytes, name: bytes, args: seq<CompArg>, rest: bytes, log: seq<Call>)
    requires |pad| == 2 && 0 < |name| < LENGTHS && |args| <= MAX_ARGS
    ensures Run(env, FuncRecord(rn, pad, name, args) + rest, log)
         == RunNamed(env, name, rn, ArgsRecord(rn, args) + rest, log)
  {
    var s := FuncRecord(rn, pad, name, args) + rest;
    var tail := ArgsRecord(rn, args) + rest;
    assert s == Base(BC_FUNC, rn, pad, |name|) + Mask(name, rn) + tail;
    BaseFields(BC_FUNC, rn, pad, Mask(name, rn), tail);
    MaskTwice(name, rn);
    RunCall(env, s, rn, Mask(name, rn), tail, log);
  }

  lemma ArgCount(rn: byte, args: seq<CompArg>, rest: bytes)
    requires |args| <= MAX_ARGS
    ensures var tail := ArgsRecord(rn, args) + rest;
      Signed(tail[..2]) == |args| && tail[2..] == ArgBytes(args, rn) + rest
  {
    var n := |args|;
    assert Pow256(1) == 256 && Pow256(2) == 0x1_0000;
    assert n % Pow256(2) == n;
    SignedEnc(n, 2);
    var head, body := Enc(n, 2), ArgBytes(args, rn);
    assert ArgsRecord(rn, args) == head + body;
    assert (head + body) + rest == head + (body + rest);
  }

  lemma MeansRef(env: Env, rn: byte, pad: bytes, name: bytes)
    requires |pad| == 2 && 0 < |name| < LENGTHS
    ensures Means(env, FuncRecord(rn, pad, name, []), [Ref(name)])
  {
    forall rest, log
      ensures Run(env, FuncRecord(rn, pad, name, []) + rest, log)
           == var e := EvalItems(env, [Ref(name)], log); Then(e.text, Run(env, rest, e.log))
    {
      CallFields(env, rn, pad, name, [], rest, log);
      ArgCount(rn, [], rest);
      assert ArgBytes([], rn) + rest == rest;
      EvalOne(env, Ref(name), log);
    }
  }
}
