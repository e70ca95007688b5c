/** The macro language as both the interpreter and the compiler read it: a source text is
  scanned into literal characters and calls, and a scanned text is evaluated left to right.
  Text positions count characters already read; the reader yields EOF past the end. */
module Macro {
  import opened Bytes
  import opened Options

  /** An argument as a function sees it, and one call of a function. */
  datatype Arg = Arg(text: bytes, quot: bool)
  datatype Call = Call(name: bytes, args: Option<seq<Arg>>)

  /** Looking up a name finds nothing, or a function with its quote map. */
  datatype Lookup = Unbound | Bound(qmap: Option<bytes>)

  /** The context: which names are bound, and what a call writes after a history of calls. */
  datatype Env = Env(find: bytes -> Lookup, eval: (seq<Call>, Call) -> bytes)

  /** Who reads a text. */
  datatype Side = Interpreter | Compiler

  /** A scanned text: characters, `%name%` and `%name(args)`; `Live` arguments are texts, `Raw` ones are not. */
  datatype Item = Ch(c: byte) | Ref(name: bytes) | Fn(name: bytes, args: seq<ArgText>)
  datatype ArgText = Raw(text: bytes, quot: bool) | Live(items: seq<Item>)

  /** Output and the history of calls, oldest first. */
  datatype Outcome = Outcome(text: bytes, log: seq<Call>)
  datatype ArgOutcome = ArgOutcome(args: seq<Arg>, log: seq<Call>)

  const EOF: byte := 255
  const PCT: byte := 37
  const LP: byte := 40
  const RP: byte := 41
  const COMMA: byte := 44
  const SQ: byte := 39
  const DQ: byte := 34
  const ESC: byte := 92
  const LC: byte := 123
  const RC: byte := 125

  /** The characters with a meaning, and those that make up names. */
  lemma Characters(c: byte)
    ensures PCT == Ascii('%') && LP == Ascii('(') && RP == Ascii(')') && COMMA == Ascii(',')
    ensures SQ == Ascii('\'') && DQ == Ascii('"') && ESC == Ascii('\\') && LC == Ascii('{') && RC == Ascii('}')
    ensures ZERO == Ascii('0') && ONE == Ascii('1') && ALL == Ascii('A')
    ensures IsSymFirst(c) <==> Ascii(')') < c < Ascii(';') || Ascii('?') < c < Ascii('{')
    ensures IsSym(c) <==> Ascii(')') < c < 127
    ensures DOTS == [Ascii('.'), Ascii('.'), Ascii('.')]
  {
  }

  /** What a runner prints for the arguments of a name that is not bound. */
  const DOTS: bytes := [46, 46, 46]

  /** The most arguments of a call whose quote flags fit their counter. */
  const MAX_ARGS := 112

  // ---------------------------------------------------------------- evaluation

  function EvalItem(env: Env, x: Item, log: seq<Call>): Outcome
    decreases x
  {
    match x
    case Ch(c) => Outcome([c], log)
    case Ref(name) =>
      if env.find(name).Unbound? then Outcome([PCT] + name + [PCT], log)
      else var call := Call(name, None); Outcome(env.eval(log, call), log + [call])
    case Fn(name, args) =>
      if env.find(name).Unbound? then Outcome([PCT] + name + [LP] + DOTS + [RP], log) else
      var a := EvalArgs(env, args, log);
      var call := Call(name, Some(a.args));
      Outcome(env.eval(a.log, call), a.log + [call])
  }

  function EvalItems(env: Env, xs: seq<Item>, log: seq<Call>): Outcome
    decreases xs
  {
    if xs == [] then Outcome([], log)
    else
      var a := EvalItem(env, xs[0], log);
      var b := EvalItems(env, xs[1..], a.log);
      Outcome(a.text + b.text, b.log)
  }

  function EvalArg(env: Env, x: ArgText, log: seq<Call>): (r: (Arg, seq<Call>))
    decreases x
  {
    match x
    case Raw(t, q) => (Arg(t, q), log)
    case Live(items) => var a := EvalItems(env, items, log); (Arg(a.text, false), a.log)
  }

  function EvalArgs(env: Env, xs: seq<ArgText>, log: seq<Call>): ArgOutcome
    decreases xs
  {
    if xs == [] then ArgOutcome([], log)
    else
      var a := EvalArg(env, xs[0], log);
      var b := EvalArgs(env, xs[1..], a.1);
      ArgOutcome([a.0] + b.args, b.log)
  }

  lemma {:induction false} EvalConcat(env: Env, xs: seq<Item>, ys: seq<Item>, log: seq<Call>)
    ensures EvalItems(env, xs + ys, log)
         == var a := EvalItems(env, xs, log); var b := EvalItems(env, ys, a.log);
            Outcome(a.text + b.text, b.log)
    decreases xs
  {
    if xs == [] {
      assert xs + ys == ys;
    } else {
      assert (xs + ys)[1..] == xs[1..] + ys;
      EvalConcat(env, xs[1..], ys, EvalItem(env, xs[0], log).log);
    }
  }

  lemma EvalOne(env: Env, x: Item, log: seq<Call>)
    ensures EvalItems(env, [x], log) == EvalItem(env, x, log)
  {
    var a := EvalItem(env, x, log);
    assert EvalItems(env, [x][1..], a.log) == Outcome([], a.log);
    assert a.text + [] == a.text;
  }

  lemma {:induction false} EvalArgsSnoc(env: Env, xs: seq<ArgText>, x: ArgText, log: seq<Call>)
    ensures EvalArgs(env, xs + [x], log)
         == var a := EvalArgs(env, xs, log); var b := EvalArg(env, x, a.log);
            ArgOutcome(a.args + [b.0], b.1)
    decreases xs
  {
    if xs == [] {
      assert xs + [x] == [x];
      assert EvalArgs(env, [x][1..], EvalArg(env, x, log).1).args == [];
    } else {
      assert (xs + [x])[1..] == xs[1..] + [x];
      EvalArgsSnoc(env, xs[1..], x, EvalArg(env, xs[0], log).1);
    }
  }

  /** Literal characters. */
  function Chars(t: bytes): (xs: seq<Item>)
    ensures |xs| == |t| && forall k :: 0 <= k < |t| ==> xs[k] == Ch(t[k])
  {
    seq(|t|, k requires 0 <= k < |t| => Ch(t[k]))
  }

  lemma {:induction false} EvalChars(env: Env, t: bytes, log: seq<Call>)
    ensures EvalItems(env, Chars(t), log) == Outcome(t, log)
  {
    if t != [] {
      assert Chars(t)[1..] == Chars(t[1..]);
      EvalChars(env, t[1..], log);
    }
  }

  /** No call in the text has more arguments than its quote flags can count. */
  predicate FewArgs(xs: seq<Item>)
    decreases xs
  {
    forall k :: 0 <= k < |xs| ==> FewIn(xs[k])
  }

  predicate FewIn(x: Item)
    decreases x
  {
    x.Fn? ==> |x.args| <= MAX_ARGS && forall k :: 0 <= k < |x.args| ==> FewInArg(x.args[k])
  }

  predicate FewInArg(x: ArgText)
    decreases x
  {
    x.Live? ==> FewArgs(x.items)
  }

  // ---------------------------------------------------------------- quote maps

  /** The quote mode of the next argument ('0' evaluated, '1' left raw) and the map still
    ahead. A map starting with 'A' holds every argument raw. */
  datatype QMode = QMode(mode: byte, ahead: bytes)

  const ZERO: byte := 48
  const ONE: byte := 49
  const TWO: byte := 50
  const ALL: byte := 65

  function FirstMode(qmap: Option<bytes>): QMode {
    match qmap
    case None => QMode(ZERO, [])
    case Some(m) =>
      if At(m, 0) == ALL then QMode(ONE, m)
      else QMode(if At(m, 0) == ONE then ONE else ZERO, if m == [] then [] else m[1..])
  }

  function NextMode(q: QMode): QMode {
    if q.ahead == [] then QMode(ZERO, [])
    else if q.ahead[0] == ONE || q.ahead[0] == ZERO then QMode(q.ahead[0], q.ahead[1..])
    else q
  }

  function ModeAt(q: QMode, k: nat): QMode
    decreases k
  {
    if k == 0 then q else ModeAt(NextMode(q), k - 1)
  }

  lemma {:induction false} ModeAtNext(q: QMode, k: nat)
    ensures ModeAt(q, k + 1) == NextMode(ModeAt(q, k))
    decreases k
  {
    if k > 0 {
      ModeAtNext(NextMode(q), k - 1);
    }
  }

  /** Quote maps are made of '0', '1' and 'A' and are not empty. */
  predicate GoodMap(m: bytes) {
    m != [] && forall k :: 0 <= k < |m| ==> m[k] == ZERO || m[k] == ONE || m[k] == ALL
  }

  ghost predicate GoodEnv(env: Env) {
    forall name {:trigger env.find(name)} ::
      env.find(name).Bound? && env.find(name).qmap.Some? ==> GoodMap(env.find(name).qmap.value)
  }

  // ---------------------------------------------------------------- scanning

  /** The character read at `i`, and the position after reading it. */
  function Peek(s: bytes, i: nat): byte {
    if i < |s| then s[i] else EOF
  }

  function After(s: bytes, i: nat): nat {
    if i < |s| then i + 1 else i
  }

  predicate IsSymFirst(c: byte) {
    41 < c < 59 || 63 < c < 123
  }

  predicate IsSym(c: byte) {
    41 < c < 127
  }

  /** The first position from `i` on that does not hold white space. */
  function SkipSpace(s: bytes, i: nat): (j: nat)
    requires i <= |s|
    ensures i <= j <= |s| && !IsSpace(Peek(s, j))
    decreases |s| - i
  {
    if IsSpace(Peek(s, i)) then SkipSpace(s, i + 1) else i
  }

  /** The first position from `i` on that does not hold a name character. */
  function SkipName(s: bytes, i: nat): (j: nat)
    requires i <= |s|
    ensures i <= j <= |s| && !IsSym(Peek(s, j))
    decreases |s| - i
  {
    if IsSym(Peek(s, i)) then SkipName(s, i + 1) else i
  }

  datatype Scan = Scan(items: seq<Item>, next: nat)
  datatype ArgScan = ArgScan(items: seq<Item>, next: nat, more: bool)
  datatype ArgsScan = ArgsScan(args: seq<ArgText>, next: nat)
  datatype RawScan = RawScan(text: bytes, next: nat, more: bool)

  /** Where a scan of a live argument stands: the quote it is in, the depth of braces and of
    parentheses, and the number of spaces just taken. */
  datatype ArgState = ArgState(quoted: byte, qcnt: int, lpc: int, numsp: nat)

  datatype Act = Keep | Drop | Finish(more: bool)

  function StartState(c: byte): ArgState {
    if c == DQ then ArgState(DQ, 0, 0, 0)
    else if c == LC then ArgState(LC, 1, 0, 0)
    else ArgState(0, 0, 0, 0)
  }

  /** What an ordinary character does to a live argument. */
  function Step(m: ArgState, c: byte): (ArgState, Act) {
    if m.quoted == DQ then
      if c == DQ then (m.(quoted := 0, lpc := 0, numsp := 0), Drop) else (m, Keep)
    else if m.quoted == LC then
      if c == LC then (m.(qcnt := m.qcnt + 1), Drop)
      else if c == RC && m.qcnt <= 1 then (m.(quoted := 0, qcnt := m.qcnt - 1, numsp := 0), Drop)
      else if c == RC then (m.(qcnt := m.qcnt - 1), Keep)
      else (m, Keep)
    else if m.lpc == 0 && c == COMMA then (m, Finish(true))
    else if m.lpc == 0 && c == RP then (m, Finish(false))
    else if c == RP then (m.(lpc := m.lpc - 1, numsp := 0), Keep)
    else if c == LP then (m.(lpc := m.lpc + 1, numsp := 0), Keep)
    else if IsSpace(c) then (m.(numsp := m.numsp + 1), Keep)
    else (m.(numsp := 0), Keep)
  }

  /** Scan a live argument whose next character `c` has been read; `acc` holds what is
    already scanned. Trailing spaces are cut at the end of the argument. */
  function ScanArg(side: Side, env: Env, s: bytes, i: nat, c: byte, m: ArgState, acc: seq<Item>): (r: ArgScan)
    requires i <= |s| && m.numsp <= |acc|
    ensures i <= r.next <= |s|
    decreases |s| - i, 2
  {
    if c == ESC then
      var e := Peek(s, i);
      MoreArg(side, env, s, After(s, i), m.(numsp := 0), if e == EOF then acc else acc + [Ch(e)])
    else if c == PCT then
      var f := ScanFunc(side, env, s, i);
      MoreArg(side, env, s, f.next, m.(numsp := 0), acc + f.items)
    else
      match Step(m, c)
      case (m', Keep) => MoreArg(side, env, s, i, m', acc + [Ch(c)])
      case (m', Drop) => MoreArg(side, env, s, i, m', acc)
      case (_, Finish(more)) => ArgScan(acc[..|acc| - m.numsp], i, more)
  }

  /** A live argument from its start: an opening quote or brace is read past. */
  function StartArg(side: Side, env: Env, s: bytes, i: nat, c: byte): (r: ArgScan)
    requires i <= |s|
    ensures i <= r.next <= |s|
    decreases |s| - i, 3
  {
    if c == DQ || c == LC then ScanArg(side, env, s, After(s, i), Peek(s, i), StartState(c), [])
    else ScanArg(side, env, s, i, c, StartState(c), [])
  }

  function MoreArg(side: Side, env: Env, s: bytes, i: nat, m: ArgState, acc: seq<Item>): (r: ArgScan)
    requires i <= |s| && m.numsp <= |acc|
    ensures i <= r.next <= |s|
    decreases |s| - i, 1
  {
    if Peek(s, i) == EOF then ArgScan(acc, After(s, i), false)
    else ScanArg(side, env, s, i + 1, s[i], m, acc)
  }

  /** Scan what follows a percent sign. The two sides differ in two cases. A name ended neither
    by '(' nor by '%' is printed by the interpreter and dropped by the compiler, and the
    arguments of an unbound name are printed by the interpreter and compiled by the compiler. */
  function ScanFunc(side: Side, env: Env, s: bytes, i: nat): (r: Scan)
    requires i <= |s|
    ensures i <= r.next <= |s|
    decreases |s| - i, 0
  {
    var c := Peek(s, i);
    if IsSymFirst(c) then
      var j := SkipName(s, i + 1);
      var name, d := s[i..j], Peek(s, j);
      if d == PCT then Scan([Ref(name)], j + 1)
      else if d == LP then CallScan(side, env, s, j + 1, name)
      else Scan(Chars([PCT] + (if side.Interpreter? then name else []) + Given(d)), After(s, j))
    else if c == EOF || c == PCT then Scan([Ch(PCT)], After(s, i))
    else if c == RP || c == COMMA || c == LP || c == DQ then Scan([Ch(PCT)], i)
    else Scan([Ch(PCT), Ch(c)], i + 1)
  }

  /** A character, if one was read. */
  function Given(c: byte): bytes {
    if c == EOF then [] else [c]
  }

  /** Scan the arguments given to `name`. */
  function CallScan(side: Side, env: Env, s: bytes, i: nat, name: bytes): (r: Scan)
    requires i <= |s|
    ensures i <= r.next <= |s|
    decreases |s| - i, 7
  {
    if env.find(name).Unbound? && side.Interpreter? then
      var p := ParenText(s, i, 0);
      Scan(Chars([PCT] + name + [LP] + p.text), p.next)
    else
      var a := ScanArgs(side, env, s, i, FirstMode(QuoteMap(env, name)), []);
      Scan([Fn(name, a.args)], a.next)
  }

  /** The quote map of a name; one that is not bound has none. */
  function QuoteMap(env: Env, name: bytes): Option<bytes> {
    match env.find(name)
    case Unbound => None
    case Bound(qmap) => qmap
  }

  /** Scan the arguments of a call, up to its right parenthesis or the end of the text. */
  function ScanArgs(side: Side, env: Env, s: bytes, i: nat, q: QMode, acc: seq<ArgText>): (r: ArgsScan)
    requires i <= |s|
    ensures i <= r.next <= |s| && |acc| < |r.args|
    decreases |s| - i, 6
  {
    var one := NextArg(side, env, s, i, q.mode);
    if one.more then ScanArgs(side, env, s, one.next, NextMode(q), acc + [one.arg])
    else ArgsScan(acc + [one.arg], one.next)
  }

  /** Skip white space, note a quote mark, and scan one argument. */
  function NextArg(side: Side, env: Env, s: bytes, i: nat, mode: byte): (r: OneScan)
    requires i <= |s|
    ensures i <= r.next <= |s| && (r.more ==> i < r.next)
    decreases |s| - i, 5
  {
    var i1 := SkipSpace(s, i);
    var quot := Peek(s, i1) == SQ;
    ScanNext(side, env, s, if quot then i1 + 1 else i1, mode == ONE || quot, quot)
  }

  datatype OneScan = ScanOne(arg: ArgText, next: nat, more: bool)

  /** Scan one argument whose first character is at `j`; more follow only if there was one. */
  function ScanNext(side: Side, env: Env, s: bytes, j: nat, raw: bool, quot: bool): (r: OneScan)
    requires j <= |s|
    ensures After(s, j) <= r.next <= |s| && (r.more ==> j < r.next)
    decreases |s| - j, 4
  {
    var c := Peek(s, j);
    if raw then
      var t := ScanRaw(s, After(s, j), c);
      ScanOne(Raw(t.text, quot), t.next, t.more && c != EOF)
    else
      var a := StartArg(side, env, s, After(s, j), c);
      ScanOne(Live(a.items), a.next, a.more && c != EOF)
  }

  /** Scan a whole text. */
  function ScanText(side: Side, env: Env, s: bytes, i: nat, acc: seq<Item>): (r: Scan)
    requires i <= |s|
    ensures i <= r.next <= |s|
    decreases |s| - i
  {
    var c := Peek(s, i);
    if c == EOF then Scan(acc, After(s, i))
    else if c == PCT then
      var f := ScanFunc(side, env, s, i + 1);
      ScanText(side, env, s, f.next, acc + f.items)
    else ScanText(side, env, s, i + 1, acc + [Ch(c)])
  }

  // ---------------------------------------------------------------- raw arguments

  /** Text with its trailing white space removed. */
  function RTrim(t: bytes): (r: bytes)
    ensures r <= t && (r != [] ==> !IsSpace(r[|r| - 1])) && forall k :: |r| <= k < |t| ==> IsSpace(t[k])
  {
    if t != [] && IsSpace(t[|t| - 1]) then RTrim(t[..|t| - 1]) else t
  }

  /** Text up to the parenthesis that closes the one just read, white space after each
    opening one removed, and where reading stopped; `more` tells that it was closed. */
  function ScanParens(s: bytes, i: nat, c: byte, depth: nat): (r: RawScan)
    requires i <= |s|
    ensures i <= r.next <= |s|
    decreases |s| - i, 1
  {
    if c == ESC then
      MoreParens(s, After(s, i), depth, [ESC, Peek(s, i)])
    else if c == LP then
      var j := SkipSpace(s, i);
      if j < |s| then Prefixed([LP], ScanParens(s, j + 1, s[j], depth + 1))
      else RawScan([LP, EOF], j, false)
    else if c == RP && depth == 0 then RawScan([RP], i, true)
    else MoreParens(s, i, if c == RP then depth - 1 else depth, [c])
  }

  function MoreParens(s: bytes, i: nat, depth: nat, t: bytes): (r: RawScan)
    requires i <= |s|
    ensures i <= r.next <= |s|
    decreases |s| - i, 0
  {
    if Peek(s, i) == EOF then RawScan(t, After(s, i), false)
    else Prefixed(t, ScanParens(s, i + 1, s[i], depth))
  }

  function Prefixed(t: bytes, r: RawScan): RawScan {
    RawScan(t + r.text, r.next, r.more)
  }

  /** Parenthesised text whose first character has not been read. */
  function ParenText(s: bytes, i: nat, depth: nat): (r: RawScan)
    requires i <= |s|
    ensures i <= r.next <= |s|
  {
    var j := SkipSpace(s, i);
    ScanParens(s, After(s, j), Peek(s, j), depth)
  }

  /** A quoted run up to the character `eq`; after an odd percent sign parentheses nest. */
  function ScanQuoted(s: bytes, i: nat, eq: byte, pct: bool): (r: RawScan)
    requires i <= |s|
    ensures i <= r.next <= |s|
    decreases |s| - i
  {
    var c := Peek(s, i);
    if c == EOF then RawScan([], After(s, i), false)
    else if c == ESC then
      var e := Peek(s, i + 1);
      Prefixed(if e == EOF then [] else [e], ScanQuoted(s, After(s, i + 1), eq, pct))
    else if c == PCT then Prefixed([c], ScanQuoted(s, i + 1, eq, !pct))
    else if c == eq then RawScan([], i + 1, true)
    else if c == LP && pct then
      var p := ParenText(s, i + 1, 0);
      if p.more then Prefixed([c] + p.text, ScanQuoted(s, p.next, eq, false))
      else Prefixed([c], p)
    else Prefixed([c], ScanQuoted(s, i + 1, eq, pct))
  }

  /** The rest of a raw argument, its next character `c` read. */
  function ScanBare(s: bytes, i: nat, c: byte): (r: RawScan)
    requires i <= |s|
    ensures i <= r.next <= |s|
    decreases |s| - i, 1
  {
    if c == ESC then
      MoreBare(s, After(s, i), if Peek(s, i) == EOF then [] else [Peek(s, i)])
    else if c == COMMA then RawScan([], i, true)
    else if c == RP then RawScan([], i, false)
    else if c == LP then
      var p := ParenText(s, i, 0);
      if p.more then MoreBare(s, p.next, [LP] + p.text) else RawScan([LP] + p.text, p.next, false)
    else MoreBare(s, i, [c])
  }

  function MoreBare(s: bytes, i: nat, t: bytes): (r: RawScan)
    requires i <= |s|
    ensures i <= r.next <= |s|
    decreases |s| - i, 0
  {
    if Peek(s, i) == EOF then RawScan(t, After(s, i), false)
    else Prefixed(t, ScanBare(s, i + 1, s[i]))
  }

  /** A raw argument whose first character `c` has been read: a quoted run, then the rest;
    only an argument with no quoted run is trimmed. */
  function ScanRaw(s: bytes, i: nat, c: byte): (r: RawScan)
    requires i <= |s|
    ensures i <= r.next <= |s|
  {
    if c == DQ || c == LC then
      var a := ScanQuoted(s, i, if c == DQ then DQ else RC, false);
      if !a.more then a
      else
        var j := SkipSpace(s, a.next);
        Prefixed(a.text, ScanBare(s, After(s, j), Peek(s, j)))
    else
      var b := ScanBare(s, i, c);
      b.(text := RTrim(b.text))
  }
}
