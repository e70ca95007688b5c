/** Texts written for the macro language, and what they are read as: characters, escapes, names
  and calls, nested in each other to any depth. */
module MacroRead {
  import opened Bytes
  import opened Options
  import opened Macro
  import opened MacroQuote
  import opened MacroInterp

  /** A piece of a text: a character as it is, one behind a backslash, a doubled percent sign,
    a name between percent signs, or a call. */
  datatype Piece =
    | Plain(c: byte)
    | Escaped(c: byte)
    | Percent
    | Named(name: bytes)
    | Use(name: bytes, args: seq<Written>)

  /** An argument with the white space in front of it. */
  datatype Written = Written(before: bytes, text: seq<Piece>)

  function Source(x: Piece): bytes
    decreases x
  {
    match x
    case Plain(c) => [c]
    case Escaped(c) => [ESC, c]
    case Percent => [PCT, PCT]
    case Named(name) => [PCT] + name + [PCT]
    case Use(name, args) => [PCT] + name + [LP] + SourceArgs(args) + [RP]
  }

  function SourceText(w: seq<Piece>): bytes
    decreases w, |w| + 1
  {
    SourceFrom(w, 0)
  }

  /** The text of the pieces from the `k`th on. */
  function SourceFrom(w: seq<Piece>, k: nat): bytes
    requires k <= |w|
    decreases w, |w| - k
  {
    if k == |w| then [] else Source(w[k]) + SourceFrom(w, k + 1)
  }

  function SourceArgs(args: seq<Written>): bytes
    decreases args
  {
    if args == [] then []
    else args[0].before + SourceText(args[0].text) + if |args| == 1 then [] else [COMMA] + SourceArgs(args[1..])
  }

  function Meaning(x: Piece): Item
    decreases x
  {
    match x
    case Plain(c) => Ch(c)
    case Escaped(c) => Ch(c)
    case Percent => Ch(PCT)
    case Named(name) => Ref(name)
    case Use(name, args) => Fn(name, MeaningArgs(args))
  }

  function MeaningText(w: seq<Piece>): (xs: seq<Item>)
    ensures |xs| == |w| && forall k :: 0 <= k < |w| ==> xs[k] == Meaning(w[k])
    decreases w, 0
  {
    if w == [] then [] else [Meaning(w[0])] + MeaningText(w[1..])
  }

  /** The items of the first `k` pieces, and of an argument without the white space at its end. */
  function ItemsTo(w: seq<Piece>, k: nat): (xs: seq<Item>)
    requires k <= |w|
    ensures |xs| == k
    decreases w, 1
  {
    MeaningText(w)[..k]
  }

  function ArgItems(w: seq<Piece>): seq<Item>
    decreases w, 2
  {
    ItemsTo(w, |Trimmed(w)|)
  }

  /** An argument means its text without the white space around it. */
  function MeaningArgs(args: seq<Written>): seq<ArgText>
    decreases args
  {
    if args == [] then [] else [Live(ArgItems(args[0].text))] + MeaningArgs(args[1..])
  }

  predicate IsBlank(x: Piece) {
    x.Plain? && IsSpace(x.c)
  }

  /** Without the white space at its end; an escaped space stays. */
  function Trimmed(w: seq<Piece>): (r: seq<Piece>)
    ensures r <= w && (r != [] ==> !IsBlank(r[|r| - 1])) && forall k :: |r| <= k < |w| ==> IsBlank(w[k])
  {
    if w != [] && IsBlank(w[|w| - 1]) then Trimmed(w[..|w| - 1]) else w
  }

  /** How many parentheses are open after the first `k` pieces. */
  function Depth(w: seq<Piece>, k: nat): int
    requires k <= |w|
  {
    if k == 0 then 0
    else Depth(w, k - 1) + if w[k - 1] == Plain(LP) then 1 else if w[k - 1] == Plain(RP) then -1 else 0
  }

  predicate GoodName(name: bytes) {
    name != [] && IsSymFirst(name[0]) && forall k :: 0 <= k < |name| ==> IsSym(name[k])
  }

  /** Characters that stand for themselves, and calls of functions that have no quote map. */
  predicate GoodPiece(env: Env, x: Piece)
    decreases x
  {
    match x
    case Plain(c) => c != ESC && c != PCT && c != EOF
    case Escaped(c) => c != EOF
    case Percent => true
    case Named(name) => GoodName(name)
    case Use(name, args) =>
      && GoodName(name) && env.find(name) == Bound(None) && args != []
      && forall k :: 0 <= k < |args| ==> GoodWritten(env, args[k])
  }

  /** In an argument parentheses are balanced and commas stand inside parentheses; it does not
    start with a quote or brace. */
  predicate GoodArg(env: Env, w: seq<Piece>)
    decreases w, 1
  {
    && (forall k: nat :: k <= |w| ==> Fits(env, w, k)) && Depth(w, |w|) == 0
    && (w != [] ==> w[0] != Plain(DQ) && w[0] != Plain(LC))
  }

  /** The piece at `k` can stand there: no more parentheses are closed than were opened. */
  predicate Fits(env: Env, w: seq<Piece>, k: nat)
    requires k <= |w|
    decreases w, 0
  {
    && Depth(w, k) >= 0
    && (k < |w| ==> GoodPiece(env, w[k]) && (w[k] == Plain(COMMA) ==> Depth(w, k) > 0))
  }

  predicate GoodWritten(env: Env, a: Written)
    decreases a
  {
    && (forall k :: 0 <= k < |a.before| ==> IsSpace(a.before[k]))
    && GoodArg(env, a.text) && (a.text != [] ==> !IsBlank(a.text[0]) && a.text[0] != Plain(SQ))
  }

  // ---------------------------------------------------------------- reading

  predicate StandsAt(t: bytes, i: nat, a: bytes) {
    i + |a| <= |t| && t[i..i + |a|] == a
  }

  lemma StandsParts(t: bytes, i: nat, a: bytes, b: bytes)
    requires StandsAt(t, i, a + b)
    ensures StandsAt(t, i, a) && StandsAt(t, i + |a|, b)
  {
    assert t[i..i + |a|] == t[i..i + |a + b|][..|a|];
    assert t[i + |a|..i + |a| + |b|] == t[i..i + |a + b|][|a|..];
  }

  lemma StandsByte(t: bytes, i: nat, a: bytes, k: nat)
    requires StandsAt(t, i, a) && k < |a|
    ensures t[i + k] == a[k]
  {
    assert t[i..i + |a|][k] == t[i + k];
  }

  /** A name ends at the first character that is none of a name. */
  lemma {:induction false} NameEnds(t: bytes, i: nat, j: nat)
    requires i <= j < |t| && !IsSym(t[j]) && forall k :: i <= k < j ==> IsSym(t[k])
    ensures SkipName(t, i) == j
    decreases j - i
  {
    if i < j {
      NameEnds(t, i + 1, j);
    }
  }

  lemma NameRead(t: bytes, i: nat, name: bytes)
    requires GoodName(name) && StandsAt(t, i, name) && i + |name| < |t| && !IsSym(t[i + |name|])
    ensures IsSymFirst(Peek(t, i)) && SkipName(t, i + 1) == i + |name| && t[i..i + |name|] == name
  {
    forall k | i <= k < i + |name| ensures t[k] == name[k - i] {
      StandsByte(t, i, name, k - i);
    }
    NameEnds(t, i + 1, i + |name|);
  }

  lemma {:induction false} SpacesSkipped(t: bytes, i: nat, before: bytes)
    requires StandsAt(t, i, before) && (forall k :: 0 <= k < |before| ==> IsSpace(before[k]))
    requires !IsSpace(Peek(t, i + |before|))
    ensures SkipSpace(t, i) == i + |before|
    decreases |before|
  {
    if before != [] {
      StandsByte(t, i, before, 0);
      StandsParts(t, i, before[..1], before[1..]);
      SpacesSkipped(t, i + 1, before[1..]);
    }
  }

  /** The state after a piece outside quotes. */
  function StepPiece(m: ArgState, x: Piece): ArgState {
    m.(lpc := m.lpc + (if x == Plain(LP) then 1 else if x == Plain(RP) then -1 else 0),
       numsp := if IsBlank(x) then m.numsp + 1 else 0)
  }

  /** One piece of an argument outside quotes. */
  lemma {:induction false} ReadPiece(side: Side, env: Env, t: bytes, i: nat, x: Piece, m: ArgState, acc: seq<Item>)
    requires GoodPiece(env, x) && StandsAt(t, i, Source(x)) && m.quoted == 0 && m.numsp <= |acc|
    requires x == Plain(COMMA) || x == Plain(RP) ==> m.lpc != 0
    ensures MoreArg(side, env, t, i, m, acc)
         == MoreArg(side, env, t, i + |Source(x)|, StepPiece(m, x), acc + [Meaning(x)])
    decreases x, 1
  {
    StandsByte(t, i, Source(x), 0);
    match x
    case Plain(c) =>
      assert Step(m, c) == (StepPiece(m, x), Keep);
      ReadStep(side, env, t, i, c, m, StepPiece(m, x), acc);
    case Escaped(c) =>
      StandsByte(t, i, Source(x), 1);
      ReadBehind(side, env, t, i, c, m, acc);
    case _ =>
      ReadFunc(side, env, t, i, x);
      ReadItems(side, env, t, i, [Meaning(x)], i + |Source(x)|, m, acc);
  }

  lemma ReadStep(side: Side, env: Env, t: bytes, i: nat, c: byte, m: ArgState, m': ArgState, acc: seq<Item>)
    requires i < |t| && t[i] == c && c != ESC && c != PCT && c != EOF && m.numsp <= |acc| && Step(m, c) == (m', Keep)
    ensures m'.numsp <= |acc| + 1
    ensures MoreArg(side, env, t, i, m, acc) == MoreArg(side, env, t, i + 1, m', acc + [Ch(c)])
  {
    assert MoreArg(side, env, t, i, m, acc) == ScanArg(side, env, t, i + 1, c, m, acc);
  }

  lemma ReadBehind(side: Side, env: Env, t: bytes, i: nat, c: byte, m: ArgState, acc: seq<Item>)
    requires i + 1 < |t| && t[i] == ESC && t[i + 1] == c && c != EOF && m.numsp <= |acc|
    ensures MoreArg(side, env, t, i, m, acc) == MoreArg(side, env, t, i + 2, m.(numsp := 0), acc + [Ch(c)])
  {
    assert MoreArg(side, env, t, i, m, acc) == ScanArg(side, env, t, i + 1, ESC, m, acc);
  }

  lemma ReadItems(side: Side, env: Env, t: bytes, i: nat, xs: seq<Item>, j: nat, m: ArgState, acc: seq<Item>)
    requires i < |t| && t[i] == PCT && ScanFunc(side, env, t, i + 1) == Scan(xs, j) && m.numsp <= |acc|
    ensures j <= |t| && MoreArg(side, env, t, i, m, acc) == MoreArg(side, env, t, j, m.(numsp := 0), acc + xs)
  {
    assert MoreArg(side, env, t, i, m, acc) == ScanArg(side, env, t, i + 1, PCT, m, acc);
  }

  /** What follows a percent sign. */
  lemma {:induction false} ReadFunc(side: Side, env: Env, t: bytes, i: nat, x: Piece)
    requires GoodPiece(env, x) && !x.Plain? && !x.Escaped? && StandsAt(t, i, Source(x))
    ensures ScanFunc(side, env, t, i + 1) == Scan([Meaning(x)], i + |Source(x)|)
    decreases x, 0
  {
    match x
    case Percent => StandsByte(t, i, Source(x), 1);
    case Named(name) => ReadName(side, env, t, i, name);
    case Use(name, args) => ReadCall(side, env, t, i, name, args);
  }

  lemma ReadName(side: Side, env: Env, t: bytes, i: nat, name: bytes)
    requires GoodName(name) && StandsAt(t, i, [PCT] + name + [PCT])
    ensures ScanFunc(side, env, t, i + 1) == Scan([Ref(name)], i + |name| + 2)
  {
    StandsParts(t, i, [PCT] + name, [PCT]);
    StandsParts(t, i, [PCT], name);
    StandsByte(t, i + 1 + |name|, [PCT], 0);
    NameRead(t, i + 1, name);
  }

  lemma {:induction false} ReadCall(side: Side, env: Env, t: bytes, i: nat, name: bytes, args: seq<Written>)
    requires GoodName(name) && env.find(name) == Bound(None) && args != []
    requires forall k :: 0 <= k < |args| ==> GoodWritten(env, args[k])
    requires StandsAt(t, i, [PCT] + name + [LP] + SourceArgs(args) + [RP])
    ensures ScanFunc(side, env, t, i + 1)
         == Scan([Fn(name, MeaningArgs(args))], i + |name| + |SourceArgs(args)| + 3)
    decreases args, 1
  {
    var a := SourceArgs(args);
    var j := i + |name| + 2;
    CallParts(t, i, j, name, a);
    ReadArgs(side, env, t, j, args, j + |a|, []);
    EmptyLeft(MeaningArgs(args));
    CallScanned(side, env, t, i, j, name, MeaningArgs(args), j + |a| + 1);
  }

  lemma EmptyLeft<T>(xs: seq<T>)
    ensures [] + xs == xs
  {
  }

  lemma CallScanned(side: Side, env: Env, t: bytes, i: nat, j: nat, name: bytes, args: seq<ArgText>, next: nat)
    requires GoodName(name) && env.find(name) == Bound(None) && j == i + |name| + 2
    requires StandsAt(t, i + 1, name) && j <= |t| && t[j - 1] == LP
    requires ScanArgs(side, env, t, j, FirstMode(None), []) == ArgsScan(args, next)
    ensures ScanFunc(side, env, t, i + 1) == Scan([Fn(name, args)], next)
  {
    NameRead(t, i + 1, name);
    assert CallScan(side, env, t, j, name) == Scan([Fn(name, args)], next);
  }

  lemma CallParts(t: bytes, i: nat, j: nat, name: bytes, a: bytes)
    requires StandsAt(t, i, [PCT] + name + [LP] + a + [RP]) && j == i + |name| + 2
    ensures StandsAt(t, i + 1, name) && j + |a| < |t| && t[j - 1] == LP && StandsAt(t, j, a) && t[j + |a|] == RP
  {
    StandsParts(t, i, [PCT] + name + [LP] + a, [RP]);
    StandsByte(t, j + |a|, [RP], 0);
    StandsParts(t, i, [PCT] + name + [LP], a);
    StandsParts(t, i, [PCT] + name, [LP]);
    StandsByte(t, j - 1, [LP], 0);
    StandsParts(t, i, [PCT], name);
  }

  /** Where an argument's scan stands after its first `k` pieces. */
  function StateAt(w: seq<Piece>, k: nat): ArgState
    requires k <= |w|
  {
    ArgState(0, 0, Depth(w, k), k - |Trimmed(w[..k])|)
  }

  lemma StateNext(w: seq<Piece>, k: nat)
    requires k < |w|
    ensures StateAt(w, k + 1) == StepPiece(StateAt(w, k), w[k])
  {
    assert w[..k + 1][..k] == w[..k];
  }

  /** Reading on at `i` after the first `k` pieces. */
  function Rest(side: Side, env: Env, t: bytes, i: nat, w: seq<Piece>, k: nat): ArgScan
    requires i <= |t| && k <= |w|
  {
    MoreArg(side, env, t, i, StateAt(w, k), ItemsTo(w, k))
  }

  lemma ItemsNext(w: seq<Piece>, k: nat)
    requires k < |w|
    ensures ItemsTo(w, k) + [Meaning(w[k])] == ItemsTo(w, k + 1)
  {
  }

  /** The rest of an argument, up to its end mark at `e`. */
  lemma {:induction false} ReadPieces(side: Side, env: Env, t: bytes, i: nat, w: seq<Piece>, k: nat, e: nat, end: byte)
    requires GoodArg(env, w) && k <= |w| && (end == COMMA || end == RP)
    requires StandsAt(t, i, SourceFrom(w, k)) && e == i + |SourceFrom(w, k)| < |t| && t[e] == end
    ensures Rest(side, env, t, i, w, k) == ArgScan(ArgItems(w), e + 1, end == COMMA)
    decreases w, |w| - k + 1
  {
    if k == |w| {
      PiecesEnd(side, env, t, i, w, end);
    } else {
      var x := Source(w[k]);
      StandsParts(t, i, x, SourceFrom(w, k + 1));
      PieceStep(side, env, t, i, w, k, i + |x|);
      ReadPieces(side, env, t, i + |x|, w, k + 1, e, end);
    }
  }

  lemma {:induction false} PieceStep(side: Side, env: Env, t: bytes, i: nat, w: seq<Piece>, k: nat, j: nat)
    requires GoodArg(env, w) && k < |w| && StandsAt(t, i, Source(w[k])) && j == i + |Source(w[k])|
    ensures j <= |t| && Rest(side, env, t, i, w, k) == Rest(side, env, t, j, w, k + 1)
    decreases w, 0
  {
    var m, acc := StateAt(w, k), ItemsTo(w, k);
    assert Fits(env, w, k) && Fits(env, w, k + 1);
    ReadPiece(side, env, t, i, w[k], m, acc);
    StateNext(w, k);
    ItemsNext(w, k);
    RestNext(side, env, t, i, j, w, k, StepPiece(m, w[k]), acc + [Meaning(w[k])]);
  }

  lemma RestNext(side: Side, env: Env, t: bytes, i: nat, j: nat, w: seq<Piece>, k: nat, m: ArgState, acc: seq<Item>)
    requires i <= |t| && j <= |t| && k < |w| && m == StateAt(w, k + 1) && acc == ItemsTo(w, k + 1)
    requires MoreArg(side, env, t, i, StateAt(w, k), ItemsTo(w, k)) == MoreArg(side, env, t, j, m, acc)
    ensures Rest(side, env, t, i, w, k) == Rest(side, env, t, j, w, k + 1)
  {
  }

  lemma {:induction false} PiecesEnd(side: Side, env: Env, t: bytes, i: nat, w: seq<Piece>, end: byte)
    requires Depth(w, |w|) == 0 && i < |t| && t[i] == end && (end == COMMA || end == RP)
    ensures Rest(side, env, t, i, w, |w|) == ArgScan(ArgItems(w), i + 1, end == COMMA)
  {
    TrimmedItems(w);
    ArgEnds(side, env, t, i, StateAt(w, |w|), ItemsTo(w, |w|), end);
  }

  lemma {:induction false} TrimmedItems(w: seq<Piece>)
    ensures var n := StateAt(w, |w|).numsp;
      n <= |w| && ItemsTo(w, |w|)[..|w| - n] == ArgItems(w)
  {
    assert w[..|w|] == w;
  }

  lemma {:induction false} ArgEnds(side: Side, env: Env, t: bytes, i: nat, m: ArgState, acc: seq<Item>, end: byte)
    requires i < |t| && t[i] == end && (end == COMMA || end == RP)
    requires m.quoted == 0 && m.lpc == 0 && m.numsp <= |acc|
    ensures MoreArg(side, env, t, i, m, acc) == ArgScan(acc[..|acc| - m.numsp], i + 1, end == COMMA)
  {
    assert Step(m, end) == (m, Finish(end == COMMA));
  }

  /** A well-formed argument in front of a comma or right parenthesis, wherever it stands and on
    both sides, is read up to that end mark, and as what it means without the white space at
    its end. */
  lemma {:induction false} ReadWhole(side: Side, env: Env, t: bytes, i: nat, w: seq<Piece>, end: byte)
    requires GoodArg(env, w) && (end == COMMA || end == RP)
    requires StandsAt(t, i, SourceText(w)) && i + |SourceText(w)| < |t| && t[i + |SourceText(w)|] == end
    ensures ReadArg(side, env, t, i)
         == ArgScan(ArgItems(w), i + |SourceText(w)| + 1, end == COMMA)
    decreases w, |w| + 2
  {
    FirstByte(env, t, i, w, end);
    assert w[..0] == [];
    ReadPieces(side, env, t, i, w, 0, i + |SourceText(w)|, end);
    assert StateAt(w, 0) == StartState(t[i]) && ItemsTo(w, 0) == [];
    assert MoreArg(side, env, t, i, StateAt(w, 0), []) == ScanArg(side, env, t, i + 1, t[i], StateAt(w, 0), []);
  }

  /** The first character of an argument, or its end mark. */
  lemma FirstByte(env: Env, t: bytes, i: nat, w: seq<Piece>, end: byte)
    requires GoodArg(env, w) && (end == COMMA || end == RP)
    requires StandsAt(t, i, SourceText(w)) && i + |SourceText(w)| < |t| && t[i + |SourceText(w)|] == end
    ensures i < |t| && t[i] != DQ && t[i] != LC && t[i] != EOF
    ensures w == [] || (!IsBlank(w[0]) && w[0] != Plain(SQ)) ==> !IsSpace(t[i]) && t[i] != SQ
  {
    if w != [] {
      assert Fits(env, w, 0) && GoodPiece(env, w[0]);
      StandsParts(t, i, Source(w[0]), SourceFrom(w, 1));
      StandsByte(t, i, Source(w[0]), 0);
    }
  }

  lemma {:induction false} ReadNext(side: Side, env: Env, t: bytes, i: nat, a: Written, end: byte)
    requires GoodWritten(env, a) && (end == COMMA || end == RP)
    requires var n := |a.before| + |SourceText(a.text)|;
      StandsAt(t, i, a.before + SourceText(a.text)) && i + n < |t| && t[i + n] == end
    ensures NextArg(side, env, t, i, ZERO)
         == ScanOne(Live(ArgItems(a.text)), i + |a.before| + |SourceText(a.text)| + 1,
                    end == COMMA)
    decreases a
  {
    var j := i + |a.before|;
    StandsParts(t, i, a.before, SourceText(a.text));
    FirstByte(env, t, j, a.text, end);
    SpacesSkipped(t, i, a.before);
    ReadWhole(side, env, t, j, a.text, end);
    NextIsLive(side, env, t, i, j);
  }

  lemma NextIsLive(side: Side, env: Env, t: bytes, i: nat, j: nat)
    requires i <= j < |t| && SkipSpace(t, i) == j && t[j] != SQ && t[j] != EOF
    ensures var r := ReadArg(side, env, t, j);
      NextArg(side, env, t, i, ZERO) == ScanOne(Live(r.items), r.next, r.more)
  {
  }

  /** A list of arguments up to its right parenthesis at `e`. */
  lemma {:induction false} ReadArgs(side: Side, env: Env, t: bytes, i: nat, args: seq<Written>, e: nat,
                                    acc: seq<ArgText>)
    requires args != [] && forall k :: 0 <= k < |args| ==> GoodWritten(env, args[k])
    requires StandsAt(t, i, SourceArgs(args)) && e == i + |SourceArgs(args)| < |t| && t[e] == RP
    ensures ScanArgs(side, env, t, i, FirstMode(None), acc) == ArgsScan(acc + MeaningArgs(args), e + 1)
    decreases args, 0
  {
    var a := args[0];
    var one := a.before + SourceText(a.text);
    var x := Live(ArgItems(a.text));
    if |args| == 1 {
      assert one + [] == one;
      ReadNext(side, env, t, i, a, RP);
      ArgsLast(side, env, t, i, acc, x, e + 1);
      OneArg(args, x);
    } else {
      var j := i + |one| + 1;
      ListParts(t, i, one, SourceArgs(args[1..]));
      ReadNext(side, env, t, i, a, COMMA);
      ArgsMore(side, env, t, i, acc, x, j);
      ReadArgs(side, env, t, j, args[1..], e, acc + [x]);
      MoreArgs(args, acc, x);
    }
  }

  lemma ListParts(t: bytes, i: nat, one: bytes, more: bytes)
    requires StandsAt(t, i, one + ([COMMA] + more))
    ensures StandsAt(t, i, one) && i + |one| < |t| && t[i + |one|] == COMMA && StandsAt(t, i + |one| + 1, more)
  {
    StandsParts(t, i, one, [COMMA] + more);
    StandsParts(t, i + |one|, [COMMA], more);
    StandsByte(t, i + |one|, [COMMA], 0);
  }

  lemma {:induction false} OneArg(args: seq<Written>, x: ArgText)
    requires |args| == 1 && x == Live(ArgItems(args[0].text))
    ensures MeaningArgs(args) == [x]
  {
    assert MeaningArgs(args[1..]) == [];
  }

  lemma {:induction false} MoreArgs(args: seq<Written>, acc: seq<ArgText>, x: ArgText)
    requires args != [] && x == Live(ArgItems(args[0].text))
    ensures acc + [x] + MeaningArgs(args[1..]) == acc + MeaningArgs(args)
  {
    assert MeaningArgs(args) == [x] + MeaningArgs(args[1..]);
  }

  // ---------------------------------------------------------------- whole texts

  /** Outside arguments a backslash is a character like others. */
  predicate GoodTop(env: Env, x: Piece) {
    match x
    case Plain(c) => c != PCT && c != EOF
    case Escaped(_) => false
    case _ => GoodPiece(env, x)
  }

  function RestTop(side: Side, env: Env, t: bytes, i: nat, w: seq<Piece>, k: nat): Scan
    requires i <= |t| && k <= |w|
  {
    ScanText(side, env, t, i, ItemsTo(w, k))
  }

  lemma TopStep(side: Side, env: Env, t: bytes, i: nat, w: seq<Piece>, k: nat)
    requires k < |w| && GoodTop(env, w[k]) && StandsAt(t, i, Source(w[k]))
    ensures RestTop(side, env, t, i, w, k) == RestTop(side, env, t, i + |Source(w[k])|, w, k + 1)
  {
    StandsByte(t, i, Source(w[k]), 0);
    ItemsNext(w, k);
    if w[k].Plain? {
      TopChar(side, env, t, i, w[k].c, ItemsTo(w, k));
    } else {
      ReadFunc(side, env, t, i, w[k]);
      TopFunc(side, env, t, i, [Meaning(w[k])], i + |Source(w[k])|, ItemsTo(w, k));
    }
  }

  lemma TopChar(side: Side, env: Env, t: bytes, i: nat, c: byte, acc: seq<Item>)
    requires i < |t| && t[i] == c && c != PCT && c != EOF
    ensures ScanText(side, env, t, i, acc) == ScanText(side, env, t, i + 1, acc + [Ch(c)])
  {
  }

  lemma TopFunc(side: Side, env: Env, t: bytes, i: nat, xs: seq<Item>, j: nat, acc: seq<Item>)
    requires i < |t| && t[i] == PCT && ScanFunc(side, env, t, i + 1) == Scan(xs, j)
    ensures j <= |t| && ScanText(side, env, t, i, acc) == ScanText(side, env, t, j, acc + xs)
  {
  }

  lemma {:induction false} ReadTop(side: Side, env: Env, t: bytes, i: nat, w: seq<Piece>, k: nat)
    requires k <= |w| && forall j :: k <= j < |w| ==> GoodTop(env, w[j])
    requires StandsAt(t, i, SourceFrom(w, k)) && i + |SourceFrom(w, k)| == |t|
    ensures RestTop(side, env, t, i, w, k) == Scan(MeaningText(w), |t|)
    decreases |w| - k
  {
    if k < |w| {
      StandsParts(t, i, Source(w[k]), SourceFrom(w, k + 1));
      TopStep(side, env, t, i, w, k);
      ReadTop(side, env, t, i + |Source(w[k])|, w, k + 1);
    } else {
      assert MeaningText(w)[..k] == MeaningText(w);
    }
  }

  /** A text of such pieces is read whole, on both sides, as what they mean. */
  lemma ReadText(side: Side, env: Env, w: seq<Piece>)
    requires forall k :: 0 <= k < |w| ==> GoodTop(env, w[k])
    ensures ScanText(side, env, SourceText(w), 0, []) == Scan(MeaningText(w), |SourceText(w)|)
  {
    var t := SourceText(w);
    assert t[0..0 + |t|] == t;
    ReadTop(side, env, t, 0, w, 0);
    assert ItemsTo(w, 0) == [];
  }

  /** The same through the interpreter: it writes and calls what the pieces mean. */
  method Interpret(env: Env, w: seq<Piece>) returns (out: bytes, log: seq<Call>)
    requires forall k :: 0 <= k < |w| ==> GoodTop(env, w[k])
    ensures Outcome(out, log) == EvalItems(env, MeaningText(w), [])
  {
    var inp := new Reader(SourceText(w));
    var ctx := new Ctx(env);
    ReadText(Interpreter, env, w);
    DoneEmpty(env, MeaningText(w), []);
    out := ctx.Parse(inp, []);
    log := ctx.log;
  }

  /** A percent sign that starts no name stands for itself, and so does what is behind it. */
  lemma StrayPercent(side: Side, env: Env, t: bytes, i: nat, c: byte, acc: seq<Item>)
    requires i + 1 < |t| && t[i] == PCT && t[i + 1] == c && !IsSymFirst(c) && c != PCT && c != EOF
    ensures ScanText(side, env, t, i, acc) == ScanText(side, env, t, i + 2, acc + [Ch(PCT), Ch(c)])
  {
    if c == RP || c == COMMA || c == LP || c == DQ {
      TopFunc(side, env, t, i, [Ch(PCT)], i + 1, acc);
      TopChar(side, env, t, i + 1, c, acc + [Ch(PCT)]);
      assert acc + [Ch(PCT)] + [Ch(c)] == acc + [Ch(PCT), Ch(c)];
    } else {
      TopFunc(side, env, t, i, [Ch(PCT), Ch(c)], i + 2, acc);
    }
  }

  /** A name that ends neither in a parenthesis nor in a percent sign is printed by the interpreter
    and dropped by the compiler. */
  lemma BrokenName(side: Side, env: Env, t: bytes, i: nat, name: bytes, d: byte, acc: seq<Item>)
    requires i < |t| && t[i] == PCT && GoodName(name) && StandsAt(t, i + 1, name)
    requires i + |name| + 1 < |t| && t[i + |name| + 1] == d && !IsSym(d) && d != LP && d != PCT && d != EOF
    ensures ScanText(side, env, t, i, acc)
         == ScanText(side, env, t, i + |name| + 2,
                     acc + Chars([PCT] + (if side.Interpreter? then name else []) + [d]))
  {
    NameRead(t, i + 1, name);
    BrokenFunc(side, env, t, i + 1, i + 1 + |name|, name, d);
    TopFunc(side, env, t, i, Chars([PCT] + (if side.Interpreter? then name else []) + [d]), i + |name| + 2, acc);
  }

  lemma BrokenFunc(side: Side, env: Env, t: bytes, i: nat, j: nat, name: bytes, d: byte)
    requires i < j < |t| && IsSymFirst(t[i]) && SkipName(t, i + 1) == j && t[i..j] == name
    requires t[j] == d && d != LP && d != PCT && d != EOF
    ensures ScanFunc(side, env, t, i) == Scan(Chars([PCT] + (if side.Interpreter? then name else []) + [d]), j + 1)
  {
  }

  // ---------------------------------------------------------------- braces

  /** How many braces are open after the first `k` characters. */
  function Braces(v: bytes, k: nat): int
    requires k <= |v|
  {
    if k == 0 then 0 else Braces(v, k - 1) + if v[k - 1] == LC then 1 else if v[k - 1] == RC then -1 else 0
  }

  /** Without the opening braces among the first `k` characters. */
  function Unopened(v: bytes, k: nat): bytes
    requires k <= |v|
  {
    if k == 0 then [] else Unopened(v, k - 1) + if v[k - 1] == LC then [] else [v[k - 1]]
  }

  predicate GoodBraces(v: bytes) {
    && (forall k :: 0 <= k <= |v| ==> Braces(v, k) >= 0) && Braces(v, |v|) == 0
    && ESC !in v && PCT !in v && EOF !in v
  }

  lemma CharsMore(a: bytes, c: byte)
    ensures Chars(a) + [Ch(c)] == Chars(a + [c])
  {
  }

  function RestBraced(side: Side, env: Env, t: bytes, i: nat, v: bytes, k: nat): ArgScan
    requires i + k <= |t| && k <= |v|
  {
    MoreArg(side, env, t, i + k, ArgState(LC, 1 + Braces(v, k), 0, 0), Chars(Unopened(v, k)))
  }

  lemma BraceStep(side: Side, env: Env, t: bytes, i: nat, v: bytes, k: nat)
    requires GoodBraces(v) && k < |v| && StandsAt(t, i, v)
    ensures RestBraced(side, env, t, i, v, k) == RestBraced(side, env, t, i, v, k + 1)
  {
    StandsByte(t, i, v, k);
    var m, m', acc := ArgState(LC, 1 + Braces(v, k), 0, 0), ArgState(LC, 1 + Braces(v, k + 1), 0, 0), Unopened(v, k);
    assert v[k] in v && Braces(v, k + 1) >= 0;
    if v[k] == LC {
      assert Step(m, LC) == (m', Drop);
      assert Unopened(v, k + 1) == acc + [] == acc;
    } else {
      assert Step(m, v[k]) == (m', Keep);
      CharsMore(acc, v[k]);
    }
    assert MoreArg(side, env, t, i + k, m, Chars(acc)) == ScanArg(side, env, t, i + k + 1, v[k], m, Chars(acc));
  }

  lemma {:induction false} ReadBraces(side: Side, env: Env, t: bytes, i: nat, v: bytes, k: nat, e: nat, end: byte)
    requires GoodBraces(v) && k <= |v| && StandsAt(t, i, v) && (end == COMMA || end == RP)
    requires e == i + |v| && e + 1 < |t| && t[e] == RC && t[e + 1] == end
    ensures RestBraced(side, env, t, i, v, k) == ArgScan(Chars(Unopened(v, |v|)), e + 2, end == COMMA)
    decreases |v| - k
  {
    if k < |v| {
      BraceStep(side, env, t, i, v, k);
      ReadBraces(side, env, t, i, v, k + 1, e, end);
    } else {
      BraceEnds(side, env, t, e, Chars(Unopened(v, |v|)), end);
    }
  }

  lemma BraceEnds(side: Side, env: Env, t: bytes, i: nat, acc: seq<Item>, end: byte)
    requires i + 1 < |t| && t[i] == RC && t[i + 1] == end && (end == COMMA || end == RP)
    ensures MoreArg(side, env, t, i, ArgState(LC, 1, 0, 0), acc) == ArgScan(acc, i + 2, end == COMMA)
  {
    var m, n := ArgState(LC, 1, 0, 0), ArgState(0, 0, 0, 0);
    assert Step(m, RC) == (n, Drop);
    assert MoreArg(side, env, t, i, m, acc) == ScanArg(side, env, t, i + 1, RC, m, acc);
    ArgEnds(side, env, t, i + 1, n, acc, end);
    assert acc[..|acc| - 0] == acc;
  }

  /** An argument in braces is read up to the brace that balances the first one, white space,
    commas and parentheses included; of the braces inside it only the closing ones stay. */
  lemma ReadBracedArg(side: Side, env: Env, t: bytes, i: nat, v: bytes, end: byte)
    requires GoodBraces(v) && StandsAt(t, i, [LC] + v + [RC]) && (end == COMMA || end == RP)
    requires i + |v| + 2 < |t| && t[i + |v| + 2] == end
    ensures ReadArg(side, env, t, i) == ArgScan(Chars(Unopened(v, |v|)), i + |v| + 3, end == COMMA)
  {
    BraceParts(t, i, v);
    ReadOpened(side, env, t, i, v, i + |v| + 1, end);
  }

  lemma ReadOpened(side: Side, env: Env, t: bytes, i: nat, v: bytes, e: nat, end: byte)
    requires GoodBraces(v) && i + 1 < |t| && t[i] == LC && t[i + 1] != EOF && StandsAt(t, i + 1, v)
    requires e == i + |v| + 1 && e + 1 < |t| && t[e] == RC && t[e + 1] == end && (end == COMMA || end == RP)
    ensures ReadArg(side, env, t, i) == ArgScan(Chars(Unopened(v, |v|)), e + 2, end == COMMA)
  {
    BraceOpens(side, env, t, i, v);
    ReadBraces(side, env, t, i + 1, v, 0, e, end);
  }

  lemma BraceParts(t: bytes, i: nat, v: bytes)
    requires StandsAt(t, i, [LC] + v + [RC]) && EOF !in v
    ensures i + |v| + 1 < |t| && t[i] == LC && StandsAt(t, i + 1, v) && t[i + |v| + 1] == RC && t[i + 1] != EOF
  {
    StandsParts(t, i, [LC] + v, [RC]);
    StandsByte(t, i + |v| + 1, [RC], 0);
    StandsParts(t, i, [LC], v);
    StandsByte(t, i, [LC], 0);
    if v != [] {
      StandsByte(t, i + 1, v, 0);
      assert v[0] in v;
    }
  }

  lemma BraceOpens(side: Side, env: Env, t: bytes, i: nat, v: bytes)
    requires i + 1 < |t| && t[i] == LC && t[i + 1] != EOF
    ensures ReadArg(side, env, t, i) == RestBraced(side, env, t, i + 1, v, 0)
  {
    var m := ArgState(LC, 1, 0, 0);
    assert Chars(Unopened(v, 0)) == [];
    assert MoreArg(side, env, t, i + 1, m, []) == ScanArg(side, env, t, i + 2, t[i + 1], m, []);
  }
}
