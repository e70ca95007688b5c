/** Printing a string as a macro argument, and reading it back. */
module MacroQuote {
  import opened Bytes
  import opened Options
  import opened Macro
  import opened MacroInterp

  /** A character that makes the printer quote the string. */
  predicate Special(c: byte) {
    c == SQ || c == PCT || c == DQ || c == COMMA || c == ESC || c == RP || c == LP
    || c == 0 || c == EOF || IsSpace(c)
  }

  /** These are the marks of the language, white space, NUL and EOF; inside quotes only the quote,
    the backslash, parentheses and the percent sign are marked. */
  lemma SpecialIs(c: byte)
    ensures Special(c) <==>
      || c == Ascii('\'') || c == Ascii('%') || c == Ascii('"') || c == Ascii(',') || c == Ascii('\\')
      || c == Ascii('(') || c == Ascii(')') || c == 0 || c == 255 || c == Ascii(' ') || 9 <= c <= 13
    ensures EscapeChar(c)
         == if c == Ascii('%') then [c, c]
            else if c == Ascii('"') || c == Ascii('\\') || c == Ascii('(') || c == Ascii(')') then [Ascii('\\'), c]
            else [c]
  {
  }

  predicate Plain(w: bytes) {
    forall k :: 0 <= k < |w| ==> !Special(w[k])
  }

  /** One character inside quotes. */
  function EscapeChar(c: byte): bytes {
    if c == DQ || c == ESC || c == LP || c == RP then [ESC, c]
    else if c == PCT then [PCT, PCT]
    else [c]
  }

  function Escape(w: bytes): bytes {
    if w == [] then [] else EscapeChar(w[0]) + Escape(w[1..])
  }

  function Quoted(w: bytes): bytes {
    if Plain(w) then w else [DQ] + Escape(w) + [DQ]
  }

  lemma {:induction false} EscapePlain(w: bytes)
    requires Plain(w)
    ensures Escape(w) == w
  {
    if w != [] {
      EscapePlain(w[1..]);
    }
  }

  lemma {:induction false} EscapeConcat(v: bytes, w: bytes)
    ensures Escape(v + w) == Escape(v) + Escape(w)
  {
    if v == [] {
      assert v + w == w;
    } else {
      assert (v + w)[1..] == v[1..] + w;
      EscapeConcat(v[1..], w);
    }
  }

  /** `SmxQuote`: at the first special character, quote everything and escape from there on. */
  method SmxQuote(w: bytes) returns (r: bytes)
    ensures r == Quoted(w)
  {
    var p := 0;
    while p < |w|
      invariant 0 <= p <= |w| && Plain(w[..p])
    {
      if Special(w[p]) {
        r := EscapeFrom(w, p);
        return;
      }
      p := p + 1;
    }
    assert w[..p] == w;
    return w;
  }

  /** Quote the plain characters before `p` as they are, and escape the rest. */
  method EscapeFrom(w: bytes, p: nat) returns (r: bytes)
    requires p <= |w| && Plain(w[..p])
    ensures r == [DQ] + Escape(w) + [DQ]
  {
    r := [DQ] + w[..p];
    EscapePlain(w[..p]);
    var p := p;
    while p < |w|
      invariant 0 <= p <= |w| && r == [DQ] + Escape(w[..p])
    {
      EscapeMore(w, p);
      r := EscapeOne(r, w[p]);
      p := p + 1;
    }
    assert w[..p] == w;
    r := r + [DQ];
  }

  method EscapeOne(r: bytes, c: byte) returns (r': bytes)
    ensures r' == r + EscapeChar(c)
  {
    r' := r;
    if c == DQ || c == ESC || c == LP || c == RP {
      r' := r' + [ESC];
      r' := r' + [c];
    } else if c == PCT {
      r' := r' + [PCT];
      r' := r' + [PCT];
    } else {
      r' := r' + [c];
    }
  }

  lemma EscapeMore(w: bytes, p: nat)
    requires p < |w|
    ensures Escape(w[..p + 1]) == Escape(w[..p]) + EscapeChar(w[p])
  {
    EscapeConcat(w[..p], [w[p]]);
    assert w[..p + 1] == w[..p] + [w[p]];
    assert Escape([w[p]]) == EscapeChar(w[p]) + [];
  }

  /** The strings that come back: no EOF byte but at the start, and no plain string starting
    with a brace. */
  predicate ReadsBack(w: bytes) {
    && (forall k :: 1 <= k < |w| ==> w[k] != EOF)
    && !(Plain(w) && w != [] && w[0] == LC)
  }

  /** An argument inside a text: what is before it, its end mark, what is after it. */
  function Around(pre: bytes, t: bytes, end: byte, rest: bytes): bytes {
    pre + t + [end] + rest
  }

  lemma AroundFirst(pre: bytes, w: bytes, end: byte, rest: bytes)
    requires w != []
    ensures var t := Around(pre, w, end, rest);
      |pre| < |t| && t[|pre|] == w[0] && t == Around(pre + [w[0]], w[1..], end, rest)
  {
    assert w == [w[0]] + w[1..];
    AroundParts(pre, [w[0]], w[1..], end, rest);
  }

  lemma CharsFrom(acc: seq<Item>, w: bytes)
    requires w != []
    ensures acc + [Ch(w[0])] + Chars(w[1..]) == acc + Chars(w)
  {
  }

  /** A character that is kept. */
  lemma ReadKept(side: Side, env: Env, t: bytes, i: nat, m: ArgState, acc: seq<Item>)
    requires i < |t| && !Special(t[i]) && m.numsp <= |acc| && Step(m, t[i]) == (m, Keep)
    ensures MoreArg(side, env, t, i, m, acc) == MoreArg(side, env, t, i + 1, m, acc + [Ch(t[i])])
  {
    assert MoreArg(side, env, t, i, m, acc) == ScanArg(side, env, t, i + 1, t[i], m, acc);
  }

  /** An opening quote, and an EOF byte behind it, which is kept there. */
  lemma OpenQuote(side: Side, env: Env, t: bytes, i: nat)
    requires i + 1 < |t| && t[i] == DQ
    ensures ReadArg(side, env, t, i)
         == (if t[i + 1] == EOF then MoreArg(side, env, t, i + 2, ArgState(DQ, 0, 0, 0), [Ch(EOF)])
             else MoreArg(side, env, t, i + 1, ArgState(DQ, 0, 0, 0), []))
  {
    var m := ArgState(DQ, 0, 0, 0);
    assert ReadArg(side, env, t, i) == ScanArg(side, env, t, i + 2, t[i + 1], m, []);
    if t[i + 1] == EOF {
      assert Step(m, EOF) == (m, Keep) && [] + [Ch(EOF)] == [Ch(EOF)];
    }
  }

  /** Inside quotes one printed character is taken over. */
  lemma ReadEscaped(side: Side, env: Env, t: bytes, i: nat, c: byte, acc: seq<Item>)
    requires c != EOF && i + |EscapeChar(c)| <= |t| && t[i..i + |EscapeChar(c)|] == EscapeChar(c)
    ensures MoreArg(side, env, t, i, ArgState(DQ, 0, 0, 0), acc)
         == MoreArg(side, env, t, i + |EscapeChar(c)|, ArgState(DQ, 0, 0, 0), acc + [Ch(c)])
  {
    var m := ArgState(DQ, 0, 0, 0);
    assert t[i] == EscapeChar(c)[0];
    assert MoreArg(side, env, t, i, m, acc) == ScanArg(side, env, t, i + 1, t[i], m, acc);
    if c == PCT {
      assert t[i + 1] == EscapeChar(c)[1];
      assert ScanFunc(side, env, t, i + 1) == Scan([Ch(PCT)], i + 2);
    } else if |EscapeChar(c)| == 2 {
      assert t[i + 1] == EscapeChar(c)[1];
    } else {
      assert Step(m, c) == (m, Keep);
    }
  }

  /** The closing quote and the end mark. */
  lemma ReadClose(side: Side, env: Env, t: bytes, i: nat, end: byte, acc: seq<Item>)
    requires i + 1 < |t| && t[i] == DQ && t[i + 1] == end && (end == COMMA || end == RP)
    ensures MoreArg(side, env, t, i, ArgState(DQ, 0, 0, 0), acc) == ArgScan(acc, i + 2, end == COMMA)
  {
    var m, n := ArgState(DQ, 0, 0, 0), ArgState(0, 0, 0, 0);
    assert Step(m, DQ) == (n, Drop);
    assert MoreArg(side, env, t, i, m, acc) == ScanArg(side, env, t, i + 1, DQ, m, acc)
      == MoreArg(side, env, t, i + 1, n, acc);
    assert Step(n, end) == (n, Finish(end == COMMA));
    assert ScanArg(side, env, t, i + 2, end, n, acc) == ArgScan(acc[..|acc| - 0], i + 2, end == COMMA);
  }

  lemma AroundEscaped(pre: bytes, w: bytes, end: byte, rest: bytes)
    requires w != []
    ensures var e := EscapeChar(w[0]);
      var t := Around(pre, Escape(w) + [DQ], end, rest);
      && t == Around(pre + e, Escape(w[1..]) + [DQ], end, rest)
      && |pre| + |e| <= |t| && t[|pre|..|pre| + |e|] == e
  {
    var e, x := EscapeChar(w[0]), Escape(w[1..]);
    assert Escape(w) + [DQ] == e + (x + [DQ]);
    AroundParts(pre, e, x + [DQ], end, rest);
  }

  lemma AroundParts(pre: bytes, a: bytes, b: bytes, end: byte, rest: bytes)
    ensures Around(pre, a + b, end, rest) == Around(pre + a, b, end, rest)
    ensures Around(pre, a + b, end, rest)[|pre|..|pre| + |a|] == a
  {
    assert pre + (a + b) == (pre + a) + b;
  }

  /** Inside quotes every escaped string is taken over, and the end mark after the closing
    quote ends the argument. */
  lemma {:induction false} ReadQuoted(side: Side, env: Env, pre: bytes, w: bytes, end: byte, rest: bytes,
                                      acc: seq<Item>)
    requires EOF !in w && (end == COMMA || end == RP)
    ensures MoreArg(side, env, Around(pre, Escape(w) + [DQ], end, rest), |pre|, ArgState(DQ, 0, 0, 0), acc)
         == ArgScan(acc + Chars(w), |pre| + |Escape(w)| + 2, end == COMMA)
    decreases |w|
  {
    var m := ArgState(DQ, 0, 0, 0);
    var t := Around(pre, Escape(w) + [DQ], end, rest);
    var i := |pre|;
    if w == [] {
      ReadClose(side, env, t, i, end, acc);
      assert acc + Chars(w) == acc;
    } else {
      var e := EscapeChar(w[0]);
      AroundEscaped(pre, w, end, rest);
      ReadEscaped(side, env, t, i, w[0], acc);
      ReadQuoted(side, env, pre + e, w[1..], end, rest, acc + [Ch(w[0])]);
      CharsFrom(acc, w);
    }
  }

  /** Outside quotes a plain string is taken over as it is. */
  lemma {:induction false} ReadPlain(side: Side, env: Env, pre: bytes, w: bytes, end: byte, rest: bytes, acc: seq<Item>)
    requires Plain(w) && (end == COMMA || end == RP)
    ensures MoreArg(side, env, Around(pre, w, end, rest), |pre|, ArgState(0, 0, 0, 0), acc)
         == ArgScan(acc + Chars(w), |pre| + |w| + 1, end == COMMA)
    decreases |w|
  {
    var m := ArgState(0, 0, 0, 0);
    var t := Around(pre, w, end, rest);
    var i := |pre|;
    if w == [] {
      assert t[i] == end;
      assert acc + Chars(w) == acc;
    } else {
      AroundFirst(pre, w, end, rest);
      ReadKept(side, env, t, i, m, acc);
      ReadPlain(side, env, pre + [w[0]], w[1..], end, rest, acc + [Ch(w[0])]);
      CharsFrom(acc, w);
    }
  }

  /** Where the argument that starts after `pre` reads its first character. */
  function ReadArg(side: Side, env: Env, t: bytes, i: nat): ArgScan
    requires i <= |t|
  {
    StartArg(side, env, t, After(t, i), Peek(t, i))
  }

  /** A printed string in front of a comma or a right parenthesis is read back whole. */
  lemma QuoteReadsBack(side: Side, env: Env, pre: bytes, w: bytes, end: byte, rest: bytes)
    requires ReadsBack(w) && (end == COMMA || end == RP)
    ensures ReadArg(side, env, Around(pre, Quoted(w), end, rest), |pre|)
         == ArgScan(Chars(w), |pre| + |Quoted(w)| + 1, end == COMMA)
  {
    if Plain(w) {
      ReadPlainArg(side, env, pre, w, end, rest);
    } else if w[0] == EOF {
      ReadQuotedEof(side, env, pre, w, end, rest);
    } else {
      assert EOF !in w;
      ReadQuotedArg(side, env, pre, w, end, rest);
    }
  }

  lemma ReadPlainArg(side: Side, env: Env, pre: bytes, w: bytes, end: byte, rest: bytes)
    requires Plain(w) && (end == COMMA || end == RP) && (w != [] ==> w[0] != LC)
    ensures ReadArg(side, env, Around(pre, w, end, rest), |pre|) == ArgScan(Chars(w), |pre| + |w| + 1, end == COMMA)
  {
    var t := Around(pre, w, end, rest);
    assert t[|pre|] == if w == [] then end else w[0];
    ReadPlain(side, env, pre, w, end, rest, []);
    assert [] + Chars(w) == Chars(w);
  }

  lemma ReadQuotedArg(side: Side, env: Env, pre: bytes, w: bytes, end: byte, rest: bytes)
    requires w != [] && EOF !in w && (end == COMMA || end == RP)
    ensures ReadArg(side, env, Around(pre, [DQ] + Escape(w) + [DQ], end, rest), |pre|)
         == ArgScan(Chars(w), |pre| + |Escape(w)| + 3, end == COMMA)
  {
    var t := Around(pre, [DQ] + Escape(w) + [DQ], end, rest);
    var i := |pre|;
    QuoteStart(pre, w, end, rest);
    OpenQuote(side, env, t, i);
    ReadQuoted(side, env, pre + [DQ], w, end, rest, []);
    assert [] + Chars(w) == Chars(w);
  }

  lemma QuoteStart(pre: bytes, w: bytes, end: byte, rest: bytes)
    requires w != [] && w[0] != EOF
    ensures var t := Around(pre, [DQ] + Escape(w) + [DQ], end, rest);
      && t == Around(pre + [DQ], Escape(w) + [DQ], end, rest)
      && |pre| + 1 < |t| && t[|pre|] == DQ && t[|pre| + 1] != EOF
  {
    var x := Escape(w) + [DQ];
    assert [DQ] + Escape(w) + [DQ] == [DQ] + x;
    AroundParts(pre, [DQ], x, end, rest);
    assert x[0] == EscapeChar(w[0])[0] && Around(pre + [DQ], x, end, rest)[|pre| + 1] == x[0];
    assert Around(pre, [DQ] + x, end, rest)[|pre|..|pre| + 1][0] == DQ;
  }

  lemma ReadQuotedEof(side: Side, env: Env, pre: bytes, w: bytes, end: byte, rest: bytes)
    requires ReadsBack(w) && w != [] && w[0] == EOF && (end == COMMA || end == RP)
    ensures ReadArg(side, env, Around(pre, [DQ] + Escape(w) + [DQ], end, rest), |pre|)
         == ArgScan(Chars(w), |pre| + |Escape(w)| + 3, end == COMMA)
  {
    var t := Around(pre, [DQ] + Escape(w) + [DQ], end, rest);
    var i := |pre|;
    EofStart(pre, w, end, rest);
    OpenQuote(side, env, t, i);
    ReadQuoted(side, env, pre + [DQ, EOF], w[1..], end, rest, [Ch(EOF)]);
    assert [Ch(EOF)] + Chars(w[1..]) == Chars(w);
  }

  lemma EofStart(pre: bytes, w: bytes, end: byte, rest: bytes)
    requires w != [] && w[0] == EOF
    ensures var t := Around(pre, [DQ] + Escape(w) + [DQ], end, rest);
      && t == Around(pre + [DQ, EOF], Escape(w[1..]) + [DQ], end, rest)
      && |pre| + 1 < |t| && t[|pre|] == DQ && t[|pre| + 1] == EOF && |Escape(w)| == 1 + |Escape(w[1..])|
  {
    var x := Escape(w[1..]);
    assert [DQ] + Escape(w) + [DQ] == [DQ, EOF] + (x + [DQ]);
    AroundParts(pre, [DQ, EOF], x + [DQ], end, rest);
    var u := Around(pre, [DQ, EOF] + (x + [DQ]), end, rest)[|pre|..|pre| + 2];
    assert u[0] == DQ && u[1] == EOF;
  }

  // ---------------------------------------------------------------- what does not come back

  /** A live argument keeps what has been scanned, but for the spaces it counts. */
  lemma {:induction false} ScanPrefix(side: Side, env: Env, s: bytes, i: nat, c: byte, m: ArgState, acc: seq<Item>)
    requires i <= |s| && m.numsp <= |acc|
    ensures var r := ScanArg(side, env, s, i, c, m, acc);
      acc[..|acc| - m.numsp] <= r.items
    decreases |s| - i
  {
    if c == ESC {
      var e := Peek(s, i);
      MorePrefix(side, env, s, After(s, i), m.(numsp := 0), if e == EOF then acc else acc + [Ch(e)]);
    } else if c == PCT {
      var f := ScanFunc(side, env, s, i);
      MorePrefix(side, env, s, f.next, m.(numsp := 0), acc + f.items);
    } else {
      var (m', act) := Step(m, c);
      if act.Keep? {
        MorePrefix(side, env, s, i, m', acc + [Ch(c)]);
      } else if act.Drop? {
        MorePrefix(side, env, s, i, m', acc);
      }
    }
  }

  lemma {:induction false} MorePrefix(side: Side, env: Env, s: bytes, i: nat, m: ArgState, acc: seq<Item>)
    requires i <= |s| && m.numsp <= |acc|
    ensures var r := MoreArg(side, env, s, i, m, acc);
      acc[..|acc| - m.numsp] <= r.items
    decreases |s| - i, 0
  {
    if Peek(s, i) != EOF {
      ScanPrefix(side, env, s, i + 1, s[i], m, acc);
    }
  }

  /** After at most `bound` characters the items end, or hold the end mark. */
  ghost predicate Strays(items: seq<Item>, bound: nat, end: byte) {
    exists n :: 0 <= n <= bound && StraysAt(items, n, end)
  }

  predicate StraysAt(items: seq<Item>, n: nat, end: byte) {
    && n <= |items| && (n == |items| || items[n] == Ch(end))
    && forall k :: 0 <= k < n ==> items[k].Ch?
  }

  lemma StraysDiffers(env: Env, items: seq<Item>, bound: nat, end: byte, w: bytes, log: seq<Call>)
    requires Strays(items, bound, end) && bound < |w| && end !in w
    ensures EvalItems(env, items, log).text != w
  {
    var n :| 0 <= n <= bound && StraysAt(items, n, end);
    var t := seq(n, k requires 0 <= k < n => items[k].c);
    EvalChars(env, t, log);
    if n == |items| {
      assert items == Chars(t);
    } else {
      assert items == Chars(t) + items[n..];
      EvalConcat(env, Chars(t), items[n..], log);
      var text := EvalItems(env, items, log).text;
      assert text[n] == end;
    }
  }

  lemma BracedEnd(side: Side, env: Env, t: bytes, i: nat, end: byte, m: ArgState, acc: seq<Item>)
    requires i < |t| && t[i] == end && (end == COMMA || end == RP)
    requires (m.quoted == LC || m.quoted == 0) && m.lpc == 0 && m.numsp == 0
    requires forall k :: 0 <= k < |acc| ==> acc[k].Ch?
    ensures var r := MoreArg(side, env, t, i, m, acc);
      StraysAt(r.items, |acc|, end)
  {
    assert MoreArg(side, env, t, i, m, acc) == ScanArg(side, env, t, i + 1, end, m, acc);
    if m.quoted == LC {
      assert Step(m, end) == (m, Keep);
      assert MoreArg(side, env, t, i, m, acc) == MoreArg(side, env, t, i + 1, m, acc + [Ch(end)]);
      MorePrefix(side, env, t, i + 1, m, acc + [Ch(end)]);
      var r := MoreArg(side, env, t, i, m, acc);
      assert acc + [Ch(end)] <= r.items;
      assert forall k :: 0 <= k < |acc| ==> r.items[k] == acc[k];
    } else {
      assert Step(m, end) == (m, Finish(end == COMMA));
      assert acc[..|acc| - 0] == acc;
    }
  }

  /** From an open or closed brace on, a plain string strays. */
  lemma {:induction false} ReadBraced(side: Side, env: Env, pre: bytes, v: bytes, end: byte, rest: bytes, m: ArgState,
                                      acc: seq<Item>)
    requires Plain(v) && (end == COMMA || end == RP)
    requires (m.quoted == LC || m.quoted == 0) && m.lpc == 0 && m.numsp == 0
    requires forall k :: 0 <= k < |acc| ==> acc[k].Ch?
    ensures var r := MoreArg(side, env, Around(pre, v, end, rest), |pre|, m, acc);
      Strays(r.items, |acc| + |v|, end)
    decreases |v|
  {
    var t := Around(pre, v, end, rest);
    var i := |pre|;
    if v == [] {
      BracedEnd(side, env, t, i, end, m, acc);
    } else {
      assert t == Around(pre + [v[0]], v[1..], end, rest);
      assert t[i] == v[0] && !Special(v[0]);
      var (m', act) := Step(m, v[0]);
      var acc' := if act.Keep? then acc + [Ch(v[0])] else acc;
      assert MoreArg(side, env, t, i, m, acc) == MoreArg(side, env, t, i + 1, m', acc');
      ReadBraced(side, env, pre + [v[0]], v[1..], end, rest, m', acc');
    }
  }

  /** Inside quotes reading stops at an EOF byte. */
  lemma {:induction false} ReadToEof(side: Side, env: Env, pre: bytes, v: bytes, rest: bytes, acc: seq<Item>)
    requires EOF !in v
    ensures MoreArg(side, env, Around(pre, Escape(v), EOF, rest), |pre|, ArgState(DQ, 0, 0, 0), acc)
         == ArgScan(acc + Chars(v), |pre| + |Escape(v)| + 1, false)
    decreases |v|
  {
    var m := ArgState(DQ, 0, 0, 0);
    var t := Around(pre, Escape(v), EOF, rest);
    var i := |pre|;
    if v == [] {
      assert t[i] == EOF;
      assert acc + Chars(v) == acc;
    } else {
      var e := EscapeChar(v[0]);
      AroundParts(pre, e, Escape(v[1..]), EOF, rest);
      ReadEscaped(side, env, t, i, v[0], acc);
      ReadToEof(side, env, pre + e, v[1..], rest, acc + [Ch(v[0])]);
      CharsFrom(acc, v);
    }
  }

  /** A quoted string with an EOF byte at `k`, the first one after the start, is cut there. */
  lemma ReadCut(side: Side, env: Env, pre: bytes, w: bytes, k: nat, end: byte, rest: bytes)
    requires 1 <= k < |w| && w[k] == EOF && forall j :: 1 <= j < k ==> w[j] != EOF
    ensures ReadArg(side, env, Around(pre, Quoted(w), end, rest), |pre|).items == Chars(w[..k])
  {
    assert !Plain(w) by { assert Special(w[k]); }
    var t := Around(pre, Quoted(w), end, rest);
    var after := Escape(w[k + 1..]) + [DQ, end] + rest;
    var j := if w[0] == EOF then 1 else 0;
    CutParts(pre, w, j, k, end, rest);
    CutStart(pre, w, j, k, after);
    OpenQuote(side, env, t, |pre|);
    CharsCut(w, j, k);
    ReadToEof(side, env, pre + [DQ] + w[..j], w[j..k], after, Chars(w[..j]));
  }

  lemma CharsCut(w: bytes, j: nat, k: nat)
    requires 1 <= k < |w| && j == if w[0] == EOF then 1 else 0
    ensures Chars(w[..j]) == if j == 1 then [Ch(EOF)] else []
    ensures Chars(w[..j]) + Chars(w[j..k]) == Chars(w[..k])
  {
  }

  lemma CutStart(pre: bytes, w: bytes, j: nat, k: nat, after: bytes)
    requires 1 <= k < |w| && j == if w[0] == EOF then 1 else 0
    ensures var t := Around(pre + [DQ] + w[..j], Escape(w[j..k]), EOF, after);
      |pre| + 1 < |t| && t[|pre|] == DQ && (t[|pre| + 1] == EOF <==> j == 1)
  {
    var v := w[j..k];
    if j == 0 {
      assert Escape(v)[0] == EscapeChar(w[0])[0];
    }
  }

  lemma CutParts(pre: bytes, w: bytes, j: nat, k: nat, end: byte, rest: bytes)
    requires j <= k < |w| && w[k] == EOF && j <= 1 && (j == 1 ==> w[0] == EOF)
    ensures Around(pre, [DQ] + Escape(w) + [DQ], end, rest)
         == Around(pre + [DQ] + w[..j], Escape(w[j..k]), EOF, Escape(w[k + 1..]) + [DQ, end] + rest)
  {
    var u, v, x := w[..j], w[j..k], w[k + 1..];
    EscapeCut(w, j, k);
    Regroup(pre, u, Escape(v), Escape(x), end, rest);
  }

  lemma EscapeCut(w: bytes, j: nat, k: nat)
    requires j <= k < |w| && w[k] == EOF && j <= 1 && (j == 1 ==> w[0] == EOF)
    ensures Escape(w) == w[..j] + (Escape(w[j..k]) + ([EOF] + Escape(w[k + 1..])))
  {
    EscapeSplit(w, j);
    EscapeSplit(w[j..], k - j);
    assert w[j..][..k - j] == w[j..k] && w[j..][k - j..] == w[k..];
    EscapeEof(w[k..]);
    assert w[k..][1..] == w[k + 1..];
    if j == 1 {
      EscapeEof(w[..1]);
      assert w[..1] == [EOF] + [];
    }
  }

  lemma EscapeEof(w: bytes)
    requires w != [] && w[0] == EOF
    ensures Escape(w) == [EOF] + Escape(w[1..])
  {
  }

  lemma EscapeSplit(w: bytes, k: nat)
    requires k <= |w|
    ensures Escape(w) == Escape(w[..k]) + Escape(w[k..])
  {
    assert w == w[..k] + w[k..];
    EscapeConcat(w[..k], w[k..]);
  }

  lemma Regroup(pre: bytes, u: bytes, v: bytes, x: bytes, end: byte, rest: bytes)
    ensures Around(pre, [DQ] + (u + (v + ([EOF] + x))) + [DQ], end, rest)
         == Around(pre + [DQ] + u, v, EOF, x + [DQ, end] + rest)
  {
    var y := [EOF] + x + [DQ, end] + rest;
    assert Around(pre, [DQ] + (u + (v + ([EOF] + x))) + [DQ], end, rest) == pre + [DQ] + u + v + y;
    assert Around(pre + [DQ] + u, v, EOF, x + [DQ, end] + rest) == pre + [DQ] + u + v + y;
  }

  /** Every other string is lost: whatever follows it, it does not come back. */
  lemma QuoteLost(side: Side, env: Env, pre: bytes, w: bytes, end: byte, rest: bytes, log: seq<Call>)
    requires !ReadsBack(w) && (end == COMMA || end == RP)
    ensures var r := ReadArg(side, env, Around(pre, Quoted(w), end, rest), |pre|);
      EvalItems(env, r.items, log).text != w
  {
    var t := Around(pre, Quoted(w), end, rest);
    if k: nat :| 1 <= k < |w| && w[k] == EOF {
      var k0 := FirstEof(w, 1);
      ReadCut(side, env, pre, w, k0, end, rest);
      EvalChars(env, w[..k0], log);
    } else {
      var m := ArgState(LC, 1, 0, 0);
      var i := |pre|;
      assert t == Around(pre + [LC], w[1..], end, rest);
      assert t[i] == LC && t[i + 1] == if |w| == 1 then end else w[1];
      assert |w| > 1 ==> !Special(w[1]);
      assert ReadArg(side, env, t, i) == MoreArg(side, env, t, i + 1, m, []);
      ReadBraced(side, env, pre + [LC], w[1..], end, rest, m, []);
      assert end !in w by {
        forall k | 0 <= k < |w| ensures w[k] != end { assert !Special(w[k]); }
      }
      var r := ReadArg(side, env, t, i);
      StraysDiffers(env, r.items, |w| - 1, end, w, log);
    }
  }

  function FirstEof(w: bytes, i: nat): (k: nat)
    requires exists j :: i <= j < |w| && w[j] == EOF
    ensures i <= k < |w| && w[k] == EOF && forall j :: i <= j < k ==> w[j] != EOF
    decreases |w| - i
  {
    if w[i] == EOF then i else FirstEof(w, i + 1)
  }

  /** A printed string comes back exactly when it has no EOF byte after its first and is no
    plain string starting with a brace, whatever follows it. */
  lemma QuoteRoundTrip(side: Side, env: Env, pre: bytes, w: bytes, end: byte, rest: bytes, log: seq<Call>)
    requires end == COMMA || end == RP
    ensures var r := ReadArg(side, env, Around(pre, Quoted(w), end, rest), |pre|);
      ReadsBack(w) <==> EvalItems(env, r.items, log).text == w
  {
    if ReadsBack(w) {
      QuoteReadsBack(side, env, pre, w, end, rest);
      EvalChars(env, w, log);
    } else {
      QuoteLost(side, env, pre, w, end, rest, log);
    }
  }

  /** The same through the methods: print a string, put it in front of a comma or right
    parenthesis and any further text, and let the interpreter read an argument there. */
  method PrintAndRead(env: Env, w: bytes, end: byte, rest: bytes, log: seq<Call>) returns (text: bytes)
    requires end == COMMA || end == RP
    ensures text == w <==> ReadsBack(w)
  {
    var q := SmxQuote(w);
    ghost var t := Around([], q, end, rest);
    assert t == [] + q + [end] + rest;
    var inp := new Reader([] + q + [end] + rest);
    var ctx := new Ctx(env);
    ctx.log := log;
    var c := inp.GetC();
    var more;
    more, text := ctx.ParseArg(inp, c);
    QuoteRoundTrip(Interpreter, env, [], w, end, rest, log);
  }

  // ---------------------------------------------------------------- lists

  /** `EvalSmxQuote`: strings printed one after the other, with commas. */
  function Listed(ws: seq<bytes>): bytes {
    if ws == [] then [] else if |ws| == 1 then Quoted(ws[0]) else Quoted(ws[0]) + [COMMA] + Listed(ws[1..])
  }

  function Lives(ws: seq<bytes>): (xs: seq<ArgText>)
    ensures |xs| == |ws| && forall k :: 0 <= k < |ws| ==> xs[k] == Live(Chars(ws[k]))
  {
    seq(|ws|, k requires 0 <= k < |ws| => Live(Chars(ws[k])))
  }

  /** A printed list of strings that read back, closed by a parenthesis, is the argument list
    of the strings themselves. */
  lemma {:induction false} ListReadsBack(side: Side, env: Env, pre: bytes, ws: seq<bytes>, rest: bytes,
                                         acc: seq<ArgText>)
    requires ws != [] && forall k :: 0 <= k < |ws| ==> ReadsBack(ws[k])
    ensures ScanArgs(side, env, Around(pre, Listed(ws), RP, rest), |pre|, FirstMode(None), acc)
         == ArgsScan(acc + Lives(ws), |pre| + |Listed(ws)| + 1)
    decreases |ws|
  {
    var t := Around(pre, Listed(ws), RP, rest);
    var w := ws[0];
    var x := [Live(Chars(w))];
    var q := FirstMode(None);
    if |ws| == 1 {
      ReadListed(side, env, pre, w, RP, rest);
      ArgsLast(side, env, t, |pre|, acc, x[0], |pre| + |Listed(ws)| + 1);
      assert x == Lives(ws);
    } else {
      var more := Listed(ws[1..]);
      var pre' := pre + Quoted(w) + [COMMA];
      ListParts(pre, Quoted(w), more, rest);
      ReadListed(side, env, pre, w, COMMA, more + [RP] + rest);
      ArgsMore(side, env, t, |pre|, acc, x[0], |pre'|);
      ListReadsBack(side, env, pre', ws[1..], rest, acc + x);
      LivesFirst(ws, acc);
    }
  }

  lemma ArgsMore(side: Side, env: Env, t: bytes, i: nat, acc: seq<ArgText>, x: ArgText, next: nat)
    requires i <= |t| && NextArg(side, env, t, i, ZERO) == ScanOne(x, next, true)
    ensures ScanArgs(side, env, t, i, FirstMode(None), acc) == ScanArgs(side, env, t, next, FirstMode(None), acc + [x])
  {
  }

  lemma ArgsLast(side: Side, env: Env, t: bytes, i: nat, acc: seq<ArgText>, x: ArgText, next: nat)
    requires i <= |t| && NextArg(side, env, t, i, ZERO) == ScanOne(x, next, false)
    ensures ScanArgs(side, env, t, i, FirstMode(None), acc) == ArgsScan(acc + [x], next)
  {
  }

  lemma LivesFirst(ws: seq<bytes>, acc: seq<ArgText>)
    requires ws != []
    ensures acc + [Live(Chars(ws[0]))] + Lives(ws[1..]) == acc + Lives(ws)
  {
    assert Lives(ws) == [Live(Chars(ws[0]))] + Lives(ws[1..]);
  }

  lemma ListParts(pre: bytes, a: bytes, b: bytes, rest: bytes)
    ensures Around(pre, a + [COMMA] + b, RP, rest) == Around(pre, a, COMMA, b + [RP] + rest)
    ensures Around(pre, a + [COMMA] + b, RP, rest) == Around(pre + a + [COMMA], b, RP, rest)
  {
  }

  lemma ReadListed(side: Side, env: Env, pre: bytes, w: bytes, end: byte, rest: bytes)
    requires ReadsBack(w) && (end == COMMA || end == RP)
    ensures NextArg(side, env, Around(pre, Quoted(w), end, rest), |pre|, ZERO)
         == ScanOne(Live(Chars(w)), |pre| + |Quoted(w)| + 1, end == COMMA)
  {
    var t := Around(pre, Quoted(w), end, rest);
    var c := t[|pre|];
    assert c == if Plain(w) then (if w == [] then end else w[0]) else DQ;
    assert !IsSpace(c) && c != SQ && c != EOF;
    assert SkipSpace(t, |pre|) == |pre|;
    QuoteReadsBack(side, env, pre, w, end, rest);
  }
}
