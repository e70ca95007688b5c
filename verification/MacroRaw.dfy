/** Arguments that are kept raw: which ones a quote map asks for, and what is taken over. */
module MacroRaw {
  import opened Bytes
  import opened Options
  import opened Macro
  import opened MacroRead

  // ---------------------------------------------------------------- quote maps

  /** How many characters at the start of a quote map are zeros and ones. */
  function Digits(m: bytes): (n: nat)
    ensures n <= |m| && (forall k :: 0 <= k < n ==> m[k] == ZERO || m[k] == ONE)
    ensures n < |m| ==> m[n] != ZERO && m[n] != ONE
  {
    if m != [] && (m[0] == ZERO || m[0] == ONE) then 1 + Digits(m[1..]) else 0
  }

  lemma {:induction false} ModeAhead(q: QMode, k: nat)
    ensures ModeAt(q, k) == if k <= Digits(q.ahead) then QMode(if k == 0 then q.mode else q.ahead[k - 1], q.ahead[k..])
                            else if Digits(q.ahead) < |q.ahead| then ModeAt(q, Digits(q.ahead)) else QMode(ZERO, [])
    decreases k
  {
    if k > 0 {
      var q' := NextMode(q);
      ModeAhead(q', k - 1);
      if Digits(q.ahead) > 0 {
        assert forall j :: 0 < j <= |q.ahead| ==> q'.ahead[j - 1..] == q.ahead[j..];
        if Digits(q.ahead) > 1 && k > Digits(q.ahead) {
          assert ModeAt(q, Digits(q.ahead)) == ModeAt(q', Digits(q.ahead) - 1);
        }
      }
    }
  }

  /** The `k`th argument of a function with the quote map `m` is raw if and only if the map starts
    with an 'A', or has a '1' at `k`; behind an 'A' further on every argument is like the one
    before it, and behind the end of the map none is raw. */
  lemma ModeIs(m: bytes, k: nat)
    requires GoodMap(m)
    ensures ModeAt(FirstMode(Some(m)), k).mode
         == if m[0] == Ascii('A') then ONE
            else if k < Digits(m) then m[k]
            else if Digits(m) < |m| then m[Digits(m) - 1]
            else ZERO
  {
    var q := FirstMode(Some(m));
    ModeAhead(q, k);
    if m[0] != ALL {
      assert Digits(m) == 1 + Digits(m[1..]);
      ModeAhead(q, Digits(m[1..]));
    }
  }

  // ---------------------------------------------------------------- balanced text

  /** How many parentheses are open after the first `k` characters. */
  function Parens(v: bytes, k: nat): int
    requires k <= |v|
  {
    if k == 0 then 0 else Parens(v, k - 1) + if v[k - 1] == LP then 1 else if v[k - 1] == RP then -1 else 0
  }

  /** The character at `k` can stand there in a raw argument. */
  predicate FitsRaw(v: bytes, k: nat)
    requires k <= |v|
  {
    && Parens(v, k) >= 0
    && (k < |v| ==>
         && v[k] != ESC && v[k] != EOF && (v[k] == COMMA ==> Parens(v, k) > 0)
         && (v[k] == LP ==> k + 1 < |v| && !IsSpace(v[k + 1])))
  }

  /** Parentheses are balanced, with no white space right behind an opening one, and commas stand
    inside them. */
  predicate GoodRaw(v: bytes) {
    (forall k: nat :: k <= |v| ==> FitsRaw(v, k)) && Parens(v, |v|) == 0
  }

  lemma NoSpaceAt(t: bytes, i: nat)
    requires i < |t| && !IsSpace(t[i])
    ensures SkipSpace(t, i) == i
  {
  }

  /** One character inside parentheses, or the last one. */
  lemma ParenStep(t: bytes, i: nat, v: bytes, k: nat)
    requires GoodRaw(v) && StandsAt(t, i, v) && k < |v| && Parens(v, k) > 0
    ensures var r := ScanParens(t, i + k + 1, v[k], Parens(v, k) - 1);
      if Parens(v, k + 1) == 0 then v[k] == RP && r == RawScan([RP], i + k + 1, true)
      else k + 1 < |v| && r == Prefixed([v[k]], ScanParens(t, i + k + 2, v[k + 1], Parens(v, k + 1) - 1))
  {
    assert FitsRaw(v, k) && FitsRaw(v, k + 1);
    if k + 1 < |v| {
      StandsByte(t, i, v, k + 1);
      if v[k] == LP {
        NoSpaceAt(t, i + k + 1);
      }
    }
  }

  lemma {:induction false} InParens(t: bytes, i: nat, v: bytes, k: nat) returns (m: nat)
    requires GoodRaw(v) && StandsAt(t, i, v) && k < |v| && Parens(v, k) > 0
    ensures k < m <= |v| && Parens(v, m) == 0
    ensures ScanParens(t, i + k + 1, v[k], Parens(v, k) - 1) == RawScan(v[k..m], i + m, true)
    decreases |v| - k
  {
    ParenStep(t, i, v, k);
    if Parens(v, k + 1) == 0 {
      m := k + 1;
      OneSlice(v, k, m);
    } else {
      assert FitsRaw(v, k + 1);
      m := InParens(t, i, v, k + 1);
      OneSlice(v, k, m);
    }
  }

  lemma OneSlice<T>(v: seq<T>, k: nat, m: nat)
    requires k < m <= |v|
    ensures v[k..m] == [v[k]] + v[k + 1..m] && (m == k + 1 ==> v[k..m] == [v[k]])
  {
  }

  /** The parenthesised text behind the parenthesis at `k`. */
  lemma Inside(t: bytes, i: nat, v: bytes, k: nat) returns (m: nat)
    requires GoodRaw(v) && StandsAt(t, i, v) && k < |v| && Parens(v, k) == 0 && v[k] == LP
    ensures k + 1 < m <= |v| && Parens(v, m) == 0
    ensures ParenText(t, i + k + 1, 0) == RawScan(v[k + 1..m], i + m, true)
  {
    assert FitsRaw(v, k) && Parens(v, k + 1) == 1;
    StandsByte(t, i, v, k + 1);
    NoSpaceAt(t, i + k + 1);
    m := InParens(t, i, v, k + 1);
  }

  lemma BareStep(t: bytes, i: nat, v: bytes, k: nat)
    requires GoodRaw(v) && StandsAt(t, i, v) && k < |v| && Parens(v, k) == 0 && v[k] != LP
    requires Peek(t, i + k + 1) != EOF
    ensures Parens(v, k + 1) == 0
    ensures ScanBare(t, i + k + 1, v[k]) == Prefixed([v[k]], ScanBare(t, i + k + 2, Peek(t, i + k + 1)))
  {
    assert FitsRaw(v, k) && FitsRaw(v, k + 1);
  }

  lemma BareParens(t: bytes, i: nat, p: RawScan)
    requires i < |t| && ParenText(t, i, 0) == p && p.more && Peek(t, p.next) != EOF
    ensures ScanBare(t, i, LP) == Prefixed([LP] + p.text, ScanBare(t, p.next + 1, Peek(t, p.next)))
  {
  }

  /** The character at `k`, or the end mark. */
  lemma NextByte(t: bytes, i: nat, v: bytes, k: nat, end: byte)
    requires GoodRaw(v) && StandsAt(t, i, v) && k <= |v| && i + |v| < |t| && t[i + |v|] == end && end != EOF
    ensures i + k < |t| && t[i + k] == (if k < |v| then v[k] else end) && Peek(t, i + k) != EOF
  {
    assert FitsRaw(v, k);
    if k < |v| {
      StandsByte(t, i, v, k);
    }
  }

  lemma Cut<T>(v: seq<T>, k: nat, m: nat)
    requires k < m <= |v|
    ensures v[k..] == [v[k]] + v[k + 1..m] + v[m..] && (m == k + 1 ==> v[k..] == [v[k]] + v[m..])
  {
  }

  lemma BareGroup(t: bytes, i: nat, v: bytes, k: nat, m: nat, next: nat, more: bool)
    requires k < m <= |v| && v[k] == LP && i + m < |t| && Peek(t, i + m) != EOF
    requires ParenText(t, i + k + 1, 0) == RawScan(v[k + 1..m], i + m, true)
    requires ScanBare(t, i + m + 1, t[i + m]) == RawScan(v[m..], next, more)
    ensures ScanBare(t, i + k + 1, LP) == RawScan(v[k..], next, more)
  {
    BareParens(t, i + k + 1, RawScan(v[k + 1..m], i + m, true));
    Cut(v, k, m);
  }

  lemma BareChar(t: bytes, i: nat, v: bytes, k: nat, next: nat, more: bool)
    requires k < |v| && i + k + 1 < |t|
    requires ScanBare(t, i + k + 1, v[k]) == Prefixed([v[k]], ScanBare(t, i + k + 2, t[i + k + 1]))
    requires ScanBare(t, i + k + 2, t[i + k + 1]) == RawScan(v[k + 1..], next, more)
    ensures ScanBare(t, i + k + 1, v[k]) == RawScan(v[k..], next, more)
  {
    Cut(v, k, k + 1);
  }

  lemma {:induction false} ReadBare(t: bytes, i: nat, v: bytes, k: nat, e: nat, end: byte)
    requires GoodRaw(v) && StandsAt(t, i, v) && k <= |v| && Parens(v, k) == 0
    requires e == i + |v| < |t| && t[e] == end && (end == COMMA || end == RP)
    ensures ScanBare(t, i + k + 1, t[i + k]) == RawScan(v[k..], e + 1, end == COMMA)
    decreases |v| - k
  {
    NextByte(t, i, v, k, end);
    if k == |v| {
      assert v[k..] == [];
    } else if v[k] == LP {
      var m := Inside(t, i, v, k);
      NextByte(t, i, v, m, end);
      ReadBare(t, i, v, m, e, end);
      BareGroup(t, i, v, k, m, e + 1, end == COMMA);
    } else {
      NextByte(t, i, v, k + 1, end);
      BareStep(t, i, v, k);
      ReadBare(t, i, v, k + 1, e, end);
      BareChar(t, i, v, k, e + 1, end == COMMA);
    }
  }

  /** A raw argument of such text, in front of its end mark: the text itself, but for the white
    space at its end. With a quote mark in front it is raw whatever the quote map says. */
  lemma ReadRaw(side: Side, env: Env, t: bytes, i: nat, before: bytes, quot: bool, v: bytes, e: nat, end: byte)
    requires GoodRaw(v) && (v != [] ==> v[0] != DQ && v[0] != LC && (!quot ==> v[0] != SQ && !IsSpace(v[0])))
    requires forall k :: 0 <= k < |before| ==> IsSpace(before[k])
    requires StandsAt(t, i, before + (if quot then [SQ] else []) + v) && (end == COMMA || end == RP)
    requires e == i + |before| + (if quot then 1 else 0) + |v| < |t| && t[e] == end
    ensures NextArg(side, env, t, i, if quot then ZERO else ONE) == ScanOne(Raw(RTrim(v), quot), e + 1, end == COMMA)
  {
    var j := i + |before|;
    var b := if quot then j + 1 else j;
    RawParts(t, i, before, quot, v);
    NextByte(t, b, v, 0, end);
    SpacesSkipped(t, i, before);
    RawNext(side, env, t, i, j, quot, b, v, e, end);
  }

  lemma RawNext(side: Side, env: Env, t: bytes, i: nat, j: nat, quot: bool, b: nat, v: bytes, e: nat, end: byte)
    requires i <= j < |t| && SkipSpace(t, i) == j && quot == (t[j] == SQ) && b == if quot then j + 1 else j
    requires GoodRaw(v) && StandsAt(t, b, v) && e == b + |v| < |t| && t[e] == end && (end == COMMA || end == RP)
    requires v != [] ==> v[0] != DQ && v[0] != LC
    ensures NextArg(side, env, t, i, if quot then ZERO else ONE) == ScanOne(Raw(RTrim(v), quot), e + 1, end == COMMA)
  {
    NextByte(t, b, v, 0, end);
    NextIsRaw(side, env, t, i, j, quot);
    RawText(t, b, v, e, end);
  }

  lemma RawParts(t: bytes, i: nat, before: bytes, quot: bool, v: bytes)
    requires StandsAt(t, i, before + (if quot then [SQ] else []) + v)
    ensures var j := i + |before|;
      && StandsAt(t, i, before) && StandsAt(t, if quot then j + 1 else j, v)
      && (quot ==> j < |t| && t[j] == SQ)
  {
    var mark := if quot then [SQ] else [];
    StandsParts(t, i, before + mark, v);
    StandsParts(t, i, before, mark);
    if quot {
      StandsByte(t, i + |before|, mark, 0);
    }
  }

  lemma NextIsRaw(side: Side, env: Env, t: bytes, i: nat, j: nat, quot: bool)
    requires i <= j < |t| && SkipSpace(t, i) == j && quot == (t[j] == SQ)
    requires var b := if quot then j + 1 else j; b < |t| && t[b] != EOF
    ensures var b := if quot then j + 1 else j;
      var r := ScanRaw(t, b + 1, t[b]);
      NextArg(side, env, t, i, if quot then ZERO else ONE) == ScanOne(Raw(r.text, quot), r.next, r.more)
  {
  }

  lemma RawText(t: bytes, j: nat, v: bytes, e: nat, end: byte)
    requires GoodRaw(v) && StandsAt(t, j, v) && e == j + |v| < |t| && t[e] == end && (end == COMMA || end == RP)
    requires v != [] ==> v[0] != DQ && v[0] != LC
    ensures ScanRaw(t, j + 1, t[j]) == RawScan(RTrim(v), e + 1, end == COMMA)
  {
    NextByte(t, j, v, 0, end);
    ReadBare(t, j, v, 0, e, end);
    assert v[0..] == v;
  }

  // ---------------------------------------------------------------- quoted runs

  /** Inside a raw argument's quotes: characters as they are, and ones behind a backslash. */
  predicate GoodRun(w: seq<Piece>, close: byte) {
    forall k :: 0 <= k < |w| ==>
      || (w[k].Plain? && w[k].c != ESC && w[k].c != EOF && w[k].c != PCT && w[k].c != close)
      || (w[k].Escaped? && w[k].c != EOF)
  }

  function Values(w: seq<Piece>, k: nat): bytes
    requires k <= |w| && forall j :: 0 <= j < |w| ==> w[j].Plain? || w[j].Escaped?
    decreases |w| - k
  {
    if k == |w| then [] else [w[k].c] + Values(w, k + 1)
  }

  lemma {:induction false} ReadRun(t: bytes, i: nat, w: seq<Piece>, k: nat, e: nat, close: byte)
    requires GoodRun(w, close) && k <= |w| && StandsAt(t, i, SourceFrom(w, k)) && (close == DQ || close == RC)
    requires e == i + |SourceFrom(w, k)| < |t| && t[e] == close
    ensures ScanQuoted(t, i, close, false) == RawScan(Values(w, k), e + 1, true)
    decreases |w| - k
  {
    if k < |w| {
      var x := Source(w[k]);
      StandsParts(t, i, x, SourceFrom(w, k + 1));
      StandsByte(t, i, x, 0);
      if w[k].Escaped? {
        StandsByte(t, i, x, 1);
      }
      ReadRun(t, i + |x|, w, k + 1, e, close);
    }
  }
}
