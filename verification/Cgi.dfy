/** Form state: URL encoding and decoding, parsing of form strings in place, and printing of
  client state. */
module Cgi {
  import opened Bytes

  const EQUALS: byte := 61
  const AMP: byte := 38
  const QUERY: byte := 63
  const PLUS: byte := 43
  const PERCENT: byte := 37
  const SPACE: byte := 32

  lemma Characters()
    ensures EQUALS == Ascii('=') && AMP == Ascii('&') && QUERY == Ascii('?')
    ensures PLUS == Ascii('+') && PERCENT == Ascii('%') && SPACE == Ascii(' ')
  {
  }

  // ---------------------------------------------------------------- hexadecimal digits

  /** `u2hex`. */
  function HexDigit(n: nat): byte
    requires n < 16
  {
    if n < 10 then 48 + n else 65 + n - 10
  }

  /** `hex2int`. */
  function HexValue(c: byte): int {
    if c <= 57 then c as int - 48 else if c < 90 then c as int - 65 + 10 else c as int - 97 + 10
  }

  lemma HexBack(n: nat)
    requires n < 16
    ensures IsXDigit(HexDigit(n)) && HexValue(HexDigit(n)) == n
  {
  }

  /** The byte two hexadecimal digits stand for. */
  function HexByte(a: byte, b: byte): byte
    requires IsXDigit(a) && IsXDigit(b)
  {
    HexValue(a) * 16 + HexValue(b)
  }

  /** A percent sign at `i` that starts an escape. */
  predicate IsEscape(s: bytes, i: nat) {
    At(s, i) == PERCENT && IsXDigit(At(s, i + 1)) && IsXDigit(At(s, i + 2))
  }

  // ---------------------------------------------------------------- encoding

  predicate MustEscape(c: byte) {
    c == 47 || c == 92 || c == PLUS || c == 44 || c == 96 || c <= 41 || c >= 123 || 58 <= c <= 64
  }

  function EncodedByte(c: byte): bytes {
    if c == SPACE then [PLUS]
    else if MustEscape(c) then [PERCENT, HexDigit(c / 16), HexDigit(c % 16)]
    else [c]
  }

  function Encoded(s: bytes): (r: bytes)
    ensures |r| <= 3 * |s|
  {
    if s == [] then [] else EncodedByte(s[0]) + Encoded(s[1..])
  }

  /** The switch of `UrlEncode`. */
  method EncodeOne(buf: bytes, c: byte) returns (buf': bytes)
    ensures buf' == buf + EncodedByte(c)
  {
    if c == SPACE {
      buf' := buf + [PLUS];
    } else if c == 47 || c == 92 || c == PLUS || c == 44 || c == 96 {
      buf' := buf + [PERCENT];
      buf' := buf' + [HexDigit(c / 16)];
      buf' := buf' + [HexDigit(c % 16)];
    } else if c <= 41 || c >= 123 || 58 <= c <= 64 {
      buf' := buf + [PERCENT];
      buf' := buf' + [HexDigit(c / 16)];
      buf' := buf' + [HexDigit(c % 16)];
    } else {
      buf' := buf + [c];
    }
  }

  /** `UrlEncode`. */
  method UrlEncode(url: bytes) returns (buf: bytes)
    ensures buf == Encoded(BeforeNul(url)) && |buf| <= 3 * |url|
  {
    buf := [];
    var u := 0;
    ghost var all, rest := BeforeNul(url), BeforeNul(url);
    while At(url, u) != 0
      invariant 0 <= u <= |url| && rest == BeforeNul(url[u..])
      invariant buf + Encoded(rest) == Encoded(all)
      invariant rest == [] ==> buf == Encoded(all)
      decreases |url| - u
    {
      EncodeStep(buf, url[u..]);
      assert url[u..][1..] == url[u + 1..];
      buf := EncodeOne(buf, url[u]);
      rest := BeforeNul(url[u + 1..]);
      u := u + 1;
    }
    assert rest == [];
  }

  lemma EncodeStep(buf: bytes, t: bytes)
    requires t != [] && t[0] != 0
    ensures buf + Encoded(BeforeNul(t)) == (buf + EncodedByte(t[0])) + Encoded(BeforeNul(t[1..]))
  {
    assert BeforeNul(t)[1..] == BeforeNul(t[1..]);
    assert Encoded(BeforeNul(t)) == EncodedByte(t[0]) + Encoded(BeforeNul(t[1..]));
  }

  // ---------------------------------------------------------------- decoding

  /** What decoding reads at `i`: a byte, and how many characters it took. */
  function DecodedAt(s: bytes, i: nat): (r: (byte, nat))
    requires i < |s| && NulFree(s)
    ensures 1 <= r.1 <= |s| - i
  {
    if IsEscape(s, i) then (HexByte(s[i + 1], s[i + 2]), 3)
    else if s[i] == PLUS then (SPACE, 1)
    else (s[i], 1)
  }

  function DecodedFrom(s: bytes, i: nat): (r: bytes)
    requires i <= |s| && NulFree(s)
    ensures |r| <= |s| - i
    decreases |s| - i
  {
    if i == |s| then []
    else var d := DecodedAt(s, i); [d.0] + DecodedFrom(s, i + d.1)
  }

  function Decoded(s: bytes): bytes
    requires NulFree(s)
  {
    DecodedFrom(s, 0)
  }

  /** The C string in a buffer from `n` on. */
  function CString(b: seq<byte>, n: nat): (r: bytes)
    requires n <= |b|
    ensures NulFree(r) && n + |r| <= |b| && b[n..n + |r|] == r && (n + |r| < |b| ==> b[n + |r|] == 0)
    decreases |b| - n
  {
    if n == |b| || b[n] == 0 then [] else [b[n]] + CString(b, n + 1)
  }

  /** `UrlDecode`: decode a NUL-terminated string of `n` bytes in its own buffer. Writing never
    overtakes reading. */
  method UrlDecode(str: array<byte>, n: nat) returns (m: nat)
    requires n < str.Length && NulFree(str[..n]) && str[n] == 0
    modifies str
    ensures m <= n && str[..m] == Decoded(old(str[..n]))
  {
    ghost var s := str[..n];
    var p, v2 := 0, 0;
    DecodingStart(str[..], s);
    while str[p] != 0
      invariant Decoding(str[..], s, p, v2)
      decreases n - p
    {
      ghost var b, q := str[..], p;
      var c;
      c, p := ReadOne(str, n, p, s);
      DecodingStep(b, s, q, v2, c, p);
      str[v2] := c;
      assert str[..] == b[v2 := c];
      v2 := v2 + 1;
    }
    m := v2;
    DecodingAt(str[..], s, p, v2);
  }

  /** The buffer holds what is decoded so far, and the rest of the string. */
  ghost predicate Decoding(b: bytes, s: bytes, p: nat, v2: nat) {
    && v2 <= p <= |s| < |b| && NulFree(s) && b[p..|s|] == s[p..] && b[|s|] == 0
    && b[..v2] + DecodedFrom(s, p) == Decoded(s)
  }

  lemma DecodingStart(b: bytes, s: bytes)
    requires |s| < |b| && NulFree(s) && b[..|s|] == s && b[|s|] == 0
    ensures Decoding(b, s, 0, 0)
  {
    assert b[0..|s|] == s[0..] && b[..0] + Decoded(s) == Decoded(s);
  }

  /** The string ends where the buffer has a NUL. */
  lemma DecodingAt(b: bytes, s: bytes, p: nat, v2: nat)
    requires Decoding(b, s, p, v2)
    ensures b[p] == 0 <==> p == |s|
  {
    if p < |s| {
      assert b[p] == b[p..|s|][0];
    }
  }

  lemma DecodingStep(b: bytes, s: bytes, p: nat, v2: nat, c: byte, q: nat)
    requires Decoding(b, s, p, v2) && p < |s| && p < q && DecodedAt(s, p) == (c, q - p)
    ensures Decoding(b[v2 := c], s, q, v2 + 1)
  {
    var b', rest := b[v2 := c], DecodedFrom(s, q);
    assert b'[q..|s|] == b[p..|s|][q - p..] == s[q..];
    assert b'[..v2 + 1] == b[..v2] + [c];
    assert DecodedFrom(s, p) == [c] + rest;
    assert b[..v2] + ([c] + rest) == (b[..v2] + [c]) + rest;
  }

  /** Read one byte of an encoded string, taking an escape whole. */
  method ReadOne(str: array<byte>, ghost n: nat, p: nat, ghost s: bytes) returns (c: byte, p': nat)
    requires n < str.Length && n == |s| && NulFree(s) && str[n] == 0
    requires p <= n && str[p..n] == s[p..] && str[p] != 0
    ensures p < n && p < p' <= n && (c, p' - p) == DecodedAt(s, p)
  {
    assert p < n;
    assert forall k :: p <= k < n ==> str[k] == str[p..n][k - p] == s[k];
    if str[p] == PERCENT && IsXDigit(str[p + 1]) && IsXDigit(str[p + 2]) {
      c := HexValue(str[p + 1]) * 16 + HexValue(str[p + 2]);
      p' := p + 3;
    } else if str[p] == PLUS {
      c := SPACE;
      p' := p + 1;
    } else {
      c := str[p];
      p' := p + 1;
    }
  }

  /** Decoding undoes encoding, wherever the encoded string stands. */
  lemma {:induction false} DecodeEncoded(t: bytes, i: nat, end: nat, s: bytes)
    requires NulFree(s) && NulFree(t)
    requires i <= end <= |t| && t[i..end] == Encoded(s)
    ensures DecodedFrom(t, i) == s + DecodedFrom(t, end)
    decreases |s|
  {
    if s != [] {
      var q := i + |EncodedByte(s[0])|;
      EncodedParts(t, i, end, s);
      DecodeFirst(t, i, q, s[0]);
      DecodeEncoded(t, q, end, s[1..]);
      FirstThenRest(s, DecodedFrom(t, end));
    } else {
      assert i == end;
    }
  }

  lemma DecodeFirst(t: bytes, i: nat, q: nat, c: byte)
    requires c != 0 && NulFree(t) && i <= q <= |t| && q == i + |EncodedByte(c)| && t[i..q] == EncodedByte(c)
    ensures DecodedFrom(t, i) == [c] + DecodedFrom(t, q)
  {
    DecodeByte(t, i, c);
  }

  /** The encoding of the first byte stands in front of that of the others. */
  lemma EncodedParts(t: bytes, p: nat, m: nat, v: bytes)
    requires p <= m <= |t| && t[p..m] == Encoded(v) && v != []
    ensures var q := p + |EncodedByte(v[0])|;
      q <= m && t[p..q] == EncodedByte(v[0]) && t[q..m] == Encoded(v[1..])
  {
    Halves(t, p, m, EncodedByte(v[0]), Encoded(v[1..]));
  }

  lemma Halves(t: bytes, p: nat, m: nat, a: bytes, b: bytes)
    requires p <= m <= |t| && t[p..m] == a + b
    ensures p + |a| <= m && t[p..p + |a|] == a && t[p + |a|..m] == b
  {
    assert |t[p..m]| == |a| + |b|;
    assert t[p..p + |a|] == t[p..m][..|a|];
    assert t[p + |a|..m] == t[p..m][|a|..];
  }

  lemma FirstThenRest(s: bytes, d: bytes)
    requires s != []
    ensures [s[0]] + (s[1..] + d) == s + d
  {
    assert s == [s[0]] + s[1..];
  }

  lemma DecodeByte(t: bytes, i: nat, c: byte)
    requires c != 0 && NulFree(t)
    requires i + |EncodedByte(c)| <= |t| && t[i..i + |EncodedByte(c)|] == EncodedByte(c)
    ensures DecodedAt(t, i) == (c, |EncodedByte(c)|)
  {
    var e := EncodedByte(c);
    EncodedByteBack(c);
    assert forall k :: 0 <= k < |e| ==> t[i + k] == e[k];
  }

  lemma {:induction false} EncodedNulFree(s: bytes)
    requires NulFree(s)
    ensures NulFree(Encoded(s))
  {
    if s != [] {
      EncodedByteBack(s[0]);
      EncodedNulFree(s[1..]);
    }
  }

  lemma EncodedByteBack(c: byte)
    requires c != 0
    ensures NulFree(EncodedByte(c))
    ensures var e := EncodedByte(c);
      if |e| == 1 then (if c == SPACE then e[0] == PLUS else e[0] == c && c != PLUS && c != PERCENT)
      else |e| == 3 && e[0] == PERCENT && IsXDigit(e[1]) && IsXDigit(e[2]) && HexByte(e[1], e[2]) == c
  {
    HexBack(c / 16);
    HexBack(c % 16);
  }

  /** `UrlDecode` undoes `UrlEncode` on every string without NUL. */
  lemma UrlRoundTrip(s: bytes)
    requires NulFree(s)
    ensures NulFree(Encoded(s)) && Decoded(Encoded(s)) == s
  {
    EncodedNulFree(s);
    var t := Encoded(s);
    assert t[0..|t|] == t;
    DecodeEncoded(t, 0, |t|, s);
    assert s + [] == s;
  }

  /** The hexadecimal digits, in capitals or not. */
  const CAPITALS := "0123456789ABCDEF"
  const SMALL := "0123456789abcdef"

  lemma HexDigits(n: nat)
    requires n < 16
    ensures HexDigit(n) == Ascii(CAPITALS[n])
    ensures IsXDigit(Ascii(CAPITALS[n])) && HexValue(Ascii(CAPITALS[n])) == n
    ensures IsXDigit(Ascii(SMALL[n])) && HexValue(Ascii(SMALL[n])) == n
  {
    assert n == 0 || n == 1 || n == 2 || n == 3 || n == 4 || n == 5 || n == 6 || n == 7
        || n == 8 || n == 9 || n == 10 || n == 11 || n == 12 || n == 13 || n == 14 || n == 15;
  }

  predicate HexSpells(n: nat, d: byte)
    requires n < 16
  {
    d == Ascii(CAPITALS[n]) || d == Ascii(SMALL[n])
  }

  /** The ways to write a byte in an encoded string: as it is, as a plus sign for a space, or as a
    percent sign and its hexadecimal digits. */
  predicate Spells(c: byte, e: bytes) {
    || (e == [c] && c != 0 && c != PLUS && c != PERCENT)
    || (e == [PLUS] && c == SPACE)
    || (|e| == 3 && e[0] == PERCENT && HexSpells(c / 16, e[1]) && HexSpells(c % 16, e[2]))
  }

  function Joined(es: seq<bytes>): bytes {
    if es == [] then [] else es[0] + Joined(es[1..])
  }

  lemma SpelledAt(t: bytes, i: nat, c: byte, e: bytes)
    requires NulFree(t) && i + |e| <= |t| && t[i..i + |e|] == e && Spells(c, e)
    ensures DecodedAt(t, i) == (c, |e|)
  {
    HexDigits(c / 16);
    HexDigits(c % 16);
    assert forall k :: 0 <= k < |e| ==> t[i + k] == e[k];
  }

  lemma SpelledNulFree(c: byte, e: bytes)
    requires Spells(c, e)
    ensures NulFree(e)
  {
    HexDigits(c / 16);
    HexDigits(c % 16);
  }

  lemma {:induction false} JoinedNulFree(s: bytes, es: seq<bytes>)
    requires |es| == |s| && forall k :: 0 <= k < |s| ==> Spells(s[k], es[k])
    ensures NulFree(Joined(es))
  {
    if s != [] {
      SpelledNulFree(s[0], es[0]);
      JoinedNulFree(s[1..], es[1..]);
    }
  }

  lemma {:induction false} DecodeJoined(t: bytes, i: nat, s: bytes, es: seq<bytes>)
    requires NulFree(t) && i <= |t| && t[i..|t|] == Joined(es)
    requires |es| == |s| && forall k :: 0 <= k < |s| ==> Spells(s[k], es[k])
    ensures DecodedFrom(t, i) == s
    decreases |s|
  {
    if s != [] {
      var q := i + |es[0]|;
      Halves(t, i, |t|, es[0], Joined(es[1..]));
      SpelledAt(t, i, s[0], es[0]);
      DecodeJoined(t, q, s[1..], es[1..]);
      FirstThenRest(s, []);
      assert s[1..] + [] == s[1..] && s + [] == s;
    }
  }

  lemma WholeSlice<T>(t: seq<T>)
    ensures t[0..|t|] == t
  {
  }

  /** Decoding gives a string back from every way of writing its bytes. */
  lemma DecodeAnySpelling(s: bytes, es: seq<bytes>)
    requires |es| == |s| && forall k :: 0 <= k < |s| ==> Spells(s[k], es[k])
    ensures NulFree(Joined(es)) && Decoded(Joined(es)) == s
  {
    JoinedNulFree(s, es);
    WholeSlice(Joined(es));
    DecodeJoined(Joined(es), 0, s, es);
  }

  /** The characters that encoding leaves as they are, besides letters and digits. */
  const LEFT_ALONE := "*-.[]^_"

  predicate IsSafe(c: byte) {
    IsAlnum(c) || exists k :: 0 <= k < |LEFT_ALONE| && c == Ascii(LEFT_ALONE[k])
  }

  /** Encoding writes exactly these as they are, a space as a plus sign, and the rest as escapes. */
  lemma EncodedByteIs(c: byte)
    ensures EncodedByte(c)
         == if c == SPACE then [PLUS] else if IsSafe(c) then [c]
            else [PERCENT, Ascii(CAPITALS[c / 16]), Ascii(CAPITALS[c % 16])]
  {
    HexDigits(c / 16);
    HexDigits(c % 16);
    SafeIs(c);
  }

  lemma SafeIs(c: byte)
    ensures IsSafe(c) <==> IsAlnum(c) || c == 42 || c == 45 || c == 46 || c == 91 || c == 93 || c == 94 || c == 95
  {
    assert Ascii(LEFT_ALONE[0]) == 42 && Ascii(LEFT_ALONE[1]) == 45 && Ascii(LEFT_ALONE[2]) == 46;
    assert Ascii(LEFT_ALONE[3]) == 91 && Ascii(LEFT_ALONE[4]) == 93;
    assert Ascii(LEFT_ALONE[5]) == 94 && Ascii(LEFT_ALONE[6]) == 95;
  }

  // ---------------------------------------------------------------- value lists

  /** `CStrLst`: a linked list whose head knows its last cell. */
  class Cell {
    const data: bytes
    var next: Cell?
    var last: Cell

    /** Of a head: the cells from it on, and their values in order. */
    ghost var cells: seq<Cell>
    ghost var values: seq<bytes>
    ghost var repr: set<Cell>

    constructor (data: bytes)
      ensures Valid() && values == [data] && fresh(repr)
      ensures this.data == data && next == null
    {
      this.data := data;
      next := null;
      last := this;
      cells := [this];
      values := [data];
      repr := {this};
    }

    ghost predicate Valid()
      reads this, repr
    {
      && this in repr && last in repr && |values| == |cells|
      && cells != [] && cells[0] == this && last == cells[|cells| - 1]
      && (forall i :: 0 <= i < |cells| ==> InList(i))
      && (forall i, j :: 0 <= i < j < |cells| ==> cells[i] != cells[j])
    }

    /** The cell at place `i` holds the value there and knows the next one. */
    ghost predicate InList(i: nat)
      requires i < |cells| == |values|
      reads this, repr
    {
      var c := cells[i];
      c in repr && c.data == values[i] && c.next == if i + 1 < |cells| then cells[i + 1] else null
    }

    /** `Link`: a new cell behind the last one. */
    method Link(val: bytes) returns (list: Cell)
      requires Valid()
      modifies repr
      ensures list == this && Valid() && values == old(values) + [val] && fresh(repr - old(repr))
    {
      var t := new Cell(val);
      ghost var n := |cells|;
      assert InList(n - 1);
      last.next := t;
      last := t;
      cells := cells + [t];
      values := values + [val];
      repr := repr + {t};
      forall i | 0 <= i <= n ensures InList(i) {
        if i < n {
          assert old(InList(i)) && cells[i] == old(cells)[i];
        }
      }
      return this;
    }
  }
}
