/** Base64 encoding (section 4 of RFC 4648), the decoder, and encoding with line breaks. */
module Base64 {
  import opened Bytes

  const PAD: byte := 61
  const CR: byte := 13
  const LF: byte := 10
  const LINE := 48

  /** The encoding alphabet of table 1 of RFC 4648. */
  function Letter(n: nat): byte
    requires n < 64
  {
    if n < 26 then 65 + n
    else if n < 52 then 97 + n - 26
    else if n < 62 then 48 + n - 52
    else if n == 62 then 43
    else 47
  }

  /** What the decoder's map gives for a character: its place in the alphabet, or zero. */
  function Place(c: byte): (n: nat)
    ensures n < 64
  {
    if 65 <= c <= 90 then c - 65
    else if 97 <= c <= 122 then c - 97 + 26
    else if 48 <= c <= 57 then c - 48 + 52
    else if c == 43 then 62
    else if c == 47 then 63
    else 0
  }

  /** The letters of table 1 of RFC 4648 in their order, sixteen at a time. */
  const TABLE := ["ABCDEFGHIJKLMNOP", "QRSTUVWXYZabcdef", "ghijklmnopqrstuv", "wxyz0123456789+/"]

  /** The alphabet, the padding and the line ends are the characters they should be. */
  lemma AlphabetIs(n: nat)
    requires n < 64
    ensures Letter(n) as int == TABLE[n / 16][n % 16] as int
    ensures PAD == Ascii('=') && CR == Ascii('\r') && LF == Ascii('\n')
  {
    ColumnIs(n / 16, n % 16);
  }

  lemma ColumnIs(i: nat, j: nat)
    requires i < 4 && j < 16
    ensures Letter(16 * i + j) as int == TABLE[i][j] as int
  {
    assert j == 0 || j == 1 || j == 2 || j == 3 || j == 4 || j == 5 || j == 6 || j == 7
        || j == 8 || j == 9 || j == 10 || j == 11 || j == 12 || j == 13 || j == 14 || j == 15;
  }

  // ---------------------------------------------------------------- the standard

  /** The 24-bit group of three bytes, most significant first. */
  function Group(a: byte, b: byte, c: byte): (g: nat)
    ensures g < 0x100_0000
  {
    (a as nat) * 0x1_0000 + (b as nat) * 0x100 + c as nat
  }

  /** The `i`th of the four sextets of a group. */
  function Sextet(g: nat, i: nat): (n: nat)
    requires g < 0x100_0000 && i < 4
    ensures n < 64
  {
    if i == 0 then g / 0x4_0000 else if i == 1 then (g / 0x1000) % 64 else if i == 2 then (g / 64) % 64 else g % 64
  }

  /** The four letters of three bytes. */
  function FourLetters(a: byte, b: byte, c: byte): bytes {
    var g := Group(a, b, c);
    [Letter(Sextet(g, 0)), Letter(Sextet(g, 1)), Letter(Sextet(g, 2)), Letter(Sextet(g, 3))]
  }

  /** One group of one to three bytes: a short one is filled with zero bits and padded. */
  function GroupText(g: bytes): bytes {
    if |g| == 1 then FourLetters(g[0], 0, 0)[..2] + [PAD, PAD]
    else if |g| == 2 then FourLetters(g[0], g[1], 0)[..3] + [PAD]
    else if |g| == 3 then FourLetters(g[0], g[1], g[2])
    else []
  }

  /** The texts of a string's groups of three bytes, one after the other. */
  function Grouped(s: bytes, text: bytes -> bytes): bytes
    decreases |s|
  {
    if s == [] then [] else if |s| <= 3 then text(s) else text(s[..3]) + Grouped(s[3..], text)
  }

  /** The encoding of section 4 of RFC 4648. */
  function Standard(s: bytes): bytes {
    Grouped(s, GroupText)
  }

  lemma {:induction false} GroupedLength(s: bytes, text: bytes -> bytes)
    requires forall g :: 1 <= |g| <= 3 ==> |text(g)| == 4
    ensures |Grouped(s, text)| == EncodedLength(|s|)
    decreases |s|
  {
    if |s| > 3 {
      var rest := s[3..];
      GroupedLength(rest, text);
      LengthStep(|s|, |rest|);
      assert |text(s[..3])| == 4;
    } else {
      SmallLengths();
      assert |s| == 0 || |s| == 1 || |s| == 2 || |s| == 3;
    }
  }

  lemma SmallLengths()
    ensures EncodedLength(0) == 0 && EncodedLength(1) == 4 && EncodedLength(2) == 4 && EncodedLength(3) == 4
  {
  }

  /** A whole number of groups is encoded apart from what follows. */
  lemma {:induction false} GroupedConcat(a: bytes, b: bytes, k: nat, text: bytes -> bytes)
    requires |a| == 3 * k
    ensures Grouped(a + b, text) == Grouped(a, text) + Grouped(b, text)
    decreases k
  {
    if k == 0 {
      assert a + b == b;
      assert [] + Grouped(b, text) == Grouped(b, text);
    } else {
      var g, rest := a[..3], a[3..];
      assert |rest| == 3 * (k - 1);
      GroupedConcat(rest, b, k - 1, text);
      GroupedHead(a, text);
      GroupedHead(a + b, text);
      assert (a + b)[..3] == g && (a + b)[3..] == rest + b;
    }
  }

  lemma GroupedHead(s: bytes, text: bytes -> bytes)
    requires |s| >= 3
    ensures Grouped(s, text) == text(s[..3]) + Grouped(s[3..], text)
  {
    if |s| == 3 {
      assert s[..3] == s && s[3..] == [];
      assert text(s) + [] == text(s);
    }
  }

  /** The length of the encoding. */
  function EncodedLength(n: nat): nat {
    4 * ((n - n % 3) / 3 + if n % 3 != 0 then 1 else 0)
  }

  lemma StandardLength(s: bytes)
    ensures |Standard(s)| == EncodedLength(|s|)
  {
    assert forall g :: 1 <= |g| <= 3 ==> |GroupText(g)| == 4;
    GroupedLength(s, GroupText);
  }

  lemma LengthStep(n: nat, m: nat)
    requires n == m + 3
    ensures EncodedLength(n) == 4 + EncodedLength(m)
  {
    var q, r := m / 3, m % 3;
    assert m == 3 * q + r && n == 3 * (q + 1) + r;
    assert n % 3 == r;
  }

  // ---------------------------------------------------------------- the encoder

  /** The shifts and masks of the encoder cut out the sextets of the group. */
  lemma SextetShifts(a: byte, b: byte, c: byte)
    ensures var g := Group(a, b, c);
      && Sextet(g, 0) == a / 4 && Sextet(g, 1) == (a % 4) * 16 + b / 16
      && Sextet(g, 2) == (b % 16) * 4 + c / 64 && Sextet(g, 3) == c % 64
  {
    var g := Group(a, b, c);
    var a1, a0, b1, b0, c1, c0 := a / 4, a % 4, b / 16, b % 16, c / 64, c % 64;
    assert a == 4 * a1 + a0 && b == 16 * b1 + b0 && c == 64 * c1 + c0;
    var s0, s1, s2: nat := a1, a0 * 16 + b1, b0 * 4 + c1;
    assert g == ((s0 * 64 + s1) * 64 + s2) * 64 + c0;
    FourSextets(g, s0, s1, s2, c0);
  }

  lemma FourSextets(g: nat, s0: nat, s1: nat, s2: nat, s3: nat)
    requires s0 < 64 && s1 < 64 && s2 < 64 && s3 < 64
    requires g == ((s0 * 64 + s1) * 64 + s2) * 64 + s3
    ensures g < 0x100_0000
    ensures Sextet(g, 0) == s0 && Sextet(g, 1) == s1 && Sextet(g, 2) == s2 && Sextet(g, 3) == s3
  {
    var x := s0 * 64 + s1;
    var y := x * 64 + s2;
    assert g == y * 64 + s3 && g == x * 0x1000 + (s2 * 64 + s3) && g == s0 * 0x4_0000 + (s1 * 0x1000 + s2 * 64 + s3);
    assert g / 64 == y && g / 0x1000 == x && g / 0x4_0000 == s0;
  }

  /** What the encoder writes for a group. */
  lemma LettersOf(g: bytes)
    ensures |g| == 1 ==> GroupText(g) == [Letter(g[0] / 4), Letter((g[0] % 4) * 16), PAD, PAD]
    ensures |g| == 2 ==>
      GroupText(g) == [Letter(g[0] / 4), Letter((g[0] % 4) * 16 + g[1] / 16), Letter((g[1] % 16) * 4), PAD]
    ensures |g| == 3 ==>
      GroupText(g)
      == [Letter(g[0] / 4), Letter((g[0] % 4) * 16 + g[1] / 16), Letter((g[1] % 16) * 4 + g[2] / 64), Letter(g[2] % 64)]
  {
    if |g| > 0 {
      SextetShifts(g[0], if |g| > 1 then g[1] else 0, if |g| > 2 then g[2] else 0);
    }
  }

  /** The letters of the group at `pi`, the bits left over from each byte carried in `c2`. */
  method EncodeGroup(str: bytes, pi: nat) returns (four: bytes, pi': nat)
    requires pi < |str|
    ensures pi' == (if pi + 3 <= |str| then pi + 3 else |str|) && four == GroupText(str[pi..pi'])
  {
    ghost var g := str[pi..if pi + 3 <= |str| then pi + 3 else |str|];
    LettersOf(g);
    var c1: nat := str[pi] / 4;
    var c2: nat := (str[pi] % 4) * 16;
    four := [Letter(c1)];
    pi' := pi + 1;
    if pi' >= |str| {
      four := four + [Letter(c2)];
      four := four + [PAD, PAD];
      return;
    }
    c1 := c2 + str[pi'] / 16;
    c2 := (str[pi'] % 16) * 4;
    four := four + [Letter(c1)];
    pi' := pi' + 1;
    if pi' >= |str| {
      four := four + [Letter(c2)];
      four := four + [PAD];
      return;
    }
    four := four + [Letter(c2 + str[pi'] / 64)];
    four := four + [Letter(str[pi'] % 64)];
    pi' := pi' + 1;
  }

  /** `base64`: the groups one after the other. */
  method Encode(str: bytes) returns (buf: bytes)
    ensures buf == Standard(str)
  {
    buf := [];
    var pi := 0;
    assert str[0..] == str;
    while pi < |str|
      invariant 0 <= pi <= |str| && buf + Grouped(str[pi..], GroupText) == Standard(str)
      decreases |str| - pi
    {
      GroupNextText(buf, str, pi, GroupText);
      var four;
      four, pi := EncodeGroup(str, pi);
      buf := buf + four;
    }
    assert str[pi..] == [];
  }

  lemma GroupNextText(out: bytes, s: bytes, i: nat, text: bytes -> bytes)
    requires i < |s|
    ensures var j := if i + 3 <= |s| then i + 3 else |s|;
      out + Grouped(s[i..], text) == (out + text(s[i..j])) + Grouped(s[j..], text)
  {
    var rest := s[i..];
    if |rest| <= 3 {
      assert s[i..|s|] == rest && s[|s|..] == [];
      assert out + text(rest) + [] == out + text(rest);
    } else {
      assert rest[..3] == s[i..i + 3] && rest[3..] == s[i + 3..];
    }
  }

  // ---------------------------------------------------------------- the decoder

  function NonZero(c: nat): bytes
    requires c < 256
  {
    if c == 0 then [] else [c]
  }

  /** The bytes of a group but for zero ones. */
  function GroupBytes(v: nat): bytes
    requires v < 0x100_0000
  {
    NonZero(v / 0x1_0000) + NonZero((v / 0x100) % 0x100) + NonZero(v % 0x100)
  }

  /** The group of the four letters at `k`. */
  function LetterGroup(t: bytes, k: nat): (v: nat)
    requires k + 4 <= |t|
    ensures v < 0x100_0000
  {
    Place(t[k]) * 0x4_0000 + Place(t[k + 1]) * 0x1000 + Place(t[k + 2]) * 64 + Place(t[k + 3])
  }

  /** Four letters at a time; letters short of a group are dropped. */
  function DecodedText(t: bytes): bytes
    decreases |t|
  {
    if |t| < 4 then [] else GroupBytes(LetterGroup(t, 0)) + DecodedText(t[4..])
  }

  /** `base64_decode`: collect four letters into a group, and write its bytes unless they are
    zero. */
  method Decode(str: bytes) returns (buf: bytes)
    ensures buf == DecodedText(BeforeNul(str))
  {
    buf := [];
    var v: nat, j: nat, i: nat := 0, 0, 0;
    ghost var s := BeforeNul(str);
    DecodingStarts(s);
    while At(str, i) != 0
      invariant i <= |s| && Decoding(s, i, j, v, buf)
      decreases |str| - i
    {
      BeforeNulAt(str, i);
      v, j, buf := DecodeLetter(str[i], v, j, buf, s, i);
      i := i + 1;
    }
    BeforeNulAt(str, i);
    DecodingEnds(s, i, j, v, buf);
  }

  lemma DecodingEnds(s: bytes, i: nat, j: nat, v: nat, buf: bytes)
    requires Decoding(s, i, j, v, buf) && i == |s|
    ensures buf == DecodedText(s)
  {
    assert |s[i - j..]| == j && buf + [] == buf;
  }

  lemma DecodingStarts(s: bytes)
    ensures Decoding(s, 0, 0, 0, [])
  {
    assert s[0..] == s && [] + DecodedText(s) == DecodedText(s);
  }

  /** One round of that. */
  method DecodeLetter(c: byte, v: nat, j: nat, buf: bytes, ghost s: bytes, ghost i: nat)
    returns (v': nat, j': nat, buf': bytes)
    requires Decoding(s, i, j, v, buf) && i < |s| && s[i] == c
    ensures Decoding(s, i + 1, j', v', buf')
  {
    DecodeOne(s, i, j, v, buf);
    v', j', buf' := v + Place(c) * Weight(j), j + 1, buf;
    if j' == 4 {
      buf' := PutGroup(buf, v');
      v', j' := 0, 0;
    }
  }

  /** What a letter counts at place `j` of its group. */
  function Weight(j: nat): nat {
    if j == 0 then 0x4_0000 else if j == 1 then 0x1000 else if j == 2 then 64 else 1
  }

  /** The whole groups before place `i` are decoded, and `v` collects the last `j` letters. */
  ghost predicate Decoding(s: bytes, i: nat, j: nat, v: nat, buf: bytes) {
    && j <= i <= |s| && j < 4 && v == Collected(s[i - j..], j)
    && buf + DecodedText(s[i - j..]) == DecodedText(s)
  }

  lemma DecodeOne(s: bytes, i: nat, j: nat, v: nat, buf: bytes)
    requires Decoding(s, i, j, v, buf) && i < |s|
    ensures var v' := v + Place(s[i]) * Weight(j);
      if j < 3 then Decoding(s, i + 1, j + 1, v', buf)
      else v' < 0x100_0000 && Decoding(s, i + 1, 0, 0, buf + GroupBytes(v'))
  {
    var rest := s[i - j..];
    assert rest[j] == s[i];
    CollectNext(rest, j);
    if j == 3 {
      GroupNext(buf, rest);
      assert rest[4..] == s[i + 1..];
    }
  }

  /** The sum of the first `j` letters of a group in their places. */
  function Collected(t: bytes, j: nat): nat
    requires j <= |t| && j < 4
  {
    (if j > 0 then Place(t[0]) * 0x4_0000 else 0) + (if j > 1 then Place(t[1]) * 0x1000 else 0)
    + (if j > 2 then Place(t[2]) * 64 else 0)
  }

  /** One letter more, or the whole group. */
  lemma CollectNext(t: bytes, j: nat)
    requires j < |t| && j < 4
    ensures Collected(t, j) + Place(t[j]) * Weight(j)
         == if j == 3 then LetterGroup(t, 0) else Collected(t, j + 1)
  {
  }

  lemma GroupNext(out: bytes, t: bytes)
    requires |t| >= 4
    ensures out + DecodedText(t) == (out + GroupBytes(LetterGroup(t, 0))) + DecodedText(t[4..])
  {
    Regroup(out, GroupBytes(LetterGroup(t, 0)), DecodedText(t[4..]));
  }

  lemma Regroup(a: bytes, b: bytes, c: bytes)
    ensures a + (b + c) == (a + b) + c
  {
  }

  method PutGroup(buf: bytes, v: nat) returns (buf': bytes)
    requires v < 0x100_0000
    ensures buf' == buf + GroupBytes(v)
  {
    buf' := buf;
    if v / 0x1_0000 != 0 {
      buf' := buf' + [v / 0x1_0000];
    }
    if (v / 0x100) % 0x100 != 0 {
      buf' := buf' + [(v / 0x100) % 0x100];
    }
    if v % 0x100 != 0 {
      buf' := buf' + [v % 0x100];
    }
  }

  lemma {:induction false} BeforeNulAt(s: bytes, i: nat)
    requires i <= |BeforeNul(s)|
    ensures At(s, i) != 0 <==> i < |BeforeNul(s)|
  {
    if i > 0 {
      BeforeNulAt(s[1..], i - 1);
    }
  }

  // ---------------------------------------------------------------- round trip

  /** A string with its zero bytes removed. */
  function WithoutZeros(s: bytes): bytes {
    if s == [] then [] else NonZero(s[0]) + WithoutZeros(s[1..])
  }

  lemma {:induction false} WithoutZerosNulFree(s: bytes)
    requires NulFree(s)
    ensures WithoutZeros(s) == s
  {
    if s != [] {
      WithoutZerosNulFree(s[1..]);
    }
  }

  lemma PlaceOfLetter(n: nat)
    requires n < 64
    ensures Place(Letter(n)) == n && Letter(n) != 0 && Letter(n) != CR && Letter(n) != LF && Letter(n) != PAD
  {
  }

  /** The four letters of a group stand for the group. */
  lemma GroupOfLetters(a: byte, b: byte, c: byte, t: bytes)
    requires |t| >= 4
    requires var g := Group(a, b, c);
      && Place(t[0]) == Sextet(g, 0) && Place(t[1]) == Sextet(g, 1)
      && Place(t[2]) == Sextet(g, 2) && Place(t[3]) == Sextet(g, 3)
    ensures LetterGroup(t, 0) == Group(a, b, c)
    ensures GroupBytes(Group(a, b, c)) == NonZero(a) + NonZero(b) + NonZero(c)
  {
    SextetShifts(a, b, c);
    var g := Group(a, b, c);
    var x: nat, y: nat, z: nat := a, b, c;
    var h := x * 0x100 + y;
    assert g == h * 0x100 + z;
    assert g / 0x100 == h && g % 0x100 == z;
    assert h / 0x100 == x && h % 0x100 == y;
    assert g / 0x1_0000 == x;
  }

  lemma LettersPlain(a: byte, b: byte, c: byte)
    ensures forall k :: 0 <= k < 4 ==>
      FourLetters(a, b, c)[k] != 0 && FourLetters(a, b, c)[k] != CR && FourLetters(a, b, c)[k] != LF
    ensures forall k {:trigger FourLetters(a, b, c)[k]} :: 0 <= k < 4 ==>
      Place(FourLetters(a, b, c)[k]) == Sextet(Group(a, b, c), k)
  {
    var x := Group(a, b, c);
    PlaceOfLetter(Sextet(x, 0));
    PlaceOfLetter(Sextet(x, 1));
    PlaceOfLetter(Sextet(x, 2));
    PlaceOfLetter(Sextet(x, 3));
  }

  /** The text of one group decodes to its bytes that are not zero. */
  lemma DecodeGroup(g: bytes)
    requires 1 <= |g| <= 3
    ensures |GroupText(g)| == 4 && NulFree(GroupText(g)) && CR !in GroupText(g) && LF !in GroupText(g)
    ensures GroupBytes(LetterGroup(GroupText(g), 0)) == WithoutZeros(g)
  {
    var a, b, c := g[0], if |g| > 1 then g[1] else 0, if |g| > 2 then g[2] else 0;
    LettersPlain(a, b, c);
    PaddedPlaces(a, b, c, |g|);
    GroupOfLetters(a, b, c, GroupText(g));
    FirstThree(g);
  }

  /** A pad stands for the zero bits that fill a short group. */
  lemma PaddedPlaces(a: byte, b: byte, c: byte, n: nat)
    requires 1 <= n <= 3 && (n < 3 ==> c == 0) && (n < 2 ==> b == 0)
    ensures var x := Group(a, b, c);
      (n < 3 ==> Sextet(x, 3) == Place(PAD)) && (n < 2 ==> Sextet(x, 2) == Place(PAD))
  {
    SextetShifts(a, b, c);
  }

  /** Decoding the standard encoding gives the string without its zero bytes. */
  lemma {:induction false} DecodeEncoded(s: bytes)
    ensures NulFree(Standard(s)) && DecodedText(Standard(s)) == WithoutZeros(s)
    decreases |s|
  {
    if s == [] {
    } else if |s| <= 3 {
      DecodeGroup(s);
      assert Standard(s)[4..] == [];
    } else {
      var g, rest := s[..3], s[3..];
      DecodeGroup(g);
      DecodeEncoded(rest);
      DecodeMore(GroupText(g), Standard(rest));
      assert Standard(s) == GroupText(g) + Standard(rest);
      WithoutZerosConcat(g, rest);
      assert s == g + rest;
    }
  }

  lemma DecodeMore(four: bytes, rest: bytes)
    requires |four| == 4
    ensures DecodedText(four + rest) == GroupBytes(LetterGroup(four, 0)) + DecodedText(rest)
  {
    var t := four + rest;
    assert t[4..] == rest && t[0] == four[0] && t[1] == four[1] && t[2] == four[2] && t[3] == four[3];
  }

  lemma {:induction false} WithoutZerosConcat(a: bytes, b: bytes)
    ensures WithoutZeros(a + b) == WithoutZeros(a) + WithoutZeros(b)
  {
    if a == [] {
      assert a + b == b;
    } else {
      assert (a + b)[0] == a[0] && (a + b)[1..] == a[1..] + b;
      WithoutZerosConcat(a[1..], b);
    }
  }

  lemma FirstThree(s: bytes)
    requires s != []
    ensures WithoutZeros(s)
      == NonZero(s[0]) + NonZero(if |s| > 1 then s[1] else 0) + NonZero(if |s| > 2 then s[2] else 0)
                               + WithoutZeros(if |s| > 3 then s[3..] else [])
  {
    if |s| > 1 {
      assert WithoutZeros(s[1..]) == NonZero(s[1]) + WithoutZeros(s[1..][1..]);
      assert s[1..][1..] == s[2..];
      if |s| > 2 {
        assert WithoutZeros(s[2..]) == NonZero(s[2]) + WithoutZeros(s[2..][1..]);
        assert s[2..][1..] == s[3..];
      }
    }
  }

  /** `base64_decode` undoes `base64` on every string without zero bytes, and on any other one
    it gives what is left when they are removed. */
  lemma RoundTrip(s: bytes)
    ensures DecodedText(BeforeNul(Standard(s))) == WithoutZeros(s)
    ensures NulFree(s) ==> DecodedText(BeforeNul(Standard(s))) == s
  {
    DecodeEncoded(s);
    BeforeNulAll(Standard(s));
    if NulFree(s) {
      WithoutZerosNulFree(s);
    }
  }

  lemma {:induction false} BeforeNulAll(s: bytes)
    requires NulFree(s)
    ensures BeforeNul(s) == s
  {
    if s != [] {
      BeforeNulAll(s[1..]);
    }
  }

  // ---------------------------------------------------------------- lines

  /** The lines of an encoding: 48 bytes a line, each line ended. */
  function Lines(s: bytes): bytes
    decreases |s|
  {
    if s == [] then []
    else if |s| <= LINE then Standard(s) + [CR, LF]
    else Standard(s[..LINE]) + [CR, LF] + Lines(s[LINE..])
  }

  /** Every full line is 48 bytes in 64 letters, and a line break. */
  lemma {:induction false} LineAt(s: bytes, k: nat)
    requires LINE * (k + 1) <= |s|
    ensures 66 * (k + 1) <= |Lines(s)|
    ensures Lines(s)[66 * k..66 * k + 66] == Standard(s[LINE * k..LINE * k + LINE]) + [CR, LF]
    decreases k
  {
    if k == 0 {
      FirstLine(s);
    } else {
      LineAt(s[LINE..], k - 1);
      LineAfter(s, LINE * k, 66 * k);
    }
  }

  lemma {:induction false} FirstLine(s: bytes)
    requires LINE <= |s|
    ensures 66 <= |Lines(s)| && Lines(s)[0..66] == Standard(s[0..LINE]) + [CR, LF]
  {
    assert s[0..LINE] == s[..LINE];
    if |s| == LINE {
      OneLine(s);
      LineLength(s);
      WholeSlice(s);
      WholeSlice(Lines(s));
    } else {
      var line, rest := LinesHead(s);
      StartOf(line, Lines(rest));
    }
  }

  lemma {:induction false} OneLine(s: bytes)
    requires |s| == LINE
    ensures Lines(s) == Standard(s) + [CR, LF]
  {
  }

  lemma {:induction false} LineLength(s: bytes)
    requires |s| == LINE
    ensures |Standard(s)| == 64
  {
    LineLetters(|s|);
    StandardLength(s);
  }

  lemma LineLetters(n: nat)
    requires n == LINE
    ensures EncodedLength(n) == 64
  {
  }

  lemma WholeSlice<T>(s: seq<T>)
    ensures s[0..|s|] == s
  {
  }

  lemma StartOf<T>(a: seq<T>, b: seq<T>)
    ensures (a + b)[0..|a|] == a
  {
  }

  /** A line behind the first is a line of the rest. */
  lemma {:induction false} LineAfter(s: bytes, i: nat, j: nat)
    requires LINE <= i && i + LINE <= |s| && 66 <= j && j <= |Lines(s[LINE..])|
    ensures j + 66 <= |Lines(s)| && Lines(s)[j..j + 66] == Lines(s[LINE..])[j - 66..j]
    ensures s[i..i + LINE] == s[LINE..][i - LINE..i]
  {
    var line, rest := LinesHead(s);
    LaterSlice(line, Lines(rest), j, 66);
    DropSlice(s, LINE, i, LINE);
  }

  lemma DropSlice<T>(s: seq<T>, d: nat, i: nat, n: nat)
    requires d <= i && i + n <= |s|
    ensures s[i..i + n] == s[d..][i - d..i - d + n]
  {
  }

  lemma {:induction false} LinesHead(s: bytes) returns (line: bytes, rest: bytes)
    requires |s| > LINE
    ensures rest == s[LINE..] && |line| == 66 && Lines(s) == line + Lines(rest)
    ensures line == Standard(s[..LINE]) + [CR, LF]
  {
    LineLength(s[..LINE]);
    line, rest := Standard(s[..LINE]) + [CR, LF], s[LINE..];
  }

  lemma LaterSlice<T>(a: seq<T>, b: seq<T>, i: nat, n: nat)
    requires |a| <= i && i + n <= |a| + |b|
    ensures (a + b)[i..i + n] == b[i - |a|..i - |a| + n]
  {
  }

  /** The buffer `mime64` asks for, its two spare bytes not counted. */
  function BufferLength(n: nat): nat {
    EncodedLength(n) + 2 * (1 + n / 48) + 1
  }

  /** `mime64`: encode `length` bytes, or for a length of zero the whole string. */
  method Mime(str: bytes, length: nat) returns (out: bytes)
    requires length <= |str|
    ensures var s := if length == 0 then BeforeNul(str) else str[..length];
      out == Lines(s) && |out| + 1 <= BufferLength(|s|)
  {
    var len := length;
    if len == 0 { len := |BeforeNul(str)|; }
    var s := str[..len];
    assert length == 0 ==> s == BeforeNul(str) by {
      assert BeforeNul(str) <= str;
    }
    out := MimeLines(s);
    LinesLength(s);
  }

  /** The loop of `mime64`. */
  method MimeLines(str: bytes) returns (out: bytes)
    ensures out == Lines(str)
  {
    out := [];
    var pi, len := 0, |str|;
    assert str[0..] == str;
    while len > LINE
      invariant 0 <= len && pi + len == |str|
      invariant out + Lines(str[pi..]) == Lines(str)
      decreases len
    {
      LinesStep(out, str, pi);
      var e := Encode(str[pi..pi + LINE]);
      out := out + e;
      pi := pi + LINE;
      out := out + [CR, LF];
      len := len - LINE;
    }
    assert str[pi..] == str[pi..pi + len];
    if len > 0 {
      var e := Encode(str[pi..pi + len]);
      assert Lines(str[pi..]) == e + [CR, LF];
      out := out + e;
      out := out + [CR, LF];
    } else {
      assert out + [] == out;
    }
  }

  lemma LinesStep(out: bytes, s: bytes, i: nat)
    requires i + LINE < |s|
    ensures out + Lines(s[i..]) == out + Standard(s[i..i + LINE]) + [CR, LF] + Lines(s[i + LINE..])
  {
    var rest := s[i..];
    assert rest[..LINE] == s[i..i + LINE] && rest[LINE..] == s[i + LINE..];
    assert Lines(rest) == Standard(rest[..LINE]) + [CR, LF] + Lines(rest[LINE..]);
  }

  /** A text without its line breaks. */
  function Unbroken(t: bytes): bytes {
    if t == [] then [] else (if t[0] == CR || t[0] == LF then [] else [t[0]]) + Unbroken(t[1..])
  }

  lemma {:induction false} UnbrokenConcat(a: bytes, b: bytes)
    ensures Unbroken(a + b) == Unbroken(a) + Unbroken(b)
  {
    if a == [] {
      assert a + b == b;
    } else {
      assert (a + b)[1..] == a[1..] + b;
      UnbrokenConcat(a[1..], b);
    }
  }

  lemma {:induction false} UnbrokenSame(t: bytes)
    requires CR !in t && LF !in t
    ensures Unbroken(t) == t
  {
    if t != [] {
      UnbrokenSame(t[1..]);
    }
  }

  lemma {:induction false} StandardUnbroken(s: bytes)
    ensures CR !in Standard(s) && LF !in Standard(s)
    decreases |s|
  {
    if 0 < |s| <= 3 {
      DecodeGroup(s);
    } else if |s| > 3 {
      DecodeGroup(s[..3]);
      StandardUnbroken(s[3..]);
    }
  }

  /** Taking the line breaks out gives the encoding in one line. */
  lemma {:induction false} LinesJoin(s: bytes)
    ensures Unbroken(Lines(s)) == Standard(s)
    decreases |s|
  {
    if s != [] {
      if |s| <= LINE {
        LineUnbroken(s);
      } else {
        LineUnbroken(s[..LINE]);
        LinesJoin(s[LINE..]);
        assert s == s[..LINE] + s[LINE..];
        GroupedConcat(s[..LINE], s[LINE..], 16, GroupText);
        UnbrokenConcat(Standard(s[..LINE]) + [CR, LF], Lines(s[LINE..]));
      }
    }
  }

  lemma LineUnbroken(s: bytes)
    ensures Unbroken(Standard(s) + [CR, LF]) == Standard(s)
  {
    var t := Standard(s);
    StandardUnbroken(s);
    UnbrokenSame(t);
    UnbrokenConcat(t, [CR, LF]);
    assert [CR, LF][1..] == [LF] && [LF][1..] == [];
    assert Unbroken([LF]) == [];
    assert t + [] == t;
  }

  /** The lines and the final NUL fit the computed length. */
  lemma {:induction false} LinesLength(s: bytes)
    ensures |Lines(s)| + 1 <= BufferLength(|s|)
    decreases |s|
  {
    if |s| <= LINE {
      StandardLength(s);
    } else {
      var rest := s[LINE..];
      StandardLength(s[..LINE]);
      LinesLength(rest);
      LengthLine(|s|, |rest|);
      assert |Lines(s)| == 66 + |Lines(rest)|;
    }
  }

  lemma LengthLine(n: nat, m: nat)
    requires n == m + LINE
    ensures BufferLength(n) == BufferLength(m) + 66 && EncodedLength(LINE) == 64
  {
    var q, r := m / 3, m % 3;
    assert m == 3 * q + r && n == 3 * (q + 16) + r;
    assert n % 3 == r && n / 48 == m / 48 + 1;
  }
}
