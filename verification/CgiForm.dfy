/** Parsing a form string in its own buffer, printing a form as client state, and the round trip. */
module CgiForm {
  import opened Bytes
  import opened Options
  import opened Cgi
  import HashMap

  datatype Pair = Pair(name: bytes, value: bytes)

  /** A form field: its name as first set, and its values in order. */
  datatype Field = Field(name: bytes, values: seq<bytes>)

  /** A form: fields under their names, which are the same whatever their case. */
  type Form = map<bytes, Field>

  /** Setting a value adds it behind the others of its name. */
  function SetIn(form: Form, x: Pair): Form {
    var k := HashMap.Lower(x.name);
    if k in form then form[k := Field(form[k].name, form[k].values + [x.value])]
    else form[k := Field(x.name, [x.value])]
  }

  function SetAll(form: Form, xs: seq<Pair>): Form
    decreases |xs|
  {
    if xs == [] then form else SetAll(SetIn(form, xs[0]), xs[1..])
  }

  lemma {:induction false} SetAllConcat(form: Form, xs: seq<Pair>, ys: seq<Pair>)
    ensures SetAll(form, xs + ys) == SetAll(SetAll(form, xs), ys)
    decreases |xs|
  {
    if xs == [] {
      assert xs + ys == ys;
    } else {
      assert (xs + ys)[1..] == xs[1..] + ys;
      SetAllConcat(SetIn(form, xs[0]), xs[1..], ys);
    }
  }

  // ---------------------------------------------------------------- what a form string says

  /** The value at `p`, decoded, up to an equals sign or ampersand (`ended`) or the end. */
  datatype Scanned = Scanned(value: bytes, end: nat, ended: bool)

  function ScanValue(s: bytes, p: nat): (r: Scanned)
    requires p <= |s| && NulFree(s)
    ensures p <= r.end <= |s| && (r.ended <==> r.end < |s|)
    decreases |s| - p
  {
    if p == |s| then Scanned([], p, false)
    else if s[p] == EQUALS || s[p] == AMP then Scanned([], p, true)
    else
      var d := DecodedAt(s, p);
      var r := ScanValue(s, p + d.1);
      r.(value := [d.0] + r.value)
  }

  /** The pairs set from `p` on, the current name starting at `n`; `last` is the last value read. */
  function Parsed(s: bytes, p: nat, n: nat, last: Option<bytes>): seq<Pair>
    requires n <= |s| && p <= |s| && n <= p && NulFree(s)
    decreases |s| - p
  {
    if p == |s| then
      if n < |s| && last.Some? && last.value != [] then [Pair(Decoded(s[n..]), last.value)] else []
    else if s[p] == EQUALS then
      var name := s[n..p];
      var v := ScanValue(s, p + 1);
      if v.ended then [Pair(Decoded(name), v.value)] + Parsed(s, v.end + 1, v.end + 1, Some(v.value))
      else if name != [] && v.value != [] then [Pair(Decoded(name), v.value)] else []
    else if s[p] == AMP || s[p] == QUERY then Parsed(s, p + 1, p + 1, last)
    else Parsed(s, p + 1, n, last)
  }

  // ---------------------------------------------------------------- parsing in place

  /** What the map holds under a name: the name as first set, and the head of its values. */
  datatype Entry = Entry(name: bytes, list: Cell)

  /** `CMapStrLst`. */
  class FormMap {
    var entries: map<bytes, Entry>

    /** The cells of all lists, and the form these stand for. */
    ghost var repr: set<Cell>
    ghost var view: Form

    ghost predicate Valid()
      reads this, repr
    {
      Stands(entries, view, repr)
    }

    constructor ()
      ensures Valid() && view == map[] && repr == {}
    {
      entries, repr, view := map[], {}, map[];
    }

    /** `CMapStrLst::Set`: tells whether the name was there. */
    method Set(name: bytes, val: bytes) returns (found: bool)
      requires Valid()
      modifies this, repr
      ensures Valid() && fresh(repr - old(repr))
      ensures view == SetIn(old(view), Pair(name, val))
      ensures found == (HashMap.Lower(name) in old(view))
    {
      var k := HashMap.Lower(name);
      if k in entries {
        assert Holds(entries, view, repr, k);
        LinkAt(k, val);
        return true;
      } else {
        AddNew(k, name, val);
        return false;
      }
    }

    /** A list for a new name. */
    method AddNew(k: bytes, name: bytes, val: bytes)
      requires Valid() && k !in entries && HashMap.Lower(name) == k
      modifies this
      ensures Valid() && fresh(repr - old(repr))
      ensures view == old(view)[k := Field(name, [val])]
    {
      var list := new Cell(val);
      var e := Entry(name, list);
      ghost var f := Field(name, [val]);
      StandsMore(entries, view, repr, k, e, f);
      entries, view, repr := entries[k := e], view[k := f], repr + list.repr;
    }

    /** Link a value to the list of a name: the cells of the other lists do not change. */
    method LinkAt(k: bytes, val: bytes)
      requires Valid() && k in entries
      modifies this, entries[k].list.repr
      ensures Valid() && fresh(repr - old(repr))
      ensures view == old(view)[k := Field(old(view)[k].name, old(view)[k].values + [val])]
    {
      var e := entries[k];
      StandsLess(entries, view, repr, k);
      ghost var others := repr - e.list.repr;
      var list := e.list.Link(val);
      e := Entry(e.name, list);
      ghost var f := Field(e.name, view[k].values + [val]);
      StandsMore(entries - {k}, view - {k}, others, k, e, f);
      assert (entries - {k})[k := e] == entries[k := e] && (view - {k})[k := f] == view[k := f];
      entries, view, repr := entries[k := e], view[k := f], others + list.repr;
    }
  }

  /** The entries hold the form: every name has a list of its own, with its values, and `repr` are
    the cells of the lists. */
  ghost predicate Stands(entries: map<bytes, Entry>, form: Form, repr: set<Cell>)
    reads repr
  {
    && entries.Keys == form.Keys
    && (forall k :: Holds(entries, form, repr, k))
    && (forall j, k :: Apart(entries, repr, j, k))
  }

  /** The list of a name holds its values. */
  ghost predicate Holds(entries: map<bytes, Entry>, form: Form, repr: set<Cell>, k: bytes)
    reads repr
  {
    k in entries && k in form ==>
      var e := entries[k];
      && e.name == form[k].name && HashMap.Lower(e.name) == k
      && e.list in repr && e.list.repr <= repr && e.list.Valid() && e.list.values == form[k].values
  }

  /** The lists of two names have no cell in common. */
  ghost predicate Apart(entries: map<bytes, Entry>, repr: set<Cell>, j: bytes, k: bytes)
    reads repr
  {
    j in entries && k in entries && j != k ==>
      entries[j].list in repr && entries[k].list in repr && entries[j].list.repr !! entries[k].list.repr
  }

  /** One list apart: the others are in the other cells. */
  lemma StandsLess(entries: map<bytes, Entry>, form: Form, repr: set<Cell>, k: bytes)
    requires Stands(entries, form, repr) && k in entries
    ensures Holds(entries, form, repr, k)
    ensures Stands(entries - {k}, form - {k}, repr - entries[k].list.repr)
  {
    var less, form', others := entries - {k}, form - {k}, repr - entries[k].list.repr;
    assert Holds(entries, form, repr, k);
    forall j ensures Holds(less, form', others, j) {
      assert Holds(entries, form, repr, j) && Apart(entries, repr, j, k);
    }
    forall i, j ensures Apart(less, others, i, j) {
      assert Apart(entries, repr, i, j) && Holds(less, form', others, i) && Holds(less, form', others, j);
    }
  }

  lemma StandsMore(entries: map<bytes, Entry>, form: Form, repr: set<Cell>, k: bytes, e: Entry, f: Field)
    requires Stands(entries, form, repr) && k !in entries
    requires e.name == f.name && HashMap.Lower(e.name) == k && e.list.repr !! repr
    requires e.list.Valid() && e.list.values == f.values
    ensures Stands(entries[k := e], form[k := f], repr + e.list.repr)
  {
    var more, form', all := entries[k := e], form[k := f], repr + e.list.repr;
    forall j ensures Holds(more, form', all, j) {
      assert Holds(entries, form, repr, j);
    }
    forall i, j ensures Apart(more, all, i, j) {
      assert Apart(entries, repr, i, j) && Holds(entries, form, repr, i) && Holds(entries, form, repr, j);
    }
  }

  /** `UrlDecode` on a copy of a string. */
  method DecodeCopy(t: bytes) returns (r: bytes)
    requires NulFree(t)
    ensures r == Decoded(t)
  {
    var tmp := new byte[|t| + 1](i requires i >= 0 => if i < |t| then t[i] else 0);
    assert tmp[..|t|] == t;
    var m := UrlDecode(tmp, |t|);
    r := tmp[..m];
  }

  /** Read the C string at `n`. */
  method ReadString(str: array<byte>, n: nat) returns (r: bytes)
    requires n <= str.Length
    ensures r == CString(str[..], n)
  {
    r := [];
    var i := n;
    while i < str.Length && str[i] != 0
      invariant n <= i <= str.Length && r == str[n..i] && NulFree(r)
    {
      r := r + [str[i]];
      i := i + 1;
    }
    CStringIs(str[..], n, r);
  }

  lemma {:induction false} CStringIs(b: bytes, n: nat, t: bytes)
    requires n + |t| <= |b| && b[n..n + |t|] == t && NulFree(t)
    requires n + |t| < |b| ==> b[n + |t|] == 0
    ensures CString(b, n) == t
    decreases |t|
  {
    if t != [] {
      assert b[n] == b[n..n + |t|][0] == t[0];
      assert b[n + 1..n + |t|] == b[n..n + |t|][1..] == t[1..];
      assert b[n + 1..n + 1 + |t[1..]|] == t[1..];
      CStringIs(b, n + 1, t[1..]);
    }
  }

  /** The inner loop of `ParseFormString`: decode a value into the buffer from `v1` on. */
  method ParseValue(str: array<byte>, v1: nat, ghost s: bytes) returns (p: nat, v2: nat)
    requires |s| < str.Length && NulFree(s) && str[|s|] == 0
    requires v1 <= |s| && str[v1..|s|] == s[v1..]
    modifies str
    ensures var r := ScanValue(s, v1);
      p == r.end && v1 <= v2 <= p && str[v1..v2] == r.value
    ensures str[..v1] == old(str[..v1]) && str[p..|s|] == s[p..] && str[|s|] == 0
  {
    p, v2 := v1, v1;
    ghost var whole, pre := ScanValue(s, v1), str[..v1];
    assert str[..][v1..v1] == [] && [] + whole.value == whole.value;
    while str[p] != 0 && str[p] != EQUALS && str[p] != AMP
      invariant Reading(str[..], s, v1, v2, p, pre, whole)
      decreases |s| - p
    {
      p := ReadInto(str, v1, v2, p, s, pre, whole);
      v2 := v2 + 1;
    }
    ReadingEnd(str[..], s, v1, v2, p, pre, whole);
  }

  /** One round of that: one byte is decoded into the place `v2`. */
  method ReadInto(str: array<byte>, ghost v1: nat, v2: nat, p: nat, ghost s: bytes, ghost pre: bytes,
                  ghost whole: Scanned)
    returns (p': nat)
    requires Reading(str[..], s, v1, v2, p, pre, whole) && str[p] != 0 && str[p] != EQUALS && str[p] != AMP
    modifies str
    ensures p < p' <= |s| && Reading(str[..], s, v1, v2 + 1, p', pre, whole)
  {
    ghost var b := str[..];
    var c;
    c, p' := ReadOne(str, |s|, p, s);
    str[v2] := c;
    assert str[..] == b[v2 := c];
    ReadingStep(b, s, v1, v2, p, pre, whole);
  }

  /** The value so far is in the buffer, the rest of the string is still there. */
  ghost predicate Reading(b: bytes, s: bytes, v1: nat, v2: nat, p: nat, pre: bytes, whole: Scanned) {
    && v1 <= v2 <= p <= |s| < |b| && NulFree(s) && b[p..|s|] == s[p..] && b[|s|] == 0 && b[..v1] == pre
    && var r := ScanValue(s, p); whole == Scanned(b[v1..v2] + r.value, r.end, r.ended)
  }

  lemma ReadingStep(b: bytes, s: bytes, v1: nat, v2: nat, p: nat, pre: bytes, whole: Scanned)
    requires Reading(b, s, v1, v2, p, pre, whole) && b[p] != 0 && b[p] != EQUALS && b[p] != AMP
    ensures p < |s| && b[p] == s[p]
    ensures var d := DecodedAt(s, p); Reading(b[v2 := d.0], s, v1, v2 + 1, p + d.1, pre, whole)
  {
    assert p < |s| ==> b[p] == b[p..|s|][0];
    var d := DecodedAt(s, p);
    var b', q := b[v2 := d.0], p + d.1;
    var r := ScanValue(s, q);
    assert ScanValue(s, p) == Scanned([d.0] + r.value, r.end, r.ended);
    assert b'[v1..v2 + 1] == b[v1..v2] + [d.0];
    assert b[v1..v2] + ([d.0] + r.value) == b'[v1..v2 + 1] + r.value;
    assert b'[q..|s|] == b[p..|s|][q - p..] == s[q..];
    assert b'[..v1] == b[..v1];
  }

  lemma ReadingEnd(b: bytes, s: bytes, v1: nat, v2: nat, p: nat, pre: bytes, whole: Scanned)
    requires Reading(b, s, v1, v2, p, pre, whole) && (b[p] == 0 || b[p] == EQUALS || b[p] == AMP)
    ensures whole == Scanned(b[v1..v2], p, p < |s|)
  {
    if p < |s| {
      assert b[p] == b[p..|s|][0] == s[p] && s[p] in s;
    }
    assert b[v1..v2] + [] == b[v1..v2];
  }

  /** Where the outer loop stands in the buffer: the rest of the string, the name it is in, and
    the last value it decoded are there. */
  ghost predicate Standing(b: bytes, s: bytes, p: nat, n: nat, v1: nat, v2: nat, last: Option<bytes>) {
    && |s| < |b| && NulFree(s) && b[|s|] == 0
    && n <= p <= |s| && b[n..|s|] == s[n..]
    && v1 <= v2 <= n && (last == None <==> v1 == 0) && (last.Some? ==> b[v1..v2] == last.value)
  }

  /** The parse is over but for a last name and value, which are in the buffer. */
  ghost predicate Closing(b: bytes, n: nat, v1: nat, v2: nat, name: bytes, value: bytes) {
    && n < |b| && CString(b, n) == name
    && v1 <= v2 <= |b| && value == if v1 == 0 then [] else b[v1..v2]
  }

  function LastPair(name: bytes, value: bytes): seq<Pair>
    requires NulFree(name)
  {
    if name != [] && value != [] then [Pair(Decoded(name), value)] else []
  }

  /** `ParseFormString`: parse a NUL-terminated form string of `len` bytes in its own buffer. */
  method ParseFormString(str: array<byte>, ghost len: nat, form: FormMap)
    requires len < str.Length && NulFree(str[..len]) && str[len] == 0 && form.Valid()
    modifies str, form, form.repr
    ensures form.Valid() && fresh(form.repr - old(form.repr))
    ensures form.view == SetAll(old(form.view), Parsed(old(str[..len]), 0, 0, None))
  {
    ghost var whole := SetAll(form.view, Parsed(str[..len], 0, 0, None));
    var n, v1, v2;
    ghost var name, value;
    n, v1, v2, name, value := ParseFields(str, len, form, whole);
    if str[n] != 0 && v1 != 0 && v2 > v1 {
      SetField(str, form, n, v1, v2, name);
    }
  }

  /** The outer loop of `ParseFormString`. */
  method ParseFields(str: array<byte>, ghost len: nat, form: FormMap, ghost whole: Form)
    returns (n: nat, v1: nat, v2: nat, ghost name: bytes, ghost value: bytes)
    requires len < str.Length && NulFree(str[..len]) && str[len] == 0 && form.Valid()
    requires whole == SetAll(form.view, Parsed(str[..len], 0, 0, None))
    modifies str, form, form.repr
    ensures form.Valid() && fresh(form.repr - old(form.repr))
    ensures Closing(str[..], n, v1, v2, name, value)
    ensures whole == SetAll(form.view, LastPair(name, value))
  {
    ghost var s := str[..len];
    ghost var last: Option<bytes> := None;
    var p := 0;
    n, v1, v2 := 0, 0, 0;
    ghost var closed := false;
    name, value := [], [];
    while str[p] != 0
      invariant p <= len && str[len] == 0 && form.Valid() && fresh(form.repr - old(form.repr))
      invariant !closed ==> Standing(str[..], s, p, n, v1, v2, last)
      invariant !closed ==> SetAll(form.view, Parsed(s, p, n, last)) == whole
      invariant closed ==> p == len && Closing(str[..], n, v1, v2, name, value)
      invariant closed ==> whole == SetAll(form.view, LastPair(name, value))
      decreases len - p
    {
      StandingAt(str[..], s, p, n, v1, v2, last);
      if str[p] == EQUALS {
        p, n, v1, v2, closed, name, value := ParseField(str, form, p, n, s, last, whole);
        last := Some(value);
      } else if str[p] == AMP || str[p] == QUERY {
        n := p + 1;
        p := p + 1;
      } else {
        p := p + 1;
      }
    }
    if !closed {
      name, value := s[n..], if last.Some? then last.value else [];
      StandingEnds(str[..], s, p, n, v1, v2, last);
    }
  }

  lemma StandingAt(b: bytes, s: bytes, p: nat, n: nat, v1: nat, v2: nat, last: Option<bytes>)
    requires Standing(b, s, p, n, v1, v2, last) && b[p] != 0
    ensures p < |s| && b[p] == s[p]
    ensures n <= p && Standing(b, s, p + 1, n, v1, v2, last) && Standing(b, s, p + 1, p + 1, v1, v2, last)
  {
    assert b[p] == b[n..|s|][p - n];
    assert b[p + 1..|s|] == b[n..|s|][p + 1 - n..] == s[p + 1..];
  }

  lemma StandingEnds(b: bytes, s: bytes, p: nat, n: nat, v1: nat, v2: nat, last: Option<bytes>)
    requires Standing(b, s, p, n, v1, v2, last) && b[p] == 0
    ensures p == |s|
    ensures Closing(b, n, v1, v2, s[n..], if last.Some? then last.value else [])
    ensures Parsed(s, p, n, last) == LastPair(s[n..], if last.Some? then last.value else [])
  {
    assert n + |s[n..]| == |s|;
    CStringIs(b, n, s[n..]);
  }

  /** From an equals sign on: the name ends there, its value is decoded, and if it has an end
    mark the two are set. */
  method ParseField(str: array<byte>, form: FormMap, p: nat, n: nat, ghost s: bytes, ghost last: Option<bytes>,
                    ghost whole: Form)
    returns (p': nat, n': nat, v1: nat, v2: nat, ghost closed: bool, ghost name: bytes, ghost value: bytes)
    requires |s| < str.Length && NulFree(s) && str[|s|] == 0
    requires n <= p < |s| && str[n..|s|] == s[n..] && s[p] == EQUALS && form.Valid()
    requires SetAll(form.view, Parsed(s, p, n, last)) == whole
    modifies str, form, form.repr
    ensures form.Valid() && fresh(form.repr - old(form.repr))
    ensures p < p' <= |s| && str[|s|] == 0
    ensures !closed ==> Standing(str[..], s, p', n', v1, v2, Some(value))
    ensures !closed ==> SetAll(form.view, Parsed(s, p', n', Some(value))) == whole
    ensures closed ==> p' == |s| && Closing(str[..], n', v1, v2, name, value)
    ensures closed ==> whole == SetAll(form.view, LastPair(name, value))
  {
    ghost var r := ScanValue(s, p + 1);
    name, value, closed := s[n..p], r.value, !r.ended;
    p', v1, v2 := ReadPair(str, p, n, s, last);
    n' := n;
    if str[p'] != 0 {
      SetRead(str, form, p', n, v1, v2, s, name, value, whole);
      p' := p' + 1;
      n' := p';
    }
  }

  /** The part of that before the pair is set, if it is. */
  method ReadPair(str: array<byte>, p: nat, n: nat, ghost s: bytes, ghost last: Option<bytes>)
    returns (p': nat, v1: nat, v2: nat)
    requires |s| < str.Length && NulFree(s) && str[|s|] == 0
    requires n <= p < |s| && str[n..|s|] == s[n..] && s[p] == EQUALS
    modifies str
    ensures p < v1 <= v2 <= p' <= |s| && str[|s|] == 0 && NulFree(s[n..p])
    ensures var v := ScanValue(s, p + 1);
      (str[p'] != 0 <==> v.ended) && if v.ended then
        && p' < |s| && str[p'..|s|] == s[p'..] && str[v1..v2] == v.value && CString(str[..], n) == s[n..p]
        && Parsed(s, p, n, last) == [Pair(Decoded(s[n..p]), v.value)] + Parsed(s, p' + 1, p' + 1, Some(v.value))
      else
        && p' == |s| && Closing(str[..], n, v1, v2, s[n..p], v.value)
        && Parsed(s, p, n, last) == LastPair(s[n..p], v.value)
  {
    p', v1, v2 := ReadField(str, p, n, s);
    FieldRead(str[..], s, p, n, p', v1, v2, last);
  }

  /** What a field that was read means: a pair to set, or, without an end mark, the last one. */
  lemma FieldRead(b: bytes, s: bytes, p: nat, n: nat, p': nat, v1: nat, v2: nat, last: Option<bytes>)
    requires |s| < |b| && NulFree(s) && n <= p < |s| && s[p] == EQUALS && CString(b, n) == s[n..p]
    requires var r := ScanValue(s, p + 1); p' == r.end && p < v1 <= v2 <= p' <= |s| && b[v1..v2] == r.value
    requires b[p'] == if p' < |s| then s[p'] else 0
    ensures var v := ScanValue(s, p + 1);
      (b[p'] != 0 <==> v.ended) && (b[p'] != 0 ==> p' < |s|) && NulFree(s[n..p])
    ensures var v := ScanValue(s, p + 1);
      v.ended ==>
        Parsed(s, p, n, last) == [Pair(Decoded(s[n..p]), v.value)] + Parsed(s, p' + 1, p' + 1, Some(v.value))
    ensures var v := ScanValue(s, p + 1);
      !v.ended ==>
        && p' == |s| && Closing(b, n, v1, v2, s[n..p], v.value)
        && Parsed(s, p, n, last) == LastPair(s[n..p], v.value)
  {
    if p' < |s| {
      assert s[p'] in s;
    }
  }

  /** A name and a value with an end mark at `p`, both in the buffer, are set. */
  method SetRead(str: array<byte>, form: FormMap, p: nat, n: nat, v1: nat, v2: nat, ghost s: bytes,
                 ghost name: bytes, ghost value: bytes, ghost whole: Form)
    requires |s| < str.Length && NulFree(s) && str[|s|] == 0 && form.Valid()
    requires n < v1 <= v2 <= p < |s| && str[p..|s|] == s[p..] && str[v1..v2] == value
    requires CString(str[..], n) == name
    requires SetAll(form.view, [Pair(Decoded(name), value)] + Parsed(s, p + 1, p + 1, Some(value))) == whole
    modifies form, form.repr
    ensures form.Valid() && fresh(form.repr - old(form.repr))
    ensures Standing(str[..], s, p + 1, p + 1, v1, v2, Some(value))
    ensures SetAll(form.view, Parsed(s, p + 1, p + 1, Some(value))) == whole
  {
    ghost var rest := Parsed(s, p + 1, p + 1, Some(value));
    SetFirst(form.view, Pair(Decoded(name), value), rest);
    NextStanding(str[..], s, p + 1, v1, v2, value);
    SetField(str, form, n, v1, v2, name);
  }

  /** Set the name in the buffer at `n` to the value from `v1` to `v2`. */
  method SetField(str: array<byte>, form: FormMap, n: nat, v1: nat, v2: nat, ghost name: bytes)
    requires n <= str.Length && CString(str[..], n) == name && v1 <= v2 <= str.Length && form.Valid()
    modifies form, form.repr
    ensures form.Valid() && fresh(form.repr - old(form.repr))
    ensures form.view == SetIn(old(form.view), Pair(Decoded(name), str[v1..v2]))
  {
    var tmp := ReadString(str, n);
    tmp := DecodeCopy(tmp);
    var found := form.Set(tmp, str[v1..v2]);
  }

  lemma NextStanding(b: bytes, s: bytes, p: nat, v1: nat, v2: nat, value: bytes)
    requires |s| < |b| && NulFree(s) && b[|s|] == 0 && 0 < p <= |s| && b[p - 1..|s|] == s[p - 1..]
    requires 0 < v1 <= v2 <= p && b[v1..v2] == value
    ensures Standing(b, s, p, p, v1, v2, Some(value))
  {
    assert b[p..|s|] == b[p - 1..|s|][1..] == s[p..];
  }

  lemma SetFirst(form: Form, x: Pair, xs: seq<Pair>)
    ensures SetAll(form, [x] + xs) == SetAll(SetIn(form, x), xs)
  {
  }

  /** The part of that which works on the buffer. */
  method ReadField(str: array<byte>, p: nat, n: nat, ghost s: bytes) returns (p': nat, v1: nat, v2: nat)
    requires |s| < str.Length && NulFree(s) && str[|s|] == 0
    requires n <= p < |s| && str[n..|s|] == s[n..]
    modifies str
    ensures var r := ScanValue(s, p + 1);
      p' == r.end && p < v1 <= v2 <= p' <= |s| && str[v1..v2] == r.value
    ensures CString(str[..], n) == s[n..p] && str[p'..|s|] == s[p'..] && str[|s|] == 0
    ensures str[p'] == if p' < |s| then s[p'] else 0
  {
    CutName(str[..], s, n, p);
    ghost var b := str[..][p := 0];
    str[p] := 0;
    assert str[..] == b;
    v1 := p + 1;
    p', v2 := ParseValue(str, v1, s);
    NameStays(b, str[..], n, p, s[n..p]);
    assert p' < |s| ==> str[p'] == str[p'..|s|][0];
  }

  /** Ending the name leaves the name and the rest of the string as they were. */
  lemma CutName(b: bytes, s: bytes, n: nat, p: nat)
    requires n <= p < |s| < |b| && b[n..|s|] == s[n..]
    ensures var b' := b[p := 0];
      b'[n..p] == s[n..p] && b'[p + 1..|s|] == s[p + 1..] && b'[|s|] == b[|s|]
  {
    assert b[n..|s|][..p - n] == b[n..p] && s[n..][..p - n] == s[n..p];
    assert b[n..|s|][p + 1 - n..] == b[p + 1..|s|] && s[n..][p + 1 - n..] == s[p + 1..];
  }

  /** A name ended by a NUL stays while the buffer changes behind it. */
  lemma NameStays(b: bytes, b': bytes, n: nat, p: nat, name: bytes)
    requires n <= p < |b| == |b'| && b[n..p] == name && b[p] == 0 && NulFree(name)
    requires b'[..p + 1] == b[..p + 1]
    ensures CString(b', n) == name
  {
    assert b'[n..n + |name|] == b'[..p + 1][n..p] == b[..p + 1][n..p] == name;
    assert b'[p] == b'[..p + 1][p];
    CStringIs(b', n, name);
  }

  // ---------------------------------------------------------------- printing

  /** A value is printed as far as its first NUL. */
  function PrintedPair(x: Pair): bytes {
    x.name + [EQUALS] + Encoded(BeforeNul(x.value)) + [AMP]
  }

  function Printed(xs: seq<Pair>): bytes {
    if xs == [] then [] else PrintedPair(xs[0]) + Printed(xs[1..])
  }

  /** The pairs of a field. */
  function FieldPairs(f: Field): (r: seq<Pair>)
    ensures |r| == |f.values|
  {
    seq(|f.values|, i requires 0 <= i < |f.values| => Pair(f.name, f.values[i]))
  }

  function AllPairs(fs: seq<Field>): seq<Pair> {
    if fs == [] then [] else FieldPairs(fs[0]) + AllPairs(fs[1..])
  }

  /** A list of all fields of a form, each once. */
  ghost predicate Lists(fs: seq<Field>, form: Form) {
    ListsBut(fs, form, {})
  }

  /** The fields are under their names and have values, as setting leaves them. */
  ghost predicate WellFormed(form: Form) {
    forall k :: k in form ==> HashMap.Lower(form[k].name) == k && form[k].values != []
  }

  /** `EvalClientStateP`: print the fields in the order the map gives them. */
  method PrintForm(form: FormMap) returns (out: bytes, ghost fs: seq<Field>)
    requires form.Valid()
    ensures WellFormed(form.view) && Lists(fs, form.view) && out == Printed(AllPairs(fs))
  {
    out, fs := [], [];
    ghost var view := form.view;
    ViewWellFormed(form);
    var keys := form.entries.Keys;
    while keys != {}
      invariant keys <= form.entries.Keys && out == Printed(AllPairs(fs)) && ListsBut(fs, view, keys)
      decreases |keys|
    {
      var k :| k in keys;
      var e := form.entries[k];
      assert Holds(form.entries, view, form.repr, k);
      out := PrintField(out, e.name, e.list);
      PrintedMore(fs, view[k]);
      ListsMore(fs, view, keys, k);
      fs := fs + [view[k]];
      keys := keys - {k};
    }
  }

  lemma ViewWellFormed(form: FormMap)
    requires form.Valid()
    ensures WellFormed(form.view)
  {
    forall k | k in form.view ensures HashMap.Lower(form.view[k].name) == k && form.view[k].values != [] {
      assert Holds(form.entries, form.view, form.repr, k);
    }
  }

  /** A list of the fields of a form but for those of some keys. */
  ghost predicate ListsBut(fs: seq<Field>, form: Form, keys: set<bytes>) {
    && (forall i, j :: 0 <= i < j < |fs| ==> HashMap.Lower(fs[i].name) != HashMap.Lower(fs[j].name))
    && (forall i :: 0 <= i < |fs| ==> ListedField(form, keys, fs[i]))
    && (forall k :: k in form && k !in keys ==> form[k] in fs)
  }

  ghost predicate ListedField(form: Form, keys: set<bytes>, f: Field) {
    var k := HashMap.Lower(f.name);
    k in form && k !in keys && form[k] == f
  }

  lemma ListsMore(fs: seq<Field>, form: Form, keys: set<bytes>, k: bytes)
    requires ListsBut(fs, form, keys) && WellFormed(form) && k in keys && keys <= form.Keys
    ensures ListsBut(fs + [form[k]], form, keys - {k})
  {
    var more := fs + [form[k]];
    forall i | 0 <= i < |more| ensures ListedField(form, keys - {k}, more[i]) {
      if i < |fs| {
        assert ListedField(form, keys, fs[i]);
      }
    }
    forall i, j | 0 <= i < j < |more| ensures HashMap.Lower(more[i].name) != HashMap.Lower(more[j].name) {
      if j == |fs| {
        assert ListedField(form, keys, fs[i]);
      }
    }
    forall l | l in form && l !in keys - {k} ensures form[l] in more {
      if l != k {
        assert form[l] in fs;
      }
    }
  }

  lemma PrintedMore(fs: seq<Field>, f: Field)
    ensures Printed(AllPairs(fs + [f])) == Printed(AllPairs(fs)) + Printed(FieldPairs(f))
  {
    AllPairsMore(fs, f);
    PrintedConcat(AllPairs(fs), FieldPairs(f));
  }

  /** The inner loop: the values of one field. */
  method PrintField(out: bytes, name: bytes, list: Cell) returns (out': bytes)
    requires list.Valid()
    ensures out' == out + Printed(FieldPairs(Field(name, list.values)))
  {
    out' := out;
    var c: Cell? := list;
    ghost var i, xs := 0, FieldPairs(Field(name, list.values));
    while c != null
      invariant 0 <= i <= |xs| == |list.cells| && c == (if i < |xs| then list.cells[i] else null)
      invariant out' + Printed(xs[i..]) == out + Printed(xs)
      decreases |xs| - i
    {
      PrintedStep(out', xs, i);
      assert list.InList(i);
      out' := out' + name;
      out' := out' + [EQUALS];
      var e := UrlEncode(c.data);
      out' := out' + e;
      out' := out' + [AMP];
      c := c.next;
      i := i + 1;
    }
    assert xs[i..] == [];
    assert out' + [] == out';
  }

  lemma PrintedStep(out: bytes, xs: seq<Pair>, i: nat)
    requires i < |xs|
    ensures out + Printed(xs[i..])
         == out + xs[i].name + [EQUALS] + Encoded(BeforeNul(xs[i].value)) + [AMP] + Printed(xs[i + 1..])
  {
    assert xs[i..][0] == xs[i] && xs[i..][1..] == xs[i + 1..];
    var name, e, rest := xs[i].name, Encoded(BeforeNul(xs[i].value)), Printed(xs[i + 1..]);
    assert Printed(xs[i..]) == (name + [EQUALS] + e + [AMP]) + rest;
    Regroup(out, name, [EQUALS], e, [AMP], rest);
  }

  lemma Regroup(out: bytes, a: bytes, b: bytes, c: bytes, d: bytes, rest: bytes)
    ensures out + (a + b + c + d + rest) == out + a + b + c + d + rest
  {
    assert a + b + c + d + rest == a + (b + (c + (d + rest)));
    assert out + a + b + c + d + rest == out + (a + (b + (c + (d + rest))));
  }

  lemma {:induction false} PrintedConcat(xs: seq<Pair>, ys: seq<Pair>)
    ensures Printed(xs + ys) == Printed(xs) + Printed(ys)
  {
    if xs == [] {
      assert xs + ys == ys;
    } else {
      assert (xs + ys)[1..] == xs[1..] + ys;
      PrintedConcat(xs[1..], ys);
    }
  }

  lemma {:induction false} AllPairsMore(fs: seq<Field>, f: Field)
    ensures AllPairs(fs + [f]) == AllPairs(fs) + FieldPairs(f)
  {
    if fs == [] {
      assert fs + [f] == [f];
      assert [f][1..] == [];
      assert FieldPairs(f) + [] == FieldPairs(f);
    } else {
      assert (fs + [f])[1..] == fs[1..] + [f];
      AllPairsMore(fs[1..], f);
    }
  }

  // ---------------------------------------------------------------- round trip

  /** A name that printing and parsing keep: not empty, and no character with a meaning. */
  predicate GoodName(name: bytes) {
    name != [] && forall k :: 0 <= k < |name| ==>
      name[k] != 0 && name[k] != EQUALS && name[k] != AMP && name[k] != QUERY && name[k] != PERCENT && name[k] != PLUS
  }

  lemma EncodedStart(c: byte)
    ensures EncodedByte(c)[0] != EQUALS && EncodedByte(c)[0] != AMP
  {
  }

  lemma ScanOne(t: bytes, p: nat, c: byte)
    requires NulFree(t) && c != 0
    requires p + |EncodedByte(c)| <= |t| && t[p..p + |EncodedByte(c)|] == EncodedByte(c)
    ensures var r := ScanValue(t, p + |EncodedByte(c)|);
      ScanValue(t, p) == Scanned([c] + r.value, r.end, r.ended)
  {
    DecodeByte(t, p, c);
    EncodedStart(c);
    assert t[p] == t[p..p + |EncodedByte(c)|][0];
  }

  /** An encoded value read up to its ampersand, or an equals sign, or to the end of the text, is
    the value. */
  lemma {:induction false} ScanEncoded(t: bytes, p: nat, m: nat, v: bytes)
    requires NulFree(t) && NulFree(v)
    requires p <= m <= |t| && t[p..m] == Encoded(v) && (m < |t| ==> t[m] == AMP || t[m] == EQUALS)
    ensures ScanValue(t, p) == Scanned(v, m, m < |t|)
    decreases |v|
  {
    if v == [] {
      assert m == p;
    } else {
      var q := p + |EncodedByte(v[0])|;
      EncodedParts(t, p, m, v);
      ScanOne(t, p, v[0]);
      ScanEncoded(t, q, m, v[1..]);
      assert [v[0]] + v[1..] == v;
    }
  }

  /** Reading a name moves to its end. */
  lemma {:induction false} ScanName(t: bytes, p: nat, n: nat, q: nat, last: Option<bytes>)
    requires NulFree(t) && n <= p <= q <= |t|
    requires forall k :: p <= k < q ==> t[k] != EQUALS && t[k] != AMP && t[k] != QUERY
    ensures Parsed(t, p, n, last) == Parsed(t, q, n, last)
    decreases q - p
  {
    if p < q {
      ScanName(t, p + 1, n, q, last);
    }
  }

  lemma {:induction false} NameDecodes(name: bytes, i: nat)
    requires NulFree(name) && i <= |name| && forall k :: 0 <= k < |name| ==> name[k] != PERCENT && name[k] != PLUS
    ensures DecodedFrom(name, i) == name[i..]
    decreases |name| - i
  {
    if i < |name| {
      NameDecodes(name, i + 1);
      assert name[i..] == [name[i]] + name[i + 1..];
    }
  }

  /** What stands in front of a question mark or ampersand and has no equals sign is passed over. */
  lemma {:induction false} SkipTo(t: bytes, p: nat, n: nat, q: nat, last: Option<bytes>)
    requires NulFree(t) && n <= p < q <= |t| && (t[q - 1] == QUERY || t[q - 1] == AMP)
    requires forall k :: p <= k < q ==> t[k] != EQUALS
    ensures Parsed(t, p, n, last) == Parsed(t, q, q, last)
    decreases q - p
  {
    if p + 1 < q {
      SkipTo(t, p + 1, if t[p] == AMP || t[p] == QUERY then p + 1 else n, q, last);
    }
  }

  /** The value read last after `xs`. */
  function LastValue(xs: seq<Pair>, last: Option<bytes>): Option<bytes> {
    if xs == [] then last else Some(xs[|xs| - 1].value)
  }

  predicate GoodPairs(xs: seq<Pair>) {
    forall k :: 0 <= k < |xs| ==> GoodName(xs[k].name) && NulFree(xs[k].value)
  }

  /** Where printed pairs stand in a text, parsing gives them, and goes on behind them. */
  lemma {:induction false} ParseThrough(t: bytes, i: nat, xs: seq<Pair>, rest: bytes, last: Option<bytes>)
    requires NulFree(t) && i <= |t| && t[i..] == Printed(xs) + rest && GoodPairs(xs)
    ensures var q := |t| - |rest|;
      && i <= q && t[q..] == rest
      && Parsed(t, i, i, last) == xs + Parsed(t, q, q, LastValue(xs, last))
    decreases |xs|
  {
    if xs != [] {
      var x := xs[0];
      var more := Printed(xs[1..]) + rest;
      Associates(PrintedPair(x), Printed(xs[1..]), rest);
      var q := ParsePair(t, i, x, more, last);
      ParseThrough(t, q, xs[1..], rest, Some(x.value));
      HeadOn(xs, Parsed(t, |t| - |rest|, |t| - |rest|, LastValue(xs, last)));
    }
  }

  lemma Associates<T>(a: seq<T>, b: seq<T>, c: seq<T>)
    ensures a + b + c == a + (b + c)
  {
  }

  lemma HeadOn<T>(xs: seq<T>, ys: seq<T>)
    requires xs != []
    ensures [xs[0]] + (xs[1..] + ys) == xs + ys
  {
  }

  /** Where printed pairs stand at the end of a text, parsing gives them. */
  lemma ParsePrinted(t: bytes, i: nat, xs: seq<Pair>, last: Option<bytes>)
    requires NulFree(t) && i <= |t| && t[i..] == Printed(xs) && GoodPairs(xs)
    ensures Parsed(t, i, i, last) == xs
  {
    assert t[i..] == Printed(xs) + [];
    ParseThrough(t, i, xs, [], last);
  }

  /** A last pair that no ampersand ends is set if its value is not empty. */
  lemma ParseLast(t: bytes, i: nat, x: Pair, last: Option<bytes>)
    requires NulFree(t) && i <= |t| && t[i..] == x.name + [EQUALS] + Encoded(x.value)
    requires GoodName(x.name) && NulFree(x.value)
    ensures Parsed(t, i, i, last) == if x.value != [] then [x] else []
  {
    var p := i + |x.name|;
    LastParts(t, i, p, x.name, Encoded(x.value));
    ParseLastAt(t, i, p, x, last);
  }

  lemma ParseLastAt(t: bytes, i: nat, p: nat, x: Pair, last: Option<bytes>)
    requires NulFree(t) && i <= p < |t| && GoodName(x.name) && NulFree(x.value)
    requires t[i..p] == x.name && t[p] == EQUALS && t[p + 1..|t|] == Encoded(x.value)
    ensures Parsed(t, i, i, last) == if x.value != [] then [x] else []
  {
    NameScanned(t, i, p, x.name, last);
    ScanEncoded(t, p + 1, |t|, x.value);
    NameDecodes(x.name, 0);
    assert x.name[0..] == x.name;
    ParseEqualsEnd(t, p, i, last, x.name, x.value);
  }

  lemma LastParts(t: bytes, i: nat, p: nat, name: bytes, e: bytes)
    requires i <= |t| && t[i..] == name + [EQUALS] + e && p == i + |name|
    ensures p < |t| && t[i..p] == name && t[p] == EQUALS && t[p + 1..|t|] == e
  {
    var u := t[i..];
    var j := |name|;
    assert u[..j] == name && u[j] == EQUALS && u[j + 1..] == e;
    assert t[i..i + j] == u[..j];
    assert t[i + j + 1..|t|] == u[j + 1..];
  }

  lemma ParseEqualsEnd(t: bytes, p: nat, n: nat, last: Option<bytes>, name: bytes, value: bytes)
    requires NulFree(t) && n <= p < |t| && t[p] == EQUALS && t[n..p] == name && name != []
    requires ScanValue(t, p + 1) == Scanned(value, |t|, false)
    ensures NulFree(name)
    ensures Parsed(t, p, n, last) == if value != [] then [Pair(Decoded(name), value)] else []
  {
  }

  /** The printed pairs without the last ampersand. */
  function Unended(xs: seq<Pair>): bytes
    requires xs != []
  {
    Printed(xs)[..|Printed(xs)| - 1]
  }

  /** Its parts: the pairs but the last, and the last one's name and value. */
  lemma UnendedParts(xs: seq<Pair>)
    requires xs != [] && GoodPairs(xs)
    ensures var n, x := |xs| - 1, xs[|xs| - 1];
      Unended(xs) == Printed(xs[..n]) + (x.name + [EQUALS] + Encoded(x.value))
    ensures NulFree(Unended(xs))
  {
    var n, x := |xs| - 1, xs[|xs| - 1];
    assert xs == xs[..n] + [x];
    PrintedConcat(xs[..n], [x]);
    assert [x][1..] == [] && BeforeNul(x.value) == x.value;
    var e := x.name + [EQUALS] + Encoded(x.value);
    assert Printed([x]) == e + [AMP] + [] == e + [AMP];
    assert Printed(xs) == (Printed(xs[..n]) + e) + [AMP];
    PrintedNulFree(xs);
  }

  /** Without the last ampersand they parse to the same pairs, but for the last one if its value
    is empty. */
  lemma ParseUnended(xs: seq<Pair>)
    requires xs != [] && GoodPairs(xs)
    ensures NulFree(Unended(xs))
    ensures Parsed(Unended(xs), 0, 0, None) == if xs[|xs| - 1].value != [] then xs else xs[..|xs| - 1]
  {
    var n, x := |xs| - 1, xs[|xs| - 1];
    var most := xs[..n];
    UnendedParts(xs);
    ParseWhole(Unended(xs), most, x);
    LastOn(xs, most, x);
  }

  lemma LastOn<T>(xs: seq<T>, most: seq<T>, x: T)
    requires xs != [] && most == xs[..|xs| - 1] && x == xs[|xs| - 1]
    ensures most + [x] == xs && most + [] == most
  {
  }

  lemma ParseStart(t: bytes, xs: seq<Pair>, rest: bytes) returns (q: nat)
    requires NulFree(t) && t == Printed(xs) + rest && GoodPairs(xs)
    ensures q <= |t| && t[q..] == rest && Parsed(t, 0, 0, None) == xs + Parsed(t, q, q, LastValue(xs, None))
  {
    q := |t| - |rest|;
    assert t[0..] == t;
    ParseThrough(t, 0, xs, rest, None);
  }

  lemma ParseWhole(t: bytes, xs: seq<Pair>, x: Pair)
    requires NulFree(t) && t == Printed(xs) + (x.name + [EQUALS] + Encoded(x.value))
    requires GoodPairs(xs) && GoodName(x.name) && NulFree(x.value)
    ensures Parsed(t, 0, 0, None) == xs + if x.value != [] then [x] else []
  {
    var q := ParseStart(t, xs, x.name + [EQUALS] + Encoded(x.value));
    ParseLast(t, q, x, LastValue(xs, None));
  }

  /** A name behind the pairs, without an equals sign, is set to the value before it, unless that
    is empty or there is none. */
  lemma ParseBareName(xs: seq<Pair>, name: bytes)
    requires GoodPairs(xs) && GoodName(name)
    ensures NulFree(Printed(xs) + name)
    ensures Parsed(Printed(xs) + name, 0, 0, None)
         == if xs != [] && xs[|xs| - 1].value != [] then xs + [Pair(name, xs[|xs| - 1].value)] else xs
  {
    PrintedNulFree(xs);
    var t := Printed(xs) + name;
    var q := ParseStart(t, xs, name);
    ParseName(t, q, name, LastValue(xs, None));
    assert xs + [] == xs;
  }

  lemma ParseName(t: bytes, q: nat, name: bytes, last: Option<bytes>)
    requires NulFree(t) && q <= |t| && t[q..] == name && GoodName(name)
    ensures Parsed(t, q, q, last) == if last.Some? && last.value != [] then [Pair(name, last.value)] else []
  {
    forall k | q <= k < |t| ensures t[k] != EQUALS && t[k] != AMP && t[k] != QUERY {
      assert t[k] == name[k - q];
    }
    ScanName(t, q, q, |t|, last);
    NameDecodes(name, 0);
    assert name[0..] == name;
  }

  /** A printed pair in front of the rest of the text. */
  lemma ParsePair(t: bytes, i: nat, x: Pair, rest: bytes, last: Option<bytes>) returns (q: nat)
    requires NulFree(t) && i <= |t| && t[i..] == PrintedPair(x) + rest && GoodName(x.name) && NulFree(x.value)
    ensures i < q <= |t| && t[q..] == rest && Parsed(t, i, i, last) == [x] + Parsed(t, q, q, Some(x.value))
  {
    var e := Encoded(x.value);
    var p := i + |x.name|;
    var m := p + 1 + |e|;
    q := m + 1;
    assert BeforeNul(x.value) == x.value;
    PairParts(t, i, p, m, x.name, e, rest);
    ParsePairAt(t, i, p, m, x, last);
  }

  /** A pair in a text is read the same whether an ampersand or a second equals sign ends it. */
  lemma ParsePairAt(t: bytes, i: nat, p: nat, m: nat, x: Pair, last: Option<bytes>)
    requires NulFree(t) && i <= p < m < |t| && GoodName(x.name) && NulFree(x.value)
    requires t[i..p] == x.name && t[p] == EQUALS && t[p + 1..m] == Encoded(x.value) && (t[m] == AMP || t[m] == EQUALS)
    ensures Parsed(t, i, i, last) == [x] + Parsed(t, m + 1, m + 1, Some(x.value))
  {
    NameScanned(t, i, p, x.name, last);
    ScanEncoded(t, p + 1, m, x.value);
    NameDecodes(x.name, 0);
    assert x.name[0..] == x.name;
    ParseEquals(t, p, i, last, x.name, Scanned(x.value, m, true));
  }

  lemma NameScanned(t: bytes, i: nat, p: nat, name: bytes, last: Option<bytes>)
    requires NulFree(t) && i <= p < |t| && GoodName(name) && t[i..p] == name
    ensures Parsed(t, i, i, last) == Parsed(t, p, i, last)
  {
    forall k | i <= k < p ensures t[k] != EQUALS && t[k] != AMP && t[k] != QUERY {
      assert t[k] == t[i..p][k - i] == name[k - i];
    }
    ScanName(t, i, i, p, last);
  }

  lemma ParseEquals(t: bytes, p: nat, n: nat, last: Option<bytes>, name: bytes, v: Scanned)
    requires NulFree(t) && n <= p < |t| && t[p] == EQUALS && t[n..p] == name
    requires ScanValue(t, p + 1) == v && v.ended
    ensures NulFree(name) && v.end < |t|
    ensures Parsed(t, p, n, last) == [Pair(Decoded(name), v.value)] + Parsed(t, v.end + 1, v.end + 1, Some(v.value))
  {
  }

  /** The parts of a printed pair. */
  lemma PairParts(t: bytes, i: nat, p: nat, m: nat, name: bytes, e: bytes, rest: bytes)
    requires i <= |t| && t[i..] == name + [EQUALS] + e + [AMP] + rest
    requires p == i + |name| && m == p + 1 + |e|
    ensures m + 1 <= |t| && t[i..p] == name && t[p] == EQUALS && t[m] == AMP
    ensures t[p + 1..m] == e && t[m + 1..] == rest
  {
    var u := t[i..];
    var j := |name|;
    var k := j + 1 + |e|;
    assert u[..j] == name && u[j] == EQUALS && u[j + 1..k] == e && u[k] == AMP && u[k + 1..] == rest;
    assert t[i..i + j] == u[..j];
    assert t[i + j + 1..i + k] == u[j + 1..k];
    assert t[i + k + 1..] == u[k + 1..];
  }

  /** Setting the values of a new field one after the other makes the field. */
  lemma {:induction false} SetField1(form: Form, f: Field)
    requires f.values != [] && HashMap.Lower(f.name) !in form
    ensures SetAll(form, FieldPairs(f)) == form[HashMap.Lower(f.name) := f]
    decreases |f.values|
  {
    var k := HashMap.Lower(f.name);
    var n := |f.values| - 1;
    var x := Pair(f.name, f.values[n]);
    var less := Field(f.name, f.values[..n]);
    assert FieldPairs(f) == FieldPairs(less) + [x];
    SetAllConcat(form, FieldPairs(less), [x]);
    if n > 0 {
      SetField1(form, less);
    } else {
      assert FieldPairs(less) == [];
    }
    assert f.values == f.values[..n] + [f.values[n]];
    SetFirst(SetAll(form, FieldPairs(less)), x, []);
    assert [x] + [] == [x];
  }

  /** Setting all pairs of a list of fields gives the form they are the fields of. */
  lemma {:induction false} SetFields(fs: seq<Field>, form: Form)
    requires Lists(fs, form) && WellFormed(form)
    ensures SetAll(map[], AllPairs(fs)) == form
    decreases |fs|
  {
    if fs == [] {
      assert form == map[];
    } else {
      var n := |fs| - 1;
      var f := fs[n];
      var k := HashMap.Lower(f.name);
      ListsLess(fs, form);
      SetFields(fs[..n], form - {k});
      assert fs == fs[..n] + [f];
      AllPairsMore(fs[..n], f);
      SetAllConcat(map[], AllPairs(fs[..n]), FieldPairs(f));
      SetField1(form - {k}, f);
    }
  }

  lemma ListsLess(fs: seq<Field>, form: Form)
    requires Lists(fs, form) && WellFormed(form) && fs != []
    ensures var n := |fs| - 1;
      var k := HashMap.Lower(fs[n].name);
      && Lists(fs[..n], form - {k}) && WellFormed(form - {k}) && fs[n].values != []
      && (form - {k})[k := fs[n]] == form
  {
    var n := |fs| - 1;
    var f := fs[n];
    var k := HashMap.Lower(f.name);
    var less := form - {k};
    assert ListedField(form, {}, f);
    forall i | 0 <= i < n ensures ListedField(less, {}, fs[..n][i]) {
      assert ListedField(form, {}, fs[i]);
    }
    forall l | l in less ensures less[l] in fs[..n] {
      assert form[l] in fs && HashMap.Lower(form[l].name) == l;
      assert fs == fs[..n] + [f];
    }
  }

  lemma {:induction false} AllPairsFrom(fs: seq<Field>, i: nat)
    requires i < |AllPairs(fs)|
    ensures exists j :: 0 <= j < |fs| && AllPairs(fs)[i].name == fs[j].name && AllPairs(fs)[i].value in fs[j].values
    decreases |fs|
  {
    var m := |fs[0].values|;
    if i < m {
      assert AllPairs(fs)[i] == FieldPairs(fs[0])[i];
    } else {
      assert AllPairs(fs)[i] == AllPairs(fs[1..])[i - m];
      AllPairsFrom(fs[1..], i - m);
      var j :| && 0 <= j < |fs[1..]| && AllPairs(fs[1..])[i - m].name == fs[1..][j].name
               && AllPairs(fs[1..])[i - m].value in fs[1..][j].values;
      assert fs[j + 1] == fs[1..][j];
    }
  }

  /** Printing a form and parsing the result gives the form back, with the order of every list,
    for names that are kept and values without NUL. */
  lemma FormRoundTrip(fs: seq<Field>, form: Form)
    requires Lists(fs, form) && WellFormed(form)
    requires forall k :: k in form ==> GoodName(form[k].name)
    requires forall k, i :: k in form && 0 <= i < |form[k].values| ==> NulFree(form[k].values[i])
    ensures var t := Printed(AllPairs(fs));
      NulFree(t) && SetAll(map[], Parsed(t, 0, 0, None)) == form
  {
    var xs := AllPairs(fs);
    var t := Printed(xs);
    forall i | 0 <= i < |xs| ensures GoodName(xs[i].name) && NulFree(xs[i].value) {
      AllPairsFrom(fs, i);
    }
    PrintedNulFree(xs);
    assert t[0..] == t;
    ParsePrinted(t, 0, xs, None);
    SetFields(fs, form);
  }

  lemma {:induction false} PrintedNulFree(xs: seq<Pair>)
    requires GoodPairs(xs)
    ensures NulFree(Printed(xs))
  {
    if xs != [] {
      EncodedNulFree(xs[0].value);
      PrintedNulFree(xs[1..]);
    }
  }

  /** The same through the methods: print, copy into a buffer, parse into an empty form. */
  method PrintAndParse(form: FormMap) returns (back: FormMap)
    requires form.Valid()
    requires forall k :: k in form.view ==> GoodName(form.view[k].name)
    requires forall k, i :: k in form.view && 0 <= i < |form.view[k].values| ==> NulFree(form.view[k].values[i])
    ensures fresh(back) && back.Valid() && fresh(back.repr) && back.view == form.view
  {
    ghost var fs;
    var out;
    out, fs := PrintForm(form);
    FormRoundTrip(fs, form.view);
    var buf := new byte[|out| + 1](i requires i >= 0 => if i < |out| then out[i] else 0);
    assert buf[..|out|] == out;
    back := new FormMap();
    ParseFormString(buf, |out|, back);
  }

  /** Parsing such a text, without the last ampersand, in a buffer. */
  method ParseUnendedForm(text: bytes, ghost xs: seq<Pair>) returns (form: FormMap)
    requires xs != [] && GoodPairs(xs) && text == Unended(xs)
    ensures fresh(form) && form.Valid() && fresh(form.repr)
    ensures form.view == SetAll(map[], if xs[|xs| - 1].value != [] then xs else xs[..|xs| - 1])
  {
    ParseUnended(xs);
    var buf := new byte[|text| + 1](i requires i >= 0 => if i < |text| then text[i] else 0);
    assert buf[..|text|] == text;
    form := new FormMap();
    ParseFormString(buf, |text|, form);
  }
}
