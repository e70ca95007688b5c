/** The `rxmatch` operation: a pattern compiled and matched, against the pattern's reference
  reading. */
module RegxFind {
  import opened Bytes
  import opened RegxCode
  import opened RegxSyntax
  import opened RegxEnds
  import opened RegxGrammar
  import opened RegxReference
  import Regx

  /** No pattern; no match; or the match. */
  datatype Found = Invalid | Nowhere | Match(from: nat, to: nat)

  /** A text has a member of the language at `i` up to `j`, when only groups up to `cap` can match. */
  ghost predicate Member(x: Re, cap: nat, text: bytes, i: nat, j: nat) {
    i <= j <= |text| && L(x, cap, text, i, j)
  }

  /** A result is the leftmost place where the language has a member, with the end that the pattern
    prefers there, or that there is none. */
  ghost predicate Leftmost(x: Re, cap: nat, text: bytes, r: Found) {
    && (r.Match? ==> Member(x, cap, text, r.from, r.to) && Preferred(x, cap, text, r.from) == Yes(r.to))
    && (r.Match? ==> forall i: nat, j: nat :: i < r.from ==> !Member(x, cap, text, i, j))
    && (r.Nowhere? <==> forall i: nat, j: nat :: !Member(x, cap, text, i, j))
  }

  /** `EvalRxMatch` with the flag `s`: an error exactly for the patterns the reference grammar refuses,
    and else the leftmost place where the reference language has a member, if there is any, up to
    the end that the reference tree prefers there. Groups beyond the ninth cannot match; with no
    such group this is the usual language. */
  method RxMatch(text: bytes, pattern: bytes) returns (r: Found)
    requires NulFree(text) && NulFree(pattern) && !Compiled(pattern).TooBig?
    ensures r.Invalid? <==> !Reference(pattern).Done?
    ensures Reference(pattern).Done? ==> Leftmost(Reference(pattern).x, MATCHED_GROUPS, text, r)
    ensures Compiled(pattern).Done? && HighestGroup(Compiled(pattern).x) <= MATCHED_GROUPS ==>
      Reference(pattern).Done? && Leftmost(Reference(pattern).x, MAX_SUBX, text, r)
  {
    var rx := new Regx.RegX();
    CompilerAgrees(pattern);
    var ok := rx.Compile(pattern);
    if !ok { return Invalid; }
    var place := rx.Match(text);
    r := if place == 0 then Nowhere else Match(place - 1, rx.endp);
    FoundLeftmost(rx.tree, text, place, rx.endp, r);
    FoundAlike(pattern, text, r);
    if HighestGroup(Compiled(pattern).x) <= MATCHED_GROUPS {
      UsualLanguage(pattern, text, r);
    }
  }

  /** What the matcher says, as a result. */
  lemma FoundLeftmost(x: Re, text: bytes, place: nat, end: int, r: Found)
    requires place > 0 ==> place - 1 <= end && Member(x, MATCHED_GROUPS, text, place - 1, end)
    requires place > 0 ==> Preferred(x, MATCHED_GROUPS, text, place - 1) == Yes(end)
    requires forall i, j :: 0 <= i <= j <= |text| && (place > 0 ==> i < place - 1) ==>
      !L(x, MATCHED_GROUPS, text, i, j)
    requires r == if place == 0 then Nowhere else Match(place - 1, end)
    ensures Leftmost(x, MATCHED_GROUPS, text, r)
  {
    if place > 0 {
      assert Member(x, MATCHED_GROUPS, text, r.from, r.to);
    }
  }

  /** What is found for the compiled tree is found for the reference tree. */
  lemma FoundAlike(pattern: bytes, text: bytes, r: Found)
    requires NulFree(pattern) && Compiled(pattern).Done? && !r.Invalid?
    requires Leftmost(Compiled(pattern).x, MATCHED_GROUPS, text, r)
    ensures Reference(pattern).Done? && Leftmost(Reference(pattern).x, MATCHED_GROUPS, text, r)
  {
    CompiledAlike(pattern, MATCHED_GROUPS, text, 0);
    var x, y := Compiled(pattern).x, Reference(pattern).x;
    forall i: nat, j: nat
      ensures Member(x, MATCHED_GROUPS, text, i, j) <==> Member(y, MATCHED_GROUPS, text, i, j)
    {
      if i <= j <= |text| {
        CompiledAlike(pattern, MATCHED_GROUPS, text, i);
      }
    }
    if r.Match? {
      CompiledAlike(pattern, MATCHED_GROUPS, text, r.from);
    }
  }

  lemma UsualLanguage(pattern: bytes, text: bytes, r: Found)
    requires NulFree(pattern) && Compiled(pattern).Done? && Reference(pattern).Done?
    requires HighestGroup(Compiled(pattern).x) <= MATCHED_GROUPS
    requires Leftmost(Reference(pattern).x, MATCHED_GROUPS, text, r)
    ensures Leftmost(Reference(pattern).x, MAX_SUBX, text, r)
  {
    var x := Reference(pattern).x;
    forall i: nat, j: nat
      ensures Member(x, MATCHED_GROUPS, text, i, j) <==> Member(x, MAX_SUBX, text, i, j)
    {
      if i <= j <= |text| {
        CompiledLanguage(pattern, text, i);
        CompiledAlike(pattern, MATCHED_GROUPS, text, i);
      }
    }
    if r.Match? {
      CompiledLanguage(pattern, text, r.from);
      CompiledAlike(pattern, MATCHED_GROUPS, text, r.from);
    }
  }
}
