/** The two-level mutex: in every process a recursive lock and a spin count, and between the
  processes a lock on a common file. The recursive lock is taken as the atomic one that the
  steps of its own methods implement. */
module Mutex {
  import opened Options
  import Crit

  type Tid = nat
  type Pid = nat

  /** What a wait finds when it has entered the recursive lock: the spin count, whether its
    process has the file lock, and how often its thread had entered before. */
  datatype Found = Found(spin: int, locked: bool, depth: nat)

  /** Where a thread stands. A wait may be timed; `late` tells that the last one timed out. */
  datatype PC =
    | Idle(late: bool)
    | Enter(timed: bool)                        // the recursive lock
    | ReadUp(timed: bool, f: Found)             // ++m_spin
    | WriteUp(timed: bool, f: Found, spin: int)
    | TestUp(timed: bool, f: Found)             // m_spin == 1
    | FileLock(timed: bool, f: Found)           // flock
    | UndoRead(f: Found)                        // --m_spin
    | UndoWrite(f: Found, spin: int)
    | UndoLeave(f: Found)
    | ReadDown                                  // --m_spin
    | WriteDown(spin: int)
    | TestDown                                  // m_spin == 0
    | FileUnlock
    | LeaveDown

  /** What an idle thread begins; whether a try finds the recursive lock busy on account of a
    thread that is on its way into or out of it, which does not have it yet or any more; and
    whether the time is up when a timed wait looks. */
  datatype Call = Wait(timed: bool) | Signal
  datatype Input = Input(call: Call, missed: bool, expired: bool)

  /** For every process its recursive lock and spin count; the process that has the file lock;
    for every thread its process, its place, and how often it has waited and not signalled. */
  datatype State = State(
    crit: seq<Crit.Atomic>, spin: seq<int>, file: Option<Pid>,
    home: seq<Pid>, pc: seq<PC>, inside: seq<nat>)

  predicate Shape(s: State) {
    && |s.crit| == |s.spin| && |s.home| == |s.pc| == |s.inside|
    && forall t :: 0 <= t < |s.home| ==> s.home[t] < |s.crit|
  }

  ghost predicate Init(s: State) {
    && Shape(s) && s.file == None
    && (forall p :: 0 <= p < |s.crit| ==> s.crit[p] == Crit.Free && s.spin[p] == 0)
    && (forall t :: 0 <= t < |s.pc| ==> s.pc[t].Idle? && s.inside[t] == 0)
  }

  /** What one thread of a process sees: its process's recursive lock and spin count, the file
    lock, its own place, and how often it is inside. */
  datatype Local = Local(crit: Crit.Atomic, spin: int, file: Option<Pid>, pc: PC, inside: nat)

  function Depth(a: Crit.Atomic, t: Tid): nat {
    if a.Held? && a.t == t then a.depth else 0
  }

  /** A timed wait tries, and a try can miss a free lock (`Crit.StepRefines`). */
  function TryEnter(a: Crit.Atomic, t: Tid, missed: bool): Option<Crit.Atomic> {
    if a.Free? && missed then None else Crit.Enter(a, t)
  }

  /** One step of thread `t` of process `p`, or None when it has to wait. Only a thread inside
    signals. */
  function Step(l: Local, p: Pid, t: Tid, x: Input): Option<Local> {
    match l.pc
    case Idle(_) =>
      (match x.call
       case Wait(timed) => Some(l.(pc := Enter(timed)))
       case Signal => if l.inside > 0 then Some(l.(pc := ReadDown, inside := l.inside - 1)) else None)
    case Enter(timed) =>
      (match TryEnter(l.crit, t, timed && x.missed)
       case Some(a) => Some(l.(crit := a, pc := ReadUp(timed, Found(l.spin, l.file == Some(p), Depth(l.crit, t)))))
       case None => if timed && x.expired then Some(l.(pc := Idle(true))) else None)
    case ReadUp(timed, f) => Some(l.(pc := WriteUp(timed, f, l.spin + 1)))
    case WriteUp(timed, f, n) => Some(l.(pc := TestUp(timed, f), spin := n))
    case TestUp(timed, f) =>
      Some(if l.spin == 1 then l.(pc := FileLock(timed, f)) else l.(pc := Idle(false), inside := l.inside + 1))
    case FileLock(timed, f) =>
      if l.file == None || l.file == Some(p) then Some(l.(pc := Idle(false), file := Some(p), inside := l.inside + 1))
      else if timed && x.expired then Some(l.(pc := UndoRead(f)))
      else None
    case UndoRead(f) => Some(l.(pc := UndoWrite(f, l.spin - 1)))
    case UndoWrite(f, n) => Some(l.(pc := UndoLeave(f), spin := n))
    case UndoLeave(f) => Left(l, t, true)
    case ReadDown => Some(l.(pc := WriteDown(l.spin - 1)))
    case WriteDown(n) => Some(l.(pc := TestDown, spin := n))
    case TestDown => Some(l.(pc := if l.spin == 0 then FileUnlock else LeaveDown))
    case FileUnlock => Some(l.(pc := LeaveDown, file := if l.file == Some(p) then None else l.file))
    case LeaveDown => Left(l, t, false)
  }

  /** The thread leaves the recursive lock and returns. */
  function Left(l: Local, t: Tid, late: bool): Option<Local> {
    match Crit.Leave(l.crit, t)
    case None => None
    case Some(a) => Some(l.(crit := a, pc := Idle(late)))
  }

  function View(s: State, t: Tid): Local
    requires Shape(s) && t < |s.pc|
  {
    Local(s.crit[s.home[t]], s.spin[s.home[t]], s.file, s.pc[t], s.inside[t])
  }

  /** The state with what thread `t` sees replaced. */
  function Put(s: State, t: Tid, l: Local): State
    requires Shape(s) && t < |s.pc|
  {
    var p := s.home[t];
    s.(crit := s.crit[p := l.crit], spin := s.spin[p := l.spin], file := l.file,
       pc := s.pc[t := l.pc], inside := s.inside[t := l.inside])
  }

  function Next(s: State, t: Tid, x: Input): Option<State>
    requires Shape(s) && t < |s.pc|
  {
    match Step(View(s, t), s.home[t], t, x)
    case None => None
    case Some(l) => Some(Put(s, t, l))
  }

  // ---------------------------------------------------------------- the invariant

  predicate FoundRight(f: Found, k: nat) {
    f == Found(k, k > 0, k)
  }

  /** What the place of the thread that has entered says: `k` is how often it is inside. */
  predicate Entered(pc: PC, k: nat, depth: nat, spin: int, locked: bool) {
    match pc
    case Idle(_) => depth == k > 0 && spin == k && locked
    case Enter(_) => depth == k > 0 && spin == k && locked
    case ReadUp(_, f) => depth == k + 1 && spin == k && locked == (k > 0) && FoundRight(f, k)
    case WriteUp(_, f, n) => depth == k + 1 && spin == k && n == k + 1 && locked == (k > 0) && FoundRight(f, k)
    case TestUp(_, f) => depth == k + 1 == spin && locked == (k > 0) && FoundRight(f, k)
    case FileLock(_, f) => depth == 1 == spin && k == 0 && !locked && FoundRight(f, k)
    case UndoRead(f) => depth == 1 == spin && k == 0 && !locked && FoundRight(f, k)
    case UndoWrite(f, n) => depth == 1 == spin && n == 0 && k == 0 && !locked && FoundRight(f, k)
    case UndoLeave(f) => depth == 1 && spin == 0 && k == 0 && !locked && FoundRight(f, k)
    case ReadDown => depth == k + 1 == spin && locked
    case WriteDown(n) => depth == k + 1 == spin && n == k && locked
    case TestDown => depth == k + 1 && spin == k && locked
    case FileUnlock => depth == 1 && spin == 0 == k && locked
    case LeaveDown => depth == k + 1 && spin == k && locked == (k > 0)
  }

  /** What a thread of process `p` can rely on: all is free and it is outside, or it has entered
    and its place says how far, or another thread has entered and it is outside. */
  predicate LocalInv(l: Local, p: Pid, t: Tid) {
    if l.crit.Held? && l.crit.t == t then Entered(l.pc, l.inside, l.crit.depth, l.spin, l.file == Some(p))
    else l.inside == 0 && (l.pc.Idle? || l.pc.Enter?) && (l.crit.Free? ==> l.spin == 0 && l.file != Some(p))
  }

  /** A step keeps that; it changes the lock, the count or the file lock only for the thread
    that has entered or enters, and the file lock only for this process. */
  lemma StepLocal(l: Local, p: Pid, t: Tid, x: Input)
    requires LocalInv(l, p, t) && Step(l, p, t, x).Some?
    ensures var r := Step(l, p, t, x).value;
      && LocalInv(r, p, t)
      && (l.crit.Held? && l.crit.t != t ==> r.crit == l.crit && r.spin == l.spin && r.file == l.file)
      && (r.crit.Held? && r.crit.t != t ==> r.crit == l.crit)
      && (r.crit.Free? ==> r.spin == 0 && r.file != Some(p))
      && (r.file == l.file || (l.file == None && r.file == Some(p)) || (l.file == Some(p) && r.file == None))
  {
  }

  /** When nobody of a process has entered, its spin count is zero and it has no file lock; one
    who has entered is of the process. */
  ghost predicate ProcessInv(s: State, p: Pid)
    requires Shape(s) && p < |s.crit|
  {
    match s.crit[p]
    case Free => s.spin[p] == 0 && s.file != Some(p)
    case Held(t, _) => t < |s.pc| && s.home[t] == p
  }

  ghost predicate Inv(s: State) {
    && Shape(s)
    && (s.file.Some? ==> s.file.value < |s.crit|)
    && (forall p :: 0 <= p < |s.crit| ==> ProcessInv(s, p))
    && (forall t :: 0 <= t < |s.pc| ==> LocalInv(View(s, t), s.home[t], t))
  }

  predicate HasEntered(s: State, t: Tid)
    requires Shape(s) && t < |s.pc|
  {
    s.crit[s.home[t]].Held? && s.crit[s.home[t]].t == t
  }

  lemma InitInv(s: State)
    requires Init(s)
    ensures Inv(s)
  {
  }

  /** Every step of every thread keeps the invariant. */
  lemma StepInv(s: State, t: Tid, x: Input)
    requires Inv(s) && t < |s.pc| && Next(s, t, x).Some?
    ensures Inv(Next(s, t, x).value) && Next(s, t, x).value.home == s.home
  {
    var l := View(s, t);
    var p0 := s.home[t];
    var r := Step(l, p0, t, x).value;
    var s' := Put(s, t, r);
    assert ProcessInv(s, p0);
    StepLocal(l, p0, t, x);
    forall p | 0 <= p < |s'.crit| ensures ProcessInv(s', p) {
      assert ProcessInv(s, p);
    }
    forall u | 0 <= u < |s'.pc| ensures LocalInv(View(s', u), s'.home[u], u) {
      assert LocalInv(View(s, u), s.home[u], u);
      OthersUndisturbed(s, t, x, u);
    }
  }

  /** The other threads can rely on what they relied on before. */
  lemma OthersUndisturbed(s: State, t: Tid, x: Input, u: Tid)
    requires Inv(s) && t < |s.pc| && u < |s.pc| && Next(s, t, x).Some?
    ensures LocalInv(View(Next(s, t, x).value, u), s.home[u], u)
  {
    var l := View(s, t);
    var p := s.home[t];
    var r := Step(l, p, t, x).value;
    StepLocal(l, p, t, x);
    assert LocalInv(View(s, u), s.home[u], u);
    var v := View(Put(s, t, r), u);
    if u == t {
      assert v == r;
    } else if s.home[u] == p {
      assert v == View(s, u).(crit := r.crit, spin := r.spin, file := r.file);
    } else {
      assert v == View(s, u).(file := r.file);
    }
  }

  // ---------------------------------------------------------------- runs

  datatype Move = Move(t: Tid, x: Input)

  function After(s: State, moves: seq<Move>): State
    requires Shape(s)
    decreases |moves|
  {
    if moves == [] then s
    else
      var before := After(s, moves[..|moves| - 1]);
      var m := moves[|moves| - 1];
      if Shape(before) && m.t < |before.pc| && Next(before, m.t, m.x).Some? then Next(before, m.t, m.x).value
        else before
  }

  lemma {:induction false} RunInv(s: State, moves: seq<Move>)
    requires Init(s)
    ensures Inv(After(s, moves)) && After(s, moves).home == s.home
    decreases |moves|
  {
    if moves == [] {
      InitInv(s);
    } else {
      RunInv(s, moves[..|moves| - 1]);
      var before := After(s, moves[..|moves| - 1]);
      var m := moves[|moves| - 1];
      if m.t < |before.pc| && Next(before, m.t, m.x).Some? {
        StepInv(before, m.t, m.x);
      }
    }
  }

  /** Nobody of process `p` is in the middle of a call after entering its lock. */
  predicate Stable(s: State, p: Pid)
    requires Shape(s)
  {
    forall t :: 0 <= t < |s.pc| && s.home[t] == p ==> s.pc[t].Idle? || s.pc[t].Enter?
  }

  /** After every run at most one thread of all processes is inside, and it has its process's
    lock and the file lock; a process at a stable point has the file lock exactly while its spin
    count is positive. */
  lemma Exclusion(s: State, moves: seq<Move>)
    requires Init(s)
    ensures var r := After(s, moves);
      && Shape(r)
      && (forall t, u :: 0 <= t < |r.inside| && 0 <= u < |r.inside| && r.inside[t] > 0 && r.inside[u] > 0 ==> t == u)
      && (forall t :: 0 <= t < |r.inside| && r.inside[t] > 0 ==> HasEntered(r, t) && r.file == Some(r.home[t]))
      && (forall p :: 0 <= p < |r.crit| && Stable(r, p) ==> (r.file == Some(p) <==> r.spin[p] > 0))
  {
    RunInv(s, moves);
    var r := After(s, moves);
    forall t | 0 <= t < |r.inside| && r.inside[t] > 0 ensures HasEntered(r, t) && r.file == Some(r.home[t]) {
      InsideLocks(r, t);
    }
    forall p | 0 <= p < |r.crit| && Stable(r, p) ensures r.file == Some(p) <==> r.spin[p] > 0 {
      StableLocks(r, p);
    }
  }

  lemma InsideLocks(r: State, t: Tid)
    requires Inv(r) && t < |r.pc| && r.inside[t] > 0
    ensures HasEntered(r, t) && r.file == Some(r.home[t])
  {
    assert LocalInv(View(r, t), r.home[t], t);
  }

  lemma StableLocks(r: State, p: Pid)
    requires Inv(r) && p < |r.crit| && Stable(r, p)
    ensures r.file == Some(p) <==> r.spin[p] > 0
  {
    assert ProcessInv(r, p);
    if r.crit[p].Held? {
      var t := r.crit[p].t;
      assert LocalInv(View(r, t), r.home[t], t);
    }
  }

  /** A wait that times out leaves things as it found them: if it never entered the recursive
    lock, it changed nothing; if it did, then it puts back the spin count, the file lock and
    the number of times its thread has entered. */
  lemma TimeoutRestores(s: State, t: Tid, x: Input)
    requires Inv(s) && t < |s.pc| && !s.pc[t].Idle?
    requires Next(s, t, x).Some? && Next(s, t, x).value.pc[t] == Idle(true)
    ensures var r := View(Next(s, t, x).value, t);
      match s.pc[t]
      case Enter(_) => r == View(s, t).(pc := Idle(true)) && Depth(r.crit, t) == 0
      case UndoLeave(f) => Found(r.spin, r.file == Some(s.home[t]), Depth(r.crit, t)) == f
      case _ => false
  {
    assert LocalInv(View(s, t), s.home[t], t);
  }

  /** A thread that is inside never has to wait for more: every step of a further wait of its
    own goes on, does not ask for the file lock, and does not time out. */
  lemma NestedWaitProceeds(s: State, t: Tid, x: Input)
    requires Inv(s) && t < |s.pc| && s.inside[t] > 0 && !s.pc[t].Idle?
    ensures Next(s, t, x).Some?
    ensures !Next(s, t, x).value.pc[t].FileLock? && Next(s, t, x).value.pc[t] != Idle(true)
  {
    assert LocalInv(View(s, t), s.home[t], t);
  }

  // ---------------------------------------------------------------- what a call does

  /** A call a thread began, and how often it was inside then. */
  datatype Begun = Begun(call: Call, inside: nat)

  /** The call that thread `t` began last in a run. */
  function LastBegun(s: State, moves: seq<Move>, t: Tid): Option<Begun>
    requires Shape(s) && t < |s.pc|
    decreases |moves|
  {
    if moves == [] then None
    else
      var before := After(s, moves[..|moves| - 1]);
      var m := moves[|moves| - 1];
      if m.t == t && Shape(before) && t < |before.pc| && before.pc[t].Idle? && Next(before, t, m.x).Some?
      then Some(Begun(m.x.call, before.inside[t]))
      else LastBegun(s, moves[..|moves| - 1], t)
  }

  /** What a call may answer, and how often it leaves its thread inside: a wait enters once
    more, or it was timed and is late and the thread was outside and stays there; a signal
    leaves once. */
  predicate Returned(b: Begun, late: bool, inside: nat) {
    match b.call
    case Wait(timed) => if late then timed && inside == b.inside == 0 else inside == b.inside + 1
    case Signal => !late && inside + 1 == b.inside
  }

  /** Where a thread may stand between the beginning of call `b` and the next one, and how often
    it is inside there. */
  predicate During(b: Begun, pc: PC, inside: nat) {
    match pc
    case Idle(late) => Returned(b, late, inside)
    case Enter(timed) => b.call == Wait(timed) && inside == b.inside
    case ReadUp(timed, _) => b.call == Wait(timed) && inside == b.inside
    case WriteUp(timed, _, _) => b.call == Wait(timed) && inside == b.inside
    case TestUp(timed, _) => b.call == Wait(timed) && inside == b.inside
    case FileLock(timed, _) => b.call == Wait(timed) && inside == b.inside
    case UndoRead(_) => b.call == Wait(true) && inside == b.inside
    case UndoWrite(_, _) => b.call == Wait(true) && inside == b.inside
    case UndoLeave(_) => b.call == Wait(true) && inside == b.inside
    case _ => b.call.Signal? && inside + 1 == b.inside
  }

  lemma StepBegins(s: State, t: Tid, x: Input)
    requires Shape(s) && t < |s.pc| && s.pc[t].Idle? && Next(s, t, x).Some?
    ensures var r := Next(s, t, x).value; During(Begun(x.call, s.inside[t]), r.pc[t], r.inside[t])
  {
  }

  lemma StepDuring(s: State, t: Tid, x: Input, b: Begun)
    requires Inv(s) && t < |s.pc| && !s.pc[t].Idle? && Next(s, t, x).Some?
    requires During(b, s.pc[t], s.inside[t])
    ensures var r := Next(s, t, x).value; During(b, r.pc[t], r.inside[t])
  {
    assert LocalInv(View(s, t), s.home[t], t);
  }

  lemma {:induction false} RunDuring(s: State, moves: seq<Move>, t: Tid)
    requires Init(s) && t < |s.pc|
    ensures var r := After(s, moves);
      && Shape(r) && t < |r.pc|
      && match LastBegun(s, moves, t)
         case None => r.pc[t].Idle? && r.inside[t] == 0
         case Some(b) => During(b, r.pc[t], r.inside[t])
    decreases |moves|
  {
    if moves != [] {
      RunDuring(s, moves[..|moves| - 1], t);
      RunInv(s, moves[..|moves| - 1]);
      var before := After(s, moves[..|moves| - 1]);
      var m := moves[|moves| - 1];
      if m.t < |before.pc| && Next(before, m.t, m.x).Some? && m.t == t {
        if before.pc[t].Idle? {
          StepBegins(before, t, m.x);
        } else {
          StepDuring(before, t, m.x, LastBegun(s, moves[..|moves| - 1], t).value);
        }
      }
    }
  }

  /** After every run, a thread between calls has from its last one what that call promises: a
    wait without a time limit has taken it in once more and is never late, a timed one has done
    so or is late and has left it outside, and a signal has let it out once. */
  lemma CallAnswers(s: State, moves: seq<Move>, t: Tid)
    requires Init(s) && t < |s.pc|
    ensures var r := After(s, moves);
      && Shape(r) && t < |r.pc|
      && (r.pc[t].Idle? ==>
            match LastBegun(s, moves, t)
            case None => r.inside[t] == 0
            case Some(b) => Returned(b, r.pc[t].late, r.inside[t]))
  {
    RunDuring(s, moves, t);
  }

  /** Exactly who has to wait: one that is outside and begins a signal; one at its process's
    lock that another thread has, or whose try misses it; and one at the file lock that another
    process has. In a timed wait that is so only until its time is up. */
  lemma WhoWaits(s: State, t: Tid, x: Input)
    requires Inv(s) && t < |s.pc|
    ensures var a := s.crit[s.home[t]];
      Next(s, t, x).None? <==>
        match s.pc[t]
        case Idle(_) => x.call.Signal? && s.inside[t] == 0
        case Enter(timed) => !(timed && x.expired) && ((a.Held? && a.t != t) || (a.Free? && timed && x.missed))
        case FileLock(timed, _) => !(timed && x.expired) && s.file.Some? && s.file != Some(s.home[t])
        case _ => false
  {
    assert LocalInv(View(s, t), s.home[t], t);
  }
}
