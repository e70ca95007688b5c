/** The recursive lock: its methods as steps of interleaved threads, each step one read or write
  of a shared variable or one call on the system mutex. */
module Crit {
  import opened Options

  type Tid = nat

  /** Where a thread stands. `Idle` is outside every call; `ok` is what its last call returned.
    A try-lock differs from a lock only in what it does about a busy mutex. */
  datatype PC =
    | Idle(ok: bool)
    | ReadCount(try: bool)          // test LCnt
    | ReadOwner(try: bool)          // LCnt was not zero: test Owner
    | ReadMine                      // the owner is this thread: LCnt += 1
    | WriteMine(count: int)
    | Acquire(try: bool)            // the system mutex
    | SetOwner
    | SetCount
    | UnlockCount                   // !LCnt
    | UnlockCountAgain              // LCnt && ...
    | UnlockOwner                   // ... !pthread_equal
    | ReadDown                      // --LCnt
    | WriteDown(count: int)
    | TestDown                      // !LCnt
    | Release                       // the system mutex

  datatype Call = Lock | TryLock | Unlock

  /** The shared variables, the thread holding the system mutex, and for every thread where it
    stands and how often it has locked and not yet unlocked. The first owner is arbitrary. */
  datatype State = State(count: int, owner: Tid, mutex: Option<Tid>, pc: seq<PC>, depth: seq<nat>)

  ghost predicate Init(s: State) {
    && s.count == 0 && s.mutex == None && |s.pc| == |s.depth|
    && (forall t :: 0 <= t < |s.pc| ==> s.pc[t].Idle?)
    && (forall t :: 0 <= t < |s.depth| ==> s.depth[t] == 0)
  }

  function At(s: State, t: Tid, pc: PC): State
    requires t < |s.pc|
  {
    s.(pc := s.pc[t := pc])
  }

  /** One step of thread `t`, or None when it has to wait. An idle thread begins `call`; only
    a thread that has locked unlocks. */
  function Next(s: State, t: Tid, call: Call): Option<State>
    requires t < |s.pc| == |s.depth|
  {
    match s.pc[t]
    case Idle(_) =>
      (match call
       case Lock => Some(At(s, t, ReadCount(false)))
       case TryLock => Some(At(s, t, ReadCount(true)))
       case Unlock => if s.depth[t] > 0 then Some(At(s, t, UnlockCount)) else None)
    case ReadCount(try) => Some(At(s, t, if s.count != 0 then ReadOwner(try) else Acquire(try)))
    case ReadOwner(try) => Some(At(s, t, if s.owner == t then ReadMine else Acquire(try)))
    case ReadMine => Some(At(s, t, WriteMine(s.count + 1)))
    case WriteMine(n) => Some(At(s, t, Idle(true)).(count := n, depth := s.depth[t := s.depth[t] + 1]))
    case Acquire(try) =>
      if s.mutex == None then Some(At(s, t, SetOwner).(mutex := Some(t)))
      else if try then Some(At(s, t, Idle(false)))
      else None
    case SetOwner => Some(At(s, t, SetCount).(owner := t))
    case SetCount => Some(At(s, t, Idle(true)).(count := 1, depth := s.depth[t := s.depth[t] + 1]))
    case UnlockCount => Some(At(s, t, if s.count == 0 then Idle(false) else UnlockCountAgain))
    case UnlockCountAgain => Some(At(s, t, if s.count != 0 then UnlockOwner else ReadDown))
    case UnlockOwner => Some(At(s, t, if s.owner != t then Idle(false) else ReadDown))
    case ReadDown => Some(At(s, t, WriteDown(s.count - 1)))
    case WriteDown(n) =>
      Some(At(s, t, TestDown).(count := n, depth := s.depth[t := if s.depth[t] > 0 then s.depth[t] - 1 else 0]))
    case TestDown => Some(At(s, t, if s.count == 0 then Release else Idle(true)))
    case Release => Some(At(s, t, Idle(true)).(mutex := None))
  }

  /** A thread that does not hold the mutex is outside, or on its way in with the owner test
    bound to fail. */
  predicate Outside(s: State, t: Tid)
    requires t < |s.pc| == |s.depth|
  {
    && s.depth[t] == 0
    && match s.pc[t]
       case Idle(_) => true
       case ReadCount(_) => true
       case ReadOwner(_) => s.owner != t
       case Acquire(_) => true
       case _ => false
  }

  /** What the holder's place says of the shared variables. */
  predicate Holding(s: State, t: Tid)
    requires t < |s.pc| == |s.depth|
  {
    match s.pc[t]
    case Acquire(_) => false
    case SetOwner => s.count == 0 && s.depth[t] == 0
    case SetCount => s.count == 0 && s.depth[t] == 0 && s.owner == t
    case Release => s.count == 0 && s.depth[t] == 0
    case TestDown => s.count == s.depth[t] && s.owner == t
    case WriteMine(n) => s.count == s.depth[t] > 0 && s.owner == t && n == s.count + 1
    case WriteDown(n) => s.count == s.depth[t] > 0 && s.owner == t && n == s.count - 1
    case _ => s.count == s.depth[t] > 0 && s.owner == t
  }

  ghost predicate Inv(s: State) {
    && |s.pc| == |s.depth|
    && (forall t :: 0 <= t < |s.pc| && s.mutex != Some(t) ==> Outside(s, t))
    && (s.mutex == None ==> s.count == 0)
    && (s.mutex.Some? ==> s.mutex.value < |s.pc| && Holding(s, s.mutex.value))
  }

  lemma InitInv(s: State)
    requires Init(s)
    ensures Inv(s)
  {
  }

  /** Every step of every thread keeps the invariant. */
  lemma StepInv(s: State, t: Tid, call: Call)
    requires Inv(s) && t < |s.pc| && Next(s, t, call).Some?
    ensures Inv(Next(s, t, call).value)
    ensures |Next(s, t, call).value.pc| == |s.pc|
  {
    var s' := Next(s, t, call).value;
    if s.mutex == Some(t) {
      forall u | 0 <= u < |s'.pc| && s'.mutex != Some(u) ensures Outside(s', u) {
        if u != t {
          assert Outside(s, u);
        }
      }
    } else {
      assert Outside(s, t);
      forall u | 0 <= u < |s'.pc| && s'.mutex != Some(u) ensures Outside(s', u) {
        assert Outside(s, u);
      }
    }
  }

  // ---------------------------------------------------------------- runs

  /** A move of a run: a thread, and the call it begins if it is idle. */
  datatype Move = Move(t: Tid, call: Call)

  /** The state after a run of moves; a move of a thread that has to wait changes nothing. */
  function After(s: State, moves: seq<Move>): (r: State)
    requires |s.pc| == |s.depth|
    ensures |r.pc| == |r.depth| == |s.pc|
  {
    if moves == [] then s
    else
      var before := After(s, moves[..|moves| - 1]);
      var m := moves[|moves| - 1];
      if m.t < |before.pc| && Next(before, m.t, m.call).Some? then Next(before, m.t, m.call).value else before
  }

  lemma {:induction false} RunInv(s: State, moves: seq<Move>)
    requires Init(s)
    ensures Inv(After(s, moves))
  {
    if moves == [] {
      InitInv(s);
    } else {
      RunInv(s, moves[..|moves| - 1]);
      var before := After(s, moves[..|moves| - 1]);
      var m := moves[|moves| - 1];
      if m.t < |before.pc| && Next(before, m.t, m.call).Some? {
        StepInv(before, m.t, m.call);
      }
    }
  }

  /** After every run: at most one thread is inside; a count above zero means that the owner
    holds the system mutex; the owner test succeeds only for a holder; between calls the count
    is the holder's depth; and no unlock has failed. */
  lemma MutualExclusion(s: State, moves: seq<Move>)
    requires Init(s)
    ensures var r := After(s, moves);
      && (forall t, u :: 0 <= t < |r.depth| && 0 <= u < |r.depth| && r.depth[t] > 0 && r.depth[u] > 0 ==> t == u)
      && (r.count > 0 ==> r.mutex == Some(r.owner))
      && (forall t :: 0 <= t < |r.pc| && r.pc[t].ReadOwner? && r.owner == t ==> r.mutex == Some(t))
      && (forall t :: 0 <= t < |r.pc| && r.mutex == Some(t) && r.pc[t].Idle? ==> r.count == r.depth[t] > 0)
      && (forall t :: 0 <= t < |r.pc| && r.pc[t].UnlockCount? ==> r.count != 0)
      && (forall t :: 0 <= t < |r.pc| && r.pc[t].UnlockOwner? ==> r.owner == t)
  {
    RunInv(s, moves);
    var r := After(s, moves);
    InvExcludes(r);
    InvOwner(r);
  }

  lemma InvExcludes(r: State)
    requires Inv(r)
    ensures forall t, u :: 0 <= t < |r.depth| && 0 <= u < |r.depth| && r.depth[t] > 0 && r.depth[u] > 0 ==> t == u
  {
    forall t | 0 <= t < |r.depth| && r.depth[t] > 0 ensures r.mutex == Some(t) {
      InvThread(r, t);
    }
  }

  lemma InvOwner(r: State)
    requires Inv(r)
    ensures r.count > 0 ==> r.mutex == Some(r.owner)
    ensures forall t :: 0 <= t < |r.pc| && r.pc[t].ReadOwner? && r.owner == t ==> r.mutex == Some(t)
    ensures forall t :: 0 <= t < |r.pc| && r.mutex == Some(t) && r.pc[t].Idle? ==> r.count == r.depth[t] > 0
    ensures forall t :: 0 <= t < |r.pc| && r.pc[t].UnlockCount? ==> r.count != 0
    ensures forall t :: 0 <= t < |r.pc| && r.pc[t].UnlockOwner? ==> r.owner == t
  {
    forall t | 0 <= t < |r.pc|
      ensures r.pc[t].ReadOwner? && r.owner == t ==> r.mutex == Some(t)
      ensures r.mutex == Some(t) && r.pc[t].Idle? ==> r.count == r.depth[t] > 0
      ensures r.pc[t].UnlockCount? ==> r.count != 0
      ensures r.pc[t].UnlockOwner? ==> r.owner == t
    {
      InvThread(r, t);
    }
  }

  /** A thread is outside, or it holds the mutex. */
  lemma InvThread(r: State, t: Tid)
    requires Inv(r) && t < |r.pc|
    ensures if r.mutex == Some(t) then Holding(r, t) else Outside(r, t)
  {
  }

  // ---------------------------------------------------------------- what a call does

  /** A call a thread began, and its depth then. */
  datatype Begun = Begun(call: Call, depth: nat)

  /** The call that thread `t` began last in a run. */
  function LastBegun(s: State, moves: seq<Move>, t: Tid): Option<Begun>
    requires t < |s.pc| == |s.depth|
  {
    if moves == [] then None
    else
      var before := After(s, moves[..|moves| - 1]);
      var m := moves[|moves| - 1];
      if m.t == t && before.pc[t].Idle? && Next(before, t, m.call).Some? then Some(Begun(m.call, before.depth[t]))
      else LastBegun(s, moves[..|moves| - 1], t)
  }

  /** Where a thread may stand between the beginning of call `b` and the next one, and how deep
    it is there. */
  predicate During(b: Begun, pc: PC, depth: nat) {
    match pc
    case Idle(ok) => Returned(b, ok, depth)
    case ReadCount(try) => b.call == (if try then TryLock else Lock) && depth == b.depth
    case ReadOwner(try) => b.call == (if try then TryLock else Lock) && depth == b.depth
    case Acquire(try) => b.call == (if try then TryLock else Lock) && depth == b.depth
    case ReadMine => !b.call.Unlock? && depth == b.depth
    case WriteMine(_) => !b.call.Unlock? && depth == b.depth
    case SetOwner => !b.call.Unlock? && depth == b.depth
    case SetCount => !b.call.Unlock? && depth == b.depth
    case UnlockCount => b.call.Unlock? && depth == b.depth
    case UnlockCountAgain => b.call.Unlock? && depth == b.depth
    case UnlockOwner => b.call.Unlock? && depth == b.depth
    case ReadDown => b.call.Unlock? && depth == b.depth
    case WriteDown(_) => b.call.Unlock? && depth == b.depth
    case TestDown => b.call.Unlock? && depth + 1 == b.depth
    case Release => b.call.Unlock? && depth + 1 == b.depth
  }

  /** What a call may answer, and how deep it leaves its thread: a lock succeeds, a try may fail
    and change nothing, and an unlock succeeds. */
  predicate Returned(b: Begun, ok: bool, depth: nat) {
    match b.call
    case Lock => ok && depth == b.depth + 1
    case TryLock => depth == if ok then b.depth + 1 else b.depth
    case Unlock => ok && depth + 1 == b.depth
  }

  lemma {:induction false} RunDuring(s: State, moves: seq<Move>, t: Tid)
    requires Init(s) && t < |s.pc|
    ensures var r := After(s, moves);
      match LastBegun(s, moves, t)
      case None => r.pc[t].Idle? && r.depth[t] == 0
      case Some(b) => During(b, r.pc[t], r.depth[t])
  {
    if moves != [] {
      RunDuring(s, moves[..|moves| - 1], t);
      RunInv(s, moves[..|moves| - 1]);
      var before := After(s, moves[..|moves| - 1]);
      var m := moves[|moves| - 1];
      if m.t < |before.pc| && Next(before, m.t, m.call).Some? {
        if m.t != t {
          StepOther(before, m.t, m.call, t);
        } else if before.pc[t].Idle? {
          StepBegins(before, t, m.call);
        } else {
          StepDuring(before, t, m.call, LastBegun(s, moves[..|moves| - 1], t).value);
        }
      }
    }
  }

  lemma StepOther(s: State, u: Tid, call: Call, t: Tid)
    requires u < |s.pc| == |s.depth| && t < |s.pc| && t != u && Next(s, u, call).Some?
    ensures Next(s, u, call).value.pc[t] == s.pc[t] && Next(s, u, call).value.depth[t] == s.depth[t]
  {
  }

  lemma StepBegins(s: State, t: Tid, call: Call)
    requires t < |s.pc| == |s.depth| && s.pc[t].Idle? && Next(s, t, call).Some?
    ensures var r := Next(s, t, call).value; During(Begun(call, s.depth[t]), r.pc[t], r.depth[t])
  {
  }

  lemma StepDuring(s: State, t: Tid, call: Call, b: Begun)
    requires Inv(s) && t < |s.pc| && !s.pc[t].Idle? && Next(s, t, call).Some?
    requires During(b, s.pc[t], s.depth[t])
    ensures var r := Next(s, t, call).value; During(b, r.pc[t], r.depth[t])
  {
    InvThread(s, t);
  }

  /** After every run, a thread between calls has from its last one what that call promises:
    a lock never answers false and leaves the thread one level deeper, a try answers true
    exactly when it does so, and an unlock leaves it one level less deep. */
  lemma CallAnswers(s: State, moves: seq<Move>, t: Tid)
    requires Init(s) && t < |s.pc|
    ensures var r := After(s, moves);
      r.pc[t].Idle? ==>
        match LastBegun(s, moves, t)
        case None => r.depth[t] == 0
        case Some(b) => Returned(b, r.pc[t].ok, r.depth[t])
  {
    RunDuring(s, moves, t);
  }

  /** After every run, exactly two kinds of thread have to wait: one that is not inside and
    begins an unlock, and one that is in a lock it began outside, past its look at the owner,
    while another thread has the system mutex. A try never waits. */
  lemma WhoWaits(s: State, moves: seq<Move>, t: Tid, call: Call)
    requires Init(s) && t < |s.pc|
    ensures var r := After(s, moves);
      && (Next(r, t, call).None? <==>
            if r.pc[t].Idle? then call.Unlock? && r.depth[t] == 0
            else r.pc[t] == Acquire(false) && r.mutex.Some? && r.mutex.value != t)
      && (r.pc[t] == Acquire(false) ==> LastBegun(s, moves, t) == Some(Begun(Lock, 0)))
  {
    RunDuring(s, moves, t);
    RunInv(s, moves);
    InvThread(After(s, moves), t);
  }

  /** `n` moves of one thread, one after the other. */
  function Alone(t: Tid, call: Call, n: nat): seq<Move> {
    if n == 0 then [] else Alone(t, call, n - 1) + [Move(t, call)]
  }

  lemma AloneStep(s: State, t: Tid, call: Call, n: nat)
    requires t < |s.pc| == |s.depth|
    ensures var a := After(s, Alone(t, call, n));
      After(s, Alone(t, call, n + 1)) == if Next(a, t, call).Some? then Next(a, t, call).value else a
  {
    assert Alone(t, call, n + 1)[..|Alone(t, call, n + 1)| - 1] == Alone(t, call, n);
  }

  /** States each of which is one step of the thread after the one before. */
  ghost predicate Path(t: Tid, call: Call, path: seq<State>) {
    && |path| > 0
    && (forall k :: 0 <= k < |path| ==> t < |path[k].pc| == |path[k].depth|)
    && (forall k :: 0 < k < |path| ==> Next(path[k - 1], t, call) == Some(path[k]))
  }

  lemma {:induction false} PathIsRun(t: Tid, call: Call, path: seq<State>)
    requires Path(t, call, path)
    ensures After(path[0], Alone(t, call, |path| - 1)) == path[|path| - 1]
  {
    if |path| > 1 {
      PathIsRun(t, call, path[..|path| - 1]);
      AloneStep(path[0], t, call, |path| - 2);
    }
  }

  /** The path to `a` and one step further. */
  lemma PathOn(t: Tid, call: Call, path: seq<State>, a: State) returns (longer: seq<State>, b: State)
    requires Path(t, call, path) && path[|path| - 1] == a && Next(a, t, call).Some?
    ensures Path(t, call, longer) && |longer| == |path| + 1 && longer[0] == path[0]
    ensures b == Next(a, t, call).value == longer[|path|]
  {
    b := Next(a, t, call).value;
    longer := path + [b];
  }

  /** The path of a lock or a try. */
  lemma LockPath(s: State, t: Tid, call: Call) returns (path: seq<State>, a: State)
    requires Inv(s) && t < |s.pc| && s.pc[t].Idle? && !call.Unlock?
    requires s.mutex == None || s.mutex == Some(t)
    ensures Path(t, call, path) && |path| == 6 && path[0] == s && path[5] == a
    ensures a.pc[t] == Idle(true) && a.depth[t] == s.depth[t] + 1
  {
    InvThread(s, t);
    path, a := PathOn(t, call, [s], s);
    path, a := PathOn(t, call, path, a);
    assert a.depth[t] == s.depth[t] && if a.count == 0 then a.pc[t].Acquire? && a.mutex == None
                                       else a.pc[t].ReadOwner? && a.owner == t;
    path, a := PathOn(t, call, path, a);
    path, a := PathOn(t, call, path, a);
    assert a.depth[t] == s.depth[t] && (a.pc[t].SetCount? || a.pc[t].WriteMine?);
    path, a := PathOn(t, call, path, a);
  }

  /** The path of an unlock. */
  lemma UnlockPath(s: State, t: Tid) returns (path: seq<State>, a: State)
    requires Inv(s) && t < |s.pc| && s.pc[t].Idle? && s.depth[t] > 0
    ensures Path(t, Unlock, path) && path[0] == s && path[|path| - 1] == a
    ensures |path| == if s.depth[t] > 1 then 8 else 9
    ensures a.pc[t] == Idle(true) && a.depth[t] == s.depth[t] - 1
  {
    InvThread(s, t);
    path, a := PathOn(t, Unlock, [s], s);
    path, a := PathOn(t, Unlock, path, a);
    path, a := PathOn(t, Unlock, path, a);
    assert a.pc[t] == UnlockOwner && a.owner == t && a.count == a.depth[t] == s.depth[t];
    path, a := PathOn(t, Unlock, path, a);
    path, a := PathOn(t, Unlock, path, a);
    path, a := PathOn(t, Unlock, path, a);
    assert a.pc[t] == TestDown && a.count == a.depth[t] == s.depth[t] - 1;
    path, a := PathOn(t, Unlock, path, a);
    if s.depth[t] == 1 {
      path, a := PathOn(t, Unlock, path, a);
    }
  }

  /** From every state that no other thread holds the mutex in, a call that runs alone returns
    true: a lock or a try after five steps, an unlock after seven, or eight when it is the last. */
  lemma UncontendedReturns(s: State, t: Tid, call: Call)
    requires Inv(s) && t < |s.pc| && s.pc[t].Idle?
    requires s.mutex == None || s.mutex == Some(t)
    requires call.Unlock? ==> s.depth[t] > 0
    ensures var r := After(s, Alone(t, call, if !call.Unlock? then 5 else if s.depth[t] > 1 then 7 else 8));
      r.pc[t] == Idle(true) && r.depth[t] == if call.Unlock? then s.depth[t] - 1 else s.depth[t] + 1
  {
    if call.Unlock? {
      var path, _ := UnlockPath(s, t);
      PathIsRun(t, call, path);
    } else {
      var path, _ := LockPath(s, t, call);
      PathIsRun(t, call, path);
    }
  }

  // ---------------------------------------------------------------- the lock it implements

  /** A recursive lock with atomic calls: free, or held by a thread some number of times. */
  datatype Atomic = Free | Held(t: Tid, depth: nat)

  function Enter(a: Atomic, t: Tid): Option<Atomic> {
    match a
    case Free => Some(Held(t, 1))
    case Held(u, d) => if u == t then Some(Held(t, d + 1)) else None
  }

  function Leave(a: Atomic, t: Tid): Option<Atomic> {
    match a
    case Free => None
    case Held(u, d) => if u != t || d == 0 then None else if d == 1 then Some(Free) else Some(Held(t, d - 1))
  }

  /** What a state stands for: it is held by the thread with a depth above zero. */
  function Abstract(s: State): Atomic
    requires |s.pc| == |s.depth| && (s.mutex.Some? ==> s.mutex.value < |s.pc|)
  {
    match s.mutex
    case None => Free
    case Some(t) => if s.depth[t] > 0 then Held(t, s.depth[t]) else Free
  }

  /** The thread returns from a call that did not succeed. */
  predicate Failed(s: State, t: Tid, call: Call)
    requires t < |s.pc| == |s.depth|
  {
    !s.pc[t].Idle? && Next(s, t, call).Some? && Next(s, t, call).value.pc[t] == Idle(false)
  }

  /** On the way in without the lock yet, or on the way out without it any more. */
  predicate Passing(pc: PC) {
    pc.SetOwner? || pc.SetCount? || pc.TestDown? || pc.Release?
  }

  /** Every step either changes nothing in the atomic lock, or is its enter by the thread that
    then returns from a lock call, or its leave by the thread in an unlock call. A call fails
    exactly when it is a try that finds the system mutex with another thread; that one has the
    lock, or it is on its way in or out and the lock is free. */
  lemma StepRefines(s: State, t: Tid, call: Call)
    requires Inv(s) && t < |s.pc| && Next(s, t, call).Some?
    ensures Inv(Next(s, t, call).value)
    ensures var a, b := Abstract(s), Abstract(Next(s, t, call).value);
      match s.pc[t]
      case WriteMine(_) => Enter(a, t) == Some(b)
      case SetCount => Enter(a, t) == Some(b)
      case WriteDown(_) => Leave(a, t) == Some(b)
      case _ => a == b
    ensures Failed(s, t, call) <==> s.pc[t] == Acquire(true) && s.mutex.Some? && s.mutex.value != t
    ensures Failed(s, t, call) ==>
      Enter(Abstract(s), t) == None || (Abstract(s) == Free && Passing(s.pc[s.mutex.value]))
  {
    StepInv(s, t, call);
    if s.mutex != Some(t) {
      assert Outside(s, t);
    }
  }
}
