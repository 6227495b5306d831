/** Any number of processes updating one scoreboard under its compare-and-swap lock: one step
    is one CAS, one test, one computed right-hand side, one store to a field, or the release. */
module ScoreboardSteps {
  import opened CNumbers
  import opened Scoreboard

  /** The conditional statements of pmf_scoreboard_update, in program order. */
  datatype Stmt =
    | SetIdle | SetActive | SetLq | SetLqLen | PeakLq | SetRequests | SetReached | SetSlow
    | IncIdle | IncActive | IncRequests | IncReached | IncSlow
    | PeakActive

  const SET_BRANCH: seq<Stmt> := [SetIdle, SetActive, SetLq, SetLqLen, PeakLq, SetRequests, SetReached, SetSlow]
  const INC_BRANCH: seq<Stmt> := [IncIdle, IncActive, IncRequests, IncReached, IncSlow]

  function Program(u: Update): seq<Stmt> {
    (if u.action == SET then SET_BRANCH else INC_BRANCH) + [PeakActive]
  }

  /** The condition of a statement. */
  predicate Test(t: Stmt, b: Board, u: Update) {
    match t
    case SetIdle => u.idle >= 0
    case SetActive => u.active >= 0
    case SetLq => u.lq >= 0
    case SetLqLen => u.lqLen >= 0
    case PeakLq => b.lq > b.lqMax
    case SetRequests => u.requests >= 0
    case SetReached => u.reached >= 0
    case SetSlow => u.slow > 0
    case IncIdle => b.idle + u.idle > 0
    case IncActive => b.active + u.active > 0
    case IncRequests => UnsignedSum(b.requests, u.requests, ULONG) > 0
    case IncReached => UnsignedSum(b.reached, u.reached, UINT) > 0
    case IncSlow => UnsignedSum(b.slow, u.slow, ULONG) > 0
    case PeakActive => b.active > b.activeMax
  }

  /** Only the increments have an else branch, which stores 0. */
  predicate Stores(t: Stmt, taken: bool) {
    taken || t.IncIdle? || t.IncActive? || t.IncRequests? || t.IncReached? || t.IncSlow?
  }

  /** The value to be stored, read from the board once the condition is known. */
  function Rhs(t: Stmt, b: Board, u: Update, taken: bool): int {
    if !taken then 0
    else
      match t
      case SetIdle => u.idle
      case SetActive => u.active
      case SetLq => u.lq
      case SetLqLen => u.lqLen
      case PeakLq => b.lq
      case SetRequests => u.requests
      case SetReached => u.reached
      case SetSlow => u.slow
      case IncIdle => b.idle + u.idle
      case IncActive => b.active + u.active
      case IncRequests => UnsignedSum(b.requests, u.requests, ULONG)
      case IncReached => UnsignedSum(b.reached, u.reached, UINT)
      case IncSlow => UnsignedSum(b.slow, u.slow, ULONG)
      case PeakActive => b.active
  }

  /** The store to the statement's one field. */
  function Write(t: Stmt, b: Board, value: int): Board {
    match t
    case SetIdle => b.(idle := value)
    case SetActive => b.(active := value)
    case SetLq => b.(lq := value)
    case SetLqLen => b.(lqLen := value)
    case PeakLq => b.(lqMax := value)
    case SetRequests => b.(requests := value)
    case SetReached => b.(reached := value)
    case SetSlow => b.(slow := value)
    case IncIdle => b.(idle := value)
    case IncActive => b.(active := value)
    case IncRequests => b.(requests := value)
    case IncReached => b.(reached := value)
    case IncSlow => b.(slow := value)
    case PeakActive => b.(activeMax := value)
  }

  /** A process: outside the function, in the CAS loop, or at a point of the locked part with
      the locals it holds there. */
  datatype Process =
    | Outside
    | Spinning(u: Update)
    | Testing(u: Update, pc: nat)
    | Reading(u: Update, pc: nat, taken: bool)
    | Storing(u: Update, pc: nat, value: int)

  predicate Inside(p: Process) {
    p.Testing? || p.Reading? || p.Storing?
  }

  /** Shared memory and all processes. */
  datatype System = System(lock: int, board: Board, procs: map<nat, Process>)

  /** A process calls the function, or takes its next step. */
  datatype Action = Call(p: nat, u: Update) | Move(p: nat)

  /** The next step of process `p`, or None when it is outside or out of program. */
  function MoveOf(s: System, p: nat): (r: System)
    requires p in s.procs
    ensures r.procs.Keys == s.procs.Keys
  {
    match s.procs[p]
    case Outside => s
    case Spinning(u) =>
      // atomic_cmp_set(lock, 0, 1), else sched_yield and again
      if s.lock == 0 then s.(lock := 1, procs := s.procs[p := Testing(u, 0)]) else s
    case Testing(u, pc) =>
      if pc >= |Program(u)| then s.(lock := 0, procs := s.procs[p := Outside])
      else s.(procs := s.procs[p := Reading(u, pc, Test(Program(u)[pc], s.board, u))])
    case Reading(u, pc, taken) =>
      if pc >= |Program(u)| then s
      else if Stores(Program(u)[pc], taken)
      then s.(procs := s.procs[p := Storing(u, pc, Rhs(Program(u)[pc], s.board, u, taken))])
      else s.(procs := s.procs[p := Testing(u, pc + 1)])
    case Storing(u, pc, value) =>
      if pc >= |Program(u)| then s
      else s.(board := Write(Program(u)[pc], s.board, value), procs := s.procs[p := Testing(u, pc + 1)])
  }

  predicate Enabled(s: System, a: Action) {
    a.p in s.procs && (a.Call? ==> s.procs[a.p].Outside?)
  }

  function Step(s: System, a: Action): System
    requires Enabled(s, a)
  {
    match a
    case Call(p, u) => s.(procs := s.procs[p := Spinning(u)])
    case Move(p) => MoveOf(s, p)
  }

  /** A run is possible when each of its actions is enabled where it happens. */
  predicate Possible(s: System, run: seq<Action>)
    decreases |run|, 0
  {
    run == [] || (Possible(s, run[..|run| - 1]) && Enabled(Exec(s, run[..|run| - 1]), run[|run| - 1]))
  }

  function Exec(s: System, run: seq<Action>): System
    requires Possible(s, run)
    decreases |run|, 1
  {
    if run == [] then s else Step(Exec(s, run[..|run| - 1]), run[|run| - 1])
  }

  /** The action is a successful CAS. */
  predicate Acquires(s: System, a: Action) {
    a.Move? && a.p in s.procs && s.procs[a.p].Spinning? && s.lock == 0
  }

  /** The action is the store of 0 that ends a call. */
  predicate Releases(s: System, a: Action) {
    a.Move? && a.p in s.procs && s.procs[a.p].Testing? && s.procs[a.p].pc >= |Program(s.procs[a.p].u)|
  }

  /** The calls in lock-acquisition order. */
  function Acquired(s: System, run: seq<Action>): seq<Update>
    requires Possible(s, run)
  {
    if run == [] then []
    else
      var before, a := run[..|run| - 1], run[|run| - 1];
      var mid := Exec(s, before);
      Acquired(s, before) + if Acquires(mid, a) then [mid.procs[a.p].u] else []
  }

  /** The calls that have released the lock, in the order they did. */
  function Completed(s: System, run: seq<Action>): seq<Update>
    requires Possible(s, run)
  {
    if run == [] then []
    else
      var before, a := run[..|run| - 1], run[|run| - 1];
      var mid := Exec(s, before);
      Completed(s, before) + if Releases(mid, a) then [mid.procs[a.p].u] else []
  }

  // One call alone.

  /** A whole statement: test, right-hand side, store. */
  function Ran(t: Stmt, b: Board, u: Update): Board {
    var taken := Test(t, b, u);
    if Stores(t, taken) then Write(t, b, Rhs(t, b, u, taken)) else b
  }

  /** The first `pc` statements of a call. */
  function Partial(b: Board, u: Update, pc: nat): Board
    requires pc <= |Program(u)|
  {
    if pc == 0 then b else Ran(Program(u)[pc - 1], Partial(b, u, pc - 1), u)
  }

  lemma SetProgram(b: Board, u: Update)
    requires u.action == SET
    ensures Partial(b, u, |Program(u)|) == Updated(b, u)
  {
    hide UnsignedSum;
    var b4 := b.(idle := IfNonNegative(u.idle, b.idle), active := IfNonNegative(u.active, b.active),
                 lq := IfNonNegative(u.lq, b.lq), lqLen := IfNonNegative(u.lqLen, b.lqLen));
    assert Partial(b, u, 1) == b.(idle := IfNonNegative(u.idle, b.idle));
    assert Partial(b, u, 2) == Partial(b, u, 1).(active := IfNonNegative(u.active, b.active));
    assert Partial(b, u, 3) == Partial(b, u, 2).(lq := IfNonNegative(u.lq, b.lq));
    assert Partial(b, u, 4) == b4;
    assert Partial(b, u, 5) == b4.(lqMax := Max(b4.lq, b.lqMax));
    assert Partial(b, u, 6) == Partial(b, u, 5).(requests := IfNonNegative(u.requests, b.requests));
    assert Partial(b, u, 7) == Partial(b, u, 6).(reached := IfNonNegative(u.reached, b.reached));
    assert Partial(b, u, 8) == Assigned(b, u);
  }

  lemma IncProgram(b: Board, u: Update)
    requires u.action != SET
    ensures Partial(b, u, |Program(u)|) == Updated(b, u)
  {
    hide UnsignedSum;
    assert Partial(b, u, 1) == b.(idle := Max(b.idle + u.idle, 0));
    assert Partial(b, u, 2) == Partial(b, u, 1).(active := Max(b.active + u.active, 0));
    assert Partial(b, u, 3) == Partial(b, u, 2).(requests := (b.requests + u.requests) % ULONG);
    assert Partial(b, u, 4) == Partial(b, u, 3).(reached := (b.reached + u.reached) % UINT);
    assert Partial(b, u, 5) == Incremented(b, u);
  }

  /** Statement by statement, a call computes the whole update. */
  lemma ProgramIsUpdated(b: Board, u: Update)
    ensures Partial(b, u, |Program(u)|) == Updated(b, u)
  {
    if u.action == SET {
      SetProgram(b, u);
    } else {
      IncProgram(b, u);
    }
  }

  // The invariant of every reachable state.

  /** No process is past its CAS. */
  ghost predicate NobodyInside(s: System) {
    forall p :: p in s.procs ==> !Inside(s.procs[p])
  }

  ghost predicate OnlyInside(s: System, holder: nat) {
    && holder in s.procs && Inside(s.procs[holder])
    && forall p :: p in s.procs && p != holder ==> !Inside(s.procs[p])
  }

  /** The process holding the lock has run exactly `pc` statements of its call on `base`, and its
      locals are what the statement it is in would have read. */
  ghost predicate Midway(base: Board, x: Process, board: Board)
    requires Inside(x)
  {
    && x.pc <= |Program(x.u)|
    && board == Partial(base, x.u, x.pc)
    && (x.Reading? ==> x.pc < |Program(x.u)| && x.taken == Test(Program(x.u)[x.pc], board, x.u))
    && (x.Storing? ==>
          && x.pc < |Program(x.u)|
          && Stores(Program(x.u)[x.pc], Test(Program(x.u)[x.pc], board, x.u))
          && x.value == Rhs(Program(x.u)[x.pc], board, x.u, Test(Program(x.u)[x.pc], board, x.u)))
  }

  /** With the calls acquired so far: an unlocked board is those calls applied whole, a locked
      one is all but the last applied whole and the last one partly. */
  ghost predicate Invariant(b0: Board, s: System, acquired: seq<Update>, holder: nat) {
    if s.lock == 0 then
      NobodyInside(s) && s.board == UpdatedAll(b0, acquired)
    else
      && s.lock == 1 && OnlyInside(s, holder)
      && acquired != [] && acquired[|acquired| - 1] == s.procs[holder].u
      && Midway(UpdatedAll(b0, acquired[..|acquired| - 1]), s.procs[holder], s.board)
  }

  lemma HolderKeepsInvariant(b0: Board, s: System, acquired: seq<Update>, holder: nat)
    requires s.lock != 0 && Invariant(b0, s, acquired, holder)
    ensures Invariant(b0, MoveOf(s, holder), acquired, holder)
    ensures MoveOf(s, holder).lock == 0 <==> Releases(s, Move(holder))
  {
    hide Updated, Test, Stores, Rhs, Write, Program;
    var x, base := s.procs[holder], UpdatedAll(b0, acquired[..|acquired| - 1]);
    if x.Testing? && x.pc >= |Program(x.u)| {
      ProgramIsUpdated(base, x.u);
    }
  }

  lemma PartialStart(b: Board, u: Update)
    ensures Partial(b, u, 0) == b
  {
  }

  lemma StepKeepsInvariant(b0: Board, s: System, acquired: seq<Update>, holder: nat, a: Action) returns (holder': nat)
    requires Invariant(b0, s, acquired, holder) && Enabled(s, a)
    ensures Invariant(b0, Step(s, a), acquired + if Acquires(s, a) then [s.procs[a.p].u] else [], holder')
    ensures Step(s, a).lock == 0 <==> (s.lock == 0 && !Acquires(s, a)) || Releases(s, a)
    ensures Releases(s, a) ==> s.lock != 0 && a.p == holder && s.procs[a.p].u == acquired[|acquired| - 1]
  {
    hide Updated, Test, Stores, Rhs, Write, Program, Partial;
    holder' := holder;
    if a.Move? && s.lock != 0 && a.p == holder {
      HolderKeepsInvariant(b0, s, acquired, holder);
      assert acquired + [] == acquired;
    } else if Acquires(s, a) {
      holder' := a.p;
      var acquired' := acquired + [s.procs[a.p].u];
      assert acquired'[..|acquired'| - 1] == acquired;
      PartialStart(s.board, s.procs[a.p].u);
    } else {
      assert acquired + [] == acquired;
    }
  }

  /** A start state: the lock free and no process in the middle of a call. */
  ghost predicate Start(s: System) {
    s.lock == 0 && forall p :: p in s.procs ==> s.procs[p].Outside?
  }

  lemma {:induction false} RunKeepsInvariant(s: System, run: seq<Action>) returns (holder: nat)
    requires Start(s) && Possible(s, run)
    ensures Invariant(s.board, Exec(s, run), Acquired(s, run), holder)
    ensures Completed(s, run) ==
            if Exec(s, run).lock == 0 then Acquired(s, run) else Acquired(s, run)[..|Acquired(s, run)| - 1]
    decreases |run|
  {
    hide Midway, Updated;
    if run == [] {
      holder := 0;
    } else {
      var before, a := run[..|run| - 1], run[|run| - 1];
      var h := RunKeepsInvariant(s, before);
      var mid, acquired := Exec(s, before), Acquired(s, before);
      holder := StepKeepsInvariant(s.board, mid, acquired, h, a);
      assert acquired + [] == acquired;
      if Acquires(mid, a) {
        var next := acquired + [mid.procs[a.p].u];
        assert next[..|next| - 1] == acquired;
      }
    }
  }

  /** At most one process is between acquiring and releasing the lock, in every reachable state;
      the lock word is 0 exactly when there is none. */
  lemma MutualExclusion(s: System, run: seq<Action>)
    requires Start(s) && Possible(s, run)
    ensures var t := Exec(s, run);
            && (forall p, q :: p in t.procs && q in t.procs && Inside(t.procs[p]) && Inside(t.procs[q]) ==> p == q)
            && (t.lock == 0 <==> NobodyInside(t))
            && (t.lock == 0 || t.lock == 1)
  {
    hide Midway;
    var holder := RunKeepsInvariant(s, run);
  }

  /** Every interleaving equals a serial run: whenever the lock is free, the board is the start
      board with the completed calls applied whole, one after another, in acquisition order. */
  lemma Serializable(s: System, run: seq<Action>)
    requires Start(s) && Possible(s, run)
    ensures var t := Exec(s, run);
            && Completed(s, run) <= Acquired(s, run)
            && |Acquired(s, run)| - |Completed(s, run)| == (if t.lock == 0 then 0 else 1)
            && (t.lock == 0 ==> t.board == UpdatedAll(s.board, Completed(s, run)))
  {
    hide Midway;
    var holder := RunKeepsInvariant(s, run);
  }
}
