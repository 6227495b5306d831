/** What runs of scoreboard updates do to the counters. */
module ScoreboardLaws {
  import opened CNumbers
  import opened Scoreboard
  import opened ScoreboardSteps

  ghost predicate AllInc(us: seq<Update>) {
    forall i :: 0 <= i < |us| ==> us[i].action != SET
  }

  // Reflected counters.

  function Sum(ds: seq<int>): int {
    if ds == [] then 0 else Sum(ds[..|ds| - 1]) + ds[|ds| - 1]
  }

  /** The step-by-step clamping of the increment branch. */
  function Clamped(x: int, ds: seq<int>): int {
    if ds == [] then x
    else
      var y := Clamped(x, ds[..|ds| - 1]) + ds[|ds| - 1];
      if y > 0 then y else 0
  }

  /** The largest sum of a suffix of `ds`, the empty suffix included. */
  function MaxSuffix(ds: seq<int>): int {
    if ds == [] then 0 else Max(MaxSuffix(ds[..|ds| - 1]) + ds[|ds| - 1], 0)
  }

  lemma {:induction false} SumSplit(a: seq<int>, b: seq<int>)
    ensures Sum(a + b) == Sum(a) + Sum(b)
  {
    if b == [] {
      assert a + b == a;
    } else {
      assert (a + b)[..|a + b| - 1] == a + b[..|b| - 1];
      SumSplit(a, b[..|b| - 1]);
    }
  }

  lemma SuffixSum(ds: seq<int>, k: nat)
    requires k < |ds|
    ensures Sum(ds[k..]) == Sum(ds[..|ds| - 1][k..]) + ds[|ds| - 1]
  {
    assert ds[k..] == ds[..|ds| - 1][k..] + [ds[|ds| - 1]];
    SumSplit(ds[..|ds| - 1][k..], [ds[|ds| - 1]]);
    assert [ds[|ds| - 1]][..0] == [];
  }

  /** `MaxSuffix` is what its name says. */
  lemma {:induction false} MaxSuffixIsMax(ds: seq<int>)
    ensures forall k :: 0 <= k <= |ds| ==> Sum(ds[k..]) <= MaxSuffix(ds)
    ensures exists k :: 0 <= k <= |ds| && Sum(ds[k..]) == MaxSuffix(ds)
  {
    if ds == [] {
      assert ds[0..] == [];
    } else {
      var n, front, d := |ds|, ds[..|ds| - 1], ds[|ds| - 1];
      MaxSuffixIsMax(front);
      assert Sum(ds[n..]) == 0;
      forall k | 0 <= k < n
        ensures Sum(ds[k..]) == Sum(front[k..]) + d
      {
        SuffixSum(ds, k);
      }
      if MaxSuffix(front) + d > 0 {
        var k :| 0 <= k <= |front| && Sum(front[k..]) == MaxSuffix(front);
        assert Sum(ds[k..]) == MaxSuffix(ds);
      } else {
        assert Sum(ds[n..]) == MaxSuffix(ds);
      }
    }
  }

  /** Clamping at zero reflects: the result is the larger of start plus total and the largest
      suffix sum. */
  lemma {:induction false} Reflection(x: int, ds: seq<int>)
    requires x >= 0
    ensures Clamped(x, ds) == Max(x + Sum(ds), MaxSuffix(ds))
  {
    if ds == [] {
    } else {
      Reflection(x, ds[..|ds| - 1]);
    }
  }

  /** From a negative start the first clamp forgets the start unless the total outweighs it, so
      only suffixes that leave out the first delta count. */
  lemma {:induction false} ReflectionAnyStart(x: int, ds: seq<int>)
    requires ds != []
    ensures Clamped(x, ds) == Max(x + Sum(ds), MaxSuffix(ds[1..]))
  {
    if |ds| == 1 {
      assert ds[..0] == [] && ds[1..] == [];
    } else {
      var front := ds[..|ds| - 1];
      ReflectionAnyStart(x, front);
      assert ds[1..][..|ds| - 2] == front[1..];
    }
  }

  function Deltas(us: seq<Update>, sel: Update -> int): seq<int> {
    seq(|us|, i requires 0 <= i < |us| => sel(us[i]))
  }

  lemma DeltasFront(us: seq<Update>, sel: Update -> int)
    requires us != []
    ensures Deltas(us, sel)[..|us| - 1] == Deltas(us[..|us| - 1], sel)
    ensures Deltas(us, sel)[|us| - 1] == sel(us[|us| - 1])
  {
  }

  const IDLE_DELTA: Update -> int := (u: Update) => u.idle
  const ACTIVE_DELTA: Update -> int := (u: Update) => u.active
  const REQUESTS_DELTA: Update -> int := (u: Update) => u.requests
  const REACHED_DELTA: Update -> int := (u: Update) => u.reached
  const SLOW_DELTA: Update -> int := (u: Update) => u.slow

  lemma {:induction false} IncrementsClamp(b: Board, us: seq<Update>)
    requires AllInc(us)
    ensures UpdatedAll(b, us).idle == Clamped(b.idle, Deltas(us, IDLE_DELTA))
    ensures UpdatedAll(b, us).active == Clamped(b.active, Deltas(us, ACTIVE_DELTA))
  {
    if us == [] {
    } else {
      IncrementsClamp(b, us[..|us| - 1]);
      DeltasFront(us, IDLE_DELTA);
      DeltasFront(us, ACTIVE_DELTA);
    }
  }

  /** After any run of increments `idle` and `active` have their closed forms. */
  lemma ReflectedCounters(b: Board, us: seq<Update>)
    requires AllInc(us) && b.idle >= 0 && b.active >= 0
    ensures var c := UpdatedAll(b, us);
            && c.idle == Max(b.idle + Sum(Deltas(us, IDLE_DELTA)), MaxSuffix(Deltas(us, IDLE_DELTA)))
            && c.active == Max(b.active + Sum(Deltas(us, ACTIVE_DELTA)), MaxSuffix(Deltas(us, ACTIVE_DELTA)))
  {
    IncrementsClamp(b, us);
    Reflection(b.idle, Deltas(us, IDLE_DELTA));
    Reflection(b.active, Deltas(us, ACTIVE_DELTA));
  }

  /** The same for the running system, whenever the lock is free. */
  lemma ReflectedRun(s: System, run: seq<Action>)
    requires Start(s) && Possible(s, run) && Exec(s, run).lock == 0
    requires AllInc(Completed(s, run)) && s.board.idle >= 0 && s.board.active >= 0
    ensures var b, us := Exec(s, run).board, Completed(s, run);
            && b.idle == Max(s.board.idle + Sum(Deltas(us, IDLE_DELTA)), MaxSuffix(Deltas(us, IDLE_DELTA)))
            && b.active == Max(s.board.active + Sum(Deltas(us, ACTIVE_DELTA)), MaxSuffix(Deltas(us, ACTIVE_DELTA)))
  {
    hide Possible, Exec, Completed, UpdatedAll, Sum, Deltas, MaxSuffix;
    Serializable(s, run);
    ReflectedCounters(s.board, Completed(s, run));
  }

  // Peaks.

  /** The values a field had after each update. */
  function Trail(b: Board, us: seq<Update>, field: Board -> int): seq<int> {
    if us == [] then [] else Trail(b, us[..|us| - 1], field) + [field(UpdatedAll(b, us))]
  }

  /** The values `lq` had after each SET, the only action that touches it. */
  function LqTrail(b: Board, us: seq<Update>): seq<int> {
    if us == [] then []
    else LqTrail(b, us[..|us| - 1]) + if us[|us| - 1].action == SET then [UpdatedAll(b, us).lq] else []
  }

  ghost predicate IsMax(m: int, xs: seq<int>) {
    m in xs && forall i :: 0 <= i < |xs| ==> xs[i] <= m
  }

  const ACTIVE_OF: Board -> int := (b: Board) => b.active
  const LQ_OF: Board -> int := (b: Board) => b.lq

  lemma MaxExtended(m: int, xs: seq<int>, x: int)
    requires IsMax(m, xs)
    ensures IsMax(Max(x, m), xs + [x])
  {
    assert (xs + [x])[|xs|] == x;
    if x < m {
      var i :| 0 <= i < |xs| && xs[i] == m;
      assert (xs + [x])[i] == m;
    }
  }

  lemma MaxAlone(m: int)
    ensures IsMax(m, [m] + [])
  {
    assert ([m] + [])[0] == m;
  }

  /** From any board whatever, a peak is the largest of the peak recorded there and the values its
      gauge had after each update that touches it. */
  lemma {:induction false} ExactPeaksFrom(b: Board, us: seq<Update>)
    ensures IsMax(UpdatedAll(b, us).activeMax, [b.activeMax] + Trail(b, us, ACTIVE_OF))
    ensures IsMax(UpdatedAll(b, us).lqMax, [b.lqMax] + LqTrail(b, us))
  {
    hide IsMax;
    if us == [] {
      MaxAlone(b.activeMax);
      MaxAlone(b.lqMax);
    } else {
      var front, after := us[..|us| - 1], UpdatedAll(b, us);
      var before := UpdatedAll(b, front);
      ExactPeaksFrom(b, front);
      assert [b.activeMax] + Trail(b, us, ACTIVE_OF) == ([b.activeMax] + Trail(b, front, ACTIVE_OF)) + [after.active];
      MaxExtended(before.activeMax, [b.activeMax] + Trail(b, front, ACTIVE_OF), after.active);
      if us[|us| - 1].action == SET {
        assert [b.lqMax] + LqTrail(b, us) == ([b.lqMax] + LqTrail(b, front)) + [after.lq];
        MaxExtended(before.lqMax, [b.lqMax] + LqTrail(b, front), after.lq);
      } else {
        assert LqTrail(b, us) == LqTrail(b, front);
      }
    }
  }

  /** When the recorded peak is not below `lq` to begin with, it never is after a whole update, and it
      is the largest value `lq` had at all. */
  lemma {:induction false} LqPeak(b: Board, us: seq<Update>)
    requires b.lq <= b.lqMax
    ensures UpdatedAll(b, us).lq <= UpdatedAll(b, us).lqMax
    ensures IsMax(UpdatedAll(b, us).lqMax, [b.lqMax] + Trail(b, us, LQ_OF))
  {
    hide IsMax;
    if us == [] {
      MaxAlone(b.lqMax);
    } else {
      var front, after := us[..|us| - 1], UpdatedAll(b, us);
      LqPeak(b, front);
      assert [b.lqMax] + Trail(b, us, LQ_OF) == ([b.lqMax] + Trail(b, front, LQ_OF)) + [after.lq];
      MaxExtended(UpdatedAll(b, front).lqMax, [b.lqMax] + Trail(b, front, LQ_OF), after.lq);
    }
  }

  // Peaks in the middle of a call.

  /** The lock holder has passed the statement that records the peak of `active`. */
  predicate ActivePeakDone(x: Process)
    requires Inside(x)
  {
    x.pc >= |Program(x.u)|
  }

  /** It has passed the statement that records the peak of `lq`, or will not run it. */
  predicate LqPeakDone(x: Process)
    requires Inside(x)
  {
    x.u.action != SET || x.pc >= 5
  }

  lemma {:induction false} PartialActiveMax(b: Board, u: Update, pc: nat)
    requires pc < |Program(u)|
    ensures Partial(b, u, pc).activeMax == b.activeMax
  {
    hide Test, Rhs;
    if pc == 0 {
    } else {
      PartialActiveMax(b, u, pc - 1);
    }
  }

  /** What a statement other than `PeakLq` and `SetLq` leaves alone. */
  lemma LqUntouched(t: Stmt, b: Board, u: Update)
    ensures !t.PeakLq? ==> Ran(t, b, u).lqMax == b.lqMax
    ensures !t.SetLq? ==> Ran(t, b, u).lq == b.lq
  {
    hide Test, Rhs;
  }

  lemma {:induction false} PartialLq(b: Board, u: Update, pc: nat)
    requires pc <= |Program(u)|
    ensures u.action != SET ==> Partial(b, u, pc).lqMax == b.lqMax && Partial(b, u, pc).lq == b.lq
    ensures u.action == SET ==>
              && Partial(b, u, pc).lq == (if pc >= 3 then IfNonNegative(u.lq, b.lq) else b.lq)
              && Partial(b, u, pc).lqMax == if pc >= 5 then Max(IfNonNegative(u.lq, b.lq), b.lqMax) else b.lqMax
  {
    if pc == 0 {
    } else {
      PartialLq(b, u, pc - 1);
      LqUntouched(Program(u)[pc - 1], Partial(b, u, pc - 1), u);
    }
  }

  lemma PeaksUnlocked(us: seq<Update>)
    ensures var b := UpdatedAll(ZEROED, us);
            && IsMax(b.activeMax, [0] + Trail(ZEROED, us, ACTIVE_OF))
            && IsMax(b.lqMax, [0] + Trail(ZEROED, us, LQ_OF))
            && b.lq <= b.lqMax
  {
    ExactPeaksFrom(ZEROED, us);
    LqPeak(ZEROED, us);
  }

  lemma NotNegative(m: int, xs: seq<int>)
    requires IsMax(m, [0] + xs)
    ensures m >= 0
  {
    assert ([0] + xs)[0] == 0;
  }

  lemma PeaksMidway(us: seq<Update>, x: Process, board: Board)
    requires Inside(x) && us != [] && us[|us| - 1] == x.u
    requires Midway(UpdatedAll(ZEROED, us[..|us| - 1]), x, board)
    ensures IsMax(board.activeMax, [0] + Trail(ZEROED, if ActivePeakDone(x) then us else us[..|us| - 1], ACTIVE_OF))
    ensures IsMax(board.lqMax, [0] + Trail(ZEROED, if LqPeakDone(x) then us else us[..|us| - 1], LQ_OF))
    ensures board.lq > board.lqMax <==> x.u.action == SET && 3 <= x.pc < 5 && x.u.lq > board.lqMax
  {
    hide Program, IsMax, Test, Stores, Rhs, Partial, Trail;
    var front := us[..|us| - 1];
    var base := UpdatedAll(ZEROED, front);
    PeaksUnlocked(us);
    PeaksUnlocked(front);
    NotNegative(base.lqMax, Trail(ZEROED, front, LQ_OF));
    if ActivePeakDone(x) {
      ProgramIsUpdated(base, x.u);
    } else {
      PartialActiveMax(base, x.u, x.pc);
    }
    PartialLq(base, x.u, x.pc);
  }

  ghost predicate NonNegative(b: Board) {
    b.idle >= 0 && b.active >= 0
  }

  /** One statement keeps the gauges non-negative and lowers no peak. */
  lemma StatementKeeps(t: Stmt, b: Board, u: Update)
    requires NonNegative(b)
    ensures NonNegative(Ran(t, b, u))
    ensures Ran(t, b, u).activeMax >= b.activeMax && Ran(t, b, u).lqMax >= b.lqMax
  {
  }

  lemma {:induction false} PartialKeeps(b: Board, u: Update, pc: nat)
    requires NonNegative(b) && pc <= |Program(u)|
    ensures NonNegative(Partial(b, u, pc))
    ensures Partial(b, u, pc).activeMax >= b.activeMax && Partial(b, u, pc).lqMax >= b.lqMax
  {
    hide Program;
    if pc == 0 {
    } else {
      PartialKeeps(b, u, pc - 1);
      StatementKeeps(Program(u)[pc - 1], Partial(b, u, pc - 1), u);
    }
  }

  lemma {:induction false} UpdatedAllKeeps(b: Board, us: seq<Update>)
    requires NonNegative(b)
    ensures NonNegative(UpdatedAll(b, us))
    ensures UpdatedAll(b, us).activeMax >= b.activeMax && UpdatedAll(b, us).lqMax >= b.lqMax
  {
    if us == [] {
    } else {
      UpdatedAllKeeps(b, us[..|us| - 1]);
    }
  }

  /** Every reachable state of the running system, also in the middle of a call: the gauges are
      never negative, and no single step lowers a peak. */
  lemma GaugesAndPeaks(s: System, run: seq<Action>, a: Action)
    requires Start(s) && Possible(s, run) && NonNegative(s.board)
    requires Enabled(Exec(s, run), a)
    ensures NonNegative(Exec(s, run).board)
    ensures Step(Exec(s, run), a).board.activeMax >= Exec(s, run).board.activeMax
    ensures Step(Exec(s, run), a).board.lqMax >= Exec(s, run).board.lqMax
  {
    hide Program, Test, Stores, Rhs, Write, UpdatedAll, Partial;
    var t, acquired := Exec(s, run), Acquired(s, run);
    var holder := RunKeepsInvariant(s, run);
    if t.lock == 0 {
      UpdatedAllKeeps(s.board, acquired);
    } else {
      var base, x := UpdatedAll(s.board, acquired[..|acquired| - 1]), t.procs[holder];
      UpdatedAllKeeps(s.board, acquired[..|acquired| - 1]);
      PartialKeeps(base, x.u, x.pc);
      if a == Move(holder) && x.Storing? {
        StatementKeeps(Program(x.u)[x.pc], t.board, x.u);
      }
    }
  }

  /** From zeroed memory, in every reachable state: the peaks are the maxima of zero and the values the
      gauges had after each call that has got so far as to record its peak. Only the process that holds
      the lock, between storing a new `lq` and recording it, makes `lq` exceed its peak. */
  lemma ExactPeaks(s: System, run: seq<Action>)
    requires Start(s) && Possible(s, run) && s.board == ZEROED
    ensures var t, us := Exec(s, run), Completed(s, run);
            t.lock == 0 ==>
              && IsMax(t.board.activeMax, [0] + Trail(ZEROED, us, ACTIVE_OF))
              && IsMax(t.board.lqMax, [0] + Trail(ZEROED, us, LQ_OF))
              && t.board.lq <= t.board.lqMax
    ensures var t := Exec(s, run);
            forall p :: p in t.procs && Inside(t.procs[p]) ==>
              var x := t.procs[p];
              && IsMax(t.board.activeMax,
                       [0] + Trail(ZEROED, if ActivePeakDone(x) then Acquired(s, run) else Completed(s, run),
                                   ACTIVE_OF))
              && IsMax(t.board.lqMax,
                       [0] + Trail(ZEROED, if LqPeakDone(x) then Acquired(s, run) else Completed(s, run), LQ_OF))
              && (t.board.lq > t.board.lqMax <==> x.u.action == SET && 3 <= x.pc < 5 && x.u.lq > t.board.lqMax)
  {
    hide Midway, UpdatedAll, IsMax, Trail, Program, Partial, ActivePeakDone, LqPeakDone;
    var holder := RunKeepsInvariant(s, run);
    var t, acquired := Exec(s, run), Acquired(s, run);
    if t.lock == 0 {
      PeaksUnlocked(acquired);
    } else {
      PeaksMidway(acquired, t.procs[holder], t.board);
    }
  }

  // Types.

  /** Every call has int arguments and meets a board on which its signed sums do not overflow. */
  ghost predicate WithoutOverflow(b: Board, us: seq<Update>) {
    forall i :: 0 <= i < |us| ==> IntArguments(us[i]) && NoOverflow(UpdatedAll(b, us[..i]), us[i])
  }

  lemma StatementTyped(t: Stmt, b: Board, u: Update)
    requires WellTyped(b) && IntArguments(u)
    requires t.IncIdle? ==> IsInt(b.idle + u.idle)
    requires t.IncActive? ==> IsInt(b.active + u.active)
    ensures WellTyped(Ran(t, b, u))
  {
    hide UnsignedSum;
  }

  /** Each increment reads its gauge before any other statement of the call has touched it. */
  lemma IncrementReads(b: Board, u: Update, pc: nat)
    requires pc < |Program(u)|
    ensures Program(u)[pc].IncIdle? ==> u.action != SET && Partial(b, u, pc).idle == b.idle
    ensures Program(u)[pc].IncActive? ==> u.action != SET && Partial(b, u, pc).active == b.active
  {
    if u.action != SET && pc == 1 {
      assert Partial(b, u, 1) == Ran(IncIdle, Partial(b, u, 0), u);
    }
  }

  lemma {:induction false} PartialTyped(b: Board, u: Update, pc: nat)
    requires WellTyped(b) && IntArguments(u) && NoOverflow(b, u) && pc <= |Program(u)|
    ensures WellTyped(Partial(b, u, pc))
  {
    hide Program, Ran, WellTyped, IntArguments;
    if pc == 0 {
    } else {
      PartialTyped(b, u, pc - 1);
      IncrementReads(b, u, pc - 1);
      StatementTyped(Program(u)[pc - 1], Partial(b, u, pc - 1), u);
    }
  }

  lemma {:induction false} UpdatedAllTyped(b: Board, us: seq<Update>)
    requires WellTyped(b) && WithoutOverflow(b, us)
    ensures WellTyped(UpdatedAll(b, us))
    decreases |us|
  {
    hide Program, Updated, Partial, WellTyped, IntArguments, NoOverflow;
    if us == [] {
    } else {
      var front, u := us[..|us| - 1], us[|us| - 1];
      assert forall i :: 0 <= i < |front| ==> front[..i] == us[..i];
      UpdatedAllTyped(b, front);
      PartialTyped(UpdatedAll(b, front), u, |Program(u)|);
      ProgramIsUpdated(UpdatedAll(b, front), u);
    }
  }

  /** As long as the signed sums of the calls that got the lock do not overflow, every field is in
      the range of its C type in every reachable state, also in the middle of a call. */
  lemma FieldsStayTyped(s: System, run: seq<Action>)
    requires Start(s) && Possible(s, run) && WellTyped(s.board)
    requires WithoutOverflow(s.board, Acquired(s, run))
    ensures WellTyped(Exec(s, run).board)
  {
    hide Program, Test, Stores, Rhs, Write, UpdatedAll, Partial, WellTyped, IntArguments, NoOverflow;
    var t, acquired := Exec(s, run), Acquired(s, run);
    var holder := RunKeepsInvariant(s, run);
    if t.lock == 0 {
      UpdatedAllTyped(s.board, acquired);
    } else {
      var before := acquired[..|acquired| - 1];
      assert forall i :: 0 <= i < |before| ==> before[..i] == acquired[..i];
      UpdatedAllTyped(s.board, before);
      PartialTyped(UpdatedAll(s.board, before), t.procs[holder].u, t.procs[holder].pc);
    }
  }

  // Conservation.

  function Modulo(x: int, width: int): int
    requires width > 0
  {
    x % width
  }

  /** The step-by-step wrapping of an unsigned counter. */
  function Wrapped(x: int, ds: seq<int>, width: int): int
    requires width > 0
  {
    if ds == [] then x else Modulo(Wrapped(x, ds[..|ds| - 1], width) + ds[|ds| - 1], width)
  }

  lemma ModuloStep(x: int, d: int, width: int)
    requires width > 0
    ensures Modulo(Modulo(x, width) + d, width) == Modulo(x + d, width)
  {
    var y := x % width;
    assert d + y == y + d && d + x == x + d;
    WrappedSum(d, x, width);
  }

  lemma ModuloBelow(x: int, width: int)
    requires 0 <= x < width
    ensures Modulo(x, width) == x
  {
    RemainderUnique(x, 0, x, width);
  }

  lemma {:induction false} WrappedIsSum(x: int, ds: seq<int>, width: int)
    requires 0 <= x < width
    ensures Wrapped(x, ds, width) == Modulo(x + Sum(ds), width)
  {
    hide Modulo;
    if ds == [] {
      ModuloBelow(x, width);
    } else {
      var front, d := ds[..|ds| - 1], ds[|ds| - 1];
      WrappedIsSum(x, front, width);
      ModuloStep(x + Sum(front), d, width);
      assert x + Sum(front) + d == x + Sum(ds);
    }
  }

  lemma IncrementCounters(b: Board, u: Update)
    requires u.action != SET
    ensures Updated(b, u).requests == Modulo(b.requests + u.requests, ULONG)
    ensures Updated(b, u).slow == Modulo(b.slow + u.slow, ULONG)
    ensures Updated(b, u).reached == Modulo(b.reached + u.reached, UINT)
  {
  }

  lemma {:induction false} IncrementsWrap(b: Board, us: seq<Update>)
    requires AllInc(us)
    ensures var c := UpdatedAll(b, us);
            && c.requests == Wrapped(b.requests, Deltas(us, REQUESTS_DELTA), ULONG)
            && c.slow == Wrapped(b.slow, Deltas(us, SLOW_DELTA), ULONG)
            && c.reached == Wrapped(b.reached, Deltas(us, REACHED_DELTA), UINT)
  {
    hide Updated, Modulo;
    if us == [] {
    } else {
      IncrementsWrap(b, us[..|us| - 1]);
      IncrementCounters(UpdatedAll(b, us[..|us| - 1]), us[|us| - 1]);
      DeltasFront(us, REQUESTS_DELTA);
      DeltasFront(us, SLOW_DELTA);
      DeltasFront(us, REACHED_DELTA);
    }
  }

  /** A serial run of increments adds up modulo the width of each counter. */
  lemma IncrementsAdd(b: Board, us: seq<Update>)
    requires AllInc(us)
    requires 0 <= b.requests < ULONG && 0 <= b.slow < ULONG && 0 <= b.reached < UINT
    ensures var c := UpdatedAll(b, us);
            && c.requests == (b.requests + Sum(Deltas(us, REQUESTS_DELTA))) % ULONG
            && c.slow == (b.slow + Sum(Deltas(us, SLOW_DELTA))) % ULONG
            && c.reached == (b.reached + Sum(Deltas(us, REACHED_DELTA))) % UINT
  {
    hide UpdatedAll, Wrapped, Sum, Deltas;
    IncrementsWrap(b, us);
    WrappedIsSum(b.requests, Deltas(us, REQUESTS_DELTA), ULONG);
    WrappedIsSum(b.slow, Deltas(us, SLOW_DELTA), ULONG);
    WrappedIsSum(b.reached, Deltas(us, REACHED_DELTA), UINT);
  }

  lemma {:induction false} SumOfDeltas(us: seq<Update>, i: nat, sel: Update -> int)
    requires i < |us|
    ensures Sum(Deltas(us, sel)) == Sum(Deltas(us[..i] + us[i + 1..], sel)) + sel(us[i])
  {
    var a, b := Deltas(us[..i], sel), Deltas(us[i + 1..], sel);
    assert Deltas(us, sel) == (a + [sel(us[i])]) + b;
    assert Deltas(us[..i] + us[i + 1..], sel) == a + b;
    SumSplit(a + [sel(us[i])], b);
    SumSplit(a, [sel(us[i])]);
    SumSplit(a, b);
    assert [sel(us[i])][..0] == [];
  }

  lemma WithoutOne(us: seq<Update>, i: nat)
    requires i < |us|
    ensures multiset(us[..i] + us[i + 1..]) == multiset(us) - multiset{us[i]}
  {
    assert us == us[..i] + [us[i]] + us[i + 1..];
  }

  /** A total depends only on which calls there were, not on their order. */
  lemma {:induction false} SumOfPermutation(us: seq<Update>, vs: seq<Update>, sel: Update -> int)
    requires multiset(us) == multiset(vs)
    ensures Sum(Deltas(us, sel)) == Sum(Deltas(vs, sel))
    decreases |us|
  {
    hide Sum, Deltas;
    if us == [] {
      assert |multiset(vs)| == |vs|;
    } else {
      var u := us[0];
      assert u in multiset(us);
      var i :| 0 <= i < |vs| && vs[i] == u;
      var us', vs' := us[..0] + us[1..], vs[..i] + vs[i + 1..];
      WithoutOne(us, 0);
      WithoutOne(vs, i);
      SumOfPermutation(us', vs', sel);
      SumOfDeltas(us, 0, sel);
      SumOfDeltas(vs, i, sel);
    }
  }

  lemma IncOnly(us: seq<Update>, vs: seq<Update>)
    requires multiset(us) == multiset(vs) && AllInc(us)
    ensures AllInc(vs)
  {
    forall i | 0 <= i < |vs|
      ensures vs[i].action != SET
    {
      assert vs[i] in multiset(us);
    }
  }

  /** Whatever the schedule, the unsigned counters end at start plus all deltas, modulo their
      width; two runs that completed the same increments agree on them. */
  lemma CountersConserved(s: System, run: seq<Action>, run': seq<Action>)
    requires Start(s) && WellTyped(s.board)
    requires Possible(s, run) && Exec(s, run).lock == 0 && AllInc(Completed(s, run))
    requires Possible(s, run') && Exec(s, run').lock == 0
    requires multiset(Completed(s, run)) == multiset(Completed(s, run'))
    ensures var b, b', us := Exec(s, run).board, Exec(s, run').board, Completed(s, run);
            && b.requests == b'.requests == (s.board.requests + Sum(Deltas(us, REQUESTS_DELTA))) % ULONG
            && b.slow == b'.slow == (s.board.slow + Sum(Deltas(us, SLOW_DELTA))) % ULONG
            && b.reached == b'.reached == (s.board.reached + Sum(Deltas(us, REACHED_DELTA))) % UINT
  {
    hide Possible, Exec, Acquired, Completed, Updated, UpdatedAll, Sum, Deltas;
    var us, vs := Completed(s, run), Completed(s, run');
    Serializable(s, run);
    Serializable(s, run');
    IncOnly(us, vs);
    IncrementsAdd(s.board, us);
    IncrementsAdd(s.board, vs);
    SumOfPermutation(us, vs, REQUESTS_DELTA);
    SumOfPermutation(us, vs, SLOW_DELTA);
    SumOfPermutation(us, vs, REACHED_DELTA);
  }
}
