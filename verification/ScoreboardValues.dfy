/** What each counter holds after any mix of assignments and increments. */
module ScoreboardValues {
  import opened CNumbers
  import opened Scoreboard
  import opened ScoreboardSteps
  import opened ScoreboardLaws

  /** The argument of the last assigning call (action 0) whose argument is at least `least`, or
      `start` when there is none. */
  function LastStored(us: seq<Update>, arg: Update -> int, least: int, start: int): int {
    if us == [] then start
    else
      var front, u := us[..|us| - 1], us[|us| - 1];
      if u.action == 0 && arg(u) >= least then arg(u) else LastStored(front, arg, least, start)
  }

  /** The arguments of the increments behind that call, or of all of them when there is none. */
  function AddedSince(us: seq<Update>, arg: Update -> int, least: int): seq<int> {
    if us == [] then []
    else
      var front, u := us[..|us| - 1], us[|us| - 1];
      if u.action != 0 then AddedSince(front, arg, least) + [arg(u)]
      else if arg(u) >= least then []
      else AddedSince(front, arg, least)
  }

  const IDLE_ARG: Update -> int := (u: Update) => u.idle
  const ACTIVE_ARG: Update -> int := (u: Update) => u.active
  const LQ_ARG: Update -> int := (u: Update) => u.lq
  const LQ_LEN_ARG: Update -> int := (u: Update) => u.lqLen
  const REQUESTS_ARG: Update -> int := (u: Update) => u.requests
  const REACHED_ARG: Update -> int := (u: Update) => u.reached
  const SLOW_ARG: Update -> int := (u: Update) => u.slow

  /** The two queue fields are only ever assigned. */
  lemma {:induction false} QueueFields(b: Board, us: seq<Update>)
    ensures UpdatedAll(b, us).lq == LastStored(us, LQ_ARG, 0, b.lq)
    ensures UpdatedAll(b, us).lqLen == LastStored(us, LQ_LEN_ARG, 0, b.lqLen)
  {
    hide ToUnsigned;
    if us == [] {
    } else {
      QueueFields(b, us[..|us| - 1]);
    }
  }

  lemma ClampedSnoc(x: int, ds: seq<int>, d: int)
    ensures Clamped(x, ds + [d]) == Max(Clamped(x, ds) + d, 0)
  {
    assert (ds + [d])[..|ds + [d]| - 1] == ds;
  }

  lemma WrappedSnoc(x: int, ds: seq<int>, d: int, width: int)
    requires width > 0
    ensures Wrapped(x, ds + [d], width) == Modulo(Wrapped(x, ds, width) + d, width)
  {
    assert (ds + [d])[..|ds + [d]| - 1] == ds;
  }

  lemma NothingClamped(x: int)
    ensures Clamped(x, []) == x
  {
  }

  /** The gauges: the last assignment, clamped step by step by the increments since. */
  lemma {:induction false} GaugesClamp(b: Board, us: seq<Update>)
    ensures UpdatedAll(b, us).idle == Clamped(LastStored(us, IDLE_ARG, 0, b.idle), AddedSince(us, IDLE_ARG, 0))
    ensures UpdatedAll(b, us).active == Clamped(LastStored(us, ACTIVE_ARG, 0, b.active), AddedSince(us, ACTIVE_ARG, 0))
  {
    hide Clamped;
    if us == [] {
      NothingClamped(b.idle);
      NothingClamped(b.active);
    } else {
      var front, u := us[..|us| - 1], us[|us| - 1];
      GaugesClamp(b, front);
      NothingClamped(u.idle);
      NothingClamped(u.active);
      ClampedSnoc(LastStored(front, IDLE_ARG, 0, b.idle), AddedSince(front, IDLE_ARG, 0), u.idle);
      ClampedSnoc(LastStored(front, ACTIVE_ARG, 0, b.active), AddedSince(front, ACTIVE_ARG, 0), u.active);
    }
  }

  lemma NothingWrapped(x: int, width: int)
    requires width > 0
    ensures Wrapped(x, [], width) == x
  {
  }

  lemma {:induction false} StoredIsNonNegative(us: seq<Update>, arg: Update -> int, least: int, start: int)
    requires least >= 0 && start >= 0
    ensures LastStored(us, arg, least, start) >= 0
  {
    if us == [] {
    } else {
      StoredIsNonNegative(us[..|us| - 1], arg, least, start);
    }
  }

  lemma {:induction false} StoredIsBelow(us: seq<Update>, arg: Update -> int, least: int, start: int, width: int)
    requires start < width
    requires forall i :: 0 <= i < |us| ==> arg(us[i]) < width
    ensures LastStored(us, arg, least, start) < width
  {
    if us == [] {
    } else {
      StoredIsBelow(us[..|us| - 1], arg, least, start, width);
    }
  }

  lemma TotalsStep(b: Board, u: Update)
    ensures u.action == 0 ==>
              && Updated(b, u).requests == (if u.requests >= 0 then u.requests else b.requests)
              && Updated(b, u).reached == (if u.reached >= 0 then u.reached else b.reached)
              && Updated(b, u).slow == (if u.slow >= 1 then u.slow else b.slow)
  {
  }

  /** The totals: the last assignment, wrapped step by step by the increments since. */
  lemma {:induction false} TotalsWrap(b: Board, us: seq<Update>)
    ensures UpdatedAll(b, us).requests ==
            Wrapped(LastStored(us, REQUESTS_ARG, 0, b.requests), AddedSince(us, REQUESTS_ARG, 0), ULONG)
    ensures UpdatedAll(b, us).reached ==
            Wrapped(LastStored(us, REACHED_ARG, 0, b.reached), AddedSince(us, REACHED_ARG, 0), UINT)
    ensures UpdatedAll(b, us).slow ==
            Wrapped(LastStored(us, SLOW_ARG, 1, b.slow), AddedSince(us, SLOW_ARG, 1), ULONG)
  {
    hide Wrapped, Modulo, Updated;
    if us == [] {
      NothingWrapped(b.requests, ULONG);
      NothingWrapped(b.reached, UINT);
      NothingWrapped(b.slow, ULONG);
    } else {
      var front, u := us[..|us| - 1], us[|us| - 1];
      var before := UpdatedAll(b, front);
      TotalsWrap(b, front);
      if u.action == 0 {
        TotalsStep(before, u);
        NothingWrapped(u.requests, ULONG);
        NothingWrapped(u.reached, UINT);
        NothingWrapped(u.slow, ULONG);
      } else {
        IncrementCounters(before, u);
        WrappedSnoc(LastStored(front, REQUESTS_ARG, 0, b.requests), AddedSince(front, REQUESTS_ARG, 0),
                    u.requests, ULONG);
        WrappedSnoc(LastStored(front, REACHED_ARG, 0, b.reached), AddedSince(front, REACHED_ARG, 0), u.reached, UINT);
        WrappedSnoc(LastStored(front, SLOW_ARG, 1, b.slow), AddedSince(front, SLOW_ARG, 1), u.slow, ULONG);
      }
    }
  }

  /** The value of a gauge: the last argument assigned plus all increments since, but no less than the
      largest sum of the last increments. */
  function Gauge(us: seq<Update>, arg: Update -> int, start: int): int {
    var stored, added := LastStored(us, arg, 0, start), AddedSince(us, arg, 0);
    Max(stored + Sum(added), MaxSuffix(added))
  }

  /** The value of a total: the last argument assigned plus all increments since, reduced once. */
  function Total(us: seq<Update>, arg: Update -> int, least: int, start: int, width: int): int
    requires width > 0
  {
    (LastStored(us, arg, least, start) + Sum(AddedSince(us, arg, least))) % width
  }

  lemma TotalIs(us: seq<Update>, arg: Update -> int, least: int, start: int, width: int)
    requires 0 <= start < width && least >= 0
    requires forall i :: 0 <= i < |us| ==> arg(us[i]) < width
    ensures Wrapped(LastStored(us, arg, least, start), AddedSince(us, arg, least), width) ==
            Total(us, arg, least, start, width)
  {
    hide Wrapped, Sum, LastStored, AddedSince;
    StoredIsNonNegative(us, arg, least, start);
    StoredIsBelow(us, arg, least, start, width);
    WrappedIsSum(LastStored(us, arg, least, start), AddedSince(us, arg, least), width);
  }

  ghost predicate AllInt(us: seq<Update>) {
    forall i :: 0 <= i < |us| ==> IntArguments(us[i])
  }

  /** Every field in closed form, over any serial run of calls. */
  lemma ClosedForms(b: Board, us: seq<Update>)
    requires WellTyped(b) && AllInt(us) && b.idle >= 0 && b.active >= 0
    ensures var c := UpdatedAll(b, us);
            && c.lq == LastStored(us, LQ_ARG, 0, b.lq)
            && c.lqLen == LastStored(us, LQ_LEN_ARG, 0, b.lqLen)
            && c.idle == Gauge(us, IDLE_ARG, b.idle)
            && c.active == Gauge(us, ACTIVE_ARG, b.active)
            && c.requests == Total(us, REQUESTS_ARG, 0, b.requests, 0x1_0000_0000_0000_0000)
            && c.slow == Total(us, SLOW_ARG, 1, b.slow, 0x1_0000_0000_0000_0000)
            && c.reached == Total(us, REACHED_ARG, 0, b.reached, 0x1_0000_0000)
  {
    hide UpdatedAll, Clamped, Wrapped, Total, Sum, MaxSuffix, LastStored, AddedSince;
    QueueFields(b, us);
    GaugesClamp(b, us);
    TotalsWrap(b, us);
    StoredIsNonNegative(us, IDLE_ARG, 0, b.idle);
    StoredIsNonNegative(us, ACTIVE_ARG, 0, b.active);
    Reflection(LastStored(us, IDLE_ARG, 0, b.idle), AddedSince(us, IDLE_ARG, 0));
    Reflection(LastStored(us, ACTIVE_ARG, 0, b.active), AddedSince(us, ACTIVE_ARG, 0));
    TotalIs(us, REQUESTS_ARG, 0, b.requests, ULONG);
    TotalIs(us, SLOW_ARG, 1, b.slow, ULONG);
    TotalIs(us, REACHED_ARG, 0, b.reached, UINT);
  }

  /** The same for any number of processes, whenever the lock is free. */
  lemma ClosedFormsOfRun(s: System, run: seq<Action>)
    requires Start(s) && Possible(s, run) && Exec(s, run).lock == 0
    requires WellTyped(s.board) && s.board.idle >= 0 && s.board.active >= 0 && AllInt(Completed(s, run))
    ensures var b, c, us := s.board, Exec(s, run).board, Completed(s, run);
            && c.lq == LastStored(us, LQ_ARG, 0, b.lq)
            && c.lqLen == LastStored(us, LQ_LEN_ARG, 0, b.lqLen)
            && c.idle == Gauge(us, IDLE_ARG, b.idle)
            && c.active == Gauge(us, ACTIVE_ARG, b.active)
            && c.requests == Total(us, REQUESTS_ARG, 0, b.requests, 0x1_0000_0000_0000_0000)
            && c.slow == Total(us, SLOW_ARG, 1, b.slow, 0x1_0000_0000_0000_0000)
            && c.reached == Total(us, REACHED_ARG, 0, b.reached, 0x1_0000_0000)
  {
    hide Possible, Exec, Acquired, Completed, UpdatedAll, Gauge, Total, LastStored, AllInt, WellTyped;
    Serializable(s, run);
    ClosedForms(s.board, Completed(s, run));
  }
}
