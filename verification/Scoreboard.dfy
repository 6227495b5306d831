/** The pool scoreboard: its fields with their C types, and pmf_scoreboard_update. */
module Scoreboard {
  import opened CNumbers

  /** PMF_SCOREBOARD_ACTION_SET; any other action takes the increment branch. */
  const SET: int := 0

  /** Conversion of an int operand to the unsigned type of the other operand. */
  function ToUnsigned(x: int, width: int): (r: int)
    requires width > 0
    ensures 0 <= r < width
    ensures 0 <= x < width ==> r == x
  {
    x % width
  }

  lemma Scaled(width: int, d: int)
    requires width > 0
    ensures d > 0 ==> width * d >= width
    ensures d < 0 ==> width * d <= -width
  {
  }

  lemma RemainderUnique(x: int, k: int, r: int, width: int)
    requires width > 0 && 0 <= r < width && x == width * k + r
    ensures x % width == r
  {
    var d := x / width - k;
    assert width * d == r - x % width;
    Scaled(width, d);
  }

  lemma MultipleVanishes(x: int, q: int, width: int)
    requires width > 0
    ensures (x + width * q) % width == x % width
  {
    var r, k := x % width, x / width;
    assert x + width * q == width * (k + q) + r;
    RemainderUnique(x + width * q, k + q, r, width);
  }

  lemma WrappedSum(x: int, d: int, width: int)
    requires width > 0
    ensures (x + d % width) % width == (x + d) % width
  {
    var q := d / width;
    assert x + d == x + d % width + width * q;
    MultipleVanishes(x + d % width, q, width);
  }

  /** `unsigned + int`: the int is converted, the sum wraps. */
  function UnsignedSum(x: int, d: int, width: int): (r: int)
    requires width > 0
    ensures r == (x + d) % width && 0 <= r < width
  {
    WrappedSum(x, d, width);
    (x + ToUnsigned(d, width)) % width
  }

  /** The counters of a scoreboard. `idle` to `lqMax` are signed, the rest unsigned. */
  datatype Board = Board(
    idle: int, active: int, activeMax: int, lq: int, lqMax: int,
    lqLen: int, requests: int, reached: int, slow: int)

  const ZEROED := Board(0, 0, 0, 0, 0, 0, 0, 0, 0)

  ghost predicate WellTyped(b: Board) {
    && IsInt(b.idle) && IsInt(b.active) && IsInt(b.activeMax) && IsInt(b.lq) && IsInt(b.lqMax)
    && 0 <= b.lqLen < UINT && 0 <= b.reached < UINT
    && 0 <= b.requests < ULONG && 0 <= b.slow < ULONG
  }

  /** The arguments of one call. */
  datatype Update = Update(
    idle: int, active: int, lq: int, lqLen: int, requests: int, reached: int, slow: int, action: int)

  ghost predicate IntArguments(u: Update) {
    && IsInt(u.idle) && IsInt(u.active) && IsInt(u.lq) && IsInt(u.lqLen)
    && IsInt(u.requests) && IsInt(u.reached) && IsInt(u.slow)
  }

  function Max(x: int, y: int): int {
    if x < y then y else x
  }

  function IfNonNegative(x: int, other: int): int {
    if x >= 0 then x else other
  }

  function Assigned(b: Board, u: Update): Board {
    var lq := IfNonNegative(u.lq, b.lq);
    b.(idle := IfNonNegative(u.idle, b.idle), active := IfNonNegative(u.active, b.active),
       lq := lq, lqMax := Max(lq, b.lqMax), lqLen := IfNonNegative(u.lqLen, b.lqLen),
       requests := IfNonNegative(u.requests, b.requests), reached := IfNonNegative(u.reached, b.reached),
       slow := if u.slow > 0 then u.slow else b.slow)
  }

  function Incremented(b: Board, u: Update): Board {
    b.(idle := Max(b.idle + u.idle, 0), active := Max(b.active + u.active, 0),
       requests := (b.requests + u.requests) % ULONG, reached := (b.reached + u.reached) % UINT,
       slow := (b.slow + u.slow) % ULONG)
  }

  /** The effect of one whole call. */
  function Updated(b: Board, u: Update): Board {
    var c := if u.action == SET then Assigned(b, u) else Incremented(b, u);
    c.(activeMax := Max(c.active, c.activeMax))
  }

  function UpdatedAll(b: Board, us: seq<Update>): Board {
    if us == [] then b else Updated(UpdatedAll(b, us[..|us| - 1]), us[|us| - 1])
  }

  /** The two signed sums of the increment branch do not overflow. */
  ghost predicate NoOverflow(b: Board, u: Update) {
    u.action != SET ==> IsInt(b.idle + u.idle) && IsInt(b.active + u.active)
  }

  class SharedBoard {
    var idle: int
    var active: int
    var activeMax: int
    var lq: int
    var lqMax: int
    var lqLen: int
    var requests: int
    var reached: int
    var slow: int

    function Value(): Board
      reads this
    {
      Board(idle, active, activeMax, lq, lqMax, lqLen, requests, reached, slow)
    }

    /** Zeroed memory. */
    constructor ()
      ensures Value() == ZEROED
    {
      idle, active, activeMax, lq, lqMax, lqLen, requests, reached, slow := 0, 0, 0, 0, 0, 0, 0, 0, 0;
    }

    method AssignTotals(u: Update)
      requires IntArguments(u)
      modifies `requests, `reached, `slow
      ensures requests == if u.requests >= 0 then u.requests else old(requests)
      ensures reached == if u.reached >= 0 then u.reached else old(reached)
      ensures slow == if u.slow > 0 then u.slow else old(slow)
    {
      hide ToUnsigned;
      if u.requests >= 0 {
        requests := ToUnsigned(u.requests, ULONG);
      }
      if u.reached >= 0 {
        reached := ToUnsigned(u.reached, UINT);
      }
      if u.slow > 0 {
        slow := ToUnsigned(u.slow, ULONG);
      }
    }

    /** The first four assignments of the SET branch and the peak of `lq`. */
    method AssignGauges(u: Update)
      requires IntArguments(u)
      modifies `idle, `active, `lq, `lqLen, `lqMax
      ensures idle == if u.idle >= 0 then u.idle else old(idle)
      ensures active == if u.active >= 0 then u.active else old(active)
      ensures lq == if u.lq >= 0 then u.lq else old(lq)
      ensures lqLen == if u.lqLen >= 0 then u.lqLen else old(lqLen)
      ensures lqMax == if lq > old(lqMax) then lq else old(lqMax)
    {
      hide ToUnsigned;
      if u.idle >= 0 {
        idle := u.idle;
      }
      if u.active >= 0 {
        active := u.active;
      }
      if u.lq >= 0 {
        lq := u.lq;
      }
      if u.lqLen >= 0 {
        lqLen := ToUnsigned(u.lqLen, UINT);
      }
      if lq > lqMax {
        lqMax := lq;
      }
    }

    /** The assignments of the SET branch: negative arguments leave a field alone. */
    method Assign(u: Update)
      requires WellTyped(Value()) && IntArguments(u)
      modifies this
      ensures Value() == Assigned(old(Value()), u) && WellTyped(Value())
    {
      AssignGauges(u);
      AssignTotals(u);
    }

    /** The increment branch: two clamped signed sums, three wrapping unsigned ones. */
    method Increment(u: Update)
      requires WellTyped(Value()) && IntArguments(u)
      requires IsInt(idle + u.idle) && IsInt(active + u.active)
      modifies this
      ensures Value() == Incremented(old(Value()), u) && WellTyped(Value())
    {
      hide UnsignedSum;
      if idle + u.idle > 0 {
        idle := idle + u.idle;
      } else {
        idle := 0;
      }
      if active + u.active > 0 {
        active := active + u.active;
      } else {
        active := 0;
      }
      if UnsignedSum(requests, u.requests, ULONG) > 0 {
        requests := UnsignedSum(requests, u.requests, ULONG);
      } else {
        requests := 0;
      }
      if UnsignedSum(reached, u.reached, UINT) > 0 {
        reached := UnsignedSum(reached, u.reached, UINT);
      } else {
        reached := 0;
      }
      if UnsignedSum(slow, u.slow, ULONG) > 0 {
        slow := UnsignedSum(slow, u.slow, ULONG);
      } else {
        slow := 0;
      }
    }

    /** What pmf_scoreboard_update does between acquiring and releasing the lock. */
    method Apply(u: Update)
      requires WellTyped(Value()) && IntArguments(u) && NoOverflow(Value(), u)
      modifies this
      ensures Value() == Updated(old(Value()), u)
      ensures WellTyped(Value())
    {
      if u.action == SET {
        Assign(u);
      } else {
        Increment(u);
      }
      if active > activeMax {
        activeMax := active;
      }
    }
  }

  /** pmf_scoreboard_update with the lock held: a NULL board stands for the process's own, and
      without that one nothing happens. */
  method PmfScoreboardUpdate(u: Update, scoreboard: SharedBoard?, own: SharedBoard?)
    requires scoreboard != null ==> WellTyped(scoreboard.Value()) && NoOverflow(scoreboard.Value(), u)
    requires scoreboard == null && own != null ==> WellTyped(own.Value()) && NoOverflow(own.Value(), u)
    requires IntArguments(u)
    modifies if scoreboard != null then {scoreboard} else if own != null then {own} else {}
    ensures scoreboard != null ==> scoreboard.Value() == Updated(old(scoreboard.Value()), u)
    ensures scoreboard == null && own != null ==> own.Value() == Updated(old(own.Value()), u)
  {
    var board := if scoreboard != null then scoreboard else own;
    if board == null {
      return;
    }
    board.Apply(u);
  }
}
