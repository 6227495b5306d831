/** A shared-memory block for every pool. */
module ScoreboardInit {
  import opened CNumbers
  import opened CText
  import opened Pools
  import opened Scoreboard
  import opened ShmLayout

  predicate Ready(wp: WorkerPool)
    reads wp`config, wp`scoreboard
  {
    wp.config.maxChildren >= 1 && wp.scoreboard == null
  }

  /** The block made for a pool: laid out, and in the state a run of updates starts from. */
  ghost predicate Made(wp: WorkerPool, b: Block, now: int)
    reads wp`config, wp`scoreboard, b, b.procs, b.board
  {
    && wp.scoreboard == b && b.WellLaidOut() && b.lock == 0 && b.board.Value() == ZEROED
    && b.nprocs == wp.config.maxChildren && b.pm == wp.config.pmType && b.startEpoch == now
    && wp.config.name.Some? && b.pool == Take(wp.config.name.value, NAME_SIZE)
  }

  /** The block of one pool that is ready. */
  method InitPool(wp: WorkerPool, now: int)
    requires Ready(wp) && wp.config.maxChildren <= INT_MAX && wp.config.name.Some?
    modifies wp`scoreboard
    ensures wp.scoreboard != null && fresh(wp.scoreboard) && fresh(wp.scoreboard.procs) && fresh(wp.scoreboard.board)
    ensures Made(wp, wp.scoreboard, now)
  {
    wp.scoreboard := new Block(wp.config.maxChildren, wp.config.pmType, now, wp.config.name.value);
  }

  /** pmf_scoreboard_init_main, which gives up at the first pool that is not ready: the pools
      before it have their blocks, that one and the later ones are as they were. */
  method InitMain(reg: Registry, now: int) returns (ret: int, ghost done: nat)
    requires reg.Valid()
    requires forall i :: 0 <= i < |reg.list| ==>
               reg.list[i].config.maxChildren <= INT_MAX && reg.list[i].config.name.Some?
    modifies reg.list`scoreboard
    ensures reg.Valid()
    ensures done <= |reg.list| && (ret == if done < |reg.list| then -1 else 0)
    ensures forall i :: 0 <= i < done ==> old(Ready(reg.list[i]))
    ensures done < |reg.list| ==> !old(Ready(reg.list[done]))
    ensures forall i :: 0 <= i < done ==>
              var b := reg.list[i].scoreboard; b != null && fresh(b) && Made(reg.list[i], b, now)
    ensures forall i :: done <= i < |reg.list| ==> reg.list[i].scoreboard == old(reg.list[i].scoreboard)
  {
    hide Linked, Made;
    done := 0;
    HeadOfList(reg.all, reg.list);
    var wp := reg.all;
    while wp != null
      invariant 0 <= done <= |reg.list| && reg.Valid()
      invariant wp == if done < |reg.list| then reg.list[done] else null
      invariant forall j :: 0 <= j < done ==> old(Ready(reg.list[j]))
      invariant forall j :: 0 <= j < done ==>
                  var b := reg.list[j].scoreboard;
                  b != null && fresh(b) && fresh(b.procs) && fresh(b.board) && Made(reg.list[j], b, now)
      invariant forall j :: done <= j < |reg.list| ==> reg.list[j].scoreboard == old(reg.list[j].scoreboard)
      decreases |reg.list| - done
    {
      NextInList(reg.all, reg.list, done);
      if wp.config.maxChildren < 1 {
        return -1, done;
      }
      if wp.scoreboard != null {
        return -1, done;
      }
      InitPool(wp, now);
      wp := wp.next;
      done := done + 1;
    }
    return 0, done;
  }
}
