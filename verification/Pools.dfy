/** The linked list of worker pools. */
module Pools {
  import opened CText
  import opened Sockets
  import opened PoolConfig
  import opened ShmLayout

  class WorkerPool {
    var next: WorkerPool?
    var config: Config
    var domain: int
    var idleRate: int
    var scoreboard: Block?

    /** pmf_worker_pool_alloc */
    constructor ()
      ensures next == null && config == DEFAULTS && domain == 0 && idleRate == 1 && scoreboard == null
    {
      next, config, domain, idleRate, scoreboard := null, DEFAULTS, 0, 1, null;
    }
  }

  /** The nodes from `head` along `next` are exactly those of `list`, in order. */
  ghost predicate Linked(head: WorkerPool?, list: seq<WorkerPool>)
    reads list`next
  {
    && head == (if list == [] then null else list[0])
    && (forall i :: 0 <= i < |list| ==> list[i].next == if i + 1 < |list| then list[i + 1] else null)
    && (forall i, j :: 0 <= i < j < |list| ==> list[i] != list[j])
  }

  lemma NextInList(head: WorkerPool?, list: seq<WorkerPool>, i: nat)
    requires Linked(head, list) && i < |list|
    ensures list[i].next == if i + 1 < |list| then list[i + 1] else null
    ensures forall j :: 0 <= j < |list| && j != i ==> list[j] != list[i]
  {
  }

  lemma HeadOfList(head: WorkerPool?, list: seq<WorkerPool>)
    requires Linked(head, list)
    ensures head == if list == [] then null else list[0]
  {
  }

  ghost function ConfigsOf(list: seq<WorkerPool>): (cs: seq<Config>)
    reads list`config
    ensures |cs| == |list| && forall i :: 0 <= i < |list| ==> cs[i] == list[i].config
  {
    if list == [] then [] else ConfigsOf(list[..|list| - 1]) + [list[|list| - 1].config]
  }

  /** The address family kept beside the configuration is that of its address. */
  ghost predicate DomainSet(wp: WorkerPool)
    reads wp
  {
    HasAddress(wp.config) && wp.domain == DomainOf(wp.config.listen.value)
  }

  method CheckDynamic(wp: WorkerPool) returns (ok: bool)
    modifies wp`config
    ensures ok <==> CheckedDynamic(old(wp.config)).Some?
    ensures wp.config == if ok then CheckedDynamic(old(wp.config)).value else old(wp.config)
  {
    var config := wp.config;
    if config.minSpare <= 0 {
      return false;
    }
    if config.maxSpare <= 0 {
      return false;
    }
    if config.minSpare > config.maxChildren || config.maxSpare > config.maxChildren {
      return false;
    }
    if config.maxSpare < config.minSpare {
      return false;
    }
    if config.startServers <= 0 {
      wp.config := config.(startServers := config.minSpare + (config.maxSpare - config.minSpare) / 2);
    } else if config.startServers < config.minSpare || config.startServers > config.maxSpare {
      return false;
    }
    return true;
  }

  method CheckOndemand(wp: WorkerPool, edge: bool) returns (ok: bool)
    modifies wp`config
    ensures ok <==> CheckedOndemand(old(wp.config), edge).Some?
    ensures wp.config == if ok then CheckedOndemand(old(wp.config), edge).value else old(wp.config)
  {
    if !edge {
      return false;
    }
    if wp.config.idleTimeout < 1 {
      return false;
    }
    if wp.config.backlog < BACKLOG_DEFAULT {
      wp.config := wp.config.(backlog := BACKLOG_DEFAULT);
    }
    wp.config := wp.config.(startServers := 0);
    wp.config := wp.config.(minSpare := 0);
    wp.config := wp.config.(maxSpare := 0);
    return true;
  }

  /** One turn of that loop: false is the -1 exit. */
  method CheckPool(wp: WorkerPool, edge: bool) returns (ok: bool)
    modifies wp`config, wp`domain
    ensures ok <==> Checked(old(wp.config), edge).Some?
    ensures wp.config == if ok then Checked(old(wp.config), edge).value else old(wp.config)
    ensures ok ==> DomainSet(wp)
    ensures wp.domain == if HasAddress(wp.config) then DomainOf(wp.config.listen.value) else old(wp.domain)
  {
    hide DomainOf;
    if HasAddress(wp.config) {
      wp.domain := DomainOf(wp.config.listen.value);
      if wp.domain == AF_UNIX && wp.config.listen.value[0] != '/' {
        return false;
      }
    } else {
      return false;
    }
    if wp.config.priority != UNSET && (wp.config.priority < -19 || wp.config.priority > 20) {
      return false;
    }
    if wp.config.pmType != STATIC && wp.config.pmType != DYNAMIC && wp.config.pmType != ONDEMAND {
      return false;
    }
    if wp.config.maxChildren < 1 {
      return false;
    }
    if wp.config.pmType == DYNAMIC {
      ok := CheckDynamic(wp);
    } else if wp.config.pmType == ONDEMAND {
      ok := CheckOndemand(wp, edge);
    } else {
      ok := true;
    }
  }

  /** The globals pmf_worker_all_pools and current_wp. */
  class Registry {
    var all: WorkerPool?
    var current: WorkerPool?
    ghost var list: seq<WorkerPool>

    ghost predicate Valid()
      reads this, list`next
    {
      Linked(all, list)
    }

    ghost function Configs(): seq<Config>
      reads this, list`config
    {
      ConfigsOf(list)
    }

    constructor ()
      ensures Valid() && list == []
    {
      all, current, list := null, null, [];
    }

    /** The walk to the pool without a successor. */
    method LastPool() returns (tmp: WorkerPool)
      requires Valid() && all != null
      ensures list != [] && tmp == list[|list| - 1]
    {
      tmp := all;
      ghost var i := 0;
      while tmp.next != null
        invariant 0 <= i < |list| && tmp == list[i]
        decreases |list| - i
      {
        NextInList(all, list, i);
        tmp := tmp.next;
        i := i + 1;
      }
      NextInList(all, list, i);
    }

    /** pmf_worker_pool_config_alloc: a pool with default settings at the end of the list. */
    method ConfigAlloc() returns (wp: WorkerPool)
      requires Valid()
      modifies this, list`next
      ensures Valid() && fresh(wp) && list == old(list) + [wp] && current == wp
      ensures Configs() == old(Configs()) + [DEFAULTS]
    {
      hide ConfigsOf;
      wp := new WorkerPool();
      if all == null {
        all := wp;
      } else {
        var tmp := LastPool();
        tmp.next := wp;
      }
      list := list + [wp];
      current := wp;
      assert Configs() == old(Configs()) + [DEFAULTS];
    }

    /** pmf_conf_process_all_pools. `done` pools pass before the first that fails. */
    method ProcessAllPools(edge: bool) returns (ret: int, ghost done: nat)
      requires Valid()
      modifies list`config, list`domain
      ensures Valid()
      ensures (done, Configs()) == CheckedAll(old(Configs()), edge)
      ensures ret == if list != [] && done == |list| then 0 else -1
      ensures forall i :: 0 <= i < done ==> DomainSet(list[i])
      ensures forall i :: done < i < |list| ==> list[i].domain == old(list[i].domain)
    {
      hide Checked, CheckedAll, DomainSet, ConfigsOf, Linked;
      done := 0;
      HeadOfList(all, list);
      if all == null {
        assert Configs() == [];
        return -1, 0;
      }
      var wp := all;
      ghost var cs := Configs();
      while wp != null
        invariant 0 <= done <= |list| && Valid()
        invariant wp == if done < |list| then list[done] else null
        invariant forall j :: 0 <= j < done ==> Checked(cs[j], edge) == Some(list[j].config) && DomainSet(list[j])
        invariant forall j :: done <= j < |list| ==> list[j].config == cs[j] && list[j].domain == old(list[j].domain)
        decreases |list| - done
      {
        NextInList(all, list, done);
        var ok := CheckPool(wp, edge);
        if !ok {
          assert Configs()[done..] == cs[done..];
          PassDetermined(cs, edge, done, Configs());
          return -1, done;
        }
        wp := wp.next;
        done := done + 1;
      }
      PassDetermined(cs, edge, done, Configs());
      return 0, done;
    }
  }
}
