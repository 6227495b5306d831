/** The configuration of one worker pool: its check and its normal form. */
module PoolConfig {
  import opened CText
  import opened Sockets

  /** PMF_BACKLOG_DEFAULT */
  const BACKLOG_DEFAULT: int := 511
  /** process_priority when it is not set */
  const UNSET: int := 64

  const STATIC: int := 1
  const DYNAMIC: int := 2
  const ONDEMAND: int := 3

  datatype Config = Config(
    name: Option<string>, user: Option<string>, group: Option<string>, listen: Option<string>,
    backlog: int, priority: int, dumpable: int, pmType: int, maxChildren: int, startServers: int,
    minSpare: int, maxSpare: int, idleTimeout: int, maxRequests: int)

  /** What pmf_worker_pool_config_alloc fills in. */
  const DEFAULTS := Config(None, None, None, None, BACKLOG_DEFAULT, UNSET, 0, 0, 0, 0, 0, 0, 10, 0)

  predicate HasAddress(c: Config) {
    c.listen.Some? && c.listen.value != ""
  }

  function CheckedDynamic(c: Config): Option<Config> {
    if c.minSpare <= 0 || c.maxSpare <= 0 then None
    else if c.minSpare > c.maxChildren || c.maxSpare > c.maxChildren then None
    else if c.maxSpare < c.minSpare then None
    else if c.startServers <= 0 then Some(c.(startServers := c.minSpare + (c.maxSpare - c.minSpare) / 2))
    else if c.startServers < c.minSpare || c.startServers > c.maxSpare then None
    else Some(c)
  }

  function CheckedOndemand(c: Config, edge: bool): Option<Config> {
    if !edge || c.idleTimeout < 1 then None
    else Some(c.(backlog := if c.backlog < BACKLOG_DEFAULT then BACKLOG_DEFAULT else c.backlog,
                 startServers := 0, minSpare := 0, maxSpare := 0))
  }

  /** The body of the loop of pmf_conf_process_all_pools on one pool; `edge` says whether the
      event mechanism supports edge triggering. None is the -1 exit. */
  function Checked(c: Config, edge: bool): Option<Config> {
    if !HasAddress(c) then None
    else if DomainOf(c.listen.value) == AF_UNIX && c.listen.value[0] != '/' then None
    else if c.priority != UNSET && (c.priority < -19 || c.priority > 20) then None
    else if c.pmType != STATIC && c.pmType != DYNAMIC && c.pmType != ONDEMAND then None
    else if c.maxChildren < 1 then None
    else if c.pmType == DYNAMIC then CheckedDynamic(c)
    else if c.pmType == ONDEMAND then CheckedOndemand(c, edge)
    else Some(c)
  }

  /** An address with a colon, one of digits only, or an absolute path. */
  ghost predicate Listens(c: Config) {
    && c.listen.Some? && c.listen.value != ""
    && var a := c.listen.value;
       ':' in a || (forall i :: 0 <= i < |a| ==> '0' <= a[i] <= '9') || a[0] == '/'
  }

  /** What a pool that may run looks like. */
  ghost predicate Runnable(c: Config, edge: bool) {
    && Listens(c)
    && (c.priority == 64 || -19 <= c.priority <= 20)
    && c.maxChildren >= 1
    && (c.pmType == DYNAMIC ==> 1 <= c.minSpare <= c.startServers <= c.maxSpare <= c.maxChildren)
    && (c.pmType == ONDEMAND ==>
          c.startServers == 0 && c.minSpare == 0 && c.maxSpare == 0
          && c.backlog >= 511 && c.idleTimeout >= 1 && edge)
    && (c.pmType == STATIC || c.pmType == DYNAMIC || c.pmType == ONDEMAND)
  }

  /** Exactly the configurations that are accepted. */
  lemma AcceptedIff(c: Config, edge: bool)
    ensures Checked(c, edge).Some? <==>
            && Listens(c)
            && (c.priority == 64 || -19 <= c.priority <= 20)
            && c.maxChildren >= 1
            && (|| c.pmType == STATIC
                || (c.pmType == DYNAMIC && 1 <= c.minSpare <= c.maxSpare <= c.maxChildren
                    && (c.startServers <= 0 || c.minSpare <= c.startServers <= c.maxSpare))
                || (c.pmType == ONDEMAND && edge && c.idleTimeout >= 1))
  {
    if HasAddress(c) {
      AddressKinds(c.listen.value);
    }
  }

  /** The two numbers the check fills in: as many servers to start as lie halfway between the spare
      limits, rounded down, and the smallest backlog allowed. */
  ghost predicate FilledIn(c: Config, d: Config) {
    && (c.pmType == DYNAMIC && c.startServers <= 0 ==>
          0 <= (d.maxSpare - d.startServers) - (d.startServers - d.minSpare) <= 1)
    && (c.pmType == DYNAMIC && c.startServers > 0 ==> d.startServers == c.startServers)
    && (c.pmType == ONDEMAND ==> d.backlog == if c.backlog >= 511 then c.backlog else 511)
    && (c.pmType != ONDEMAND ==> d.backlog == c.backlog && d.minSpare == c.minSpare && d.maxSpare == c.maxSpare)
  }

  lemma CheckedFillsIn(c: Config, edge: bool)
    requires Checked(c, edge).Some?
    ensures FilledIn(c, Checked(c, edge).value)
  {
  }

  /** The check yields only runnable pools, and changes nothing but the numbers that its
      process manager leaves free. */
  lemma CheckedIsRunnable(c: Config, edge: bool)
    requires Checked(c, edge).Some?
    ensures var d := Checked(c, edge).value;
            && Runnable(d, edge)
            && d == c.(startServers := d.startServers, minSpare := d.minSpare, maxSpare := d.maxSpare,
                     backlog := d.backlog)
            && (c.pmType == STATIC ==> d == c)
            && (c.pmType == DYNAMIC ==>
                  d == c.(startServers := d.startServers) && (c.startServers > 0 ==> d == c))
  {
    AddressKinds(c.listen.value);
  }

  /** A pool is accepted as it stands exactly when it is runnable already. */
  lemma AcceptedUnchangedIff(c: Config, edge: bool)
    ensures Checked(c, edge) == Some(c) <==> Runnable(c, edge)
  {
    if HasAddress(c) {
      AddressKinds(c.listen.value);
    }
  }

  /** Checking what was checked changes nothing. */
  lemma CheckedTwice(c: Config, edge: bool)
    requires Checked(c, edge).Some?
    ensures Checked(Checked(c, edge).value, edge) == Checked(c, edge)
  {
    CheckedIsRunnable(c, edge);
    AcceptedUnchangedIff(Checked(c, edge).value, edge);
  }

  /** The pools in list order: how many pass before the first that fails, and the configurations
      afterwards. */
  function CheckedAll(cs: seq<Config>, edge: bool): (r: (nat, seq<Config>))
    ensures r.0 <= |cs| == |r.1|
  {
    if cs == [] then (0, [])
    else
      match Checked(cs[0], edge)
      case None => (0, cs)
      case Some(c) =>
        var (n, rest) := CheckedAll(cs[1..], edge);
        (n + 1, [c] + rest)
  }

  /** What one pass over the list does to every pool in it. */
  lemma {:induction false} PassOverList(cs: seq<Config>, edge: bool)
    ensures var (n, ds) := CheckedAll(cs, edge);
            && (forall i :: 0 <= i < n ==> Checked(cs[i], edge) == Some(ds[i]) && Runnable(ds[i], edge))
            && (n < |cs| ==> Checked(cs[n], edge) == None)
            && ds[n..] == cs[n..]
  {
    if cs == [] || Checked(cs[0], edge).None? {
    } else {
      CheckedIsRunnable(cs[0], edge);
      PassOverList(cs[1..], edge);
      var (n, rest) := CheckedAll(cs[1..], edge);
      var ds := CheckedAll(cs, edge).1;
      assert ds[n + 1..] == rest[n..] && cs[n + 1..] == cs[1..][n..];
    }
  }

  /** Those facts determine the outcome. */
  lemma {:induction false} PassDetermined(cs: seq<Config>, edge: bool, n: nat, ds: seq<Config>)
    requires n <= |cs| == |ds|
    requires forall i :: 0 <= i < n ==> Checked(cs[i], edge) == Some(ds[i])
    requires n < |cs| ==> Checked(cs[n], edge) == None
    requires ds[n..] == cs[n..]
    ensures CheckedAll(cs, edge) == (n, ds)
  {
    if n == 0 {
      assert ds[0..] == ds && cs[0..] == cs;
    } else {
      assert ds[1..][n - 1..] == ds[n..] && cs[1..][n - 1..] == cs[n..];
      PassDetermined(cs[1..], edge, n - 1, ds[1..]);
      assert ds == [ds[0]] + ds[1..];
    }
  }

  /** After a pass that accepted every pool, a second one accepts them all and changes nothing. */
  lemma {:induction false} SecondPass(cs: seq<Config>, edge: bool)
    requires CheckedAll(cs, edge).0 == |cs|
    ensures var ds := CheckedAll(cs, edge).1; CheckedAll(ds, edge) == (|cs|, ds)
  {
    if cs == [] {
    } else {
      CheckedTwice(cs[0], edge);
      SecondPass(cs[1..], edge);
      var ds := CheckedAll(cs, edge).1;
      assert ds[1..] == CheckedAll(cs[1..], edge).1;
    }
  }
}
