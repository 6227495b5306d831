/** The shared-memory block of a pool: a header, a table of pointers, the process records. */
module ShmLayout {
  import opened CNumbers
  import opened CText
  import opened Scoreboard

  // Sizes of the LP64 data model.
  /** sizeof(PMF_SCOREBOARD_S), up to its flexible array. */
  const HEADER: nat := 120
  /** sizeof(PMF_SCOREBOARD_PROC_S *) */
  const ADDRESS: nat := 8
  /** sizeof(PMF_SCOREBOARD_PROC_S) */
  const RECORD: nat := 112
  /** sizeof of the pool name in the header */
  const NAME_SIZE: nat := 32

  /** Bytes `start` up to but not including `end` of the block. */
  datatype Region = Region(start: nat, end: nat)

  predicate Apart(a: Region, b: Region) {
    a.end <= b.start || b.end <= a.start
  }

  function HeaderRegion(): Region {
    Region(0, HEADER)
  }

  /** The pointer table of `n` processes. */
  function TableRegion(n: nat): Region {
    Region(HEADER, HEADER + n * ADDRESS)
  }

  function RecordRegion(offset: nat): Region {
    Region(offset, offset + RECORD)
  }

  /** Pointer table and records lie behind the header and inside the block, pairwise apart,
      aligned, and fill the block to its last byte. */
  ghost predicate LaidOut(size: nat, procs: seq<nat>) {
    && procs != []
    && Apart(HeaderRegion(), TableRegion(|procs|))
    && (forall i :: 0 <= i < |procs| ==>
          && RecordRegion(procs[i]).end <= size && procs[i] % 8 == 0
          && Apart(HeaderRegion(), RecordRegion(procs[i]))
          && Apart(TableRegion(|procs|), RecordRegion(procs[i])))
    && (forall i, j :: 0 <= i < j < |procs| ==> Apart(RecordRegion(procs[i]), RecordRegion(procs[j])))
    && RecordRegion(procs[|procs| - 1]).end == size
  }

  lemma RecordInside(n: nat, i: nat)
    requires i < n
    ensures var o := HEADER + n * ADDRESS + i * RECORD;
            && RecordRegion(o).end <= HEADER + n * ADDRESS + RECORD * n && o % 8 == 0
            && Apart(HeaderRegion(), RecordRegion(o)) && Apart(TableRegion(n), RecordRegion(o))
            && Apart(HeaderRegion(), TableRegion(n))
            && (i == n - 1 ==> RecordRegion(o).end == HEADER + n * ADDRESS + RECORD * n)
  {
    assert HEADER + n * ADDRESS + i * RECORD == 8 * (15 + n + 14 * i);
  }

  lemma RecordsApart(base: nat, i: nat, j: nat)
    requires i < j
    ensures Apart(RecordRegion(base + i * RECORD), RecordRegion(base + j * RECORD))
  {
  }

  /** The addresses the loop computes are such a layout, for every number of processes. */
  lemma AdvancingPointerLaysOut(n: nat, procs: seq<nat>)
    requires n == |procs| >= 1
    requires forall i :: 0 <= i < n ==> procs[i] == HEADER + n * ADDRESS + i * RECORD
    ensures LaidOut(HEADER + n * ADDRESS + RECORD * n, procs)
  {
    hide Apart, RecordRegion, TableRegion;
    forall i | 0 <= i < n
      ensures RecordRegion(procs[i]).end <= HEADER + n * ADDRESS + RECORD * n && procs[i] % 8 == 0
      ensures Apart(HeaderRegion(), RecordRegion(procs[i])) && Apart(TableRegion(n), RecordRegion(procs[i]))
    {
      RecordInside(n, i);
    }
    forall i, j | 0 <= i < j < n
      ensures Apart(RecordRegion(procs[i]), RecordRegion(procs[j]))
    {
      RecordsApart(HEADER + n * ADDRESS, i, j);
    }
    RecordInside(n, n - 1);
  }

  /** The block and where its pointers lead, as offsets into it. */
  class Block {
    const size: nat
    var lock: int
    const board: SharedBoard
    var nprocs: int
    var procs: array<nat>
    var pm: int
    var startEpoch: int
    var pool: string

    ghost predicate WellLaidOut()
      reads this, procs
    {
      nprocs == procs.Length && LaidOut(size, procs[..])
    }

    /** The mapping pmf_shm_alloc hands out is zeroed; the loop fills the table while the pointer
        advances. */
    constructor (maxChildren: int, pmType: int, now: int, name: string)
      requires 1 <= maxChildren <= INT_MAX
      ensures WellLaidOut() && fresh(procs) && fresh(board)
      ensures lock == 0 && board.Value() == ZEROED
      ensures nprocs == maxChildren && size < ULONG
      ensures pm == pmType && startEpoch == now && pool == Take(name, NAME_SIZE)
    {
      hide LaidOut;
      var scoreboardSize := HEADER + maxChildren * ADDRESS;
      var nprocsSize := RECORD * maxChildren;
      size := scoreboardSize + nprocsSize;
      lock := 0;
      board := new SharedBoard();
      nprocs := maxChildren;
      procs := new nat[maxChildren];
      pm := pmType;
      startEpoch := now;
      pool := Take(name, NAME_SIZE);
      new;
      var shmMem := scoreboardSize;
      var i := 0;
      while i < nprocs
        invariant 0 <= i <= nprocs == maxChildren == procs.Length
        invariant shmMem == scoreboardSize + i * RECORD
        invariant fresh(procs) && fresh(board) && lock == 0 && board.Value() == ZEROED
        invariant pm == pmType && startEpoch == now && pool == Take(name, NAME_SIZE)
        invariant forall j :: 0 <= j < i ==> procs[j] == scoreboardSize + j * RECORD
      {
        procs[i] := shmMem;
        i, shmMem := i + 1, shmMem + RECORD;
      }
      AdvancingPointerLaysOut(maxChildren, procs[..]);
    }
  }

  // Where the sizes come from.

  /** The next multiple of `align`, which is 1, 4 or 8. */
  function Aligned(offset: nat, align: nat): nat {
    if align == 8 then (offset + 7) / 8 * 8 else if align == 4 then (offset + 3) / 4 * 4 else offset
  }

  /** The end of a member of that size and alignment placed behind `offset`. */
  function Behind(offset: nat, size: nat, align: nat): nat {
    Aligned(offset, align) + size
  }

  /** sizeof(PMF_SCOREBOARD_S), member by member in front of its flexible array. */
  function HeaderEnd(): nat {
    var lock := Behind(0, 16, 8);
    var pool := Behind(lock, NAME_SIZE, 1);
    var pm := Behind(pool, 4, 4);
    var startEpoch := Behind(pm, 8, 8);
    var idle := Behind(startEpoch, 4, 4);
    var active := Behind(idle, 4, 4);
    var activeMax := Behind(active, 4, 4);
    var requests := Behind(activeMax, 8, 8);
    var maxChildrenReached := Behind(requests, 4, 4);
    var lq := Behind(maxChildrenReached, 4, 4);
    var lqMax := Behind(lq, 4, 4);
    var lqLen := Behind(lqMax, 4, 4);
    var nprocs := Behind(lqLen, 4, 4);
    var freeProc := Behind(nprocs, 4, 4);
    var slowRq := Behind(freeProc, 8, 8);
    Aligned(slowRq, 8)
  }

  /** sizeof(PMF_SCOREBOARD_PROC_S), member by member. */
  function RecordEnd(): nat {
    var lock := Behind(0, 16, 8);
    var used := Behind(lock, 4, 4);
    var startEpoch := Behind(used, 8, 8);
    var pid := Behind(startEpoch, 4, 4);
    var requests := Behind(pid, 8, 8);
    var accepted := Behind(requests, 16, 8);
    var duration := Behind(accepted, 16, 8);
    var acceptedEpoch := Behind(duration, 8, 8);
    var tv := Behind(acceptedEpoch, 16, 8);
    var memory := Behind(tv, 8, 8);
    Aligned(memory, 8)
  }

  lemma HeaderOffsets()
    ensures Behind(0, 16, 8) == 16 && Behind(16, 32, 1) == 48 && Behind(48, 4, 4) == 52 && Behind(52, 8, 8) == 64
    ensures Behind(64, 4, 4) == 68 && Behind(68, 4, 4) == 72 && Behind(72, 4, 4) == 76 && Behind(76, 8, 8) == 88
    ensures Behind(88, 4, 4) == 92 && Behind(92, 4, 4) == 96 && Behind(96, 4, 4) == 100 && Behind(100, 4, 4) == 104
    ensures Behind(104, 4, 4) == 108 && Behind(108, 4, 4) == 112 && Behind(112, 8, 8) == 120 && Aligned(120, 8) == 120
  {
  }

  lemma FirstRecordOffsets()
    ensures Behind(0, 16, 8) == 16 && Behind(16, 4, 4) == 20 && Behind(20, 8, 8) == 32 && Behind(32, 4, 4) == 36
    ensures Behind(36, 8, 8) == 48 && Behind(48, 16, 8) == 64
  {
  }

  lemma LastRecordOffsets()
    ensures Behind(64, 16, 8) == 80 && Behind(80, 8, 8) == 88
    ensures Behind(88, 16, 8) == 104 && Behind(104, 8, 8) == 112 && Aligned(112, 8) == 112
  {
  }

  /** The sizes the layout uses are those of the two structs. */
  lemma Sizes()
    ensures HeaderEnd() == HEADER == 120 && RecordEnd() == RECORD == 112
  {
    hide Behind, Aligned;
    HeaderOffsets();
    FirstRecordOffsets();
    LastRecordOffsets();
  }
}
