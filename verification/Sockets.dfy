/** Closing the listening sockets that no pool uses. */
module Sockets {
  import opened CText
  import opened PmfArray

  const AF_UNIX: int := 1
  const AF_INET: int := 2

  /** pmf_sockets_domain_from_address: with a colon, or all digits, it is an internet address. */
  function DomainOf(address: string): int {
    if IndexOf(address, ':') < |address| || (forall i :: 0 <= i < |address| ==> IsDigit(address[i]))
    then AF_INET
    else AF_UNIX
  }

  /** A text with a colon, or of digits only, is an internet address and every other a unix one. */
  lemma AddressKinds(address: string)
    ensures DomainOf(address) == AF_INET <==>
            ':' in address || forall i :: 0 <= i < |address| ==> '0' <= address[i] <= '9'
    ensures DomainOf(address) == AF_INET || DomainOf(address) == AF_UNIX
  {
  }

  datatype Socket = Socket(refcount: int, sock: int, kind: int, key: string)

  /** What the loop does to the outside world. */
  datatype Event = Close(sock: int) | Unlink(path: string)

  /** The list the loop leaves when it stands at index `i`. */
  function Kept(s: seq<Socket>, i: nat): seq<Socket>
    requires i <= |s|
    decreases |s| - i
  {
    if i == |s| then s
    else if s[i].refcount == 0 then Kept(SwapRemove(s, i), i)
    else Kept(s, i + 1)
  }

  /** The entries it still closes, in that order. */
  function Closed(s: seq<Socket>, i: nat): seq<Socket>
    requires i <= |s|
    decreases |s| - i
  {
    if i == |s| then []
    else if s[i].refcount == 0 then [s[i]] + Closed(SwapRemove(s, i), i)
    else Closed(s, i + 1)
  }

  /** Closing an entry closes its descriptor and removes the file of a unix socket. */
  function EventsOfOne(x: Socket): seq<Event> {
    [Close(x.sock)] + if x.kind == AF_UNIX then [Unlink(x.key)] else []
  }

  function EventsOf(closed: seq<Socket>): seq<Event> {
    if closed == [] then [] else EventsOfOne(closed[0]) + EventsOf(closed[1..])
  }

  lemma EventsOfCons(events: seq<Event>, x: Socket, rest: seq<Socket>)
    ensures (events + EventsOfOne(x)) + EventsOf(rest) == events + EventsOf([x] + rest)
  {
    hide EventsOfOne;
    assert ([x] + rest)[1..] == rest;
  }

  lemma NoEvents()
    ensures EventsOf([]) == []
  {
  }

  /** The loop at the end of pmf_sockets_init_main; `events` is its trace. */
  method CloseUnused(list: Array<Socket>) returns (events: seq<Event>)
    requires list.Valid()
    modifies list`usedNum, list.data
    ensures list.Valid()
    ensures list.Contents() == Kept(old(list.Contents()), 0)
    ensures events == EventsOf(Closed(old(list.Contents()), 0))
  {
    hide EventsOf;
    var i := 0;
    events := [];
    ghost var s := list.Contents();
    ghost var all := EventsOf(Closed(s, 0));
    while i < list.usedNum
      invariant list.Valid() && list.data == old(list.data) && list.allocatedNum == old(list.allocatedNum)
      invariant 0 <= i <= list.usedNum
      invariant Kept(list.Contents(), i) == Kept(s, 0)
      invariant events + EventsOf(Closed(list.Contents(), i)) == all
      decreases list.usedNum - i
    {
      var ls := list.data[i];
      ghost var now := list.Contents();
      assert now[i] == ls;
      if ls.refcount == 0 {
        EventsOfCons(events, ls, Closed(SwapRemove(now, i), i));
        if ls.kind == AF_UNIX {
          events := events + [Close(ls.sock), Unlink(ls.key)];
        } else {
          events := events + [Close(ls.sock)];
        }
        var _ := list.RemoveItem(i);
      } else {
        i := i + 1;
      }
    }
    NoEvents();
    assert events + [] == events;
  }

  // What the loop achieves, although removal moves the last entry into the current slot.

  lemma RemovedCount(s: seq<Socket>, i: nat, x: Socket)
    requires i < |s|
    ensures multiset(SwapRemove(s, i)[..i])[x] == multiset(s[..i])[x]
    ensures multiset(s[i..])[x] == multiset(SwapRemove(s, i)[i..])[x] + if x == s[i] then 1 else 0
  {
    SwapRemoveCounts(s, i);
    assert s[i..][0] == s[i];
  }

  lemma PassedCount(s: seq<Socket>, i: nat, x: Socket)
    requires i < |s|
    ensures multiset(s[..i + 1])[x] == multiset(s[..i])[x] + if x == s[i] then 1 else 0
    ensures multiset(s[i..])[x] == multiset(s[i + 1..])[x] + if x == s[i] then 1 else 0
  {
    assert s[i..] == [s[i]] + s[i + 1..];
    assert s[..i + 1] == s[..i] + [s[i]];
  }

  lemma {:induction false} KeptCounts(s: seq<Socket>, i: nat, x: Socket)
    requires i <= |s|
    ensures multiset(Kept(s, i))[x] == multiset(s[..i])[x] + if x.refcount != 0 then multiset(s[i..])[x] else 0
    decreases |s| - i
  {
    hide SwapRemove;
    if i == |s| {
      assert s[..i] == s;
    } else if s[i].refcount == 0 {
      RemovedCount(s, i, x);
      KeptCounts(SwapRemove(s, i), i, x);
    } else {
      PassedCount(s, i, x);
      KeptCounts(s, i + 1, x);
    }
  }

  lemma {:induction false} ClosedCounts(s: seq<Socket>, i: nat, x: Socket)
    requires i <= |s|
    ensures multiset(Closed(s, i))[x] == if x.refcount == 0 then multiset(s[i..])[x] else 0
    decreases |s| - i
  {
    hide SwapRemove;
    if i < |s| && s[i].refcount == 0 {
      RemovedCount(s, i, x);
      ClosedCounts(SwapRemove(s, i), i, x);
    } else if i < |s| {
      PassedCount(s, i, x);
      ClosedCounts(s, i + 1, x);
    }
  }

  /** Exactly the entries in use are kept and exactly the unused ones are closed, each as
      often as it occurs. */
  lemma Compaction(s: seq<Socket>)
    ensures forall x :: multiset(Kept(s, 0))[x] == if x.refcount != 0 then multiset(s)[x] else 0
    ensures forall x :: multiset(Closed(s, 0))[x] == if x.refcount == 0 then multiset(s)[x] else 0
  {
    assert s[..0] == [] && s[0..] == s;
    forall x
      ensures multiset(Kept(s, 0))[x] == if x.refcount != 0 then multiset(s)[x] else 0
      ensures multiset(Closed(s, 0))[x] == if x.refcount == 0 then multiset(s)[x] else 0
    {
      KeptCounts(s, 0, x);
      ClosedCounts(s, 0, x);
    }
  }

  function CountIf(s: seq<Socket>, p: Socket -> bool): nat {
    if s == [] then 0 else (if p(s[0]) then 1 else 0) + CountIf(s[1..], p)
  }

  lemma {:induction false} CountIfAppend(a: seq<Socket>, b: seq<Socket>, p: Socket -> bool)
    ensures CountIf(a + b, p) == CountIf(a, p) + CountIf(b, p)
  {
    if a == [] {
      assert a + b == b;
    } else {
      assert (a + b)[1..] == a[1..] + b;
      CountIfAppend(a[1..], b, p);
    }
  }

  /** Refilling a slot with the last entry loses only the entry that was there. */
  lemma SwapRemoveCountIf(s: seq<Socket>, i: nat, p: Socket -> bool)
    requires i < |s|
    ensures CountIf(s[i..], p) == CountIf(SwapRemove(s, i)[i..], p) + if p(s[i]) then 1 else 0
  {
    var last, r := s[|s| - 1], SwapRemove(s, i);
    assert s[i..] == [s[i]] + s[i + 1..];
    if i == |s| - 1 {
      assert r[i..] == [] && s[i + 1..] == [];
    } else {
      var mid := s[i + 1..|s| - 1];
      assert r[i..] == [last] + mid && s[i + 1..] == mid + [last];
      CountIfAppend(mid, [last], p);
    }
  }

  /** Of the entries with any property, the closed ones are the unused ones. */
  lemma {:induction false} ClosedCountIf(s: seq<Socket>, i: nat, p: Socket -> bool, unused: Socket -> bool)
    requires i <= |s|
    requires forall x :: unused(x) <==> x.refcount == 0 && p(x)
    ensures CountIf(Closed(s, i), p) == CountIf(s[i..], unused)
    decreases |s| - i
  {
    if i < |s| && s[i].refcount == 0 {
      var rest := Closed(SwapRemove(s, i), i);
      SwapRemoveCountIf(s, i, unused);
      ClosedCountIf(SwapRemove(s, i), i, p, unused);
      assert Closed(s, i)[1..] == rest;
    } else if i < |s| {
      ClosedCountIf(s, i + 1, p, unused);
      assert s[i..] == [s[i]] + s[i + 1..];
    }
  }

  lemma {:induction false} EventCounts(closed: seq<Socket>, sock: int, path: string,
                                       hasSock: Socket -> bool, hasPath: Socket -> bool)
    requires forall x :: hasSock(x) <==> x.sock == sock
    requires forall x :: hasPath(x) <==> x.kind == AF_UNIX && x.key == path
    ensures multiset(EventsOf(closed))[Close(sock)] == CountIf(closed, hasSock)
    ensures multiset(EventsOf(closed))[Unlink(path)] == CountIf(closed, hasPath)
  {
    if closed == [] {
    } else {
      EventCounts(closed[1..], sock, path, hasSock, hasPath);
    }
  }

  /** The trace closes each descriptor as often as an unused entry holds it, and unlinks each
      path as often as an unused unix entry has it. */
  lemma TraceExact(s: seq<Socket>, sock: int, path: string)
    ensures var trace := multiset(EventsOf(Closed(s, 0)));
            && trace[Close(sock)] == CountIf(s, (x: Socket) => x.refcount == 0 && x.sock == sock)
            && trace[Unlink(path)] == CountIf(s, (x: Socket) => x.refcount == 0 && x.kind == AF_UNIX && x.key == path)
  {
    var hasSock := (x: Socket) => x.sock == sock;
    var hasPath := (x: Socket) => x.kind == AF_UNIX && x.key == path;
    assert s[0..] == s;
    EventCounts(Closed(s, 0), sock, path, hasSock, hasPath);
    ClosedCountIf(s, 0, hasSock, (x: Socket) => x.refcount == 0 && x.sock == sock);
    ClosedCountIf(s, 0, hasPath, (x: Socket) => x.refcount == 0 && x.kind == AF_UNIX && x.key == path);
  }
}
