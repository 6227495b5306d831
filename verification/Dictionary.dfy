/** The slot table that maps strings to strings, where a key may have a NULL value. */
module Dictionary {
  import opened CText
  import opened Hash

  type Store = map<string, Option<string>>

  type Slots = seq<Option<string>>

  /** Minimal allocated number of slots. */
  const DICTMINSZ: nat := 128

  /** A `char *` answer: NULL, a string, or the token that no string is equal to. */
  datatype Pointer = Null | Text(text: string) | InvalidKey

  function ToPointer(s: Option<string>): Pointer {
    if s.None? then Null else Text(s.value)
  }

  function Lookup(m: Store, key: string, def: Pointer): Pointer {
    if key in m then ToPointer(m[key]) else def
  }

  function CountUsed(keys: Slots): nat {
    if keys == [] then 0 else (if keys[0].Some? then 1 else 0) + CountUsed(keys[1..])
  }

  /** The slots hold exactly the entries of `m`, each key in one slot only. */
  ghost predicate Represents(keys: Slots, vals: Slots, m: Store) {
    && |keys| == |vals|
    && (forall i :: 0 <= i < |keys| && keys[i].Some? ==> keys[i].value in m && m[keys[i].value] == vals[i])
    && (forall k :: k in m ==> exists i :: 0 <= i < |keys| && keys[i] == Some(k))
    && (forall i, j :: 0 <= i < j < |keys| && keys[i].Some? ==> keys[i] != keys[j])
  }

  /** Every used slot caches the hash of its key and every hole is cleared. */
  ghost predicate Cached(keys: Slots, vals: Slots, hashes: seq<bv32>) {
    && |keys| == |vals| == |hashes|
    && (forall i :: 0 <= i < |keys| && keys[i].Some? ==> hashes[i] == HashOf(keys[i].value))
    && (forall i :: 0 <= i < |keys| && keys[i].None? ==> vals[i].None? && hashes[i] == 0)
  }

  /** The whole table: three parallel slot sequences that stand for the map `m`. */
  ghost predicate Table(keys: Slots, vals: Slots, hashes: seq<bv32>, m: Store) {
    && Represents(keys, vals, m)
    && Cached(keys, vals, hashes)
    && CountUsed(keys) == |m|
  }

  lemma {:induction false} CountUsedUpdate(keys: Slots, i: nat, k: Option<string>)
    requires i < |keys|
    ensures CountUsed(keys[i := k]) + (if keys[i].Some? then 1 else 0) == CountUsed(keys) + (if k.Some? then 1 else 0)
  {
    if i == 0 {
      assert keys[0 := k][1..] == keys[1..];
    } else {
      assert keys[i := k][1..] == keys[1..][i - 1 := k];
      CountUsedUpdate(keys[1..], i - 1, k);
    }
  }

  lemma {:induction false} CountUsedAppend(a: Slots, b: Slots)
    ensures CountUsed(a + b) == CountUsed(a) + CountUsed(b)
  {
    if a == [] {
      assert a + b == b;
    } else {
      assert (a + b)[1..] == a[1..] + b;
      CountUsedAppend(a[1..], b);
    }
  }

  lemma {:induction false} NoneUsed(keys: Slots)
    requires forall i :: 0 <= i < |keys| ==> keys[i].None?
    ensures CountUsed(keys) == 0
  {
    if keys == [] {
    } else {
      NoneUsed(keys[1..]);
    }
  }

  /** A table with fewer keys than slots has a hole. */
  lemma {:induction false} FreeSlot(keys: Slots) returns (i: nat)
    requires CountUsed(keys) < |keys|
    ensures i < |keys| && keys[i].None?
  {
    if keys[0].None? {
      i := 0;
    } else {
      var j := FreeSlot(keys[1..]);
      i := j + 1;
    }
  }

  lemma {:induction false} CountUsedBound(keys: Slots)
    ensures CountUsed(keys) <= |keys|
  {
    if keys == [] {
    } else {
      CountUsedBound(keys[1..]);
    }
  }

  lemma EmptyTable(keys: Slots, vals: Slots, hashes: seq<bv32>)
    requires |keys| == |vals| == |hashes|
    requires forall i :: 0 <= i < |keys| ==> keys[i].None? && vals[i].None? && hashes[i] == 0
    ensures Table(keys, vals, hashes, map[])
  {
    hide HashOf;
    NoneUsed(keys);
  }

  /** Empty slots appended behind the old ones change nothing. */
  lemma GrownTable(keys: Slots, vals: Slots, hashes: seq<bv32>, m: Store, blank: Slots, zeros: seq<bv32>)
    requires Table(keys, vals, hashes, m)
    requires |blank| == |zeros|
    requires forall i :: 0 <= i < |blank| ==> blank[i].None? && zeros[i] == 0
    ensures Table(keys + blank, vals + blank, hashes + zeros, m)
  {
    hide HashOf, CountUsed;
    CountUsedAppend(keys, blank);
    NoneUsed(blank);
    var keys' := keys + blank;
    forall k | k in m
      ensures exists i :: 0 <= i < |keys'| && keys'[i] == Some(k)
    {
      var i :| 0 <= i < |keys| && keys[i] == Some(k);
      assert keys'[i] == Some(k);
    }
  }

  lemma InsertedRepresents(keys: Slots, vals: Slots, m: Store, i: nat, k: string, v: Option<string>)
    requires Represents(keys, vals, m)
    requires i < |keys| && keys[i].None? && k !in m
    ensures Represents(keys[i := Some(k)], vals[i := v], m[k := v])
  {
    var keys' := keys[i := Some(k)];
    forall q | q in m[k := v]
      ensures exists j :: 0 <= j < |keys'| && keys'[j] == Some(q)
    {
      if q == k {
        assert keys'[i] == Some(k);
      } else {
        var j :| 0 <= j < |keys| && keys[j] == Some(q);
        assert keys'[j] == Some(q);
      }
    }
  }

  /** A new key goes into any hole. */
  lemma InsertedTable(keys: Slots, vals: Slots, hashes: seq<bv32>, m: Store, i: nat, k: string, v: Option<string>)
    requires Table(keys, vals, hashes, m)
    requires i < |keys| && keys[i].None? && k !in m
    ensures Table(keys[i := Some(k)], vals[i := v], hashes[i := HashOf(k)], m[k := v])
  {
    hide HashOf, CountUsed;
    CountUsedUpdate(keys, i, Some(k));
    InsertedRepresents(keys, vals, m, i, k, v);
  }

  /** A present key only changes its value. */
  lemma ReplacedTable(keys: Slots, vals: Slots, hashes: seq<bv32>, m: Store, i: nat, k: string, v: Option<string>)
    requires Table(keys, vals, hashes, m)
    requires i < |keys| && keys[i] == Some(k)
    ensures Table(keys, vals[i := v], hashes, m[k := v])
    ensures |m[k := v]| == |m|
  {
    hide HashOf, CountUsed;
    assert k in m && m[k := v].Keys == m.Keys;
    assert |m[k := v].Keys| == |m.Keys|;
  }

  lemma CardinalityWithout(m: Store, k: string)
    requires k in m
    ensures |m - {k}| == |m| - 1
  {
    assert (m - {k}).Keys == m.Keys - {k};
    assert |(m - {k}).Keys| == |m.Keys| - 1;
  }

  lemma RemovedRepresents(keys: Slots, vals: Slots, m: Store, i: nat, k: string)
    requires Represents(keys, vals, m)
    requires i < |keys| && keys[i] == Some(k)
    ensures Represents(keys[i := None], vals[i := None], m - {k})
  {
    var keys' := keys[i := None];
    forall q | q in m - {k}
      ensures exists j :: 0 <= j < |keys'| && keys'[j] == Some(q)
    {
      var j :| 0 <= j < |keys| && keys[j] == Some(q);
      assert keys'[j] == Some(q);
    }
  }

  lemma RemovedCached(keys: Slots, vals: Slots, hashes: seq<bv32>, i: nat)
    requires Cached(keys, vals, hashes) && i < |keys|
    ensures Cached(keys[i := None], vals[i := None], hashes[i := 0])
  {
    hide HashOf;
  }

  lemma OnlyThere(keys: Slots, vals: Slots, m: Store, i: nat, k: string)
    requires Represents(keys, vals, m)
    requires i < |keys| && keys[i] == Some(k)
    ensures k in m && forall j :: 0 <= j < |keys| && j != i ==> keys[j] != Some(k)
  {
  }

  /** Removing a key leaves a hole where it was. */
  lemma RemovedTable(keys: Slots, vals: Slots, hashes: seq<bv32>, m: Store, i: nat, k: string)
    requires Table(keys, vals, hashes, m)
    requires i < |keys| && keys[i] == Some(k)
    ensures Table(keys[i := None], vals[i := None], hashes[i := 0], m - {k})
    ensures |m - {k}| == |m| - 1
    ensures forall j :: 0 <= j < |keys| && j != i ==> keys[j] != Some(k)
  {
    hide HashOf, CountUsed, Represents, Cached;
    OnlyThere(keys, vals, m, i, k);
    CountUsedUpdate(keys, i, None);
    RemovedRepresents(keys, vals, m, i, k);
    RemovedCached(keys, vals, hashes, i);
    CardinalityWithout(m, k);
  }

  /** calloc of twice the room, then memcpy of the old contents. */
  method Doubled<T>(a: array<T>, zero: T) returns (b: array<T>)
    ensures fresh(b)
    ensures b[..] == a[..] + seq(a.Length, _ => zero)
  {
    b := new T[a.Length * 2](_ => zero);
    forall i | 0 <= i < a.Length {
      b[i] := a[i];
    }
    assert b[..] == a[..] + seq(a.Length, _ => zero);
  }

  /** Slot `i` is the first hole from slot `n` on, going round the table. */
  ghost predicate FirstHole(keys: Slots, n: int, i: int) {
    && 0 <= n < |keys| && 0 <= i < |keys| && keys[i].None?
    && if n <= i then forall j :: n <= j < i ==> keys[j].Some?
       else (forall j :: n <= j < |keys| ==> keys[j].Some?) && forall j :: 0 <= j < i ==> keys[j].Some?
  }

  /** A full table is doubled before a new key goes in. */
  ghost function Roomy(keys: Slots, n: int): Slots {
    if n == |keys| then keys + seq(|keys|, _ => None) else keys
  }

  class Dict {
    var n: int
    var size: int
    var val: array<Option<string>>
    var key: array<Option<string>>
    var hash: array<bv32>
    ghost var contents: Store

    ghost function Repr(): set<object>
      reads this
    {
      {this, val, key, hash}
    }

    ghost predicate Valid()
      reads this, val, key, hash
    {
      && val != key && val as object != hash && key as object != hash
      && size == key.Length == val.Length == hash.Length
      && size >= DICTMINSZ
      && n == |contents|
      && Table(key[..], val[..], hash[..], contents)
    }

    /** dictionary_new */
    constructor (wanted: nat)
      ensures Valid() && fresh(Repr())
      ensures contents == map[]
      ensures size == if wanted < 128 then 128 else wanted
    {
      var s := if wanted < DICTMINSZ then DICTMINSZ else wanted;
      n := 0;
      size := s;
      val := new Option<string>[s](_ => None);
      key := new Option<string>[s](_ => None);
      hash := new bv32[s](_ => 0);
      contents := map[];
      new;
      EmptyTable(key[..], val[..], hash[..]);
    }

    /** The scan that get, set and unset share: the slot of `k`, or `size`. */
    method FindSlot(k: string, h: bv32) returns (i: int)
      requires Valid() && h == HashOf(k)
      ensures 0 <= i <= size
      ensures i < size <==> k in contents
      ensures i < size ==> key[i] == Some(k)
      ensures i == size ==> forall j :: 0 <= j < size ==> key[j] != Some(k)
    {
      hide HashOf, CountUsed;
      i := 0;
      while i < size
        invariant 0 <= i <= size
        invariant forall j :: 0 <= j < i ==> key[..][j] != Some(k)
      {
        if key[i].Some? && h == hash[i] && k == key[i].value {
          assert key[..][i] == Some(k);
          return;
        }
        assert key[..][i] != Some(k);
        i := i + 1;
      }
    }

    /** dictionary_get */
    method Get(k: string, def: Pointer) returns (r: Pointer)
      requires Valid()
      ensures r == Lookup(contents, k, def)
      ensures k !in contents ==> r == def
      ensures k in contents ==> r == if contents[k].Some? then Text(contents[k].value) else Null
    {
      var h := DictionaryHash(k);
      var i := FindSlot(k, h);
      if i < size {
        assert key[..][i] == Some(k);
        return ToPointer(val[i]);
      }
      return def;
    }

    /** dictionary_grow: twice the slots, the old ones first. */
    method Grow()
      requires Valid()
      modifies this
      ensures Valid() && fresh(Repr() - {this})
      ensures contents == old(contents) && n == old(n) && size == 2 * old(size)
      ensures key[..] == old(key[..]) + seq(old(size), _ => None)
      ensures val[..] == old(val[..]) + seq(old(size), _ => None)
    {
      hide HashOf, CountUsed, Represents, Cached;
      ghost var keys, vals, hashes := key[..], val[..], hash[..];
      ghost var blank: Slots, zeros := seq(size, _ => None), seq(size, _ => 0 as bv32);
      GrownTable(keys, vals, hashes, contents, blank, zeros);
      var newVal := Doubled(val, None);
      var newKey := Doubled(key, None);
      var newHash := Doubled(hash, 0);
      size := size * 2;
      val := newVal;
      key := newKey;
      hash := newHash;
    }

    /** The value in slot `i` replaced. */
    method Replace(i: int, k: string, v: Option<string>)
      requires Valid() && 0 <= i < size && key[i] == Some(k)
      modifies this`contents, val
      ensures Valid() && contents == old(contents)[k := v]
    {
      hide HashOf, CountUsed, Represents, Cached;
      ReplacedTable(key[..], val[..], hash[..], contents, i, k, v);
      ghost var vals := val[..][i := v];
      contents := contents[k := v];
      val[i] := v;
      assert val[..] == vals;
    }

    /** The wrap-around search for a hole, from slot `n` on. */
    method Probe() returns (i: int)
      requires Valid() && n < size
      ensures FirstHole(key[..], n, i)
    {
      hide HashOf, CountUsed, Represents, Cached;
      assert CountUsed(key[..]) == n;
      CountUsedBound(key[..]);
      ghost var hole: int := FreeSlot(key[..]);
      i := n;
      while key[i].Some?
        invariant 0 <= i < size && 0 <= n
        invariant n <= i ==> forall j :: n <= j < i ==> key[j].Some?
        invariant i < n ==> (forall j :: n <= j < size ==> key[j].Some?) && forall j :: 0 <= j < i ==> key[j].Some?
        decreases if i <= hole then hole - i else hole + size - i
      {
        i := i + 1;
        if i == size {
          i := 0;
        }
      }
    }

    /** A new key in the first hole from slot `n` on. */
    method Insert(k: string, h: bv32, v: Option<string>)
      requires Valid() && k !in contents && n < size && h == HashOf(k)
      modifies this`n, this`contents, key, val, hash
      ensures Valid() && contents == old(contents)[k := v]
      ensures forall i :: 0 <= i < size && old(key[i]).Some? ==> key[i] == old(key[i])
      ensures exists i :: FirstHole(old(key[..]), old(n), i) && key[..] == old(key[..])[i := Some(k)]
    {
      hide HashOf, CountUsed, Represents, Cached;
      var i := Probe();
      InsertedTable(key[..], val[..], hash[..], contents, i, k, v);
      ghost var keys, vals, hashes := key[..][i := Some(k)], val[..][i := v], hash[..][i := h];
      n := n + 1;
      contents := contents[k := v];
      key[i] := Some(k);
      val[i] := v;
      hash[i] := h;
      assert key[..] == keys;
      assert val[..] == vals;
      assert hash[..] == hashes;
    }

    /** The part of dictionary_set behind its NULL checks: the result is 0, allocations succeeding. */
    method Set(k: string, v: Option<string>) returns (ret: int)
      requires Valid()
      modifies Repr()
      ensures Valid() && fresh(Repr() - old(Repr()))
      ensures ret == 0 && contents == old(contents)[k := v]
      ensures size == (if k !in old(contents) && old(n) == old(size) then 2 * old(size) else old(size))
      ensures forall i :: 0 <= i < old(size) && old(key[i]).Some? ==> key[i] == old(key[i])
      ensures k in old(contents) ==> key[..] == old(key[..])
      ensures k !in old(contents) ==>
                var keys := Roomy(old(key[..]), old(n));
                exists i :: FirstHole(keys, old(n), i) && key[..] == keys[i := Some(k)]
    {
      hide HashOf, CountUsed, Represents, Cached, FirstHole;
      assert n >= 0;
      var h := DictionaryHash(k);
      if n > 0 {
        var i := FindSlot(k, h);
        if i < size {
          Replace(i, k, v);
          return 0;
        }
      }
      CountUsedBound(key[..]);
      if n == size {
        Grow();
      }
      assert key[..] == Roomy(old(key[..]), old(n));
      assert forall i :: 0 <= i < old(size) ==> key[..][i] == old(key[..])[i];
      Insert(k, h, v);
      return 0;
    }

    /** Slot `i` emptied. */
    method Clear(i: int, k: string)
      requires Valid() && 0 <= i < size && key[i] == Some(k)
      modifies this`n, this`contents, key, val, hash
      ensures Valid() && contents == old(contents) - {k}
      ensures forall j :: 0 <= j < size ==> key[j] == if old(key[j]) == Some(k) then None else old(key[j])
    {
      hide HashOf, CountUsed, Represents, Cached;
      RemovedTable(key[..], val[..], hash[..], contents, i, k);
      assert forall j :: 0 <= j < size && j != i ==> key[..][j] != Some(k);
      ghost var keys, vals, hashes := key[..][i := None], val[..][i := None], hash[..][i := 0];
      n := n - 1;
      contents := contents - {k};
      key[i] := None;
      if val[i].Some? {
        val[i] := None;
      }
      hash[i] := 0;
      assert key[..] == keys;
      assert val[..] == vals;
      assert hash[..] == hashes;
    }

    /** The part of dictionary_unset behind its NULL checks. */
    method Unset(k: string)
      requires Valid()
      modifies Repr()
      ensures Valid() && Repr() == old(Repr())
      ensures contents == old(contents) - {k} && size == old(size)
      ensures forall i :: 0 <= i < size ==> key[i] == if old(key[i]) == Some(k) then None else old(key[i])
    {
      hide HashOf, CountUsed, Represents, Cached;
      var h := DictionaryHash(k);
      var i := FindSlot(k, h);
      if i >= size {
        assert contents - {k} == contents;
        return;
      }
      Clear(i, k);
    }
  }

  ghost function Footprint(d: Dict?): set<object>
    reads d
  {
    if d == null then {} else d.Repr()
  }

  /** dictionary_set: -1 for a NULL dictionary or key. */
  method DictionarySet(d: Dict?, k: Option<string>, v: Option<string>) returns (ret: int)
    requires d != null ==> d.Valid()
    modifies Footprint(d)
    ensures ret == if d == null || k.None? then -1 else 0
    ensures d != null ==> d.Valid() && fresh(d.Repr() - old(Footprint(d)))
    ensures d != null ==> d.contents == if k.None? then old(d.contents) else old(d.contents)[k.value := v]
  {
    hide Dict.Valid, Table, Represents, Cached, CountUsed;
    if d == null || k.None? {
      return -1;
    }
    ret := d.Set(k.value, v);
  }

  /** dictionary_unset: nothing happens for a NULL dictionary or key. */
  method DictionaryUnset(d: Dict?, k: Option<string>)
    requires d != null ==> d.Valid()
    modifies Footprint(d)
    ensures d != null ==> d.Valid() && d.Repr() == old(Footprint(d))
    ensures d != null ==> d.contents == if k.None? then old(d.contents) else old(d.contents) - {k.value}
  {
    hide Dict.Valid, Table, Represents, Cached, CountUsed;
    if k.None? || d == null {
      return;
    }
    d.Unset(k.value);
  }

  /** Setting a key to NULL and removing it are told apart by every read whose default is not NULL:
      the key is still there. */
  lemma NullIsNotAbsent(m: Store, k: string, def: Pointer)
    ensures k in m[k := None] && k !in m - {k}
    ensures Lookup(m[k := None], k, def) == Lookup(m - {k}, k, def) <==> def == Null
  {
  }
}
