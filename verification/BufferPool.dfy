/** The byte-capacity LRU pool: a map, a recency list and a byte counter kept in step. */
module BufferPool {
  import opened Common
  import opened ByteOrder

  type Key = string

  datatype Entry = Entry(key: Key, data: seq<Byte>)

  datatype CacheEntry = CacheEntry(data: seq<Byte>, size: nat)

  // ---------- Recency lists, most recent first ----------

  function Bytes(list: seq<Entry>): nat {
    if list == [] then 0 else Bytes(list[..|list| - 1]) + |list[|list| - 1].data|
  }

  ghost predicate Holds(list: seq<Entry>, key: Key) {
    exists i :: 0 <= i < |list| && list[i].key == key
  }

  ghost predicate DistinctKeys(list: seq<Entry>) {
    forall i, j :: 0 <= i < j < |list| ==> list[i].key != list[j].key
  }

  function Drop(list: seq<Entry>, key: Key): seq<Entry> {
    if list == [] then []
    else Drop(list[..|list| - 1], key) + if list[|list| - 1].key == key then [] else [list[|list| - 1]]
  }

  /** Drops entries from the back until the rest fits. */
  function Fit(list: seq<Entry>, capacity: int): (r: seq<Entry>)
    ensures r <= list
    ensures r == [] || Bytes(r) <= capacity
  {
    if list == [] || Bytes(list) <= capacity then list else Fit(list[..|list| - 1], capacity)
  }

  ghost function Found(list: seq<Entry>, key: Key): Entry
    requires Holds(list, key)
  {
    var i :| 0 <= i < |list| && list[i].key == key;
    list[i]
  }

  ghost function AfterGet(list: seq<Entry>, capacity: int, key: Key): seq<Entry> {
    if capacity != 0 && Holds(list, key) then [Found(list, key)] + Drop(list, key) else list
  }

  function AfterPut(list: seq<Entry>, capacity: int, entry: Entry): seq<Entry> {
    if capacity == 0 then list else Fit([entry] + Drop(list, entry.key), capacity)
  }

  lemma {:induction false} BytesConcat(a: seq<Entry>, b: seq<Entry>)
    ensures Bytes(a + b) == Bytes(a) + Bytes(b)
  {
    if b == [] {
      assert a + b == a;
    } else {
      BytesConcat(a, b[..|b| - 1]);
      assert (a + b)[..|a + b| - 1] == a + b[..|b| - 1];
    }
  }

  /** Fit keeps the longest prefix that fits. */
  lemma {:induction false} FitIsLongest(list: seq<Entry>, capacity: int, other: seq<Entry>)
    requires other <= list && Bytes(other) <= capacity
    ensures other <= Fit(list, capacity)
  {
    if list != [] && Bytes(list) > capacity {
      assert other != list;
      assert other <= list[..|list| - 1];
      FitIsLongest(list[..|list| - 1], capacity, other);
    }
  }

  lemma {:induction false} DropAbsent(list: seq<Entry>, key: Key)
    requires !Holds(list, key)
    ensures Drop(list, key) == list
  {
    if list != [] {
      var front, last := list[..|list| - 1], list[|list| - 1];
      assert list == front + [last];
      DropAbsent(front, key);
    }
  }

  lemma {:induction false} DropConcat(a: seq<Entry>, b: seq<Entry>, key: Key)
    ensures Drop(a + b, key) == Drop(a, key) + Drop(b, key)
  {
    if b == [] {
      assert a + b == a;
    } else {
      DropConcat(a, b[..|b| - 1], key);
      assert (a + b)[..|a + b| - 1] == a + b[..|b| - 1];
    }
  }

  lemma {:induction false} DropKeeps(list: seq<Entry>, key: Key)
    ensures forall i :: 0 <= i < |Drop(list, key)| ==> Drop(list, key)[i] in list && Drop(list, key)[i].key != key
    ensures DistinctKeys(list) ==> DistinctKeys(Drop(list, key))
  {
    if list != [] {
      var front := list[..|list| - 1];
      DropKeeps(front, key);
    }
  }

  /** Dropping the key at position i takes out that entry and no other. */
  lemma TakeOut(list: seq<Entry>, i: nat)
    requires DistinctKeys(list) && i < |list|
    ensures Drop(list, list[i].key) == list[..i] + list[i + 1..]
    ensures Bytes(list) == Bytes(Drop(list, list[i].key)) + |list[i].data|
  {
    hide Bytes, Drop;
    var key, before, after := list[i].key, list[..i], list[i + 1..];
    assert list == before + ([list[i]] + after);
    OneEntry(list[i]);
    DropConcat(before, [list[i]] + after, key);
    DropConcat([list[i]], after, key);
    DropAbsent(before, key);
    DropAbsent(after, key);
    assert [] + after == after;
    BytesConcat(before, [list[i]] + after);
    BytesConcat([list[i]], after);
    BytesConcat(before, after);
  }

  lemma OneEntry(e: Entry)
    ensures Bytes([e]) == |e.data| && Drop([e], e.key) == []
  {
  }

  // ---------- Read-through accesses ----------

  /** Get, then Put on a miss; load gives the fixed contents of every key. */
  ghost function AfterAccess(list: seq<Entry>, capacity: int, key: Key, load: Key -> seq<Byte>): seq<Entry> {
    if capacity != 0 && Holds(list, key) then AfterGet(list, capacity, key)
    else AfterPut(list, capacity, Entry(key, load(key)))
  }

  ghost predicate IsHit(list: seq<Entry>, capacity: int, key: Key) {
    capacity != 0 && Holds(list, key)
  }

  ghost function AfterAccesses(capacity: int, keys: seq<Key>, load: Key -> seq<Byte>): seq<Entry> {
    if keys == [] then []
    else AfterAccess(AfterAccesses(capacity, keys[..|keys| - 1], load), capacity, keys[|keys| - 1], load)
  }

  /** A list a pool can reach: distinct keys, the loaded contents, within capacity. */
  ghost predicate Loaded(list: seq<Entry>, capacity: int, load: Key -> seq<Byte>) {
    && DistinctKeys(list)
    && (forall i :: 0 <= i < |list| ==> list[i].data == load(list[i].key))
    && (list == [] || Bytes(list) <= capacity)
    && (capacity == 0 ==> list == [])
  }

  /** A hit or a miss, the key moves to the front, and nothing is evicted beyond need. */
  lemma AccessForm(list: seq<Entry>, capacity: int, key: Key, load: Key -> seq<Byte>)
    requires Loaded(list, capacity, load)
    ensures AfterAccess(list, capacity, key, load) ==
            if capacity == 0 then [] else Fit([Entry(key, load(key))] + Drop(list, key), capacity)
  {
    hide Bytes, Drop;
    if IsHit(list, capacity, key) {
      var i :| 0 <= i < |list| && list[i].key == key && Found(list, key) == list[i];
      TakeOut(list, i);
      OneEntry(list[i]);
      BytesConcat([list[i]], Drop(list, key));
    }
  }

  lemma AccessKeepsLoaded(list: seq<Entry>, capacity: int, key: Key, load: Key -> seq<Byte>)
    requires Loaded(list, capacity, load)
    ensures Loaded(AfterAccess(list, capacity, key, load), capacity, load)
  {
    hide AfterAccess, Fit, Bytes, Drop;
    AccessForm(list, capacity, key, load);
    DropKeeps(list, key);
    var all := [Entry(key, load(key))] + Drop(list, key);
    assert DistinctKeys(all) && forall i :: 0 <= i < |all| ==> all[i].data == load(all[i].key);
  }

  /** Dropping one key preserves the prefix relation between recency lists. */
  lemma DropPrefix(small: seq<Entry>, large: seq<Entry>, key: Key)
    requires small <= large
    ensures Drop(small, key) <= Drop(large, key)
  {
    assert large == small + large[|small|..];
    DropConcat(small, large[|small|..], key);
  }

  lemma FitPrefix(small: seq<Entry>, large: seq<Entry>, smallCapacity: int, largeCapacity: int)
    requires small <= large && smallCapacity <= largeCapacity
    ensures Fit(small, smallCapacity) <= Fit(large, largeCapacity)
  {
    var kept := Fit(small, smallCapacity);
    if kept != [] {
      FitIsLongest(large, largeCapacity, kept);
    }
  }

  /** The stack property of one access. */
  lemma AccessPrefix(
    small: seq<Entry>, large: seq<Entry>, smallCapacity: int, largeCapacity: int, key: Key, load: Key -> seq<Byte>)
    requires Loaded(small, smallCapacity, load) && Loaded(large, largeCapacity, load)
    requires small <= large && smallCapacity <= largeCapacity
    ensures AfterAccess(small, smallCapacity, key, load) <= AfterAccess(large, largeCapacity, key, load)
  {
    AccessForm(small, smallCapacity, key, load);
    AccessForm(large, largeCapacity, key, load);
    DropPrefix(small, large, key);
    var front := [Entry(key, load(key))];
    FitPrefix(front + Drop(small, key), front + Drop(large, key), smallCapacity, largeCapacity);
    if largeCapacity == 0 && smallCapacity < 0 {
      NothingFits(front + Drop(small, key), smallCapacity);
    }
  }

  lemma {:induction false} NothingFits(list: seq<Entry>, capacity: int)
    requires capacity < 0
    ensures Fit(list, capacity) == []
  {
    if list != [] {
      NothingFits(list[..|list| - 1], capacity);
    }
  }

  /** On any sequence of read-through accesses the recency list of the smaller pool is a
      prefix of that of the larger one. */
  lemma {:induction false} Inclusion(smallCapacity: int, largeCapacity: int, keys: seq<Key>, load: Key -> seq<Byte>)
    requires smallCapacity <= largeCapacity
    ensures Loaded(AfterAccesses(smallCapacity, keys, load), smallCapacity, load)
    ensures Loaded(AfterAccesses(largeCapacity, keys, load), largeCapacity, load)
    ensures AfterAccesses(smallCapacity, keys, load) <= AfterAccesses(largeCapacity, keys, load)
  {
    if keys != [] {
      var front, key := keys[..|keys| - 1], keys[|keys| - 1];
      Inclusion(smallCapacity, largeCapacity, front, load);
      var small, large := AfterAccesses(smallCapacity, front, load), AfterAccesses(largeCapacity, front, load);
      AccessPrefix(small, large, smallCapacity, largeCapacity, key, load);
      AccessKeepsLoaded(small, smallCapacity, key, load);
      AccessKeepsLoaded(large, largeCapacity, key, load);
    }
  }

  /** Every hit in the smaller pool is a hit in the larger one. */
  lemma HitInclusion(smallCapacity: int, largeCapacity: int, keys: seq<Key>, key: Key, load: Key -> seq<Byte>)
    requires smallCapacity <= largeCapacity
    requires IsHit(AfterAccesses(smallCapacity, keys, load), smallCapacity, key)
    ensures IsHit(AfterAccesses(largeCapacity, keys, load), largeCapacity, key)
  {
    Inclusion(smallCapacity, largeCapacity, keys, load);
    var small, large := AfterAccesses(smallCapacity, keys, load), AfterAccesses(largeCapacity, keys, load);
    var i :| 0 <= i < |small| && small[i].key == key;
    assert large[i] == small[i];
  }

  // ---------- Contents that change between loads ----------

  /** Get, then Put of what was loaded on a miss; the contents may differ from load to load. */
  ghost function AfterRead(list: seq<Entry>, capacity: int, loaded: Entry): seq<Entry> {
    if IsHit(list, capacity, loaded.key) then AfterGet(list, capacity, loaded.key) else AfterPut(list, capacity, loaded)
  }

  ghost function AfterReads(capacity: int, loads: seq<Entry>): seq<Entry> {
    if loads == [] then []
    else AfterRead(AfterReads(capacity, loads[..|loads| - 1]), capacity, loads[|loads| - 1])
  }

  /** Every key has its size, whatever its contents. */
  ghost predicate Sized(list: seq<Entry>, size: Key -> nat) {
    forall i :: 0 <= i < |list| ==> |list[i].data| == size(list[i].key)
  }

  function Blank(size: Key -> nat): Key -> seq<Byte> {
    (key: Key) => seq(size(key), _ => 0)
  }

  /** The same list with blank contents. */
  function Blanked(list: seq<Entry>, size: Key -> nat): (r: seq<Entry>)
    ensures |r| == |list| && forall i :: 0 <= i < |list| ==> r[i] == Entry(list[i].key, Blank(size)(list[i].key))
  {
    seq(|list|, i requires 0 <= i < |list| => Entry(list[i].key, Blank(size)(list[i].key)))
  }

  function Keys(list: seq<Entry>): (r: seq<Key>)
    ensures |r| == |list| && forall i :: 0 <= i < |list| ==> r[i] == list[i].key
  {
    seq(|list|, i requires 0 <= i < |list| => list[i].key)
  }

  lemma {:induction false} BlankBytes(list: seq<Entry>, size: Key -> nat)
    requires Sized(list, size)
    ensures Bytes(Blanked(list, size)) == Bytes(list)
  {
    if list != [] {
      var n := |list| - 1;
      BlankBytes(list[..n], size);
      assert Blanked(list, size)[..n] == Blanked(list[..n], size);
    }
  }

  lemma BlankJoins(front: seq<Entry>, last: Entry, size: Key -> nat)
    ensures Blanked(front + [last], size) == Blanked(front, size) + [Entry(last.key, Blank(size)(last.key))]
    ensures Sized(front, size) && |last.data| == size(last.key) ==> Sized(front + [last], size)
  {
  }

  lemma {:induction false} BlankDrop(list: seq<Entry>, size: Key -> nat, key: Key)
    ensures Blanked(Drop(list, key), size) == Drop(Blanked(list, size), key)
    ensures Sized(list, size) ==> Sized(Drop(list, key), size)
  {
    hide Blank;
    if list != [] {
      var n := |list| - 1;
      BlankDrop(list[..n], size, key);
      BlankJoins(Drop(list[..n], key), list[n], size);
      assert Blanked(list, size)[..n] == Blanked(list[..n], size);
    }
  }

  lemma {:induction false} BlankFit(list: seq<Entry>, size: Key -> nat, capacity: int)
    requires Sized(list, size)
    ensures Blanked(Fit(list, capacity), size) == Fit(Blanked(list, size), capacity)
  {
    BlankBytes(list, size);
    if list != [] && Bytes(list) > capacity {
      var n := |list| - 1;
      BlankFit(list[..n], size, capacity);
      assert Blanked(list, size)[..n] == Blanked(list[..n], size);
    }
  }

  lemma BlankHit(list: seq<Entry>, size: Key -> nat, key: Key)
    ensures Holds(Blanked(list, size), key) <==> Holds(list, key)
  {
    var blanked := Blanked(list, size);
    if Holds(list, key) {
      var i :| 0 <= i < |list| && list[i].key == key;
      assert blanked[i].key == key;
    }
    if Holds(blanked, key) {
      var i :| 0 <= i < |blanked| && blanked[i].key == key;
      assert list[i].key == key;
    }
  }

  /** Blanking commutes with an access: eviction looks at sizes only. */
  lemma BlankRead(list: seq<Entry>, size: Key -> nat, capacity: int, loaded: Entry)
    requires Sized(list, size) && |loaded.data| == size(loaded.key)
    ensures Sized(AfterRead(list, capacity, loaded), size)
    ensures Blanked(AfterRead(list, capacity, loaded), size)
         == AfterAccess(Blanked(list, size), capacity, loaded.key, Blank(size))
  {
    hide Bytes, Drop, Fit;
    BlankHit(list, size, loaded.key);
    BlankDrop(list, size, loaded.key);
    if IsHit(list, capacity, loaded.key) {
      var found := Found(list, loaded.key);
      assert found in list && found.key == loaded.key;
      assert Found(Blanked(list, size), loaded.key) == Entry(loaded.key, Blank(size)(loaded.key));
    } else if capacity != 0 {
      var front := [loaded] + Drop(list, loaded.key);
      BlankFit(front, size, capacity);
      assert Blanked(front, size) ==
             [Entry(loaded.key, Blank(size)(loaded.key))] + Blanked(Drop(list, loaded.key), size);
    }
  }

  lemma {:induction false} BlankReads(capacity: int, loads: seq<Entry>, size: Key -> nat)
    requires Sized(loads, size)
    ensures Sized(AfterReads(capacity, loads), size)
    ensures Blanked(AfterReads(capacity, loads), size) == AfterAccesses(capacity, Keys(loads), Blank(size))
  {
    hide AfterRead, AfterAccess;
    if loads != [] {
      var n := |loads| - 1;
      BlankReads(capacity, loads[..n], size);
      BlankRead(AfterReads(capacity, loads[..n]), size, capacity, loads[n]);
      assert Keys(loads)[..n] == Keys(loads[..n]);
    }
  }

  /** Inclusion needs only a fixed size for each key: the keys of the smaller pool, in order, are a
      prefix of those of the larger one, and every hit in the smaller is a hit in the larger. */
  lemma InclusionBySize(smallCapacity: int, largeCapacity: int, loads: seq<Entry>, size: Key -> nat, key: Key)
    requires smallCapacity <= largeCapacity && Sized(loads, size)
    ensures Keys(AfterReads(smallCapacity, loads)) <= Keys(AfterReads(largeCapacity, loads))
    ensures IsHit(AfterReads(smallCapacity, loads), smallCapacity, key) ==>
            IsHit(AfterReads(largeCapacity, loads), largeCapacity, key)
  {
    hide AfterReads, AfterAccesses, Loaded;
    BlankReads(smallCapacity, loads, size);
    BlankReads(largeCapacity, loads, size);
    Inclusion(smallCapacity, largeCapacity, Keys(loads), Blank(size));
    var small, large := AfterReads(smallCapacity, loads), AfterReads(largeCapacity, loads);
    forall i | 0 <= i < |small| ensures i < |large| && small[i].key == large[i].key {
      assert Blanked(small, size)[i] == Blanked(large, size)[i];
    }
    if IsHit(small, smallCapacity, key) {
      BlankHit(small, size, key);
      HitInclusion(smallCapacity, largeCapacity, Keys(loads), key, Blank(size));
      BlankHit(large, size, key);
    }
  }

  // ---------- The pool as a map ----------

  datatype PoolOp = GetOp(key: Key) | PutOp(entry: Entry) | RemoveOp(key: Key)

  ghost function AfterOp(list: seq<Entry>, capacity: int, op: PoolOp): seq<Entry> {
    match op
    case GetOp(key) => AfterGet(list, capacity, key)
    case PutOp(entry) => AfterPut(list, capacity, entry)
    case RemoveOp(key) => Drop(list, key)
  }

  ghost function AfterOps(capacity: int, ops: seq<PoolOp>): seq<Entry> {
    if ops == [] then [] else AfterOp(AfterOps(capacity, ops[..|ops| - 1]), capacity, ops[|ops| - 1])
  }

  /** What was last put under a key and not removed since. */
  function LastPut(ops: seq<PoolOp>, key: Key): Option<seq<Byte>> {
    if ops == [] then None
    else
      match ops[|ops| - 1]
      case PutOp(entry) => if entry.key == key then Some(entry.data) else LastPut(ops[..|ops| - 1], key)
      case RemoveOp(k) => if k == key then None else LastPut(ops[..|ops| - 1], key)
      case GetOp(_) => LastPut(ops[..|ops| - 1], key)
  }

  lemma {:induction false} DropHolds(list: seq<Entry>, dropped: Key, key: Key)
    ensures Holds(Drop(list, dropped), key) <==> key != dropped && Holds(list, key)
    ensures Bytes(Drop(list, dropped)) <= Bytes(list)
  {
    hide Holds, Bytes;
    if list == [] {
      EmptyHoldsNothing(key);
    } else {
      var front, last := list[..|list| - 1], list[|list| - 1];
      assert list == front + [last];
      DropHolds(front, dropped, key);
      DropLastEntry(front, last, dropped);
      HoldsOneMore(front, last, key);
      HoldsOneMore(Drop(front, dropped), last, key);
      BytesConcat(front, [last]);
      BytesConcat(Drop(front, dropped), [last]);
    }
  }

  lemma DropLastEntry(front: seq<Entry>, last: Entry, key: Key)
    ensures Drop(front + [last], key) == if last.key == key then Drop(front, key) else Drop(front, key) + [last]
  {
    assert (front + [last])[..|front|] == front;
  }

  lemma HoldsOneMore(front: seq<Entry>, last: Entry, key: Key)
    ensures Holds(front + [last], key) <==> Holds(front, key) || last.key == key
  {
    var list := front + [last];
    assert list[|front|] == last;
    if Holds(front, key) {
      var i :| 0 <= i < |front| && front[i].key == key;
      assert list[i] == front[i];
    }
  }

  lemma HoldsInFront(first: Entry, rest: seq<Entry>, key: Key)
    ensures Holds([first] + rest, key) <==> first.key == key || Holds(rest, key)
  {
    var list := [first] + rest;
    assert list[0] == first;
    if Holds(rest, key) {
      var i :| 0 <= i < |rest| && rest[i].key == key;
      assert list[i + 1] == rest[i];
    }
  }

  /** The entries of the list hold what was last put under their keys. */
  ghost predicate HoldsLast(list: seq<Entry>, capacity: int, ops: seq<PoolOp>) {
    && DistinctKeys(list)
    && (capacity == 0 ==> list == [])
    && (list == [] || Bytes(list) <= capacity)
    && forall i :: 0 <= i < |list| ==> LastPut(ops, list[i].key) == Some(list[i].data)
  }

  lemma {:induction false} FoundIs(list: seq<Entry>, key: Key) returns (i: nat)
    requires DistinctKeys(list) && Holds(list, key)
    ensures i < |list| && list[i] == Found(list, key) && list[i].key == key
  {
    i :| i < |list| && list[i].key == key && Found(list, key) == list[i];
  }

  /** After any gets, puts and removals, a pool holds at most one entry for a key, the one last put
      and not removed since, and never more bytes than its capacity. */
  lemma {:induction false} PoolHoldsLastPut(capacity: int, ops: seq<PoolOp>)
    ensures HoldsLast(AfterOps(capacity, ops), capacity, ops)
  {
    hide Bytes, Drop, Fit;
    if ops != [] {
      var front, op := ops[..|ops| - 1], ops[|ops| - 1];
      PoolHoldsLastPut(capacity, front);
      var list := AfterOps(capacity, front);
      match op {
        case GetOp(key) =>
          if capacity != 0 && Holds(list, key) {
            var i := FoundIs(list, key);
            FrontHoldsLast(list, capacity, front, ops, list[i]);
            TakeOut(list, i);
            OneEntry(list[i]);
            BytesConcat([list[i]], Drop(list, key));
          }
        case PutOp(entry) => FrontHoldsLast(list, capacity, front, ops, entry);
        case RemoveOp(key) =>
          DropKeeps(list, key);
          DropHolds(list, key, key);
          if list == [] {
            DropAbsent(list, key);
          }
      }
    }
  }

  /** An entry in front of the others. */
  lemma FrontHoldsLast(list: seq<Entry>, capacity: int, front: seq<PoolOp>, ops: seq<PoolOp>, first: Entry)
    requires HoldsLast(list, capacity, front) && LastPut(ops, first.key) == Some(first.data)
    requires forall key :: key != first.key ==> LastPut(ops, key) == LastPut(front, key)
    ensures var all := [first] + Drop(list, first.key);
      DistinctKeys(all) && forall i :: 0 <= i < |all| ==> LastPut(ops, all[i].key) == Some(all[i].data)
  {
    hide Bytes, Drop, LastPut;
    DropKeeps(list, first.key);
  }

  /** What was put can be got at once, as the most recent entry, exactly if it fits the pool at all. */
  lemma PutThenHeld(list: seq<Entry>, capacity: int, entry: Entry)
    requires capacity != 0
    ensures AfterPut(list, capacity, entry) == [] <==> |entry.data| > capacity
    ensures |entry.data| <= capacity ==> AfterPut(list, capacity, entry)[0] == entry
  {
    hide Bytes, Drop, Fit;
    var all := [entry] + Drop(list, entry.key);
    var kept := Fit(all, capacity);
    OneEntry(entry);
    if |entry.data| <= capacity {
      FitIsLongest(all, capacity, [entry]);
    } else if kept != [] {
      assert kept == [entry] + kept[1..];
      BytesConcat([entry], kept[1..]);
    }
  }

  function PutBytes(ops: seq<PoolOp>): nat {
    if ops == [] then 0
    else PutBytes(ops[..|ops| - 1]) + if ops[|ops| - 1].PutOp? then |ops[|ops| - 1].entry.data| else 0
  }

  /** As long as all that was ever put fits, nothing is evicted: a key is held exactly if it was
      put and not removed since. */
  lemma {:induction false} NothingEvicted(capacity: int, ops: seq<PoolOp>, key: Key)
    requires capacity != 0 && PutBytes(ops) <= capacity
    ensures Holds(AfterOps(capacity, ops), key) <==> LastPut(ops, key).Some?
    ensures Bytes(AfterOps(capacity, ops)) <= PutBytes(ops)
  {
    hide Bytes, Drop, Holds;
    if ops == [] {
      EmptyHoldsNothing(key);
    } else {
      var front, op := ops[..|ops| - 1], ops[|ops| - 1];
      NothingEvicted(capacity, front, key);
      PoolHoldsLastPut(capacity, front);
      var list := AfterOps(capacity, front);
      match op {
        case GetOp(k) =>
          if Holds(list, k) {
            var i := FoundIs(list, k);
            TakeOut(list, i);
            DropHolds(list, k, key);
            HoldsInFront(list[i], Drop(list, k), key);
            HoldsAt(list, i);
            OneEntry(list[i]);
            BytesConcat([list[i]], Drop(list, k));
          }
        case PutOp(entry) =>
          DropHolds(list, entry.key, key);
          HoldsInFront(entry, Drop(list, entry.key), key);
          OneEntry(entry);
          BytesConcat([entry], Drop(list, entry.key));
        case RemoveOp(k) => DropHolds(list, k, key);
      }
    }
  }

  lemma EmptyHoldsNothing(key: Key)
    ensures !Holds([], key) && Bytes([]) == 0
  {
  }

  lemma HoldsAt(list: seq<Entry>, i: nat)
    requires i < |list|
    ensures Holds(list, list[i].key)
  {
  }

  // ---------- The pool ----------

  ghost predicate InStep(lru: seq<Key>, entries: map<Key, CacheEntry>) {
    && (forall i, j :: 0 <= i < j < |lru| ==> lru[i] != lru[j])
    && (forall i :: 0 <= i < |lru| ==> lru[i] in entries)
    && (forall k :: k in entries ==> k in lru && entries[k].size == |entries[k].data|)
  }

  ghost function Recency(lru: seq<Key>, entries: map<Key, CacheEntry>): (r: seq<Entry>)
    requires forall i :: 0 <= i < |lru| ==> lru[i] in entries
    ensures |r| == |lru|
  {
    seq(|lru|, i requires 0 <= i < |lru| => Entry(lru[i], entries[lru[i]].data))
  }

  function IndexOf(lru: seq<Key>, key: Key): (i: nat)
    requires key in lru
    ensures i < |lru| && lru[i] == key
  {
    if lru[0] == key then 0 else 1 + IndexOf(lru[1..], key)
  }

  class BufferPool {
    const capacity: int
    var used: int
    var entries: map<Key, CacheEntry>
    var lru: seq<Key>

    ghost predicate Valid()
      reads this
    {
      InStep(lru, entries) && used == Bytes(Recency(lru, entries))
    }

    ghost function Contents(): seq<Entry>
      reads this
      requires Valid()
    {
      Recency(lru, entries)
    }

    constructor (capacity: int)
      ensures Valid() && Contents() == [] && this.capacity == capacity
    {
      this.capacity := capacity;
      used, entries, lru := 0, map[], [];
    }

    method MoveToFront(key: Key)
      requires Valid() && key in entries
      modifies this`lru
      ensures Valid()
      ensures old(Holds(Contents(), key))
      ensures Contents() == [Entry(key, entries[key].data)] + Drop(old(Contents()), key)
      ensures old(Found(Contents(), key)) == Entry(key, entries[key].data)
    {
      var i := IndexOf(lru, key);
      ghost var list := Contents();
      assert list[i].key == key;
      MoveForm(lru, entries, i);
      lru := [key] + lru[..i] + lru[i + 1..];
    }

    method Get(key: Key) returns (r: Option<seq<Byte>>)
      requires Valid()
      modifies this`lru
      ensures Valid() && Contents() == AfterGet(old(Contents()), capacity, key)
      ensures r.Some? <==> capacity != 0 && old(Holds(Contents(), key))
      ensures r.Some? ==> r.value == old(Found(Contents(), key)).data
    {
      if capacity == 0 {
        return None;
      }
      if key !in entries {
        NotHeld(lru, entries, key);
        return None;
      }
      MoveToFront(key);
      return Some(entries[key].data);
    }

    method Put(key: Key, data: seq<Byte>)
      requires Valid()
      modifies this
      ensures Valid() && Contents() == AfterPut(old(Contents()), capacity, Entry(key, data))
    {
      hide Bytes, Drop, InStep, Recency, Fit;
      if capacity == 0 {
        return;
      }
      var size := |data|;
      if key in entries {
        InLru(lru, entries, key);
        var i := IndexOf(lru, key);
        ReplaceForm(lru, entries, i, data);
        used := used - entries[key].size;
        entries := entries[key := CacheEntry(data, size)];
        used := used + size;
        lru := [key] + lru[..i] + lru[i + 1..];
      } else {
        InsertForm(lru, entries, key, data);
        lru := [key] + lru;
        entries := entries[key := CacheEntry(data, size)];
        used := used + size;
      }
      Evict();
    }

    method Remove(key: Key)
      requires Valid()
      modifies this
      ensures Valid() && Contents() == Drop(old(Contents()), key)
    {
      if key !in entries {
        NotHeld(lru, entries, key);
        DropAbsent(Contents(), key);
        return;
      }
      var i := IndexOf(lru, key);
      RemoveForm(lru, entries, i);
      used := used - entries[key].size;
      lru := lru[..i] + lru[i + 1..];
      entries := entries - {key};
    }

    method Stats() returns (bytes: int, count: nat)
      requires Valid()
      ensures bytes == Bytes(Contents()) && count == |entries|
    {
      return used, |entries|;
    }

    method Evict()
      requires Valid()
      modifies this
      ensures Valid() && Contents() == Fit(old(Contents()), capacity)
    {
      hide Bytes, Drop, InStep, Recency;
      EmptyPool(entries);
      while used > capacity
        invariant Valid()
        invariant Fit(Contents(), capacity) == Fit(old(Contents()), capacity)
        decreases |lru|
      {
        if |lru| == 0 {
          return;
        }
        var last := |lru| - 1;
        var key := lru[last];
        DropLast(lru, entries);
        used := used - entries[key].size;
        lru := lru[..last];
        entries := entries - {key};
      }
    }
  }

  lemma InLru(lru: seq<Key>, entries: map<Key, CacheEntry>, key: Key)
    requires InStep(lru, entries) && key in entries
    ensures key in lru
  {
  }

  lemma NotHeld(lru: seq<Key>, entries: map<Key, CacheEntry>, key: Key)
    requires InStep(lru, entries) && key !in entries
    ensures !Holds(Recency(lru, entries), key)
  {
  }

  lemma RecencyKeys(lru: seq<Key>, entries: map<Key, CacheEntry>)
    requires InStep(lru, entries)
    ensures DistinctKeys(Recency(lru, entries))
  {
  }

  lemma RemoveInStep(lru: seq<Key>, entries: map<Key, CacheEntry>, i: nat)
    requires InStep(lru, entries) && i < |lru|
    ensures InStep(lru[..i] + lru[i + 1..], entries - {lru[i]})
  {
    var rest := lru[..i] + lru[i + 1..];
    forall k | k in entries - {lru[i]} ensures k in rest {
      var j :| 0 <= j < |lru| && lru[j] == k;
      assert k == if j < i then rest[j] else rest[j - 1];
    }
  }

  lemma RemoveForm(lru: seq<Key>, entries: map<Key, CacheEntry>, i: nat)
    requires InStep(lru, entries) && i < |lru|
    ensures InStep(lru[..i] + lru[i + 1..], entries - {lru[i]})
    ensures Recency(lru[..i] + lru[i + 1..], entries - {lru[i]}) == Drop(Recency(lru, entries), lru[i])
    ensures Bytes(Recency(lru[..i] + lru[i + 1..], entries - {lru[i]})) ==
            Bytes(Recency(lru, entries)) - entries[lru[i]].size
  {
    hide Bytes, Drop;
    var list := Recency(lru, entries);
    RemoveInStep(lru, entries, i);
    RecencyKeys(lru, entries);
    TakeOut(list, i);
    assert Recency(lru[..i] + lru[i + 1..], entries - {lru[i]}) == list[..i] + list[i + 1..];
  }

  /** One turn of the eviction loop. */
  lemma DropLast(lru: seq<Key>, entries: map<Key, CacheEntry>)
    requires InStep(lru, entries) && lru != []
    ensures var last := |lru| - 1;
      && lru[last] in entries
      && InStep(lru[..last], entries - {lru[last]})
      && Recency(lru[..last], entries - {lru[last]}) == Recency(lru, entries)[..last]
      && Bytes(Recency(lru[..last], entries - {lru[last]})) == Bytes(Recency(lru, entries)) - entries[lru[last]].size
      && Recency(lru, entries) != []
  {
    hide Bytes, Drop;
    var last, list := |lru| - 1, Recency(lru, entries);
    RemoveForm(lru, entries, last);
    RecencyKeys(lru, entries);
    TakeOut(list, last);
    assert lru[..last] + lru[last + 1..] == lru[..last];
    assert list[..last] + list[last + 1..] == list[..last];
  }

  lemma EmptyPool(entries: map<Key, CacheEntry>)
    ensures Recency([], entries) == []
  {
  }

  lemma InsertForm(lru: seq<Key>, entries: map<Key, CacheEntry>, key: Key, data: seq<Byte>)
    requires InStep(lru, entries) && key !in entries
    ensures InStep([key] + lru, entries[key := CacheEntry(data, |data|)])
    ensures Recency([key] + lru, entries[key := CacheEntry(data, |data|)]) ==
            [Entry(key, data)] + Drop(Recency(lru, entries), key)
    ensures Bytes(Recency([key] + lru, entries[key := CacheEntry(data, |data|)])) ==
            Bytes(Recency(lru, entries)) + |data|
  {
    hide Bytes, Drop;
    var list := Recency(lru, entries);
    NotHeld(lru, entries, key);
    DropAbsent(list, key);
    OneEntry(Entry(key, data));
    BytesConcat([Entry(key, data)], list);
    assert Recency([key] + lru, entries[key := CacheEntry(data, |data|)]) == [Entry(key, data)] + list;
  }

  lemma ReplaceForm(lru: seq<Key>, entries: map<Key, CacheEntry>, i: nat, data: seq<Byte>)
    requires InStep(lru, entries) && i < |lru|
    ensures var moved, both := [lru[i]] + lru[..i] + lru[i + 1..], entries[lru[i] := CacheEntry(data, |data|)];
      && InStep(moved, both)
      && Recency(moved, both) == [Entry(lru[i], data)] + Drop(Recency(lru, entries), lru[i])
      && Bytes(Recency(moved, both)) == Bytes(Recency(lru, entries)) - entries[lru[i]].size + |data|
  {
    hide Bytes, Drop;
    var key, rest, others := lru[i], lru[..i] + lru[i + 1..], entries - {lru[i]};
    RemoveForm(lru, entries, i);
    InsertForm(rest, others, key, data);
    NotHeld(rest, others, key);
    DropAbsent(Recency(rest, others), key);
    assert others[key := CacheEntry(data, |data|)] == entries[key := CacheEntry(data, |data|)];
    assert [key] + rest == [key] + lru[..i] + lru[i + 1..];
  }

  lemma MoveForm(lru: seq<Key>, entries: map<Key, CacheEntry>, i: nat)
    requires InStep(lru, entries) && i < |lru|
    ensures var list, moved := Recency(lru, entries), [lru[i]] + lru[..i] + lru[i + 1..];
      && InStep(moved, entries)
      && Recency(moved, entries) == [Entry(lru[i], entries[lru[i]].data)] + Drop(list, lru[i])
      && Bytes(Recency(moved, entries)) == Bytes(list)
  {
    ReplaceForm(lru, entries, i, entries[lru[i]].data);
    assert entries[lru[i] := CacheEntry(entries[lru[i]].data, |entries[lru[i]].data|)] == entries;
  }
}
