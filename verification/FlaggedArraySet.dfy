/** The indexed transaction cache (c++/flaggedarrayset.cpp, c++/flaggedarrayset.h). */
module FlaggedArraySets {
  import opened Basics
  import opened TxCache

  /** A node of the hash table: the stored value is the element's position plus the offset. */
  datatype Slot = Slot(flag: nat, elemHash: Hash, second: nat)

  /** The list after removing by index, one after the other. */
  function RemoveEach<T>(l: seq<T>, idx: seq<nat>): (r: seq<T>)
  {
    if idx == [] then l
    else RemoveAt(RemoveEach(l, idx[..|idx| - 1]), idx[|idx| - 1])
  }

  /** max_remove: the last pending index, 0 when there is none. */
  function Last(idx: seq<nat>): (r: nat)
  {
    if idx == [] then 0 else idx[|idx| - 1]
  }

  /** Pending removals from a list of n: ascending, and the k-th sits k places further on in the
      untouched list. */
  ghost predicate Pending(n: nat, idx: seq<nat>)
  {
    idx == [] ||
    var k := |idx| - 1;
    Pending(n, idx[..k]) && Last(idx[..k]) <= idx[k] && idx[k] + k < n
  }

  lemma {:induction false} PendingPrefix(n: nat, idx: seq<nat>, k: nat)
    requires Pending(n, idx) && k <= |idx|
    ensures Pending(n, idx[..k]) && (k < |idx| ==> Last(idx[..k]) <= idx[k] && idx[k] + k < n)
  {
    if k == |idx| {
      assert idx[..k] == idx;
    } else if k < |idx| - 1 {
      var front := idx[..|idx| - 1];
      PendingPrefix(n, front, k);
      assert front[..k] == idx[..k];
    }
  }

  /** The flags of the pending elements, read off the untouched list. */
  ghost function PendingFlags(l: Cache, idx: seq<nat>): (r: nat)
    requires Pending(|l|, idx)
  {
    if idx == [] then 0
    else
      var k := |idx| - 1;
      PendingFlags(l, idx[..k]) + l[idx[k] + k].flag
  }

  lemma NothingPending(l: Cache)
    ensures Pending(|l|, []) && PendingFlags(l, []) == 0 && RemoveEach(l, []) == l
  {
  }

  /** From the last pending index on, logical element x is stored |idx| places further on. */
  lemma {:induction false} LogicalPosition<T>(l: seq<T>, idx: seq<nat>)
    requires Pending(|l|, idx)
    ensures var r := RemoveEach(l, idx);
            && |r| == |l| - |idx|
            && forall x :: Last(idx) <= x < |r| ==> r[x] == l[x + |idx|]
  {
    if idx != [] {
      var k := |idx| - 1;
      LogicalPosition(l, idx[..k]);
      var r, i := RemoveEach(l, idx[..k]), idx[k];
      assert Last(idx[..k]) <= i < |r|;
      forall x | i <= x < |r| - 1
        ensures RemoveAt(r, i)[x] == l[x + |idx|]
      {
        assert RemoveAt(r, i)[x] == r[x + 1];
      }
    }
  }

  lemma {:induction false} PendingFlagSum(l: Cache, idx: seq<nat>)
    requires Pending(|l|, idx)
    ensures FlagSum(RemoveEach(l, idx)) + PendingFlags(l, idx) == FlagSum(l)
  {
    hide FlagSum, RemoveAt;
    if idx != [] {
      var k := |idx| - 1;
      var r, i := RemoveEach(l, idx[..k]), idx[k];
      LogicalPosition(l, idx[..k]);
      assert Last(idx[..k]) <= i < |r|;
      PendingFlagSum(l, idx[..k]);
      FlagSumRemove(r, i);
    }
  }

  /** One more removal, at or behind the last pending one. */
  lemma PushPending(l: Cache, idx: seq<nat>, i: nat)
    requires Pending(|l|, idx) && Last(idx) <= i && i + |idx| < |l|
    ensures Pending(|l|, idx + [i])
    ensures PendingFlags(l, idx + [i]) == PendingFlags(l, idx) + l[i + |idx|].flag
    ensures var r := RemoveEach(l, idx);
            && i < |r| && r[i] == l[i + |idx|]
            && RemoveEach(l, idx + [i]) == RemoveAt(r, i)
            && FlagSum(RemoveAt(r, i)) <= FlagSum(r)
  {
    hide FlagSum, RemoveAt;
    var idx' := idx + [i];
    assert idx'[..|idx|] == idx && idx'[|idx|] == i;
    LogicalPosition(l, idx);
    FlagSumRemove(RemoveEach(l, idx), i);
  }

  /** The hash table m and the position vector idx describe each other: each stored value is a
      position plus the offset. */
  ghost predicate IndexedBy(m: map<Bytes, Slot>, idx: seq<Bytes>, offset: nat, hash: Bytes -> Hash)
  {
    && (forall i :: 0 <= i < |idx| ==> idx[i] in m && m[idx[i]].second == i + offset)
    && (forall e :: e in m ==>
          && offset <= m[e].second < offset + |idx|
          && idx[m[e].second - offset] == e
          && m[e].elemHash == hash(e))
  }

  ghost function Listed(m: map<Bytes, Slot>, idx: seq<Bytes>): (r: Cache)
  {
    seq(|idx|, i requires 0 <= i < |idx| => Entry(idx[i], if idx[i] in m then m[idx[i]].flag else 0))
  }

  /** The list the table and the vector stand for, if they agree. */
  ghost function TableList(m: map<Bytes, Slot>, idx: seq<Bytes>, offset: nat, hash: Bytes -> Hash): (r: Option<Cache>)
  {
    if IndexedBy(m, idx, offset, hash) then Some(Listed(m, idx)) else None
  }

  /** m' renumbers every element of m but the one at index to its place without that one. */
  ghost predicate Renumbered(m: map<Bytes, Slot>, m': map<Bytes, Slot>, offset: nat, offset': nat, index: nat)
  {
    && m'.Keys == m.Keys
    && forall e :: e in m ==>
         && m'[e].flag == m[e].flag && m'[e].elemHash == m[e].elemHash
         && (m[e].second < offset + index ==> m'[e].second - offset' == m[e].second - offset)
         && (m[e].second > offset + index ==> m'[e].second - offset' == m[e].second - offset - 1)
  }

  /** The table with delta added to the stored values of positions lo..hi. */
  ghost function Shift(m: map<Bytes, Slot>, offset: nat, lo: nat, hi: nat, delta: int): (r: map<Bytes, Slot>)
  {
    map e | e in m ::
      if lo <= m[e].second - offset < hi && m[e].second + delta >= 0
      then Slot(m[e].flag, m[e].elemHash, m[e].second + delta) else m[e]
  }

  /** Both ways of renumbering: the elements in front go up with the offset, or those behind go
      down; then the element itself is dropped. */
  lemma Drop(m: map<Bytes, Slot>, idx: seq<Bytes>, offset: nat, front: bool, index: nat, hash: Bytes -> Hash)
    requires TableList(m, idx, offset, hash).Some? && index < |idx|
    ensures var m' := if front then Shift(m, offset, 0, index, 1) else Shift(m, offset, index + 1, |idx|, -1);
            var offset' := if front then offset + 1 else offset;
            TableList(m' - {idx[index]}, RemoveAt(idx, index), offset', hash)
            == Some(RemoveAt(TableList(m, idx, offset, hash).value, index))
  {
    var m' := if front then Shift(m, offset, 0, index, 1) else Shift(m, offset, index + 1, |idx|, -1);
    var offset' := if front then offset + 1 else offset;
    assert Renumbered(m, m', offset, offset', index);
    DropIndexed(m, m', idx, offset, offset', index, hash);
    assert forall i :: 0 <= i < |idx| ==> m[idx[i]].second == i + offset;
    DropListed(m, m', idx, index);
  }

  lemma DropIndexed(m: map<Bytes, Slot>, m': map<Bytes, Slot>, idx: seq<Bytes>, offset: nat, offset': nat,
                    index: nat, hash: Bytes -> Hash)
    requires IndexedBy(m, idx, offset, hash) && index < |idx|
    requires Renumbered(m, m', offset, offset', index)
    ensures IndexedBy(m' - {idx[index]}, RemoveAt(idx, index), offset', hash)
  {
    var r, d := m' - {idx[index]}, RemoveAt(idx, index);
    forall i | 0 <= i < |d|
      ensures d[i] in r && r[d[i]].second == i + offset'
    {
      RemovedAt(idx, index, if i < index then i else i + 1);
      DropPlace(m, m', idx, offset, offset', index, hash, if i < index then i else i + 1);
    }
    hide Renumbered, RemoveAt;
    forall e | e in r
      ensures offset' <= r[e].second < offset' + |d| && d[r[e].second - offset'] == e && r[e].elemHash == hash(e)
    {
      DropSlot(m, m', idx, offset, offset', index, hash, e);
    }
  }

  /** The slot at one place that stays. */
  lemma DropPlace(m: map<Bytes, Slot>, m': map<Bytes, Slot>, idx: seq<Bytes>, offset: nat, offset': nat,
                  index: nat, hash: Bytes -> Hash, p: nat)
    requires IndexedBy(m, idx, offset, hash) && index < |idx|
    requires Renumbered(m, m', offset, offset', index)
    requires p < |idx| && p != index
    ensures idx[p] in m' && idx[p] != idx[index]
    ensures m'[idx[p]].second == offset' + if p < index then p else p - 1
  {
  }

  /** The slot of one element that stays. */
  lemma DropSlot(m: map<Bytes, Slot>, m': map<Bytes, Slot>, idx: seq<Bytes>, offset: nat, offset': nat,
                 index: nat, hash: Bytes -> Hash, e: Bytes)
    requires IndexedBy(m, idx, offset, hash) && index < |idx|
    requires Renumbered(m, m', offset, offset', index)
    requires e in m && e != idx[index]
    ensures var s, d := m'[e].second, RemoveAt(idx, index);
            offset' <= s < offset' + |d| && d[s - offset'] == e && m'[e].elemHash == hash(e)
  {
    var p: nat := m[e].second - offset;
    hide IndexedBy, RemoveAt;
    RemovedAt(idx, index, p);
  }

  /** Where an element that stays is found. */
  lemma RemovedAt<T>(s: seq<T>, i: nat, p: nat)
    requires i < |s| && p < |s| && p != i
    ensures |RemoveAt(s, i)| == |s| - 1 && RemoveAt(s, i)[if p < i then p else p - 1] == s[p]
  {
  }

  lemma DropListed(m: map<Bytes, Slot>, m': map<Bytes, Slot>, idx: seq<Bytes>, index: nat)
    requires index < |idx|
    requires forall i :: 0 <= i < |idx| ==> idx[i] in m && idx[i] in m' && m'[idx[i]].flag == m[idx[i]].flag
    requires forall i :: 0 <= i < |idx| && i != index ==> idx[i] != idx[index]
    ensures Listed(m' - {idx[index]}, RemoveAt(idx, index)) == RemoveAt(Listed(m, idx), index)
  {
  }

  /** What the table says about the element at position i. */
  lemma TableAt(m: map<Bytes, Slot>, idx: seq<Bytes>, offset: nat, hash: Bytes -> Hash, i: nat)
    requires TableList(m, idx, offset, hash).Some?
    ensures var c := TableList(m, idx, offset, hash).value;
            && |c| == |idx|
            && (i < |idx| ==>
                  && idx[i] in m && c[i] == Entry(idx[i], m[idx[i]].flag)
                  && m[idx[i]].elemHash == hash(idx[i]) && m[idx[i]].second == i + offset)
  {
  }

  lemma Find(m: map<Bytes, Slot>, idx: seq<Bytes>, offset: nat, hash: Bytes -> Hash, e: Bytes)
    requires TableList(m, idx, offset, hash).Some?
    ensures var c := TableList(m, idx, offset, hash).value;
            && Distinct(c)
            && (e in m <==> IndexOf(c, e) >= 0)
            && (e in m ==> IndexOf(c, e) == m[e].second - offset)
  {
    var c := TableList(m, idx, offset, hash).value;
    assert forall i :: 0 <= i < |c| ==> m[c[i].elem].second == i + offset;
    if e in m {
      IndexOfUnique(c, m[e].second - offset);
    }
  }

  class FlaggedArraySet {
    const lim: Limits
    const hash: Bytes -> Hash
    var flagTotal: nat
    var offset: nat
    var backingMap: map<Bytes, Slot>
    var indexMap: seq<Bytes>
    var toBeRemoved: seq<nat>
    var maxRemove: nat
    var flagsToRemove: nat

    /** The stored list, pending removals included. */
    ghost function Stored(): (r: Option<Cache>)
      reads this
    {
      TableList(backingMap, indexMap, offset, hash)
    }

    /** The logical list. */
    ghost function Contents(): (r: Cache)
      requires Stored().Some?
      reads this
    {
      RemoveEach(Stored().value, toBeRemoved)
    }

    /** What sanity_check asserts, and the limits. */
    ghost predicate Valid()
      reads this
    {
      && Stored().Some?
      && flagTotal == FlagSum(Stored().value)
      && Pending(|indexMap|, toBeRemoved)
      && maxRemove == Last(toBeRemoved)
      && flagsToRemove == PendingFlags(Stored().value, toBeRemoved)
      && Meets(Contents(), lim)
    }

    constructor (lim: Limits, hash: Bytes -> Hash)
      ensures Valid() && Contents() == [] && this.lim == lim && this.hash == hash
    {
      this.lim, this.hash := lim, hash;
      flagTotal, offset, flagsToRemove, maxRemove := 0, 0, 0, 0;
      backingMap, indexMap, toBeRemoved := map[], [], [];
    }

    method Clear()
      modifies this
      ensures Valid() && Contents() == []
    {
      flagTotal, offset, flagsToRemove, maxRemove := 0, 0, 0, 0;
      backingMap, indexMap, toBeRemoved := map[], [], [];
    }

    /** Adds delta to the stored value of the elements at lo..hi. */
    method Renumber(lo: nat, hi: nat, delta: int)
      requires Stored().Some? && lo <= hi <= |indexMap|
      requires lo < hi ==> 0 <= lo + offset + delta
      modifies this`backingMap
      ensures backingMap == Shift(old(backingMap), offset, lo, hi, delta)
    {
      var i := lo;
      while i < hi
        invariant lo <= i <= hi
        invariant backingMap == Shift(old(backingMap), offset, lo, i, delta)
      {
        var e := indexMap[i];
        var s := backingMap[e];
        backingMap := backingMap[e := Slot(s.flag, s.elemHash, s.second + delta)];
        i := i + 1;
      }
    }

    /** The two branches of remove_: renumbers the shorter side. */
    method RenumberAround(index: nat)
      requires Stored().Some? && index < |indexMap|
      modifies this`offset, this`backingMap
      ensures TableList(backingMap - {indexMap[index]}, RemoveAt(indexMap, index), offset, hash)
              == Some(RemoveAt(old(Stored().value), index))
    {
      hide TableList, Shift;
      ghost var m := backingMap;
      if index < |indexMap| / 2 {
        Renumber(0, index, 1);
        Drop(m, indexMap, offset, true, index, hash);
        offset := offset + 1;
      } else {
        Renumber(index + 1, |indexMap|, -1);
        Drop(m, indexMap, offset, false, index, hash);
      }
    }

    /** remove_ */
    method RemoveStored(index: nat)
      requires Stored().Some? && flagTotal == FlagSum(Stored().value)
      requires index < |indexMap|
      modifies this`flagTotal, this`offset, this`backingMap, this`indexMap
      ensures Stored() == Some(RemoveAt(old(Stored().value), index))
      ensures flagTotal == FlagSum(Stored().value)
    {
      FlagSumRemove(Stored().value, index);
      var rm := indexMap[index];
      flagTotal := flagTotal - backingMap[rm].flag;
      RenumberAround(index);
      backingMap := backingMap - {rm};
      indexMap := RemoveAt(indexMap, index);
    }

    /** cleanup_late_remove: carries out the pending removals. */
    method CleanupLateRemove()
      requires Valid()
      modifies this
      ensures Valid() && toBeRemoved == [] && flagsToRemove == 0 && maxRemove == 0
      ensures Contents() == old(Contents()) == Stored().value
    {
      hide TableList, PendingFlags;
      ghost var was := Stored().value;
      NothingPending(was);
      TableAt(backingMap, indexMap, offset, hash, 0);
      var i := 0;
      while i < |toBeRemoved|
        invariant 0 <= i <= |toBeRemoved|
        invariant toBeRemoved == old(toBeRemoved)
        invariant Stored() == Some(RemoveEach(was, toBeRemoved[..i]))
        invariant flagTotal == FlagSum(Stored().value)
      {
        assert toBeRemoved[..i + 1][..i] == toBeRemoved[..i];
        PendingPrefix(|was|, toBeRemoved, i);
        LogicalPosition(was, toBeRemoved[..i]);
        TableAt(backingMap, indexMap, offset, hash, 0);
        RemoveStored(toBeRemoved[i]);
        i := i + 1;
      }
      assert toBeRemoved[..i] == toBeRemoved;
      toBeRemoved := [];
      flagsToRemove, maxRemove := 0, 0;
      NothingPending(Stored().value);
    }

    function Size(): (r: int)
      reads this
    {
      |backingMap| - |toBeRemoved|
    }

    function FlagCount(): (r: int)
      reads this
    {
      flagTotal - flagsToRemove
    }

    /** Both views discount the pending removals. */
    lemma Views()
      requires Valid()
      ensures Size() == |Contents()| && FlagCount() == FlagSum(Contents())
    {
      LogicalPosition(Stored().value, toBeRemoved);
      PendingFlagSum(Stored().value, toBeRemoved);
      TableSize(backingMap, indexMap, offset, hash);
    }

    method Contains(e: Bytes) returns (r: bool)
      requires Valid()
      modifies this
      ensures Valid() && Contents() == old(Contents())
      ensures r == (IndexOf(Contents(), e) >= 0)
    {
      hide TableList, PendingFlags, Pending;
      CleanupLateRemove();
      r := e in backingMap;
      Find(backingMap, indexMap, offset, hash, e);
    }

    method ContainsHash(h: Hash) returns (r: bool)
      requires Valid()
      modifies this
      ensures Valid() && Contents() == old(Contents())
      ensures r == exists i :: 0 <= i < |Contents()| && hash(Contents()[i].elem) == h
    {
      hide TableList, PendingFlags, Pending;
      CleanupLateRemove();
      r := false;
      var i := 0;
      TableAt(backingMap, indexMap, offset, hash, 0);
      while i < |indexMap| && !r
        modifies {}
        invariant 0 <= i <= |indexMap|
        invariant r == exists k :: 0 <= k < i && hash(Contents()[k].elem) == h
      {
        TableAt(backingMap, indexMap, offset, hash, i);
        r := backingMap[indexMap[i]].elemHash == h;
        assert r == (hash(Contents()[i].elem) == h);
        i := i + 1;
      }
    }

    /** remove by value: the index the element had, -1 when it is absent. */
    method RemoveValue(e: Bytes) returns (res: int)
      requires Valid()
      modifies this
      ensures Valid()
      ensures res == IndexOf(old(Contents()), e)
      ensures Contents() == if res < 0 then old(Contents()) else RemoveAt(old(Contents()), res)
    {
      hide TableList, PendingFlags, Pending;
      CleanupLateRemove();
      Find(backingMap, indexMap, offset, hash, e);
      if e !in backingMap {
        return -1;
      }
      res := backingMap[e].second - offset;
      TableAt(backingMap, indexMap, offset, hash, res);
      FlagSumRemove(Stored().value, res);
      RemoveStored(res);
      NothingPending(Stored().value);
      TableAt(backingMap, indexMap, offset, hash, 0);
    }

    /** remove by index, done lazily: the effect is that of removing at once.  The branch for an
        index in front of a pending one cannot be reached. */
    method RemoveIndex(index: nat) returns (ok: bool, elem: Bytes, elemHash: Hash)
      requires Valid()
      modifies this
      ensures Valid()
      ensures ok == (index < |old(Contents())|)
      ensures ok ==> elem == old(Contents())[index].elem && elemHash == hash(elem)
      ensures Contents() == RemoveAt(old(Contents()), index)
    {
      hide TableList, PendingFlags, Pending, RemoveEach, FlagSum;
      if index < maxRemove {
        CleanupLateRemove();
      }
      var lookup := index + |toBeRemoved|;
      ghost var l := Stored().value;
      TableAt(backingMap, indexMap, offset, hash, lookup);
      LogicalPosition(l, toBeRemoved);
      if lookup >= |indexMap| {
        return false, [], seq(32, _ => 0);
      }
      PushPending(l, toBeRemoved, index);
      ok, elem := true, indexMap[lookup];
      var s := backingMap[elem];
      elemHash := s.elemHash;
      if index >= maxRemove {
        toBeRemoved := toBeRemoved + [index];
        maxRemove := index;
        flagsToRemove := flagsToRemove + s.flag;
      } else {
        assert false;
      }
    }

    /** add: a new element goes to the back, then the front is evicted until both limits hold. */
    method Add(e: Bytes, flag: nat)
      requires Valid()
      modifies this
      ensures Valid()
      ensures Contents() == Insert(old(Contents()), Entry(e, flag), lim)
    {
      hide TableList, PendingFlags, Pending;
      CleanupLateRemove();
      Find(backingMap, indexMap, offset, hash, e);
      TableSize(backingMap, indexMap, offset, hash);
      if e in backingMap {
        return;
      }
      ghost var c := Stored().value;
      Append(backingMap, indexMap, offset, hash, e, flag);
      FlagSumAppend(c, [Entry(e, flag)]);
      backingMap := backingMap[e := Slot(flag, hash(e), Size() + offset)];
      indexMap := indexMap + [e];
      flagTotal := flagTotal + flag;
      ghost var all := c + [Entry(e, flag)];
      TableSize(backingMap, indexMap, offset, hash);
      while Size() > lim.maxSize || FlagCount() > lim.maxFlagCount
        invariant toBeRemoved == [] && flagsToRemove == 0 && maxRemove == 0
        invariant Stored().Some? && flagTotal == FlagSum(Stored().value)
        invariant Size() == |indexMap| == |Stored().value|
        invariant Evict(Stored().value, lim) == Evict(all, lim)
        decreases |indexMap|
      {
        assert RemoveAt(Stored().value, 0) == Stored().value[1..];
        RemoveStored(0);
        TableSize(backingMap, indexMap, offset, hash);
      }
      NothingPending(Stored().value);
    }

    /** for_all_txn: what the callback is given, in order. */
    method ForAll() returns (elems: seq<Bytes>)
      requires Valid()
      modifies this
      ensures Valid() && Contents() == old(Contents())
      ensures elems == Elems(Contents())
    {
      hide TableList, PendingFlags, Pending;
      CleanupLateRemove();
      TableAt(backingMap, indexMap, offset, hash, 0);
      elems := [];
      var i := 0;
      while i < |indexMap|
        modifies {}
        invariant 0 <= i <= |indexMap|
        invariant |elems| == i && forall k :: 0 <= k < i ==> elems[k] == Contents()[k].elem
      {
        TableAt(backingMap, indexMap, offset, hash, i);
        elems := elems + [indexMap[i]];
        i := i + 1;
      }
    }
  }

  lemma {:induction false} SetSize(idx: seq<Bytes>, s: set<Bytes>)
    requires forall e :: e in s <==> e in idx
    requires forall i, j :: 0 <= i < j < |idx| ==> idx[i] != idx[j]
    ensures |s| == |idx|
  {
    if idx != [] {
      var k := |idx| - 1;
      assert forall e :: e in s - {idx[k]} <==> e in idx[..k];
      SetSize(idx[..k], s - {idx[k]});
    }
  }

  lemma TableSize(m: map<Bytes, Slot>, idx: seq<Bytes>, offset: nat, hash: Bytes -> Hash)
    requires TableList(m, idx, offset, hash).Some?
    ensures |m| == |idx| == |TableList(m, idx, offset, hash).value|
  {
    assert forall i :: 0 <= i < |idx| ==> m[idx[i]].second == i + offset;
    SetSize(idx, m.Keys);
  }

  /** A new element at the back, numbered by the size it finds. */
  lemma Append(m: map<Bytes, Slot>, idx: seq<Bytes>, offset: nat, hash: Bytes -> Hash, e: Bytes, flag: nat)
    requires TableList(m, idx, offset, hash).Some? && e !in m
    ensures TableList(m[e := Slot(flag, hash(e), |idx| + offset)], idx + [e], offset, hash)
            == Some(TableList(m, idx, offset, hash).value + [Entry(e, flag)])
  {
    var m', idx' := m[e := Slot(flag, hash(e), |idx| + offset)], idx + [e];
    assert IndexedBy(m', idx', offset, hash);
    assert Listed(m', idx') == Listed(m, idx) + [Entry(e, flag)];
  }
}
