/** The picture FlaggedArraySet stands for: a list of distinct elements, each with a flag,
    evicted from the front when it outgrows its limits. */
module TxCache {
  import opened Basics

  datatype Entry = Entry(elem: Bytes, flag: nat)

  /** The largest number of entries and the largest sum of flags a cache may hold. */
  datatype Limits = Limits(maxSize: nat, maxFlagCount: nat)

  type Cache = seq<Entry>

  ghost predicate Distinct(c: Cache)
  {
    forall i, j :: 0 <= i < j < |c| ==> c[i].elem != c[j].elem
  }

  function FlagSum(c: Cache): (r: nat)
  {
    if c == [] then 0 else c[0].flag + FlagSum(c[1..])
  }

  /** The position of an element, -1 when it is absent. */
  function IndexOf(c: Cache, e: Bytes): (r: int)
    ensures -1 <= r < |c|
    ensures r >= 0 ==> c[r].elem == e
    ensures r < 0 ==> forall i :: 0 <= i < |c| ==> c[i].elem != e
  {
    if c == [] then -1
    else if c[0].elem == e then 0
    else var r := IndexOf(c[1..], e); if r < 0 then -1 else r + 1
  }

  predicate Meets(c: Cache, lim: Limits)
  {
    |c| <= lim.maxSize && FlagSum(c) <= lim.maxFlagCount
  }

  function Evict(c: Cache, lim: Limits): (r: Cache)
  {
    if c == [] || Meets(c, lim) then c else Evict(c[1..], lim)
  }

  function Insert(c: Cache, e: Entry, lim: Limits): (r: Cache)
  {
    if IndexOf(c, e.elem) >= 0 then c else Evict(c + [e], lim)
  }

  /** The cache after adding the entries of a list one by one. */
  function InsertAll(c: Cache, es: seq<Entry>, lim: Limits): (r: Cache)
    decreases |es|
  {
    if es == [] then c else InsertAll(Insert(c, es[0], lim), es[1..], lim)
  }

  function Elems(c: Cache): (r: seq<Bytes>)
  {
    seq(|c|, i requires 0 <= i < |c| => c[i].elem)
  }

  lemma {:induction false} FlagSumAppend(a: Cache, b: Cache)
    ensures FlagSum(a + b) == FlagSum(a) + FlagSum(b)
  {
    if a == [] {
      assert a + b == b;
    } else {
      assert (a + b)[1..] == a[1..] + b;
      FlagSumAppend(a[1..], b);
    }
  }

  lemma {:induction false} FlagSumRemove(c: Cache, i: nat)
    requires i < |c|
    ensures FlagSum(c) == c[i].flag + FlagSum(RemoveAt(c, i))
  {
    if i == 0 {
      assert RemoveAt(c, 0) == c[1..];
    } else {
      FlagSumRemove(c[1..], i - 1);
      assert RemoveAt(c, i)[1..] == RemoveAt(c[1..], i - 1);
    }
  }

  lemma IndexOfUnique(c: Cache, i: nat)
    requires Distinct(c) && i < |c|
    ensures IndexOf(c, c[i].elem) == i
  {
  }

  lemma RemoveDistinct(c: Cache, i: nat)
    requires Distinct(c)
    ensures Distinct(RemoveAt(c, i))
  {
  }

  /** Eviction keeps the longest suffix that meets both limits. */
  lemma {:induction false} EvictIsLongestSuffix(c: Cache, lim: Limits)
    ensures var r := Evict(c, lim);
            && |r| <= |c| && r == c[|c| - |r|..] && Meets(r, lim)
            && forall k :: 0 <= k < |c| - |r| ==> !Meets(c[k..], lim)
  {
    if c != [] && !Meets(c, lim) {
      EvictIsLongestSuffix(c[1..], lim);
      forall k | 0 <= k < |c| - |Evict(c, lim)|
        ensures !Meets(c[k..], lim)
      {
        if k == 0 {
          assert c[0..] == c;
        } else {
          assert c[k..] == c[1..][k - 1..];
        }
      }
    }
  }

  lemma InsertKeeps(c: Cache, e: Entry, lim: Limits)
    requires Distinct(c) && Meets(c, lim)
    ensures Distinct(Insert(c, e, lim)) && Meets(Insert(c, e, lim), lim)
  {
    EvictIsLongestSuffix(c + [e], lim);
  }

  lemma PrefixMeets(c: Cache, k: nat, lim: Limits)
    requires k <= |c| && Meets(c, lim)
    ensures Meets(c[..k], lim)
  {
    FlagSumAppend(c[..k], c[k..]);
    assert c == c[..k] + c[k..];
  }

  /** Replaying a cache into the prefix of it already rebuilt evicts nothing. */
  lemma {:induction false} ReplayFrom(c: Cache, k: nat, lim: Limits)
    requires k <= |c| && Distinct(c) && Meets(c, lim)
    ensures InsertAll(c[..k], c[k..], lim) == c
    decreases |c| - k
  {
    if k == |c| {
      assert c[..k] == c;
    } else {
      assert c[..k] + [c[k]] == c[..k + 1];
      PrefixMeets(c, k + 1, lim);
      assert Insert(c[..k], c[k], lim) == c[..k + 1];
      assert c[k..][1..] == c[k + 1..];
      ReplayFrom(c, k + 1, lim);
    }
  }

  /** Adding an element that is present changes nothing. */
  lemma InsertPresent(c: Cache, e: Entry, lim: Limits, i: nat)
    requires i < |c| && c[i].elem == e.elem
    ensures Insert(c, e, lim) == c
  {
    hide IndexOf;
    assert IndexOf(c, e.elem) >= 0;
  }

  /** A new one goes behind what is left of the old entries, which is as many of the last ones as fit. */
  lemma InsertNew(c: Cache, e: Entry, lim: Limits)
    requires forall i :: 0 <= i < |c| ==> c[i].elem != e.elem
    requires lim.maxSize >= 1 && e.flag <= lim.maxFlagCount
    ensures var r := Insert(c, e, lim);
            && 1 <= |r| <= |c| + 1 && r == c[|c| + 1 - |r|..] + [e] && Meets(r, lim)
            && (|r| <= |c| ==> !Meets(c[|c| - |r|..] + [e], lim))
  {
    hide IndexOf, Meets, Evict;
    assert IndexOf(c, e.elem) < 0;
    EvictBehind(c, e, lim);
  }

  lemma EvictBehind(c: Cache, e: Entry, lim: Limits)
    requires lim.maxSize >= 1 && e.flag <= lim.maxFlagCount
    ensures var r := Evict(c + [e], lim);
            && 1 <= |r| <= |c| + 1 && r == c[|c| + 1 - |r|..] + [e] && Meets(r, lim)
            && (|r| <= |c| ==> !Meets(c[|c| - |r|..] + [e], lim))
  {
    var all := c + [e];
    EvictIsLongestSuffix(all, lim);
    LastMeets(e, lim);
    hide Meets, Evict;
    var r := Evict(all, lim);
    assert all[|c|..] == [e];
    assert |r| >= 1;
    SuffixBehind(c, e, |c| + 1 - |r|);
    if |r| <= |c| {
      SuffixBehind(c, e, |c| - |r|);
    }
  }

  lemma SuffixBehind(c: Cache, e: Entry, k: nat)
    requires k <= |c|
    ensures (c + [e])[k..] == c[k..] + [e]
  {
  }

  lemma LastMeets(e: Entry, lim: Limits)
    requires lim.maxSize >= 1 && e.flag <= lim.maxFlagCount
    ensures Meets([e], lim)
  {
    assert [e][1..] == [];
  }
}
