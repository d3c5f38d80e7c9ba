/** The in-place Merkle reduction (c++/relayprocess.cpp, MerkleTreeBuilder). */
module Merkle {
  import opened Basics

  /** Hash of two nodes, left uninterpreted. */
  type PairHash = (Hash, Hash) -> Hash

  function Min(a: nat, b: nat): (r: nat)
  {
    if a < b then a else b
  }

  /** The row above: an odd row pairs its last node with itself. */
  function Parents(h: PairHash, row: seq<Hash>): (r: seq<Hash>)
    ensures |r| == (|row| + 1) / 2
  {
    seq((|row| + 1) / 2, i requires 0 <= i < (|row| + 1) / 2 =>
      h(row[2 * i], row[Min(2 * i + 1, |row| - 1)]))
  }

  /** The recursive Merkle root. */
  function Root(h: PairHash, row: seq<Hash>): (r: Hash)
    requires row != []
    decreases |row|
  {
    if |row| == 1 then row[0] else Root(h, Parents(h, row))
  }

  /** No row of more than one node ends in two equal nodes. */
  predicate NoTwinTail(h: PairHash, row: seq<Hash>)
    decreases |row|
  {
    |row| > 1 ==> row[|row| - 2] != row[|row| - 1] && NoTwinTail(h, Parents(h, row))
  }

  /** What the builder accepts. */
  predicate Accepts(h: PairHash, row: seq<Hash>, match_: Hash)
    requires row != []
  {
    NoTwinTail(h, row) && Root(h, row) == match_
  }

  /** The number of rows above the leaves. */
  function Height(n: nat): (r: nat)
    requires n > 0
  {
    if n == 1 then 0 else 1 + Height((n + 1) / 2)
  }

  /** If the i-th parents of two rows are equal, they come from equal nodes. */
  ghost predicate SameInputs(h: PairHash, a: seq<Hash>, b: seq<Hash>, i: nat)
    requires i < |Parents(h, a)| && i < |Parents(h, b)|
  {
    Parents(h, a)[i] == Parents(h, b)[i] ==>
      a[2 * i] == b[2 * i] && a[Min(2 * i + 1, |a| - 1)] == b[Min(2 * i + 1, |b| - 1)]
  }

  /** The pair hash does not collide between nodes at the same place of two rows. */
  ghost predicate RowFree(h: PairHash, a: seq<Hash>, b: seq<Hash>)
  {
    forall i :: 0 <= i < |Parents(h, a)| && i < |Parents(h, b)| ==> SameInputs(h, a, b, i)
  }

  /** Nor in any row above, up to the root: nothing is asked of the hash elsewhere. */
  ghost predicate NoCollision(h: PairHash, a: seq<Hash>, b: seq<Hash>)
    decreases |a|
  {
    |a| > 1 && |b| > 1 ==> RowFree(h, a, b) && NoCollision(h, Parents(h, a), Parents(h, b))
  }

  lemma EqualInputs(h: PairHash, a: seq<Hash>, b: seq<Hash>, i: nat)
    requires RowFree(h, a, b) && Parents(h, a) == Parents(h, b) && i < |Parents(h, a)|
    ensures i < (|a| + 1) / 2 == (|b| + 1) / 2
    ensures a[2 * i] == b[2 * i] && a[Min(2 * i + 1, |a| - 1)] == b[Min(2 * i + 1, |b| - 1)]
  {
    assert SameInputs(h, a, b, i);
  }

  /** Equal parents of two rows: the rows agree, unless one has a twin tail. */
  lemma SameParents(h: PairHash, a: seq<Hash>, b: seq<Hash>)
    requires RowFree(h, a, b)
    requires |a| > 1 && |b| > 1 && Parents(h, a) == Parents(h, b)
    requires a[|a| - 2] != a[|a| - 1] && b[|b| - 2] != b[|b| - 1]
    ensures a == b
  {
    var n := |Parents(h, a)|;
    assert n == (|a| + 1) / 2 == (|b| + 1) / 2;
    hide RowFree, Parents;
    EqualInputs(h, a, b, n - 1);
    assert |a| == |b|;
    forall k | 0 <= k < |a|
      ensures a[k] == b[k]
    {
      EqualInputs(h, a, b, k / 2);
    }
  }

  /** Two accepted leaf lists of the same height under the same root are the same list exactly when
      their trees show no collision of the pair hash. */
  lemma {:induction false} AcceptedLeavesAreUnique(h: PairHash, a: seq<Hash>, b: seq<Hash>, root: Hash)
    requires a != [] && b != [] && Height(|a|) == Height(|b|)
    requires Accepts(h, a, root) && Accepts(h, b, root)
    ensures a == b <==> NoCollision(h, a, b)
    decreases |a|
  {
    hide RowFree;
    if |a| > 1 {
      AcceptedLeavesAreUnique(h, Parents(h, a), Parents(h, b), root);
      if RowFree(h, a, b) && Parents(h, a) == Parents(h, b) {
        SameParents(h, a, b);
      }
      if a == b {
        EqualRowsFree(h, a);
      }
    } else {
      assert a == [root];
    }
  }

  lemma EqualRowsFree(h: PairHash, a: seq<Hash>)
    ensures RowFree(h, a, a)
  {
  }

  /** The twin-tail test is what excludes the odd/even ambiguity: doubling the last leaf of an odd
      list keeps the root, and the builder refuses the doubled list. */
  lemma DoubledTailRefused(h: PairHash, a: seq<Hash>)
    requires |a| % 2 == 1 && |a| > 1
    ensures var twin := a + [a[|a| - 1]];
            Root(h, twin) == Root(h, a) && Height(|twin|) == Height(|a|) && forall m :: !Accepts(h, twin, m)
  {
    var twin := a + [a[|a| - 1]];
    assert Parents(h, twin) == Parents(h, a);
  }

  // ---- The root from the top down ----

  function Pow2(k: nat): (r: nat)
    ensures r >= 1
  {
    if k == 0 then 1 else 2 * Pow2(k - 1)
  }

  /** The root of a tree of height k whose leaves are filled from the left: its halves' roots hashed, left
      before right; a half without leaves is a copy of the other. */
  function Tree(h: PairHash, row: seq<Hash>, k: nat): (r: Hash)
    requires row != [] && |row| <= Pow2(k)
    decreases k
  {
    if k == 0 then row[0]
    else
      var m := Pow2(k - 1);
      if |row| <= m then h(Tree(h, row, k - 1), Tree(h, row, k - 1))
      else h(Tree(h, row[..m], k - 1), Tree(h, row[m..], k - 1))
  }

  /** Cut at an even place, a row has the parents of its two parts. */
  lemma ParentsSplit(h: PairHash, row: seq<Hash>, m: nat)
    requires 2 * m < |row|
    ensures m < |Parents(h, row)|
    ensures Parents(h, row)[..m] == Parents(h, row[..2 * m]) && Parents(h, row)[m..] == Parents(h, row[2 * m..])
  {
  }

  lemma {:induction false} TreeOfParents(h: PairHash, row: seq<Hash>, k: nat)
    requires row != [] && |row| <= Pow2(k + 1)
    ensures Parents(h, row) != [] && |Parents(h, row)| <= Pow2(k) && Tree(h, row, k + 1) == Tree(h, Parents(h, row), k)
    decreases k
  {
    hide Parents;
    if k == 0 {
      SmallRow(h, row);
    } else {
      var m := Pow2(k - 1);
      assert Pow2(k) == 2 * m && Pow2(k + 1) == 4 * m;
      if |row| <= 2 * m {
        TreeOfParents(h, row, k - 1);
      } else {
        TreeOfParents(h, row[..2 * m], k - 1);
        TreeOfParents(h, row[2 * m..], k - 1);
        ParentsSplit(h, row, m);
      }
    }
  }

  lemma SmallRow(h: PairHash, row: seq<Hash>)
    requires 1 <= |row| <= Pow2(1)
    ensures |Parents(h, row)| == 1 && Tree(h, row, 1) == Parents(h, row)[0]
  {
    assert Pow2(0) == 1 && Pow2(1) == 2;
  }

  /** Reducing row by row gives the root of the tree. */
  lemma {:induction false} RootIsTree(h: PairHash, row: seq<Hash>)
    requires row != []
    ensures |row| <= Pow2(Height(|row|)) && Root(h, row) == Tree(h, row, Height(|row|))
    decreases |row|
  {
    if |row| > 1 {
      var up, k := Parents(h, row), Height(|row|) - 1;
      assert |up| == (|row| + 1) / 2 && up != [];
      PowStep(|row|, k);
      hide Parents, Tree, Pow2;
      RootIsTree(h, up);
      TreeOfParents(h, row, k);
    }
  }

  lemma PowStep(n: nat, k: nat)
    ensures (n + 1) / 2 <= Pow2(k) ==> n <= Pow2(k + 1)
  {
  }

  // ---- The builder ----

  /** Where the i-th node of a row lies when the nodes of the row are step slots apart. */
  function At(i: nat, step: nat): (r: nat)
  {
    if i == 0 then 0 else At(i - 1, step) + step
  }

  lemma {:induction false} AtIsProduct(i: nat, step: nat)
    ensures At(i, step) == i * step
  {
    if i > 0 {
      AtIsProduct(i - 1, step);
      assert (i - 1) * step + step == i * step;
    }
  }

  lemma {:induction false} AtMono(i: nat, j: nat, step: nat)
    requires i < j
    ensures At(i, step) + step <= At(j, step)
    decreases j
  {
    if i < j - 1 {
      AtMono(i, j - 1, step);
    }
  }

  lemma {:induction false} AtDouble(i: nat, step: nat)
    ensures At(2 * i, step) == At(i, 2 * step)
  {
    if i > 0 {
      AtDouble(i - 1, step);
    }
  }

  /** The slots of the parents placed so far, of node 2p and of the nodes behind it are distinct. */
  lemma Separate(p: nat, rowSize: nat, step: nat)
    requires step >= 1 && 2 * p < rowSize
    ensures forall k :: 0 <= k < p ==> At(k, 2 * step) < At(p, 2 * step)
    ensures forall k :: 2 * p < k < rowSize ==> At(p, 2 * step) < At(k, step)
    ensures At(p, 2 * step) == At(2 * p, step) == 2 * p * step
    ensures Min((2 * p + 1) * step, At(rowSize - 1, step)) == At(Min(2 * p + 1, rowSize - 1), step)
  {
    AtDouble(p, step);
    AtIsProduct(2 * p, step);
    AtIsProduct(2 * p + 1, step);
    forall k | 0 <= k < p
      ensures At(k, 2 * step) < At(p, 2 * step)
    {
      AtMono(k, p, 2 * step);
    }
    forall k | 2 * p < k < rowSize
      ensures At(2 * p, step) < At(k, step)
    {
      AtMono(2 * p, k, step);
    }
    if 2 * p + 2 < rowSize {
      AtMono(2 * p + 1, rowSize - 1, step);
    }
  }

  lemma ParentsAt(h: PairHash, row: seq<Hash>)
    ensures forall k :: 0 <= k < |Parents(h, row)| ==>
              Parents(h, row)[k] == h(row[2 * k], row[Min(2 * k + 1, |row| - 1)])
  {
  }

  class MerkleTreeBuilder {
    const hashlist: array<Hash>

    constructor (txCount: nat)
      ensures fresh(hashlist) && hashlist.Length == txCount
    {
      hashlist := new Hash[txCount](_ => seq(32, _ => 0));
    }

    /** row lies in the list, step slots apart, from node lo on. */
    ghost predicate Holds(row: seq<Hash>, step: nat, lo: nat)
      reads hashlist
    {
      forall k :: lo <= k < |row| ==> At(k, step) < hashlist.Length && hashlist[At(k, step)] == row[k]
    }

    /** The inner loop: every second node of the row becomes a parent. */
    method ReduceRow(h: PairHash, ghost row: seq<Hash>, rowSize: nat, step: nat, lastMax: nat)
      requires |row| == rowSize > 1 && step >= 1 && lastMax == At(rowSize - 1, step)
      requires Holds(row, step, 0)
      modifies hashlist
      ensures Holds(Parents(h, row), 2 * step, 0)
    {
      hide At, Parents;
      ghost var up := Parents(h, row);
      ParentsAt(h, row);
      ghost var p := 0;
      var i := 0;
      while i < rowSize
        invariant i == 2 * p <= rowSize + 1
        invariant Holds(row, step, i)
        invariant forall k :: 0 <= k < p ==>
          At(k, 2 * step) < hashlist.Length && hashlist[At(k, 2 * step)] == up[k]
      {
        Separate(p, rowSize, step);
        assert up[p] == h(row[i], row[Min(i + 1, rowSize - 1)]);
        hashlist[i * step] := h(hashlist[i * step], hashlist[Min((i + 1) * step, lastMax)]);
        i, p := i + 2, p + 1;
      }
    }

    /** merkleRootMatches.  Without leaves the loop is not entered and the comparison at the end reads
        an empty vector: None. */
    method RootMatches(h: PairHash, match_: Hash) returns (r: Option<bool>)
      modifies hashlist
      ensures r == if hashlist.Length == 0 then None else Some(Accepts(h, old(hashlist[..]), match_))
    {
      hide At, Parents, Accepts;
      if hashlist.Length == 0 {
        return None;
      }
      var stepCount, lastMax, rowSize := 1, hashlist.Length - 1, hashlist.Length;
      ghost var row := hashlist[..];
      AtOne(hashlist.Length);
      while rowSize > 1
        invariant |row| == rowSize >= 1 && stepCount >= 1 && lastMax == At(rowSize - 1, stepCount)
        invariant Holds(row, stepCount, 0)
        invariant Accepts(h, row, match_) == Accepts(h, old(hashlist[..]), match_)
      {
        AcceptsRow(h, row, match_);
        LastMax(rowSize, stepCount);
        if hashlist[lastMax - stepCount] == hashlist[lastMax] {
          return Some(false);
        }
        ReduceRow(h, row, rowSize, stepCount, lastMax);
        row := Parents(h, row);
        lastMax := (rowSize - 1) / 2 * 2 * stepCount;
        stepCount := stepCount * 2;
        rowSize := (rowSize + 1) / 2;
      }
      AcceptsRow(h, row, match_);
      r := Some(match_ == hashlist[0]);
      LastMax(1, stepCount);
    }
  }

  lemma AtOne(n: nat)
    ensures forall k :: 0 <= k < n ==> At(k, 1) == k
  {
    forall k | 0 <= k < n
      ensures At(k, 1) == k
    {
      AtIsProduct(k, 1);
    }
  }

  /** Where the last two nodes of a row lie, and where the last node of the row above will. */
  lemma LastMax(rowSize: nat, step: nat)
    requires rowSize >= 1
    ensures At(0, step) == 0
    ensures rowSize > 1 ==> At(rowSize - 1, step) - step == At(rowSize - 2, step)
    ensures (rowSize - 1) / 2 * 2 * step == At((rowSize + 1) / 2 - 1, step * 2)
  {
    AtDouble((rowSize - 1) / 2, step);
    AtIsProduct((rowSize - 1) / 2 * 2, step);
  }

  lemma AcceptsRow(h: PairHash, row: seq<Hash>, match_: Hash)
    requires row != []
    ensures Accepts(h, row, match_) ==
            if |row| == 1 then row[0] == match_
            else row[|row| - 2] != row[|row| - 1] && Accepts(h, Parents(h, row), match_)
  {
  }
}
