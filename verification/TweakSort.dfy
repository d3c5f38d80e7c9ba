/** The receiver's re-sort of removal indices (c++/relayprocess.cpp). */
module TweakSort {
  import opened Basics

  /** Remove the element at `index` and hand it to block position `pos`. */
  datatype IndexPtr = IndexPtr(index: nat, pos: nat)

  /** What a sequence of removals does: whether every index was in range, the list left over
      and the (position, element) pairs handed out before the first index out of range. */
  datatype Removal<T> = Removal(ok: bool, rest: seq<T>, taken: seq<(nat, T)>)

  function Remove<T>(l: seq<T>, ops: seq<IndexPtr>): (r: Removal<T>)
    decreases |ops|
  {
    if ops == [] then Removal(true, l, [])
    else if ops[0].index >= |l| then Removal(false, l, [])
    else
      var r := Remove(RemoveAt(l, ops[0].index), ops[1..]);
      Removal(r.ok, r.rest, [(ops[0].pos, l[ops[0].index])] + r.taken)
  }

  /** Two removal sequences succeed on the same lists, leave the same list behind and hand
      every position the same element. */
  ghost predicate SameEffect<T>(l: seq<T>, a: seq<IndexPtr>, b: seq<IndexPtr>)
  {
    var ra, rb := Remove(l, a), Remove(l, b);
    ra.ok == rb.ok && (ra.ok ==> ra.rest == rb.rest && multiset(ra.taken) == multiset(rb.taken))
  }

  ghost predicate Ascending(s: seq<IndexPtr>)
  {
    |s| >= 2 ==> s[0].index <= s[1].index && Ascending(s[1..])
  }

  /** Ascending says what its name says. */
  lemma {:induction false} AscendingOrders(s: seq<IndexPtr>, i: nat, j: nat)
    requires Ascending(s) && i <= j < |s|
    ensures s[i].index <= s[j].index
    decreases |s|
  {
    if i > 0 {
      AscendingOrders(s[1..], i - 1, j - 1);
    } else if j > 0 {
      AscendingOrders(s[1..], 0, j - 1);
    }
  }

  /** An ascending run of indices of at least m. */
  ghost predicate Run(s: seq<IndexPtr>, m: nat)
  {
    Ascending(s) && (s != [] ==> m <= s[0].index)
  }

  ghost function Positions(s: seq<IndexPtr>): (r: multiset<nat>)
  {
    if s == [] then multiset{} else multiset{s[0].pos} + Positions(s[1..])
  }

  /** The removal with its index lowered by m (never below 0: the proofs only lower indices
      that are at least m). */
  function LowerBy(p: IndexPtr, m: nat): (r: IndexPtr)
  {
    p.(index := if m <= p.index then p.index - m else 0)
  }

  ghost function Lower(s: seq<IndexPtr>, m: nat): (r: seq<IndexPtr>)
  {
    if s == [] then [] else [LowerBy(s[0], m)] + Lower(s[1..], m)
  }

  lemma {:induction false} LowerRun(s: seq<IndexPtr>, m: nat, k: nat)
    requires Run(s, m + k)
    ensures Run(Lower(s, m), k)
  {
    if s != [] {
      LowerRun(s[1..], m, k);
      assert Lower(s, m)[1..] == Lower(s[1..], m);
    }
  }

  lemma {:induction false} LowerTwice(s: seq<IndexPtr>, m: nat)
    requires Run(s, m + 1)
    ensures Lower(Lower(s, m), 1) == Lower(s, m + 1)
  {
    if s != [] {
      LowerTwice(s[1..], m);
      assert Lower(s, m)[1..] == Lower(s[1..], m);
    }
  }

  lemma {:induction false} LowerByZero(s: seq<IndexPtr>)
    ensures Lower(s, 0) == s
  {
    if s != [] {
      LowerByZero(s[1..]);
    }
  }

  /** The merge of a left run and of a right run of which m elements are already placed. */
  function MergeRuns(left: seq<IndexPtr>, right: seq<IndexPtr>, m: nat): (r: seq<IndexPtr>)
    decreases |left| + |right|
  {
    if left == [] then right
    else if right == [] || left[0].index - m <= right[0].index then
      [LowerBy(left[0], m)] + MergeRuns(left[1..], right, m)
    else
      [right[0]] + MergeRuns(left, right[1..], m + 1)
  }

  /** The list tweak_sort leaves in place of ops. */
  function Tweak(ops: seq<IndexPtr>): (r: seq<IndexPtr>)
    decreases |ops|
  {
    if |ops| < 2 then ops
    else MergeRuns(Tweak(ops[..|ops| / 2]), Tweak(ops[|ops| / 2..]), 0)
  }

  lemma {:induction false} MergeAscending(left: seq<IndexPtr>, right: seq<IndexPtr>, m: nat)
    requires Run(left, m) && Ascending(right)
    ensures var r := MergeRuns(left, right, m);
            && |r| == |left| + |right|
            && Ascending(r)
            && (r != [] ==> (left != [] && r[0].index == left[0].index - m) || (right != [] && r[0] == right[0]))
            && (r != [] && left != [] ==> r[0].index <= left[0].index - m)
            && (r != [] && right != [] ==> r[0].index <= right[0].index)
    decreases |left| + |right|
  {
    if left == [] {
    } else if right == [] || left[0].index - m <= right[0].index {
      MergeAscending(left[1..], right, m);
    } else {
      MergeAscending(left, right[1..], m + 1);
    }
  }

  lemma {:induction false} TweakAscending(ops: seq<IndexPtr>)
    ensures Ascending(Tweak(ops)) && |Tweak(ops)| == |ops|
    decreases |ops|
  {
    if |ops| >= 2 {
      TweakAscending(ops[..|ops| / 2]);
      TweakAscending(ops[|ops| / 2..]);
      MergeAscending(Tweak(ops[..|ops| / 2]), Tweak(ops[|ops| / 2..]), 0);
    }
  }

  lemma Halves(ops: seq<IndexPtr>) returns (a: seq<IndexPtr>, b: seq<IndexPtr>)
    requires |ops| >= 2
    ensures ops == a + b && |a| == |ops| / 2
    ensures Tweak(ops) == MergeRuns(Tweak(a), Tweak(b), 0)
  {
    a, b := ops[..|ops| / 2], ops[|ops| / 2..];
  }

  // ---- Equal effect ----

  lemma RemoveTwice<T>(l: seq<T>, i: nat, j: nat)
    requires j < i < |l|
    ensures RemoveAt(RemoveAt(l, i), j) == RemoveAt(RemoveAt(l, j), i - 1)
    ensures RemoveAt(l, i)[j] == l[j] && RemoveAt(l, j)[i - 1] == l[i]
  {
  }

  lemma Two<T>(l: seq<T>, a: IndexPtr, b: IndexPtr, t: seq<IndexPtr>)
    ensures var r := Remove(l, [a] + ([b] + t));
            if a.index >= |l| || b.index >= |l| - 1 then !r.ok
            else
              var la := RemoveAt(l, a.index);
              var rt := Remove(RemoveAt(la, b.index), t);
              r == Removal(rt.ok, rt.rest, [(a.pos, l[a.index])] + ([(b.pos, la[b.index])] + rt.taken))
  {
  }

  lemma PairSwap<T>(x: T, y: T, t: seq<T>)
    ensures multiset([x] + ([y] + t)) == multiset([y] + ([x] + t))
  {
  }

  /** Taking out a and then b, with b in front of a, is taking out b and then a one lower. */
  lemma SwapHead<T>(l: seq<T>, a: IndexPtr, b: IndexPtr, t: seq<IndexPtr>)
    requires b.index < a.index
    ensures SameEffect(l, [a] + ([b] + t), [b] + ([LowerBy(a, 1)] + t))
  {
    var a' := LowerBy(a, 1);
    Two(l, a, b, t);
    Two(l, b, a', t);
    if a.index < |l| {
      var x, y, la, lb := l[a.index], l[b.index], RemoveAt(l, a.index), RemoveAt(l, b.index);
      RemoveTwice(l, a.index, b.index);
      var r := Remove(RemoveAt(la, b.index), t);
      assert Remove(l, [a] + ([b] + t)) == Removal(r.ok, r.rest, [(a.pos, x)] + ([(b.pos, y)] + r.taken));
      assert Remove(l, [b] + ([a'] + t)) == Removal(r.ok, r.rest, [(b.pos, y)] + ([(a.pos, x)] + r.taken));
      PairSwap((a.pos, x), (b.pos, y), r.taken);
    }
  }

  lemma Cons<T>(l: seq<T>, x: IndexPtr, a: seq<IndexPtr>, b: seq<IndexPtr>)
    requires SameEffect(RemoveAt(l, x.index), a, b)
    ensures SameEffect(l, [x] + a, [x] + b)
  {
  }

  lemma Trans<T>(l: seq<T>, a: seq<IndexPtr>, b: seq<IndexPtr>, c: seq<IndexPtr>)
    requires SameEffect(l, a, b) && SameEffect(l, b, c)
    ensures SameEffect(l, a, c)
  {
  }

  /** Done on the tail of a run, then on its head. */
  lemma BubbleStep<T>(l: seq<T>, a: IndexPtr, b: IndexPtr, tail: seq<IndexPtr>, low: seq<IndexPtr>)
    requires b.index < a.index
    requires SameEffect(RemoveAt(l, a.index), tail, [b] + low)
    ensures SameEffect(l, [a] + tail, [b] + ([LowerBy(a, 1)] + low))
  {
    Cons(l, a, tail, [b] + low);
    SwapHead(l, a, b, low);
    Trans(l, [a] + tail, [a] + ([b] + low), [b] + ([LowerBy(a, 1)] + low));
  }

  /** A removal in front of a whole ascending run can be done before it. */
  lemma {:induction false} Bubble<T>(l: seq<T>, run: seq<IndexPtr>, b: IndexPtr, t: seq<IndexPtr>)
    requires Run(run, b.index + 1)
    ensures SameEffect(l, run + ([b] + t), [b] + (Lower(run, 1) + t))
    decreases |run|
  {
    if run == [] {
      assert run + ([b] + t) == [b] + t && Lower(run, 1) + t == t;
    } else {
      var a, tail := run[0], run[1..];
      Bubble(RemoveAt(l, a.index), tail, b, t);
      BubbleStep(l, a, b, tail + ([b] + t), Lower(tail, 1) + t);
      Uncons(run);
      ConsAppend(a, tail, [b] + t);
      ConsAppend(LowerBy(a, 1), Lower(tail, 1), t);
    }
  }

  lemma {:induction false} MergeSameEffect<T>(l: seq<T>, left: seq<IndexPtr>, right: seq<IndexPtr>, m: nat)
    requires Run(left, m)
    ensures SameEffect(l, Lower(left, m) + right, MergeRuns(left, right, m))
    decreases |left| + |right|
  {
    if left == [] {
      assert Lower(left, m) + right == right;
    } else if right == [] || left[0].index - m <= right[0].index {
      var x := LowerBy(left[0], m);
      MergeSameEffect(RemoveAt(l, x.index), left[1..], right, m);
      Cons(l, x, Lower(left[1..], m) + right, MergeRuns(left[1..], right, m));
      ConsAppend(x, Lower(left[1..], m), right);
    } else {
      MergeSameEffect(RemoveAt(l, right[0].index), left, right[1..], m + 1);
      MergeRightStep(l, left, right[0], right[1..], m, MergeRuns(left, right[1..], m + 1));
      Uncons(right);
    }
  }

  lemma MergeRightStep<T>(l: seq<T>, left: seq<IndexPtr>, b: IndexPtr, t: seq<IndexPtr>, m: nat, merged: seq<IndexPtr>)
    requires Run(left, m + b.index + 1)
    requires SameEffect(RemoveAt(l, b.index), Lower(left, m + 1) + t, merged)
    ensures SameEffect(l, Lower(left, m) + ([b] + t), [b] + merged)
  {
    LowerRun(left, m, b.index + 1);
    Bubble(l, Lower(left, m), b, t);
    LowerTwice(left, m);
    Cons(l, b, Lower(left, m + 1) + t, merged);
    Trans(l, Lower(left, m) + ([b] + t), [b] + (Lower(left, m + 1) + t), [b] + merged);
  }

  lemma {:induction false} RemoveAppend<T>(l: seq<T>, a: seq<IndexPtr>, b: seq<IndexPtr>)
    ensures var ra := Remove(l, a);
            Remove(l, a + b) ==
              if !ra.ok then ra
              else var rb := Remove(ra.rest, b); Removal(rb.ok, rb.rest, ra.taken + rb.taken)
    decreases |a|
  {
    if a == [] {
      assert a + b == b;
    } else {
      assert (a + b)[1..] == a[1..] + b;
      if a[0].index < |l| {
        var l' := RemoveAt(l, a[0].index);
        RemoveAppend(l', a[1..], b);
        var rt := Remove(l', a[1..]);
        if rt.ok {
          var first, rb := [(a[0].pos, l[a[0].index])], Remove(rt.rest, b);
          assert first + (rt.taken + rb.taken) == (first + rt.taken) + rb.taken;
        }
      }
    }
  }

  lemma AppendSameEffect<T>(l: seq<T>, a: seq<IndexPtr>, a': seq<IndexPtr>, b: seq<IndexPtr>, b': seq<IndexPtr>)
    requires SameEffect(l, a, a')
    requires Remove(l, a).ok ==> SameEffect(Remove(l, a).rest, b, b')
    ensures SameEffect(l, a + b, a' + b')
  {
    RemoveAppend(l, a, b);
    RemoveAppend(l, a', b');
  }

  /** On every list, valid or not for ops, the tweaked sequence has exactly the effect of ops. */
  lemma {:induction false} TweakSameEffect<T>(l: seq<T>, ops: seq<IndexPtr>)
    ensures SameEffect(l, ops, Tweak(ops))
    decreases |ops|
  {
    if |ops| >= 2 {
      var a, b := Halves(ops);
      TweakSameEffect(l, a);
      TweakSameEffect(Remove(l, a).rest, b);
      AppendSameEffect(l, a, Tweak(a), b, Tweak(b));
      TweakAscending(a);
      MergeSameEffect(l, Tweak(a), Tweak(b), 0);
      LowerByZero(Tweak(a));
      Trans(l, ops, Tweak(a) + Tweak(b), Tweak(ops));
    }
  }

  lemma {:induction false} MergePositions(left: seq<IndexPtr>, right: seq<IndexPtr>, m: nat)
    ensures Positions(MergeRuns(left, right, m)) == Positions(left) + Positions(right)
    decreases |left| + |right|
  {
    if left == [] {
    } else if right == [] || left[0].index - m <= right[0].index {
      MergePositions(left[1..], right, m);
      assert MergeRuns(left, right, m)[1..] == MergeRuns(left[1..], right, m);
    } else {
      MergePositions(left, right[1..], m + 1);
      assert MergeRuns(left, right, m)[1..] == MergeRuns(left, right[1..], m + 1);
    }
  }

  lemma {:induction false} PositionsAppend(a: seq<IndexPtr>, b: seq<IndexPtr>)
    ensures Positions(a + b) == Positions(a) + Positions(b)
  {
    if a == [] {
      assert a + b == b;
    } else {
      assert (a + b)[1..] == a[1..] + b;
      PositionsAppend(a[1..], b);
    }
  }

  lemma TweakPositionsOfHalves(ops: seq<IndexPtr>, a: seq<IndexPtr>, b: seq<IndexPtr>)
    requires ops == a + b && Tweak(ops) == MergeRuns(Tweak(a), Tweak(b), 0)
    ensures Positions(ops) == Positions(a) + Positions(b)
    ensures Positions(Tweak(ops)) == Positions(Tweak(a)) + Positions(Tweak(b))
  {
    PositionsAppend(a, b);
    MergePositions(Tweak(a), Tweak(b), 0);
  }

  /** Tweaking keeps every block position, each as often as it occurred. */
  lemma {:induction false} TweakPositions(ops: seq<IndexPtr>)
    ensures Positions(Tweak(ops)) == Positions(ops)
    decreases |ops|
  {
    if |ops| >= 2 {
      var a, b := Halves(ops);
      TweakPositionsOfHalves(ops, a, b);
      TweakPositions(a);
      TweakPositions(b);
    }
  }

  function Seconds<T>(taken: seq<(nat, T)>): (r: seq<T>)
    ensures |r| == |taken|
  {
    seq(|taken|, i requires 0 <= i < |taken| => taken[i].1)
  }

  /** Removals conserve: what is left and what was handed out make up the list. */
  lemma {:induction false} RemoveConserves<T>(l: seq<T>, ops: seq<IndexPtr>)
    ensures var r := Remove(l, ops); multiset(l) == multiset(r.rest) + multiset(Seconds(r.taken))
    decreases |ops|
  {
    if ops != [] && ops[0].index < |l| {
      var i := ops[0].index;
      RemoveConserves(RemoveAt(l, i), ops[1..]);
      OneOut(l, i);
      SecondsCons((ops[0].pos, l[i]), Remove(RemoveAt(l, i), ops[1..]).taken);
      hide Seconds, RemoveAt;
    }
  }

  lemma OneOut<T>(l: seq<T>, i: nat)
    requires i < |l|
    ensures multiset(l) == multiset(RemoveAt(l, i)) + multiset{l[i]}
  {
    assert l == l[..i] + [l[i]] + l[i + 1..];
  }

  lemma SecondsCons<T>(t: (nat, T), taken: seq<(nat, T)>)
    ensures multiset(Seconds([t] + taken)) == multiset{t.1} + multiset(Seconds(taken))
  {
    assert Seconds([t] + taken) == [t.1] + Seconds(taken);
  }

  // ---- The sort itself ----

  ghost function MergedRange(s: seq<IndexPtr>, start: nat, split: nat, end: nat): (r: seq<IndexPtr>)
    requires start <= split <= end <= |s|
  {
    s[..start] + MergeRuns(s[start..split], s[split..end], 0) + s[end..]
  }

  ghost function TweakedRange(s: seq<IndexPtr>, start: nat, end: nat): (r: seq<IndexPtr>)
    requires start <= end <= |s|
  {
    s[..start] + Tweak(s[start..end]) + s[end..]
  }

  /** When t elements of the merge are placed, fromLeft[t] of them from the left, merged[t] is
      the element the loop's test chooses.  The counts include n elements placed earlier. */
  ghost predicate Round(left: seq<IndexPtr>, right: seq<IndexPtr>, merged: seq<IndexPtr>,
                        fromLeft: seq<nat>, n: nat, t: nat)
    requires |fromLeft| == |merged| + 1 && t < |merged|
  {
    var j := fromLeft[t];
    && j <= |left| && j <= n + t
    && var m := n + t - j;
    && m <= |right|
    && (j < |left| ==> m <= left[j].index)
    && if j < |left| && (m == |right| || left[j].index - m <= right[m].index) then
         merged[t] == LowerBy(left[j], m) && fromLeft[t + 1] == j + 1
       else
         m < |right| && merged[t] == right[m] && fromLeft[t + 1] == j
  }

  /** A round of a merge is a round of the merge with one more element in front. */
  lemma RoundShift(left: seq<IndexPtr>, right: seq<IndexPtr>, x: IndexPtr, tail: seq<IndexPtr>,
                   j: nat, rest: seq<nat>, n: nat, t: nat)
    requires |rest| == |tail| + 1 && t < |tail|
    requires Round(left, right, tail, rest, n + 1, t)
    ensures Round(left, right, [x] + tail, [j] + rest, n, t + 1)
  {
  }

  /** Follows the recursive merge round by round. */
  lemma {:induction false} Schedule(left: seq<IndexPtr>, right: seq<IndexPtr>, j: nat, m: nat, n: nat)
    returns (fromLeft: seq<nat>)
    requires j <= |left| && m <= |right| && n == j + m && Run(left[j..], m)
    ensures var merged := MergeRuns(left[j..], right[m..], m);
            && |merged| == |left| + |right| - n && |fromLeft| == |merged| + 1 && fromLeft[0] == j
            && forall t :: 0 <= t < |merged| ==> Round(left, right, merged, fromLeft, n, t)
    decreases |left| - j + |right| - m
  {
    var merged := MergeRuns(left[j..], right[m..], m);
    if j == |left| && m == |right| {
      fromLeft := [j];
    } else {
      var rest, tail;
      if j < |left| && (m == |right| || left[j].index - m <= right[m].index) {
        assert left[j..][1..] == left[j + 1..];
        rest := Schedule(left, right, j + 1, m, n + 1);
        tail := MergeRuns(left[j + 1..], right[m..], m);
      } else {
        assert right[m..][1..] == right[m + 1..];
        Uncons(right[m..]);
        rest := Schedule(left, right, j, m + 1, n + 1);
        tail := MergeRuns(left[j..], right[m + 1..], m + 1);
      }
      assert merged == [merged[0]] + tail;
      fromLeft := [j] + rest;
      forall t | 0 <= t < |merged|
        ensures Round(left, right, merged, fromLeft, n, t)
      {
        if t > 0 {
          RoundShift(left, right, merged[0], tail, j, rest, n, t - 1);
        }
      }
    }
  }

  /** Round, in terms of positions of the array: out[i] is what the loop puts at i. */
  ghost predicate Placed(s: seq<IndexPtr>, out: seq<IndexPtr>, start: nat, split: nat, end: nat,
                         fromLeft: nat -> nat, i: nat)
    requires start <= i < end <= |s| == |out| && start <= split <= end
  {
    var j := fromLeft(i);
    && j <= split - start && j <= i - start
    && var k := split + (i - start - j);
    && k <= end
    && (j < split - start ==> k - split <= s[start + j].index)
    && if j < split - start && (k == end || s[start + j].index - (k - split) <= s[k].index) then
         out[i] == LowerBy(s[start + j], k - split) && fromLeft(i + 1) == j + 1
       else
         k < end && out[i] == s[k] && fromLeft(i + 1) == j
  }

  lemma RoundIsPlaced(s: seq<IndexPtr>, out: seq<IndexPtr>, start: nat, split: nat, end: nat,
                      left: seq<IndexPtr>, right: seq<IndexPtr>, merged: seq<IndexPtr>, counts: seq<nat>,
                      fromLeft: nat -> nat, i: nat)
    requires start <= i < end <= |s| == |out| && start <= split <= end
    requires left == s[start..split] && right == s[split..end]
    requires |merged| == end - start && |counts| == |merged| + 1 && out[i] == merged[i - start]
    requires fromLeft(i) == counts[i - start] && fromLeft(i + 1) == counts[i - start + 1]
    requires Round(left, right, merged, counts, 0, i - start)
    ensures Placed(s, out, start, split, end, fromLeft, i)
  {
  }

  lemma WholeSchedule(s: seq<IndexPtr>, start: nat, split: nat, end: nat)
    returns (out: seq<IndexPtr>, fromLeft: nat -> nat)
    requires start <= split <= end <= |s|
    requires Ascending(s[start..split])
    ensures out == MergedRange(s, start, split, end) && |out| == |s| && fromLeft(start) == 0
    ensures forall i :: start <= i < end ==> Placed(s, out, start, split, end, fromLeft, i)
    ensures forall i :: 0 <= i < start || end <= i < |s| ==> out[i] == s[i]
  {
    var left, right := s[start..split], s[split..end];
    assert left[0..] == left && right[0..] == right;
    out := MergedRange(s, start, split, end);
    var counts := Schedule(left, right, 0, 0, 0);
    fromLeft := i => if start <= i <= end then counts[i - start] else 0;
    var merged := MergeRuns(left, right, 0);
    forall i | start <= i < end
      ensures Placed(s, out, start, split, end, fromLeft, i)
    {
      assert out[i] == merged[i - start];
      RoundIsPlaced(s, out, start, split, end, left, right, merged, counts, fromLeft, i);
    }
  }

  /** One in-place merge.  That an index stays a nat is the absence of underflow in both
      subtractions; the invariant i <= k is that no unread right element is overwritten. */
  method Merge(ptrs: array<IndexPtr>, start: nat, split: nat, end: nat)
    requires start <= split <= end <= ptrs.Length
    requires Ascending(ptrs[..][start..split])
    modifies ptrs
    ensures ptrs[..] == MergedRange(old(ptrs[..]), start, split, end)
  {
    ghost var all := ptrs[..];
    var left := ptrs[start..split];
    ghost var out, fromLeft := WholeSchedule(all, start, split, end);
    var j, k, i := 0, split, start;
    while i < end
      invariant start <= i <= end && 0 <= j <= |left| && split <= k <= end
      invariant i == start + j + (k - split)
      invariant i <= k
      invariant j == fromLeft(i)
      invariant forall x :: 0 <= x < i ==> ptrs[x] == out[x]
      invariant forall x :: k <= x < ptrs.Length ==> ptrs[x] == all[x]
    {
      assert Placed(all, out, start, split, end, fromLeft, i);
      if j < |left| && (k >= end || left[j].index - (k - split) <= ptrs[k].index) {
        ptrs[i] := left[j].(index := left[j].index - (k - split));
        j := j + 1;
      } else {
        ptrs[i] := ptrs[k];
        k := k + 1;
      }
      i := i + 1;
    }
    assert ptrs[..] == out;
  }

  /** The recursive merge sort over ptrs[start..end]. */
  method Sort(ptrs: array<IndexPtr>, start: nat, end: nat)
    requires start <= end <= ptrs.Length
    modifies ptrs
    ensures ptrs[..] == TweakedRange(old(ptrs[..]), start, end)
    decreases end - start
  {
    if start + 1 >= end {
      return;
    }
    var split := (end - start) / 2 + start;
    SortSplits(ptrs[..], start, split, end);
    Sort(ptrs, start, split);
    Sort(ptrs, split, end);
    Merge(ptrs, start, split, end);
  }

  /** Slices of a list in which s[lo..hi] has been overwritten by t. */
  lemma Overwritten(s: seq<IndexPtr>, lo: nat, hi: nat, t: seq<IndexPtr>, r: seq<IndexPtr>, b: nat, e: nat)
    requires b <= lo <= hi <= e <= |s| && |t| == hi - lo
    requires r == s[..lo] + t + s[hi..]
    ensures |r| == |s| && r[lo..hi] == t
    ensures r[..b] == s[..b] && r[b..lo] == s[b..lo] && r[hi..e] == s[hi..e] && r[e..] == s[e..]
  {
  }

  lemma SortSplits(s: seq<IndexPtr>, start: nat, split: nat, end: nat)
    requires start + 1 < end <= |s| && split == (end - start) / 2 + start
    ensures var s1 := TweakedRange(s, start, split);
            && |s1| == |s|
            && var s2 := TweakedRange(s1, split, end);
            && |s2| == |s|
            && Ascending(s2[start..split])
            && MergedRange(s2, start, split, end) == TweakedRange(s, start, end)
  {
    var a, b := Halves(s[start..end]);
    assert a == s[start..split] && b == s[split..end];
    TweakAscending(a);
    TweakAscending(b);
    var s1 := TweakedRange(s, start, split);
    Overwritten(s, start, split, Tweak(a), s1, start, end);
    var s2 := TweakedRange(s1, split, end);
    Overwritten(s1, split, end, Tweak(b), s2, start, end);
    assert s2[..start] == s[..start];
  }
}
