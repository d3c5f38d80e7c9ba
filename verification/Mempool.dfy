/** Choosing transactions for a block from a mempool dump: building the dependency graph and the heap
    loop (c++/rpcclient.cpp). */
module Mempool {
  import T = TxRelay

  /** A parsed mempool entry. */
  datatype Tx = Tx(hash: string, size: nat, feePerKb: nat, prio: real, deps: set<string>)

  const TARGET_BYTES: nat := 9 * T.MAX_FAS_TOTAL_SIZE / 10

  datatype Error = Duplicate | MissingDependency

  /** reqCount counts the dependencies of each entry; children are the entries that depend on it. */
  datatype Graph = Graph(reqCount: seq<nat>, children: seq<set<nat>>, ready: multiset<nat>)

  datatype Built = Failed(error: Error) | Ok(graph: Graph)

  ghost predicate DistinctHashes(txs: seq<Tx>)
  {
    forall i, j :: 0 <= i < j < |txs| ==> txs[i].hash != txs[j].hash
  }

  ghost function Hashes(txs: seq<Tx>): (r: set<string>)
  {
    set i | 0 <= i < |txs| :: txs[i].hash
  }

  /** The entries among the first n that depend on a hash. */
  ghost function Dependents(txs: seq<Tx>, n: nat, h: string): (r: set<nat>)
    requires n <= |txs|
  {
    set j | 0 <= j < n && h in txs[j].deps
  }

  ghost function Independent(txs: seq<Tx>, n: nat): (r: set<nat>)
    requires n <= |txs|
  {
    set j | 0 <= j < n && txs[j].deps == {}
  }

  /** Who waits for a hash that has not arrived. */
  ghost function Missing(txs: seq<Tx>, n: nat): (r: set<(string, nat)>)
    requires n <= |txs|
  {
    set j, h | 0 <= j < n && h in txs[j].deps && h !in Hashes(txs[..n]) :: (h, j)
  }

  /** What the construction must reach: children is the inverse of the dependency relation. */
  ghost predicate IsGraph(txs: seq<Tx>, n: nat, g: Graph)
    requires n <= |txs|
  {
    && |g.reqCount| == n && |g.children| == n
    && (forall i :: 0 <= i < n ==> g.reqCount[i] == |txs[i].deps| && g.children[i] == Dependents(txs, n, txs[i].hash))
    && g.ready == multiset(Independent(txs, n))
  }

  method BuildGraph(txs: seq<Tx>) returns (r: Built)
    ensures r == Failed(Duplicate) <==> !DistinctHashes(txs)
    ensures r == Failed(MissingDependency) <==> DistinctHashes(txs) && exists i, h :: 0 <= i < |txs| && h in txs[i].deps && h !in Hashes(txs)
    ensures r.Ok? ==> IsGraph(txs, |txs|, r.graph)
  {
    var g := Graph([], [], multiset{});
    var hashToEntry: map<string, nat> := map[];
    var waiting: set<(string, nat)> := {};
    var i := 0;
    while i < |txs|
      invariant 0 <= i <= |txs|
      invariant DistinctHashes(txs[..i])
      invariant hashToEntry.Keys == Hashes(txs[..i])
      invariant forall h :: h in hashToEntry ==> hashToEntry[h] < i && txs[hashToEntry[h]].hash == h
      invariant waiting == Missing(txs, i)
      invariant IsGraph(txs, i, g)
    {
      if txs[i].hash in hashToEntry {
        ghost var k := hashToEntry[txs[i].hash];
        assert k < i && txs[k].hash == txs[i].hash;
        return Failed(Duplicate);
      }
      g, hashToEntry, waiting := Arrive(txs, i, g, hashToEntry, waiting);
      i := i + 1;
    }
    assert txs[..i] == txs;
    if waiting != {} {
      ghost var w :| w in waiting;
      assert 0 <= w.1 < |txs| && w.0 in txs[w.1].deps && w.0 !in Hashes(txs);
      return Failed(MissingDependency);
    }
    forall k, h | 0 <= k < |txs| && h in txs[k].deps
      ensures h in Hashes(txs)
    {
      assert (h, k) !in Missing(txs, i);
    }
    r := Ok(g);
  }

  ghost predicate Leads(h2e: map<string, nat>, deps: set<string>, k: nat)
  {
    exists h :: h in deps && h in h2e && h2e[h] == k
  }

  /** The children lists with entry i added where its dependencies lead. */
  ghost function Linked(children: seq<set<nat>>, deps: set<string>, h2e: map<string, nat>, i: nat): (r: seq<set<nat>>)
  {
    seq(|children|, k requires 0 <= k < |children| => children[k] + (if Leads(h2e, deps, k) then {i} else {}))
  }

  lemma LinkedNone(children: seq<set<nat>>, deps: set<string>, h2e: map<string, nat>, i: nat)
    requires deps == {}
    ensures Linked(children, deps, h2e, i) == children
  {
    forall k | 0 <= k < |children|
      ensures Linked(children, deps, h2e, i)[k] == children[k]
    {
      assert !Leads(h2e, deps, k);
    }
  }

  /** The loop over an arriving entry's dependencies: those present get it as a child, for the others
      it waits. */
  method LinkDeps(deps: set<string>, i: nat, children: seq<set<nat>>, hashToEntry: map<string, nat>, waiting: set<(string, nat)>)
    returns (children': seq<set<nat>>, waiting': set<(string, nat)>)
    requires forall h :: h in hashToEntry ==> hashToEntry[h] < |children|
    ensures children' == Linked(children, deps, hashToEntry, i)
    ensures waiting' == waiting + set h | h in deps && h !in hashToEntry :: (h, i)
  {
    children', waiting' := children, waiting;
    var todo := deps;
    LinkedNone(children, deps - todo, hashToEntry, i);
    while todo != {}
      invariant todo <= deps && children' == Linked(children, deps - todo, hashToEntry, i)
      invariant waiting' == waiting + set h | h in deps - todo && h !in hashToEntry :: (h, i)
      decreases todo
    {
      var dep :| dep in todo;
      ghost var done := deps - todo;
      todo := todo - {dep};
      assert deps - todo == done + {dep};
      assert forall k :: Leads(hashToEntry, done + {dep}, k) <==>
        Leads(hashToEntry, done, k) || (dep in hashToEntry && hashToEntry[dep] == k);
      if dep !in hashToEntry {
        waiting' := waiting' + {(dep, i)};
      } else {
        var d := hashToEntry[dep];
        children' := children'[d := children'[d] + {i}];
      }
    }
    assert deps - todo == deps;
  }

  /** One entry arrives. */
  method Arrive(txs: seq<Tx>, i: nat, g: Graph, hashToEntry: map<string, nat>, waiting: set<(string, nat)>)
    returns (g': Graph, hashToEntry': map<string, nat>, waiting': set<(string, nat)>)
    requires i < |txs| && DistinctHashes(txs[..i]) && txs[i].hash !in hashToEntry
    requires hashToEntry.Keys == Hashes(txs[..i])
    requires forall h :: h in hashToEntry ==> hashToEntry[h] < i && txs[hashToEntry[h]].hash == h
    requires waiting == Missing(txs, i) && IsGraph(txs, i, g)
    ensures DistinctHashes(txs[..i + 1])
    ensures hashToEntry' == hashToEntry[txs[i].hash := i] && hashToEntry'.Keys == Hashes(txs[..i + 1])
    ensures waiting' == Missing(txs, i + 1) && IsGraph(txs, i + 1, g')
  {
    var tx := txs[i];
    hashToEntry' := hashToEntry[tx.hash := i];
    HashesNext(txs, i);
    DistinctNext(txs, i);
    assert |g.children| == i;
    hide IsGraph, Linked, Missing, Hashes, DistinctHashes;
    var children;
    children, waiting' := LinkDeps(tx.deps, i, g.children + [{}], hashToEntry', waiting);
    var mine := set w | w in waiting' && w.0 == tx.hash :: w.1;
    assert waiting' == Missing(txs, i) + set h | h in tx.deps && h !in Hashes(txs[..i + 1]) :: (h, i);
    MineAre(txs, i, waiting', mine);
    MissingNext(txs, i, waiting');
    GraphNext(txs, i, g, hashToEntry', mine);
    children := children[i := children[i] + mine];
    waiting' := set w | w in waiting' && w.0 != tx.hash;
    g' := Graph(g.reqCount + [|tx.deps|], children, if tx.deps == {} then g.ready + multiset{i} else g.ready);
  }

  lemma GraphNext(txs: seq<Tx>, i: nat, g: Graph, h2e: map<string, nat>, mine: set<nat>)
    requires i < |txs| && IsGraph(txs, i, g) && mine == Dependents(txs, i, txs[i].hash)
    requires h2e.Keys == Hashes(txs[..i + 1])
    requires forall h :: h in h2e ==> h2e[h] <= i && txs[h2e[h]].hash == h
    requires forall j, k :: 0 <= j <= i && 0 <= k <= i && j != k ==> txs[j].hash != txs[k].hash
    ensures var linked := Linked(g.children + [{}], txs[i].deps, h2e, i);
            && |linked| == i + 1
            && IsGraph(txs, i + 1, Graph(g.reqCount + [|txs[i].deps|], linked[i := linked[i] + mine],
                                         if txs[i].deps == {} then g.ready + multiset{i} else g.ready))
  {
    var linked := Linked(g.children + [{}], txs[i].deps, h2e, i);
    var children := linked[i := linked[i] + mine];
    forall k | 0 <= k <= i
      ensures children[k] == Dependents(txs, i + 1, txs[k].hash)
    {
      hide Hashes, Dependents, Leads;
      ChildOf(txs, i, k, h2e);
    }
    hide Hashes, Dependents, Leads, Linked;
    IndependentNext(txs, i);
  }

  lemma IndependentNext(txs: seq<Tx>, i: nat)
    requires i < |txs|
    ensures multiset(Independent(txs, i + 1))
            == if txs[i].deps == {} then multiset(Independent(txs, i)) + multiset{i} else multiset(Independent(txs, i))
  {
  }

  /** Those that waited for the arriving hash are its dependents so far. */
  lemma MineAre(txs: seq<Tx>, i: nat, waiting: set<(string, nat)>, mine: set<nat>)
    requires i < |txs| && txs[i].hash !in Hashes(txs[..i])
    requires waiting == Missing(txs, i) + set h | h in txs[i].deps && h !in Hashes(txs[..i + 1]) :: (h, i)
    requires mine == set w | w in waiting && w.0 == txs[i].hash :: w.1
    ensures mine == Dependents(txs, i, txs[i].hash)
  {
  }

  lemma MissingNext(txs: seq<Tx>, i: nat, waiting: set<(string, nat)>)
    requires i < |txs|
    requires waiting == Missing(txs, i) + set h | h in txs[i].deps && h !in Hashes(txs[..i + 1]) :: (h, i)
    ensures (set w | w in waiting && w.0 != txs[i].hash) == Missing(txs, i + 1)
  {
  }

  /** An entry's hash is among the new dependencies exactly when the table leads from one to it. */
  lemma ChildOf(txs: seq<Tx>, i: nat, k: nat, hashToEntry: map<string, nat>)
    requires k <= i < |txs| && hashToEntry.Keys == Hashes(txs[..i + 1])
    requires forall h :: h in hashToEntry ==> hashToEntry[h] <= i && txs[hashToEntry[h]].hash == h
    requires forall j :: 0 <= j <= i && j != k ==> txs[j].hash != txs[k].hash
    ensures Leads(hashToEntry, txs[i].deps, k) <==> txs[k].hash in txs[i].deps
    ensures Dependents(txs, i + 1, txs[k].hash)
            == Dependents(txs, i, txs[k].hash) + (if txs[k].hash in txs[i].deps then {i} else {})
  {
  }

  lemma DistinctNext(txs: seq<Tx>, i: nat)
    requires i < |txs| && DistinctHashes(txs[..i]) && txs[i].hash !in Hashes(txs[..i])
    ensures DistinctHashes(txs[..i + 1])
    ensures forall j, k :: 0 <= j <= i && 0 <= k <= i && j != k ==> txs[j].hash != txs[k].hash
  {
  }

  lemma HashesNext(txs: seq<Tx>, i: nat)
    requires i < |txs|
    ensures Hashes(txs[..i + 1]) == Hashes(txs[..i]) + {txs[i].hash}
  {
  }

  // ---- Selection ----

  /** The heap's order. */
  predicate Below(a: Tx, b: Tx)
  {
    a.feePerKb < b.feePerKb || (a.feePerKb == b.feePerKb && a.prio < b.prio)
  }

  /** a pays more for its size than b, or as much and has no lower priority. */
  predicate AtLeast(a: Tx, b: Tx)
  {
    a.feePerKb > b.feePerKb || (a.feePerKb == b.feePerKb && a.prio >= b.prio)
  }

  lemma AtLeastIs(a: Tx, b: Tx)
    ensures AtLeast(a, b) <==> !Below(a, b)
  {
  }

  /** Of the entries popped, those small enough to be selected. */
  ghost function Accepted(txs: seq<Tx>, popped: seq<nat>): (r: seq<nat>)
    requires forall k :: 0 <= k < |popped| ==> popped[k] < |txs|
    ensures forall k :: 0 <= k < |r| ==> r[k] in popped && r[k] < |txs| && txs[r[k]].size <= T.MAX_RELAY_TRANSACTION_BYTES
  {
    if popped == [] then []
    else
      var n := |popped| - 1;
      Accepted(txs, popped[..n]) + (if txs[popped[n]].size <= T.MAX_RELAY_TRANSACTION_BYTES then [popped[n]] else [])
  }

  ghost function HashesOf(txs: seq<Tx>, sel: seq<nat>): (r: set<string>)
    requires forall k :: 0 <= k < |sel| ==> sel[k] < |txs|
  {
    set k | 0 <= k < |sel| :: txs[sel[k]].hash
  }

  /** The entries not popped yet all of whose dependencies are selected. */
  ghost function Ready(txs: seq<Tx>, popped: seq<nat>, done: set<string>): (r: set<nat>)
  {
    set j | 0 <= j < |txs| && j !in popped && txs[j].deps <= done
  }

  function Total(txs: seq<Tx>, sel: seq<nat>): (r: nat)
    requires forall k :: 0 <= k < |sel| ==> sel[k] < |txs|
  {
    if sel == [] then 0 else Total(txs, sel[..|sel| - 1]) + txs[sel[|sel| - 1]].size
  }

  /** e is a maximal entry of a set. */
  ghost predicate Maximal(txs: seq<Tx>, s: set<nat>, e: nat)
  {
    e < |txs| && e in s && forall x :: x in s && x < |txs| ==> !Below(txs[e], txs[x])
  }

  /** Every entry popped was ready and maximal among the ready ones at its turn. */
  ghost predicate Greedy(txs: seq<Tx>, popped: seq<nat>)
  {
    && (forall k :: 0 <= k < |popped| ==> popped[k] < |txs|)
    && forall k :: 0 <= k < |popped| ==> GreedyAt(txs, popped, k)
  }

  ghost predicate GreedyAt(txs: seq<Tx>, popped: seq<nat>, k: nat)
    requires forall k :: 0 <= k < |popped| ==> popped[k] < |txs|
    requires k < |popped|
  {
    Maximal(txs, Ready(txs, popped[..k], HashesOf(txs, Accepted(txs, popped[..k]))), popped[k])
  }

  /** The k-th entry popped pays at least as well, then has at least the priority, of every entry not popped
      before it whose dependencies were all selected before it. */
  lemma GreedyPaysBest(txs: seq<Tx>, popped: seq<nat>, k: nat, j: nat)
    requires Greedy(txs, popped) && k < |popped| && j < |txs| && j !in popped[..k]
    requires txs[j].deps <= HashesOf(txs, Accepted(txs, popped[..k]))
    ensures txs[popped[k]].feePerKb >= txs[j].feePerKb
    ensures txs[popped[k]].feePerKb == txs[j].feePerKb ==> txs[popped[k]].prio >= txs[j].prio
    ensures popped[k] !in popped[..k] && txs[popped[k]].deps <= HashesOf(txs, Accepted(txs, popped[..k]))
  {
    assert GreedyAt(txs, popped, k);
    AtLeastIs(txs[popped[k]], txs[j]);
  }

  /** Selected are exactly the entries popped of at most 100000 bytes. */
  lemma {:induction false} AcceptedAre(txs: seq<Tx>, popped: seq<nat>, e: nat)
    requires forall k :: 0 <= k < |popped| ==> popped[k] < |txs|
    ensures e in Accepted(txs, popped) <==> e in popped && txs[e].size <= 100000
  {
    if popped != [] {
      var n := |popped| - 1;
      AcceptedAre(txs, popped[..n], e);
      assert e in popped <==> e in popped[..n] || e == popped[n];
    }
  }

  /** A greedy order selects nothing twice and everything after its dependencies. */
  lemma {:induction false} GreedyRespectsDependencies(txs: seq<Tx>, popped: seq<nat>, sel: seq<nat>)
    requires Greedy(txs, popped) && sel == Accepted(txs, popped)
    ensures forall j, k :: 0 <= j < k < |sel| ==> sel[j] != sel[k]
    ensures forall k :: 0 <= k < |sel| ==> txs[sel[k]].deps <= HashesOf(txs, sel[..k])
    decreases |popped|
  {
    if popped != [] {
      var n := |popped| - 1;
      var front := popped[..n];
      GreedyFront(txs, popped, n);
      var e, sel0 := popped[n], Accepted(txs, front);
      GreedyRespectsDependencies(txs, front, sel0);
      assert GreedyAt(txs, popped, n);
      assert e !in front && txs[e].deps <= HashesOf(txs, sel0);
      assert sel == sel0 || sel == sel0 + [e];
      forall k | 0 <= k < |sel|
        ensures txs[sel[k]].deps <= HashesOf(txs, sel[..k])
      {
        assert sel[..k] == sel0[..k];
        if k == |sel0| {
          assert sel0[..k] == sel0 && sel[k] == e;
        } else {
          assert sel[k] == sel0[k];
        }
      }
      forall j, k | 0 <= j < k < |sel|
        ensures sel[j] != sel[k]
      {
        assert sel[j] == sel0[j] && sel[j] in front;
        assert sel[k] == if k == |sel0| then e else sel0[k];
      }
    }
  }

  lemma GreedyFront(txs: seq<Tx>, popped: seq<nat>, n: nat)
    requires Greedy(txs, popped) && n <= |popped|
    ensures Greedy(txs, popped[..n])
  {
    forall k | 0 <= k < n
      ensures GreedyAt(txs, popped[..n], k)
    {
      assert GreedyAt(txs, popped, k);
      assert popped[..n][..k] == popped[..k];
    }
  }

  // ---- The heap loop ----

  /** pop_heap and pop_back: takes out a maximal entry. */
  method PopMax(txs: seq<Tx>, heap: multiset<nat>) returns (e: nat, heap': multiset<nat>)
    requires heap != multiset{} && forall x :: x in heap ==> x < |txs|
    ensures e in heap && heap' == heap - multiset{e}
    ensures forall x :: x in heap ==> AtLeast(txs[e], txs[x])
  {
    e :| e in heap;
    var rest := heap - multiset{e};
    while rest != multiset{}
      invariant rest <= heap && e in heap
      invariant forall x :: x in heap && x !in rest ==> AtLeast(txs[e], txs[x])
      decreases |rest|
    {
      var x :| x in rest;
      if Below(txs[e], txs[x]) {
        e := x;
      }
      rest := rest[x := 0];
    }
    heap' := heap - multiset{e};
  }

  /** How many dependencies of an entry are not selected. */
  ghost function Unselected(tx: Tx, done: set<string>): (r: nat)
  {
    |tx.deps - done|
  }

  /** Whatever was popped had all its dependencies selected. */
  ghost predicate PoppedDone(txs: seq<Tx>, popped: seq<nat>, done: set<string>)
  {
    forall k :: 0 <= k < |popped| && popped[k] < |txs| ==> txs[popped[k]].deps <= done
  }

  lemma PoppedDoneNext(txs: seq<Tx>, popped: seq<nat>, done: set<string>, done': set<string>, e: nat)
    requires PoppedDone(txs, popped, done) && done <= done' && e in Ready(txs, popped, done)
    ensures PoppedDone(txs, popped + [e], done')
  {
  }

  /** The state of the loop between two pops. */
  ghost predicate HeapInv(txs: seq<Tx>, popped: seq<nat>, sel: seq<nat>, heap: multiset<nat>, req: seq<nat>, total: nat)
  {
    && Greedy(txs, popped) && sel == Accepted(txs, popped)
    && PoppedDone(txs, popped, HashesOf(txs, sel))
    && heap == multiset(Ready(txs, popped, HashesOf(txs, sel)))
    && |req| == |txs| && (forall j :: 0 <= j < |txs| ==> req[j] == Unselected(txs[j], HashesOf(txs, sel)))
    && total == Total(txs, sel)
  }

  /** One dependency less for an entry, which is pushed when it was the last. */
  method DropOne(req: seq<nat>, heap: multiset<nat>, dep: nat) returns (req': seq<nat>, heap': multiset<nat>)
    requires dep < |req| && req[dep] > 0
    ensures req' == req[dep := req[dep] - 1]
    ensures heap' == heap + (if req[dep] == 1 then multiset{dep} else multiset{})
  {
    req', heap' := req[dep := req[dep] - 1], heap;
    if req'[dep] == 0 {
      heap' := heap' + multiset{dep};
    }
  }

  /** One selected entry more: its dependents have one unselected dependency less, and those left
      with none become ready. */
  method Release(txs: seq<Tx>, children: set<nat>, e: nat, req: seq<nat>, heap: multiset<nat>, ghost done: set<string>)
    returns (req': seq<nat>, heap': multiset<nat>)
    requires e < |txs| && |req| == |txs| && txs[e].hash !in done
    requires children == Dependents(txs, |txs|, txs[e].hash)
    requires forall j :: 0 <= j < |txs| ==> req[j] == Unselected(txs[j], done)
    ensures |req'| == |txs|
    ensures forall j :: 0 <= j < |txs| ==> req'[j] == Unselected(txs[j], done + {txs[e].hash})
    ensures heap' == heap + multiset(Freed(txs, children, done + {txs[e].hash}))
  {
    ghost var h := txs[e].hash;
    req', heap' := req, heap;
    var todo := children;
    ReleasingStart(txs, children, h, req, heap, done);
    hide Releasing;
    while todo != {}
      invariant Releasing(txs, children, todo, h, req', heap, heap', done)
      decreases todo
    {
      var dep :| dep in todo;
      ReleasingNext(txs, children, todo, h, req', heap, heap', done, dep);
      req', heap' := DropOne(req', heap', dep);
      todo := todo - {dep};
    }
    ReleasingEnd(txs, children, h, req', heap, heap', done);
  }

  /** The release of h to the dependents outside todo is done. */
  ghost predicate Releasing(txs: seq<Tx>, children: set<nat>, todo: set<nat>, h: string, req: seq<nat>,
                            heap0: multiset<nat>, heap: multiset<nat>, done: set<string>)
  {
    && h !in done && children == Dependents(txs, |txs|, h) && todo <= children && |req| == |txs|
    && (forall j :: 0 <= j < |txs| ==>
          req[j] == if j in todo then Unselected(txs[j], done) else Unselected(txs[j], done + {h}))
    && heap == heap0 + multiset(Freed(txs, children - todo, done + {h}))
  }

  lemma ReleasingStart(txs: seq<Tx>, children: set<nat>, h: string, req: seq<nat>, heap: multiset<nat>, done: set<string>)
    requires h !in done && children == Dependents(txs, |txs|, h) && |req| == |txs|
    requires forall j :: 0 <= j < |txs| ==> req[j] == Unselected(txs[j], done)
    ensures Releasing(txs, children, children, h, req, heap, heap, done)
  {
    SameCount(txs, children, h, done);
    assert Freed(txs, children - children, done + {h}) == {};
  }

  lemma ReleasingNext(txs: seq<Tx>, children: set<nat>, todo: set<nat>, h: string, req: seq<nat>,
                      heap0: multiset<nat>, heap: multiset<nat>, done: set<string>, dep: nat)
    requires Releasing(txs, children, todo, h, req, heap0, heap, done) && dep in todo
    ensures dep < |req| && req[dep] > 0
    ensures Releasing(txs, children, todo - {dep}, h, req[dep := req[dep] - 1], heap0,
                      heap + (if req[dep] == 1 then multiset{dep} else multiset{}), done)
  {
    OneLess(txs[dep], done, h);
    hide Unselected;
    var handled, done' := children - todo, done + {h};
    assert children - (todo - {dep}) == handled + {dep};
    FreedNext(txs, handled, dep, done');
    hide Freed;
    Regroup(heap0, multiset(Freed(txs, handled, done')), if txs[dep].deps <= done' then multiset{dep} else multiset{});
  }

  lemma ReleasingEnd(txs: seq<Tx>, children: set<nat>, h: string, req: seq<nat>,
                     heap0: multiset<nat>, heap: multiset<nat>, done: set<string>)
    requires Releasing(txs, children, {}, h, req, heap0, heap, done)
    ensures |req| == |txs| && forall j :: 0 <= j < |txs| ==> req[j] == Unselected(txs[j], done + {h})
    ensures heap == heap0 + multiset(Freed(txs, children, done + {h}))
  {
  }

  lemma Regroup(a: multiset<nat>, b: multiset<nat>, c: multiset<nat>)
    ensures a + (b + c) == (a + b) + c
    ensures c == multiset{} ==> a + (b + c) == a + b
  {
  }

  /** Of a set of entries, those with nothing left to wait for. */
  ghost function Freed(txs: seq<Tx>, s: set<nat>, done: set<string>): (r: set<nat>)
  {
    set j | j in s && j < |txs| && txs[j].deps <= done
  }

  lemma FreedNext(txs: seq<Tx>, s: set<nat>, j: nat, done: set<string>)
    requires j !in s && j < |txs|
    ensures multiset(Freed(txs, s + {j}, done))
            == multiset(Freed(txs, s, done)) + (if txs[j].deps <= done then multiset{j} else multiset{})
  {
  }

  lemma SameCount(txs: seq<Tx>, children: set<nat>, h: string, done: set<string>)
    requires children == Dependents(txs, |txs|, h)
    ensures forall j :: 0 <= j < |txs| && j !in children ==> Unselected(txs[j], done + {h}) == Unselected(txs[j], done)
  {
    forall j | 0 <= j < |txs| && j !in children
      ensures Unselected(txs[j], done + {h}) == Unselected(txs[j], done)
    {
      assert txs[j].deps - (done + {h}) == txs[j].deps - done;
    }
  }

  lemma OneLess(tx: Tx, done: set<string>, h: string)
    requires h in tx.deps && h !in done
    ensures Unselected(tx, done) == Unselected(tx, done + {h}) + 1
    ensures Unselected(tx, done + {h}) == 0 <==> tx.deps <= done + {h}
  {
    assert tx.deps - done == (tx.deps - (done + {h})) + {h};
  }

  // ---- The loop keeps its invariant ----

  lemma HeapStart(txs: seq<Tx>, g: Graph)
    requires IsGraph(txs, |txs|, g)
    ensures HeapInv(txs, [], [], g.ready, g.reqCount, 0)
  {
  }

  /** What the heap holds. */
  lemma HeapHolds(txs: seq<Tx>, popped: seq<nat>, sel: seq<nat>, heap: multiset<nat>, req: seq<nat>, total: nat)
    requires HeapInv(txs, popped, sel, heap, req, total)
    ensures forall k :: 0 <= k < |sel| ==> sel[k] < |txs|
    ensures forall x :: x in heap <==> x in Ready(txs, popped, HashesOf(txs, sel))
    ensures forall x :: x in heap ==> x < |txs|
    ensures total == Total(txs, sel)
  {
  }

  lemma GreedySnoc(txs: seq<Tx>, popped: seq<nat>, e: nat)
    requires Greedy(txs, popped)
    requires Maximal(txs, Ready(txs, popped, HashesOf(txs, Accepted(txs, popped))), e)
    ensures Greedy(txs, popped + [e])
    ensures Accepted(txs, popped + [e])
            == Accepted(txs, popped) + (if txs[e].size <= T.MAX_RELAY_TRANSACTION_BYTES then [e] else [])
  {
    MaximalIn(txs, Ready(txs, popped, HashesOf(txs, Accepted(txs, popped))), e);
    hide Maximal, Ready, HashesOf;
    var all := popped + [e];
    assert all[..|popped|] == popped;
    forall k | 0 <= k < |all|
      ensures GreedyAt(txs, all, k)
    {
      if k < |popped| {
        assert GreedyAt(txs, popped, k);
        assert all[..k] == popped[..k] && all[k] == popped[k];
      }
    }
  }

  lemma MaximalIn(txs: seq<Tx>, s: set<nat>, e: nat)
    requires Maximal(txs, s, e)
    ensures e in s && e < |txs|
  {
  }

  /** An entry too large is popped: nothing else changes. */
  lemma PopLarge(txs: seq<Tx>, popped: seq<nat>, sel: seq<nat>, heap: multiset<nat>, req: seq<nat>, total: nat, e: nat)
    requires HeapInv(txs, popped, sel, heap, req, total)
    requires Maximal(txs, Ready(txs, popped, HashesOf(txs, sel)), e) && txs[e].size > T.MAX_RELAY_TRANSACTION_BYTES
    ensures HeapInv(txs, popped + [e], sel, heap - multiset{e}, req, total)
  {
    hide Greedy, Accepted, HashesOf, Unselected, Total, Ready, PoppedDone;
    var done := HashesOf(txs, sel);
    MaximalIn(txs, Ready(txs, popped, done), e);
    hide Maximal;
    GreedySnoc(txs, popped, e);
    assert sel + [] == sel;
    PoppedDoneNext(txs, popped, done, done, e);
    ReadyNext(txs, popped, done, e);
  }

  lemma ReadyNext(txs: seq<Tx>, popped: seq<nat>, done: set<string>, e: nat)
    requires e in Ready(txs, popped, done)
    ensures multiset(Ready(txs, popped + [e], done)) == multiset(Ready(txs, popped, done)) - multiset{e}
  {
  }

  /** A small entry is popped and selected: its dependents are released. */
  lemma PopSmall(txs: seq<Tx>, popped: seq<nat>, sel: seq<nat>, heap: multiset<nat>, req: seq<nat>, total: nat, e: nat,
                 req': seq<nat>, heap': multiset<nat>)
    requires DistinctHashes(txs) && HeapInv(txs, popped, sel, heap, req, total)
    requires Maximal(txs, Ready(txs, popped, HashesOf(txs, sel)), e) && txs[e].size <= T.MAX_RELAY_TRANSACTION_BYTES
    requires |req'| == |txs|
    requires forall j :: 0 <= j < |txs| ==> req'[j] == Unselected(txs[j], HashesOf(txs, sel) + {txs[e].hash})
    requires heap' == heap - multiset{e}
                      + multiset(Freed(txs, Dependents(txs, |txs|, txs[e].hash), HashesOf(txs, sel) + {txs[e].hash}))
    ensures HeapInv(txs, popped + [e], sel + [e], heap', req', total + txs[e].size)
  {
    hide Greedy, Accepted, HashesOf, Unselected, Total, Ready, PoppedDone, Freed, DistinctHashes, Dependents;
    var done := HashesOf(txs, sel);
    MaximalIn(txs, Ready(txs, popped, done), e);
    NotPopped(txs, popped, done, e);
    hide Maximal;
    GreedySnoc(txs, popped, e);
    NotSelected(txs, popped, sel, e);
    HashesOfNext(txs, sel, e);
    PoppedDoneNext(txs, popped, done, done + {txs[e].hash}, e);
    ReadyGrows(txs, popped, done, e, txs[e].hash);
    TotalNext(txs, sel, e);
  }

  lemma NotPopped(txs: seq<Tx>, popped: seq<nat>, done: set<string>, e: nat)
    requires e in Ready(txs, popped, done)
    ensures e !in popped
  {
  }

  lemma TotalNext(txs: seq<Tx>, sel: seq<nat>, e: nat)
    requires e < |txs| && forall k :: 0 <= k < |sel| ==> sel[k] < |txs|
    ensures Total(txs, sel + [e]) == Total(txs, sel) + txs[e].size
  {
  }

  lemma HashesOfNext(txs: seq<Tx>, sel: seq<nat>, e: nat)
    requires e < |txs| && forall k :: 0 <= k < |sel| ==> sel[k] < |txs|
    ensures HashesOf(txs, sel + [e]) == HashesOf(txs, sel) + {txs[e].hash}
  {
    var all := sel + [e];
    assert forall k :: 0 <= k < |sel| ==> all[k] == sel[k];
    assert all[|sel|] == e;
  }

  lemma NotSelected(txs: seq<Tx>, popped: seq<nat>, sel: seq<nat>, e: nat)
    requires DistinctHashes(txs) && e < |txs| && e !in popped
    requires forall k :: 0 <= k < |sel| ==> sel[k] in popped && sel[k] < |txs|
    ensures txs[e].hash !in HashesOf(txs, sel)
  {
  }

  lemma ReadyGrows(txs: seq<Tx>, popped: seq<nat>, done: set<string>, e: nat, h: string)
    requires e in Ready(txs, popped, done) && h !in done && txs[e].hash == h && PoppedDone(txs, popped, done)
    ensures multiset(Ready(txs, popped + [e], done + {h}))
            == multiset(Ready(txs, popped, done)) - multiset{e} + multiset(Freed(txs, Dependents(txs, |txs|, h), done + {h}))
  {
  }

  ghost predicate NoRepeats(sel: seq<nat>)
  {
    forall j, k :: 0 <= j < k < |sel| ==> sel[j] != sel[k]
  }

  /** Every entry selected comes after all its dependencies. */
  ghost predicate DependenciesFirst(txs: seq<Tx>, sel: seq<nat>)
  {
    && (forall k :: 0 <= k < |sel| ==> sel[k] < |txs|)
    && forall k :: 0 <= k < |sel| ==> txs[sel[k]].deps <= HashesOf(txs, sel[..k])
  }

  /** Nothing is selected once 4500000 bytes are, and one entry has at most 100000. */
  ghost predicate StopsInTime(txs: seq<Tx>, sel: seq<nat>)
  {
    && (forall k :: 0 <= k < |sel| ==> sel[k] < |txs|)
    && (sel != [] ==> Total(txs, sel[..|sel| - 1]) < 4500000 && Total(txs, sel) < 4600000)
  }

  lemma StopsNext(txs: seq<Tx>, sel: seq<nat>, e: nat)
    requires StopsInTime(txs, sel) && Total(txs, sel) < 4500000 && e < |txs| && txs[e].size <= 100000
    ensures StopsInTime(txs, sel + [e])
  {
    assert (sel + [e])[..|sel|] == sel;
    TotalNext(txs, sel, e);
  }

  /** One round of the selection loop. */
  method SelectOne(txs: seq<Tx>, g: Graph, sel: seq<nat>, ghost popped: seq<nat>, heap: multiset<nat>, req: seq<nat>, total: nat)
    returns (sel': seq<nat>, ghost popped': seq<nat>, heap': multiset<nat>, req': seq<nat>, total': nat)
    requires DistinctHashes(txs) && IsGraph(txs, |txs|, g)
    requires HeapInv(txs, popped, sel, heap, req, total) && StopsInTime(txs, sel)
    requires total < TARGET_BYTES && heap != multiset{}
    ensures HeapInv(txs, popped', sel', heap', req', total') && StopsInTime(txs, sel')
    ensures Left(txs, popped') < Left(txs, popped)
  {
    hide HeapInv, Greedy, Accepted, HashesOf, Ready, Maximal, Left, Unselected, Freed, StopsInTime, Total;
    HeapHolds(txs, popped, sel, heap, req, total);
    var e, rest := PopMax(txs, heap);
    Popped(txs, popped, sel, heap, req, total, e);
    popped' := popped + [e];
    if txs[e].size <= T.MAX_RELAY_TRANSACTION_BYTES {
      req', heap' := Release(txs, g.children[e], e, req, rest, HashesOf(txs, sel));
      PopSmall(txs, popped, sel, heap, req, total, e, req', heap');
      StopsNext(txs, sel, e);
      sel', total' := sel + [e], total + txs[e].size;
    } else {
      PopLarge(txs, popped, sel, heap, req, total, e);
      sel', total', req', heap' := sel, total, req, rest;
    }
  }

  /** The selection.  popped is the order in which entries left the heap. */
  method Select(txs: seq<Tx>, g: Graph) returns (sel: seq<nat>, ghost popped: seq<nat>)
    requires DistinctHashes(txs) && IsGraph(txs, |txs|, g)
    ensures Greedy(txs, popped) && sel == Accepted(txs, popped)
    ensures NoRepeats(sel) && DependenciesFirst(txs, sel) && StopsInTime(txs, sel)
    ensures Total(txs, sel) >= 4500000 || Ready(txs, popped, HashesOf(txs, sel)) == {}
  {
    sel, popped := [], [];
    var heap, req := g.ready, g.reqCount;
    var total: nat := 0;
    HeapStart(txs, g);
    hide HeapInv, Greedy, Accepted, HashesOf, Ready, Maximal, Left, Unselected, Freed, StopsInTime, NoRepeats, DependenciesFirst, Dependents, DistinctHashes;
    assert StopsInTime(txs, []) by {
      StopsStart(txs);
    }
    hide Total;
    while total < TARGET_BYTES && heap != multiset{}
      invariant HeapInv(txs, popped, sel, heap, req, total)
      invariant StopsInTime(txs, sel)
      decreases Left(txs, popped)
    {
      sel, popped, heap, req, total := SelectOne(txs, g, sel, popped, heap, req, total);
    }
    SelectionDone(txs, popped, sel, heap, req, total);
  }

  lemma StopsStart(txs: seq<Tx>)
    ensures StopsInTime(txs, [])
  {
  }

  /** The entries not popped yet. */
  ghost function Left(txs: seq<Tx>, popped: seq<nat>): (r: set<nat>)
  {
    set j | 0 <= j < |txs| && j !in popped
  }

  /** What a pop finds: a maximal ready entry, not selected and not popped before. */
  lemma Popped(txs: seq<Tx>, popped: seq<nat>, sel: seq<nat>, heap: multiset<nat>, req: seq<nat>, total: nat, e: nat)
    requires DistinctHashes(txs) && HeapInv(txs, popped, sel, heap, req, total)
    requires e in heap && e < |txs| && forall x :: x in heap && x < |txs| ==> !Below(txs[e], txs[x])
    ensures Maximal(txs, Ready(txs, popped, HashesOf(txs, sel)), e)
    ensures txs[e].hash !in HashesOf(txs, sel)
    ensures Left(txs, popped + [e]) < Left(txs, popped)
    ensures |req| == |txs| && forall j :: 0 <= j < |txs| ==> req[j] == Unselected(txs[j], HashesOf(txs, sel))
  {
    HeapHolds(txs, popped, sel, heap, req, total);
    NotSelected(txs, popped, sel, e);
    assert e in Left(txs, popped) && e in popped + [e];
    assert forall j :: j in popped ==> j in popped + [e];
  }

  lemma SelectionDone(txs: seq<Tx>, popped: seq<nat>, sel: seq<nat>, heap: multiset<nat>, req: seq<nat>, total: nat)
    requires HeapInv(txs, popped, sel, heap, req, total)
    ensures Greedy(txs, popped) && sel == Accepted(txs, popped) && total == Total(txs, sel)
    ensures NoRepeats(sel) && DependenciesFirst(txs, sel)
    ensures heap == multiset{} ==> Ready(txs, popped, HashesOf(txs, sel)) == {}
  {
    GreedyRespectsDependencies(txs, popped, sel);
    HeapHolds(txs, popped, sel, heap, req, total);
  }
}
