/** The background pass that lets equal transactions in different caches share memory
    (c++/flaggedarrayset.cpp, Deduper): first a snapshot of pointers, later, with the caches free to
    change in between, a swap of pointers in place. */
module Deduper {
  import opened Basics

  /** The address of a byte vector. */
  type Ptr = nat

  /** The vectors alive and what they hold; a shared vector is never written. */
  type Memory = map<Ptr, Bytes>

  datatype Pair = Pair(elem: Ptr, elemHash: Ptr)

  /** An entry of a cache's hash table, with the number stored for it. */
  datatype Node = Node(flag: nat, pair: Pair, second: nat)

  /** What an entry stands for. */
  datatype Logical = Logical(flag: nat, elem: Bytes, elemHash: Bytes, second: nat)

  /** Both vectors are alive and the second holds the hash of the first. */
  predicate Sound(mem: Memory, hash: Bytes -> Bytes, p: Pair)
  {
    p.elem in mem && p.elemHash in mem && mem[p.elemHash] == hash(mem[p.elem])
  }

  ghost predicate SoundPairs(mem: Memory, hash: Bytes -> Bytes, ps: seq<Pair>)
  {
    forall i :: 0 <= i < |ps| ==> Sound(mem, hash, ps[i])
  }

  ghost predicate SoundNodes(mem: Memory, hash: Bytes -> Bytes, nodes: seq<Node>)
  {
    forall i :: 0 <= i < |nodes| ==> Sound(mem, hash, nodes[i].pair)
  }

  function View(mem: Memory, n: Node): (r: Logical)
    requires n.pair.elem in mem && n.pair.elemHash in mem
  {
    Logical(n.flag, mem[n.pair.elem], mem[n.pair.elemHash], n.second)
  }

  ghost function Views(mem: Memory, hash: Bytes -> Bytes, nodes: seq<Node>): (r: seq<Logical>)
    requires SoundNodes(mem, hash, nodes)
  {
    seq(|nodes|, i requires 0 <= i < |nodes| => View(mem, nodes[i]))
  }

  /** On the contents of a list of pairs, equal hashes mean equal contents. */
  ghost predicate NoCollision(mem: Memory, hash: Bytes -> Bytes, ps: seq<Pair>)
  {
    forall i, j :: 0 <= i < |ps| && 0 <= j < |ps| && ps[i].elem in mem && ps[j].elem in mem
                   && hash(mem[ps[i].elem]) == hash(mem[ps[j].elem]) ==>
      mem[ps[i].elem] == mem[ps[j].elem]
  }

  // ---- The three parts of a pass ----

  /** The pairs of a list of entries. */
  function Pairs(nodes: seq<Node>): (r: seq<Pair>)
    ensures |r| == |nodes| && forall i :: 0 <= i < |nodes| ==> r[i] == nodes[i].pair
  {
    seq(|nodes|, i requires 0 <= i < |nodes| => nodes[i].pair)
  }

  /** The snapshot of one cache.  upTo says how far it was scanned: not at all when the lock was held,
      not to the end when a thread came to wait for it. */
  method Snapshot(ptrlist: seq<Pair>, nodes: seq<Node>, upTo: nat) returns (r: seq<Pair>)
    requires upTo <= |nodes|
    ensures r == ptrlist + Pairs(nodes[..upTo])
  {
    r := ptrlist;
    for i := 0 to upTo
      invariant r == ptrlist + Pairs(nodes[..i])
    {
      assert Pairs(nodes[..i + 1]) == Pairs(nodes[..i]) + [nodes[i].pair];
      r := r + [nodes[i].pair];
    }
  }

  /** j is a pair of the list with element vector k, i is the pair q, and the two have equal hashes. */
  ghost predicate Twins(mem: Memory, ps: seq<Pair>, k: Ptr, q: Pair, i: int, j: int)
  {
    && 0 <= i < |ps| && 0 <= j < |ps| && ps[i] == q && ps[j].elem == k
    && ps[i].elemHash in mem && ps[j].elemHash in mem && mem[ps[i].elemHash] == mem[ps[j].elemHash]
  }

  /** What the duplicate map promises: a key and its replacement come from the snapshot and have the
      same hash. */
  ghost predicate Replaces(mem: Memory, ps: seq<Pair>, dup: map<Ptr, Pair>)
  {
    forall k :: k in dup ==> exists i, j :: Twins(mem, ps, k, dup[k], i, j)
  }

  /** No vector is both replaced and used as a replacement, so one pass leaves nothing to follow. */
  ghost predicate OneStep(dup: map<Ptr, Pair>)
  {
    forall k, l :: k in dup && l in dup ==> dup[k].elem != l
  }

  /** What txset holds after i pairs: for every hash met, the first pair that had it. */
  ghost predicate Firsts(mem: Memory, ps: seq<Pair>, i: nat, txset: map<Bytes, Pair>)
    requires i <= |ps| && forall k :: 0 <= k < |ps| ==> ps[k].elemHash in mem
  {
    && (forall h :: h in txset ==> exists j :: 0 <= j < i && ps[j] == txset[h] && mem[ps[j].elemHash] == h)
    && (forall j :: 0 <= j < i ==> mem[ps[j].elemHash] in txset)
  }

  /** Every pair scanned either is the one kept for its hash or has been told which one is. */
  ghost predicate AllFound(mem: Memory, ps: seq<Pair>, i: nat, txset: map<Bytes, Pair>, dup: map<Ptr, Pair>)
    requires i <= |ps| && forall k :: 0 <= k < |ps| ==> ps[k].elemHash in mem
  {
    forall j :: 0 <= j < i && mem[ps[j].elemHash] in txset ==>
      txset[mem[ps[j].elemHash]].elem == ps[j].elem || ps[j].elem in dup
  }

  /** Elements of the list at the same address have one hash. */
  ghost predicate HashByElem(mem: Memory, ps: seq<Pair>)
    requires forall k :: 0 <= k < |ps| ==> ps[k].elemHash in mem
  {
    forall i, j :: 0 <= i < |ps| && 0 <= j < |ps| && ps[i].elem == ps[j].elem ==> mem[ps[i].elemHash] == mem[ps[j].elemHash]
  }

  /** After the map, pairs with one hash all lead to one vector. */
  ghost predicate Unified(mem: Memory, ps: seq<Pair>, dup: map<Ptr, Pair>)
    requires forall k :: 0 <= k < |ps| ==> ps[k].elemHash in mem
  {
    forall i, j :: 0 <= i < |ps| && 0 <= j < |ps| && mem[ps[i].elemHash] == mem[ps[j].elemHash] ==>
      Target(dup, ps[i].elem) == Target(dup, ps[j].elem)
  }

  function Target(dup: map<Ptr, Pair>, e: Ptr): (r: Ptr)
  {
    if e in dup then dup[e].elem else e
  }

  /** dup holds for every key the pair kept for its hash, which is another one. */
  ghost predicate ToKept(mem: Memory, ps: seq<Pair>, txset: map<Bytes, Pair>, dup: map<Ptr, Pair>)
    requires forall k :: 0 <= k < |ps| ==> ps[k].elemHash in mem
  {
    forall k :: k in dup ==> exists j :: 0 <= j < |ps| && KeptFor(mem, ps[j], txset, k, dup[k])
  }

  ghost predicate KeptFor(mem: Memory, p: Pair, txset: map<Bytes, Pair>, k: Ptr, q: Pair)
  {
    p.elem == k && p.elemHash in mem && mem[p.elemHash] in txset && txset[mem[p.elemHash]] == q && q.elem != k
  }

  method FindDuplicates(mem: Memory, ptrlist: seq<Pair>, ghost hash: Bytes -> Bytes) returns (dup: map<Ptr, Pair>)
    requires SoundPairs(mem, hash, ptrlist)
    ensures Replaces(mem, ptrlist, dup) && OneStep(dup) && Unified(mem, ptrlist, dup)
  {
    dup := map[];
    var txset: map<Bytes, Pair> := map[];
    var i := 0;
    while i < |ptrlist|
      invariant 0 <= i <= |ptrlist|
      invariant Firsts(mem, ptrlist, i, txset)
      invariant AllFound(mem, ptrlist, i, txset, dup)
      invariant ToKept(mem, ptrlist, txset, dup)
    {
      var p := ptrlist[i];
      var h := mem[p.elemHash];
      if h !in txset {
        KeepFirst(mem, ptrlist, i, txset, dup);
        txset := txset[h := p];
      } else if txset[h].elem != p.elem && p.elem !in dup {
        NoteDuplicate(mem, ptrlist, i, txset, dup);
        dup := dup[p.elem := txset[h]];
      }
      i := i + 1;
    }
    MapMeans(mem, hash, ptrlist, txset, dup);
  }

  lemma KeepFirst(mem: Memory, ps: seq<Pair>, i: nat, txset: map<Bytes, Pair>, dup: map<Ptr, Pair>)
    requires i < |ps| && forall k :: 0 <= k < |ps| ==> ps[k].elemHash in mem
    requires Firsts(mem, ps, i, txset) && AllFound(mem, ps, i, txset, dup) && ToKept(mem, ps, txset, dup)
    requires mem[ps[i].elemHash] !in txset
    ensures var t := txset[mem[ps[i].elemHash] := ps[i]];
            Firsts(mem, ps, i + 1, t) && AllFound(mem, ps, i + 1, t, dup) && ToKept(mem, ps, t, dup)
  {
    var t := txset[mem[ps[i].elemHash] := ps[i]];
    forall h | h in t
      ensures exists j :: 0 <= j < i + 1 && ps[j] == t[h] && mem[ps[j].elemHash] == h
    {
      if h == mem[ps[i].elemHash] {
        assert ps[i] == t[h];
      } else {
        var j :| 0 <= j < i && ps[j] == txset[h] && mem[ps[j].elemHash] == h;
        assert ps[j] == t[h];
      }
    }
    forall k | k in dup
      ensures exists j :: 0 <= j < |ps| && KeptFor(mem, ps[j], t, k, dup[k])
    {
      var j :| 0 <= j < |ps| && KeptFor(mem, ps[j], txset, k, dup[k]);
      assert KeptFor(mem, ps[j], t, k, dup[k]);
    }
  }

  lemma NoteDuplicate(mem: Memory, ps: seq<Pair>, i: nat, txset: map<Bytes, Pair>, dup: map<Ptr, Pair>)
    requires i < |ps| && forall k :: 0 <= k < |ps| ==> ps[k].elemHash in mem
    requires AllFound(mem, ps, i, txset, dup) && ToKept(mem, ps, txset, dup)
    requires mem[ps[i].elemHash] in txset && txset[mem[ps[i].elemHash]].elem != ps[i].elem
    ensures var d := dup[ps[i].elem := txset[mem[ps[i].elemHash]]];
            AllFound(mem, ps, i + 1, txset, d) && ToKept(mem, ps, txset, d)
  {
  }

  lemma SameElemSameHash(mem: Memory, hash: Bytes -> Bytes, ps: seq<Pair>)
    requires SoundPairs(mem, hash, ps)
    ensures HashByElem(mem, ps)
  {
  }

  /** A duplicate's replacement is the pair kept for the duplicate's own hash. */
  lemma TargetIsKept(mem: Memory, ps: seq<Pair>, txset: map<Bytes, Pair>, dup: map<Ptr, Pair>, i: nat)
    requires forall k :: 0 <= k < |ps| ==> ps[k].elemHash in mem
    requires HashByElem(mem, ps) && i < |ps|
    requires Firsts(mem, ps, |ps|, txset) && AllFound(mem, ps, |ps|, txset, dup) && ToKept(mem, ps, txset, dup)
    ensures mem[ps[i].elemHash] in txset && Target(dup, ps[i].elem) == txset[mem[ps[i].elemHash]].elem
    ensures ps[i].elem in dup <==> txset[mem[ps[i].elemHash]].elem != ps[i].elem
  {
  }

  lemma MapMeans(mem: Memory, hash: Bytes -> Bytes, ps: seq<Pair>, txset: map<Bytes, Pair>, dup: map<Ptr, Pair>)
    requires SoundPairs(mem, hash, ps)
    requires Firsts(mem, ps, |ps|, txset) && AllFound(mem, ps, |ps|, txset, dup) && ToKept(mem, ps, txset, dup)
    ensures Replaces(mem, ps, dup) && OneStep(dup) && Unified(mem, ps, dup)
  {
    SameElemSameHash(mem, hash, ps);
    forall k | k in dup
      ensures exists i, j :: Twins(mem, ps, k, dup[k], i, j)
      ensures dup[k].elem !in dup
    {
      var j :| 0 <= j < |ps| && KeptFor(mem, ps[j], txset, k, dup[k]);
      var i :| 0 <= i < |ps| && ps[i] == txset[mem[ps[j].elemHash]] && mem[ps[i].elemHash] == mem[ps[j].elemHash];
      assert Twins(mem, ps, k, dup[k], i, j);
      TargetIsKept(mem, ps, txset, dup, i);
    }
    forall i, j | 0 <= i < |ps| && 0 <= j < |ps| && mem[ps[i].elemHash] == mem[ps[j].elemHash]
      ensures Target(dup, ps[i].elem) == Target(dup, ps[j].elem)
    {
      TargetIsKept(mem, ps, txset, dup, i);
      TargetIsKept(mem, ps, txset, dup, j);
    }
  }

  function Swapped(n: Node, dup: map<Ptr, Pair>): (r: Node)
  {
    if n.pair.elem in dup then n.(pair := dup[n.pair.elem]) else n
  }

  /** The entries of a cache after a swap that got to entry upTo. */
  function SwappedUpTo(nodes: seq<Node>, dup: map<Ptr, Pair>, upTo: nat): (r: seq<Node>)
  {
    seq(|nodes|, i requires 0 <= i < |nodes| => if i < upTo then Swapped(nodes[i], dup) else nodes[i])
  }

  /** Under the lock of one cache, and until a thread waits for it: entries whose element was found to
      be a duplicate get the pointers of the one kept. */
  method SwapPass(nodes: array<Node>, dup: map<Ptr, Pair>, upTo: nat)
    requires upTo <= nodes.Length
    modifies nodes
    ensures nodes[..] == SwappedUpTo(old(nodes[..]), dup, upTo)
  {
    for i := 0 to upTo
      invariant nodes[..] == SwappedUpTo(old(nodes[..]), dup, i)
    {
      assert nodes[i] == nodes[..][i] == old(nodes[..])[i];
      if nodes[i].pair.elem in dup {
        nodes[i] := nodes[i].(pair := dup[nodes[i].pair.elem]);
      }
    }
  }

  /** The two assertions of the swap: replacement and original hold the same bytes and the same hash. */
  lemma SameMeaning(mem: Memory, hash: Bytes -> Bytes, ps: seq<Pair>, dup: map<Ptr, Pair>, n: Node)
    requires SoundPairs(mem, hash, ps) && NoCollision(mem, hash, ps) && Replaces(mem, ps, dup)
    requires Sound(mem, hash, n.pair)
    ensures n.pair.elem in dup ==>
              && Sound(mem, hash, dup[n.pair.elem])
              && mem[dup[n.pair.elem].elem] == mem[n.pair.elem]
              && mem[dup[n.pair.elem].elemHash] == mem[n.pair.elemHash]
    ensures Sound(mem, hash, Swapped(n, dup).pair) && View(mem, Swapped(n, dup)) == View(mem, n)
  {
  }

  lemma SwapKeepsViews(mem: Memory, hash: Bytes -> Bytes, ps: seq<Pair>, dup: map<Ptr, Pair>, nodes: seq<Node>, upTo: nat)
    requires SoundPairs(mem, hash, ps) && NoCollision(mem, hash, ps) && Replaces(mem, ps, dup)
    requires SoundNodes(mem, hash, nodes)
    ensures SoundNodes(mem, hash, SwappedUpTo(nodes, dup, upTo))
    ensures Views(mem, hash, SwappedUpTo(nodes, dup, upTo)) == Views(mem, hash, nodes)
  {
  }

  /** The entries a swap got to point to what was found for their elements; it leaves the others alone. */
  lemma SwapReaches(nodes: seq<Node>, dup: map<Ptr, Pair>, upTo: nat, i: nat)
    requires i < |nodes|
    ensures var n, n' := nodes[i], SwappedUpTo(nodes, dup, upTo)[i];
            && n'.flag == n.flag && n'.second == n.second
            && (i < upTo ==> n'.pair.elem == Target(dup, n.pair.elem))
            && (i < upTo && n.pair.elem in dup ==> n'.pair == dup[n.pair.elem])
            && (i >= upTo || n.pair.elem !in dup ==> n' == n)
  {
  }

  /** Two entries that were scanned and swapped share one vector if their hashes are equal, in whatever
      caches they are. */
  lemma SwappedShare(mem: Memory, hash: Bytes -> Bytes, ps: seq<Pair>, dup: map<Ptr, Pair>, a: Node, b: Node)
    requires SoundPairs(mem, hash, ps) && Unified(mem, ps, dup) && a.pair in ps && b.pair in ps
    requires mem[a.pair.elemHash] == mem[b.pair.elemHash]
    ensures Swapped(a, dup).pair.elem == Swapped(b, dup).pair.elem
  {
  }

  // ---- Runs ----

  /** The caches, the vectors alive, and what the pass holds on to. */
  datatype State = State(mem: Memory, caches: seq<seq<Node>>, ptrlist: seq<Pair>, duplicateMap: map<Ptr, Pair>)

  datatype Step =
    | Other                          // anything the rest of the program does
    | Scan(cache: nat, upTo: nat)    // part of one cache joins the snapshot
    | Map                            // the duplicates of the snapshot are found
    | Swap(cache: nat, upTo: nat)    // part of one cache is swapped
    | Done                           // the pass lets go of its pointers

  /** What the rest of the program may do to memory: vectors are made, freed and their addresses
      reused, but not those the pass holds on to. */
  ghost predicate Meanwhile(mem: Memory, mem': Memory, ps: seq<Pair>)
  {
    forall i :: 0 <= i < |ps| ==>
      && (ps[i].elem in mem ==> ps[i].elem in mem' && mem'[ps[i].elem] == mem[ps[i].elem])
      && (ps[i].elemHash in mem ==> ps[i].elemHash in mem' && mem'[ps[i].elemHash] == mem[ps[i].elemHash])
  }

  ghost predicate SoundCaches(hash: Bytes -> Bytes, s: State)
  {
    forall c :: 0 <= c < |s.caches| ==> SoundNodes(s.mem, hash, s.caches[c])
  }

  ghost predicate Next(hash: Bytes -> Bytes, s: State, t: State, step: Step)
  {
    match step
    case Other =>
      // caches come, go and change at will, as long as every entry keeps its element's hash
      t.ptrlist == s.ptrlist && t.duplicateMap == s.duplicateMap && Meanwhile(s.mem, t.mem, s.ptrlist) && SoundCaches(hash, t)
    case Scan(c, upTo) =>
      c < |s.caches| && upTo <= |s.caches[c]| && t == s.(ptrlist := s.ptrlist + Pairs(s.caches[c][..upTo]))
    case Map =>
      // what FindDuplicates finds
      && t == s.(duplicateMap := t.duplicateMap) && Replaces(s.mem, s.ptrlist, t.duplicateMap) && OneStep(t.duplicateMap)
      && (forall i :: 0 <= i < |s.ptrlist| ==> s.ptrlist[i].elemHash in s.mem) && Unified(s.mem, s.ptrlist, t.duplicateMap)
    case Swap(c, upTo) =>
      c < |s.caches| && t == s.(caches := s.caches[c := SwappedUpTo(s.caches[c], s.duplicateMap, upTo)])
    case Done =>
      t == s.(ptrlist := [], duplicateMap := map[])
  }

  ghost predicate Inv(hash: Bytes -> Bytes, s: State)
  {
    SoundCaches(hash, s) && SoundPairs(s.mem, hash, s.ptrlist) && Replaces(s.mem, s.ptrlist, s.duplicateMap)
  }

  /** What the caches stand for. */
  ghost function Meaning(hash: Bytes -> Bytes, s: State): (r: seq<seq<Logical>>)
    requires SoundCaches(hash, s)
  {
    seq(|s.caches|, c requires 0 <= c < |s.caches| => Views(s.mem, hash, s.caches[c]))
  }

  /** A run from an idle pass. */
  ghost predicate Run(hash: Bytes -> Bytes, states: seq<State>, steps: seq<Step>)
  {
    && |states| == |steps| + 1 && SoundCaches(hash, states[0]) && states[0].ptrlist == [] && states[0].duplicateMap == map[]
    && (forall n :: 0 <= n < |states| ==> NoCollision(states[n].mem, hash, states[n].ptrlist))
    && (forall n :: 0 <= n < |steps| ==> Next(hash, states[n], states[n + 1], steps[n]))
  }

  lemma MeanwhileKeeps(hash: Bytes -> Bytes, mem: Memory, mem': Memory, ps: seq<Pair>, dup: map<Ptr, Pair>)
    requires SoundPairs(mem, hash, ps) && Replaces(mem, ps, dup) && Meanwhile(mem, mem', ps)
    ensures SoundPairs(mem', hash, ps) && Replaces(mem', ps, dup)
  {
    forall i | 0 <= i < |ps|
      ensures Sound(mem', hash, ps[i])
    {
      assert Sound(mem, hash, ps[i]);
    }
    forall k | k in dup
      ensures exists i, j :: Twins(mem', ps, k, dup[k], i, j)
    {
      var i, j :| Twins(mem, ps, k, dup[k], i, j);
      assert Twins(mem', ps, k, dup[k], i, j);
    }
  }

  lemma ScanKeeps(hash: Bytes -> Bytes, s: State, nodes: seq<Node>)
    requires Inv(hash, s) && SoundNodes(s.mem, hash, nodes)
    ensures SoundPairs(s.mem, hash, s.ptrlist + Pairs(nodes))
    ensures Replaces(s.mem, s.ptrlist + Pairs(nodes), s.duplicateMap)
  {
    var ps := s.ptrlist + Pairs(nodes);
    forall k | k in s.duplicateMap
      ensures exists i, j :: Twins(s.mem, ps, k, s.duplicateMap[k], i, j)
    {
      var i, j :| Twins(s.mem, s.ptrlist, k, s.duplicateMap[k], i, j);
      assert Twins(s.mem, ps, k, s.duplicateMap[k], i, j);
    }
  }

  /** Every step keeps the invariant, and no step of the pass can be seen in what the caches stand for. */
  lemma StepKeeps(hash: Bytes -> Bytes, s: State, t: State, step: Step)
    requires Inv(hash, s) && NoCollision(s.mem, hash, s.ptrlist) && Next(hash, s, t, step)
    ensures Inv(hash, t)
    ensures !step.Other? ==> Meaning(hash, t) == Meaning(hash, s)
  {
    match step
    case Other => MeanwhileKeeps(hash, s.mem, t.mem, s.ptrlist, s.duplicateMap);
    case Scan(c, upTo) => ScanKeeps(hash, s, s.caches[c][..upTo]);
    case Map =>
    case Swap(c, upTo) => SwapKeepsViews(s.mem, hash, s.ptrlist, s.duplicateMap, s.caches[c], upTo);
    case Done =>
  }

  /** Over every run: contents, order, flags and hashes of every cache change only by what the rest of
      the program does, never by the pass. */
  lemma {:induction false} PassIsInvisible(hash: Bytes -> Bytes, states: seq<State>, steps: seq<Step>, n: nat)
    requires Run(hash, states, steps) && n < |states|
    ensures Inv(hash, states[n])
    ensures n < |steps| ==> Inv(hash, states[n + 1]) && (!steps[n].Other? ==> Meaning(hash, states[n + 1]) == Meaning(hash, states[n]))
  {
    RunStarts(hash, states, steps);
    hide Run, Next, Inv, Meaning, SoundCaches, NoCollision;
    if n > 0 {
      PassIsInvisible(hash, states, steps, n - 1);
    } else {
      StartInv(hash, states[0]);
    }
    if n < |steps| {
      RunStep(hash, states, steps, n);
      StepKeeps(hash, states[n], states[n + 1], steps[n]);
    }
  }

  lemma StartInv(hash: Bytes -> Bytes, s: State)
    requires SoundCaches(hash, s) && s.ptrlist == [] && s.duplicateMap == map[]
    ensures Inv(hash, s)
  {
  }

  lemma RunStep(hash: Bytes -> Bytes, states: seq<State>, steps: seq<Step>, k: nat)
    requires Run(hash, states, steps) && k < |steps|
    ensures |states| == |steps| + 1 && Next(hash, states[k], states[k + 1], steps[k])
  {
    hide Next;
  }

  lemma RunStarts(hash: Bytes -> Bytes, states: seq<State>, steps: seq<Step>)
    requires Run(hash, states, steps)
    ensures |states| == |steps| + 1 && SoundCaches(hash, states[0]) && states[0].ptrlist == [] && states[0].duplicateMap == map[]
    ensures forall n :: 0 <= n < |states| ==> NoCollision(states[n].mem, hash, states[n].ptrlist)
  {
    hide Next;
  }

  // ---- A pass that nothing interrupts ----

  /** The first k caches are scanned to their ends. */
  function FullScans(caches: seq<seq<Node>>, k: nat): (r: seq<Step>)
    requires k <= |caches|
    ensures |r| == k && forall i :: 0 <= i < k ==> r[i] == Scan(i, |caches[i]|)
  {
    seq(k, i requires 0 <= i < k => Scan(i, |caches[i]|))
  }

  function FullSwaps(caches: seq<seq<Node>>, k: nat): (r: seq<Step>)
    requires k <= |caches|
    ensures |r| == k && forall i :: 0 <= i < k ==> r[i] == Swap(i, |caches[i]|)
  {
    seq(k, i requires 0 <= i < k => Swap(i, |caches[i]|))
  }

  function FullPass(caches: seq<seq<Node>>): (r: seq<Step>)
  {
    FullScans(caches, |caches|) + [Map] + FullSwaps(caches, |caches|)
  }

  function AllPairs(caches: seq<seq<Node>>, k: nat): (r: seq<Pair>)
    requires k <= |caches|
  {
    if k == 0 then [] else AllPairs(caches, k - 1) + Pairs(caches[k - 1])
  }

  lemma {:induction false} InAllPairs(caches: seq<seq<Node>>, k: nat, c: nat, i: nat)
    requires c < k <= |caches| && i < |caches[c]|
    ensures caches[c][i].pair in AllPairs(caches, k)
  {
    if c == k - 1 {
      assert Pairs(caches[c])[i] == caches[c][i].pair;
    } else {
      InAllPairs(caches, k - 1, c, i);
    }
  }

  function SomeSwapped(caches: seq<seq<Node>>, dup: map<Ptr, Pair>, k: nat): (r: seq<seq<Node>>)
  {
    seq(|caches|, c requires 0 <= c < |caches| =>
      if c < k then SwappedUpTo(caches[c], dup, |caches[c]|) else caches[c])
  }

  lemma OneMoreSwapped(caches: seq<seq<Node>>, dup: map<Ptr, Pair>, k: nat)
    requires k < |caches|
    ensures var some := SomeSwapped(caches, dup, k);
            some[k := SwappedUpTo(some[k], dup, |caches[k]|)] == SomeSwapped(caches, dup, k + 1)
  {
  }

  lemma NoneSwapped(caches: seq<seq<Node>>, dup: map<Ptr, Pair>)
    ensures SomeSwapped(caches, dup, 0) == caches
  {
  }

  lemma SwappedAt(caches: seq<seq<Node>>, dup: map<Ptr, Pair>, c: nat, i: nat)
    requires c < |caches| && i < |caches[c]|
    ensures var r := SomeSwapped(caches, dup, |caches|);
            |r| == |caches| && |r[c]| == |caches[c]| && r[c][i] == Swapped(caches[c][i], dup)
  {
  }

  /** The steps of a whole pass, one by one. */
  lemma PassStep(hash: Bytes -> Bytes, states: seq<State>, steps: seq<Step>, k: nat)
    requires Run(hash, states, steps) && steps == FullPass(states[0].caches) && k < |steps|
    ensures var caches := states[0].caches;
            var n := |caches|;
            && |steps| == 2 * n + 1 && |states| == 2 * n + 2
            && steps[k] == (if k < n then Scan(k, |caches[k]|) else if k == n then Map else Swap(k - n - 1, |caches[k - n - 1]|))
            && Next(hash, states[k], states[k + 1], steps[k])
  {
    hide Next;
  }

  lemma MapLeaves(hash: Bytes -> Bytes, s: State, t: State)
    requires Next(hash, s, t, Map)
    ensures t == s.(duplicateMap := t.duplicateMap)
  {
  }

  /** One more cache is swapped. */
  lemma SwapNext(hash: Bytes -> Bytes, base: State, s: State, t: State, caches: seq<seq<Node>>, k: nat)
    requires k < |caches| && s == base.(caches := SomeSwapped(caches, base.duplicateMap, k))
    requires Next(hash, s, t, Swap(k, |caches[k]|))
    ensures t == base.(caches := SomeSwapped(caches, base.duplicateMap, k + 1))
  {
    hide SwappedUpTo, SomeSwapped;
    OneMoreSwapped(caches, base.duplicateMap, k);
  }

  lemma {:induction false} AfterScans(hash: Bytes -> Bytes, states: seq<State>, steps: seq<Step>, k: nat)
    requires Run(hash, states, steps) && steps == FullPass(states[0].caches) && k <= |states[0].caches|
    ensures |states| == 2 * |states[0].caches| + 2
    ensures states[k] == states[0].(ptrlist := AllPairs(states[0].caches, k))
  {
    PassStep(hash, states, steps, if k > 0 then k - 1 else 0);
    hide Run, FullPass, Pairs;
    if k > 0 {
      AfterScans(hash, states, steps, k - 1);
      var cache := states[0].caches[k - 1];
      assert cache[..|cache|] == cache;
    } else {
      RunStarts(hash, states, steps);
    }
  }

  lemma {:induction false} AfterSwaps(hash: Bytes -> Bytes, states: seq<State>, steps: seq<Step>, k: nat)
    requires Run(hash, states, steps) && steps == FullPass(states[0].caches) && k <= |states[0].caches|
    ensures |states| == 2 * |states[0].caches| + 2
    ensures var n := |states[0].caches|;
            states[n + 1 + k]
            == states[n + 1].(caches := SomeSwapped(states[0].caches, states[n + 1].duplicateMap, k))
  {
    var n, caches := |states[0].caches|, states[0].caches;
    PassStep(hash, states, steps, n + k);
    var base, s, t := states[n + 1], states[n + k], states[n + 1 + k];
    hide Run, FullPass, Next, SomeSwapped;
    if k == 0 {
      MapLeaves(hash, s, t);
      AfterScans(hash, states, steps, n);
      NoneSwapped(caches, base.duplicateMap);
    } else {
      AfterSwaps(hash, states, steps, k - 1);
      SwapNext(hash, base, s, t, caches, k - 1);
    }
  }

  /** As long as the rest of the program does nothing, the caches stand for what they stood for. */
  lemma {:induction false} QuietRun(hash: Bytes -> Bytes, states: seq<State>, steps: seq<Step>, n: nat)
    requires Run(hash, states, steps) && n < |states| && forall k :: 0 <= k < n ==> !steps[k].Other?
    ensures Inv(hash, states[n]) && Inv(hash, states[0]) && Meaning(hash, states[n]) == Meaning(hash, states[0])
  {
    hide Inv, Meaning, Run;
    RunStarts(hash, states, steps);
    PassIsInvisible(hash, states, steps, 0);
    if n > 0 {
      QuietRun(hash, states, steps, n - 1);
      PassIsInvisible(hash, states, steps, n - 1);
    }
  }

  /** What the map of a whole pass promises. */
  lemma MapFinds(hash: Bytes -> Bytes, states: seq<State>, steps: seq<Step>)
    requires Run(hash, states, steps) && steps == FullPass(states[0].caches)
    ensures var n := |states[0].caches|;
            && |states| == 2 * n + 2 && |steps| == 2 * n + 1
            && states[n + 1] == states[n].(duplicateMap := states[n + 1].duplicateMap)
            && states[n] == states[0].(ptrlist := AllPairs(states[0].caches, n))
            && SoundCaches(hash, states[0]) && SoundPairs(states[n].mem, hash, states[n].ptrlist)
            && NoCollision(states[n].mem, hash, states[n].ptrlist)
            && Replaces(states[n].mem, states[n].ptrlist, states[n + 1].duplicateMap)
            && Unified(states[n].mem, states[n].ptrlist, states[n + 1].duplicateMap)
  {
    var n := |states[0].caches|;
    PassStep(hash, states, steps, n);
    RunStarts(hash, states, steps);
    AfterScans(hash, states, steps, n);
    PassIsInvisible(hash, states, steps, n);
    hide Run, FullPass, Replaces, Unified, OneStep, NoCollision, AllPairs, Pairs, SoundCaches;
  }

  /** After a whole pass with nothing in between, any two entries of equal hash, in the same or in different
      caches, point to one vector, and the caches stand for what they stood for. */
  lemma FullPassShares(hash: Bytes -> Bytes, states: seq<State>, steps: seq<Step>, c: nat, i: nat, d: nat, j: nat)
    requires Run(hash, states, steps) && steps == FullPass(states[0].caches)
    requires c < |states[0].caches| && i < |states[0].caches[c]| && d < |states[0].caches| && j < |states[0].caches[d]|
    ensures |states| == |steps| + 1
    ensures var f := states[|steps|];
            && Inv(hash, f) && Inv(hash, states[0]) && Meaning(hash, f) == Meaning(hash, states[0])
            && |f.caches| == |states[0].caches|
            && |f.caches[c]| == |states[0].caches[c]| && |f.caches[d]| == |states[0].caches[d]|
            && Sound(f.mem, hash, f.caches[c][i].pair) && Sound(f.mem, hash, f.caches[d][j].pair)
            && (f.mem[f.caches[c][i].pair.elemHash] == f.mem[f.caches[d][j].pair.elemHash] ==>
                  f.caches[c][i].pair.elem == f.caches[d][j].pair.elem)
  {
    var n, caches := |states[0].caches|, states[0].caches;
    MapFinds(hash, states, steps);
    AfterSwaps(hash, states, steps, n);
    NoOther(caches);
    QuietRun(hash, states, steps, |steps|);
    var ps, dup, mem := states[n].ptrlist, states[n + 1].duplicateMap, states[0].mem;
    InAllPairs(caches, n, c, i);
    InAllPairs(caches, n, d, j);
    var a, b := caches[c][i], caches[d][j];
    SwappedAt(caches, dup, c, i);
    SwappedAt(caches, dup, d, j);
    assert Sound(mem, hash, a.pair) && Sound(mem, hash, b.pair);
    hide Run, FullPass, AllPairs, Inv, Meaning, SomeSwapped, Replaces, Unified, NoCollision, SoundPairs, SoundCaches, Swapped;
    SameMeaning(mem, hash, ps, dup, a);
    SameMeaning(mem, hash, ps, dup, b);
    if mem[a.pair.elemHash] == mem[b.pair.elemHash] {
      SwappedShare(mem, hash, ps, dup, a, b);
    }
  }

  lemma NoOther(caches: seq<seq<Node>>)
    ensures forall k :: 0 <= k < |FullPass(caches)| ==> !FullPass(caches)[k].Other?
  {
  }
}
