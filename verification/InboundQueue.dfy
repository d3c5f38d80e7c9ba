/** The inbound chunk queue of a connection: the net thread appends what recv returned, the user thread
    reads across chunk borders (c++/connection.cpp, read_all). */
module InboundQueue {
  import opened Basics

  const INBOUND_LIMIT: nat := 65536

  /** A chunk, or the marker that ends the stream. */
  type Chunk = Option<Bytes>

  /** The bytes of a list of chunks. */
  function Stream(q: seq<Chunk>): (r: Bytes)
  {
    if q == [] then [] else (if q[0].Some? then q[0].value else []) + Stream(q[1..])
  }

  /** Chunks are not empty, the end marker is last, the read position is inside the front chunk. */
  ghost predicate WellFormed(q: seq<Chunk>, readpos: nat)
  {
    && (forall i :: 0 <= i < |q| && q[i].Some? ==> q[i].value != [])
    && (forall i :: 0 <= i < |q| - 1 ==> q[i].Some?)
    && (if q != [] && q[0].Some? then readpos < |q[0].value| else readpos == 0)
  }

  /** What is left to read. */
  function Rest(q: seq<Chunk>, readpos: nat): (r: Bytes)
  {
    if readpos <= |Stream(q)| then Stream(q)[readpos..] else []
  }

  lemma {:induction false} StreamAppend(a: seq<Chunk>, b: seq<Chunk>)
    ensures Stream(a + b) == Stream(a) + Stream(b)
  {
    if a == [] {
      assert a + b == b;
    } else {
      assert (a + b)[1..] == a[1..] + b;
      StreamAppend(a[1..], b);
    }
  }

  /** Chunks that arrive go behind what is left to read. */
  lemma RestAppend(q: seq<Chunk>, readpos: nat, more: seq<Chunk>)
    requires WellFormed(q, readpos)
    ensures Rest(q + more, readpos) == Rest(q, readpos) + Stream(more)
  {
    StreamAppend(q, more);
    InStream(q, readpos);
    hide Stream, WellFormed;
    SliceAppend(Stream(q), Stream(more), 0, readpos);
  }

  lemma InStream(q: seq<Chunk>, readpos: nat)
    requires WellFormed(q, readpos)
    ensures readpos <= |Stream(q)|
  {
  }

  /** Reading n bytes of the front chunk takes them off what is left, and a chunk read to its end off
      the queue. */
  lemma RestStep(q: seq<Chunk>, readpos: nat, n: nat)
    requires WellFormed(q, readpos) && q != [] && q[0].Some? && readpos + n <= |q[0].value|
    ensures var f := q[0].value;
            && |Stream(q)| == |f| + |Stream(q[1..])|
            && Rest(q, readpos) == f[readpos..readpos + n] + (if readpos + n == |f| then Rest(q[1..], 0) else Rest(q, readpos + n))
  {
    var f, t := q[0].value, Stream(q[1..]);
    assert Stream(q) == f + t;
    hide Stream, WellFormed;
    CutFront(f, t, readpos, n);
  }

  lemma CutFront(f: Bytes, t: Bytes, p: nat, n: nat)
    requires p + n <= |f|
    ensures (f + t)[p..] == f[p..p + n] + (f + t)[p + n..]
    ensures (f + t)[|f|..] == t && t[0..] == t
  {
  }

  datatype Result = Done | Ended | TimedOut

  class ReadSide {
    var inboundQueue: seq<Chunk>
    var readpos: nat
    var totalInboundSize: int

    ghost predicate Valid()
      reads this
    {
      WellFormed(inboundQueue, readpos) && totalInboundSize == |Stream(inboundQueue)|
    }

    constructor ()
      ensures Valid() && Rest(inboundQueue, readpos) == []
    {
      inboundQueue, readpos, totalInboundSize := [], 0, 0;
    }

    /** The net thread appends chunks and perhaps the end marker. */
    method Arrive(chunks: seq<Chunk>)
      requires Valid() && WellFormed(inboundQueue + chunks, readpos)
      modifies this
      ensures Valid() && inboundQueue == old(inboundQueue) + chunks && readpos == old(readpos)
      ensures Rest(inboundQueue, readpos) == old(Rest(inboundQueue, readpos)) + Stream(chunks)
    {
      RestAppend(inboundQueue, readpos, chunks);
      StreamAppend(inboundQueue, chunks);
      inboundQueue := inboundQueue + chunks;
      totalInboundSize := totalInboundSize + |Stream(chunks)|;
    }

    /** One round of read_all on a queue with a chunk in front: at most want bytes of it.  wake says
        whether the net thread is sent a pipe byte. */
    method TakeFront(want: nat) returns (got: Bytes, wake: bool)
      requires Valid() && inboundQueue != [] && inboundQueue[0].Some? && want > 0
      modifies this
      ensures Valid() && 0 < |got| <= want
      ensures old(Rest(inboundQueue, readpos)) == got + Rest(inboundQueue, readpos)
      ensures inboundQueue == old(inboundQueue) || inboundQueue == old(inboundQueue[1..])
      ensures wake == (inboundQueue != old(inboundQueue) && old(totalInboundSize) >= INBOUND_LIMIT)
    {
      hide Stream, Rest;
      var front := inboundQueue[0].value;
      var amount: nat := if want < |front| - readpos then want else |front| - readpos;
      RestStep(inboundQueue, readpos, amount);
      got, wake := front[readpos..readpos + amount], false;
      if readpos + amount == |front| {
        var oldSize := totalInboundSize;
        totalInboundSize := totalInboundSize - |front|;
        wake := oldSize >= INBOUND_LIMIT;
        readpos := 0;
        inboundQueue := inboundQueue[1..];
        assert |inboundQueue| == |old(inboundQueue)| - 1;
      } else {
        readpos := readpos + amount;
      }
    }

    /** read_all.  feed is what the net thread will still append; at the start of every round any part
        of it may have arrived, and a wait may run out of time.  What was read and what is left to read
        are always the stream, in order; the end is reported only after all of it was read. */
    method ReadAll(nbyte: nat, feed: seq<Chunk>) returns (result: Result, out: Bytes, left: seq<Chunk>)
      requires Valid() && WellFormed(inboundQueue + feed, readpos)
      modifies this
      ensures Valid() && WellFormed(inboundQueue + left, readpos)
      ensures out + (Rest(inboundQueue, readpos) + Stream(left)) == old(Rest(inboundQueue, readpos)) + Stream(feed)
      ensures if result == Done then |out| == nbyte else |out| < nbyte
      ensures result == Ended ==> left == [] && out == old(Rest(inboundQueue, readpos)) + Stream(feed)
    {
      hide Stream, Rest;
      out, left := [], feed;
      ghost var all := Rest(inboundQueue, readpos) + Stream(feed);
      assert [] + all == all;
      while |out| < nbyte
        invariant Valid() && WellFormed(inboundQueue + left, readpos)
        invariant |out| <= nbyte
        invariant out + (Rest(inboundQueue, readpos) + Stream(left)) == all
      {
        // a wait ends when something arrived, or when its time is over
        var n: nat := if inboundQueue == [] && left != [] then 1 else 0;
        var more: nat :| n <= more <= |left|;
        var chunks := left[..more];
        assert left == chunks + left[more..];
        Assoc(inboundQueue, chunks, left[more..]);
        Split(inboundQueue, chunks, left[more..], readpos);
        Assoc(Rest(inboundQueue, readpos), Stream(chunks), Stream(left[more..]));
        Arrive(chunks);
        left := left[more..];
        if * {
          return TimedOut, out, left;
        }
        if inboundQueue == [] {
          return TimedOut, out, left;
        }
        if inboundQueue[0] == None {
          NothingLeft(inboundQueue, left, readpos);
          return Ended, out, left;
        }
        ghost var q, pos := inboundQueue, readpos;
        var got, _ := TakeFront(nbyte - |out|);
        Assoc(got, Rest(inboundQueue, readpos), Stream(left));
        Assoc(out, got, Rest(inboundQueue, readpos) + Stream(left));
        StillWellFormed(q, inboundQueue, left, readpos);
        out := out + got;
      }
      result := Done;
    }
  }

  /** Part of what is to come arrives. */
  lemma Split(q: seq<Chunk>, a: seq<Chunk>, b: seq<Chunk>, readpos: nat)
    requires WellFormed(q, readpos) && WellFormed(q + (a + b), readpos)
    ensures WellFormed(q + a, readpos) && Stream(a + b) == Stream(a) + Stream(b)
  {
    StreamAppend(a, b);
    var all := q + (a + b);
    assert forall i :: 0 <= i < |q + a| ==> (q + a)[i] == all[i];
  }

  lemma NothingLeft(q: seq<Chunk>, left: seq<Chunk>, readpos: nat)
    requires WellFormed(q, readpos) && WellFormed(q + left, readpos) && q != [] && q[0] == None
    ensures q == [None] && left == [] && Rest(q, readpos) + Stream(left) == []
  {
    assert (q + left)[0] == q[0];
    assert |q + left| == 1;
    assert q[1..] == [];
  }

  lemma StillWellFormed(q: seq<Chunk>, q': seq<Chunk>, left: seq<Chunk>, readpos': nat)
    requires WellFormed(q', readpos') && q != [] && (q' == q || q' == q[1..])
    requires forall i :: 0 <= i < |q + left| && (q + left)[i].Some? ==> (q + left)[i].value != []
    requires forall i :: 0 <= i < |q + left| - 1 ==> (q + left)[i].Some?
    requires q' == [] ==> readpos' == 0
    ensures WellFormed(q' + left, readpos')
  {
    var d, all, all' := |q| - |q'|, q + left, q' + left;
    forall i | 0 <= i < |all'|
      ensures all'[i] == all[i + d]
    {
    }
    if q' != [] {
      assert all'[0] == q'[0];
    }
  }
}
