/** The singly linked load-order chain of A3/fifo.c.

    `frame_above` of a frame points to the frame loaded next.  The link of the
    youngest frame is null, or, once the frame has been referenced again, points
    to the frame itself; the next append overwrites it either way.  The ghost
    field `order` lists the frames from `oldestf` to `youngestf`. */
module FifoQueue {
  import opened Sequences

  const NULL: int := -1

  ghost predicate LastLink(above: seq<int>, order: seq<nat>)
    requires order != [] && order[|order| - 1] < |above|
  {
    var last := order[|order| - 1];
    above[last] == NULL || above[last] == last
  }

  /** `above` chains exactly the frames of `order`. */
  ghost predicate Chained(above: seq<int>, order: seq<nat>) {
    && Distinct(order)
    && (forall i | 0 <= i < |order| :: order[i] < |above|)
    && (forall i | 0 <= i < |order| - 1 :: above[order[i]] == order[i + 1])
    && (order != [] ==> LastLink(above, order))
    && (forall f: nat | f < |above| && f !in order :: above[f] == NULL)
  }

  lemma ChainAppend(above: seq<int>, order: seq<nat>, f: nat)
    requires Chained(above, order) && f < |above| && f !in order && order != []
    ensures Chained(above[order[|order| - 1] := f], order + [f])
  {
    assert forall g :: g in order + [f] <==> g in order || g == f;
  }

  lemma ChainFirst(above: seq<int>, f: nat, link: int)
    requires Chained(above, []) && f < |above| && (link == NULL || link == f)
    ensures Chained(above[f := link], [f])
  {
  }

  lemma ChainLoop(above: seq<int>, order: seq<nat>)
    requires Chained(above, order) && order != []
    ensures Chained(above[order[|order| - 1] := order[|order| - 1]], order)
  {
  }

  lemma ChainDrop(above: seq<int>, order: seq<nat>)
    requires Chained(above, order) && order != []
    ensures Chained(above[order[0] := NULL], order[1..])
  {
    assert order == [order[0]] + order[1..];
  }

  lemma InnerLinks(above: seq<int>, order: seq<nat>)
    requires Chained(above, order)
    ensures forall i | 0 <= i < |order| - 1 :: above[order[i]] != NULL
  {
    forall i | 0 <= i < |order| - 1
      ensures above[order[i]] != NULL
    {
      assert order[i + 1] >= 0;
    }
  }

  /** A queued frame with a null link is the youngest. */
  lemma NullIsLast(above: seq<int>, order: seq<nat>, f: nat)
    requires Chained(above, order) && f in order && above[f] == NULL
    ensures f == order[|order| - 1]
  {
    InnerLinks(above, order);
    var i :| 0 <= i < |order| && order[i] == f;
  }

  /** The order once frame `f` was referenced. */
  ghost function Queued(order: seq<nat>, f: nat): seq<nat> {
    if f in order then order else order + [f]
  }

  /** The link that frame `f` is given when it has none. */
  lemma ChainLoad(above: seq<int>, order: seq<nat>, f: nat)
    requires Chained(above, order) && f < |above| && above[f] == NULL && order != []
    ensures order[0] < |above| && order[|order| - 1] < |above| && Queued(order, f) != []
    ensures f == Queued(order, f)[|Queued(order, f)| - 1] && Queued(order, f)[0] == order[0]
    ensures |Queued(order, f)| >= 2 || (|order| == 1 && order[0] == f)
    ensures Chained(above[order[|order| - 1] := f], Queued(order, f))
  {
    if f in order {
      NullIsLast(above, order, f);
      ChainLoop(above, order);
    } else {
      ChainAppend(above, order, f);
    }
  }

  class FifoQueue {
    const above: array<int>
    var oldest: int
    var youngest: int
    ghost var order: seq<nat>

    ghost predicate Valid()
      reads this, above
    {
      && Chained(above[..], order)
      && (order == [] ==> oldest == youngest && (oldest == NULL || (0 <= oldest < above.Length == 1)))
      && (order != [] ==>
            && oldest == order[0]
            && (youngest == order[|order| - 1] || (|order| == 1 && youngest == above[order[0]] == NULL))
            && (above.Length == 1 && youngest != NULL ==> above[order[0]] == order[0]))
    }

    constructor (memsize: nat)
      ensures Valid() && order == [] && oldest == NULL
      ensures fresh(above) && above.Length == memsize
    {
      above := new int[memsize](_ => NULL);
      oldest, youngest, order := NULL, NULL, [];
    }

    /** With a single frame that was referenced again, the victim is its own
        successor and stays `oldestf`; it must then be the next frame queued. */
    ghost predicate Ready(f: nat)
      reads this
    {
      order == [] && oldest != NULL ==> f == oldest
    }

    /** Takes the frame loaded earliest off the chain. */
    method Evict() returns (victim: nat)
      requires Valid() && order != [] && |order| == above.Length
      modifies this, above
      ensures Valid() && victim == old(order)[0] && order == old(order)[1..]
      ensures Ready(victim)
    {
      ChainDrop(above[..], order);
      victim := oldest;
      if above[oldest] != NULL {
        oldest := above[oldest];
      } else {
        oldest := NULL;
      }
      above[victim] := NULL;
      order := order[1..];
    }

    /** Queues frame `f` unless it is queued already; a hit never reorders. */
    method Ref(f: nat)
      requires Valid() && f < above.Length && Ready(f)
      modifies this, above
      ensures Valid()
      ensures order == Queued(old(order), f)
    {
      if above[f] == NULL {
        ghost var last := if order == [] then f else order[|order| - 1];
        ghost var chained := above[..][last := if oldest == NULL then NULL else f];
        if order == [] {
          ChainFirst(above[..], f, chained[last]);
          assert Queued(order, f) == [f];
        } else {
          ChainLoad(above[..], order, f);
        }
        hide Chained, LastLink, Queued;
        if oldest == NULL {
          oldest := f;
          above[oldest] := NULL;
        } else if youngest == NULL {
          youngest := f;
          above[oldest] := f;
        } else {
          above[youngest] := f;
          youngest := f;
        }
        order := Queued(order, f);
        assert above[..] == chained;
      }
    }
  }
}
