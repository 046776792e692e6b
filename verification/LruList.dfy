/** The doubly linked recency list of A3/lru.c.

    The links `frame_above` and `frame_below` of the frames are two arrays
    indexed by frame number; a null pointer is NULL.  The ghost field `order`
    lists the frames from `top_node` to `bottom_node`. */
module LruList {
  import opened Sequences

  const NULL: int := -1

  function Prev(order: seq<nat>, i: nat): int
    requires i < |order|
  {
    if i == 0 then NULL else order[i - 1]
  }

  function Next(order: seq<nat>, i: nat): int
    requires i < |order|
  {
    if i == |order| - 1 then NULL else order[i + 1]
  }

  /** Frame `f` has the links of position `i` of the order. */
  ghost predicate LinkedAt(above: seq<int>, below: seq<int>, order: seq<nat>, i: nat)
    requires i < |order| && |above| == |below|
  {
    order[i] < |above| && above[order[i]] == Prev(order, i) && below[order[i]] == Next(order, i)
  }

  /** `above` and `below` link exactly the frames of `order`, both ways. */
  ghost predicate Linked(above: seq<int>, below: seq<int>, order: seq<nat>) {
    && |above| == |below|
    && Distinct(order)
    && (forall i: nat | i < |order| :: LinkedAt(above, below, order, i))
    && (forall f: nat | f < |above| && f !in order :: above[f] == NULL && below[f] == NULL)
  }

  /** The links of a frame tell whether it is listed, and at which end. */
  lemma ReadLinks(above: seq<int>, below: seq<int>, order: seq<nat>, k: nat)
    requires Linked(above, below, order) && k < |order|
    ensures order[k] < |above|
    ensures above[order[k]] == NULL <==> k == 0
    ensures below[order[k]] == NULL <==> k == |order| - 1
  {
    assert LinkedAt(above, below, order, k);
  }

  lemma AlreadyFirst(order: seq<nat>)
    requires Distinct(order) && order != []
    ensures [order[0]] + Remove(order, order[0]) == order
  {
  }

  lemma ListedOnce(above: seq<int>, below: seq<int>, order: seq<nat>)
    requires Linked(above, below, order)
    ensures |above| == |below| && Distinct(order)
  {
  }

  lemma Unlisted(above: seq<int>, below: seq<int>, order: seq<nat>, f: nat)
    requires Linked(above, below, order) && f < |above| && f !in order
    ensures above[f] == below[f] == NULL
  {
  }

  lemma LinkSingle(above: seq<int>, below: seq<int>, f: nat)
    requires Linked(above, below, []) && f < |above|
    ensures Linked(above[f := NULL], below[f := NULL], [f])
  {
    assert LinkedAt(above[f := NULL], below[f := NULL], [f], 0);
  }

  lemma LinkFront(above: seq<int>, below: seq<int>, order: seq<nat>, f: nat)
    requires Linked(above, below, order) && order != [] && f < |above| && f !in order
    ensures order[0] < |above|
    ensures Linked(above[order[0] := f], below[f := order[0]], [f] + order)
  {
    var order' := [f] + order;
    assert LinkedAt(above, below, order, 0);
    var above', below' := above[order[0] := f], below[f := order[0]];
    forall i: nat | i < |order'|
      ensures LinkedAt(above', below', order', i)
    {
      if i > 0 {
        assert LinkedAt(above, below, order, i - 1);
        assert order[i - 1] in order;
      }
    }
    assert forall g :: g in order' <==> g == f || g in order;
  }

  lemma UnlinkLast(above: seq<int>, below: seq<int>, order: seq<nat>)
    requires Linked(above, below, order) && |order| >= 2
    ensures var f := order[|order| - 1];
            && f < |above| && above[f] == order[|order| - 2] < |above|
            && Linked(above[f := NULL], below[above[f] := NULL][f := NULL], order[..|order| - 1])
  {
    var f, order' := order[|order| - 1], order[..|order| - 1];
    assert LinkedAt(above, below, order, |order| - 1);
    assert LinkedAt(above, below, order, |order| - 2);
    var above', below' := above[f := NULL], below[above[f] := NULL][f := NULL];
    forall i: nat | i < |order'|
      ensures LinkedAt(above', below', order', i)
    {
      assert LinkedAt(above, below, order, i);
    }
    assert order == order' + [f];
  }

  lemma WithoutAt(order: seq<nat>, k: nat)
    requires Distinct(order) && k < |order|
    ensures var r := order[..k] + order[k + 1..];
            && Distinct(r) && order[k] !in r && |r| == |order| - 1
            && forall g :: g in r || g == order[k] <==> g in order
  {
    RemoveAt(order, order[k], k);
    RemoveFacts(order, order[k]);
  }

  lemma UnlinkMiddle(above: seq<int>, below: seq<int>, order: seq<nat>, k: nat)
    requires Linked(above, below, order) && 0 < k < |order| - 1
    ensures var f := order[k];
            && f < |above| && above[f] == order[k - 1] < |above| && below[f] == order[k + 1] < |above|
            && Linked(above[below[f] := above[f]][f := NULL], below[above[f] := below[f]][f := NULL],
              order[..k] + order[k + 1..])
  {
    var f, order' := order[k], order[..k] + order[k + 1..];
    assert LinkedAt(above, below, order, k);
    assert LinkedAt(above, below, order, k - 1);
    assert LinkedAt(above, below, order, k + 1);
    var above', below' := above[below[f] := above[f]][f := NULL], below[above[f] := below[f]][f := NULL];
    WithoutAt(order, k);
    forall i: nat | i < |order'|
      ensures LinkedAt(above', below', order', i)
    {
      var at := if i < k then i else i + 1;
      assert order'[i] == order[at] && order'[i] in order';
      assert LinkedAt(above, below, order, at);
    }
  }

  /** The writes of the "stalest frame" case of lru_ref. */
  lemma MoveLast(above: seq<int>, below: seq<int>, order: seq<nat>)
    requires Linked(above, below, order) && |order| >= 2
    ensures var f, top := order[|order| - 1], order[0];
            && f < |above| && top < |above| && 0 <= above[f] < |above| && above[f] == order[|order| - 2]
            && Linked(above[top := f][f := NULL], below[above[f] := NULL][f := top], [f] + order[..|order| - 1])
  {
    UnlinkLast(above, below, order);
    var f, rest := order[|order| - 1], order[..|order| - 1];
    var above', below' := above[f := NULL], below[above[f] := NULL][f := NULL];
    LinkFront(above', below', rest, f);
    assert above'[rest[0] := f] == above[order[0] := f][f := NULL];
    assert below'[f := rest[0]] == below[above[f] := NULL][f := order[0]];
  }

  /** The writes of the "neither first nor last" case of lru_ref. */
  lemma MoveMiddle(above: seq<int>, below: seq<int>, order: seq<nat>, k: nat)
    requires Linked(above, below, order) && 0 < k < |order| - 1
    ensures var f, top := order[k], order[0];
            && f < |above| && top < |above| && 0 <= above[f] < |above| && 0 <= below[f] < |above|
            && Linked(above[below[f] := above[f]][top := f][f := NULL], below[above[f] := below[f]][f := top],
                      [f] + (order[..k] + order[k + 1..]))
  {
    UnlinkMiddle(above, below, order, k);
    var f, rest := order[k], order[..k] + order[k + 1..];
    var above', below' := above[below[f] := above[f]][f := NULL], below[above[f] := below[f]][f := NULL];
    LinkFront(above', below', rest, f);
    assert above'[rest[0] := f] == above[below[f] := above[f]][order[0] := f][f := NULL];
    assert below'[f := rest[0]] == below[above[f] := below[f]][f := order[0]];
  }

  class LruList {
    const above: array<int>
    const below: array<int>
    var top: int
    var bottom: int
    ghost var order: seq<nat>

    ghost predicate Valid()
      reads this, above, below
    {
      && above != below
      && Linked(above[..], below[..], order)
      && (order == [] ==> bottom == NULL && top == NULL)
      && (order != [] ==> bottom == order[|order| - 1] && (top == order[0] || (top == NULL && |order| == 1)))
    }

    /** A list of one frame has no top yet, except just after an eviction. */
    ghost predicate Settled()
      reads this
    {
      |order| == 1 ==> top == NULL
    }

    constructor (memsize: nat)
      ensures Valid() && Settled() && order == []
      ensures fresh(above) && fresh(below) && above.Length == memsize
    {
      above := new int[memsize](_ => NULL);
      below := new int[memsize](_ => NULL);
      top, bottom, order := NULL, NULL, [];
    }

    /** The victim's `frame_above` is dereferenced: it is null exactly when the
        victim is alone in the list. */
    lemma EvictNeedsTwo()
      requires Valid() && order != []
      ensures 0 <= bottom < above.Length
      ensures above[bottom] != NULL <==> |order| >= 2
    {
      ReadLinks(above[..], below[..], order, |order| - 1);
    }

    /** Takes the frame whose last reference is oldest off the list. */
    method Evict() returns (evict: nat)
      requires Valid() && |order| >= 2
      modifies this, above, below
      ensures Valid()
      ensures evict == old(order[|order| - 1]) && order == old(order[..|order| - 1])
    {
      UnlinkLast(above[..], below[..], order);
      evict := bottom;
      bottom := above[evict];
      below[bottom] := NULL;
      above[evict] := NULL;
      below[evict] := NULL;
      order := order[..|order| - 1];
    }

    /** The list is empty. */
    method PushFirst(f: nat)
      requires Valid() && f < above.Length && order == []
      modifies this, above, below
      ensures Valid() && Settled() && order == [f]
    {
      LinkSingle(above[..], below[..], f);
      bottom := f;
      above[bottom] := NULL;
      below[bottom] := NULL;
      order := [f];
      assert above[..] == old(above[..])[f := NULL] && below[..] == old(below[..])[f := NULL];
    }

    /** The list has one frame, and no top yet. */
    method PushSecond(f: nat)
      requires Valid() && f < above.Length && f !in order && order != [] && top == NULL
      modifies this, above, below
      ensures Valid() && Settled() && order == [f] + old(order)
    {
      LinkFront(above[..], below[..], order, f);
      top := f;
      below[top] := bottom;
      above[bottom] := f;
      order := [f] + order;
      assert above[..] == old(above[..])[bottom := f] && below[..] == old(below[..])[f := bottom];
    }

    /** The frame is not listed yet: it goes on top. */
    method PushTop(f: nat)
      requires Valid() && f < above.Length && f !in order && order != [] && top != NULL
      modifies this, above, below
      ensures Valid() && Settled() && order == [f] + old(order)
    {
      LinkFront(above[..], below[..], order, f);
      above[top] := f;
      below[f] := top;
      top := f;
      order := [f] + order;
    }

    /** The frame was the stalest. */
    method RaiseBottom(f: nat)
      requires Valid() && |order| >= 2 && f == bottom
      modifies this, above, below
      ensures Valid() && Settled() && order == [f] + Remove(old(order), f)
    {
      ListedOnce(above[..], below[..], order);
      RemoveAt(order, f, |order| - 1);
      hide Linked, LinkedAt, Distinct, Remove;
      MoveLast(above[..], below[..], order);
      ghost var was, wasBelow := above[..], below[..];
      bottom := above[bottom];
      below[bottom] := NULL;
      above[top] := f;
      below[f] := top;
      top := f;
      above[top] := NULL;
      assert above[..] == was[order[0] := f][f := NULL];
      assert below[..] == wasBelow[was[f] := NULL][f := order[0]];
      order := [f] + order[..|order| - 1];
    }

    /** The frame was neither first nor last. */
    method RaiseMiddle(f: nat, ghost k: nat)
      requires Valid() && 0 < k < |order| - 1 && f == order[k]
      modifies this, above, below
      ensures Valid() && Settled() && order == [f] + Remove(old(order), f)
    {
      RemoveAt(order, f, k);
      MoveMiddle(above[..], below[..], order, k);
      ghost var was, wasBelow := above[..], below[..];
      var topTemp := above[f];
      var bottomTemp := below[f];
      above[bottomTemp] := topTemp;
      below[topTemp] := bottomTemp;
      above[top] := f;
      below[f] := top;
      above[f] := NULL;
      top := f;
      assert above[..] == was[bottomTemp := topTemp][order[0] := f][f := NULL];
      assert below[..] == wasBelow[topTemp := bottomTemp][f := order[0]];
      order := [f] + (order[..k] + order[k + 1..]);
    }

    /** Puts frame `f`, new or listed, on top. */
    method Ref(f: nat)
      requires Valid() && f < above.Length
      requires order == [f] ==> Settled()
      modifies this, above, below
      ensures Valid() && Settled()
      ensures order == [f] + Remove(old(order), f)
    {
      hide Distinct, Linked, LinkedAt, Remove;
      ghost var k := 0;
      ListedOnce(above[..], below[..], order);
      if order != [] {
        ReadLinks(above[..], below[..], order, 0);
        ReadLinks(above[..], below[..], order, |order| - 1);
      }
      if f in order {
        k :| 0 <= k < |order| && order[k] == f;
        ReadLinks(above[..], below[..], order, k);
      } else {
        RemoveAbsent(order, f);
        Unlisted(above[..], below[..], order, f);
      }
      if bottom == NULL {
        PushFirst(f);
      } else if top == NULL && f != bottom {
        PushSecond(f);
      } else if top != NULL {
        if above[f] == NULL && below[f] == NULL {
          PushTop(f);
        } else if below[f] != NULL && above[f] == NULL {
          assert f == top;
          AlreadyFirst(order);
        } else if below[f] == NULL && above[f] != NULL {
          assert f == bottom;
          RaiseBottom(f);
        } else {
          assert above[f] != NULL && below[f] != NULL;
          RaiseMiddle(f, k);
        }
      } else {
        AlreadyFirst(order);
      }
    }
  }
}
