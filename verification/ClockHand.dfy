/** The circular hand of A3/clock.c. */
module ClockHand {
  import opened PageTable
  import opened ClockPolicy
  import PteWord

  /** Every frame is in use and its entry points back to it. */
  ghost predicate Full(cm: seq<Frame>, dir: Directory) {
    && Shaped(dir)
    && cm != []
    && forall i | 0 <= i < |cm| ::
         && cm[i].pte < PAGES && HasTable(dir, cm[i].pte)
         && Entry(dir, cm[i].pte).valid && Entry(dir, cm[i].pte).num == i
  }

  ghost function RefBits(cm: seq<Frame>, dir: Directory): (r: seq<bool>)
    requires Shaped(dir) && forall i | 0 <= i < |cm| :: cm[i].pte < PAGES
    ensures |r| == |cm|
  {
    seq(|cm|, i requires 0 <= i < |cm| => Entry(dir, cm[i].pte).ref)
  }

  /** One eviction from `dir` to `dir'`: the hand stopped at `frame`. */
  ghost predicate Swept(cm: seq<Frame>, dir: Directory, hand: nat, frame: nat, dir': Directory) {
    Full(cm, dir) && Full(cm, dir') && (frame, RefBits(cm, dir')) == Sweep(RefBits(cm, dir), hand)
  }

  /** The directories differ at most in reference bits of valid entries. */
  ghost predicate SameButRefs(dir: Directory, dir': Directory) {
    && Shaped(dir) && Shaped(dir')
    && forall q: nat | q < PAGES ::
         && HasTable(dir', q) == HasTable(dir, q)
         && Entry(dir', q) == Entry(dir, q).(ref := Entry(dir', q).ref)
         && (!Entry(dir, q).valid ==> Entry(dir', q) == Entry(dir, q))
  }

  lemma ClearRef(cm: seq<Frame>, dir: Directory, h: nat)
    requires Full(cm, dir) && h < |cm|
    ensures var dir' := SetEntry(dir, cm[h].pte, Entry(dir, cm[h].pte).(ref := false));
            Full(cm, dir') && SameButRefs(dir, dir') && RefBits(cm, dir') == RefBits(cm, dir)[h := false]
  {
    SetEntryFacts(dir, cm[h].pte, Entry(dir, cm[h].pte).(ref := false));
  }

  lemma SameButRefsSelf(dir: Directory)
    requires Shaped(dir)
    ensures SameButRefs(dir, dir)
  {
  }

  lemma SameButRefsTwice(a: Directory, b: Directory, c: Directory)
    requires SameButRefs(a, b) && SameButRefs(b, c)
    ensures SameButRefs(a, c)
  {
  }

  class ClockHand {
    var hand: nat

    constructor ()
      ensures hand == 0
    {
      hand := 0;
    }

    /** Inspects one frame: passes it and clears its reference bit, or stops at it. */
    method Inspect(coremap: array<Frame>, pgdir: array<seq<Pte>>) returns (found: bool, evicted: Pte)
      requires Full(coremap[..], pgdir[..]) && coremap.Length <= 0x10_0000
      modifies this, pgdir
      ensures Full(coremap[..], pgdir[..]) && SameButRefs(old(pgdir[..]), pgdir[..])
      ensures var h := Wrap(old(hand), coremap.Length);
              var refs := old(RefBits(coremap[..], pgdir[..]));
              && hand == h + 1
              && found == !refs[h]
              && (found ==> evicted.num == h && pgdir[..] == old(pgdir[..]))
              && (!found ==> RefBits(coremap[..], pgdir[..]) == refs[h := false])
    {
      if hand >= coremap.Length {
        hand := 0;
      }
      var q := coremap[hand].pte;
      var p := Entry(pgdir[..], q);
      var referenced := PteWord.Test(p, PteWord.PG_REF);
      if referenced {
        ClearRef(coremap[..], pgdir[..], hand);
        var cleared := PteWord.FlipRefBit(p);
        pgdir[q / PTRS] := pgdir[q / PTRS][q % PTRS := cleared];
        assert pgdir[..] == SetEntry(old(pgdir[..]), q, p.(ref := false));
        found := false;
      } else {
        found := true;
      }
      evicted := p;
      hand := hand + 1;
    }

    /** The hand turns until it meets a clear reference bit.  `visits` counts
        the frames inspected. */
    method Evict(coremap: array<Frame>, pgdir: array<seq<Pte>>) returns (frame: nat, ghost visits: nat)
      requires Full(coremap[..], pgdir[..]) && coremap.Length <= 0x10_0000
      modifies this, pgdir
      ensures SameButRefs(old(pgdir[..]), pgdir[..])
      ensures Swept(coremap[..], old(pgdir[..]), old(hand), frame, pgdir[..])
      ensures frame < coremap.Length && hand == frame + 1
      ensures visits == Visits(old(RefBits(coremap[..], pgdir[..])), old(hand)) <= coremap.Length + 1
    {
      hide Sweep, Visits, SetCount, SameButRefs;
      ghost var cm, refs, start := coremap[..], RefBits(coremap[..], pgdir[..]), hand;
      SweepStops(refs, hand);
      SameButRefsSelf(pgdir[..]);
      var found, evicted := false, EMPTY;
      visits := 0;
      while !found
        invariant coremap[..] == cm
        invariant Full(cm, pgdir[..]) && SameButRefs(old(pgdir[..]), pgdir[..])
        invariant !found ==> Sweep(RefBits(cm, pgdir[..]), hand) == Sweep(refs, start)
        invariant !found ==> visits + Visits(RefBits(cm, pgdir[..]), hand) == Visits(refs, start)
        invariant found ==> Sweep(refs, start) == (evicted.num, RefBits(cm, pgdir[..])) && hand == evicted.num + 1
        invariant found ==> visits == Visits(refs, start) && evicted.num < coremap.Length
        decreases !found, SetCount(RefBits(cm, pgdir[..]))
      {
        OneVisit(RefBits(cm, pgdir[..]), hand);
        ghost var was := pgdir[..];
        found, evicted := Inspect(coremap, pgdir);
        SameButRefsTwice(old(pgdir[..]), was, pgdir[..]);
        visits := visits + 1;
      }
      frame := PteWord.Number(evicted);
    }
  }
}
