/** What the simulated program should see: one flat memory in which a page keeps
    the address that first touched it and counts its writes. */
module FlatMemory {
  import opened PageBytes
  import opened PageTable

  /** One line of the trace. */
  datatype Ref = Ref(kind: char, vaddr: nat)

  predicate IsWrite(r: Ref) {
    r.kind == 'S' || r.kind == 'M'
  }

  function PageOf(r: Ref): nat {
    r.vaddr / PAGE_SIZE
  }

  datatype Cell = Cell(vaddr: nat, writes: nat)

  type Flat = map<nat, Cell>

  /** What access_mem observes: whether the page records the address used, and
      the version word it finds. */
  datatype Seen = Seen(matches: bool, version: nat)

  function CellOf(flat: Flat, r: Ref): Cell {
    if PageOf(r) in flat then flat[PageOf(r)] else Cell(r.vaddr, 0)
  }

  function See(flat: Flat, r: Ref): Seen {
    Seen(CellOf(flat, r).vaddr == r.vaddr, CellOf(flat, r).writes % WORD)
  }

  function Touch(flat: Flat, r: Ref): Flat {
    flat[PageOf(r) := CellOf(flat, r).(writes := CellOf(flat, r).writes + if IsWrite(r) then 1 else 0)]
  }

  function Run(trace: seq<Ref>): Flat {
    if trace == [] then map[] else Touch(Run(trace[..|trace| - 1]), trace[|trace| - 1])
  }

  /** All observations of a trace, in order. */
  function Log(trace: seq<Ref>): (log: seq<Seen>)
    ensures |log| == |trace|
  {
    if trace == [] then []
    else Log(trace[..|trace| - 1]) + [See(Run(trace[..|trace| - 1]), trace[|trace| - 1])]
  }

  /** How many references of the trace write to page `q`. */
  function WritesTo(trace: seq<Ref>, q: nat): nat {
    if trace == [] then 0
    else WritesTo(trace[..|trace| - 1], q)
         + if PageOf(trace[|trace| - 1]) == q && IsWrite(trace[|trace| - 1]) then 1 else 0
  }

  /** `k` is the first reference of the trace to its page. */
  ghost predicate FirstTouch(trace: seq<Ref>, k: nat, q: nat) {
    k < |trace| && PageOf(trace[k]) == q && forall i | 0 <= i < k :: PageOf(trace[i]) != q
  }

  /** Flat memory without the recursion: a page holds the address of its first
      reference and the number of writes to it. */
  lemma {:induction false} RunMeaning(trace: seq<Ref>, q: nat)
    ensures q in Run(trace) <==> exists k: nat :: FirstTouch(trace, k, q)
    ensures q in Run(trace) ==> Run(trace)[q].writes == WritesTo(trace, q)
    ensures q !in Run(trace) ==> WritesTo(trace, q) == 0
    ensures forall k: nat | FirstTouch(trace, k, q) :: Run(trace)[q].vaddr == trace[k].vaddr
  {
    if trace != [] {
      var t, r := trace[..|trace| - 1], trace[|trace| - 1];
      RunMeaning(t, q);
      forall k: nat | k < |t|
        ensures FirstTouch(trace, k, q) == FirstTouch(t, k, q)
      {
      }
      if q in Run(t) {
        var k: nat :| FirstTouch(t, k, q);
        assert FirstTouch(trace, k, q);
      } else if q == PageOf(r) {
        NoTouch(t, q);
        assert FirstTouch(trace, |t|, q);
      }
    }
  }

  lemma {:induction false} NoTouch(trace: seq<Ref>, q: nat)
    requires forall k: nat :: !FirstTouch(trace, k, q)
    ensures forall i | 0 <= i < |trace| :: PageOf(trace[i]) != q
  {
    if trace != [] {
      var t := trace[..|trace| - 1];
      forall k: nat
        ensures !FirstTouch(t, k, q)
      {
        assert !FirstTouch(trace, k, q);
      }
      NoTouch(t, q);
      assert !FirstTouch(trace, |t|, q);
    }
  }

  /** Every reference sees whether its address is the one that first touched the
      page, and the number of earlier writes to the page, modulo the word. */
  lemma {:induction false} LogMeaning(trace: seq<Ref>, i: nat, k: nat)
    requires i < |trace| && FirstTouch(trace, k, PageOf(trace[i]))
    ensures Log(trace)[i] == Seen(trace[k].vaddr == trace[i].vaddr, WritesTo(trace[..i], PageOf(trace[i])) % WORD)
  {
    var t := trace[..|trace| - 1];
    if i == |t| {
      RunMeaning(t, PageOf(trace[i]));
      if k < i {
        assert FirstTouch(t, k, PageOf(trace[i]));
      } else {
        assert forall j: nat :: !FirstTouch(t, j, PageOf(trace[i]));
      }
    } else {
      assert t[..i] == trace[..i];
      assert k <= i;
      LogMeaning(t, i, k);
    }
  }

  /** A store to page `q`, or a modify. */
  predicate StoresTo(r: Ref, q: nat) {
    r.vaddr / 4096 == q && (r.kind == 'S' || r.kind == 'M')
  }

  /** The references among the first `n` that write to page `q`. */
  ghost function WritesAt(trace: seq<Ref>, n: nat, q: nat): set<nat>
    requires n <= |trace|
  {
    set j: nat | j < n && StoresTo(trace[j], q)
  }

  lemma NextWrite(trace: seq<Ref>, n: nat, q: nat)
    requires n < |trace|
    ensures |WritesAt(trace, n + 1, q)| == |WritesAt(trace, n, q)| + if StoresTo(trace[n], q) then 1 else 0
  {
    hide StoresTo;
    var before := WritesAt(trace, n, q);
    if StoresTo(trace[n], q) {
      assert WritesAt(trace, n + 1, q) == before + {n};
    } else {
      assert WritesAt(trace, n + 1, q) == before;
    }
  }

  lemma {:induction false} WritesCounted(trace: seq<Ref>, n: nat, q: nat)
    requires n <= |trace|
    ensures WritesTo(trace[..n], q) == |WritesAt(trace, n, q)|
  {
    if n > 0 {
      WritesCounted(trace, n - 1, q);
      NextWrite(trace, n - 1, q);
      hide WritesAt;
      assert trace[..n][..n - 1] == trace[..n - 1];
    }
  }

  lemma TouchedFirst(trace: seq<Ref>, i: nat) returns (k: nat)
    requires i < |trace|
    ensures k <= i && FirstTouch(trace, k, PageOf(trace[i]))
  {
    if j: nat :| j < i && PageOf(trace[j]) == PageOf(trace[i]) {
      k := TouchedFirst(trace, j);
    } else {
      k := i;
    }
  }

  /** The version word seen is the number of stores and modifies of the page so far. */
  lemma VersionCounts(trace: seq<Ref>, i: nat)
    requires i < |trace|
    ensures Log(trace)[i].version == |WritesAt(trace, i, trace[i].vaddr / 4096)| % 0x1_0000_0000
  {
    var k := TouchedFirst(trace, i);
    LogMeaning(trace, i, k);
    WritesCounted(trace, i, PageOf(trace[i]));
  }

  lemma WritesOfPrefix(t: seq<Ref>, trace: seq<Ref>, q: nat)
    requires t <= trace
    ensures WritesAt(trace, |t|, q) == WritesAt(t, |t|, q)
  {
  }

  lemma WrapNext(a: nat, more: nat)
    ensures (a + more) % 0x1_0000_0000 == (a % 0x1_0000_0000 + more) % 0x1_0000_0000
  {
  }

  /** Of two references to a page, one right after the other, the second sees one version
      more if the first is a store or a modify, and the same one if it is not. */
  lemma VersionGrows(t: seq<Ref>, r: Ref, r': Ref)
    requires r.vaddr / 4096 == r'.vaddr / 4096
    ensures var u := t + [r];
            Log(u + [r'])[|t| + 1].version
            == (Log(u)[|t|].version + if r.kind == 'S' || r.kind == 'M' then 1 else 0) % 0x1_0000_0000
  {
    var u, q := t + [r], r.vaddr / 4096;
    VersionCounts(u, |t|);
    VersionCounts(u + [r'], |u|);
    WritesOfPrefix(u, u + [r'], q);
    NextWrite(u, |t|, q);
    hide WritesAt;
    WrapNext(|WritesAt(u, |t|, q)|, if r.kind == 'S' || r.kind == 'M' then 1 else 0);
  }

  /** The pages a trace touches. */
  ghost function Touched(trace: seq<Ref>): set<nat> {
    set i | 0 <= i < |trace| :: PageOf(trace[i])
  }

  lemma {:induction false} RunKeys(trace: seq<Ref>)
    ensures Run(trace).Keys == Touched(trace)
  {
    if trace != [] {
      var t, r := trace[..|trace| - 1], trace[|trace| - 1];
      RunKeys(t);
      assert trace == t + [r];
      assert Touched(trace) == Touched(t) + {PageOf(r)} by {
        forall q | q in Touched(t) ensures q in Touched(trace) {
          var i :| 0 <= i < |t| && PageOf(t[i]) == q;
          assert PageOf(trace[i]) == q;
        }
        assert PageOf(trace[|t|]) == PageOf(r);
      }
    }
  }
}
