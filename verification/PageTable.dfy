/** The two-level page table and the coremap entries (A3/pagetable.h:10-73).

    A page is named by its number, the virtual address shifted right by twelve
    bits; a pointer to a page table entry is the number of its page.  An entry is
    kept with its `frame` word taken apart; PteWord has the word, on which the
    program's bit operations work. */
module PageTable {

  const PTRS: nat := 4096          // entries in the directory, and in each table
  const PAGES: nat := 0x100_0000   // PTRS * PTRS
  const PAGE_SIZE: nat := 4096
  const INVALID_SWAP: int := -1

  datatype Pte = Pte(num: nat, valid: bool, dirty: bool, ref: bool, onswap: bool, swapOff: int)

  const EMPTY: Pte := Pte(0, false, false, false, false, INVALID_SWAP)

  datatype Frame = Frame(inUse: bool, pte: nat, vaddr: nat)

  /** A second-level table that was never allocated is the empty sequence. */
  type Directory = seq<seq<Pte>>

  predicate Shaped(dir: Directory) {
    |dir| == PTRS && forall d | 0 <= d < PTRS :: dir[d] == [] || |dir[d]| == PTRS
  }

  predicate HasTable(dir: Directory, q: nat)
    requires Shaped(dir) && q < PAGES
  {
    dir[q / PTRS] != []
  }

  function Entry(dir: Directory, q: nat): Pte
    requires Shaped(dir) && q < PAGES
  {
    if dir[q / PTRS] == [] then EMPTY else dir[q / PTRS][q % PTRS]
  }

  function SetEntry(dir: Directory, q: nat, p: Pte): Directory
    requires Shaped(dir) && q < PAGES && HasTable(dir, q)
  {
    dir[q / PTRS := dir[q / PTRS][q % PTRS := p]]
  }

  function NewTable(): (t: seq<Pte>)
    ensures |t| == PTRS && forall i | 0 <= i < PTRS :: t[i] == EMPTY
  {
    seq(PTRS, i => EMPTY)
  }

  /** Storing through an entry pointer changes that entry and no other. */
  lemma SetEntryFacts(dir: Directory, q: nat, p: Pte)
    requires Shaped(dir) && q < PAGES && HasTable(dir, q)
    ensures Shaped(SetEntry(dir, q, p))
    ensures forall r: nat | r < PAGES :: Entry(SetEntry(dir, q, p), r) == if r == q then p else Entry(dir, r)
    ensures forall r: nat | r < PAGES :: HasTable(SetEntry(dir, q, p), r) == HasTable(dir, r)
  {
  }

  /** The second of two stores through the same pointer wins. */
  lemma SetEntryTwice(dir: Directory, q: nat, first: Pte, second: Pte)
    requires Shaped(dir) && q < PAGES && HasTable(dir, q)
    ensures HasTable(SetEntry(dir, q, first), q)
    ensures SetEntry(SetEntry(dir, q, first), q, second) == SetEntry(dir, q, second)
  {
    var table := dir[q / PTRS];
    assert table[q % PTRS := first][q % PTRS := second] == table[q % PTRS := second];
  }

  /** Allocating a second-level table changes no entry. */
  lemma NewTableFacts(dir: Directory, d: nat)
    requires Shaped(dir) && d < PTRS && dir[d] == []
    ensures Shaped(dir[d := NewTable()])
    ensures forall r: nat | r < PAGES :: Entry(dir[d := NewTable()], r) == Entry(dir, r)
    ensures forall r: nat | r < PAGES :: HasTable(dir[d := NewTable()], r) <==> r / PTRS == d || HasTable(dir, r)
  {
    var dir' := dir[d := NewTable()];
    assert |dir'[d]| == PTRS;
    forall r: nat | r < PAGES
      ensures HasTable(dir', r) <==> r / PTRS == d || HasTable(dir, r)
    {
    }
  }
}

/** The `frame` word of a page table entry (A3/pagetable.h:13-16,55): the frame
    number above twelve low bits, four of which are flags.

    `word & flag`, `word | flag` and `word ^ flag` are IsSet, Or and Xor: with a flag
    of one bit they read, set and flip that bit. */
module PteWord {
  import opened PageTable

  type Word = w: nat | w < 0x1_0000_0000

  datatype Flag = PG_VALID | PG_DIRTY | PG_REF | PG_ONSWAP

  predicate IsSet(word: Word, flag: Flag) {
    match flag
    case PG_VALID => word % 2 == 1
    case PG_DIRTY => word / 2 % 2 == 1
    case PG_REF => word / 2 / 2 % 2 == 1
    case PG_ONSWAP => word / 2 / 2 / 2 % 2 == 1
  }

  function Value(flag: Flag): nat {
    match flag
    case PG_VALID => 1
    case PG_DIRTY => 2
    case PG_REF => 4
    case PG_ONSWAP => 8
  }

  function Or(word: Word, flag: Flag): Word {
    if IsSet(word, flag) then word else word + Value(flag)
  }

  function Xor(word: Word, flag: Flag): Word {
    if IsSet(word, flag) then word - Value(flag) else word + Value(flag)
  }

  /** `num << PAGE_SHIFT`, in 32 bits. */
  function ShiftLeft(num: nat): Word {
    num * 4096 % 0x1_0000_0000
  }

  /** `word >> PAGE_SHIFT`. */
  function ShiftRight(word: Word): nat {
    ShiftedDown(word)
  }

  // ----- the digits of a word

  /** A number and its low bits, lowest last. */
  function Digits(rest: nat, o: nat, r: nat, d: nat, v: nat): nat {
    2 * (2 * (2 * (2 * rest + o) + r) + d) + v
  }

  predicate AreBits(o: nat, r: nat, d: nat, v: nat) {
    o < 2 && r < 2 && d < 2 && v < 2
  }

  lemma Halve(x: nat, bit: nat)
    requires bit < 2
    ensures (2 * x + bit) / 2 == x && (2 * x + bit) % 2 == bit
  {
  }

  lemma ReadDigits(rest: nat, o: nat, r: nat, d: nat, v: nat)
    requires AreBits(o, r, d, v)
    ensures var w := Digits(rest, o, r, d, v);
            w / 2 / 2 / 2 % 2 == o && w / 2 / 2 % 2 == r && w / 2 % 2 == d && w % 2 == v
  {
    Halve(2 * (2 * (2 * rest + o) + r) + d, v);
    Halve(2 * (2 * rest + o) + r, d);
    Halve(2 * rest + o, r);
    Halve(rest, o);
  }

  lemma HasDigits(w: nat) returns (rest: nat, o: nat, r: nat, d: nat, v: nat)
    ensures AreBits(o, r, d, v) && w == Digits(rest, o, r, d, v)
  {
    rest, o, r, d, v := w / 2 / 2 / 2 / 2, w / 2 / 2 / 2 % 2, w / 2 / 2 % 2, w / 2 % 2, w % 2;
  }

  /** The low four bits do not reach the frame number. */
  lemma NumberAbove(rest: nat, o: nat, r: nat, d: nat, v: nat)
    requires AreBits(o, r, d, v)
    ensures ShiftedDown(Digits(rest, o, r, d, v)) == rest / 256
  {
    var num, low := rest / 256, rest % 256;
    assert rest == 256 * num + low;
    assert Digits(rest, o, r, d, v) == 4096 * num + (16 * low + 8 * o + 4 * r + 2 * d + v);
  }

  function ShiftedDown(w: nat): nat {
    w / 4096
  }

  function Bit(b: bool): nat {
    if b then 1 else 0
  }

  lemma FlipValid(word: Word)
    ensures forall other :: IsSet(Xor(word, PG_VALID), other) <==> (other == PG_VALID) != IsSet(word, other)
    ensures ShiftRight(Xor(word, PG_VALID)) == ShiftRight(word)
  {
    var rest, o, r, d, v := HasDigits(word);
    ReadDigits(rest, o, r, d, v);
    NumberAbove(rest, o, r, d, v);
    ReadDigits(rest, o, r, d, 1 - v);
    NumberAbove(rest, o, r, d, 1 - v);
    assert Xor(word, PG_VALID) == Digits(rest, o, r, d, 1 - v);
  }

  lemma FlipDirty(word: Word)
    ensures forall other :: IsSet(Xor(word, PG_DIRTY), other) <==> (other == PG_DIRTY) != IsSet(word, other)
    ensures ShiftRight(Xor(word, PG_DIRTY)) == ShiftRight(word)
  {
    var rest, o, r, d, v := HasDigits(word);
    ReadDigits(rest, o, r, d, v);
    NumberAbove(rest, o, r, d, v);
    ReadDigits(rest, o, r, 1 - d, v);
    NumberAbove(rest, o, r, 1 - d, v);
    assert Xor(word, PG_DIRTY) == Digits(rest, o, r, 1 - d, v);
  }

  lemma FlipRef(word: Word)
    ensures forall other :: IsSet(Xor(word, PG_REF), other) <==> (other == PG_REF) != IsSet(word, other)
    ensures ShiftRight(Xor(word, PG_REF)) == ShiftRight(word)
  {
    var rest, o, r, d, v := HasDigits(word);
    ReadDigits(rest, o, r, d, v);
    NumberAbove(rest, o, r, d, v);
    ReadDigits(rest, o, 1 - r, d, v);
    NumberAbove(rest, o, 1 - r, d, v);
    assert Xor(word, PG_REF) == Digits(rest, o, 1 - r, d, v);
  }

  lemma FlipOnSwap(word: Word)
    ensures forall other :: IsSet(Xor(word, PG_ONSWAP), other) <==> (other == PG_ONSWAP) != IsSet(word, other)
    ensures ShiftRight(Xor(word, PG_ONSWAP)) == ShiftRight(word)
  {
    var rest, o, r, d, v := HasDigits(word);
    ReadDigits(rest, o, r, d, v);
    NumberAbove(rest, o, r, d, v);
    ReadDigits(rest, 1 - o, r, d, v);
    NumberAbove(rest, 1 - o, r, d, v);
    assert Xor(word, PG_ONSWAP) == Digits(rest, 1 - o, r, d, v);
  }

  /** The bit operations do what the operators do, bit by bit, on the flags and the
      number above them. */
  lemma BitByBit(word: Word, flag: Flag)
    ensures forall other :: IsSet(Or(word, flag), other) <==> flag == other || IsSet(word, other)
    ensures forall other :: IsSet(Xor(word, flag), other) <==> (flag == other) != IsSet(word, other)
    ensures ShiftRight(Or(word, flag)) == ShiftRight(Xor(word, flag)) == ShiftRight(word)
  {
    match flag {
      case PG_VALID => FlipValid(word);
      case PG_DIRTY => FlipDirty(word);
      case PG_REF => FlipRef(word);
      case PG_ONSWAP => FlipOnSwap(word);
    }
    assert Or(word, flag) == if IsSet(word, flag) then word else Xor(word, flag);
  }

  /** The word of an entry. */
  function WordOf(e: Pte): (w: Word)
    requires e.num < 0x10_0000
    ensures WithWord(e, w) == e
  {
    ReadDigits(256 * e.num, Bit(e.onswap), Bit(e.ref), Bit(e.dirty), Bit(e.valid));
    NumberAbove(256 * e.num, Bit(e.onswap), Bit(e.ref), Bit(e.dirty), Bit(e.valid));
    Digits(256 * e.num, Bit(e.onswap), Bit(e.ref), Bit(e.dirty), Bit(e.valid))
  }

  /** The layout of the word: four flags in the low bits, the number from bit twelve on. */
  lemma WordLayout(e: Pte)
    requires e.num < 0x10_0000
    ensures WordOf(e) == 4096 * e.num + (if e.valid then 0x1 else 0) + (if e.dirty then 0x2 else 0)
                         + (if e.ref then 0x4 else 0) + if e.onswap then 0x8 else 0
  {
  }

  /** The entry with its word replaced. */
  function WithWord(e: Pte, word: Word): Pte {
    Pte(ShiftRight(word), IsSet(word, PG_VALID), IsSet(word, PG_DIRTY), IsSet(word, PG_REF), IsSet(word, PG_ONSWAP),
        e.swapOff)
  }

  /** The operations on the word of an entry are updates of its fields. */
  lemma FieldUpdates(e: Pte, word: Word)
    requires WithWord(e, word) == e
    ensures WithWord(e, Or(word, PG_VALID)) == e.(valid := true)
    ensures WithWord(e, Or(word, PG_DIRTY)) == e.(dirty := true)
    ensures WithWord(e, Or(word, PG_REF)) == e.(ref := true)
    ensures WithWord(e, Or(word, PG_ONSWAP)) == e.(onswap := true)
    ensures WithWord(e, Xor(word, PG_VALID)) == e.(valid := !e.valid)
    ensures WithWord(e, Xor(word, PG_REF)) == e.(ref := !e.ref)
  {
    BitByBit(word, PG_VALID);
    BitByBit(word, PG_DIRTY);
    BitByBit(word, PG_REF);
    BitByBit(word, PG_ONSWAP);
  }

  /** A shifted frame number is the word of an entry for that frame with every flag clear. */
  lemma ShiftedNumber(e: Pte, num: nat)
    requires num < 0x10_0000
    ensures WithWord(e, ShiftLeft(num)) == Pte(num, false, false, false, false, e.swapOff)
  {
    ReadDigits(256 * num, 0, 0, 0, 0);
    NumberAbove(256 * num, 0, 0, 0, 0);
  }

  // ----- what the program does to an entry, on its word

  /** A3/pagetable.c:254-258. */
  method Mark(e: Pte, write: bool) returns (e': Pte)
    requires e.num < 0x10_0000
    ensures e' == e.(valid := true, ref := true, dirty := e.dirty || write)
  {
    var word := WordOf(e);
    FieldUpdates(e, word);
    word := Or(word, PG_VALID);
    FieldUpdates(e.(valid := true), word);
    word := Or(word, PG_REF);
    if write {
      FieldUpdates(e.(valid := true, ref := true), word);
      word := Or(word, PG_DIRTY);
    }
    e' := WithWord(e, word);
  }

  /** A3/pagetable.c:65-71: the exclusive or clears the valid flag, for a valid entry. */
  method SwapOut(e: Pte, at: int) returns (e': Pte)
    requires e.num < 0x10_0000
    ensures e' == e.(onswap := true, valid := !e.valid, swapOff := at)
  {
    var word := WordOf(e);
    FieldUpdates(e, word);
    word := Or(word, PG_ONSWAP);
    FieldUpdates(e.(onswap := true), word);
    word := Xor(word, PG_VALID);
    e' := WithWord(e, word).(swapOff := at);
  }

  /** A3/pagetable.c:218-224. */
  method Renumber(e: Pte, num: nat, isNew: bool) returns (e': Pte)
    requires num < 0x10_0000
    ensures e' == Pte(num, false, isNew, false, false, e.swapOff)
  {
    var word := ShiftLeft(num);
    ShiftedNumber(e, num);
    if isNew {
      FieldUpdates(Pte(num, false, false, false, false, e.swapOff), word);
      word := Or(word, PG_DIRTY);
    }
    e' := WithWord(e, word);
  }

  /** A3/clock.c:36: the exclusive or clears the reference flag, if it is set. */
  method FlipRefBit(e: Pte) returns (e': Pte)
    requires e.num < 0x10_0000
    ensures e' == e.(ref := !e.ref)
  {
    FieldUpdates(e, WordOf(e));
    e' := WithWord(e, Xor(WordOf(e), PG_REF));
  }

  method Test(e: Pte, flag: Flag) returns (on: bool)
    requires e.num < 0x10_0000
    ensures on == match flag
                    case PG_VALID => e.valid
                    case PG_DIRTY => e.dirty
                    case PG_REF => e.ref
                    case PG_ONSWAP => e.onswap
  {
    assert WithWord(e, WordOf(e)) == e;
    on := IsSet(WordOf(e), flag);
  }

  method Number(e: Pte) returns (num: nat)
    requires e.num < 0x10_0000
    ensures num == e.num
  {
    assert WithWord(e, WordOf(e)) == e;
    num := ShiftRight(WordOf(e));
  }
}
