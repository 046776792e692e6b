/** The swap file (A3/swap.c:144-256).

    The file is the sequence of its bytes; writing past the end extends it.  What
    lseek, read and write return is an input: a failed seek is its error number,
    and a read or write that fails returns -1. */
module SwapSpace {
  import opened Bitmap
  import opened PageBytes
  import opened PageTable

  /** The file after `write` of `data` at `pos`: a gap reads as zeros. */
  function FileWrite(file: seq<Byte>, pos: nat, data: seq<Byte>): seq<Byte> {
    var padded := if |file| < pos + |data| then file + seq(pos + |data| - |file|, i => 0) else file;
    Overwrite(padded, pos, data)
  }

  function Min(a: int, b: int): int {
    if a < b then a else b
  }

  /** What `read` of `n` bytes at `pos` returns: short at the end of the file. */
  function FileRead(file: seq<Byte>, pos: nat, n: nat): (r: seq<Byte>)
    ensures |r| <= n
  {
    file[Min(pos, |file|)..Min(pos + n, |file|)]
  }

  /** Byte by byte: a write puts its data where it says and keeps the rest, and a read
      gets what is there up to the end of the file. */
  lemma FileBytes(file: seq<Byte>, pos: nat, data: seq<Byte>, n: nat)
    ensures var file' := FileWrite(file, pos, data);
            && |file'| == (if pos + |data| > |file| then pos + |data| else |file|)
            && forall i | 0 <= i < |file'| ::
                 file'[i] == if pos <= i < pos + |data| then data[i - pos] else if i < |file| then file[i] else 0
    ensures var r := FileRead(file, pos, n);
            && |r| == (if pos >= |file| then 0 else if pos + n > |file| then |file| - pos else n)
            && forall i | 0 <= i < |r| :: r[i] == file[pos + i]
  {
  }

  /** A byte position that is the start of one of `n` slots. */
  predicate IsSlot(pos: int, n: nat) {
    0 <= pos < 16 * n && pos % 16 == 0
  }

  lemma ReadAfterWrite(file: seq<Byte>, pos: nat, data: Page, n: nat)
    requires IsSlot(pos, n)
    ensures |FileWrite(file, pos, data)| >= |file|
    ensures FileRead(FileWrite(file, pos, data), pos, 16) == data
  {
  }

  /** Writing what is there changes nothing. */
  lemma RewriteSame(file: seq<Byte>, pos: nat, data: Page)
    requires FileRead(file, pos, 16) == data
    ensures FileWrite(file, pos, data) == file
  {
    assert pos + 16 <= |file|;
    var file' := FileWrite(file, pos, data);
    forall i | 0 <= i < |file|
      ensures file'[i] == file[i]
    {
      if pos <= i < pos + 16 {
        assert file'[i] == data[i - pos] == file[pos..pos + 16][i - pos];
      }
    }
  }

  /** Slots do not overlap: writing one leaves whole pages in the others alone. */
  lemma ReadOtherSlot(file: seq<Byte>, pos: nat, data: Page, n: nat, other: nat)
    requires IsSlot(pos, n) && IsSlot(other, n) && other != pos
    requires |FileRead(file, other, 16)| == 16
    ensures FileRead(FileWrite(file, pos, data), other, 16) == FileRead(file, other, 16)
  {
    assert other + 16 <= |file|;
    assert other + 16 <= pos || pos + 16 <= other;
    var file' := FileWrite(file, pos, data);
    assert |file'| >= |file| && FileRead(file', other, 16) == file'[other..other + 16];
    forall i | other <= i < other + 16
      ensures file'[i] == file[i]
    {
    }
  }

  class SwapSpace {
    const swapmap: Bitmap
    var file: seq<Byte>

    ghost predicate Valid()
      reads this, swapmap.v
    {
      swapmap.Valid()
    }

    ghost function Used(): set<nat>
      requires Valid()
      reads this, swapmap.v
    {
      swapmap.Used()
    }

    ghost predicate Full()
      requires Valid()
      reads this, swapmap.v
    {
      forall i: nat | i < swapmap.nbits :: i in Used()
    }

    constructor (swapsize: nat)
      ensures Valid() && Used() == {} && file == []
      ensures fresh(swapmap) && fresh(swapmap.v) && swapmap.nbits == swapsize
    {
      swapmap := new Bitmap(swapsize);
      file := [];
    }

    /** Reads the page at `offset` into `frame`, of which `read` delivers `got` bytes.
        The result is zero on success; a read at the end of the file delivers no byte
        and so returns zero too. */
    method PageIn(physmem: array<Byte>, frame: nat, offset: nat, errno: int, got: int) returns (rc: int)
      requires 16 * (frame + 1) <= physmem.Length
      requires 0 <= errno && -1 <= got <= |FileRead(file, offset, 16)|
      modifies physmem
      ensures rc == 0 <==> errno == 0 && (got == 16 || got == 0)
      ensures errno != 0 ==> rc == -errno && physmem[..] == old(physmem[..])
      ensures errno == 0 && got != 16 ==> rc == got
      ensures errno == 0 && got == -1 ==> physmem[..] == old(physmem[..])
      ensures errno == 0 && got >= 0 ==>
                physmem[..] == Overwrite(old(physmem[..]), 16 * frame, FileRead(file, offset, 16)[..got])
    {
      if errno != 0 {
        return -errno;
      }
      if got >= 0 {
        Store(physmem, 16 * frame, FileRead(file, offset, 16)[..got]);
      }
      if got != 16 {
        return got;
      }
      return 0;
    }

    /** Writes `frame` to its slot, first taking the least free slot when the page has
        none; `write` accepts `put` bytes.  It answers INVALID_SWAP when it needs a slot
        and every slot is in use, and then changes nothing, or when the operating system
        fails it, and then a slot it took stays taken, with what `write` accepted. */
    method PageOut(physmem: array<Byte>, frame: nat, offset: int, errno: int, put: int) returns (at: int)
      requires Valid() && 16 * (frame + 1) <= physmem.Length
      requires (offset == INVALID_SWAP || offset >= 0) && 0 <= errno && -1 <= put <= 16
      modifies this, swapmap.v
      ensures Valid()
      ensures at == INVALID_SWAP <==> (offset == INVALID_SWAP && old(Full())) || errno != 0 || put != 16
      ensures offset == INVALID_SWAP && old(Full()) ==> Used() == old(Used()) && file == old(file)
      ensures offset != INVALID_SWAP ==>
                && Used() == old(Used()) && (at != INVALID_SWAP ==> at == offset)
                && (errno == 0 && put > 0 ==>
                      file == FileWrite(old(file), offset, FrameBytes(physmem[..], frame)[..put]))
      ensures offset == INVALID_SWAP && !old(Full()) ==>
                exists i: nat :: i < swapmap.nbits && i !in old(Used()) && Used() == old(Used()) + {i}
                                 && (forall j: nat | j < i :: j in old(Used())) && (at != INVALID_SWAP ==> at == 16 * i)
                                 && (errno == 0 && put > 0 ==>
                                       file == FileWrite(old(file), 16 * i, FrameBytes(physmem[..], frame)[..put]))
      ensures offset == INVALID_SWAP && at != INVALID_SWAP ==>
                IsSlot(at, swapmap.nbits) && at / 16 !in old(Used()) && Used() == old(Used()) + {at / 16}
      ensures errno != 0 || put <= 0 ==> file == old(file)
      ensures at != INVALID_SWAP ==> file == FileWrite(old(file), at, old(FrameBytes(physmem[..], frame)))
    {
      var page := FrameBytes(physmem[..], frame);
      at := offset;
      if at == INVALID_SWAP {
        var full, idx := swapmap.Alloc();
        assert full <==> old(Full()) by {
          if !full { assert idx !in old(Used()); }
        }
        if full {
          return INVALID_SWAP;
        }
        at := idx * 16;
        assert at / 16 == idx && IsSlot(at, swapmap.nbits);
      }
      if errno != 0 {
        return INVALID_SWAP;
      }
      if put > 0 {
        file := FileWrite(file, at, page[..put]);
      }
      assert page[..16] == page;
      if put != 16 {
        return INVALID_SWAP;
      }
    }
  }
}
