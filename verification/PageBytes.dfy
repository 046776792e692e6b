/** What a simulated page holds (A3/sim.h:6, A3/pagetable.c:147-159,
    A3/sim.c:49-64): sixteen bytes, a 32-bit version word at offset 0 and the
    64-bit virtual address at offset 4, both little-endian. */
module PageBytes {

  const SIMPAGESIZE: nat := 16
  const WORD: nat := 0x1_0000_0000          // values of the version word
  const ADDRESSES: nat := 0x10_0000_0000    // virtual addresses have 36 bits

  type Byte = b: nat | b < 256

  function Pow256(n: nat): (r: nat)
    ensures 0 < r
  {
    if n == 0 then 1 else 256 * Pow256(n - 1)
  }

  /** The `n` low bytes of `x`, lowest first. */
  function ToBytes(x: nat, n: nat): (s: seq<Byte>)
    ensures |s| == n
  {
    if n == 0 then [] else [x % 256] + ToBytes(x / 256, n - 1)
  }

  function FromBytes(s: seq<Byte>): nat {
    if s == [] then 0 else s[0] + 256 * FromBytes(s[1..])
  }

  lemma {:induction false} RoundTrip(x: nat, n: nat)
    requires x < Pow256(n)
    ensures FromBytes(ToBytes(x, n)) == x
  {
    if n > 0 {
      RoundTrip(x / 256, n - 1);
      assert ToBytes(x, n)[1..] == ToBytes(x / 256, n - 1);
    }
  }

  lemma Sizes()
    ensures Pow256(4) == WORD && ADDRESSES <= Pow256(8)
  {
    assert Pow256(2) == 0x1_0000;
    assert Pow256(6) == 0x1_0000_0000_0000;
  }

  type Page = p: seq<Byte> | |p| == 16 witness ToBytes(0, 16)

  function Version(p: Page): nat {
    FromBytes(p[0..4])
  }

  function Address(p: Page): nat {
    FromBytes(p[4..12])
  }

  /** The number in the four bytes from `i`, lowest first. */
  function Quad(s: seq<Byte>, i: nat): int
    requires i + 4 <= |s|
  {
    var a: int, b: int, c: int, d: int := s[i], s[i + 1], s[i + 2], s[i + 3];
    a + 0x100 * b + 0x1_0000 * c + 0x100_0000 * d
  }

  lemma FromTail(s: seq<Byte>, i: nat)
    requires i < |s|
    ensures FromBytes(s[i..]) == s[i] as int + 0x100 * FromBytes(s[i + 1..])
  {
    assert s[i..][1..] == s[i + 1..];
  }

  lemma FourBytes(s: seq<Byte>, i: nat)
    requires i + 4 <= |s|
    ensures FromBytes(s[i..]) == Quad(s, i) + 0x1_0000_0000 * FromBytes(s[i + 4..])
  {
    FromTail(s, i);
    FromTail(s, i + 1);
    FromTail(s, i + 2);
    FromTail(s, i + 3);
  }

  /** The layout of a page: the version in four bytes, then the address in eight. */
  lemma PageLayout(p: Page)
    ensures Version(p) == Quad(p, 0) && Address(p) == Quad(p, 4) + 0x1_0000_0000 * Quad(p, 8)
  {
    var v, a := p[0..4], p[4..12];
    FourBytes(v, 0);
    FourBytes(a, 0);
    FourBytes(a, 4);
    assert v[0..] == v && a[0..] == a;
  }

  /** A zeroed page with its address recorded. */
  function FreshPage(vaddr: nat): Page {
    ToBytes(0, 4) + ToBytes(vaddr, 8) + ToBytes(0, 4)
  }

  lemma {:induction false} ZeroBytes(n: nat)
    ensures forall i | 0 <= i < n :: ToBytes(0, n)[i] == 0
  {
    if n > 0 {
      ZeroBytes(n - 1);
    }
  }

  /** Clearing a page and then recording the address at offset 4 gives a fresh page. */
  lemma FreshPageWritten(mem: seq<Byte>, at: nat, vaddr: nat)
    requires at + 16 <= |mem|
    ensures Overwrite(Overwrite(mem, at, ToBytes(0, 16)), at + 4, ToBytes(vaddr, 8))
            == Overwrite(mem, at, FreshPage(vaddr))
  {
    ZeroBytes(16);
    ZeroBytes(4);
  }

  /** The page with its version word incremented, wrapping. */
  function Bumped(p: Page): Page {
    ToBytes((Version(p) + 1) % WORD, 4) + p[4..]
  }

  /** Storing the new version word alone bumps the page. */
  lemma BumpWritten(mem: seq<Byte>, f: nat)
    requires 16 * (f + 1) <= |mem|
    ensures Overwrite(mem, 16 * f, ToBytes((Version(FrameBytes(mem, f)) + 1) % WORD, 4))
         == Overwrite(mem, 16 * f, Bumped(FrameBytes(mem, f)))
  {
  }

  lemma FreshPageReads(vaddr: nat)
    requires vaddr < ADDRESSES
    ensures Version(FreshPage(vaddr)) == 0 && Address(FreshPage(vaddr)) == vaddr
  {
    var p := FreshPage(vaddr);
    Sizes();
    RoundTrip(0, 4);
    RoundTrip(vaddr, 8);
    assert p[0..4] == ToBytes(0, 4);
    assert p[4..12] == ToBytes(vaddr, 8);
  }

  lemma BumpedReads(p: Page)
    ensures Version(Bumped(p)) == (Version(p) + 1) % WORD && Address(Bumped(p)) == Address(p)
  {
    Sizes();
    RoundTrip((Version(p) + 1) % WORD, 4);
    assert Bumped(p)[0..4] == ToBytes((Version(p) + 1) % WORD, 4);
    assert Bumped(p)[4..12] == p[4..12];
  }

  // ----- an array of pages

  /** The bytes of frame `f` in physical memory. */
  function FrameBytes(mem: seq<Byte>, f: nat): Page
    requires 16 * (f + 1) <= |mem|
  {
    mem[16 * f..16 * f + 16]
  }

  function Overwrite(mem: seq<Byte>, at: nat, data: seq<Byte>): (r: seq<Byte>)
    requires at + |data| <= |mem|
    ensures |r| == |mem|
  {
    mem[..at] + data + mem[at + |data|..]
  }

  /** Overwriting inside one frame leaves every other frame alone. */
  lemma OverwriteFrame(mem: seq<Byte>, f: nat, o: nat, data: seq<Byte>)
    requires 16 * (f + 1) <= |mem| && o + |data| <= 16
    ensures FrameBytes(Overwrite(mem, 16 * f + o, data), f) == Overwrite(FrameBytes(mem, f), o, data)
    ensures forall g: nat | 16 * (g + 1) <= |mem| && g != f ::
              FrameBytes(Overwrite(mem, 16 * f + o, data), g) == FrameBytes(mem, g)
  {
    var r := Overwrite(mem, 16 * f + o, data);
    forall i | 0 <= i < 16
      ensures FrameBytes(r, f)[i] == Overwrite(FrameBytes(mem, f), o, data)[i]
    {
      assert r[16 * f + i] == if o <= i < o + |data| then data[i - o] else mem[16 * f + i];
    }
    forall g: nat | 16 * (g + 1) <= |mem| && g != f
      ensures FrameBytes(r, g) == FrameBytes(mem, g)
    {
      forall i | 0 <= i < 16
        ensures FrameBytes(r, g)[i] == FrameBytes(mem, g)[i]
      {
        assert r[16 * g + i] == mem[16 * g + i];
      }
    }
  }

  /** The frame bytes after writing at the start of frame `f`: the data itself, if
      it is a whole page. */
  lemma WriteFrame(mem: seq<Byte>, f: nat, data: seq<Byte>)
    requires 16 * (f + 1) <= |mem| && |data| <= 16
    ensures |data| == 16 ==> FrameBytes(Overwrite(mem, 16 * f, data), f) == data
    ensures forall g: nat | 16 * (g + 1) <= |mem| && g != f ::
              FrameBytes(Overwrite(mem, 16 * f, data), g) == FrameBytes(mem, g)
  {
    OverwriteFrame(mem, f, 0, data);
  }

  /** memset and memcpy into an array, and stores through a pointer into it. */
  method Store(a: array<Byte>, at: nat, data: seq<Byte>)
    requires at + |data| <= a.Length
    modifies a
    ensures a[..] == Overwrite(old(a[..]), at, data)
  {
    forall i | 0 <= i < |data| {
      a[at + i] := data[i];
    }
  }
}
