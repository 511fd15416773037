/** Mapping the PT_LOAD segments of a shared object into the address range reserved for it
    (loader/loader.go).  Addresses are offsets into that reservation; the page size is
    4096. */
module Image {
  import opened Wrappers
  import opened Bits
  import opened Words
  import opened Layout

  datatype Prot = Prot(read: bool, write: bool, exec: bool)

  const PROT_NONE := Prot(false, false, false)

  /** elfProt: PF_X is 1, PF_W is 2, PF_R is 4. */
  function ElfProt(flags: nat): Prot {
    Prot(And(flags, 4) != 0, And(flags, 2) != 0, And(flags, 1) != 0)
  }

  /** Bit 2 of p_flags allows reading, bit 1 writing, bit 0 execution. */
  ghost predicate Allows(p: Prot, flags: nat) {
    (p.read <==> flags / 4 % 2 == 1) && (p.write <==> flags / 2 % 2 == 1) && (p.exec <==> flags % 2 == 1)
  }

  lemma ElfProtAllows(flags: nat)
    ensures Allows(ElfProt(flags), flags)
  {
    hide And;
    AndBit(flags, 0);
    AndBit(flags, 1);
    AndBit(flags, 2);
    Powers();
  }

  lemma Powers()
    ensures Pow2(0) == 1 && Pow2(1) == 2 && Pow2(2) == 4
  {
  }

  /** computeMapProt */
  function MapProt(prot: Prot, memsz: nat, filesz: nat): Prot {
    if memsz > filesz then prot.(write := true) else prot
  }

  function PageDown(v: nat): nat {
    AndNot(v, 4095)
  }

  /** What a private file mapping shows: the file, and zeros past its end. */
  function FileByte(file: seq<Byte>, k: nat): Byte {
    if k < |file| then file[k] else 0
  }

  datatype Segment = Segment(addr: int, size: nat, prot: Prot, fileOff: nat, memSize: nat, fileSize: nat)

  /** The address range that mmap.MapAnon(MemSize, ProtNone) returned. */
  class Reservation {
    const bytes: array<Byte>
    const prot: array<Prot>    // one entry for each page
    ghost var refused: bool    // whether the kernel has refused a call

    ghost predicate Valid() {
      bytes.Length == PAGE * prot.Length
    }

    constructor (pages: nat)
      ensures Valid() && fresh(bytes) && fresh(prot) && prot.Length == pages
      ensures !refused && forall p :: 0 <= p < pages ==> prot[p] == PROT_NONE
      ensures forall a :: 0 <= a < bytes.Length ==> bytes[a] == 0
    {
      bytes := new Byte[PAGE * pages](_ => 0);
      prot := new Prot[pages](_ => PROT_NONE);
      refused := false;
    }

    /** mmap with MAP_FIXED: of a file from `fileOff` on, or anonymous.  It may fail; the
        caller has to stay inside the reservation. */
    method MapFixed(off: nat, len: nat, p: Prot, file: Option<seq<Byte>>, fileOff: nat) returns (ok: bool)
      requires Valid() && off % PAGE == 0 && len % PAGE == 0 && off + len <= bytes.Length
      modifies this`refused, bytes, prot
      ensures refused == (old(refused) || !ok)
      ensures ok ==> forall a :: off <= a < off + len ==>
                                   bytes[a] == (if file.Some? then FileByte(file.value, fileOff + (a - off)) else 0)
      ensures ok ==> forall q :: off / PAGE <= q < (off + len) / PAGE ==> prot[q] == p
      ensures forall a :: 0 <= a < bytes.Length && !(ok && off <= a < off + len) ==> bytes[a] == old(bytes[a])
      ensures forall q :: 0 <= q < prot.Length && !(ok && off / PAGE <= q < (off + len) / PAGE) ==> prot[q] == old(prot[q])
    {
      ok := *;
      refused := refused || !ok;
      if ok {
        forall a | off <= a < off + len {
          bytes[a] := if file.Some? then FileByte(file.value, fileOff + (a - off)) else 0;
        }
        forall q | off / PAGE <= q < (off + len) / PAGE {
          prot[q] := p;
        }
      }
    }

    /** mprotect */
    method Protect(off: nat, len: nat, p: Prot) returns (ok: bool)
      requires Valid() && off % PAGE == 0 && len % PAGE == 0 && off + len <= bytes.Length
      modifies this`refused, prot
      ensures refused == (old(refused) || !ok)
      ensures ok ==> forall q :: off / PAGE <= q < (off + len) / PAGE ==> prot[q] == p
      ensures forall q :: 0 <= q < prot.Length && !(ok && off / PAGE <= q < (off + len) / PAGE) ==> prot[q] == old(prot[q])
    {
      ok := *;
      refused := refused || !ok;
      if ok {
        forall q | off / PAGE <= q < (off + len) / PAGE {
          prot[q] := p;
        }
      }
    }

    /** zeroMem: a store to a page that is not writable would fault. */
    method ZeroMem(off: nat, count: nat)
      requires Valid() && off + count <= bytes.Length
      requires forall a :: off <= a < off + count ==> prot[a / PAGE].write
      modifies bytes
      ensures forall a :: off <= a < off + count ==> bytes[a] == 0
      ensures forall a :: 0 <= a < bytes.Length && !(off <= a < off + count) ==> bytes[a] == old(bytes[a])
    {
      for i := 0 to count
        invariant forall a :: off <= a < off + i ==> bytes[a] == 0
        invariant forall a :: 0 <= a < bytes.Length && !(off <= a < off + i) ==> bytes[a] == old(bytes[a])
      {
        bytes[off + i] := 0;
      }
    }
  }

  // ---------------------------------------------------------------- geometry of one segment

  /** The segment lies in the span [base, base + size) that Layout accepted. */
  ghost predicate Inside(ph: ProgHeader, base: nat, size: nat) {
    && ph.ValidLoad() && ph.Wide()
    && base % PAGE == 0 && size % PAGE == 0 && size < W64
    && base <= ph.vaddr && ph.vaddr + ph.memsz <= base + size
  }

  function Lead(ph: ProgHeader): nat { ph.vaddr - PageDown(ph.vaddr) }

  /** The pages of the segment, as offsets into the reservation. */
  function Lo(ph: ProgHeader, base: nat): int { PageDown(ph.vaddr) - base }

  function FileLen(ph: ProgHeader): nat { PageAlign((ph.filesz + Lead(ph)) % W64) }

  function MemLen(ph: ProgHeader): nat { PageAlign((ph.memsz + Lead(ph)) % W64) }

  lemma Geometry(ph: ProgHeader, base: nat, size: nat)
    requires Inside(ph, base, size)
    ensures 0 <= Lo(ph, base) && Lo(ph, base) % PAGE == 0 && Lo(ph, base) + Lead(ph) == ph.vaddr - base
    ensures Lead(ph) == ph.vaddr % PAGE
    ensures IsRoundUp(ph.filesz + Lead(ph), PAGE, FileLen(ph))
    ensures IsRoundUp(ph.memsz + Lead(ph), PAGE, MemLen(ph))
    ensures FileLen(ph) <= MemLen(ph) && Lo(ph, base) + MemLen(ph) <= size
  {
    hide AndNot, PageAlign, PageDown, IsRoundUp, Inside, Lead, Lo, FileLen, MemLen;
    StartOf(ph, base);
    RoomFor(ph, base, size);
    LengthsOf(ph);
    RoundUpPages(ph.memsz + Lead(ph), MemLen(ph));
    RoundUpFits(ph.memsz + Lead(ph), MemLen(ph), size - Lo(ph, base));
    RoundUpFits(ph.filesz + Lead(ph), FileLen(ph), MemLen(ph));
  }

  lemma StartOf(ph: ProgHeader, base: nat)
    ensures Lead(ph) == ph.vaddr % PAGE && Lo(ph, base) == ph.vaddr - ph.vaddr % PAGE - base
  {
    hide AndNot;
    AndPage(ph.vaddr);
  }

  lemma RoomFor(ph: ProgHeader, base: nat, size: nat)
    requires Inside(ph, base, size)
    ensures 0 <= Lo(ph, base) && Lo(ph, base) % PAGE == 0 && (size - Lo(ph, base)) % PAGE == 0
    ensures ph.memsz + Lead(ph) <= size - Lo(ph, base) && ph.memsz + Lead(ph) + 4095 < W64 && ph.filesz <= ph.memsz
  {
    StartOf(ph, base);
    hide Lead, Lo, PageDown;
    GeometryNumbers(ph.vaddr, ph.memsz, base, size);
  }

  lemma GeometryNumbers(vaddr: nat, memsz: nat, base: nat, size: nat)
    requires base % PAGE == 0 && size % PAGE == 0 && size < W64
    requires base <= vaddr && vaddr + memsz <= base + size
    ensures var lo := vaddr - vaddr % PAGE - base;
            && 0 <= lo && lo % PAGE == 0 && (size - lo) % PAGE == 0
            && memsz + vaddr % PAGE <= size - lo && memsz + vaddr % PAGE + 4095 < W64
  {
  }

  lemma LengthsOf(ph: ProgHeader)
    requires ph.filesz <= ph.memsz && ph.memsz + Lead(ph) + 4095 < W64
    ensures IsRoundUp(ph.filesz + Lead(ph), PAGE, FileLen(ph)) && IsRoundUp(ph.memsz + Lead(ph), PAGE, MemLen(ph))
  {
    hide Lead, PageAlign, IsRoundUp;
    RoundedUp(ph.filesz + Lead(ph));
    RoundedUp(ph.memsz + Lead(ph));
  }

  lemma RoundedUp(x: nat)
    requires x + 4095 < W64
    ensures IsRoundUp(x, PAGE, PageAlign(x % W64))
  {
    hide PageAlign, IsRoundUp;
    PageAlignMeans(x);
  }

  lemma RoundUpPages(v: nat, r: nat)
    requires IsRoundUp(v, PAGE, r)
    ensures r % PAGE == 0 && v <= r
  {
  }

  lemma RoundUpFits(v: nat, r: nat, s: nat)
    requires IsRoundUp(v, PAGE, r) && s % PAGE == 0 && v <= s
    ensures r <= s
  {
  }

  /** What the program may rely on: the file's bytes, then zeros up to p_memsz, under the
      protection the header asks for. */
  ghost predicate LoadedIn(bytes: seq<Byte>, prot: seq<Prot>, ph: ProgHeader, base: nat, file: seq<Byte>)
    requires |bytes| == PAGE * |prot| && Inside(ph, base, |bytes|)
  {
    Geometry(ph, base, |bytes|);
    var at := ph.vaddr - base;
    && (forall a :: at <= a < at + ph.filesz ==>
                      bytes[a] == FileByte(file, PageDown(ph.off) + ph.vaddr % PAGE + (a - at)))
    && (forall a :: at + ph.filesz <= a < at + ph.memsz ==> bytes[a] == 0)
    && (forall q :: Lo(ph, base) / PAGE <= q < (Lo(ph, base) + MemLen(ph)) / PAGE ==> prot[q] == ElfProt(ph.flags))
  }

  /** Nothing outside the pages of the segment differs. */
  ghost predicate OnlyPagesOf(ph: ProgHeader, base: nat, b0: seq<Byte>, p0: seq<Prot>, b1: seq<Byte>, p1: seq<Prot>) {
    && |b0| == |b1| && |p0| == |p1|
    && (forall a :: 0 <= a < |b0| && !(Lo(ph, base) <= a < Lo(ph, base) + MemLen(ph)) ==> b1[a] == b0[a])
    && (forall q :: 0 <= q < |p0| && !(Lo(ph, base) / PAGE <= q < (Lo(ph, base) + MemLen(ph)) / PAGE) ==> p1[q] == p0[q])
  }

  lemma SegmentKept(ph: ProgHeader, other: ProgHeader, base: nat, file: seq<Byte>,
                    b0: seq<Byte>, p0: seq<Prot>, b1: seq<Byte>, p1: seq<Prot>)
    requires |b0| == PAGE * |p0| && Inside(ph, base, |b0|) && Inside(other, base, |b0|)
    requires Apart(ph, other, base) && OnlyPagesOf(other, base, b0, p0, b1, p1)
    requires LoadedIn(b0, p0, ph, base, file)
    ensures LoadedIn(b1, p1, ph, base, file)
  {
    hide AndNot, PageAlign, FileByte;
    Geometry(ph, base, |b0|);
    Geometry(other, base, |b0|);
  }

  /** The numbers that mapSegment computes. */
  lemma Numbers(ph: ProgHeader, base: nat, size: nat)
    requires Inside(ph, base, size)
    ensures var vaddr := PageDown(ph.vaddr);
            var lead := ph.vaddr - vaddr;
            && vaddr - base == Lo(ph, base) && 0 <= Lo(ph, base) && Lo(ph, base) % PAGE == 0
            && lead == Lead(ph) && ph.filesz <= ph.memsz
            && PageAlign((ph.filesz + lead) % W64) == FileLen(ph) && PageAlign((ph.memsz + lead) % W64) == MemLen(ph)
    ensures FileLen(ph) % PAGE == 0 && MemLen(ph) % PAGE == 0
    ensures Lead(ph) + ph.filesz <= FileLen(ph) <= MemLen(ph) && Lead(ph) + ph.memsz <= MemLen(ph)
    ensures Lo(ph, base) + MemLen(ph) <= size && (ph.memsz == ph.filesz ==> FileLen(ph) == MemLen(ph))
  {
    hide AndNot, PageAlign;
    Geometry(ph, base, size);
  }

  /** Only the pages of the file part differ. */
  lemma FilePagesOnly(ph: ProgHeader, base: nat, b0: seq<Byte>, p0: seq<Prot>, b1: seq<Byte>, p1: seq<Prot>)
    requires |b0| == |b1| == PAGE * |p0| && |p1| == |p0| && Inside(ph, base, |b0|)
    requires forall a :: 0 <= a < |b0| && !(Lo(ph, base) <= a < Lo(ph, base) + FileLen(ph)) ==> b1[a] == b0[a]
    requires forall q :: 0 <= q < |p0| && !(Lo(ph, base) / PAGE <= q < (Lo(ph, base) + FileLen(ph)) / PAGE) ==> p1[q] == p0[q]
    ensures OnlyPagesOf(ph, base, b0, p0, b1, p1)
  {
    Numbers(ph, base, |b0|);
    hide Lo, FileLen, MemLen, Inside;
  }

  /** ... and then only those of the segment. */
  lemma BothRegions(ph: ProgHeader, base: nat, b0: seq<Byte>, p0: seq<Prot>, b1: seq<Byte>, p1: seq<Prot>, b2: seq<Byte>, p2: seq<Prot>)
    requires |b0| == PAGE * |p0| && Inside(ph, base, |b0|) && OnlyPagesOf(ph, base, b0, p0, b1, p1)
    requires |b2| == |b1| && |p2| == |p1|
    requires forall a :: 0 <= a < |b1| && !(Lo(ph, base) + Lead(ph) + ph.filesz <= a < Lo(ph, base) + MemLen(ph)) ==> b2[a] == b1[a]
    requires forall q :: 0 <= q < |p1| && !(Lo(ph, base) / PAGE <= q < (Lo(ph, base) + MemLen(ph)) / PAGE) ==> p2[q] == p1[q]
    ensures OnlyPagesOf(ph, base, b0, p0, b2, p2)
  {
    Numbers(ph, base, |b0|);
    hide Lo, FileLen, MemLen, Inside, Lead;
  }

  /** The file part and the zeros make the segment. */
  lemma SegmentIs(ph: ProgHeader, base: nat, file: seq<Byte>, b1: seq<Byte>, p1: seq<Prot>, b2: seq<Byte>, p2: seq<Prot>)
    requires |b1| == |b2| == PAGE * |p2| && Inside(ph, base, |b1|)
    requires Lo(ph, base) >= 0 && Lo(ph, base) + FileLen(ph) <= |b1| && Lo(ph, base) + MemLen(ph) <= |b1|
    requires forall a :: Lo(ph, base) <= a < Lo(ph, base) + FileLen(ph) ==>
                           b1[a] == FileByte(file, PageDown(ph.off) + (a - Lo(ph, base)))
    requires forall a :: 0 <= a < |b1| && !(Lo(ph, base) + Lead(ph) + ph.filesz <= a < Lo(ph, base) + MemLen(ph)) ==> b2[a] == b1[a]
    requires forall a :: Lo(ph, base) + Lead(ph) + ph.filesz <= a < Lo(ph, base) + Lead(ph) + ph.memsz ==> 0 <= a < |b2| && b2[a] == 0
    requires forall q :: Lo(ph, base) / PAGE <= q < (Lo(ph, base) + MemLen(ph)) / PAGE ==> 0 <= q < |p2| && p2[q] == ElfProt(ph.flags)
    ensures LoadedIn(b2, p2, ph, base, file)
  {
    hide AndNot, PageAlign, FileByte, ElfProt;
    Geometry(ph, base, |b1|);
  }

  lemma TailPages(addr: nat, fileSize: nat, memSize: nat)
    requires addr % PAGE == 0 && fileSize % PAGE == 0 && memSize % PAGE == 0 && fileSize <= memSize
    ensures (addr + fileSize) % PAGE == 0 && (memSize - fileSize) % PAGE == 0
  {
  }

  // ---------------------------------------------------------------- one segment after another

  class Object {
    const base: nat              // BaseVAddr: the address that offset 0 stands for
    const mem: Reservation
    var segments: seq<Segment>

    constructor (base: nat, mem: Reservation)
      ensures this.base == base && this.mem == mem && segments == []
    {
      this.base, this.mem, segments := base, mem, [];
    }

    ghost predicate SegmentLoaded(ph: ProgHeader, file: seq<Byte>)
      requires mem.Valid() && Inside(ph, base, mem.bytes.Length)
      reads mem.bytes, mem.prot
    {
      LoadedIn(mem.bytes[..], mem.prot[..], ph, base, file)
    }

    method MapFileRegion(mapAddr: nat, alignedFileSize: nat, mapProt: Prot, file: seq<Byte>, alignedFileOff: nat)
      returns (ok: bool)
      requires mem.Valid() && mapAddr % PAGE == 0 && alignedFileSize % PAGE == 0
      requires mapAddr + alignedFileSize <= mem.bytes.Length
      modifies mem`refused, mem.bytes, mem.prot
      ensures mem.refused == (old(mem.refused) || !ok)
      ensures ok ==> forall a :: mapAddr <= a < mapAddr + alignedFileSize ==>
                                   mem.bytes[a] == FileByte(file, alignedFileOff + (a - mapAddr))
      ensures ok ==> forall q :: mapAddr / PAGE <= q < (mapAddr + alignedFileSize) / PAGE ==> mem.prot[q] == mapProt
      ensures forall a :: 0 <= a < mem.bytes.Length && !(mapAddr <= a < mapAddr + alignedFileSize) ==> mem.bytes[a] == old(mem.bytes[a])
      ensures forall q :: 0 <= q < mem.prot.Length && !(mapAddr / PAGE <= q < (mapAddr + alignedFileSize) / PAGE) ==>
                            mem.prot[q] == old(mem.prot[q])
    {
      if alignedFileSize == 0 {
        return true;
      }
      ok := mem.MapFixed(mapAddr, alignedFileSize, mapProt, Some(file), alignedFileOff);
    }

    method MapBSSTail(mapAddr: nat, alignedFileSize: nat, alignedMemSize: nat, mapProt: Prot) returns (ok: bool)
      requires mem.Valid() && mapAddr % PAGE == 0 && alignedFileSize % PAGE == 0 && alignedMemSize % PAGE == 0
      requires alignedFileSize <= alignedMemSize && mapAddr + alignedMemSize <= mem.bytes.Length
      modifies mem`refused, mem.bytes, mem.prot
      ensures mem.refused == (old(mem.refused) || !ok)
      ensures ok ==> forall a :: mapAddr + alignedFileSize <= a < mapAddr + alignedMemSize ==> mem.bytes[a] == 0
      ensures ok ==> forall q :: (mapAddr + alignedFileSize) / PAGE <= q < (mapAddr + alignedMemSize) / PAGE ==> mem.prot[q] == mapProt
      ensures forall a :: 0 <= a < mem.bytes.Length && !(mapAddr + alignedFileSize <= a < mapAddr + alignedMemSize) ==>
                            mem.bytes[a] == old(mem.bytes[a])
      ensures forall q :: 0 <= q < mem.prot.Length && !((mapAddr + alignedFileSize) / PAGE <= q < (mapAddr + alignedMemSize) / PAGE) ==>
                            mem.prot[q] == old(mem.prot[q])
    {
      var tailStart := mapAddr + alignedFileSize;
      var tailSize := alignedMemSize - alignedFileSize;
      TailPages(mapAddr, alignedFileSize, alignedMemSize);
      if tailSize == 0 {
        return true;
      }
      ok := mem.MapFixed(tailStart, tailSize, mapProt, None, 0);
    }

    /** The rest of the page in which the file part ends. */
    method ZeroBSSPage(mapAddr: nat, lead: nat, filesz: nat, alignedFileSize: nat)
      requires mem.Valid() && mapAddr % PAGE == 0 && alignedFileSize % PAGE == 0
      requires lead + filesz <= alignedFileSize && mapAddr + alignedFileSize <= mem.bytes.Length
      requires forall q :: mapAddr / PAGE <= q < (mapAddr + alignedFileSize) / PAGE ==> mem.prot[q].write
      modifies mem.bytes
      ensures forall a :: mapAddr + lead + filesz <= a < mapAddr + alignedFileSize ==> mem.bytes[a] == 0
      ensures forall a :: 0 <= a < mem.bytes.Length && !(mapAddr + lead + filesz <= a < mapAddr + alignedFileSize) ==>
                            mem.bytes[a] == old(mem.bytes[a])
    {
      var bssStart := mapAddr + lead + filesz;
      var pageEnd := mapAddr + alignedFileSize;
      if pageEnd > bssStart {
        forall a | bssStart <= a < pageEnd ensures mem.prot[a / PAGE].write {
          assert mapAddr / PAGE <= a / PAGE < (mapAddr + alignedFileSize) / PAGE;
        }
        mem.ZeroMem(bssStart, pageEnd - bssStart);
      }
    }

    method MapBSSRegion(mapAddr: nat, ph: ProgHeader, alignedFileSize: nat, alignedMemSize: nat, prot: Prot, mapProt: Prot)
      returns (ok: bool)
      requires mem.Valid() && mapAddr % PAGE == 0 && alignedFileSize % PAGE == 0 && alignedMemSize % PAGE == 0
      requires ph.filesz <= ph.memsz && mapProt == MapProt(prot, ph.memsz, ph.filesz)
      requires Lead(ph) + ph.filesz <= alignedFileSize && Lead(ph) + ph.memsz <= alignedMemSize
      requires alignedFileSize <= alignedMemSize && mapAddr + alignedMemSize <= mem.bytes.Length
      requires ph.memsz == ph.filesz ==> alignedFileSize == alignedMemSize
      requires forall q :: mapAddr / PAGE <= q < (mapAddr + alignedFileSize) / PAGE ==> mem.prot[q] == mapProt
      modifies mem`refused, mem.bytes, mem.prot
      ensures mem.refused == (old(mem.refused) || !ok)
      ensures ok ==> forall a :: mapAddr + Lead(ph) + ph.filesz <= a < mapAddr + Lead(ph) + ph.memsz ==> mem.bytes[a] == 0
      ensures ok ==> forall q :: mapAddr / PAGE <= q < (mapAddr + alignedMemSize) / PAGE ==> mem.prot[q] == prot
      ensures forall a :: 0 <= a < mem.bytes.Length && !(mapAddr + Lead(ph) + ph.filesz <= a < mapAddr + alignedMemSize) ==>
                            mem.bytes[a] == old(mem.bytes[a])
      ensures forall q :: 0 <= q < mem.prot.Length && !(mapAddr / PAGE <= q < (mapAddr + alignedMemSize) / PAGE) ==>
                            mem.prot[q] == old(mem.prot[q])
    {
      if ph.memsz <= ph.filesz {
        return true;
      }
      ok := MapBSSTail(mapAddr, alignedFileSize, alignedMemSize, mapProt);
      if !ok {
        return;
      }
      ZeroBSSPage(mapAddr, Lead(ph), ph.filesz, alignedFileSize);
      if prot != mapProt {
        ok := mem.Protect(mapAddr, alignedMemSize, prot);
      }
    }

    method MapSegment(ph: ProgHeader, file: seq<Byte>) returns (ok: bool)
      requires mem.Valid() && Inside(ph, base, mem.bytes.Length)
      modifies this`segments, mem`refused, mem.bytes, mem.prot
      ensures mem.refused == (old(mem.refused) || !ok)
      ensures ok ==> SegmentLoaded(ph, file)
      ensures OnlyPagesOf(ph, base, old(mem.bytes[..]), old(mem.prot[..]), mem.bytes[..], mem.prot[..])
      ensures segments == old(segments) + (if ok then [SegmentOf(ph, base)] else [])
    {
      hide AndNot, PageAlign, FileByte, ElfProt, MapProt, LoadedIn, OnlyPagesOf, Lo, Lead, FileLen, MemLen, IsRoundUp, PageDown, Inside;
      Numbers(ph, base, mem.bytes.Length);
      ghost var b0, p0 := mem.bytes[..], mem.prot[..];
      var alignedVAddr := PageDown(ph.vaddr);
      var alignedFileOff := PageDown(ph.off);
      var leading := ph.vaddr - alignedVAddr;
      var alignedFileSize := PageAlign((ph.filesz + leading) % W64);
      var alignedMemSize := PageAlign((ph.memsz + leading) % W64);
      var prot := ElfProt(ph.flags);
      var mapAddr := alignedVAddr - base;
      var mapProt := MapProt(prot, ph.memsz, ph.filesz);
      ok := MapFileRegion(mapAddr, alignedFileSize, mapProt, file, alignedFileOff);
      ghost var b1, p1 := mem.bytes[..], mem.prot[..];
      FilePagesOnly(ph, base, b0, p0, b1, p1);
      if !ok {
        return;
      }
      ok := MapBSSRegion(mapAddr, ph, alignedFileSize, alignedMemSize, prot, mapProt);
      BothRegions(ph, base, b0, p0, b1, p1, mem.bytes[..], mem.prot[..]);
      if !ok {
        return;
      }
      SegmentIs(ph, base, file, b1, p1, mem.bytes[..], mem.prot[..]);
      segments := segments + [Segment(mapAddr, alignedMemSize, prot, alignedFileOff, ph.memsz, ph.filesz)];
    }

    /** The pages that none of the first n segments has are as the reservation made them. */
    ghost predicate GapsAsReserved(loads: seq<ProgHeader>, n: nat)
      requires n <= |loads|
      reads mem.prot
    {
      forall q | 0 <= q < mem.prot.Length && (forall i | 0 <= i < n :: !HasPage(loads[i], base, q)) :: mem.prot[q] == PROT_NONE
    }

    /** One turn of the loop of mapSegments. */
    method MapNext(loads: seq<ProgHeader>, n: nat, file: seq<Byte>) returns (ok: bool)
      requires mem.Valid() && AllInside(loads, base, mem.bytes.Length) && AllApart(loads, base) && n < |loads|
      requires forall i :: 0 <= i < n ==> SegmentLoaded(loads[i], file)
      requires GapsAsReserved(loads, n)
      modifies this`segments, mem`refused, mem.bytes, mem.prot
      ensures mem.refused == (old(mem.refused) || !ok)
      ensures ok ==> forall i :: 0 <= i <= n ==> SegmentLoaded(loads[i], file)
      ensures GapsAsReserved(loads, n + 1)
      ensures segments == old(segments) + (if ok then [SegmentOf(loads[n], base)] else [])
    {
      hide LoadedIn, OnlyPagesOf, Apart, SegmentOf, HasPage;
      ghost var p0 := mem.prot[..];
      ghost var b0 := mem.bytes[..];
      ok := MapSegment(loads[n], file);
      OtherPages(loads[n], base, b0, p0, mem.bytes[..], mem.prot[..]);
      forall i | 0 <= i < n ensures LoadedIn(mem.bytes[..], mem.prot[..], loads[i], base, file) {
        SegmentKept(loads[i], loads[n], base, file, old(mem.bytes[..]), old(mem.prot[..]), mem.bytes[..], mem.prot[..]);
      }
    }

    /** mapSegments: whatever order the segments come in, all of them are there at the end. */
    method MapSegments(loads: seq<ProgHeader>, file: seq<Byte>) returns (ok: bool)
      requires mem.Valid() && AllInside(loads, base, mem.bytes.Length) && AllApart(loads, base)
      requires segments == [] && GapsAsReserved(loads, 0)
      modifies this`segments, mem`refused, mem.bytes, mem.prot
      ensures mem.refused == (old(mem.refused) || !ok)
      ensures ok ==> forall i :: 0 <= i < |loads| ==> SegmentLoaded(loads[i], file)
      ensures ok ==> GapsAsReserved(loads, |loads|)
      ensures ok ==> |segments| == |loads| && forall i :: 0 <= i < |loads| ==> segments[i] == SegmentOf(loads[i], base)
    {
      hide SegmentLoaded, SegmentOf, GapsAsReserved;
      for n := 0 to |loads|
        invariant forall i :: 0 <= i < n ==> SegmentLoaded(loads[i], file)
        invariant GapsAsReserved(loads, n) && mem.refused == old(mem.refused)
        invariant |segments| == n && forall i :: 0 <= i < n ==> segments[i] == SegmentOf(loads[i], base)
      {
        ok := MapNext(loads, n, file);
        if !ok {
          return;
        }
      }
      ok := true;
    }
  }

  /** Some byte of page q of the reservation belongs to the segment. */
  ghost predicate Touches(ph: ProgHeader, base: nat, q: int) {
    base + q * PAGE < ph.vaddr + ph.memsz && ph.vaddr < base + (q + 1) * PAGE
  }

  /** Page q is one of those that mapSegment maps. */
  ghost predicate HasPage(ph: ProgHeader, base: nat, q: int) {
    Lo(ph, base) / PAGE <= q < (Lo(ph, base) + MemLen(ph)) / PAGE
  }

  lemma OtherPages(ph: ProgHeader, base: nat, b0: seq<Byte>, p0: seq<Prot>, b1: seq<Byte>, p1: seq<Prot>)
    requires OnlyPagesOf(ph, base, b0, p0, b1, p1)
    ensures forall q | 0 <= q < |p0| && !HasPage(ph, base, q) :: p1[q] == p0[q]
  {
    hide Lo, MemLen;
  }

  /** mapSegment maps exactly the pages that the segment touches. */
  lemma HasPageIff(ph: ProgHeader, base: nat, size: nat, q: nat)
    requires Inside(ph, base, size)
    ensures HasPage(ph, base, q) <==> Touches(ph, base, q)
  {
    hide AndNot, PageAlign, IsRoundUp;
    Geometry(ph, base, size);
    PageBounds(ph.vaddr - base, Lead(ph), ph.memsz, Lo(ph, base), MemLen(ph), q);
  }

  lemma PageBounds(at: nat, lead: nat, memsz: nat, lo: nat, len: nat, q: nat)
    requires lo % PAGE == 0 && lo + lead == at && lead < PAGE && IsRoundUp(memsz + lead, PAGE, len)
    ensures lo / PAGE <= q < (lo + len) / PAGE <==> q * PAGE < at + memsz && at < (q + 1) * PAGE
  {
    var i, n := lo / PAGE, len / PAGE;
    assert lo == i * PAGE && len == n * PAGE;
    ModUnique(lo + len, PAGE, i + n, 0);
  }

  ghost function SegmentOf(ph: ProgHeader, base: nat): Segment {
    Segment(Lo(ph, base), MemLen(ph), ElfProt(ph.flags), PageDown(ph.off), ph.memsz, ph.filesz)
  }

  /** The two segments share no page. */
  ghost predicate Apart(a: ProgHeader, b: ProgHeader, base: nat) {
    Lo(a, base) + MemLen(a) <= Lo(b, base) || Lo(b, base) + MemLen(b) <= Lo(a, base)
  }

  ghost predicate AllInside(loads: seq<ProgHeader>, base: nat, size: nat) {
    forall i :: 0 <= i < |loads| ==> Inside(loads[i], base, size)
  }

  ghost predicate AllApart(loads: seq<ProgHeader>, base: nat) {
    forall i, j :: 0 <= i < j < |loads| ==> Apart(loads[i], loads[j], base)
  }

  /** A layout that Layout accepts, with a page-aligned BaseVAddr, has room for all. */
  lemma LayoutHolds(progs: seq<ProgHeader>, loads: seq<ProgHeader>, base: nat, memSize: nat)
    requires LayoutOf(progs, loads, base, memSize) && base % PAGE == 0
    requires forall p <- progs :: p.Wide()
    ensures AllInside(loads, base, memSize)
  {
    var hi: nat :| SpanOf(progs, base, hi) && IsRoundUp(hi - base, PAGE, memSize);
    SizeFits(hi - base, memSize);
    forall i | 0 <= i < |loads| ensures Inside(loads[i], base, memSize) {
      LoadsAre(progs, loads[i]);
    }
  }

  lemma SizeFits(span: nat, size: nat)
    requires span + 4095 < W64 && IsRoundUp(span, PAGE, size)
    ensures size < W64
  {
  }

  ghost predicate Congruent(ph: ProgHeader) {
    ph.vaddr % PAGE == ph.off % PAGE
  }

  lemma CongruentOffset(ph: ProgHeader)
    ensures Congruent(ph) <==> PageDown(ph.off) + ph.vaddr % PAGE == ph.off
  {
    AndPage(ph.off);
  }

  /** What every ELF loader promises of a PT_LOAD: the byte at p_vaddr + k is the file's byte
      at p_offset + k for k < p_filesz and zero from there to p_memsz, and every page has the
      protection of the header. */
  ghost predicate AsFile(bytes: seq<Byte>, prot: seq<Prot>, ph: ProgHeader, base: nat, file: seq<Byte>)
    requires |bytes| == PAGE * |prot| && Inside(ph, base, |bytes|)
  {
    Geometry(ph, base, |bytes|);
    var at := ph.vaddr - base;
    && (forall a :: at <= a < at + ph.memsz ==>
                      bytes[a] == if a < at + ph.filesz && ph.off + (a - at) < |file| then file[ph.off + (a - at)] else 0)
    && (forall a :: at <= a < at + ph.memsz ==> Allows(prot[a / PAGE], ph.flags))
  }

  /** Nothing is read from the file, or its offset and address agree modulo the page size. */
  ghost predicate Mappable(ph: ProgHeader) {
    ph.filesz == 0 || Congruent(ph)
  }

  /** Whatever the file, a segment that mapSegment has loaded is what the file says. */
  ghost predicate AlwaysAsFile(ph: ProgHeader, base: nat, size: nat) {
    forall bytes: seq<Byte>, prot: seq<Prot>, file: seq<Byte> |
      |bytes| == size && |bytes| == PAGE * |prot| && Inside(ph, base, |bytes|) && LoadedIn(bytes, prot, ph, base, file) ::
      AsFile(bytes, prot, ph, base, file)
  }

  lemma LoadedAsFile(bytes: seq<Byte>, prot: seq<Prot>, ph: ProgHeader, base: nat, file: seq<Byte>)
    requires |bytes| == PAGE * |prot| && Inside(ph, base, |bytes|) && Mappable(ph)
    requires LoadedIn(bytes, prot, ph, base, file)
    ensures AsFile(bytes, prot, ph, base, file)
  {
    hide AndNot, PageAlign, ElfProt, Allows;
    Geometry(ph, base, |bytes|);
    CongruentOffset(ph);
    ElfProtAllows(ph.flags);
    var at := ph.vaddr - base;
    forall a | at <= a < at + ph.memsz ensures Allows(prot[a / PAGE], ph.flags) {
      PageInside(a, Lo(ph, base), MemLen(ph));
    }
  }

  ghost function LoadedByte(ph: ProgHeader, base: nat, file: seq<Byte>, a: int): Byte {
    var at := ph.vaddr - base;
    if at <= a < at + ph.filesz then FileByte(file, PageDown(ph.off) + ph.vaddr % PAGE + (a - at)) else 0
  }

  /** The image that mapSegment makes of a file when nothing else is in the reservation. */
  ghost function LoadedBytes(ph: ProgHeader, base: nat, size: nat, file: seq<Byte>): seq<Byte>
    requires Inside(ph, base, size)
  {
    seq<Byte>(size, a requires 0 <= a < size => LoadedByte(ph, base, file, a))
  }

  /** With a file part at another place in its page than the segment, the first byte of some
      file is loaded wrongly. */
  lemma IncongruentMisloads(ph: ProgHeader, base: nat, size: nat) returns (bytes: seq<Byte>, prot: seq<Prot>, file: seq<Byte>)
    requires Inside(ph, base, size) && !Mappable(ph)
    ensures |bytes| == size && |bytes| == PAGE * |prot|
    ensures LoadedIn(bytes, prot, ph, base, file) && !AsFile(bytes, prot, ph, base, file)
  {
    CongruentOffset(ph);
    file := seq(ph.off + 1, i => if i == ph.off then 1 else 0);
    bytes := LoadedBytes(ph, base, size, file);
    prot := seq(size / PAGE, q => ElfProt(ph.flags));
    WholeSize(size);
    MisloadedIs(ph, base, file, bytes, prot);
    Geometry(ph, base, size);
    hide AndNot, PageAlign, ElfProt;
    var at := ph.vaddr - base;
    assert bytes[at] == FileByte(file, PageDown(ph.off) + ph.vaddr % PAGE) == 0;
    assert file[ph.off + (at - at)] == 1;
  }

  lemma WholeSize(size: nat)
    requires size % PAGE == 0
    ensures size == PAGE * (size / PAGE)
  {
  }

  lemma MisloadedIs(ph: ProgHeader, base: nat, file: seq<Byte>, bytes: seq<Byte>, prot: seq<Prot>)
    requires |bytes| == PAGE * |prot| && Inside(ph, base, |bytes|)
    requires bytes == LoadedBytes(ph, base, |bytes|, file) && forall q | 0 <= q < |prot| :: prot[q] == ElfProt(ph.flags)
    ensures LoadedIn(bytes, prot, ph, base, file)
  {
    hide AndNot, PageAlign, FileByte, ElfProt;
    Geometry(ph, base, |bytes|);
  }

  /** A loaded segment is what the file says, for every file, if and only if it has no file
      part or p_vaddr and p_offset are congruent modulo the page size. */
  lemma AsFileIffMappable(ph: ProgHeader, base: nat, size: nat)
    requires Inside(ph, base, size)
    ensures AlwaysAsFile(ph, base, size) <==> Mappable(ph)
  {
    if Mappable(ph) {
      forall bytes: seq<Byte>, prot: seq<Prot>, file: seq<Byte> |
        |bytes| == size && |bytes| == PAGE * |prot| && Inside(ph, base, |bytes|) && LoadedIn(bytes, prot, ph, base, file)
        ensures AsFile(bytes, prot, ph, base, file)
      {
        LoadedAsFile(bytes, prot, ph, base, file);
      }
    } else {
      var bytes, prot, file := IncongruentMisloads(ph, base, size);
    }
  }

  lemma PageInside(a: nat, lo: nat, len: nat)
    requires lo % PAGE == 0 && len % PAGE == 0 && lo <= a < lo + len
    ensures lo / PAGE <= a / PAGE < (lo + len) / PAGE
  {
  }

  /** createAndMapObject up to the symbol tables: from any accepted program headers whose
      PT_LOADs share no page, the image is what the file says or the load fails. */
  method CreateAndMapObject(parsed: ParsedObject, ghost progs: seq<ProgHeader>, file: seq<Byte>)
    returns (ok: bool, obj: Object)
    requires forall p <- progs :: p.Wide()
    requires LayoutOf(progs, parsed.loadSegments, parsed.baseVAddr, parsed.memSize)
    requires parsed.baseVAddr % PAGE == 0
    requires AllApart(parsed.loadSegments, parsed.baseVAddr)
    requires forall ph <- parsed.loadSegments :: Mappable(ph)
    ensures obj.mem.Valid() && obj.mem.bytes.Length == parsed.memSize && obj.base == parsed.baseVAddr
    ensures AllInside(parsed.loadSegments, obj.base, obj.mem.bytes.Length)
    ensures ok <==> !obj.mem.refused
    ensures ok ==> forall q | 0 <= q < obj.mem.prot.Length && (forall ph <- parsed.loadSegments :: !Touches(ph, obj.base, q)) ::
                !obj.mem.prot[q].read && !obj.mem.prot[q].write && !obj.mem.prot[q].exec
    ensures ok ==> forall i :: 0 <= i < |parsed.loadSegments| ==>
                                 AsFile(obj.mem.bytes[..], obj.mem.prot[..], parsed.loadSegments[i], obj.base, file)
  {
    hide AsFile, Mappable, AllApart, IsRoundUp, Touches, HasPage;
    var loads := parsed.loadSegments;
    LayoutHolds(progs, loads, parsed.baseVAddr, parsed.memSize);
    WholePages(progs, loads, parsed.baseVAddr, parsed.memSize);
    var mem := new Reservation(parsed.memSize / PAGE);
    obj := new Object(parsed.baseVAddr, mem);
    ok := obj.MapSegments(loads, file);
    if ok {
      forall q | 0 <= q < mem.prot.Length && (forall ph <- loads :: !Touches(ph, obj.base, q)) ensures mem.prot[q] == PROT_NONE {
        forall i | 0 <= i < |loads| ensures !HasPage(loads[i], obj.base, q) {
          assert loads[i] in loads;
          HasPageIff(loads[i], obj.base, mem.bytes.Length, q);
        }
      }
      forall i | 0 <= i < |loads| ensures AsFile(obj.mem.bytes[..], obj.mem.prot[..], loads[i], obj.base, file) {
        assert loads[i] in loads;
        LoadedAsFile(obj.mem.bytes[..], obj.mem.prot[..], loads[i], obj.base, file);
      }
    }
  }

  lemma WholePages(progs: seq<ProgHeader>, loads: seq<ProgHeader>, base: nat, memSize: nat)
    requires LayoutOf(progs, loads, base, memSize)
    ensures PAGE * (memSize / PAGE) == memSize
  {
  }
}
