/** The address span of a shared object, computed from its program headers (elf/parse.go). */
module Layout {
  import opened Wrappers
  import opened Bits

  datatype Kind = PtLoad | PtDynamic | PtGnuRelro | PtTls | PtOther

  datatype ProgHeader = ProgHeader(kind: Kind, flags: nat, off: nat, vaddr: nat, filesz: nat, memsz: nat, align: nat)
  {
    /** The fields are unsigned 64-bit numbers. */
    predicate Wide() {
      off < W64 && vaddr < W64 && filesz < W64 && memsz < W64 && align < W64
    }

    /** validatePTLoad */
    predicate ValidLoad() {
      filesz <= memsz && vaddr <= W64 - 1 - memsz
    }
  }

  function PageAlign(v: nat): nat {
    AndNot((v + 4095) % W64, 4095)
  }

  /** Rounding up is right until the addition wraps; then the result is 0. */
  lemma PageAlignMeans(v: nat)
    requires v < W64
    ensures v + 4095 < W64 ==> IsRoundUp(v, PAGE, PageAlign(v))
    ensures v + 4095 >= W64 ==> PageAlign(v) == 0
    ensures PageAlign(v) == 0 <==> v == 0 || v + 4095 >= W64
  {
    hide AndNot;
    var x := if v + 4095 < W64 then v + 4095 else v + 4095 - W64;
    assert (v + 4095) % W64 == x;
    AndPage(x);
    RoundDown(x);
  }

  ghost predicate CoversLoads(progs: seq<ProgHeader>, lo: nat, hi: nat) {
    forall p <- progs :: p.kind.PtLoad? ==> lo <= p.vaddr && p.vaddr + p.memsz <= hi
  }

  /** Both ends of the span are ends of some PT_LOAD. */
  ghost predicate TightOn(progs: seq<ProgHeader>, lo: nat, hi: nat) {
    && (exists p <- progs :: p.kind.PtLoad? && p.vaddr == lo)
    && (exists p <- progs :: p.kind.PtLoad? && p.vaddr + p.memsz == hi)
  }

  ghost predicate Acceptable(progs: seq<ProgHeader>) {
    && (forall p <- progs :: p.kind.PtLoad? ==> p.filesz <= p.memsz && p.vaddr + p.memsz < 0x1_0000_0000_0000_0000)
    && (exists p <- progs :: p.kind.PtLoad?)
    && (exists p <- progs :: p.kind.PtDynamic?)
  }

  function Loads(progs: seq<ProgHeader>): seq<ProgHeader> {
    if progs == [] then []
    else
      var n := |progs| - 1;
      Loads(progs[..n]) + (if progs[n].kind.PtLoad? then [progs[n]] else [])
  }

  /** updateAddressRange */
  function UpdateAddressRange(minVAddr: nat, maxVAddr: nat, vaddr: nat, memsz: nat, first: bool): (nat, nat) {
    var end := (vaddr + memsz) % W64;
    if first then (vaddr, end)
    else (if vaddr < minVAddr then vaddr else minVAddr, if end > maxVAddr then end else maxVAddr)
  }

  class ParsedObject {
    var baseVAddr: nat
    var memSize: nat
    var loadSegments: seq<ProgHeader>
    var dynamicSeg: Option<ProgHeader>
    var gnuRelroSeg: Option<ProgHeader>
    var tlsSeg: Option<ProgHeader>

    constructor ()
      ensures loadSegments == [] && dynamicSeg == None
    {
      baseVAddr, memSize, loadSegments := 0, 0, [];
      dynamicSeg, gnuRelroSeg, tlsSeg := None, None, None;
    }

    /** collectProgramHeaders with validateRequiredSegments */
    method CollectProgramHeaders(progs: seq<ProgHeader>) returns (ok: bool, minVAddr: nat, maxVAddr: nat)
      requires forall p <- progs :: p.Wide()
      requires loadSegments == [] && dynamicSeg == None
      modifies this
      ensures ok <==> Acceptable(progs)
      ensures ok ==>
                && loadSegments == Loads(progs)
                && CoversLoads(progs, minVAddr, maxVAddr) && TightOn(progs, minVAddr, maxVAddr)
                && minVAddr <= maxVAddr < W64
    {
      minVAddr, maxVAddr := 0, 0;
      var first := true;
      for i := 0 to |progs|
        invariant Scanned(progs[..i], minVAddr, maxVAddr, first, loadSegments)
        invariant dynamicSeg == None <==> forall p <- progs[..i] :: !p.kind.PtDynamic?
      {
        hide Scanned, CoversLoads, TightOn;
        var ph := progs[i];
        assert progs[..i + 1] == progs[..i] + [ph];
        ScannedMore(progs[..i], ph, minVAddr, maxVAddr, first, loadSegments);
        match ph.kind {
          case PtLoad =>
            if !ph.ValidLoad() {
              return false, 0, 0;
            }
            loadSegments := loadSegments + [ph];
            var (lo, hi) := UpdateAddressRange(minVAddr, maxVAddr, ph.vaddr, ph.memsz, first);
            minVAddr, maxVAddr, first := lo, hi, false;
          case PtDynamic => dynamicSeg := Some(ph);
          case PtGnuRelro => gnuRelroSeg := Some(ph);
          case PtTls => tlsSeg := Some(ph);
          case PtOther =>
        }
      }
      assert progs[..|progs|] == progs;
      if |loadSegments| == 0 || dynamicSeg == None {
        return false, 0, 0;
      }
      ok := true;
    }

    /** calculateMemoryLayout */
    method CalculateMemoryLayout(minVAddr: nat, maxVAddr: nat) returns (ok: bool)
      requires minVAddr < W64 && maxVAddr < W64
      modifies this`baseVAddr, this`memSize
      ensures ok <==> minVAddr < maxVAddr && maxVAddr - minVAddr + 4095 < W64
      ensures ok ==> baseVAddr == minVAddr && IsRoundUp(maxVAddr - minVAddr, PAGE, memSize)
    {
      if maxVAddr < minVAddr {
        return false;
      }
      PageAlignMeans(maxVAddr - minVAddr);
      baseVAddr := minVAddr;
      memSize := PageAlign(maxVAddr - minVAddr);
      return memSize != 0;
    }

    /** parseHeadersAndLayout up to the layout: over all 64-bit headers, what is accepted
        and what the accepted layout is. */
    method ParseLayout(progs: seq<ProgHeader>) returns (ok: bool)
      requires forall p <- progs :: p.Wide()
      requires loadSegments == [] && dynamicSeg == None
      modifies this
      ensures ok <==> Acceptable(progs) && exists lo: nat, hi: nat :: SpanOf(progs, lo, hi)
      ensures ok ==> LayoutOf(progs, loadSegments, baseVAddr, memSize)
    {
      var minVAddr, maxVAddr;
      ok, minVAddr, maxVAddr := CollectProgramHeaders(progs);
      if !ok {
        return;
      }
      ok := CalculateMemoryLayout(minVAddr, maxVAddr);
      if ok {
        assert SpanOf(progs, minVAddr, maxVAddr);
      } else {
        forall lo: nat, hi: nat | CoversLoads(progs, lo, hi) && TightOn(progs, lo, hi)
          ensures lo == minVAddr && hi == maxVAddr
        {
          SpanUnique(progs, lo, hi, minVAddr, maxVAddr);
        }
      }
    }
  }

  ghost predicate SpanOf(progs: seq<ProgHeader>, lo: nat, hi: nat) {
    CoversLoads(progs, lo, hi) && TightOn(progs, lo, hi) && lo < hi && hi - lo + 4095 < W64
  }

  /** An accepted layout: the whole pages that cover the PT_LOADs, and no page more. */
  ghost predicate LayoutOf(progs: seq<ProgHeader>, loads: seq<ProgHeader>, base: nat, memSize: nat) {
    && Acceptable(progs)
    && loads == Loads(progs)
    && exists hi: nat :: SpanOf(progs, base, hi) && IsRoundUp(hi - base, PAGE, memSize)
  }

  lemma SpanUnique(progs: seq<ProgHeader>, lo: nat, hi: nat, lo': nat, hi': nat)
    requires CoversLoads(progs, lo, hi) && TightOn(progs, lo, hi)
    requires CoversLoads(progs, lo', hi') && TightOn(progs, lo', hi')
    ensures lo == lo' && hi == hi'
  {
  }

  /** Where collectProgramHeaders stands after these headers. */
  ghost predicate Scanned(progs: seq<ProgHeader>, lo: nat, hi: nat, first: bool, loads: seq<ProgHeader>) {
    && (forall p <- progs :: p.kind.PtLoad? ==> p.ValidLoad())
    && (first <==> forall p <- progs :: !p.kind.PtLoad?)
    && loads == Loads(progs) && (first <==> loads == [])
    && (!first ==> CoversLoads(progs, lo, hi) && TightOn(progs, lo, hi))
    && lo <= hi < W64
  }

  lemma ScannedMore(progs: seq<ProgHeader>, ph: ProgHeader, lo: nat, hi: nat, first: bool, loads: seq<ProgHeader>)
    requires Scanned(progs, lo, hi, first, loads) && ph.Wide()
    ensures ph.kind.PtLoad? && ph.ValidLoad() ==>
              var (lo', hi') := UpdateAddressRange(lo, hi, ph.vaddr, ph.memsz, first);
              Scanned(progs + [ph], lo', hi', false, loads + [ph])
    ensures !ph.kind.PtLoad? ==> Scanned(progs + [ph], lo, hi, first, loads)
  {
    if ph.kind.PtLoad? {
      if ph.ValidLoad() {
        ScannedLoad(progs, ph, lo, hi, first, loads);
      }
    } else {
      ScannedOther(progs, ph, lo, hi, first, loads);
    }
  }

  lemma OneMore(progs: seq<ProgHeader>, ph: ProgHeader)
    ensures Loads(progs + [ph]) == Loads(progs) + (if ph.kind.PtLoad? then [ph] else [])
    ensures ph in progs + [ph] && (forall p <- progs :: p in progs + [ph])
    ensures forall p <- progs + [ph] :: p in progs || p == ph
  {
    assert (progs + [ph])[..|progs|] == progs;
  }

  lemma ScannedOther(progs: seq<ProgHeader>, ph: ProgHeader, lo: nat, hi: nat, first: bool, loads: seq<ProgHeader>)
    requires Scanned(progs, lo, hi, first, loads) && !ph.kind.PtLoad?
    ensures Scanned(progs + [ph], lo, hi, first, loads)
  {
    OneMore(progs, ph);
    hide Loads;
    if !first {
      var p :| p in progs && p.kind.PtLoad? && p.vaddr == lo;
      var q :| q in progs && q.kind.PtLoad? && q.vaddr + q.memsz == hi;
      assert p in progs + [ph] && q in progs + [ph];
    }
  }

  lemma ScannedLoad(progs: seq<ProgHeader>, ph: ProgHeader, lo: nat, hi: nat, first: bool, loads: seq<ProgHeader>)
    requires Scanned(progs, lo, hi, first, loads) && ph.Wide() && ph.kind.PtLoad? && ph.ValidLoad()
    ensures var (lo', hi') := UpdateAddressRange(lo, hi, ph.vaddr, ph.memsz, first);
            Scanned(progs + [ph], lo', hi', false, loads + [ph])
  {
    OneMore(progs, ph);
    hide Loads;
    SpanGrows(progs, ph, lo, hi, first);
    hide CoversLoads, TightOn;
  }

  lemma SpanGrows(progs: seq<ProgHeader>, ph: ProgHeader, lo: nat, hi: nat, first: bool)
    requires ph.Wide() && ph.kind.PtLoad? && ph.ValidLoad()
    requires if first then forall p <- progs :: !p.kind.PtLoad? else CoversLoads(progs, lo, hi) && TightOn(progs, lo, hi)
    ensures var (lo', hi') := UpdateAddressRange(lo, hi, ph.vaddr, ph.memsz, first);
            CoversLoads(progs + [ph], lo', hi') && TightOn(progs + [ph], lo', hi')
  {
    OneMore(progs, ph);
    hide Loads;
  }

  lemma {:induction false} LoadsAre(progs: seq<ProgHeader>, p: ProgHeader)
    ensures p in Loads(progs) <==> p in progs && p.kind.PtLoad?
  {
    if progs != [] {
      var n := |progs| - 1;
      assert progs == progs[..n] + [progs[n]];
      LoadsAre(progs[..n], p);
    }
  }
}
