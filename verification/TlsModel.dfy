/** Thread-local storage as values: registered modules, the blocks of each thread and the
    memory mappings of the process, with the three operations that change them.  Each runs
    under one lock, so any interleaving of threads is a sequence of them. */
module TlsModel {
  import opened Wrappers
  import opened Bits

  datatype Module = Module(ID: nat, Size: nat, Align: nat, FileSize: nat, InitData: nat)
  {
    function AlignedSize(): nat
      requires Align > 0
    {
      AlignUp(Size, Align)
    }
  }

  /** A block of some thread: where it is and what it is a copy of. */
  datatype Placed = Placed(addr: nat, mod: Module)

  type Blocks = map<nat, map<nat, Placed>>

  /** `maps` gives the length of every live mapping of the process, by its start. */
  datatype State = State(modules: seq<Module>, nextID: nat, blocks: Blocks, maps: map<nat, nat>)

  // ---------------------------------------------------------------- alignment by masks

  /** (size + align - 1) &^ (align - 1), in 64-bit arithmetic */
  function AlignUp(size: nat, align: nat): nat
    requires align > 0
  {
    AndNot((size + align - 1) % W64, align - 1)
  }

  /** For every alignment, power of two or not, the aligned size covers the size exactly as
      long as the addition does not wrap. */
  lemma AlignUpCovers(size: nat, align: nat)
    requires 0 < size < W64 && 0 < align < W64
    ensures AlignUp(size, align) >= size <==> size + align - 1 < W64
    ensures size + align - 1 < W64 ==> AlignUp(size, align) < size + align
  {
    var sum := size + align - 1;
    var x := if sum < W64 then sum else sum - W64;
    assert sum % W64 == x;
    AndBounds(x, align - 1);
  }

  ghost predicate IsPower(x: nat) {
    exists k: nat :: x == Pow2(k)
  }

  lemma PowerOf(x: nat, k: nat)
    requires x == Pow2(k)
    ensures IsPower(x)
  {
  }

  lemma DoublePower(x: nat)
    requires x > 0
    ensures IsPower(2 * x) <==> IsPower(x)
  {
    if IsPower(x) {
      var k: nat :| x == Pow2(k);
      PowerOf(2 * x, k + 1);
    }
    if IsPower(2 * x) {
      var k: nat :| 2 * x == Pow2(k);
      PowerOf(x, k - 1);
    }
  }

  lemma OddPower(x: nat)
    requires x % 2 == 1
    ensures IsPower(x) <==> x == 1
  {
    if x == 1 {
      PowerOf(x, 0);
    } else {
      forall k: nat ensures x != Pow2(k) {
      }
    }
  }

  /** x &^ (x - 1) keeps the lowest set bit, so it is x only for a power of two. */
  lemma {:induction false} LowestBit(x: nat)
    requires x > 0
    ensures 0 < AndNot(x, x - 1) <= x
    ensures AndNot(x, x - 1) == x <==> IsPower(x)
  {
    hide IsPower, And;
    BelowBits(x);
    if x % 2 == 1 {
      AndSelf(x / 2);
      OddPower(x);
    } else {
      LowestBit(x / 2);
      DoublePower(x / 2);
    }
  }

  /** The bits that a number has in common with the number before it. */
  lemma BelowBits(x: nat)
    requires x > 0
    ensures And(x, x - 1) == if x % 2 == 1 then 2 * And(x / 2, x / 2) else 2 * And(x / 2, x / 2 - 1)
  {
    assert (x - 1) / 2 == (if x % 2 == 1 then x / 2 else x / 2 - 1);
  }

  lemma PowerRoundsUp(size: nat, k: nat)
    requires size + Pow2(k) - 1 < W64
    ensures IsRoundUp(size, Pow2(k), AlignUp(size, Pow2(k)))
  {
    hide And, AndNot, Pow2, IsRoundUp;
    var p := Pow2(k);
    var x := size + p - 1;
    AndMask(x, k);
    assert x % W64 == x;
    RoundedIs(size, p);
  }

  lemma RoundedIs(size: nat, p: nat)
    requires p > 0
    ensures var x := size + p - 1;
            x - x % p >= 0 && IsRoundUp(size, p, x - x % p)
  {
    WholeMultiple(size + p - 1, p);
  }

  lemma WholeMultiple(x: nat, p: nat)
    requires p > 0
    ensures x - x % p >= 0 && (x - x % p) % p == 0 && x - p < x - x % p <= x
  {
    assert x == (x / p) * p + x % p;
    ModUnique(x - x % p, p, x / p, 0);
  }

  ghost predicate AlwaysAMultiple(align: nat)
    requires align > 0
  {
    forall size: nat | size + align - 1 < W64 :: AlignUp(size, align) % align == 0
  }

  /** The mask rounds every size up to the least multiple of the alignment if and only if
      the alignment is a power of two. */
  lemma RoundsUpIffPower(align: nat)
    requires 0 < align < W64
    ensures AlwaysAMultiple(align) <==> IsPower(align)
    ensures AlwaysAMultiple(align) ==>
              forall size: nat | size + align - 1 < W64 :: IsLeastMultiple(size, align, AlignUp(size, align))
  {
    hide And, AndNot;
    LowestBit(align);
    if IsPower(align) {
      var k: nat :| align == Pow2(k);
      forall size: nat | size + align - 1 < W64
        ensures IsLeastMultiple(size, align, AlignUp(size, align))
        ensures AlignUp(size, align) % align == 0
      {
        PowerRoundsUp(size, k);
        RoundUpIsLeast(size, align, AlignUp(size, align));
      }
    } else {
      var low := AndNot(align, align - 1);
      assert AlignUp(1, align) == low && 0 < low < align;
      ModUnique(low, align, 0, low);
    }
  }

  // ---------------------------------------------------------------- mappings

  /** The kernel maps whole pages. */
  function Pages(len: nat): nat {
    (len + PAGE - 1) / PAGE * PAGE
  }

  predicate Apart(a: nat, m: nat, b: nat, n: nat) {
    a + m <= b || b + n <= a
  }

  /** What an anonymous mmap of `len` bytes may answer: a failure, always so for no bytes, or
      whole pages that are clear of all mappings. */
  ghost predicate MayAnswer(maps: map<nat, nat>, len: nat, answer: Option<nat>) {
    answer.Some? ==>
      && len > 0 && answer.value > 0 && answer.value % PAGE == 0 && answer.value + Pages(len) <= W64
      && forall b <- maps :: Apart(answer.value, Pages(len), b, maps[b])
  }

  ghost predicate MapsApart(maps: map<nat, nat>) {
    && (forall a <- maps :: maps[a] > 0)
    && (forall a, b | a in maps && b in maps && a != b :: Apart(a, maps[a], b, maps[b]))
  }

  // ---------------------------------------------------------------- what an allocation writes

  /** unsafe.Slice(ptr, len) */
  predicate SlicePanics(ptr: nat, len: nat) {
    len >= 0x8000_0000_0000_0000 || (len > 0 && ptr == 0) || ptr + len > W64
  }

  predicate HasTemplate(mod: Module) {
    mod.FileSize > 0 && mod.InitData != 0
  }

  predicate HasBss(mod: Module) {
    mod.Size > mod.FileSize
  }

  function BssStart(mod: Module, addr: nat): nat {
    Plus(addr, mod.FileSize)
  }

  predicate AllocationPanics(mod: Module, addr: nat) {
    || (HasTemplate(mod) && (SlicePanics(mod.InitData, mod.FileSize) || SlicePanics(addr, mod.FileSize)))
    || (HasBss(mod) && SlicePanics(BssStart(mod, addr), mod.Size - mod.FileSize))
  }

  predicate InTemplate(mod: Module, addr: nat, a: int) {
    HasTemplate(mod) && addr <= a < addr + mod.FileSize
  }

  predicate InBss(mod: Module, addr: nat, a: int) {
    HasBss(mod) && BssStart(mod, addr) <= a < BssStart(mod, addr) + (mod.Size - mod.FileSize)
  }

  /** The template and the zeros of a block go no further than its mapping. */
  predicate Fits(mod: Module)
    requires mod.Align > 0
  {
    var len := Pages(mod.AlignedSize());
    (HasTemplate(mod) ==> mod.FileSize <= len) && (HasBss(mod) ==> mod.Size <= len)
  }

  /** Every byte an allocation writes lies in the mapping made for it. */
  ghost predicate WritesInside(mod: Module, addr: nat, len: nat) {
    forall a :: InTemplate(mod, addr, a) || InBss(mod, addr, a) ==> addr <= a < addr + len
  }

  /** An allocation writes only inside its own mapping if and only if the template, if there
      is one, and the size, if there is something to zero, are no longer than that. */
  lemma WritesInsideIff(mod: Module, addr: nat)
    requires mod.Align > 0 && mod.FileSize < W64 && addr + Pages(mod.AlignedSize()) <= W64
    ensures WritesInside(mod, addr, Pages(mod.AlignedSize())) <==> Fits(mod)
  {
    hide Pages, AlignUp;
    var len := Pages(mod.AlignedSize());
    if !(HasTemplate(mod) ==> mod.FileSize <= len) {
      assert InTemplate(mod, addr, addr + mod.FileSize - 1);
    } else if HasBss(mod) {
      assert mod.FileSize < W64 - addr ==> BssStart(mod, addr) == addr + mod.FileSize;
      assert mod.FileSize >= W64 - addr ==> BssStart(mod, addr) == addr + mod.FileSize - W64;
      if mod.Size > len {
        var a := if mod.FileSize < W64 - addr then addr + mod.Size - 1 else BssStart(mod, addr);
        assert InBss(mod, addr, a);
      }
    }
  }

  /** The headers that a linker writes: no more file than memory, and a size that can be
      rounded up. */
  lemma RegularFits(mod: Module)
    requires mod.Align > 0 && mod.FileSize <= mod.Size && mod.Size + mod.Align - 1 < W64
    ensures Fits(mod) && mod.Size <= Pages(mod.AlignedSize())
  {
    if mod.Size > 0 {
      AlignUpCovers(mod.Size, mod.Align);
      PagesCover(mod.AlignedSize());
    }
  }

  /** A block has room for its size exactly if the size can be rounded up. */
  lemma CoversIff(mod: Module)
    requires 0 < mod.Align <= PAGE && 0 < mod.Size < W64
    ensures mod.Size <= Pages(mod.AlignedSize()) <==> mod.Size + mod.Align - 1 < W64
  {
    hide AndNot;
    if mod.Size + mod.Align - 1 < W64 {
      RegularFits(mod.(FileSize := 0));
    } else {
      var x := mod.Size + mod.Align - 1 - W64;
      assert (mod.Size + mod.Align - 1) % W64 == x;
      AndBounds(x, mod.Align - 1);
      assert mod.AlignedSize() <= x < PAGE;
      assert Pages(mod.AlignedSize()) <= PAGE;
    }
  }

  /** RegisterModule takes p_filesz and p_memsz as they come. */
  const TOO_LONG := Module(1, 1, 1, 4097, 0x20000)

  /** An allocation at addr gets one page and copies the byte behind it, too. */
  predicate LeavesItsPage(mod: Module, addr: nat)
    requires mod.Align > 0
  {
    && Pages(mod.AlignedSize()) == PAGE && !Fits(mod)
    && !AllocationPanics(mod, addr) && InTemplate(mod, addr, addr + PAGE)
  }

  /** A template longer than the block is copied beyond the mapping of the block. */
  lemma CopiesBeyond()
    ensures LeavesItsPage(TOO_LONG, 0x10000)
  {
    assert And(1, 0) == 0;
    hide And;
    assert TOO_LONG.AlignedSize() == 1;
    hide AlignUp, AndNot;
  }

  lemma TooLongIsRegistered()
    ensures RegisterModule(State([], 1, map[], map[]), Register(1, 1, 4097, 0x20000)).state.modules == [TOO_LONG]
  {
  }

  // ---------------------------------------------------------------- the operations

  predicate Has(blocks: Blocks, t: nat, m: nat) {
    t in blocks && m in blocks[t]
  }

  function Row(blocks: Blocks, t: nat): map<nat, Placed> {
    if t in blocks then blocks[t] else map[]
  }

  function Addresses(row: map<nat, Placed>): set<nat> {
    set m | m in row :: row[m].addr
  }

  datatype Call =
    | Register(size: nat, align: nat, fileSize: nat, initData: nat)
    | GetAddr(thread: nat, id: nat, offset: nat, answer: Option<nat>)
    | Cleanup(thread: nat, refused: set<nat>)   // the addresses at which munmap fails

  /** A value is the new module ID or the address, and 0 for a failure.  A panic ends the
      process, so no state after it matters. */
  datatype Reply = Value(n: nat) | Panic

  datatype Outcome = Outcome(state: State, reply: Reply)

  function RegisterModule(s: State, c: Call): Outcome
    requires c.Register?
  {
    var align := if c.align == 0 then 1 else c.align;
    if s.nextID >= 65536 || align > 4096 then Outcome(s, Value(0))
    else
      var mod := Module(s.nextID, c.size, align, c.fileSize, c.initData);
      Outcome(s.(modules := s.modules + [mod], nextID := s.nextID + 1), Value(mod.ID))
  }

  function Known(s: State, id: nat): bool {
    0 < id <= |s.modules|
  }

  /** 64-bit addition */
  function Plus(a: nat, b: nat): nat {
    (a + b) % W64
  }

  /** IDs are converted to signed numbers, so one from 2^63 on passes the check of the range
      and then fails as an index. */
  function GetTLSAddr(s: State, c: Call): Outcome
    requires c.GetAddr? && (Known(s, c.id) ==> s.modules[c.id - 1].Align > 0)
  {
    var row := Row(s.blocks, c.thread);
    if c.id in row then Outcome(s, Value(Plus(row[c.id].addr, c.offset)))
    else if c.id >= 0x8000_0000_0000_0000 then Outcome(s, Panic)
    else if !Known(s, c.id) || c.answer == None then Outcome(s.(blocks := s.blocks[c.thread := row]), Value(0))
    else
      var block := Placed(c.answer.value, s.modules[c.id - 1]);
      if AllocationPanics(block.mod, block.addr) then Outcome(s, Panic)
      else Outcome(s.(blocks := s.blocks[c.thread := row[c.id := block]],
                   maps := s.maps[block.addr := Pages(block.mod.AlignedSize())]),
                   Value(Plus(block.addr, c.offset)))
  }

  function CleanupThread(s: State, c: Call): Outcome
    requires c.Cleanup?
  {
    Outcome(s.(blocks := s.blocks - {c.thread}, maps := s.maps - (Addresses(Row(s.blocks, c.thread)) - c.refused)), Value(0))
  }

  /** What the kernel keeps to. */
  ghost predicate Allowed(s: State, c: Call)
    requires Inv(s)
  {
    c.GetAddr? && Known(s, c.id) && !Has(s.blocks, c.thread, c.id) ==>
      MayAnswer(s.maps, s.modules[c.id - 1].AlignedSize(), c.answer)
  }

  function Step(s: State, c: Call): Outcome
    requires Inv(s)
  {
    match c
    case Register(_, _, _, _) => RegisterModule(s, c)
    case GetAddr(_, _, _, _) => GetTLSAddr(s, c)
    case Cleanup(_, _) => CleanupThread(s, c)
  }

  // ---------------------------------------------------------------- what every step keeps

  predicate Sound(mod: Module, id: nat) {
    mod.ID == id && 0 < mod.Align <= PAGE
  }

  predicate Numbered(modules: seq<Module>, nextID: nat) {
    && nextID == |modules| + 1 <= 65536
    && forall i | 0 <= i < |modules| :: Sound(modules[i], i + 1)
  }

  /** Each block is a copy of the module it is filed under and fills a mapping of its own. */
  ghost predicate Backed(s: State) {
    forall t, m | Has(s.blocks, t, m) :: BackedAt(s, t, m)
  }

  predicate BackedAt(s: State, t: nat, m: nat)
    requires Has(s.blocks, t, m)
  {
    var b := s.blocks[t][m];
    && Known(s, m) && b.mod == s.modules[m - 1] && b.mod.Align > 0
    && 0 < b.addr && b.addr in s.maps && s.maps[b.addr] == Pages(b.mod.AlignedSize())
  }

  ghost predicate Distinct(blocks: Blocks) {
    forall t, m, u, n | Has(blocks, t, m) && Has(blocks, u, n) && (t != u || m != n) ::
      blocks[t][m].addr != blocks[u][n].addr
  }

  ghost predicate Inv(s: State) {
    Numbered(s.modules, s.nextID) && MapsApart(s.maps) && Backed(s) && Distinct(s.blocks)
  }

  lemma StartInv(foreign: map<nat, nat>)
    requires MapsApart(foreign)
    ensures Inv(State([], 1, map[], foreign))
  {
  }

  lemma PagesCover(len: nat)
    requires len > 0
    ensures len <= Pages(len) && Pages(len) % PAGE == 0
  {
    var n := (len + PAGE - 1) / PAGE;
    ModUnique(Pages(len), PAGE, n, 0);
  }

  /** A mapping is as long as the least number of pages that covers what was asked for. */
  lemma PagesAreLeast(len: nat)
    ensures IsLeastMultiple(len, 4096, Pages(len))
  {
    assert Pages(len) % 4096 == 0 by {
      ModUnique(Pages(len), PAGE, (len + PAGE - 1) / PAGE, 0);
    }
    hide Pages;
    assert len <= Pages(len) < len + 4096 by {
      PagesBound(len);
    }
    RoundUpIsLeast(len, 4096, Pages(len));
  }

  lemma PagesBound(len: nat)
    ensures len <= Pages(len) < len + 4096
  {
  }

  /** A registration fails exactly when 65535 modules are registered or the alignment is more
      than a page; otherwise it gives the number of the new module. */
  lemma RegisterFailsIff(s: State, c: Call)
    requires Inv(s) && c.Register?
    ensures Step(s, c).reply == Value(if |s.modules| == 65535 || c.align > 4096 then 0 else |s.modules| + 1)
  {
  }

  /** A module as a linker describes it: no more file than memory, and a size that can be
      rounded up. */
  predicate Regular(mod: Module) {
    mod.FileSize <= mod.Size && mod.Size + mod.Align - 1 < 0x1_0000_0000_0000_0000
  }

  /** The template of a module lies below 2^64, and template and zeros are no longer than a
      signed number can say. */
  predicate Addressable(mod: Module) {
    && (mod.FileSize > 0 && mod.InitData != 0 ==>
          mod.FileSize < 0x8000_0000_0000_0000 && mod.InitData + mod.FileSize <= 0x1_0000_0000_0000_0000)
    && mod.Size - mod.FileSize < 0x8000_0000_0000_0000
  }

  lemma AllocationPanicsIff(mod: Module, maps: map<nat, nat>, addr: nat)
    requires mod.Align > 0 && Regular(mod) && MayAnswer(maps, mod.AlignedSize(), Some(addr))
    ensures AllocationPanics(mod, addr) <==> !Addressable(mod)
  {
    RegularFits(mod);
    hide Pages, AlignUp;
    assert HasBss(mod) ==> BssStart(mod, addr) == addr + mod.FileSize;
  }

  lemma NoBlock(s: State, t: nat, m: nat)
    requires Inv(s) && !Known(s, m)
    ensures !Has(s.blocks, t, m)
  {
    assert Has(s.blocks, t, m) ==> BackedAt(s, t, m);
  }

  /** A call with an ID that no module has fails, or panics from 2^63 on. */
  lemma UnknownModule(s: State, c: Call)
    requires Inv(s) && c.GetAddr? && !(0 < c.id <= |s.modules|)
    ensures Step(s, c).reply == if c.id >= 0x8000_0000_0000_0000 then Panic else Value(0)
  {
    NoBlock(s, c.thread, c.id);
    GetAddrIdle(s, c);
  }

  lemma RegisterKeeps(s: State, c: Call)
    requires Inv(s) && c.Register? && Allowed(s, c)
    ensures Inv(Step(s, c).state)
  {
    var t := Step(s, c).state;
    forall u, m | Has(t.blocks, u, m) ensures BackedAt(t, u, m) {
      assert BackedAt(s, u, m);
    }
  }

  lemma MapsGrow(maps: map<nat, nat>, len: nat, a: nat)
    requires MapsApart(maps) && MayAnswer(maps, len, Some(a))
    ensures a !in maps && MapsApart(maps[a := Pages(len)])
  {
    PagesCover(len);
    hide Pages;
  }

  lemma InsertDistinct(blocks: Blocks, t: nat, m: nat, b: Placed)
    requires Distinct(blocks) && !Has(blocks, t, m)
    requires forall u, n | Has(blocks, u, n) :: blocks[u][n].addr != b.addr
    ensures Distinct(blocks[t := Row(blocks, t)[m := b]])
  {
    var after := blocks[t := Row(blocks, t)[m := b]];
    forall u, n | Has(after, u, n) && (u != t || n != m) ensures Has(blocks, u, n) && after[u][n] == blocks[u][n] {
    }
  }

  /** Whether a call allocates a block. */
  predicate Allocates(s: State, c: Call)
    requires c.GetAddr?
  {
    && !Has(s.blocks, c.thread, c.id) && Known(s, c.id) && c.id < 0x8000_0000_0000_0000 && c.answer.Some?
    && !AllocationPanics(s.modules[c.id - 1], c.answer.value)
  }

  /** A call that allocates adds one block and one mapping, both new. */
  lemma GetAddrFresh(s: State, c: Call)
    requires Inv(s) && c.GetAddr? && Allowed(s, c) && Allocates(s, c)
    ensures Sound(s.modules[c.id - 1], c.id)
    ensures var mod := s.modules[c.id - 1];
            var b := Placed(c.answer.value, mod);
            && b.addr !in s.maps && MapsApart(s.maps[b.addr := Pages(mod.AlignedSize())])
            && Step(s, c).state == s.(blocks := s.blocks[c.thread := Row(s.blocks, c.thread)[c.id := b]],
                                   maps := s.maps[b.addr := Pages(mod.AlignedSize())])
  {
    var mod := s.modules[c.id - 1];
    hide Plus, Pages, AlignUp, Apart;
    MapsGrow(s.maps, mod.AlignedSize(), c.answer.value);
  }

  /** Any other call changes neither blocks nor mappings. */
  lemma GetAddrIdle(s: State, c: Call)
    requires Inv(s) && c.GetAddr? && !Allocates(s, c)
    ensures var t := Step(s, c).state;
            && t == s.(blocks := t.blocks)
            && (forall u, n :: Has(t.blocks, u, n) <==> Has(s.blocks, u, n))
            && (forall u, n | Has(t.blocks, u, n) :: t.blocks[u][n] == s.blocks[u][n])
  {
    hide Plus, Inv, AlignUp, Pages;
  }

  lemma BackedFresh(s: State, t: nat, m: nat, b: Placed, len: nat)
    requires Backed(s) && !Has(s.blocks, t, m) && Known(s, m) && b.mod == s.modules[m - 1] && b.mod.Align > 0
    requires 0 < b.addr && b.addr !in s.maps && len == Pages(b.mod.AlignedSize())
    ensures Backed(s.(blocks := s.blocks[t := Row(s.blocks, t)[m := b]], maps := s.maps[b.addr := len]))
    ensures forall u, n | Has(s.blocks, u, n) :: s.blocks[u][n].addr != b.addr
  {
    hide Pages, AlignUp;
    forall u, n | Has(s.blocks, u, n) ensures s.blocks[u][n].addr != b.addr {
      assert BackedAt(s, u, n);
    }
    var after := s.(blocks := s.blocks[t := Row(s.blocks, t)[m := b]], maps := s.maps[b.addr := len]);
    forall u, n | Has(after.blocks, u, n) ensures BackedAt(after, u, n) {
      assert Has(s.blocks, u, n) ==> BackedAt(s, u, n);
    }
  }

  lemma GetAddrKeeps(s: State, c: Call)
    requires Inv(s) && c.GetAddr? && Allowed(s, c)
    ensures Inv(Step(s, c).state)
  {
    if Allocates(s, c) {
      GetAddrFresh(s, c);
      var b := Placed(c.answer.value, s.modules[c.id - 1]);
      hide Step, Pages, AlignUp, MapsApart, Backed, Distinct;
      BackedFresh(s, c.thread, c.id, b, Pages(b.mod.AlignedSize()));
      InsertDistinct(s.blocks, c.thread, c.id, b);
    } else {
      GetAddrIdle(s, c);
      hide Step, Pages, AlignUp, MapsApart;
      var t := Step(s, c).state;
      forall u, n | Has(t.blocks, u, n) ensures BackedAt(t, u, n) {
        assert BackedAt(s, u, n);
      }
    }
  }

  lemma CleanupKeeps(s: State, c: Call)
    requires Inv(s) && c.Cleanup?
    ensures Inv(Step(s, c).state)
  {
    var t := Step(s, c).state;
    forall u, n | Has(t.blocks, u, n) ensures BackedAt(t, u, n) {
      assert Has(s.blocks, u, n) && BackedAt(s, u, n);
      var a := s.blocks[u][n].addr;
      assert a !in Addresses(Row(s.blocks, c.thread));
    }
    forall u, n | Has(t.blocks, u, n) ensures Has(s.blocks, u, n) && t.blocks[u][n] == s.blocks[u][n] {
    }
  }

  lemma StepKeeps(s: State, c: Call)
    requires Inv(s) && Allowed(s, c)
    ensures Inv(Step(s, c).state)
  {
    hide Inv;
    match c
    case Register(_, _, _, _) => RegisterKeeps(s, c);
    case GetAddr(_, _, _, _) => GetAddrKeeps(s, c);
    case Cleanup(_, _) => CleanupKeeps(s, c);
  }

  // ---------------------------------------------------------------- runs

  ghost predicate AllAllowed(s: State, cs: seq<Call>)
    requires Inv(s)
    decreases |cs|
  {
    cs != [] ==> Allowed(s, cs[0]) && Inv(Step(s, cs[0]).state) && AllAllowed(Step(s, cs[0]).state, cs[1..])
  }

  ghost function Run(s: State, cs: seq<Call>): State
    requires Inv(s) && AllAllowed(s, cs)
    decreases |cs|
  {
    if cs == [] then s else Run(Step(s, cs[0]).state, cs[1..])
  }

  /** In every state of every run, module i has ID i + 1 and at most 65535 are registered. */
  lemma {:induction false} RunKeeps(s: State, cs: seq<Call>)
    requires Inv(s) && AllAllowed(s, cs)
    ensures Inv(Run(s, cs))
    decreases |cs|
  {
    if cs != [] {
      RunKeeps(Step(s, cs[0]).state, cs[1..]);
    }
  }

  /** The mappings of blocks of different threads or modules never overlap each other or any
      other mapping of the process; nor, then, do the blocks of modules whose size can be
      rounded up. */
  lemma BlocksNeverOverlap(s: State, t: nat, m: nat)
    requires Inv(s) && Has(s.blocks, t, m)
    ensures var b := s.blocks[t][m];
            && b.addr in s.maps
            && (forall a | a in s.maps && a != b.addr :: Apart(b.addr, s.maps[b.addr], a, s.maps[a]))
            && (forall u, n | Has(s.blocks, u, n) && (t != u || m != n) ::
                  s.blocks[u][n].addr in s.maps && s.blocks[u][n].addr != b.addr)
    ensures var b := s.blocks[t][m];
            Covered(b.mod) ==>
              && (forall a | a in s.maps && a != b.addr :: Apart(b.addr, b.mod.Size, a, s.maps[a]))
              && (forall u, n | Has(s.blocks, u, n) && (t != u || m != n) && Covered(s.blocks[u][n].mod) ::
                    Apart(b.addr, b.mod.Size, s.blocks[u][n].addr, s.blocks[u][n].mod.Size))
  {
    var b := s.blocks[t][m];
    BlockFits(s, t, m);
    hide Covered, Pages, AlignUp;
    forall u, n | Has(s.blocks, u, n) && (t != u || m != n)
      ensures s.blocks[u][n].addr in s.maps
      ensures Covered(b.mod) && Covered(s.blocks[u][n].mod) ==>
                Apart(b.addr, b.mod.Size, s.blocks[u][n].addr, s.blocks[u][n].mod.Size)
    {
      BlockFits(s, u, n);
    }
  }

  predicate Covered(mod: Module) {
    mod.Size + mod.Align - 1 < W64
  }

  lemma BlockFits(s: State, t: nat, m: nat)
    requires Inv(s) && Has(s.blocks, t, m)
    ensures var b := s.blocks[t][m];
            b.addr in s.maps && (Covered(b.mod) ==> b.mod.Size <= s.maps[b.addr])
  {
    var b := s.blocks[t][m];
    assert BackedAt(s, t, m);
    if Covered(b.mod) {
      RegularFits(b.mod.(FileSize := 0));
    }
  }

  lemma StepKeepsBlock(s: State, c: Call, t: nat, m: nat)
    requires Inv(s) && Allowed(s, c) && Has(s.blocks, t, m) && !(c.Cleanup? && c.thread == t)
    ensures Has(Step(s, c).state.blocks, t, m) && Step(s, c).state.blocks[t][m] == s.blocks[t][m]
  {
    if c.GetAddr? {
      if Allocates(s, c) {
        GetAddrFresh(s, c);
      } else {
        GetAddrIdle(s, c);
      }
    }
  }

  /** As long as thread t is not cleaned up, its blocks stay where they are. */
  lemma {:induction false} BlockStays(s: State, cs: seq<Call>, t: nat, m: nat)
    requires Inv(s) && AllAllowed(s, cs) && Has(s.blocks, t, m)
    requires forall c <- cs :: !(c.Cleanup? && c.thread == t)
    ensures Has(Run(s, cs).blocks, t, m) && Run(s, cs).blocks[t][m] == s.blocks[t][m]
    decreases |cs|
  {
    hide Step, Inv, Allowed;
    if cs != [] {
      StepKeepsBlock(s, cs[0], t, m);
      BlockStays(Step(s, cs[0]).state, cs[1..], t, m);
    }
  }

  lemma AddressOfBlock(s: State, c: Call)
    requires Inv(s) && c.GetAddr? && Has(Step(s, c).state.blocks, c.thread, c.id)
    ensures Step(s, c).reply == Value(Plus(Step(s, c).state.blocks[c.thread][c.id].addr, c.offset))
    ensures Has(s.blocks, c.thread, c.id) ==> Step(s, c).state == s
  {
    hide Plus, Inv, Pages, AlignUp;
  }

  /** Repeated calls from one thread for one module agree on the base, whatever happens in
      between, up to the cleanup of that thread; and they allocate nothing. */
  lemma RepeatedCalls(s: State, first: Call, cs: seq<Call>, again: Call)
    requires Inv(s) && first.GetAddr? && again.GetAddr? && Allowed(s, first)
    requires first.thread == again.thread && first.id == again.id
    requires Inv(Step(s, first).state) && Has(Step(s, first).state.blocks, first.thread, first.id)
    requires AllAllowed(Step(s, first).state, cs)
    requires forall c <- cs :: !(c.Cleanup? && c.thread == first.thread)
    ensures var s1 := Step(s, first).state;
            var s2 := Run(s1, cs);
            var base := s1.blocks[first.thread][first.id].addr;
            && Inv(s2) && Step(s2, again).state == s2
            && Step(s, first).reply == Value(Plus(base, first.offset))
            && Step(s2, again).reply == Value(Plus(base, again.offset))
  {
    hide Step, Inv, Run, AllAllowed, Plus;
    var s1 := Step(s, first).state;
    RunKeeps(s1, cs);
    BlockStays(s1, cs, first.thread, first.id);
    AddressOfBlock(s, first);
    AddressStays(Run(s1, cs), again);
  }

  /** The other outcomes of a call: the module is not known or there is no memory, or the
      call panics. */
  lemma AddressFails(s: State, c: Call)
    requires Inv(s) && c.GetAddr? && !Has(s.blocks, c.thread, c.id) && !Allocates(s, c)
    ensures if c.id < 0x8000_0000_0000_0000 && (!Known(s, c.id) || c.answer == None)
            then Step(s, c) == Outcome(s.(blocks := s.blocks[c.thread := Row(s.blocks, c.thread)]), Value(0))
            else Step(s, c) == Outcome(s, Panic)
  {
    hide AllocationPanics;
  }

  lemma AddressFresh(s: State, c: Call)
    requires Inv(s) && c.GetAddr? && Allocates(s, c)
    ensures var b := Placed(c.answer.value, s.modules[c.id - 1]);
            && b.mod.Align > 0
            && Step(s, c) == Outcome(s.(blocks := s.blocks[c.thread := Row(s.blocks, c.thread)[c.id := b]],
                                     maps := s.maps[b.addr := Pages(b.mod.AlignedSize())]),
                                     Value(Plus(b.addr, c.offset)))
  {
  }

  lemma AddressStays(s: State, c: Call)
    requires Inv(s) && c.GetAddr? && Has(s.blocks, c.thread, c.id)
    ensures Step(s, c) == Outcome(s, Value(Plus(s.blocks[c.thread][c.id].addr, c.offset)))
  {
  }

  lemma KnownModule(s: State, c: Call)
    requires Inv(s) && c.GetAddr? && Allowed(s, c) && 0 < c.id <= |s.modules|
    ensures c.id < 0x8000_0000_0000_0000 && s.modules[c.id - 1].Align > 0
    ensures !Has(s.blocks, c.thread, c.id) ==> MayAnswer(s.maps, s.modules[c.id - 1].AlignedSize(), c.answer)
  {
    hide AllocationPanics, Pages, AlignUp, MayAnswer;
    assert Sound(s.modules[c.id - 1], c.id);
  }

  /** For a regular module a call comes to a panic exactly when it has to allocate a block of a
      module that is not addressable; otherwise it answers the base of the block plus the
      offset, or a failure when there is no memory. */
  lemma RegularAnswers(s: State, c: Call)
    requires Inv(s) && Allowed(s, c) && c.GetAddr? && 0 < c.id <= |s.modules| && Regular(s.modules[c.id - 1])
    ensures c.thread in s.blocks && c.id in s.blocks[c.thread] ==>
              Step(s, c).reply == Value((s.blocks[c.thread][c.id].addr + c.offset) % W64)
    ensures !(c.thread in s.blocks && c.id in s.blocks[c.thread]) ==>
              Step(s, c).reply == (if c.answer == None then Value(0)
                                   else if !Addressable(s.modules[c.id - 1]) then Panic
                                   else Value((c.answer.value + c.offset) % W64))
  {
    hide *;
    var mod := s.modules[c.id - 1];
    KnownModule(s, c);
    PlusIs();
    if Has(s.blocks, c.thread, c.id) {
      AddressStays(s, c);
    } else {
      if c.answer.Some? {
        AllocationPanicsIff(mod, s.maps, c.answer.value);
      }
      WhenAllocates(s, c);
      if Allocates(s, c) {
        AddressFresh(s, c);
      } else {
        AddressFails(s, c);
      }
    }
  }

  lemma PlusIs()
    ensures forall a: nat, b: nat :: Plus(a, b) == (a + b) % W64
    ensures forall blocks, t, m :: Has(blocks, t, m) <==> t in blocks && m in blocks[t]
  {
  }

  lemma WhenAllocates(s: State, c: Call)
    requires c.GetAddr? && 0 < c.id <= |s.modules| && c.id < 0x8000_0000_0000_0000 && !Has(s.blocks, c.thread, c.id)
    ensures Known(s, c.id)
    ensures Allocates(s, c) <==> c.answer.Some? && !AllocationPanics(s.modules[c.id - 1], c.answer.value)
  {
  }

  // ---------------------------------------------------------------- nothing is lost

  ghost predicate Blocked(blocks: Blocks, a: nat) {
    exists t, m :: Has(blocks, t, m) && blocks[t][m].addr == a
  }

  /** The mappings that no block owns. */
  ghost function Foreign(s: State): set<nat> {
    set a | a in s.maps && !Blocked(s.blocks, a)
  }

  /** The mappings that a call gives up without unmapping them. */
  ghost function Lost(s: State, c: Call): set<nat> {
    if c.Cleanup? then c.refused * Addresses(Row(s.blocks, c.thread)) else {}
  }

  lemma StepConserves(s: State, c: Call)
    requires Inv(s) && Allowed(s, c)
    ensures Foreign(Step(s, c).state) == Foreign(s) + Lost(s, c)
  {
    var t := Step(s, c).state;
    match c
    case Register(_, _, _, _) =>
    case Cleanup(_, _) =>
      forall a ensures a in Foreign(t) <==> a in Foreign(s) + Lost(s, c) {
        CleanupAt(s, c, a);
      }
    case GetAddr(_, _, _, _) =>
      forall a ensures a in Foreign(t) <==> a in Foreign(s) {
        GetAddrAt(s, c, a);
      }
  }

  /** A mapping that is no block stays as it is. */
  lemma ForeignStays(s: State, c: Call, a: nat)
    requires Inv(s) && Allowed(s, c) && a in Foreign(s)
    ensures var t := Step(s, c).state;
            a in Foreign(t) && a in t.maps && t.maps[a] == s.maps[a]
  {
    StepConserves(s, c);
    if c.GetAddr? {
      if Allocates(s, c) {
        GetAddrFresh(s, c);
      } else {
        GetAddrIdle(s, c);
      }
    }
  }

  lemma GetAddrAt(s: State, c: Call, a: nat)
    requires Inv(s) && c.GetAddr? && Allowed(s, c)
    ensures a in Foreign(Step(s, c).state) <==> a in Foreign(s)
  {
    if Allocates(s, c) {
      GetAddrFresh(s, c);
      hide Step, Inv, Pages, AlignUp, MapsApart;
      AddedBlock(s.blocks, c.thread, c.id, Placed(c.answer.value, s.modules[c.id - 1]), a);
    } else {
      GetAddrIdle(s, c);
      hide Step, Inv;
    }
  }

  lemma AddedBlock(blocks: Blocks, t: nat, m: nat, b: Placed, a: nat)
    requires !Has(blocks, t, m)
    ensures Blocked(blocks[t := Row(blocks, t)[m := b]], a) <==> Blocked(blocks, a) || a == b.addr
  {
    var after := blocks[t := Row(blocks, t)[m := b]];
    assert Has(after, t, m) && after[t][m] == b;
    if u, n :| Has(blocks, u, n) && blocks[u][n].addr == a {
      assert Has(after, u, n) && after[u][n].addr == a;
    }
    if u, n :| Has(after, u, n) && after[u][n].addr == a && a != b.addr {
      assert Has(blocks, u, n) && blocks[u][n].addr == a;
    }
  }

  lemma CleanupAt(s: State, c: Call, a: nat)
    requires Inv(s) && c.Cleanup?
    ensures a in Foreign(Step(s, c).state) <==> a in Foreign(s) + Lost(s, c)
  {
    hide Pages, AlignUp, MapsApart;
    var t := Step(s, c).state;
    var gone := Addresses(Row(s.blocks, c.thread));
    if a in gone {
      var m :| m in Row(s.blocks, c.thread) && Row(s.blocks, c.thread)[m].addr == a;
      assert Has(s.blocks, c.thread, m) && BackedAt(s, c.thread, m);
      assert Blocked(s.blocks, a);
      forall v, k | Has(t.blocks, v, k) ensures t.blocks[v][k].addr != a {
        assert Has(s.blocks, v, k) && v != c.thread;
      }
    } else {
      BlockedElsewhere(s.blocks, c.thread, a);
    }
  }

  lemma BlockedElsewhere(blocks: Blocks, t: nat, a: nat)
    requires a !in Addresses(Row(blocks, t))
    ensures Blocked(blocks - {t}, a) <==> Blocked(blocks, a)
  {
    if u, n :| Has(blocks, u, n) && blocks[u][n].addr == a {
      assert u != t;
      assert Has(blocks - {t}, u, n) && (blocks - {t})[u][n].addr == a;
    }
    if u, n :| Has(blocks - {t}, u, n) && (blocks - {t})[u][n].addr == a {
      assert Has(blocks, u, n);
    }
  }

  ghost function AllLost(s: State, cs: seq<Call>): set<nat>
    requires Inv(s) && AllAllowed(s, cs)
    decreases |cs|
  {
    if cs == [] then {} else Lost(s, cs[0]) + AllLost(Step(s, cs[0]).state, cs[1..])
  }

  /** Over every run, the mappings are those the process had, those of the live blocks and
      those that the kernel refused to unmap; so after every thread has been cleaned up
      without a refusal nothing is left, and no other mapping was ever touched. */
  lemma {:induction false} MappingsConserved(s: State, cs: seq<Call>)
    requires Inv(s) && AllAllowed(s, cs)
    ensures Foreign(Run(s, cs)) == Foreign(s) + AllLost(s, cs)
    decreases |cs|
  {
    if cs != [] {
      StepConserves(s, cs[0]);
      hide Foreign, Lost, Step, Inv;
      MappingsConserved(Step(s, cs[0]).state, cs[1..]);
    }
  }
}
