/** internal/tls as it runs: the module manager, a thread's blocks and the kernel calls that
    make and remove them, each method tied to its operation in TlsModel. */
module Tls {
  import opened Wrappers
  import opened Bits
  import opened Words
  import opened TlsModel

  const MAX_MODULE_ID: nat := 65536
  const MAX_INT: nat := 0x7fff_ffff_ffff_ffff

  /** The bytes of the whole address space. */
  type Memory = m: seq<Byte> | |m| == W64 witness seq(W64, i => 0)

  ghost predicate Zeroed(was: Memory, now: Memory, addr: nat, len: nat) {
    forall a {:trigger now[a]} | 0 <= a < W64 :: now[a] == if addr <= a < addr + len then 0 else was[a]
  }

  ghost predicate Copied(was: Memory, now: Memory, dst: nat, src: nat, n: nat)
    requires src + n <= W64
  {
    forall a {:trigger now[a]} | 0 <= a < W64 :: now[a] == if dst <= a < dst + n then was[src + (a - dst)] else was[a]
  }

  /** The kernel's side: mappings and memory. */
  class Kernel {
    var maps: map<nat, nat>
    var mem: Memory

    constructor (maps: map<nat, nat>, mem: Memory)
      ensures this.maps == maps && this.mem == mem
    {
      this.maps, this.mem := maps, mem;
    }

    /** An anonymous private mapping, which the kernel fills with zeros. */
    method Mmap(len: nat, answer: Option<nat>)
      requires MayAnswer(maps, len, answer)
      modifies this
      ensures answer == None ==> maps == old(maps) && mem == old(mem)
      ensures answer.Some? ==>
                maps == old(maps)[answer.value := Pages(len)] && Zeroed(old(mem), mem, answer.value, Pages(len))
    {
      if answer.Some? {
        var lo, hi := answer.value, answer.value + Pages(len);
        var m := mem;
        maps := maps[lo := Pages(len)];
        mem := seq(W64, a requires 0 <= a < W64 => if lo <= a < hi then 0 else m[a]);
      }
    }

    /** munmap is only ever called on exactly one live mapping. */
    method Munmap(addr: nat, len: nat, refused: set<nat>) returns (ok: bool)
      requires addr in maps && maps[addr] == Pages(len)
      modifies this`maps
      ensures ok <==> addr !in refused
      ensures maps == if ok then old(maps) - {addr} else old(maps)
    {
      ok := addr !in refused;
      if ok {
        maps := maps - {addr};
      }
    }

    /** copy(dst[:n], src[:n]) */
    method Copy(dst: nat, src: nat, n: nat)
      requires src + n <= W64
      modifies this`mem
      ensures Copied(old(mem), mem, dst, src, n)
    {
      var m := mem;
      mem := seq(W64, a requires 0 <= a < W64 => if dst <= a < dst + n then m[src + (a - dst)] else m[a]);
    }

    method Store(addr: nat, b: Byte)
      requires addr < W64
      modifies this`mem
      ensures mem == old(mem)[addr := b]
    {
      mem := mem[addr := b];
    }
  }

  class Block {
    const Module: Module
    var Addr: nat

    constructor (addr: nat, mod: Module)
      ensures Addr == addr && Module == mod
    {
      Addr, Module := addr, mod;
    }

    ghost function Value(): Placed
      reads this
    {
      Placed(Addr, Module)
    }

    method Free(kernel: Kernel, refused: set<nat>) returns (ok: bool)
      requires Module.Align > 0
      requires Addr != 0 ==> Addr in kernel.maps && kernel.maps[Addr] == Pages(Module.AlignedSize())
      modifies this`Addr, kernel`maps
      ensures Addr == 0
      ensures old(Addr) == 0 ==> ok && kernel.maps == old(kernel.maps)
      ensures old(Addr) != 0 ==>
                && (ok <==> old(Addr) !in refused)
                && kernel.maps == if ok then old(kernel.maps) - {old(Addr)} else old(kernel.maps)
    {
      if Addr == 0 {
        return true;
      }
      var alignedSize := AndNot((Module.Size + Module.Align - 1) % W64, Module.Align - 1);
      ok := kernel.Munmap(Addr, alignedSize, refused);
      Addr := 0;
    }
  }

  /** The initialization image lies in a mapping. */
  ghost predicate TemplateIn(maps: map<nat, nat>, owners: set<nat>, mod: Module) {
    HasTemplate(mod) ==>
      exists a <- owners :: a in maps && a <= mod.InitData && mod.InitData + mod.FileSize <= a + maps[a] <= W64
  }

  /** A byte after mmap: zero in the new mapping. */
  function MappedByte(was: Memory, addr: nat, len: nat, a: int): Byte
    requires 0 <= a < W64
  {
    if addr <= a < addr + len then 0 else was[a]
  }

  /** Memory after an allocation has copied the template and zeroed n bytes behind it. */
  ghost predicate Filled(mod: Module, addr: nat, len: nat, was: Memory, now: Memory, n: nat) {
    && (HasTemplate(mod) ==> mod.InitData + mod.FileSize <= W64)
    && forall a {:trigger now[a]} | 0 <= a < W64 ::
         now[a] == if BssStart(mod, addr) <= a < BssStart(mod, addr) + n then 0
         else if InTemplate(mod, addr, a) then MappedByte(was, addr, len, mod.InitData + (a - addr))
         else MappedByte(was, addr, len, a)
  }

  function BssSize(mod: Module): nat {
    if HasBss(mod) then mod.Size - mod.FileSize else 0
  }

  lemma BssStartIs(mod: Module, addr: nat)
    ensures BssStart(mod, addr) == (addr + mod.FileSize) % W64
  {
  }

  lemma TemplateCopied(mod: Module, addr: nat, len: nat, was: Memory, zeroed: Memory, now: Memory)
    requires Zeroed(was, zeroed, addr, len)
    requires HasTemplate(mod) ==> mod.InitData + mod.FileSize <= W64
    requires if HasTemplate(mod) then Copied(zeroed, now, addr, mod.InitData, mod.FileSize) else now == zeroed
    ensures Filled(mod, addr, len, was, now, 0)
  {
  }

  lemma ZeroedMore(mod: Module, addr: nat, len: nat, was: Memory, now: Memory, n: nat)
    requires Filled(mod, addr, len, was, now, n) && BssStart(mod, addr) + n < W64
    ensures Filled(mod, addr, len, was, now[BssStart(mod, addr) + n := 0], n + 1)
  {
  }

  /** What a fresh block holds: the template, then zeros; and nothing else is touched. */
  ghost predicate FreshBlock(mod: Module, addr: nat, len: nat, was: Memory, now: Memory) {
    && (HasTemplate(mod) ==> mod.InitData + mod.FileSize <= W64)
    && forall a {:trigger now[a]} | 0 <= a < W64 ::
         now[a] == if !(addr <= a < addr + len) then was[a]
         else if HasTemplate(mod) && a < addr + mod.FileSize then was[mod.InitData + (a - addr)]
         else 0
  }

  /** An allocation that fits leaves a block with the template and then zeros, and every other
      byte of the process as it was. */
  lemma BlockContents(maps: map<nat, nat>, mod: Module, addr: nat, was: Memory, now: Memory)
    requires mod.Align > 0 && mod.FileSize < W64 && Fits(mod)
    requires MayAnswer(maps, mod.AlignedSize(), Some(addr)) && TemplateIn(maps, maps.Keys, mod)
    requires Filled(mod, addr, Pages(mod.AlignedSize()), was, now, BssSize(mod))
    ensures FreshBlock(mod, addr, Pages(mod.AlignedSize()), was, now)
  {
    hide *;
    var len := Pages(mod.AlignedSize());
    TemplateApart(maps, mod, addr);
    BssFits(mod, addr, len);
    FilledIsFresh(mod, addr, len, was, now);
  }

  lemma TemplateApart(maps: map<nat, nat>, mod: Module, addr: nat)
    requires mod.Align > 0 && MayAnswer(maps, mod.AlignedSize(), Some(addr)) && TemplateIn(maps, maps.Keys, mod)
    ensures addr + Pages(mod.AlignedSize()) <= W64
    ensures HasTemplate(mod) ==> Apart(mod.InitData, mod.FileSize, addr, Pages(mod.AlignedSize()))
  {
    hide Pages, AlignUp;
  }

  /** Where the zeros of a block that fits begin and end. */
  lemma BssFits(mod: Module, addr: nat, len: nat)
    requires mod.Align > 0 && Fits(mod) && len == Pages(mod.AlignedSize()) && addr + len <= W64
    ensures HasTemplate(mod) ==> mod.FileSize <= len
    ensures HasBss(mod) ==> BssStart(mod, addr) == addr + mod.FileSize && mod.FileSize + BssSize(mod) <= len
    ensures !HasBss(mod) ==> BssSize(mod) == 0
  {
    hide Pages, AlignUp;
  }

  lemma FilledIsFresh(mod: Module, addr: nat, len: nat, was: Memory, now: Memory)
    requires addr + len <= W64 && Filled(mod, addr, len, was, now, BssSize(mod))
    requires HasTemplate(mod) ==> mod.FileSize <= len && Apart(mod.InitData, mod.FileSize, addr, len)
    requires HasBss(mod) ==> BssStart(mod, addr) == addr + mod.FileSize && mod.FileSize + BssSize(mod) <= len
    requires !HasBss(mod) ==> BssSize(mod) == 0
    ensures FreshBlock(mod, addr, len, was, now)
  {
    hide BssStart, BssSize, HasTemplate, HasBss;
  }

  /** Where the block of TOO_LONG ends and another mapping begins, the template goes on. */
  lemma OverwritesNeighbour(was: Memory, now: Memory)
    requires Filled(TOO_LONG, 0x10000, PAGE, was, now, BssSize(TOO_LONG))
    ensures now[0x10000 + PAGE] == was[TOO_LONG.InitData + PAGE]
  {
    CopiesBeyond();
  }

  /** The checks of unsafe.Slice, for a length in bytes. */
  method Slice(ptr: nat, len: nat) returns (panicked: bool)
    ensures panicked <==> SlicePanics(ptr, len)
  {
    if len > MAX_INT {
      return true;
    }
    if ptr == 0 {
      return len > 0;
    }
    return len > W64 - ptr;
  }

  method AddOffset(base: nat, offset: nat) returns (addr: nat)
    ensures addr == Plus(base, offset)
  {
    return (base + offset) % W64;
  }

  class Manager {
    var modules: seq<Module>
    var nextID: nat
    const kernel: Kernel

    constructor (kernel: Kernel)
      ensures modules == [] && nextID == 1 && this.kernel == kernel
      ensures MapsApart(kernel.maps) ==> Inv(View(map[]))
    {
      modules, nextID, this.kernel := [], 1, kernel;
      new;
      if MapsApart(kernel.maps) {
        StartInv(kernel.maps);
      }
    }

    ghost function View(blocks: Blocks): State
      reads this, kernel
    {
      State(modules, nextID, blocks, kernel.maps)
    }

    method RegisterModule(size: nat, align: nat, fileSize: nat, initData: nat, ghost blocks: Blocks) returns (mod: Option<Module>)
      requires Inv(View(blocks))
      modifies this
      ensures Outcome(View(blocks), Value(if mod.Some? then mod.value.ID else 0))
           == Step(old(View(blocks)), Register(size, align, fileSize, initData))
      ensures mod.Some? ==> modules == old(modules) + [mod.value]
      ensures Inv(View(blocks))
    {
      StepKeeps(View(blocks), Register(size, align, fileSize, initData));
      hide Inv;
      if nextID >= MAX_MODULE_ID {
        return None;
      }
      var align := if align == 0 then 1 else align;
      if align > 4096 {
        return None;
      }
      mod := Some(Module(nextID, size, align, fileSize, initData));
      modules := modules + [mod.value];
      nextID := nextID + 1;
    }

    /** No block is the error, unless the allocation panics. */
    method AllocateBlock(mod: Option<Module>, answer: Option<nat>) returns (block: Block?, panicked: bool)
      requires mod.Some? ==> mod.value.Align > 0 && MayAnswer(kernel.maps, mod.value.AlignedSize(), answer)
      modifies kernel
      ensures mod == None || answer == None ==>
                block == null && !panicked && kernel.maps == old(kernel.maps) && kernel.mem == old(kernel.mem)
      ensures mod.Some? && answer.Some? ==> (panicked <==> AllocationPanics(mod.value, answer.value))
      ensures mod.Some? && answer.Some? && !panicked ==>
                && block != null && fresh(block) && block.Addr == answer.value && block.Module == mod.value
                && kernel.maps == old(kernel.maps)[block.Addr := Pages(mod.value.AlignedSize())]
                && Filled(mod.value, block.Addr, Pages(mod.value.AlignedSize()), old(kernel.mem), kernel.mem, BssSize(mod.value))
    {
      block, panicked := null, false;
      if mod == None {
        return;
      }
      var mod := mod.value;
      var alignedSize := AndNot((mod.Size + mod.Align - 1) % W64, mod.Align - 1);
      kernel.Mmap(alignedSize, answer);
      if answer == None {
        return;
      }
      var addr := answer.value;
      ghost var len := Pages(mod.AlignedSize());
      ghost var was, zeroed := old(kernel.mem), kernel.mem;
      hide Pages, AlignUp, AndNot, MayAnswer, Filled, Zeroed, Copied, BssStart;
      if mod.FileSize > 0 && mod.InitData != 0 {
        var badSource := Slice(mod.InitData, mod.FileSize);
        var badTarget := Slice(addr, mod.FileSize);
        if badSource || badTarget {
          return null, true;
        }
        kernel.Copy(addr, mod.InitData, mod.FileSize);
      }
      TemplateCopied(mod, addr, len, was, zeroed, kernel.mem);
      if mod.Size > mod.FileSize {
        var bssStart := (addr + mod.FileSize) % W64;
        var bssSize := mod.Size - mod.FileSize;
        BssStartIs(mod, addr);
        var bad := Slice(bssStart, bssSize);
        if bad {
          return null, true;
        }
        for i := 0 to bssSize
          invariant Filled(mod, addr, len, was, kernel.mem, i)
          invariant kernel.maps == old(kernel.maps)[addr := len]
        {
          ZeroedMore(mod, addr, len, was, kernel.mem, i);
          kernel.Store(bssStart + i, 0);
        }
      }
      block := new Block(addr, mod);
    }
  }

  ghost predicate RowIs(row: map<nat, Block>, v: map<nat, Placed>, repr: set<Block>)
    reads repr
  {
    row.Keys == v.Keys && forall m <- row :: row[m] in repr && row[m].Value() == v[m]
  }

  /** The nested map of blocks stands for the value v. */
  ghost predicate BlocksAre(blocks: map<nat, map<nat, Block>>, v: Blocks, repr: set<Block>)
    reads repr
  {
    blocks.Keys == v.Keys && forall t <- blocks :: RowIs(blocks[t], v[t], repr)
  }

  lemma NewBlock(blocks: map<nat, map<nat, Block>>, v: Blocks, repr: set<Block>, t: nat, row: map<nat, Block>, m: nat, b: Block)
    requires BlocksAre(blocks, v, repr) && RowIs(row, Row(v, t), repr)
    ensures BlocksAre(blocks[t := row[m := b]], v[t := Row(v, t)[m := b.Value()]], repr + {b})
  {
    var r := repr + {b};
    assert RowIs(row[m := b], Row(v, t)[m := b.Value()], r);
    forall u | u in blocks && u != t ensures RowIs(blocks[u], v[u], r) {
      assert RowIs(blocks[u], v[u], repr);
    }
  }

  function TheRow(blocks: map<nat, map<nat, Block>>, t: nat): map<nat, Block> {
    if t in blocks then blocks[t] else map[]
  }

  lemma SameRow(blocks: map<nat, map<nat, Block>>, v: Blocks, repr: set<Block>, t: nat, id: nat)
    requires BlocksAre(blocks, v, repr)
    ensures BlocksAre(blocks[t := TheRow(blocks, t)], v[t := Row(v, t)], repr)
    ensures id in TheRow(blocks, t) <==> Has(v, t, id)
    ensures Has(v, t, id) ==> TheRow(blocks, t)[id].Addr == v[t][id].addr && v[t := Row(v, t)] == v
  {
    assert RowIs(TheRow(blocks, t), Row(v, t), repr);
  }

  lemma RowTwice(v: Blocks, t: nat, m: nat, b: Placed)
    ensures var w := v[t := Row(v, t)];
            w[t := Row(w, t)[m := b]] == v[t := Row(v, t)[m := b]]
  {
  }

  /** As long as a template lies in a mapping that is no block, it stays there. */
  lemma {:induction false} TemplateStays(s: State, cs: seq<Call>, mod: Module)
    requires Inv(s) && AllAllowed(s, cs) && TemplateIn(s.maps, Foreign(s), mod)
    ensures var t := Run(s, cs);
            TemplateIn(t.maps, Foreign(t), mod) && TemplateIn(t.maps, t.maps.Keys, mod)
    decreases |cs|
  {
    if cs != [] {
      var t := Step(s, cs[0]).state;
      forall a | a in Foreign(s) ensures a in Foreign(t) && a in t.maps && t.maps[a] == s.maps[a] {
        ForeignStays(s, cs[0], a);
      }
      hide Step, Inv, Allowed, Foreign;
      TemplateStays(t, cs[1..], mod);
    } else {
      assert Foreign(s) <= s.maps.Keys;
    }
  }

  /** The addresses of the blocks of a thread for the modules in `done`. */
  ghost function AddressesOf(row: map<nat, Placed>, done: set<nat>): set<nat> {
    set m | m in done && m in row :: row[m].addr
  }

  /** What a call of GetTLSAddr comes to, case by case. */
  lemma GetAddrFacts(s: State, c: Call)
    requires Inv(s) && c.GetAddr? && Allowed(s, c)
    ensures Inv(Step(s, c).state)
    ensures Has(s.blocks, c.thread, c.id) ==>
              !Allocates(s, c) && Step(s, c) == Outcome(s, Value(Plus(s.blocks[c.thread][c.id].addr, c.offset)))
    ensures !Has(s.blocks, c.thread, c.id) && c.id > MAX_INT ==> !Allocates(s, c) && Step(s, c) == Outcome(s, Panic)
    ensures !Has(s.blocks, c.thread, c.id) && c.id <= MAX_INT && (!(0 < c.id <= |s.modules|) || c.answer == None) ==>
              !Allocates(s, c) && Step(s, c) == Outcome(s.(blocks := s.blocks[c.thread := Row(s.blocks, c.thread)]), Value(0))
    ensures 0 < c.id <= |s.modules| ==> c.id <= MAX_INT && s.modules[c.id - 1].Align > 0
    ensures !Has(s.blocks, c.thread, c.id) && 0 < c.id <= |s.modules| ==>
              MayAnswer(s.maps, s.modules[c.id - 1].AlignedSize(), c.answer)
    ensures !Has(s.blocks, c.thread, c.id) && 0 < c.id <= |s.modules| && c.answer.Some? ==>
              var b := Placed(c.answer.value, s.modules[c.id - 1]);
              if AllocationPanics(b.mod, b.addr) then Step(s, c) == Outcome(s, Panic)
              else
                && Allocates(s, c) && b.addr in Step(s, c).state.maps
                && Step(s, c).state.maps[b.addr] == Pages(b.mod.AlignedSize())
                && Step(s, c) == Outcome(s.(blocks := s.blocks[c.thread := Row(s.blocks, c.thread)[c.id := b]],
                                         maps := s.maps[b.addr := Pages(b.mod.AlignedSize())]),
                                         Value(Plus(b.addr, c.offset)))
  {
    StepKeeps(s, c);
    if 0 < c.id <= |s.modules| {
      KnownModule(s, c);
    }
    hide AllocationPanics, Pages, AlignUp, Plus, MayAnswer, Step, Inv, Allowed;
    if Has(s.blocks, c.thread, c.id) {
      AddressStays(s, c);
    } else if Allocates(s, c) {
      AddressFresh(s, c);
    } else {
      AddressFails(s, c);
    }
  }

  predicate OneToOne(row: map<nat, Block>) {
    forall m, n | m in row && n in row && m != n :: row[m] != row[n]
  }

  /** The blocks still to be freed have their values. */
  ghost predicate Pending(row: map<nat, Block>, v: map<nat, Placed>, todo: set<nat>)
    reads row.Values
  {
    todo <= row.Keys && forall m <- todo :: m in v && row[m].Value() == v[m]
  }

  /** The loop of CleanupThread, in any order. */
  method FreeBlocks(kernel: Kernel, row: map<nat, Block>, refused: set<nat>, ghost s: State, ghost t: nat) returns (failed: bool)
    requires Inv(s) && t in s.blocks && OneToOne(row) && row.Keys == s.blocks[t].Keys
    requires Pending(row, s.blocks[t], row.Keys) && kernel.maps == s.maps
    modifies kernel`maps, row.Values
    ensures kernel.maps == MapsAfter(s, t, refused, row.Keys)
    ensures failed <==> refused * AddressesOf(s.blocks[t], row.Keys) != {}
  {
    hide Inv, MapsAfter, AddressesOf, Pages, AlignUp;
    var todo := row.Keys;
    ghost var done: set<nat> := {};
    NothingFreed(s, t, refused);
    failed := false;
    while todo != {}
      invariant Pending(row, s.blocks[t], todo) && done == row.Keys - todo
      invariant kernel.maps == MapsAfter(s, t, refused, done)
      invariant failed <==> refused * AddressesOf(s.blocks[t], done) != {}
    {
      var m :| m in todo;
      FreeNext(s, t, refused, done, m);
      Meets(refused, AddressesOf(s.blocks[t], done), row[m].Addr);
      var ok := row[m].Free(kernel, refused);
      failed := failed || !ok;
      todo, done := todo - {m}, done + {m};
    }
    assert done == row.Keys;
  }

  lemma Meets(r: set<nat>, xs: set<nat>, a: nat)
    ensures r * (xs + {a}) != {} <==> r * xs != {} || a in r
  {
    if a in r {
      assert a in r * (xs + {a});
    } else {
      assert r * (xs + {a}) == r * xs;
    }
  }

  lemma NothingFreed(s: State, t: nat, refused: set<nat>)
    requires t in s.blocks
    ensures MapsAfter(s, t, refused, {}) == s.maps && AddressesOf(s.blocks[t], {}) == {}
  {
  }

  lemma BlockObjectsApart(blocks: map<nat, map<nat, Block>>, v: Blocks, repr: set<Block>, t: nat)
    requires BlocksAre(blocks, v, repr) && Distinct(v)
    ensures t in blocks ==> BlocksAre(blocks - {t}, v - {t}, repr - blocks[t].Values)
    ensures t in v <==> t in blocks
    ensures t in v ==> Pending(blocks[t], v[t], blocks[t].Keys) && blocks[t].Keys == v[t].Keys
    ensures t in v ==> blocks[t].Values <= repr && OneToOne(blocks[t])
  {
    var row := TheRow(blocks, t);
    forall u, n, m | u in blocks && n in blocks[u] && m in row && (u != t || n != m) ensures blocks[u][n] != row[m] {
      assert RowIs(blocks[u], v[u], repr) && RowIs(row, v[t], repr);
      assert Has(v, u, n) && Has(v, t, m);
    }
    var rest := repr - row.Values;
    forall u | u in blocks && u != t ensures RowIs(blocks[u], v[u], rest) {
      assert RowIs(blocks[u], v[u], repr);
    }
  }

  /** The mappings after munmap of the blocks in `done`. */
  ghost function MapsAfter(s: State, t: nat, refused: set<nat>, done: set<nat>): map<nat, nat> {
    s.maps - (AddressesOf(Row(s.blocks, t), done) - refused)
  }

  lemma CleanupIs(s: State, c: Call)
    requires Inv(s) && c.Cleanup?
    ensures c.thread in s.blocks ==>
              && Step(s, c).state == s.(blocks := s.blocks - {c.thread},
                                     maps := MapsAfter(s, c.thread, c.refused, s.blocks[c.thread].Keys))
              && Lost(s, c) == c.refused * AddressesOf(s.blocks[c.thread], s.blocks[c.thread].Keys)
    ensures c.thread !in s.blocks ==> Step(s, c).state == s && Lost(s, c) == {}
  {
    if c.thread in s.blocks {
      assert AddressesOf(s.blocks[c.thread], s.blocks[c.thread].Keys) == Addresses(s.blocks[c.thread]);
    } else {
      assert Addresses(map[]) == {};
      assert s.maps - ({} - c.refused) == s.maps && s.blocks - {c.thread} == s.blocks;
    }
  }

  lemma DistinctOf(s: State)
    requires Inv(s)
    ensures Distinct(s.blocks)
  {
  }

  lemma CleanupFacts(s: State, c: Call)
    requires Inv(s) && c.Cleanup?
    ensures Inv(Step(s, c).state)
    ensures c.thread in s.blocks ==>
              && Step(s, c).state == s.(blocks := s.blocks - {c.thread},
                                     maps := MapsAfter(s, c.thread, c.refused, s.blocks[c.thread].Keys))
              && Lost(s, c) == c.refused * AddressesOf(s.blocks[c.thread], s.blocks[c.thread].Keys)
    ensures c.thread !in s.blocks ==> Step(s, c).state == s && Lost(s, c) == {}
  {
    StepKeeps(s, c);
    CleanupIs(s, c);
  }

  lemma FreeNext(s: State, t: nat, refused: set<nat>, done: set<nat>, m: nat)
    requires Inv(s) && Has(s.blocks, t, m) && m !in done && done <= s.blocks[t].Keys
    ensures var b := s.blocks[t][m];
            var maps := MapsAfter(s, t, refused, done);
            && b.addr != 0 && b.mod.Align > 0 && b.addr in maps && maps[b.addr] == Pages(b.mod.AlignedSize())
            && MapsAfter(s, t, refused, done + {m}) == (if b.addr in refused then maps else maps - {b.addr})
            && AddressesOf(s.blocks[t], done + {m}) == AddressesOf(s.blocks[t], done) + {b.addr}
  {
    var b := s.blocks[t][m];
    assert BackedAt(s, t, m);
    hide Pages, AlignUp, MapsApart, Numbered;
    forall n | n in done ensures s.blocks[t][n].addr != b.addr {
      assert Has(s.blocks, t, n);
    }
    assert AddressesOf(s.blocks[t], done + {m}) == AddressesOf(s.blocks[t], done) + {b.addr};
  }

  /** The DTVs of all threads. */
  class ThreadLocalRegistry {
    const mgr: Manager
    var blocks: map<nat, map<nat, Block>>
    ghost var repr: set<Block>
    ghost var view: Blocks

    constructor (mgr: Manager)
      requires Inv(mgr.View(map[]))
      ensures this.mgr == mgr && blocks == map[] && repr == {} && view == map[] && Valid()
    {
      this.mgr, blocks, repr, view := mgr, map[], {}, map[];
    }

    ghost function View(): State
      reads this, mgr, mgr.kernel
    {
      mgr.View(view)
    }

    ghost predicate Valid()
      reads this, mgr, mgr.kernel, repr
    {
      BlocksAre(blocks, view, repr) && Inv(View())
    }

    lemma Opened()
      requires Valid()
      ensures BlocksAre(blocks, view, repr) && Inv(View())
      ensures View() == State(mgr.modules, mgr.nextID, view, mgr.kernel.maps)
    {
    }

    lemma Closed(t: State)
      requires BlocksAre(blocks, view, repr) && Inv(t)
      requires t == State(mgr.modules, mgr.nextID, view, mgr.kernel.maps)
      ensures Valid() && View() == t
    {
    }

    /** The thread's block map, made if it is missing. */
    method ThreadBlocks(thread: nat, ghost id: nat) returns (row: map<nat, Block>)
      requires BlocksAre(blocks, view, repr)
      modifies this`blocks, this`view
      ensures BlocksAre(blocks, view, repr) && thread in blocks && blocks[thread] == row
      ensures view == old(view)[thread := Row(old(view), thread)]
      ensures Has(old(view), thread, id) <==> id in row
      ensures id in row ==> view == old(view) && row[id].Addr == view[thread][id].addr
    {
      SameRow(blocks, view, repr, thread, id);
      row := if thread in blocks then blocks[thread] else map[];
      blocks, view := blocks[thread := row], view[thread := Row(view, thread)];
    }

    /** threadBlocks[id] = block */
    method AddBlock(thread: nat, id: nat, block: Block)
      requires BlocksAre(blocks, view, repr) && thread in blocks
      modifies this`blocks, this`view, this`repr
      ensures BlocksAre(blocks, view, repr) && repr == old(repr) + {block}
      ensures view == old(view)[thread := Row(old(view), thread)[id := Placed(block.Addr, block.Module)]]
    {
      NewBlock(blocks, view, repr, thread, blocks[thread], id, block);
      var row: map<nat, Block> := blocks[thread][id := block];
      blocks, repr := blocks[thread := row], repr + {block};
      view := view[thread := Row(view, thread)[id := block.Value()]];
    }

    /** Allocates a block and files it in the thread's map, which is there. */
    method MakeBlock(thread: nat, id: nat, mod: Module, answer: Option<nat>) returns (block: Block?, panicked: bool)
      requires BlocksAre(blocks, view, repr) && thread in blocks
      requires mod.Align > 0 && MayAnswer(mgr.kernel.maps, mod.AlignedSize(), answer)
      modifies this, mgr.kernel
      ensures mgr.modules == old(mgr.modules) && mgr.nextID == old(mgr.nextID)
      ensures answer == None ==>
                && block == null && !panicked && BlocksAre(blocks, view, repr) && view == old(view) && repr == old(repr)
                && mgr.kernel.maps == old(mgr.kernel.maps) && mgr.kernel.mem == old(mgr.kernel.mem)
      ensures answer.Some? ==> (panicked <==> AllocationPanics(mod, answer.value))
      ensures answer.Some? && !panicked ==>
                && block != null && block.Addr == answer.value && block.Module == mod
                && BlocksAre(blocks, view, repr) && fresh(repr - old(repr))
                && view == old(view)[thread := Row(old(view), thread)[id := Placed(answer.value, mod)]]
                && mgr.kernel.maps == old(mgr.kernel.maps)[answer.value := Pages(mod.AlignedSize())]
                && Filled(mod, answer.value, Pages(mod.AlignedSize()), old(mgr.kernel.mem), mgr.kernel.mem, BssSize(mod))
    {
      hide *;
      block, panicked := mgr.AllocateBlock(Some(mod), answer);
      if panicked || block == null {
        return;
      }
      AddBlock(thread, id, block);
    }

    /** A panic ends the process, so nothing is promised of the state after it. */
    method GetTLSAddr(thread: nat, id: nat, offset: nat, answer: Option<nat>) returns (reply: Reply)
      requires Valid() && Allowed(View(), GetAddr(thread, id, offset, answer))
      modifies this, mgr.kernel
      ensures reply == Step(old(View()), GetAddr(thread, id, offset, answer)).reply
      ensures reply.Value? ==> Valid() && fresh(repr - old(repr))
      ensures reply.Value? ==> View() == Step(old(View()), GetAddr(thread, id, offset, answer)).state
      ensures reply.Value? ==>
                if Allocates(old(View()), GetAddr(thread, id, offset, answer))
                then var mod := mgr.modules[id - 1];
                     Filled(mod, answer.value, View().maps[answer.value], old(mgr.kernel.mem), mgr.kernel.mem, BssSize(mod))
                else mgr.kernel.mem == old(mgr.kernel.mem)
    {
      hide *;
      ghost var s, c := View(), GetAddr(thread, id, offset, answer);
      Opened();
      GetAddrFacts(s, c);
      var threadBlocks := ThreadBlocks(thread, id);
      if id in threadBlocks {
        Closed(s);
        var addr := AddOffset(threadBlocks[id].Addr, offset);
        return Value(addr);
      }
      if id > MAX_INT {
        return Panic;
      }
      var mod := if 0 < id <= |mgr.modules| then Some(mgr.modules[id - 1]) else None;
      if mod == None {
        Closed(Step(s, c).state);
        return Value(0);
      }
      var block, panicked := MakeBlock(thread, id, mod.value, answer);
      if panicked {
        return Panic;
      }
      if block == null {
        Closed(Step(s, c).state);
        return Value(0);
      }
      RowTwice(s.blocks, thread, id, Placed(block.Addr, block.Module));
      Closed(Step(s, c).state);
      var addr := AddOffset(block.Addr, offset);
      return Value(addr);
    }

    /** `refused` are the addresses at which the kernel fails to unmap. */
    method CleanupThread(thread: nat, refused: set<nat>) returns (failed: bool)
      requires Valid()
      modifies this, mgr.kernel`maps, repr
      ensures Valid() && repr <= old(repr)
      ensures View() == Step(old(View()), Cleanup(thread, refused)).state
      ensures failed <==> Lost(old(View()), Cleanup(thread, refused)) != {}
    {
      hide *;
      ghost var s, c := View(), Cleanup(thread, refused);
      Opened();
      CleanupFacts(s, c);
      DistinctOf(s);
      BlockObjectsApart(blocks, view, repr, thread);
      if thread !in blocks {
        return false;
      }
      failed := FreeBlocks(mgr.kernel, blocks[thread], refused, s, thread);
      blocks, view, repr := blocks - {thread}, view - {thread}, repr - blocks[thread].Values;
      Closed(Step(s, c).state);
    }
  }
}
