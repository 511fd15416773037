/** The relocation loops of loader/loader.go over one loaded image, for the relocation types
    of section 4.4.1 of the System V AMD64 ABI that have a formula over base, addend, symbol
    value and place.  BaseVAddr is 0, so r_offset is an offset into the image. */
module Relocation {
  import opened Wrappers
  import opened Bits
  import opened Words

  type Name = string

  datatype Rela = Rela(offset: nat, info: nat, addend: int)
  {
    predicate Wide() {
      offset < W64 && info < W64 && -0x8000_0000_0000_0000 <= addend < 0x8000_0000_0000_0000
    }

    /** The relocation type is the low half of r_info, the symbol index the high half. */
    function Type(): nat { info % 0x1_0000_0000 }

    function SymIdx(): nat { info / 0x1_0000_0000 }

    method RelaType() returns (t: nat)
      ensures t == Type()
    {
      Pow32();
      AndMask(info, 32);
      return And(info, 0xffff_ffff);
    }

    method RelaSymIdx() returns (i: nat)
      ensures i == SymIdx()
    {
      Pow32();
      ShrIs(info, 32);
      return Shr(info, 32);
    }
  }

  /** What a relocation sees of its object: the load base, the size of the image, the names
      and bindings of the symbol table, st_value of the exported symbols, and the addresses
      that the resolver finds in other libraries. */
  datatype Context = Context(base: nat, memSize: nat, names: seq<Name>, binds: seq<nat>,
                             defs: map<Name, nat>, external: map<Name, nat>)
  {
    /** The name of a symbol; index 0 and what is no index have none. */
    function SymName(idx: nat): Name {
      if 0 < idx < |names| then names[idx] else ""
    }

    predicate IsWeak(idx: nat) {
      0 < idx < |binds| && binds[idx] == 2
    }

    /** The value of a symbol; none is the "undefined symbol" error. */
    function Resolve(idx: nat): Option<nat> {
      if idx == 0 || SymName(idx) == "" then Some(0)
      else if SymName(idx) in defs then Some((base + defs[SymName(idx)]) % W64)
      else if SymName(idx) in external then Some(external[SymName(idx)])
      else if IsWeak(idx) then Some(0)
      else None
    }
  }

  const R_NONE := 0
  const R_64 := 1
  const R_PC32 := 2
  const R_PLT32 := 4
  const R_GLOB_DAT := 6
  const R_JUMP_SLOT := 7
  const R_RELATIVE := 8
  const R_32 := 10
  const R_32S := 11

  const STB_WEAK := 2

  /** Handled by the loader, but not part of this model: COPY, the TLS types, IRELATIVE. */
  predicate Foreign(t: nat) {
    t == 5 || 16 <= t <= 23 || t == 37
  }

  /** What one entry does: nothing, a store of `width` bytes, or an error. */
  datatype Effect = Nothing | Store(width: nat, value: nat) | Error

  /** What the ABI has for one entry, by the numbers of its table of types; S, A, B and P are
      its letters. */
  function EffectOf(c: Context, r: Rela): (e: Effect)
    ensures e.Store? ==> r.offset < c.memSize && ((e.width == 8 && e.value < W64) || (e.width == 4 && e.value < W32))
  {
    var A, B, P := r.addend, c.base, c.base + r.offset;
    var t := r.Type();
    if r.offset >= c.memSize then Error
    else if t == 0 then Nothing
    else if t == 8 then Store(8, (B + A) % W64)
    else if t !in {1, 2, 4, 6, 7, 10, 11} then Error
    else match c.Resolve(r.SymIdx())
         case None => Error
         case Some(S) =>
           if t == 1 then Store(8, (S + A) % W64)
           else if t == 6 || t == 7 then Store(8, S % W64)
           else if t == 10 || t == 11 then Store(4, (S + A) % W32)
           else Store(4, (S + A - P) % W32)
  }

  // ---------------------------------------------------------------- little-endian words

  function Patch(b: seq<Byte>, off: nat, s: seq<Byte>): (t: seq<Byte>)
    requires off + |s| <= |b|
    ensures |t| == |b|
  {
    b[..off] + s + b[off + |s|..]
  }

  // ---------------------------------------------------------------- a table

  /** b is the image and at least eight bytes of the memory behind it: the check of an offset
      looks at the first byte of the target only. */
  predicate Room(c: Context, b: seq<Byte>) {
    |b| >= c.memSize + 8
  }

  datatype Applied = Applied(bytes: seq<Byte>, ok: bool)

  function ApplyOne(c: Context, b: seq<Byte>, r: Rela): (t: seq<Byte>)
    requires Room(c, b)
    ensures |t| == |b|
  {
    match EffectOf(c, r)
    case Store(width, value) => Patch(b, r.offset, LittleEndian(value, width))
    case _ => b
  }

  /** Entries are applied in order up to the first that fails. */
  function Apply(c: Context, b: seq<Byte>, rels: seq<Rela>): (t: Applied)
    requires Room(c, b)
    ensures |t.bytes| == |b|
    decreases |rels|
  {
    if rels == [] then Applied(b, true)
    else if EffectOf(c, rels[0]).Error? then Applied(b, false)
    else Apply(c, ApplyOne(c, b, rels[0]), rels[1..])
  }

  /** t is b with s stored at off. */
  ghost predicate IsStored(b: seq<Byte>, off: nat, s: seq<Byte>, t: seq<Byte>) {
    && |t| == |b| && off + |s| <= |b|
    && (forall k :: 0 <= k < |s| ==> t[off + k] == s[k])
    && (forall a :: 0 <= a < |b| && !(off <= a < off + |s|) ==> t[a] == b[a])
  }

  lemma StoredNone(b: seq<Byte>, off: nat, s: seq<Byte>)
    requires off <= |b|
    ensures IsStored(b, off, s[..0], b)
  {
  }

  lemma StoredNext(b: seq<Byte>, off: nat, s: seq<Byte>, i: nat, t: seq<Byte>)
    requires i < |s| && off + |s| <= |b| && IsStored(b, off, s[..i], t)
    ensures IsStored(b, off, s[..i + 1], t[off + i := s[i]])
  {
  }

  lemma PatchIs(b: seq<Byte>, off: nat, s: seq<Byte>, t: seq<Byte>)
    requires IsStored(b, off, s, t)
    ensures t == Patch(b, off, s)
  {
    var p := Patch(b, off, s);
    forall a | 0 <= a < |b| ensures t[a] == p[a] {
      if off <= a < off + |s| {
        assert t[off + (a - off)] == s[a - off];
      }
    }
  }

  lemma NextByte(le: seq<Byte>, v: nat, i: nat)
    requires i < |le| && le == le[..i] + LittleEndian(v, |le| - i)
    ensures le[i] == v % 256 && le == le[..i + 1] + LittleEndian(v / 256, |le| - (i + 1))
  {
    var rest := LittleEndian(v, |le| - i);
    assert rest == [v % 256] + LittleEndian(v / 256, |le| - i - 1);
    assert le[..i + 1] == le[..i] + [le[i]];
  }

  class LoadedImage {
    const ctx: Context
    const bytes: array<Byte>

    constructor (ctx: Context, bytes: array<Byte>)
      ensures this.ctx == ctx && this.bytes == bytes
    {
      this.ctx, this.bytes := ctx, bytes;
    }

    /** A store of the low `width` bytes of `value` at `off`. */
    method StoreWord(off: nat, width: nat, value: nat)
      requires off + width <= bytes.Length
      modifies bytes
      ensures bytes[..] == Patch(old(bytes[..]), off, LittleEndian(value, width))
    {
      hide LittleEndian, Patch, IsStored;
      var v := value;
      ghost var le := LittleEndian(value, width);
      StoredNone(bytes[..], off, le);
      for i := 0 to width
        invariant le == le[..i] + LittleEndian(v, width - i)
        invariant IsStored(old(bytes[..]), off, le[..i], bytes[..])
      {
        NextByte(le, v, i);
        StoredNext(old(bytes[..]), off, le, i, bytes[..]);
        bytes[off + i] := v % 256;
        v := v / 256;
      }
      assert le[..width] == le;
      PatchIs(old(bytes[..]), off, le, bytes[..]);
    }

    /** Memory holds no symbol behind the end of the table and none at index 0. */
    method SymName(idx: nat) returns (name: Name)
      ensures name == ctx.SymName(idx)
    {
      if idx == 0 || idx >= |ctx.names| {
        return "";
      }
      return ctx.names[idx];
    }

    method IsWeakSymbol(idx: nat) returns (weak: bool)
      ensures weak == ctx.IsWeak(idx)
    {
      if idx == 0 || idx >= |ctx.binds| {
        return false;
      }
      return ctx.binds[idx] == STB_WEAK;
    }

    method TryLocalSymbolLookup(name: Name) returns (addr: Option<nat>)
      ensures addr == if name in ctx.defs then Some((ctx.base + ctx.defs[name]) % W64) else None
    {
      if name in ctx.defs {
        return Some((ctx.base + ctx.defs[name]) % W64);
      }
      return None;
    }

    method TryExternalResolve(name: Name) returns (addr: Option<nat>)
      ensures addr == if name in ctx.external then Some(ctx.external[name]) else None
    {
      if name in ctx.external {
        return Some(ctx.external[name]);
      }
      return None;
    }

    /** The object's own symbols come first, then those of other libraries; a weak symbol that
        nobody defines is 0, any other an error. */
    method ResolveSymForReloc(idx: nat) returns (S: Option<nat>)
      ensures S == ctx.Resolve(idx)
    {
      if idx == 0 {
        return Some(0);
      }
      var name := SymName(idx);
      if name == "" {
        return Some(0);
      }
      S := TryLocalSymbolLookup(name);
      if S.Some? {
        return;
      }
      S := TryExternalResolve(name);
      if S.Some? {
        return;
      }
      var weak := IsWeakSymbol(idx);
      S := if weak then Some(0) else None;
    }

    method ApplyRelocation(r: Rela) returns (ok: bool)
      requires r.Wide() && Room(ctx, bytes[..]) && !Foreign(r.Type())
      modifies bytes
      ensures ok <==> !EffectOf(ctx, r).Error?
      ensures bytes[..] == ApplyOne(ctx, old(bytes[..]), r)
    {
      hide LittleEndian, Patch;
      if r.offset >= ctx.memSize {
        return false;
      }
      var t := r.RelaType();
      if t == R_NONE {
        return true;
      }
      if t == R_RELATIVE {
        StoreWord(r.offset, 8, (ctx.base + r.addend) % W64);
        return true;
      }
      if t !in {R_64, R_GLOB_DAT, R_JUMP_SLOT, R_32, R_32S, R_PC32, R_PLT32} {
        return false;
      }
      var idx := r.RelaSymIdx();
      var S := ResolveSymForReloc(idx);
      if S == None {
        return false;
      }
      ApplyHandler(t, r, S.value);
      return true;
    }

    /** The handlers of the types that have a symbol: apply64, applySymbolAddress, apply32,
        applyPC32. */
    method ApplyHandler(t: nat, r: Rela, S: nat)
      requires Room(ctx, bytes[..]) && r.offset < ctx.memSize && t == r.Type()
      requires t in {R_64, R_GLOB_DAT, R_JUMP_SLOT, R_32, R_32S, R_PC32, R_PLT32} && ctx.Resolve(r.SymIdx()) == Some(S)
      modifies bytes
      ensures EffectOf(ctx, r).Store? && bytes[..] == ApplyOne(ctx, old(bytes[..]), r)
    {
      hide LittleEndian, Patch;
      if t == R_64 {
        StoreWord(r.offset, 8, (S + r.addend) % W64);
      } else if t == R_GLOB_DAT || t == R_JUMP_SLOT {
        StoreWord(r.offset, 8, S % W64);
      } else if t == R_32 || t == R_32S {
        StoreWord(r.offset, 4, (S + r.addend) % W32);
      } else {
        StoreWord(r.offset, 4, (S + r.addend - (ctx.base + r.offset)) % W32);
      }
    }

    /** applyRelaTable; `rels` is what stands at `tableAddr`, which no target word touches. */
    method ApplyRelaTable(tableAddr: nat, tableSize: nat, rels: seq<Rela>) returns (ok: bool)
      requires Room(ctx, bytes[..]) && |rels| == tableSize / 24 && (tableAddr == 0 ==> rels == [])
      requires forall r <- rels :: r.Wide() && !Foreign(r.Type())
      modifies bytes
      ensures !Sized(tableAddr, tableSize) ==> !ok && bytes[..] == old(bytes[..])
      ensures Sized(tableAddr, tableSize) ==>
                Applied(bytes[..], ok) == Apply(ctx, old(bytes[..]), rels)
    {
      if tableAddr == 0 || tableSize == 0 {
        return true;
      }
      if tableSize % 24 != 0 {
        return false;
      }
      var n := tableSize / 24;
      ghost var end := Apply(ctx, bytes[..], rels);
      for i := 0 to n
        invariant Apply(ctx, bytes[..], rels[i..]) == end
      {
        assert rels[i..][0] == rels[i] && rels[i..][1..] == rels[i + 1..];
        ok := ApplyRelocation(rels[i]);
        if !ok {
          return;
        }
      }
      ok := true;
    }

    /** processRelocations: DT_RELA, then DT_JMPREL; what is wrong with the size of the second
        table shows only after the first. */
    method ProcessRelocations(relaAddr: nat, relaSize: nat, rela: seq<Rela>, jmpAddr: nat, jmpSize: nat, jmp: seq<Rela>)
      returns (ok: bool)
      requires Room(ctx, bytes[..])
      requires |rela| == relaSize / 24 && (relaAddr == 0 ==> rela == [])
      requires |jmp| == jmpSize / 24 && (jmpAddr == 0 ==> jmp == [])
      requires forall r <- rela + jmp :: r.Wide() && !Foreign(r.Type())
      modifies bytes
      ensures Sized(relaAddr, relaSize) && Sized(jmpAddr, jmpSize) ==>
                Applied(bytes[..], ok) == Apply(ctx, old(bytes[..]), rela + jmp)
      ensures Sized(relaAddr, relaSize) && !Sized(jmpAddr, jmpSize) ==>
                !ok && bytes[..] == Apply(ctx, old(bytes[..]), rela).bytes
      ensures !Sized(relaAddr, relaSize) ==> !ok && bytes[..] == old(bytes[..])
    {
      assert forall r <- rela :: r in rela + jmp;
      assert forall r <- jmp :: r in rela + jmp;
      ApplyConcat(ctx, bytes[..], rela, jmp);
      ok := ApplyRelaTable(relaAddr, relaSize, rela);
      if !ok {
        return;
      }
      ok := ApplyRelaTable(jmpAddr, jmpSize, jmp);
    }
  }

  /** There is no table, or its size is a multiple of the size of an entry. */
  predicate Sized(tableAddr: nat, tableSize: nat) {
    tableAddr == 0 || tableSize % 24 == 0
  }

  lemma {:induction false} ApplyConcat(c: Context, b: seq<Byte>, xs: seq<Rela>, ys: seq<Rela>)
    requires Room(c, b)
    ensures Apply(c, b, xs + ys) ==
            if Apply(c, b, xs).ok then Apply(c, Apply(c, b, xs).bytes, ys) else Apply(c, b, xs)
    decreases |xs|
  {
    if xs == [] {
      assert xs + ys == ys;
    } else {
      assert (xs + ys)[1..] == xs[1..] + ys;
      assert xs[0] in xs;
      if !EffectOf(c, xs[0]).Error? {
        ApplyConcat(c, ApplyOne(c, b, xs[0]), xs[1..], ys);
      }
    }
  }

  // ---------------------------------------------------------------- what a table means

  /** The bytes an entry writes. */
  ghost predicate Covers(c: Context, r: Rela, a: int) {
    EffectOf(c, r).Store? && r.offset <= a < r.offset + EffectOf(c, r).width
  }

  ghost predicate DisjointTargets(c: Context, rels: seq<Rela>) {
    forall i, j, a | 0 <= i < j < |rels| :: !(Covers(c, rels[i], a) && Covers(c, rels[j], a))
  }

  ghost predicate NoErrors(c: Context, rels: seq<Rela>) {
    forall r <- rels :: !EffectOf(c, r).Error?
  }

  /** The byte that entry r puts at address a. */
  ghost function ByteOf(c: Context, r: Rela, a: int): Byte
    requires Covers(c, r, a)
  {
    LittleEndian(EffectOf(c, r).value, EffectOf(c, r).width)[a - r.offset]
  }

  lemma ApplyOneAt(c: Context, b: seq<Byte>, r: Rela, a: nat)
    requires Room(c, b) && a < |b|
    ensures ApplyOne(c, b, r)[a] == if Covers(c, r, a) then ByteOf(c, r, a) else b[a]
  {
  }

  lemma {:induction false} ApplyOk(c: Context, b: seq<Byte>, rels: seq<Rela>)
    requires Room(c, b)
    ensures Apply(c, b, rels).ok <==> NoErrors(c, rels)
    decreases |rels|
  {
    if rels != [] && !EffectOf(c, rels[0]).Error? {
      ApplyOk(c, ApplyOne(c, b, rels[0]), rels[1..]);
      assert forall r <- rels :: r == rels[0] || r in rels[1..];
    }
  }

  lemma DisjointTail(c: Context, rels: seq<Rela>)
    requires DisjointTargets(c, rels) && rels != []
    ensures DisjointTargets(c, rels[1..])
    ensures forall i, a :: 0 <= i < |rels| - 1 ==> !(Covers(c, rels[0], a) && Covers(c, rels[1..][i], a))
  {
    forall i, j, a | 0 <= i < j < |rels[1..]| ensures !(Covers(c, rels[1..][i], a) && Covers(c, rels[1..][j], a)) {
      assert rels[1..][i] == rels[i + 1] && rels[1..][j] == rels[j + 1];
    }
  }

  /** An address no entry covers keeps its byte. */
  lemma {:induction false} Untouched(c: Context, b: seq<Byte>, rels: seq<Rela>, a: nat)
    requires Room(c, b) && a < |b|
    requires forall r <- rels :: !Covers(c, r, a)
    ensures Apply(c, b, rels).bytes[a] == b[a]
    decreases |rels|
  {
    if rels != [] && !EffectOf(c, rels[0]).Error? {
      ApplyOneAt(c, b, rels[0], a);
      Untouched(c, ApplyOne(c, b, rels[0]), rels[1..], a);
    }
  }

  /** An address that entry k covers holds entry k's byte. */
  lemma {:induction false} Touched(c: Context, b: seq<Byte>, rels: seq<Rela>, k: nat, a: nat)
    requires Room(c, b) && NoErrors(c, rels) && DisjointTargets(c, rels)
    requires k < |rels| && a < |b| && Covers(c, rels[k], a)
    ensures Apply(c, b, rels).bytes[a] == ByteOf(c, rels[k], a)
    decreases |rels|
  {
    var b1 := ApplyOne(c, b, rels[0]);
    ApplyOneAt(c, b, rels[0], a);
    if k == 0 {
      forall r | r in rels[1..] ensures !Covers(c, r, a) {
        var i :| 0 <= i < |rels[1..]| && rels[1..][i] == r;
        assert rels[i + 1] == r;
      }
      Untouched(c, b1, rels[1..], a);
    } else {
      DisjointTail(c, rels);
      Touched(c, b1, rels[1..], k - 1, a);
    }
  }

  /** The word at the target of entry r, after relocation. */
  function WordAt(b: seq<Byte>, off: nat, width: nat): nat
    requires off + width <= |b|
  {
    Word(b[off..off + width])
  }

  /** The meaning of a table whose target words are disjoint: every target holds its ABI
      formula and every other byte is as before. */
  lemma TableMeaning(c: Context, b: seq<Byte>, rels: seq<Rela>)
    requires Room(c, b) && NoErrors(c, rels) && DisjointTargets(c, rels)
    ensures Apply(c, b, rels).ok
    ensures forall r <- rels :: EffectOf(c, r).Store? ==>
                                  WordAt(Apply(c, b, rels).bytes, r.offset, EffectOf(c, r).width) == EffectOf(c, r).value
    ensures forall a :: 0 <= a < |b| && (forall r <- rels :: !Covers(c, r, a)) ==> Apply(c, b, rels).bytes[a] == b[a]
  {
    ApplyOk(c, b, rels);
    var t := Apply(c, b, rels).bytes;
    forall r | r in rels && EffectOf(c, r).Store?
      ensures WordAt(t, r.offset, EffectOf(c, r).width) == EffectOf(c, r).value
    {
      var k :| 0 <= k < |rels| && rels[k] == r;
      TargetWord(c, b, rels, k);
    }
    forall a | 0 <= a < |b| && (forall r <- rels :: !Covers(c, r, a)) ensures t[a] == b[a] {
      Untouched(c, b, rels, a);
    }
  }

  lemma TargetWord(c: Context, b: seq<Byte>, rels: seq<Rela>, k: nat)
    requires Room(c, b) && NoErrors(c, rels) && DisjointTargets(c, rels)
    requires k < |rels| && EffectOf(c, rels[k]).Store?
    ensures rels[k].offset + EffectOf(c, rels[k]).width <= |b|
    ensures WordAt(Apply(c, b, rels).bytes, rels[k].offset, EffectOf(c, rels[k]).width) == EffectOf(c, rels[k]).value
  {
    hide EffectOf, Apply, LittleEndian, Word, Pow256, NoErrors, DisjointTargets;
    var r := rels[k];
    var e := EffectOf(c, r);
    var t := Apply(c, b, rels).bytes;
    forall i | 0 <= i < e.width ensures t[r.offset + i] == LittleEndian(e.value, e.width)[i] {
      Touched(c, b, rels, k, r.offset + i);
    }
    assert t[r.offset..r.offset + e.width] == LittleEndian(e.value, e.width);
    StoredWord(e.value, e.width);
  }

  lemma StoredWord(value: nat, width: nat)
    requires (width == 8 && value < W64) || (width == 4 && value < W32)
    ensures Word(LittleEndian(value, width)) == value
  {
    Widths();
    WordOfLittleEndian(value, width);
  }

  /** With disjoint targets the order of the entries does not matter. */
  lemma OrderIndependent(c: Context, b: seq<Byte>, xs: seq<Rela>, ys: seq<Rela>)
    requires Room(c, b) && NoErrors(c, xs)
    requires DisjointTargets(c, xs) && DisjointTargets(c, ys) && multiset(xs) == multiset(ys)
    ensures Apply(c, b, xs) == Apply(c, b, ys)
  {
    forall r ensures r in xs <==> r in ys {
      assert r in multiset(xs) <==> r in multiset(ys);
    }
    ApplyOk(c, b, xs);
    ApplyOk(c, b, ys);
    var s, t := Apply(c, b, xs).bytes, Apply(c, b, ys).bytes;
    forall a | 0 <= a < |b| ensures s[a] == t[a] {
      if r :| r in xs && Covers(c, r, a) {
        var i :| 0 <= i < |xs| && xs[i] == r;
        var j :| 0 <= j < |ys| && ys[j] == r;
        Touched(c, b, xs, i, a);
        Touched(c, b, ys, j, a);
      } else {
        Untouched(c, b, xs, a);
        Untouched(c, b, ys, a);
      }
    }
    assert s == t;
  }

  /** An error at entry k leaves exactly the entries before it applied. */
  lemma {:induction false} ErrorStopsThere(c: Context, b: seq<Byte>, rels: seq<Rela>, k: nat)
    requires Room(c, b) && k < |rels|
    requires NoErrors(c, rels[..k]) && EffectOf(c, rels[k]).Error?
    ensures Apply(c, b, rels[..k]).ok
    ensures Apply(c, b, rels) == Applied(Apply(c, b, rels[..k]).bytes, false)
  {
    assert rels == rels[..k] + rels[k..];
    ApplyConcat(c, b, rels[..k], rels[k..]);
    ApplyOk(c, b, rels[..k]);
  }

  // ---------------------------------------------------------------- stores over the end of the image

  /** The store of an entry stays inside the image. */
  predicate Fits(c: Context, r: Rela) {
    EffectOf(c, r).Store? ==> r.offset <= c.memSize - EffectOf(c, r).width
  }

  /** The entry leaves the memory behind the image alone, whatever stands there. */
  ghost predicate StaysInside(c: Context, r: Rela) {
    forall b: seq<Byte> | Room(c, b) :: ApplyOne(c, b, r)[c.memSize..] == b[c.memSize..]
  }

  /** An entry that passes the check of its offset stays inside the image if and only if its
      whole word lies before the end; one at its natural alignment always does, because the
      image consists of whole pages. */
  lemma StaysInsideIff(c: Context, r: Rela)
    ensures StaysInside(c, r) <==> Fits(c, r)
    ensures c.memSize % PAGE == 0 && (EffectOf(c, r).Store? ==> r.offset % EffectOf(c, r).width == 0) ==> Fits(c, r)
  {
    var e := EffectOf(c, r);
    if !Fits(c, r) {
      var byte := ByteOf(c, r, c.memSize);
      var b: seq<Byte> := seq(c.memSize + 8, a => if byte == 0 then 1 else 0);
      ApplyOneAt(c, b, r, c.memSize);
      assert ApplyOne(c, b, r)[c.memSize..][0] != b[c.memSize..][0];
    } else {
      forall b: seq<Byte> | Room(c, b) ensures ApplyOne(c, b, r)[c.memSize..] == b[c.memSize..] {
        forall a | c.memSize <= a < |b| ensures ApplyOne(c, b, r)[a] == b[a] {
          ApplyOneAt(c, b, r, a);
        }
      }
    }
    if c.memSize % PAGE == 0 && e.Store? && r.offset % e.width == 0 {
      AlignedInside(r.offset, c.memSize);
    }
  }

  lemma AlignedInside(off: nat, size: nat)
    requires off < size && size % PAGE == 0
    ensures off % 8 == 0 ==> off + 8 <= size
    ensures off % 4 == 0 ==> off + 4 <= size
  {
  }

  /** A table all of whose entries fit leaves the memory behind the image alone. */
  lemma TableStaysInside(c: Context, b: seq<Byte>, rels: seq<Rela>, a: nat)
    requires Room(c, b) && (forall r <- rels :: Fits(c, r)) && c.memSize <= a < |b|
    ensures Apply(c, b, rels).bytes[a] == b[a]
  {
    Untouched(c, b, rels, a);
  }

  const ONE_PAGE := Context(0, PAGE, [], [], map[], map[])
  const LAST_BYTE := Rela(PAGE - 1, 8, 0)

  lemma LastByteEffect()
    ensures EffectOf(ONE_PAGE, LAST_BYTE) == Store(8, 0)
  {
    assert LAST_BYTE.Type() == 8;
  }

  /** A word at the last byte of a one-page image passes the check of its offset, and seven of
      its bytes land behind the image. */
  lemma StoresBehind(b: seq<Byte>)
    requires Room(ONE_PAGE, b)
    ensures EffectOf(ONE_PAGE, LAST_BYTE) == Store(8, 0) && !Fits(ONE_PAGE, LAST_BYTE)
    ensures ApplyOne(ONE_PAGE, b, LAST_BYTE)[PAGE + 6] == 0
  {
    LastByteEffect();
    ZeroBytes(8, 7);
    hide EffectOf, LittleEndian;
    ApplyOneAt(ONE_PAGE, b, LAST_BYTE, PAGE + 6);
  }

  lemma {:induction false} ZeroBytes(n: nat, k: nat)
    requires k < n
    ensures LittleEndian(0, n)[k] == 0
  {
    if k > 0 {
      ZeroBytes(n - 1, k - 1);
    }
  }

  // ---------------------------------------------------------------- position independence

  /** 64, GLOB_DAT, JUMP_SLOT and RELATIVE */
  predicate AbsoluteWord(r: Rela) {
    r.Type() in {1, 6, 7, 8}
  }

  /** PC32 and PLT32 */
  predicate RelativeWord(r: Rela) {
    r.Type() in {2, 4}
  }

  /** The index in the upper half of r_info names a symbol. */
  predicate Named(c: Context, r: Rela) {
    0 < r.info / 0x1_0000_0000 < |c.names| && c.names[r.info / 0x1_0000_0000] != ""
  }

  function NameIn(c: Context, r: Rela): Name
    requires Named(c, r)
  {
    c.names[r.info / 0x1_0000_0000]
  }

  /** The symbol of the entry, if it has one, is defined by the object itself. */
  predicate Local(c: Context, r: Rela) {
    r.info % 0x1_0000_0000 == 8 || (Named(c, r) && NameIn(c, r) in c.defs)
  }

  /** The symbol of the entry is defined by another library alone. */
  predicate Imported(c: Context, r: Rela) {
    r.info % 0x1_0000_0000 != 8 && Named(c, r) && NameIn(c, r) !in c.defs && NameIn(c, r) in c.external
  }

  /** Nobody defines the symbol of the entry. */
  predicate Undefined(c: Context, r: Rela) {
    Named(c, r) && NameIn(c, r) !in c.defs && NameIn(c, r) !in c.external
  }

  predicate Weak(c: Context, r: Rela) {
    r.info / 0x1_0000_0000 < |c.binds| && c.binds[r.info / 0x1_0000_0000] == 2
  }

  lemma AddBase(b: nat, v: nat, k: int)
    ensures ((b + v) % W64 + k) % W64 == (b + v + k) % W64
  {
  }

  lemma ShiftMod(x: int, y: int, d: int)
    requires x - y == d
    ensures (x % W64 - y % W64) % W64 == d % W64
  {
  }

  lemma SmallFromLarge(b: nat, v: nat, k: int, off: nat)
    ensures ((b + v) % W64 + k - (b + off)) % W32 == (v + k - off) % W32
  {
    var q := (b + v) / W64;
    assert (b + v) % W64 == b + v - q * W64;
    assert (b + v) % W64 + k - (b + off) == v + k - off - (q * W32) * W32;
  }

  /** x - y == d modulo 2^64 */
  ghost predicate DiffersBy(x: nat, y: nat, d: int) {
    (x - y) % W64 == d % W64
  }

  lemma AbsoluteShift(b: nat, b': nat, v: nat, k: int)
    ensures (((b' + v) % W64 + k) % W64 - ((b + v) % W64 + k) % W64) % W64 == (b' - b) % W64
  {
    AddBase(b, v, k);
    AddBase(b', v, k);
    ShiftMod(b' + v + k, b + v + k, b' - b);
  }

  lemma RelativeShift(b: nat, b': nat, v: int)
    ensures ((v - b') % W32 - (v - b) % W32) % W32 == (b - b') % W32
  {
  }

  /** What GLOB_DAT and JUMP_SLOT ignore. */
  function AddendOf(r: Rela): int {
    if r.Type() in {6, 7} then 0 else r.addend
  }

  /** The effect of an entry on a symbol of value v. */
  lemma EffectIs(c: Context, r: Rela, v: nat)
    requires r.offset < c.memSize && r.Type() != 8 && c.Resolve(r.SymIdx()) == Some(v)
    ensures AbsoluteWord(r) ==> EffectOf(c, r) == Store(8, (v + AddendOf(r)) % W64)
    ensures RelativeWord(r) ==> EffectOf(c, r) == Store(4, (v + r.addend - (c.base + r.offset)) % W32)
    ensures r.Type() in {10, 11} ==> EffectOf(c, r) == Store(4, (v + r.addend) % W32)
  {
  }

  lemma LocalValue(c: Context, r: Rela)
    requires Local(c, r) && r.Type() != 8
    ensures c.Resolve(r.SymIdx()) == Some((c.base + c.defs[NameIn(c, r)]) % W64)
  {
  }

  lemma ImportedValue(c: Context, r: Rela)
    requires Imported(c, r)
    ensures c.Resolve(r.SymIdx()) == Some(c.external[NameIn(c, r)])
  {
  }

  /** What no base changes: whether an entry is an error, a store or nothing, and the width. */
  lemma SameShape(c: Context, d: Context, r: Rela)
    requires d == c.(base := d.base)
    ensures EffectOf(c, r).Error? <==> EffectOf(d, r).Error?
    ensures EffectOf(c, r).Store? <==> EffectOf(d, r).Store?
    ensures EffectOf(c, r).Store? ==> EffectOf(c, r).width == EffectOf(d, r).width
    ensures !EffectOf(c, r).Error? && AbsoluteWord(r) ==> EffectOf(c, r).Store? && EffectOf(c, r).width == 8
    ensures !EffectOf(c, r).Error? && RelativeWord(r) ==> EffectOf(c, r).Store? && EffectOf(c, r).width == 4
  {
  }

  lemma LocalShifts(c: Context, d: Context, r: Rela)
    requires d == c.(base := d.base) && r.offset < c.memSize && Local(c, r)
    ensures AbsoluteWord(r) ==>
              && EffectOf(c, r).Store? && EffectOf(d, r).Store?
              && DiffersBy(EffectOf(d, r).value, EffectOf(c, r).value, d.base - c.base)
    ensures RelativeWord(r) ==> EffectOf(d, r) == EffectOf(c, r)
  {
    if r.Type() == 8 {
      ShiftMod(d.base + r.addend, c.base + r.addend, d.base - c.base);
    } else {
      var v := c.defs[NameIn(c, r)];
      LocalValue(c, r);
      LocalValue(d, r);
      EffectIs(c, r, (c.base + v) % W64);
      EffectIs(d, r, (d.base + v) % W64);
      hide EffectOf;
      AbsoluteShift(c.base, d.base, v, AddendOf(r));
      SmallFromLarge(c.base, v, r.addend, r.offset);
      SmallFromLarge(d.base, v, r.addend, r.offset);
    }
  }

  lemma ImportedShifts(c: Context, d: Context, r: Rela)
    requires d == c.(base := d.base) && r.offset < c.memSize && Imported(c, r)
    ensures AbsoluteWord(r) ==> EffectOf(d, r) == EffectOf(c, r)
    ensures RelativeWord(r) ==>
              && EffectOf(c, r).Store? && EffectOf(d, r).Store?
              && (EffectOf(d, r).value - EffectOf(c, r).value) % W32 == (c.base - d.base) % W32
  {
    var v := c.external[NameIn(c, r)];
    ImportedValue(c, r);
    ImportedValue(d, r);
    EffectIs(c, r, v);
    EffectIs(d, r, v);
    hide EffectOf;
    RelativeShift(c.base, d.base, v + r.addend - r.offset);
  }

  lemma TablesShift(c: Context, d: Context, rels: seq<Rela>)
    requires d == c.(base := d.base) && NoErrors(c, rels) && DisjointTargets(c, rels)
    ensures NoErrors(d, rels) && DisjointTargets(d, rels)
    ensures forall r, a :: r in rels ==> (Covers(c, r, a) <==> Covers(d, r, a))
  {
    forall r | r in rels ensures !EffectOf(d, r).Error? && forall a :: Covers(c, r, a) <==> Covers(d, r, a) {
      SameShape(c, d, r);
    }
    hide EffectOf;
    forall i, j, a | 0 <= i < j < |rels| ensures !(Covers(d, rels[i], a) && Covers(d, rels[j], a)) {
      assert rels[i] in rels && rels[j] in rels;
      assert !(Covers(c, rels[i], a) && Covers(c, rels[j], a));
    }
  }

  /** The word that entry r leaves. */
  function Target(c: Context, b: seq<Byte>, rels: seq<Rela>, r: Rela, width: nat): nat
    requires Room(c, b) && r.offset + width <= |b|
  {
    WordAt(Apply(c, b, rels).bytes, r.offset, width)
  }

  lemma TargetIs(c: Context, b: seq<Byte>, rels: seq<Rela>, r: Rela)
    requires Room(c, b) && NoErrors(c, rels) && DisjointTargets(c, rels)
    requires r in rels && EffectOf(c, r).Store?
    ensures r.offset + EffectOf(c, r).width <= |b|
    ensures Target(c, b, rels, r, EffectOf(c, r).width) == EffectOf(c, r).value
  {
    hide EffectOf, Apply, WordAt, DisjointTargets, NoErrors;
    var k :| 0 <= k < |rels| && rels[k] == r;
    TargetWord(c, b, rels, k);
  }

  /** The field and the calculation that section 4.4.1 of the ABI gives for a type; with no
      procedure linkage table of its own, L is S. */
  function Field(t: nat): nat {
    if t in {1, 6, 7, 8} then 8 else 4
  }

  function Calculation(t: nat, S: int, A: int, B: int, P: int): int {
    if t == 8 then B + A
    else if t == 6 || t == 7 then S
    else if t == 2 || t == 4 then S + A - P
    else S + A
  }

  /** After relocation every target holds the ABI's calculation, truncated to its field. */
  lemma AbiMeaning(c: Context, b: seq<Byte>, rels: seq<Rela>, r: Rela)
    requires Room(c, b) && NoErrors(c, rels) && DisjointTargets(c, rels)
    requires r in rels && r.Type() != 0
    ensures r.offset + Field(r.Type()) <= |b|
    ensures var S := if c.Resolve(r.SymIdx()).Some? then c.Resolve(r.SymIdx()).value else 0;
            && (r.Type() == 8 || c.Resolve(r.SymIdx()) == Some(S))
            && Target(c, b, rels, r, Field(r.Type()))
               == Calculation(r.Type(), S, r.addend, c.base, c.base + r.offset) % Pow256(Field(r.Type()))
  {
    assert !EffectOf(c, r).Error?;
    Widths();
    TargetIs(c, b, rels, r) by {
      hide Apply, Target, DisjointTargets, Covers;
    }
    hide Apply, Target, DisjointTargets, Pow256, NoErrors;
  }

  /** The words of entries whose symbol another library defines: the address there, by the
      index that r_info holds. */
  lemma ImportedWords(c: Context, b: seq<Byte>, rels: seq<Rela>, r: Rela)
    requires Room(c, b) && NoErrors(c, rels) && DisjointTargets(c, rels) && r in rels && Imported(c, r)
    ensures var t, S := r.info % 0x1_0000_0000, c.external[c.names[r.info / 0x1_0000_0000]];
            && (t == 1 ==> r.offset + 8 <= |b| && Target(c, b, rels, r, 8) == (S + r.addend) % W64)
            && (t in {6, 7} ==> r.offset + 8 <= |b| && Target(c, b, rels, r, 8) == S % W64)
            && (t in {10, 11} ==> r.offset + 4 <= |b| && Target(c, b, rels, r, 4) == (S + r.addend) % W32)
            && (t in {2, 4} ==> r.offset + 4 <= |b| && Target(c, b, rels, r, 4) == (S + r.addend - (c.base + r.offset)) % W32)
  {
    if r.Type() != 0 {
      AbiMeaning(c, b, rels, r);
      ImportedValue(c, r);
      Widths();
      hide Target, Pow256, Apply, DisjointTargets, NoErrors;
    }
  }

  /** A weak symbol that nobody defines counts as 0. */
  lemma WeakWords(c: Context, b: seq<Byte>, rels: seq<Rela>, r: Rela)
    requires Room(c, b) && NoErrors(c, rels) && DisjointTargets(c, rels) && r in rels && Undefined(c, r) && Weak(c, r)
    ensures var t := r.info % 0x1_0000_0000;
            && (t == 1 ==> r.offset + 8 <= |b| && Target(c, b, rels, r, 8) == r.addend % W64)
            && (t in {6, 7} ==> r.offset + 8 <= |b| && Target(c, b, rels, r, 8) == 0)
            && (t in {10, 11} ==> r.offset + 4 <= |b| && Target(c, b, rels, r, 4) == r.addend % W32)
            && (t in {2, 4} ==> r.offset + 4 <= |b| && Target(c, b, rels, r, 4) == (r.addend - (c.base + r.offset)) % W32)
  {
    if r.Type() != 0 {
      AbiMeaning(c, b, rels, r);
      assert c.Resolve(r.SymIdx()) == Some(0);
      Widths();
      hide Target, Pow256, Apply, DisjointTargets, NoErrors;
    }
  }

  /** A table is applied without an error if and only if every entry starts in the image, is of
      a type that there is, and has no symbol that is undefined and not weak. */
  lemma SucceedsIff(c: Context, b: seq<Byte>, rels: seq<Rela>)
    requires Room(c, b)
    ensures Apply(c, b, rels).ok <==>
            forall r <- rels :: r.offset < c.memSize && r.info % 0x1_0000_0000 in {0, 1, 2, 4, 6, 7, 8, 10, 11}
                                && (Undefined(c, r) && !Weak(c, r) ==> r.info % 0x1_0000_0000 in {0, 8})
  {
    ApplyOk(c, b, rels);
    hide Apply;
    forall r ensures EffectOf(c, r).Error? <==>
                     !(r.offset < c.memSize && r.info % 0x1_0000_0000 in {0, 1, 2, 4, 6, 7, 8, 10, 11}
                       && (Undefined(c, r) && !Weak(c, r) ==> r.info % 0x1_0000_0000 in {0, 8})) {
    }
    hide EffectOf, Undefined, Weak;
  }

  /** Position independence: relocating one image at two bases gives, at the target of every
      entry whose symbol the object defines, absolute words that differ by exactly the
      difference of the bases, modulo 2^64, and identical PC-relative words; where another
      library defines the symbol it is the other way round. */
  lemma PositionIndependence(c: Context, d: Context, b: seq<Byte>, rels: seq<Rela>, r: Rela)
    requires d == c.(base := d.base) && Room(c, b) && NoErrors(c, rels)
    requires DisjointTargets(c, rels) && r in rels
    ensures Room(d, b) && Apply(c, b, rels).ok && Apply(d, b, rels).ok
    ensures AbsoluteWord(r) ==>
              && r.offset + 8 <= |b|
              && (Local(c, r) ==> DiffersBy(Target(d, b, rels, r, 8), Target(c, b, rels, r, 8), d.base - c.base))
              && (Imported(c, r) ==> Target(d, b, rels, r, 8) == Target(c, b, rels, r, 8))
    ensures RelativeWord(r) ==>
              && r.offset + 4 <= |b|
              && (Local(c, r) ==> Target(d, b, rels, r, 4) == Target(c, b, rels, r, 4))
              && (Imported(c, r) ==>
                    (Target(d, b, rels, r, 4) - Target(c, b, rels, r, 4)) % W32 == (c.base - d.base) % W32)
  {
    hide *;
    SameRoom(c, d, b);
    ApplyOk(c, b, rels);
    TablesShift(c, d, rels);
    ApplyOk(d, b, rels);
    NoErrorAt(c, rels, r);
    SameShape(c, d, r);
    if AbsoluteWord(r) || RelativeWord(r) {
      TargetIs(c, b, rels, r);
      TargetIs(d, b, rels, r);
      if Local(c, r) {
        LocalShifts(c, d, r);
      }
      if Imported(c, r) {
        ImportedShifts(c, d, r);
      }
    }
  }

  lemma NoErrorAt(c: Context, rels: seq<Rela>, r: Rela)
    requires NoErrors(c, rels) && r in rels
    ensures !EffectOf(c, r).Error? && r.offset < c.memSize
  {
  }

  lemma SameRoom(c: Context, d: Context, b: seq<Byte>)
    requires Room(c, b) && d.memSize == c.memSize
    ensures Room(d, b)
  {
  }

  /** ... and every byte that is no target is the same. */
  lemma PositionIndependenceElsewhere(c: Context, d: Context, b: seq<Byte>, rels: seq<Rela>, a: nat)
    requires d == c.(base := d.base) && Room(c, b) && NoErrors(c, rels)
    requires DisjointTargets(c, rels) && a < |b| && forall r <- rels :: !Covers(c, r, a)
    ensures Room(d, b) && Apply(d, b, rels).bytes[a] == Apply(c, b, rels).bytes[a] == b[a]
  {
    TablesShift(c, d, rels);
    Untouched(c, b, rels, a);
    Untouched(d, b, rels, a);
  }
}
