/** ELF symbol entries and their names, as the symbol package reads them. */
module Symbols {
  import opened Words

  /** Go strings are bytes. */
  type Name = seq<Byte>

  /** Elf64_Sym */
  datatype Elf64Sym = Elf64Sym(name: nat, info: nat, shndx: nat, value: nat, size: nat)

  const STB_GLOBAL := 1
  const STB_WEAK := 2
  const SHN_UNDEF := 0

  datatype Symbol = Symbol(name: Name, value: nat, size: nat, bind: nat, typ: nat, section: nat,
                           verIdx: nat, verName: Name)

  /** A byte of the string table; memory behind it reads as zeros. */
  function ByteAt(strtab: seq<Byte>, a: nat): Byte {
    if a < |strtab| then strtab[a] else 0
  }

  /** The distance from `a` to the next zero byte. */
  function StringLength(strtab: seq<Byte>, a: nat): (n: nat)
    ensures ByteAt(strtab, a + n) == 0
    ensures n > 0 ==> a + n <= |strtab|
    ensures forall k | a <= k < a + n :: ByteAt(strtab, k) != 0
    decreases |strtab| - a
  {
    if ByteAt(strtab, a) == 0 then 0 else 1 + StringLength(strtab, a + 1)
  }

  /** The string at `offset`, or no string if it does not end before `limit`; a limit of 0
      is no limit. */
  function CString(strtab: seq<Byte>, offset: nat, limit: nat): Name {
    var n := StringLength(strtab, offset);
    if n == 0 || (limit > 0 && offset + n >= limit) then [] else strtab[offset..offset + n]
  }

  lemma {:induction false} LengthIs(strtab: seq<Byte>, a: nat, n: nat)
    requires ByteAt(strtab, a + n) == 0 && forall k | a <= k < a + n :: ByteAt(strtab, k) != 0
    ensures StringLength(strtab, a) == n
    decreases n
  {
    if n > 0 {
      LengthIs(strtab, a + 1, n - 1);
    }
  }

  lemma NoZeroInside(strtab: seq<Byte>, offset: nat, limit: nat)
    ensures 0 !in CString(strtab, offset, limit)
  {
    var s := CString(strtab, offset, limit);
    forall k | 0 <= k < |s| ensures s[k] != 0 {
      assert ByteAt(strtab, offset + k) == s[k];
    }
  }

  method ReadCStringMem(strtab: seq<Byte>, offset: nat, limit: nat) returns (name: Name)
    ensures name == CString(strtab, offset, limit)
    ensures 0 !in name
  {
    ghost var n := StringLength(strtab, offset);
    NoZeroInside(strtab, offset, limit);
    if limit > 0 && offset >= limit {
      return [];
    }
    var ptr := offset;
    name := [];
    var bytesRead := 0;
    while true
      invariant ptr == offset + bytesRead && 0 <= bytesRead <= n
      invariant bytesRead > 0 ==> ptr <= |strtab| && name == strtab[offset..ptr]
      invariant bytesRead == 0 ==> name == []
      invariant limit > 0 ==> offset + bytesRead <= limit
      decreases n - bytesRead
    {
      if limit > 0 && offset + bytesRead >= limit {
        return [];
      }
      var b := if ptr < |strtab| then strtab[ptr] else 0;
      assert b == ByteAt(strtab, ptr);
      if b == 0 {
        break;
      }
      assert bytesRead != n;
      name := name + [b];
      ptr := ptr + 1;
      bytesRead := bytesRead + 1;
    }
    assert bytesRead == n;
  }

  /** A lookup through a hash table leaves the base address to its caller. */
  function Unrelocated(s: Elf64Sym, name: Name): Symbol {
    Symbol(name, s.value, s.size, s.info / 16, s.info % 16, s.shndx, 0, [])
  }

  /** A dynamic symbol table in memory. */
  datatype Dynsym = Dynsym(symtab: seq<Elf64Sym>, strtab: seq<Byte>, strtabSize: nat)
  {
    function NameOf(i: nat): Name
      requires i < |symtab|
    {
      CString(strtab, symtab[i].name, strtabSize)
    }

    /** The linear scan that the hash tables replace. */
    function FirstFrom(i: nat, name: Name): (k: nat)
      requires i <= |symtab|
      ensures i <= k <= |symtab|
      ensures k < |symtab| ==> NameOf(k) == name
      ensures forall j | i <= j < k :: NameOf(j) != name
      decreases |symtab| - i
    {
      if i == |symtab| || NameOf(i) == name then i else FirstFrom(i + 1, name)
    }

    lemma FirstFromIs(i: nat, name: Name, k: nat)
      requires i <= k <= |symtab| && (k < |symtab| ==> NameOf(k) == name)
      requires forall j | i <= j < k :: NameOf(j) != name
      ensures FirstFrom(i, name) == k
    {
    }
  }
}
