/** The name-to-symbol index of a loaded object (symbol/symbol.go) and its choice among
    versions of one name. */
module SymbolTable {
  import opened Wrappers
  import opened Bits
  import opened Symbols

  type Half = w: nat | w < 0x1_0000

  /** DT_VERSYM by symbol index, and the version names of DT_VERNEED and DT_VERDEF. */
  datatype VersionTable = VersionTable(symbolVersions: seq<Half>, requirements: map<nat, Name>, definitions: map<nat, Name>)
  {
    /** The name of a version: that of the requirement, otherwise that of the definition. */
    function VersionName(v: nat): Name {
      if v in requirements then requirements[v] else if v in definitions then definitions[v] else []
    }

    /** The version word of a symbol, 0 behind the end of the table. */
    function VersionWord(i: nat): Half {
      if i < |symbolVersions| then symbolVersions[i] else 0
    }

    method GetSymbolVersion(i: nat) returns (v: nat)
      ensures v == VersionWord(i) % 0x8000
    {
      if i >= |symbolVersions| {
        return 0;
      }
      VersionBits(symbolVersions[i]);
      return And(symbolVersions[i], VERSION);
    }

    method GetVersionName(v: nat) returns (name: Name)
      ensures name == VersionName(v)
    {
      if v in requirements {
        return requirements[v];
      }
      if v in definitions {
        return definitions[v];
      }
      return [];
    }
  }

  const HIDDEN: nat := 0x8000
  const VERSION: nat := 0x7fff

  /** The high bit of a version word marks a hidden version, the others are its index. */
  lemma VersionBits(w: Half)
    ensures And(w, HIDDEN) != 0 <==> w >= 0x8000
    ensures And(w, VERSION) == w % 0x8000
  {
    hide And;
    assert Pow2(15) == 0x8000 by {
      assert Pow2(5) == 32;
      assert Pow2(10) == 32 * Pow2(5);
    }
    AndBit(w, 15);
    AndMask(w, 15);
  }

  /** A symbol entry with its name and its version word. */
  datatype Entry = Entry(sym: Elf64Sym, name: Name, ver: Half)
  {
    /** A named entry of binding 1 (GLOBAL) or 2 (WEAK) in a section other than 0. */
    predicate Accepted() {
      && (sym.name != 0 || sym.value != 0) && name != []
      && sym.info / 16 in {1, 2} && sym.shndx != 0
    }

    predicate Hidden() {
      ver >= 0x8000
    }

    predicate Named(n: Name) {
      Accepted() && name == n
    }

    predicate Default(n: Name) {
      Named(n) && !Hidden()
    }
  }

  function EntryAt(d: Dynsym, versions: Option<VersionTable>, i: nat): Entry
    requires i < |d.symtab|
  {
    Entry(d.symtab[i], d.NameOf(i), if versions.Some? then versions.value.VersionWord(i) else 0)
  }

  function Entries(d: Dynsym, versions: Option<VersionTable>, n: nat): (es: seq<Entry>)
    requires n <= |d.symtab|
    ensures |es| == n
  {
    seq(n, i requires 0 <= i < n => EntryAt(d, versions, i))
  }

  function Build(base: nat, versions: Option<VersionTable>, e: Entry): Symbol {
    var verIdx := if versions.Some? then e.ver % 0x8000 else 0;
    Symbol(e.name, (base + e.sym.value) % W64, e.sym.size, e.sym.info / 16, e.sym.info % 16, e.sym.shndx,
           verIdx, if verIdx > 1 then versions.value.VersionName(verIdx) else [])
  }

  type Index = map<Name, Symbol>

  function Store(m: Index, base: nat, versions: Option<VersionTable>, e: Entry): Index {
    if !e.Accepted() || (e.name in m && e.Hidden()) then m else m[e.name := Build(base, versions, e)]
  }

  /** All entries, stored in order. */
  function StoreAll(m: Index, base: nat, versions: Option<VersionTable>, es: seq<Entry>): Index {
    if es == [] then m
    else Store(StoreAll(m, base, versions, es[..|es| - 1]), base, versions, es[|es| - 1])
  }

  lemma NothingStored(m: Index, base: nat, versions: Option<VersionTable>, es: seq<Entry>)
    ensures StoreAll(m, base, versions, es[..0]) == m
  {
  }

  lemma EntryStored(m: Index, base: nat, versions: Option<VersionTable>, d: Dynsym, n: nat, i: nat)
    requires i < n <= |d.symtab|
    ensures var es := Entries(d, versions, n);
            StoreAll(m, base, versions, es[..i + 1])
            == Store(StoreAll(m, base, versions, es[..i]), base, versions, EntryAt(d, versions, i))
  {
    var es := Entries(d, versions, n);
    assert es[..i + 1][..i] == es[..i];
  }

  class Table {
    var symbols: Index
    const base: nat
    var versions: Option<VersionTable>

    constructor (base: nat)
      ensures symbols == map[] && this.base == base && versions == None
    {
      symbols, this.base, versions := map[], base, None;
    }

    method SetVersionTable(vt: VersionTable)
      modifies this`versions
      ensures versions == Some(vt)
    {
      versions := Some(vt);
    }

    method Lookup(name: Name) returns (s: Option<Symbol>)
      ensures s == if name in symbols then Some(symbols[name]) else None
    {
      s := if name in symbols then Some(symbols[name]) else None;
    }

    /** With a version, the one symbol of that name is good if it has that version or none. */
    method LookupVersion(name: Name, version: Name) returns (s: Option<Symbol>)
      ensures s.Some? <==> name in symbols && (version == [] || symbols[name].verName in {version, []})
      ensures s.Some? ==> s.value == symbols[name]
    {
      if version == [] {
        s := Lookup(name);
        return;
      }
      if name !in symbols {
        return None;
      }
      if symbols[name].verName == version || symbols[name].verName == [] {
        return Some(symbols[name]);
      }
      return None;
    }

    /** `d` is what stands in memory; no symbol table is the only error.  A size of 0 stands
        for 4096 symbols. */
    method LoadFromDynamic(d: Option<Dynsym>, symtabSize: nat) returns (ok: bool)
      requires d.Some? ==> Count(symtabSize) <= |d.value.symtab| && Count(symtabSize) <= W32
      modifies this`symbols
      ensures ok <==> d.Some?
      ensures symbols == if ok then StoreAll(old(symbols), base, versions, Entries(d.value, versions, Count(symtabSize)))
                         else old(symbols)
    {
      if d == None {
        return false;
      }
      hide Store, StoreAll, EntryAt, Entries;
      var n := (if symtabSize == 0 then 24 * 4096 else symtabSize) / 24;
      ghost var es := Entries(d.value, versions, n);
      NothingStored(symbols, base, versions, es);
      for i := 0 to n
        invariant symbols == StoreAll(old(symbols), base, versions, es[..i])
      {
        EntryStored(old(symbols), base, versions, d.value, n, i);
        LoadSymbolEntry(d.value, i);
      }
      assert es[..n] == es;
      ok := true;
    }

    method LoadSymbolEntry(d: Dynsym, idx: nat)
      requires idx < |d.symtab|
      modifies this`symbols
      ensures symbols == Store(old(symbols), base, versions, EntryAt(d, versions, idx))
    {
      hide CString;
      var s := d.symtab[idx];
      var process := ShouldProcessSymbol(s);
      if !process {
        return;
      }
      var name := ReadCStringMem(d.strtab, s.name, d.strtabSize);
      if name == [] {
        return;
      }
      var sym := BuildSymbol(s, name, idx);
      var skip := ShouldSkipSymbol(name, idx);
      if skip {
        return;
      }
      symbols := symbols[name := sym];
    }

    method ShouldProcessSymbol(s: Elf64Sym) returns (r: bool)
      ensures forall name, ver :: r && name != [] <==> Entry(s, name, ver).Accepted()
    {
      if s.name == 0 && s.value == 0 {
        return false;
      }
      var bind := s.info / 16;
      if bind != STB_GLOBAL && bind != STB_WEAK {
        return false;
      }
      return s.shndx != SHN_UNDEF;
    }

    method BuildSymbol(s: Elf64Sym, name: Name, idx: nat) returns (sym: Symbol)
      ensures var ver := if versions.Some? then versions.value.VersionWord(idx) else 0;
              sym == Build(base, versions, Entry(s, name, ver))
    {
      sym := Symbol(name, (base + s.value) % W64, s.size, s.info / 16, s.info % 16, s.shndx, 0, []);
      if versions.Some? {
        var verIdx := versions.value.GetSymbolVersion(idx);
        sym := sym.(verIdx := verIdx);
        if verIdx > 1 {
          var verName := versions.value.GetVersionName(verIdx);
          sym := sym.(verName := verName);
        }
      }
    }

    method ShouldSkipSymbol(name: Name, idx: nat) returns (skip: bool)
      ensures skip <==> name in symbols && versions.Some? && versions.value.VersionWord(idx) >= 0x8000
    {
      if name !in symbols {
        return false;
      }
      if versions.Some? && idx < |versions.value.symbolVersions| {
        VersionBits(versions.value.symbolVersions[idx]);
        var isHidden := And(versions.value.symbolVersions[idx], HIDDEN) != 0;
        if isHidden {
          return true;
        }
      }
      return false;
    }
  }

  /** initializeSymbolTable on a fresh table, followed by a lookup: what clients see. */
  method LoadAndLookup(base: nat, versions: Option<VersionTable>, d: Dynsym, symtabSize: nat, name: Name)
    returns (s: Option<Symbol>)
    requires Count(symtabSize) <= |d.symtab| && Count(symtabSize) <= W32
    ensures s == Find(base, versions, Entries(d, versions, Count(symtabSize)), name)
    ensures AnswersLookup(base, versions, d, Count(symtabSize), name, s)
  {
    var t := new Table(base);
    if versions.Some? {
      t.SetVersionTable(versions.value);
    }
    var _ := t.LoadFromDynamic(Some(d), symtabSize);
    s := t.Lookup(name);
    FindAnswers(base, versions, d, Count(symtabSize), name);
  }

  function Count(symtabSize: nat): nat {
    if symtabSize == 0 then 4096 else symtabSize / 24
  }

  // ---------------------------------------------------------------- which entry a name gets

  /** The last non-hidden entry of that name. */
  function LastDefault(es: seq<Entry>, name: Name): (r: Option<nat>)
    ensures r.Some? ==> r.value < |es| && es[r.value].Default(name)
    ensures r.Some? ==> forall j | r.value < j < |es| :: !es[j].Default(name)
    ensures r == None ==> forall j | 0 <= j < |es| :: !es[j].Default(name)
  {
    if es == [] then None
    else if es[|es| - 1].Default(name) then Some(|es| - 1)
    else LastDefault(es[..|es| - 1], name)
  }

  /** The first entry of that name. */
  function FirstNamed(es: seq<Entry>, name: Name): (r: Option<nat>)
    ensures r.Some? ==> r.value < |es| && es[r.value].Named(name)
    ensures r.Some? ==> forall j | 0 <= j < r.value :: !es[j].Named(name)
    ensures r == None ==> forall j | 0 <= j < |es| :: !es[j].Named(name)
  {
    if es == [] then None
    else
      var r := FirstNamed(es[..|es| - 1], name);
      if r == None && es[|es| - 1].Named(name) then Some(|es| - 1) else r
  }

  /** The last non-hidden entry of the name if there is one, otherwise the first hidden one. */
  function Chosen(es: seq<Entry>, name: Name): Option<nat> {
    if LastDefault(es, name).Some? then LastDefault(es, name) else FirstNamed(es, name)
  }

  /** Versioned selection: a lookup after loading finds the chosen entry; what was in the
      table before counts as an earlier entry. */
  lemma {:induction false} LookupFindsChosen(m: Index, base: nat, versions: Option<VersionTable>, es: seq<Entry>, name: Name)
    ensures var t := StoreAll(m, base, versions, es);
            && (LastDefault(es, name).Some? ==> name in t && t[name] == Build(base, versions, es[LastDefault(es, name).value]))
            && (LastDefault(es, name) == None && name in m ==> name in t && t[name] == m[name])
            && (name !in m ==> (name in t <==> Chosen(es, name).Some?))
            && (name !in m && name in t ==> t[name] == Build(base, versions, es[Chosen(es, name).value]))
  {
    hide Build;
    if es != [] {
      LookupFindsChosen(m, base, versions, es[..|es| - 1], name);
    }
  }

  /** The entries that a lookup can find: the non-hidden ones, or else the hidden ones. */
  ghost predicate Candidate(es: seq<Entry>, name: Name, e: Entry) {
    e in es && e.Named(name) && (LastDefault(es, name).Some? ==> !e.Hidden())
  }

  ghost predicate OneMeaning(base: nat, versions: Option<VersionTable>, es: seq<Entry>, name: Name) {
    forall e, f | Candidate(es, name, e) && Candidate(es, name, f) :: Build(base, versions, e) == Build(base, versions, f)
  }

  ghost predicate OrderFree(base: nat, versions: Option<VersionTable>, es: seq<Entry>, name: Name) {
    forall fs | multiset(fs) == multiset(es) ::
      Find(base, versions, fs, name) == Find(base, versions, es, name)
  }

  /** What a lookup in a freshly loaded table answers. */
  function Find(base: nat, versions: Option<VersionTable>, es: seq<Entry>, name: Name): Option<Symbol> {
    var t := StoreAll(map[], base, versions, es);
    if name in t then Some(t[name]) else None
  }

  /** Symbol i is defined, GLOBAL or WEAK, and has this name. */
  predicate Exports(d: Dynsym, name: Name, i: nat)
    requires i < |d.symtab|
  {
    var s := d.symtab[i];
    d.NameOf(i) == name && name != [] && (s.name != 0 || s.value != 0) && s.info / 16 in {1, 2} && s.shndx != 0
  }

  function WordOf(versions: Option<VersionTable>, i: nat): Half {
    if versions.Some? && i < |versions.value.symbolVersions| then versions.value.symbolVersions[i] else 0
  }

  /** Of the first n symbols, i is the last exported one of its name whose version word has
      the high bit clear, or, when none is, the first exported one. */
  ghost predicate Wins(versions: Option<VersionTable>, d: Dynsym, n: nat, name: Name, i: nat)
    requires i < n <= |d.symtab|
  {
    && Exports(d, name, i)
    && (WordOf(versions, i) < 0x8000 ==>
          forall j | i < j < n && Exports(d, name, j) :: WordOf(versions, j) >= 0x8000)
    && (WordOf(versions, i) >= 0x8000 ==>
          && (forall j | 0 <= j < n && Exports(d, name, j) :: WordOf(versions, j) >= 0x8000)
          && forall j | 0 <= j < i :: !Exports(d, name, j))
  }

  /** `s` is the symbol of entry e under version word w: at the base plus st_value, with the
      low 15 bits of w as version index and, from index 2 on, the name that the index has
      among the requirements, or else among the definitions. */
  ghost predicate IsSymbolOf(base: nat, versions: Option<VersionTable>, e: Elf64Sym, w: Half, name: Name, s: Symbol) {
    && s.name == name && s.value == (base + e.value) % 0x1_0000_0000_0000_0000 && s.size == e.size
    && s.bind == e.info / 16 && s.typ == e.info % 16 && s.section == e.shndx
    && s.verIdx == w % 0x8000
    && (s.verIdx <= 1 || versions == None ==> s.verName == [])
    && (s.verIdx > 1 && versions.Some? ==>
          var vt := versions.value;
          && (s.verIdx in vt.requirements ==> s.verName == vt.requirements[s.verIdx])
          && (s.verIdx !in vt.requirements && s.verIdx in vt.definitions ==> s.verName == vt.definitions[s.verIdx])
          && (s.verIdx !in vt.requirements && s.verIdx !in vt.definitions ==> s.verName == []))
  }

  /** The answer to a lookup over the first n symbols, in terms of the tables alone. */
  ghost predicate AnswersLookup(base: nat, versions: Option<VersionTable>, d: Dynsym, n: nat, name: Name, s: Option<Symbol>)
    requires n <= |d.symtab|
  {
    && (s == None ==> forall i | 0 <= i < n :: !Exports(d, name, i))
    && (s.Some? ==> exists i | 0 <= i < n ::
            Wins(versions, d, n, name, i) && IsSymbolOf(base, versions, d.symtab[i], WordOf(versions, i), name, s.value))
  }

  lemma FindAnswers(base: nat, versions: Option<VersionTable>, d: Dynsym, n: nat, name: Name)
    requires n <= |d.symtab|
    ensures AnswersLookup(base, versions, d, n, name, Find(base, versions, Entries(d, versions, n), name))
  {
    hide CString;
    var es := Entries(d, versions, n);
    LookupFindsChosen(map[], base, versions, es, name);
    forall i | 0 <= i < n ensures es[i].Named(name) <==> Exports(d, name, i) {
      assert es[i] == EntryAt(d, versions, i);
    }
    forall i | 0 <= i < n ensures es[i].ver == WordOf(versions, i) && es[i].sym == d.symtab[i] {
      assert es[i] == EntryAt(d, versions, i);
    }
    var c := Chosen(es, name);
    if c.Some? {
      assert Wins(versions, d, n, name, c.value);
      Built(base, versions, es[c.value]);
    }
  }

  lemma Built(base: nat, versions: Option<VersionTable>, e: Entry)
    requires versions == None ==> e.ver == 0
    ensures IsSymbolOf(base, versions, e.sym, e.ver, e.name, Build(base, versions, e))
  {
  }

  lemma SameElements(es: seq<Entry>, fs: seq<Entry>)
    requires multiset(fs) == multiset(es)
    ensures forall e :: e in fs <==> e in es
  {
    forall e ensures e in fs <==> e in es {
      assert e in multiset(fs) <==> e in multiset(es);
    }
  }

  lemma ChosenIsCandidate(base: nat, versions: Option<VersionTable>, es: seq<Entry>, name: Name)
    ensures Find(base, versions, es, name) == None <==> forall e <- es :: !e.Named(name)
    ensures Find(base, versions, es, name).Some? ==>
              exists e :: Candidate(es, name, e) && Find(base, versions, es, name) == Some(Build(base, versions, e))
  {
    LookupFindsChosen(map[], base, versions, es, name);
    var c := Chosen(es, name);
    if c.Some? {
      var e := es[c.value];
      assert Candidate(es, name, e);
    }
  }

  lemma SameCandidates(es: seq<Entry>, fs: seq<Entry>, name: Name, e: Entry)
    requires multiset(fs) == multiset(es)
    ensures Candidate(fs, name, e) <==> Candidate(es, name, e)
  {
    SameElements(es, fs);
    DefaultsAre(es, name);
    DefaultsAre(fs, name);
  }

  lemma DefaultsAre(es: seq<Entry>, name: Name)
    ensures LastDefault(es, name).Some? <==> exists e <- es :: e.Default(name)
  {
    var r := LastDefault(es, name);
    if r.Some? {
      assert es[r.value] in es && es[r.value].Default(name);
    }
  }

  /** The order of the table does not matter for a name if and only if all its non-hidden
      entries build the same symbol (its hidden ones, if it has no other). */
  lemma OrderFreeIffOneMeaning(base: nat, versions: Option<VersionTable>, es: seq<Entry>, name: Name)
    ensures OrderFree(base, versions, es, name) <==> OneMeaning(base, versions, es, name)
  {
    if OneMeaning(base, versions, es, name) {
      forall fs | multiset(fs) == multiset(es)
        ensures Find(base, versions, fs, name) == Find(base, versions, es, name)
      {
        SameMeaning(base, versions, es, fs, name);
      }
    } else {
      var e, f :| Candidate(es, name, e) && Candidate(es, name, f) && Build(base, versions, e) != Build(base, versions, f);
      var es1 := MoveTo(base, versions, es, name, e);
      var es2 := MoveTo(base, versions, es, name, f);
      assert Find(base, versions, es1, name) != Find(base, versions, es2, name);
    }
  }

  lemma SameMeaning(base: nat, versions: Option<VersionTable>, es: seq<Entry>, fs: seq<Entry>, name: Name)
    requires OneMeaning(base, versions, es, name) && multiset(fs) == multiset(es)
    ensures Find(base, versions, fs, name) == Find(base, versions, es, name)
  {
    ChosenIsCandidate(base, versions, es, name);
    ChosenIsCandidate(base, versions, fs, name);
    SameElements(es, fs);
    if Find(base, versions, fs, name).Some? {
      var e :| Candidate(fs, name, e) && Find(base, versions, fs, name) == Some(Build(base, versions, e));
      var f :| Candidate(es, name, f) && Find(base, versions, es, name) == Some(Build(base, versions, f));
      SameCandidates(es, fs, name, e);
    }
  }

  lemma Moved(es: seq<Entry>, i: nat)
    requires i < |es|
    ensures multiset([es[i]] + (es[..i] + es[i + 1..])) == multiset(es)
    ensures multiset((es[..i] + es[i + 1..]) + [es[i]]) == multiset(es)
  {
    assert es == es[..i] + [es[i]] + es[i + 1..];
  }

  /** An order in which a given candidate is found. */
  lemma MoveTo(base: nat, versions: Option<VersionTable>, es: seq<Entry>, name: Name, e: Entry) returns (fs: seq<Entry>)
    requires Candidate(es, name, e)
    ensures multiset(fs) == multiset(es) && Find(base, versions, fs, name) == Some(Build(base, versions, e))
  {
    hide StoreAll, Build;
    var i :| 0 <= i < |es| && es[i] == e;
    var rest := es[..i] + es[i + 1..];
    fs := if e.Hidden() then [e] + rest else rest + [e];
    Moved(es, i);
    DefaultsAre(es, name);
    DefaultsAre(fs, name);
    SameElements(es, fs);
    LookupFindsChosen(map[], base, versions, fs, name);
    if e.Hidden() {
      assert FirstNamed(fs, name) == Some(0) by {
        assert fs[0].Named(name);
      }
    } else {
      assert fs[|fs| - 1].Default(name);
    }
  }

  /** When a name has exactly one default version, every order finds that version. */
  lemma OneDefaultIsOrderFree(base: nat, versions: Option<VersionTable>, es: seq<Entry>, fs: seq<Entry>, name: Name, e: Entry)
    requires multiset(fs) == multiset(es) && e in es && e.Default(name)
    requires forall f <- es :: f.Default(name) ==> f == e
    ensures Find(base, versions, es, name) == Find(base, versions, fs, name) == Some(Build(base, versions, e))
  {
    DefaultsAre(es, name);
    ChosenIsCandidate(base, versions, es, name);
    SameMeaning(base, versions, es, fs, name) by {
      assert forall f | Candidate(es, name, f) :: f == e;
    }
  }

  // ---------------------------------------------------------------- a table of unknown size

  /** An all-zero entry, the end of the table as the comment on its size has it. */
  predicate IsNull(e: Entry) {
    e.sym.name == 0 && e.sym.value == 0
  }

  /** The first all-zero entry from i on. */
  function FirstNull(es: seq<Entry>, i: nat): (k: nat)
    requires i <= |es|
    ensures i <= k <= |es| && (k < |es| ==> IsNull(es[k]))
    ensures forall j | i <= j < k :: !IsNull(es[j])
    decreases |es| - i
  {
    if i == |es| || IsNull(es[i]) then i else FirstNull(es, i + 1)
  }

  /** Storing the entries `rest` changes nothing of what index t has under this name: the
      last default one among them builds the symbol that is there, and a hidden one finds a
      symbol there. */
  ghost predicate AddsNothing(t: Index, base: nat, versions: Option<VersionTable>, rest: seq<Entry>, name: Name) {
    var last := LastDefault(rest, name);
    if last.Some? then name in t && t[name] == Build(base, versions, rest[last.value])
    else FirstNamed(rest, name).Some? ==> name in t
  }

  lemma {:induction false} StoreInTwo(m: Index, base: nat, versions: Option<VersionTable>, xs: seq<Entry>, ys: seq<Entry>)
    ensures StoreAll(m, base, versions, xs + ys) == StoreAll(StoreAll(m, base, versions, xs), base, versions, ys)
  {
    if ys == [] {
      assert xs + ys == xs;
    } else {
      var n := |ys| - 1;
      assert (xs + ys)[..|xs| + n] == xs + ys[..n];
      StoreInTwo(m, base, versions, xs, ys[..n]);
    }
  }

  /** Stopping at entry k leaves the same index as reading on exactly if the entries from k on
      add nothing under any name. */
  lemma StopsAlikeIff(m: Index, base: nat, versions: Option<VersionTable>, es: seq<Entry>, k: nat)
    requires k <= |es|
    ensures var t := StoreAll(m, base, versions, es[..k]);
            StoreAll(m, base, versions, es) == t <==> forall name :: AddsNothing(t, base, versions, es[k..], name)
  {
    var t, u := StoreAll(m, base, versions, es[..k]), StoreAll(m, base, versions, es);
    assert es == es[..k] + es[k..];
    StoreInTwo(m, base, versions, es[..k], es[k..]);
    hide StoreAll, Build;
    forall name ensures AddsNothing(t, base, versions, es[k..], name)
                   <==> ((name in u <==> name in t) && (name in t ==> u[name] == t[name])) {
      LookupFindsChosen(t, base, versions, es[k..], name);
    }
  }

  /** Of every table, all-zero entry 0 included: reading to the end and stopping at the first
      all-zero entry from `from` on agree exactly if what stands behind that entry adds
      nothing. */
  lemma FallbackStopsIff(base: nat, versions: Option<VersionTable>, es: seq<Entry>, from: nat)
    requires from <= |es|
    ensures var k := FirstNull(es, from);
            var t := StoreAll(map[], base, versions, es[..k]);
            StoreAll(map[], base, versions, es) == t <==> forall name :: AddsNothing(t, base, versions, es[k..], name)
  {
    StopsAlikeIff(map[], base, versions, es, FirstNull(es, from));
  }

  const NULL_ENTRY := Entry(Elf64Sym(0, 0, 0, 0, 0), [], 0)
  const LATE_ENTRY := Entry(Elf64Sym(1, 16, 7, 64, 8), [102], 0)

  /** A symbol behind an all-zero entry is in the index, although a loop that stops at that
      entry would never come to it. */
  lemma ReadsBehindNull(base: nat)
    ensures var es := [NULL_ENTRY, NULL_ENTRY, LATE_ENTRY];
            && FirstNull(es, 1) == 1
            && Find(base, None, es, [102]) == Some(Build(base, None, LATE_ENTRY))
            && Find(base, None, es[..1], [102]) == None
  {
    var es := [NULL_ENTRY, NULL_ENTRY, LATE_ENTRY];
    LookupFindsChosen(map[], base, None, es, [102]);
    LookupFindsChosen(map[], base, None, es[..1], [102]);
    assert es[2].Default([102]);
  }
}
