/** The three ways to find a symbol by name agree: the GNU hash table, the SysV hash table
    and the index built by LoadFromDynamic. */
module IndexAgreement {
  import opened Wrappers
  import opened Bits
  import opened Symbols
  import opened SymbolTable
  import GnuHash
  import SysvHash

  ghost predicate AcceptedAt(d: Dynsym, versions: Option<VersionTable>, i: nat)
    requires i < |d.symtab|
  {
    EntryAt(d, versions, i).Accepted()
  }

  // ---------------------------------------------------------------- when each lookup finds entry i

  /** No entry of the same name stands before i in the part that DT_GNU_HASH indexes. */
  ghost predicate FirstIndexed(g: seq<nat>, d: Dynsym, i: nat)
    requires |g| >= 4 && i < |d.symtab|
  {
    forall j | g[1] <= j < i :: d.NameOf(j) != d.NameOf(i)
  }

  lemma GnuFindsIff(g: seq<nat>, d: Dynsym, i: nat)
    requires |g| >= 4 && g[1] <= i < |d.symtab|
    ensures d.FirstFrom(g[1], d.NameOf(i)) == i <==> FirstIndexed(g, d, i)
  {
    hide CString;
    if FirstIndexed(g, d, i) {
      d.FirstFromIs(g[1], d.NameOf(i), i);
    }
  }

  /** The chain from `first` comes to j and later to i. */
  ghost predicate ComesFirst(s: seq<nat>, n: nat, first: nat, j: nat, i: nat)
    requires SysvHash.Shaped(s, n) && first < n
  {
    exists a: nat, b: nat | a < b :: SysvHash.Along(s, n, first, a) == j && SysvHash.Along(s, n, first, b) == i
  }

  /** No entry of the same name stands before i on the chain of its bucket. */
  ghost predicate FirstChained(s: seq<nat>, d: Dynsym, i: nat)
    requires SysvHash.Shaped(s, |d.symtab|) && i < |d.symtab|
  {
    var n, name := |d.symtab|, d.NameOf(i);
    forall j | 0 < j < n && ComesFirst(s, n, SysvHash.Bucket(s, n, name), j, i) :: d.NameOf(j) != name
  }

  lemma SysvFindsIff(s: seq<nat>, d: Dynsym, i: nat)
    requires SysvHash.WellFormed(s, d) && 0 < i < |d.symtab|
    ensures SysvHash.Ends(s, |d.symtab|, SysvHash.Bucket(s, |d.symtab|, d.NameOf(i)))
    ensures SysvHash.Found(s, d, d.NameOf(i)) == i <==> FirstChained(s, d, i)
  {
    var name, n := d.NameOf(i), |d.symtab|;
    var first := SysvHash.Bucket(s, n, name);
    SysvHash.FoundIsFirst(s, d, name);
    SysvHash.EndsIffAcyclic(s, n, first);
    var f := SysvHash.Found(s, d, name);
    assert SysvHash.OnChain(s, d, name, i);
    hide SysvHash.Found, SysvHash.Ends, SysvHash.Bucket, SysvHash.Along, CString;
    assert f != 0 && SysvHash.FirstOnChain(s, d, name, f);
    var k: nat :| SysvHash.Along(s, n, first, k) == f &&
                  forall j: nat | j < k :: SysvHash.Along(s, n, first, j) == 0 || d.NameOf(SysvHash.Along(s, n, first, j)) != name;
    if f == i {
      NobodyBefore(s, d, i, k);
    } else {
      var b: nat :| SysvHash.Along(s, n, first, b) == i;
      assert b != k;
      assert !(b < k);
      assert ComesFirst(s, n, first, f, i);
    }
  }

  /** The symbol that the scan comes to first has nobody of its name before it. */
  lemma NobodyBefore(s: seq<nat>, d: Dynsym, i: nat, k: nat)
    requires SysvHash.Shaped(s, |d.symtab|) && 0 < i < |d.symtab|
    requires var first := SysvHash.Bucket(s, |d.symtab|, d.NameOf(i));
             && SysvHash.Acyclic(s, |d.symtab|, first) && SysvHash.Along(s, |d.symtab|, first, k) == i
             && forall j: nat | j < k :: SysvHash.Along(s, |d.symtab|, first, j) == 0
                                         || d.NameOf(SysvHash.Along(s, |d.symtab|, first, j)) != d.NameOf(i)
    ensures FirstChained(s, d, i)
  {
    hide SysvHash.Bucket, SysvHash.Along, CString;
    var n := |d.symtab|;
    var first := SysvHash.Bucket(s, n, d.NameOf(i));
    forall j | 0 < j < n && ComesFirst(s, n, first, j, i) ensures d.NameOf(j) != d.NameOf(i) {
      var a: nat, b: nat :| a < b && SysvHash.Along(s, n, first, a) == j && SysvHash.Along(s, n, first, b) == i;
      assert b == k;
    }
  }

  /** Entry i wins the choice among the versions of its name: it is the last default one, or
      the first of several hidden ones. */
  ghost predicate Preferred(d: Dynsym, versions: Option<VersionTable>, i: nat)
    requires i < |d.symtab|
  {
    var es, name := Entries(d, versions, |d.symtab|), d.NameOf(i);
    if !es[i].Hidden() then forall j | i < j < |es| :: !es[j].Default(name)
    else (forall j | 0 <= j < |es| :: !es[j].Default(name)) && forall j | 0 <= j < i :: !es[j].Named(name)
  }

  lemma IndexFindsIff(d: Dynsym, versions: Option<VersionTable>, i: nat)
    requires i < |d.symtab| && AcceptedAt(d, versions, i)
    ensures Chosen(Entries(d, versions, |d.symtab|), d.NameOf(i)) == Some(i) <==> Preferred(d, versions, i)
  {
    hide CString;
    var es, name := Entries(d, versions, |d.symtab|), d.NameOf(i);
    assert es[i] == EntryAt(d, versions, i) && es[i].Named(name);
    var last, first := LastDefault(es, name), FirstNamed(es, name);
    assert !es[i].Hidden() ==> es[i].Default(name);
  }

  // ---------------------------------------------------------------- agreement

  /** A defined, named GLOBAL or WEAK entry is what all three lookups of its name find if and
      only if it is the first of that name in the GNU table and on its SysV chain and wins
      the choice among versions.  The hash lookups then give st_value, the index gives
      base + st_value, and the rest of the symbol is the same. */
  lemma IndexesAgree(g: seq<nat>, s: seq<nat>, d: Dynsym, base: nat, versions: Option<VersionTable>, i: nat)
    requires GnuHash.WellFormed(g, d) && SysvHash.WellFormed(s, d) && 0 < g[1] <= i < |d.symtab|
    requires AcceptedAt(d, versions, i)
    ensures SysvHash.Ends(s, |d.symtab|, SysvHash.Bucket(s, |d.symtab|, d.NameOf(i)))
    ensures var name, es := d.NameOf(i), Entries(d, versions, |d.symtab|);
            (d.FirstFrom(g[1], name) == i && SysvHash.Found(s, d, name) == i && Chosen(es, name) == Some(i))
            <==> FirstIndexed(g, d, i) && FirstChained(s, d, i) && Preferred(d, versions, i)
    ensures Preferred(d, versions, i) ==>
              var name := d.NameOf(i);
              var r := Find(base, versions, Entries(d, versions, |d.symtab|), name);
              && r == Some(Build(base, versions, EntryAt(d, versions, i)))
              && r.value.value == (base + Unrelocated(d.symtab[i], name).value) % W64
              && r.value.(value := 0, verIdx := 0, verName := []) == Unrelocated(d.symtab[i], name).(value := 0)
  {
    GnuFindsIff(g, d, i);
    SysvFindsIff(s, d, i);
    IndexFindsIff(d, versions, i);
    BuiltFrom(d, base, versions, i);
    LookupFindsChosen(map[], base, versions, Entries(d, versions, |d.symtab|), d.NameOf(i));
    hide Preferred, Chosen, StoreAll, Build, EntryAt, FirstIndexed, FirstChained, SysvHash.Found, CString, Unrelocated;
    assert Entries(d, versions, |d.symtab|)[i] == EntryAt(d, versions, i);
  }

  lemma BuiltFrom(d: Dynsym, base: nat, versions: Option<VersionTable>, i: nat)
    requires i < |d.symtab|
    ensures var b, u := Build(base, versions, EntryAt(d, versions, i)), Unrelocated(d.symtab[i], d.NameOf(i));
            && b.value == (base + u.value) % W64
            && b.(value := 0, verIdx := 0, verName := []) == u.(value := 0)
  {
  }

  /** Entry i is the only one of its name, symbol 0 aside. */
  ghost predicate OnlyOne(d: Dynsym, i: nat)
    requires 0 < i < |d.symtab|
  {
    forall j | 0 < j < |d.symtab| && d.NameOf(j) == d.NameOf(i) :: j == i
  }

  /** In particular they agree on a name that no other entry has. */
  lemma OnlyOneIsEnough(g: seq<nat>, s: seq<nat>, d: Dynsym, versions: Option<VersionTable>, i: nat)
    requires |g| >= 4 && SysvHash.WellFormed(s, d) && 0 < g[1] <= i < |d.symtab|
    requires AcceptedAt(d, versions, i) && OnlyOne(d, i) && !AcceptedAt(d, versions, 0)
    ensures FirstIndexed(g, d, i) && FirstChained(s, d, i) && Preferred(d, versions, i)
  {
    hide CString, SysvHash.Along, SysvHash.Bucket;
    var n := |d.symtab|;
    var first := SysvHash.Bucket(s, n, d.NameOf(i));
    SysvHash.EndsIffAcyclic(s, n, first);
    forall j | 0 < j < n && ComesFirst(s, n, first, j, i) ensures j != i {
      var a: nat, b: nat :| a < b && SysvHash.Along(s, n, first, a) == j && SysvHash.Along(s, n, first, b) == i;
    }
    var es := Entries(d, versions, n);
    assert es[i] == EntryAt(d, versions, i) && es[0] == EntryAt(d, versions, 0);
  }

  // ---------------------------------------------------------------- uniqueness is needed

  const F: Name := [102]

  /** An undefined symbol f before the defined one. */
  const SHADOWED: Dynsym :=
    Dynsym([Elf64Sym(0, 0, 0, 0, 0), Elf64Sym(1, 16, 0, 0, 0), Elf64Sym(1, 16, 7, 64, 8)], [0, 102, 0], 3)

  /** That the defined symbols have different names is not enough: the SysV lookup finds the
      undefined entry, the index the defined one. */
  lemma UndefinedShadows(base: nat)
    ensures var d := SHADOWED;
            var s := SysvHash.OneChain(3);
            && SysvHash.WellFormed(s, d)
            && (forall i | 0 <= i < 3 :: AcceptedAt(d, None, i) <==> i == 2)
            && SysvHash.Ends(s, 3, SysvHash.Bucket(s, 3, F)) && SysvHash.Found(s, d, F) == 1
            && Find(base, None, Entries(d, None, 3), F) == Some(Build(base, None, EntryAt(d, None, 2)))
  {
    var d := SHADOWED;
    var s := SysvHash.OneChain(3);
    ShadowedNames();
    SysvHash.OneChainIsWellFormed(d);
    assert s[2] == 1;
    assert SysvHash.Bucket(s, 3, F) == 1;
    SysvHash.ScanHere(s, d, F, 1, SysvHash.LeastEnd(s, 3, 1));
    LookupFindsChosen(map[], base, None, Entries(d, None, 3), F);
  }

  lemma ShadowedNames()
    ensures SHADOWED.NameOf(0) == [] && SHADOWED.NameOf(1) == SHADOWED.NameOf(2) == F
  {
    LengthIs(SHADOWED.strtab, 0, 0);
    LengthIs(SHADOWED.strtab, 1, 1);
  }
}
