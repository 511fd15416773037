/** Symbol lookup through DT_HASH (symbol/sysv_hash.go; "Hash Table" in chapter 5 of the
    System V gABI).  The table is a sequence of 32-bit words: nbucket, nchain, the buckets,
    the chains. */
module SysvHash {
  import opened Wrappers
  import opened Bits
  import opened Words
  import opened Symbols

  // ---------------------------------------------------------------- the hash function

  const TOP: nat := 0xf0000000

  /** The top four bits fold into bits 4 to 7. */
  function Folded(x: nat): nat {
    var g := And(x, TOP);
    if g != 0 then Xor(x, Shr(g, 24)) else x
  }

  /** The end of a round as the gABI gives it: h &= ~g. */
  function StandardRound(x: nat): nat {
    AndNot(Folded(x), And(x, TOP))
  }

  function Shifted(h: nat, b: Byte): nat {
    (h * 16 % W32 + b) % W32
  }

  function StandardHash(name: Name): nat {
    if name == [] then 0
    else StandardRound(Shifted(StandardHash(name[..|name| - 1]), name[|name| - 1]))
  }

  lemma Pow28()
    ensures Pow2(28) == 0x10000000 && Pow2(24) == 0x1000000 && Pow2(8) == 256 && Pow2(4) == 16
    ensures TOP == 15 * Pow2(28)
  {
    assert Pow2(14) == 16384;
    PowAdd(14, 14);
    PowAdd(12, 12);
    PagePow();
  }

  /** The loader clears the top four bits, the gABI those of them that are set: the same, and
      the hash is below 2^28. */
  lemma RoundsAgree(x: nat)
    requires x < W32
    ensures StandardRound(x) == AndNot(Folded(x), TOP) < 0x10000000
  {
    hide And, AndNot, Shr, Xor, Pow2;
    Pow28();
    var q, y := Shr(x, 28), Folded(x);
    ShrBounds(x, 28);
    AndMask(q, 4);
    AndHigh(x, 15, 28);
    FoldKeepsTop(x, q);
    AndHigh(y, 15, 28);
    AndHigh(y, q, 28);
    AndSelf(q);
    ShrBounds(y, 28);
  }

  /** In numbers: the low 28 bits of x, with its top four bits flipped into bits 4 to 7. */
  lemma RoundIs(x: nat)
    requires x < W32
    ensures StandardRound(x) == Xor(x % 0x10000000, x / 0x10000000 * 16)
  {
    hide And, AndNot, Shr, Xor, Pow2;
    Pow28();
    var q, y := Shr(x, 28), Folded(x);
    ShrBounds(x, 28);
    ShrIs(x, 28);
    ShrIs(y, 28);
    AndMask(q, 4);
    AndHigh(x, 15, 28);
    FoldKeepsTop(x, q);
    AndHigh(y, q, 28);
    AndSelf(q);
    assert StandardRound(x) == y % Pow2(28);
    ShrOfMultiple(q * 16, 24);
    assert q * Pow2(28) == (q * 16) * Pow2(24);
    XorNone(x);
    assert y == Xor(x, q * 16);
    XorMod(x, q * 16, 28);
  }

  /** The polynomial in 16 whose coefficients are the bytes of the name. */
  function Polynomial(name: Name): nat {
    if name == [] then 0 else Polynomial(name[..|name| - 1]) * 16 + name[|name| - 1]
  }

  /** As long as the polynomial fits in 28 bits, it is the hash. */
  lemma {:induction false} HashIsPolynomial(name: Name)
    requires Polynomial(name) < 0x10000000
    ensures StandardHash(name) == Polynomial(name)
  {
    if name != [] {
      HashIsPolynomial(name[..|name| - 1]);
      SmallRound(Polynomial(name[..|name| - 1]), name[|name| - 1]);
    }
  }

  lemma SmallRound(h: nat, b: Byte)
    requires h * 16 + b < 0x10000000
    ensures StandardRound(Shifted(h, b)) == h * 16 + b
  {
    hide StandardRound, Xor;
    RoundIs(h * 16 + b);
    XorNone(h * 16 + b);
  }

  lemma XorNone(x: nat)
    ensures Xor(x, 0) == x
  {
  }

  lemma RoundEnds(x: nat)
    requires x < W32
    ensures StandardRound(x) == AndNot(if And(x, TOP) != 0 then Xor(x, Shr(And(x, TOP), 24)) else x, TOP) < 0x10000000
  {
    RoundsAgree(x);
  }

  lemma FoldKeepsTop(x: nat, q: nat)
    requires q == Shr(x, 28) < 16 && And(x, TOP) == q * Pow2(28)
    ensures Shr(Folded(x), 28) == q
  {
    hide And, AndNot, Shr, Xor, Pow2;
    Pow28();
    var s := Shr(q * Pow2(28), 24);
    ShrOfMultiple(q * 16, 24);
    assert q * Pow2(28) == (q * 16) * Pow2(24);
    XorLow(x, s, 8);
    ShrSum(x, 8, 20);
    ShrSum(Xor(x, s), 8, 20);
  }

  method SysvHash(name: Name) returns (r: nat)
    ensures r == StandardHash(name) && r < 0x10000000
  {
    hide StandardRound, Folded, And, AndNot, Shr, Xor;
    var h := 0;
    for i := 0 to |name|
      invariant h == StandardHash(name[..i]) && h < 0x10000000
    {
      assert name[..i + 1][..i] == name[..i];
      h := (h * 16 % W32 + name[i]) % W32;
      ghost var x := h;
      var g := And(h, TOP);
      RoundEnds(x);
      if g != 0 {
        h := Xor(h, Shr(g, 24));
      }
      h := AndNot(h, TOP);
    }
    assert name[..|name|] == name;
    return h;
  }

  // ---------------------------------------------------------------- the table

  /** Every chain word and every bucket names a symbol or ends the chain. */
  predicate Shaped(t: seq<nat>, n: nat) {
    && |t| >= 2 && t[0] > 0 && 2 + t[0] + n <= |t| && n > 0
    && forall k | 2 <= k < 2 + t[0] + n :: t[k] < n
  }

  function Next(t: seq<nat>, n: nat, i: nat): (j: nat)
    requires Shaped(t, n) && i < n
    ensures j < n
  {
    t[2 + t[0] + i]
  }

  /** The symbol that k steps of a chain lead to. */
  function Along(t: seq<nat>, n: nat, i: nat, k: nat): (j: nat)
    requires Shaped(t, n) && i < n
    ensures j < n
    decreases k
  {
    if k == 0 || i == 0 then i else Along(t, n, Next(t, n, i), k - 1)
  }

  function BucketIndex(h: nat, nbuckets: nat): (b: nat)
    requires nbuckets > 0
    ensures b < nbuckets
  {
    h % nbuckets
  }

  function Bucket(t: seq<nat>, n: nat, name: Name): (i: nat)
    requires Shaped(t, n)
    ensures i < n
  {
    t[2 + BucketIndex(StandardHash(name), t[0])]
  }

  /** No symbol comes twice on the chain from i. */
  ghost predicate Acyclic(t: seq<nat>, n: nat, i: nat)
    requires Shaped(t, n) && i < n
  {
    forall j: nat, k: nat | j < k && Along(t, n, i, k) != 0 :: Along(t, n, i, j) != Along(t, n, i, k)
  }

  ghost predicate Ends(t: seq<nat>, n: nat, i: nat)
    requires Shaped(t, n) && i < n
  {
    exists k: nat :: Along(t, n, i, k) == 0
  }

  lemma {:induction false} AlongNext(t: seq<nat>, n: nat, i: nat, k: nat)
    requires Shaped(t, n) && i < n
    ensures Along(t, n, i, k + 1) == (if Along(t, n, i, k) == 0 then 0 else Next(t, n, Along(t, n, i, k)))
    decreases k
  {
    if k > 0 && i != 0 {
      AlongNext(t, n, Next(t, n, i), k - 1);
    }
  }

  ghost predicate ComesBefore(t: seq<nat>, n: nat, i: nat, m: nat, j: nat)
    requires Shaped(t, n) && i < n
  {
    exists k: nat :: k < m && Along(t, n, i, k) == j
  }

  /** The first m symbols of an acyclic chain are m different symbols, so it ends. */
  lemma {:induction false} Visited(t: seq<nat>, n: nat, i: nat, m: nat) returns (s: set<nat>)
    requires Shaped(t, n) && i < n && Acyclic(t, n, i) && forall k: nat :: Along(t, n, i, k) != 0
    ensures |s| == m && forall j <- s :: j < n && ComesBefore(t, n, i, m, j)
  {
    s := {};
    if m > 0 {
      var rest := Visited(t, n, i, m - 1);
      var last := Along(t, n, i, m - 1);
      s := rest + {last};
      forall j | j in s ensures ComesBefore(t, n, i, m, j) {
        if j in rest {
          var k: nat :| k < m - 1 && Along(t, n, i, k) == j;
        }
      }
      forall j | j in rest ensures j != last {
        var k: nat :| k < m - 1 && Along(t, n, i, k) == j;
      }
    }
  }

  lemma {:induction false} BoundedSet(s: set<nat>, n: nat)
    requires forall j <- s :: j < n
    ensures |s| <= n
  {
    if n > 0 {
      BoundedSet(s - {n - 1}, n - 1);
      assert s <= (s - {n - 1}) + {n - 1};
    } else {
      assert s == {};
    }
  }

  /** A chain ends if and only if no symbol comes twice on it. */
  lemma EndsIffAcyclic(t: seq<nat>, n: nat, i: nat)
    requires Shaped(t, n) && i < n
    ensures Ends(t, n, i) <==> Acyclic(t, n, i)
  {
    if Acyclic(t, n, i) && !Ends(t, n, i) {
      var s := Visited(t, n, i, n + 1);
      BoundedSet(s, n);
      assert false;
    }
    if Ends(t, n, i) {
      var e: nat :| Along(t, n, i, e) == 0;
      forall j: nat, k: nat | j < k && Along(t, n, i, k) != 0 ensures Along(t, n, i, j) != Along(t, n, i, k) {
        if Along(t, n, i, j) == Along(t, n, i, k) {
          Repeats(t, n, i, j, k - j, e);
          assert false;
        }
      }
    }
  }

  /** Once the chain comes back to a symbol it does so for ever. */
  lemma {:induction false} Repeats(t: seq<nat>, n: nat, i: nat, j: nat, p: nat, e: nat)
    requires Shaped(t, n) && i < n && p > 0 && Along(t, n, i, j) == Along(t, n, i, j + p) != 0
    ensures Along(t, n, i, e) != 0
    decreases if e < j then 0 else e - j
  {
    if e < j {
      Stays(t, n, i, e, j);
    } else if e >= j + p {
      AlongSum(t, n, i, j, e - p - j);
      AlongSum(t, n, i, j + p, e - p - j);
      Repeats(t, n, i, j, p, e - p);
    } else {
      Stays(t, n, i, e, j + p);
    }
  }

  /** The end of a chain is final. */
  lemma {:induction false} Stays(t: seq<nat>, n: nat, i: nat, e: nat, k: nat)
    requires Shaped(t, n) && i < n && e <= k && Along(t, n, i, k) != 0
    ensures Along(t, n, i, e) != 0
    decreases k - e
  {
    if e < k {
      AlongNext(t, n, i, e);
      Stays(t, n, i, e + 1, k);
    }
  }

  lemma {:induction false} AlongSum(t: seq<nat>, n: nat, i: nat, j: nat, k: nat)
    requires Shaped(t, n) && i < n
    ensures Along(t, n, i, j + k) == Along(t, n, Along(t, n, i, j), k)
    decreases j
  {
    if j > 0 && i != 0 {
      AlongSum(t, n, Next(t, n, i), j - 1, k);
    }
  }

  // ---------------------------------------------------------------- lookup

  ghost predicate OnChain(t: seq<nat>, d: Dynsym, name: Name, i: nat)
    requires Shaped(t, |d.symtab|)
  {
    i != 0 && exists k: nat :: Along(t, |d.symtab|, Bucket(t, |d.symtab|, name), k) == i
  }

  /** i is the first symbol of that name on the chain of its bucket. */
  ghost predicate FirstOnChain(t: seq<nat>, d: Dynsym, name: Name, i: nat)
    requires Shaped(t, |d.symtab|) && i < |d.symtab|
  {
    var n := |d.symtab|;
    i != 0 && d.NameOf(i) == name &&
    exists k: nat :: Along(t, n, Bucket(t, n, name), k) == i &&
                     forall j: nat | j < k :: Along(t, n, Bucket(t, n, name), j) == 0 || d.NameOf(Along(t, n, Bucket(t, n, name), j)) != name
  }

  /** The first symbol of that name among i and the e symbols that follow it, 0 for none. */
  ghost function Scan(t: seq<nat>, d: Dynsym, name: Name, i: nat, e: nat): (f: nat)
    requires Shaped(t, |d.symtab|) && i < |d.symtab| && Along(t, |d.symtab|, i, e) == 0
    ensures f < |d.symtab|
    decreases e
  {
    if i == 0 || d.NameOf(i) == name then i else Scan(t, d, name, Next(t, |d.symtab|, i), e - 1)
  }

  lemma ScanNext(t: seq<nat>, d: Dynsym, name: Name, i: nat, e: nat)
    requires Shaped(t, |d.symtab|) && 0 < i < |d.symtab| && Along(t, |d.symtab|, i, e) == 0 && d.NameOf(i) != name
    ensures e > 0 && 2 + t[0] + i < |t| && t[2 + t[0] + i] < |d.symtab|
    ensures Along(t, |d.symtab|, t[2 + t[0] + i], e - 1) == 0
    ensures Scan(t, d, name, i, e) == Scan(t, d, name, t[2 + t[0] + i], e - 1)
  {
  }

  ghost function LeastEnd(t: seq<nat>, n: nat, i: nat): (e: nat)
    requires Shaped(t, n) && i < n && Ends(t, n, i)
    ensures Along(t, n, i, e) == 0
  {
    var e: nat :| Along(t, n, i, e) == 0;
    e
  }

  ghost function Found(t: seq<nat>, d: Dynsym, name: Name): (i: nat)
    requires Shaped(t, |d.symtab|) && Ends(t, |d.symtab|, Bucket(t, |d.symtab|, name))
    ensures i < |d.symtab|
  {
    var first := Bucket(t, |d.symtab|, name);
    Scan(t, d, name, first, LeastEnd(t, |d.symtab|, first))
  }

  /** The lookup terminates on every chain that ends; no table is an error. */
  method SysvLookup(name: Name, table: Option<seq<nat>>, d: Dynsym) returns (r: Option<Symbol>)
    requires table.Some? ==>
               var n := |d.symtab|;
               Shaped(table.value, n) && Ends(table.value, n, Bucket(table.value, n, name))
    ensures table == None ==> r == None
    ensures table.Some? ==>
              var i := Found(table.value, d, name);
              r == if i != 0 then Some(Unrelocated(d.symtab[i], name)) else None
  {
    hide *;
    if table == None {
      return None;
    }
    var t := table.value;
    ghost var n := |d.symtab|;
    BucketWord(t, n, name);
    var nbuckets := t[0];
    var chainsBase := 2 + nbuckets;
    var hash := SysvHash(name);
    var h := hash % nbuckets;
    var idx: nat := t[2 + h];
    ghost var e := LeastEnd(t, n, Bucket(t, n, name));
    FoundIs(t, d, name);
    while idx != 0
      invariant idx < n && Along(t, n, idx, e) == 0 && Scan(t, d, name, idx, e) == Found(t, d, name)
      decreases e
    {
      EntryOf(d, idx, name);
      var sym := d.symtab[idx];
      var symName := ReadCStringMem(d.strtab, sym.name, d.strtabSize);
      if symName == name {
        ScanHere(t, d, name, idx, e);
        return Some(Symbol(name, sym.value, sym.size, sym.info / 16, sym.info % 16, sym.shndx, 0, []));
      }
      ScanNext(t, d, name, idx, e);
      idx := t[chainsBase + idx];
      e := e - 1;
    }
    ScanHere(t, d, name, idx, e);
    return None;
  }

  lemma BucketWord(t: seq<nat>, n: nat, name: Name)
    requires Shaped(t, n)
    ensures |t| >= 2 && t[0] > 0 && 2 + t[0] <= |t| && n > 0
    ensures StandardHash(name) % t[0] < t[0]
    ensures Bucket(t, n, name) == t[2 + StandardHash(name) % t[0]]
  {
  }

  lemma FoundIs(t: seq<nat>, d: Dynsym, name: Name)
    requires Shaped(t, |d.symtab|) && Ends(t, |d.symtab|, Bucket(t, |d.symtab|, name))
    ensures var first := Bucket(t, |d.symtab|, name);
            Found(t, d, name) == Scan(t, d, name, first, LeastEnd(t, |d.symtab|, first))
  {
  }

  lemma EntryOf(d: Dynsym, i: nat, name: Name)
    requires i < |d.symtab|
    ensures d.NameOf(i) == CString(d.strtab, d.symtab[i].name, d.strtabSize)
    ensures Unrelocated(d.symtab[i], name) ==
            var s := d.symtab[i]; Symbol(name, s.value, s.size, s.info / 16, s.info % 16, s.shndx, 0, [])
  {
  }

  lemma ScanHere(t: seq<nat>, d: Dynsym, name: Name, i: nat, e: nat)
    requires Shaped(t, |d.symtab|) && i < |d.symtab| && Along(t, |d.symtab|, i, e) == 0
    requires i == 0 || d.NameOf(i) == name
    ensures Scan(t, d, name, i, e) == i
  {
  }

  /** What is found is the first symbol of that name on the chain of its bucket, and nothing
      is found exactly if the chain holds none. */
  lemma FoundIsFirst(t: seq<nat>, d: Dynsym, name: Name)
    requires Shaped(t, |d.symtab|) && Ends(t, |d.symtab|, Bucket(t, |d.symtab|, name))
    ensures Found(t, d, name) != 0 ==> FirstOnChain(t, d, name, Found(t, d, name))
    ensures Found(t, d, name) == 0 <==>
            forall i | 0 <= i < |d.symtab| && OnChain(t, d, name, i) :: d.NameOf(i) != name
  {
    var first := Bucket(t, |d.symtab|, name);
    ScanFrom(t, d, name, 0, LeastEnd(t, |d.symtab|, first));
  }

  lemma {:induction false} ScanFrom(t: seq<nat>, d: Dynsym, name: Name, k: nat, e: nat)
    requires Shaped(t, |d.symtab|)
    requires Along(t, |d.symtab|, Along(t, |d.symtab|, Bucket(t, |d.symtab|, name), k), e) == 0
    requires forall j: nat | j < k ::
               var a := Along(t, |d.symtab|, Bucket(t, |d.symtab|, name), j);
               a == 0 || d.NameOf(a) != name
    ensures var f := Scan(t, d, name, Along(t, |d.symtab|, Bucket(t, |d.symtab|, name), k), e);
            && (f != 0 ==> FirstOnChain(t, d, name, f))
            && (f == 0 ==> forall i | 0 <= i < |d.symtab| && OnChain(t, d, name, i) :: d.NameOf(i) != name)
    decreases e
  {
    hide StandardHash, CString;
    var n := |d.symtab|;
    var first := Bucket(t, n, name);
    var i := Along(t, n, first, k);
    if i == 0 {
      forall j: nat | j >= k ensures Along(t, n, first, j) == 0 {
        if Along(t, n, first, j) != 0 {
          Stays(t, n, first, k, j);
        }
      }
    } else if d.NameOf(i) != name {
      AlongNext(t, n, first, k);
      ScanFrom(t, d, name, k + 1, e - 1);
    }
  }

  /** As the gABI has it: every chain ends, and every named symbol but 0 is on the chain of
      its bucket. */
  ghost predicate WellFormed(t: seq<nat>, d: Dynsym) {
    && Shaped(t, |d.symtab|)
    && (forall name: Name :: Ends(t, |d.symtab|, Bucket(t, |d.symtab|, name)))
    && (forall i | 0 < i < |d.symtab| :: OnChain(t, d, d.NameOf(i), i))
  }

  /** One bucket, and a chain through all symbols in order. */
  function OneChain(n: nat): seq<nat>
    requires n > 0
  {
    var head: seq<nat> := [1, n, if n > 1 then 1 else 0];
    head + seq<nat>(n, i requires 0 <= i < n => if 0 < i && i + 1 < n then i + 1 else 0)
  }

  lemma {:induction false} AlongOneChain(n: nat, k: nat)
    requires n > 0
    ensures Shaped(OneChain(n), n)
    ensures Along(OneChain(n), n, if n > 1 then 1 else 0, k) == if k + 1 < n then k + 1 else 0
  {
    var t := OneChain(n);
    assert forall k | 2 <= k < 3 + n :: t[k] < n;
    if k > 0 {
      AlongOneChain(n, k - 1);
      AlongNext(t, n, if n > 1 then 1 else 0, k - 1);
    }
  }

  /** Every symbol table has a well-formed hash table. */
  lemma OneChainIsWellFormed(d: Dynsym)
    requires d.symtab != []
    ensures WellFormed(OneChain(|d.symtab|), d)
  {
    hide StandardHash, CString;
    var n := |d.symtab|;
    var t := OneChain(n);
    AlongOneChain(n, n);
    forall name: Name ensures Bucket(t, n, name) == (if n > 1 then 1 else 0) {
      assert BucketIndex(StandardHash(name), 1) == 0;
    }
    forall i | 0 < i < n ensures OnChain(t, d, d.NameOf(i), i) {
      AlongOneChain(n, i - 1);
      assert Along(t, n, Bucket(t, n, d.NameOf(i)), i - 1) == i;
    }
  }
}
