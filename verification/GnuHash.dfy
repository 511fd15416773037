/** Symbol lookup through DT_GNU_HASH (symbol/gnu_hash.go).  The table is a sequence of
    32-bit words: four header words, the Bloom filter as pairs of words, the buckets, the
    chains. */
module GnuHash {
  import opened Wrappers
  import opened Bits
  import opened Symbols

  // ---------------------------------------------------------------- the hash function

  function Hash(name: Name): (h: nat)
    ensures h < W32
  {
    if name == [] then 5381
    else (Hash(name[..|name| - 1]) * 33 + name[|name| - 1]) % W32
  }

  /** The polynomial in 33 whose coefficients are the bytes of the name. */
  function Polynomial(name: Name): nat {
    if name == [] then 5381
    else Polynomial(name[..|name| - 1]) * 33 + name[|name| - 1]
  }

  lemma {:induction false} HashIsPolynomial(name: Name)
    ensures Hash(name) == Polynomial(name) % W32
  {
    if name != [] {
      var rest, last := name[..|name| - 1], name[|name| - 1];
      HashIsPolynomial(rest);
      var p := Polynomial(rest);
      var q, r := p / W32, p % W32;
      var t := r * 33 + last;
      assert p * 33 + last == (q * 33 + t / W32) * W32 + t % W32;
      ModUnique(p * 33 + last, W32, q * 33 + t / W32, t % W32);
    }
  }

  method GnuHash(name: Name) returns (h: nat)
    ensures h == Hash(name)
  {
    h := 5381;
    for i := 0 to |name|
      invariant h == Hash(name[..i])
    {
      assert name[..i + 1][..i] == name[..i];
      h := (h * 33 + name[i]) % W32;
    }
    assert name[..|name|] == name;
  }

  // ---------------------------------------------------------------- the table

  datatype Header = Header(nbuckets: nat, symoffset: nat, bloomSize: nat, bloomShift: nat,
                           bloomBase: nat, bucketsBase: nat, chainsBase: nat)

  function ParseHeader(t: seq<nat>): Header
    requires |t| >= 4
  {
    Header(t[0], t[1], t[2], t[3], 4, 4 + 2 * t[2], 4 + 2 * t[2] + t[0])
  }

  function BloomWord(t: seq<nat>, i: nat): nat
    requires 5 + 2 * i < |t|
  {
    t[4 + 2 * i] + W32 * t[5 + 2 * i]
  }

  function FilterIndex(h: nat, size: nat): (i: nat)
    requires size > 0
    ensures i < size
  {
    (h / 64) % size
  }

  predicate PassesBloom(t: seq<nat>, h: nat)
    requires |t| >= 4 && t[2] > 0 && 4 + 2 * t[2] <= |t|
  {
    var word := BloomWord(t, FilterIndex(h, t[2]));
    Shr(word, h % 64) % 2 != 0 && Shr(word, Shr(h, t[3]) % 64) % 2 != 0
  }

  /** The table has room for its parts. */
  predicate Shaped(t: seq<nat>, n: nat) {
    && |t| >= 4 && t[0] > 0 && t[2] > 0 && t[1] <= n <= W32
    && 4 + 2 * t[2] + t[0] + (n - t[1]) <= |t|
  }

  function Bucket(t: seq<nat>, b: nat): nat
    requires |t| >= 4 && 4 + 2 * t[2] + b < |t|
  {
    t[4 + 2 * t[2] + b]
  }

  function Chain(t: seq<nat>, i: nat): nat
    requires |t| >= 4 && t[1] <= i && 4 + 2 * t[2] + t[0] + (i - t[1]) < |t|
  {
    t[4 + 2 * t[2] + t[0] + (i - t[1])]
  }

  function BucketOf(t: seq<nat>, d: Dynsym, i: nat): nat
    requires |t| >= 4 && t[0] > 0 && i < |d.symtab|
  {
    Hash(d.NameOf(i)) % t[0]
  }

  /** What the table says of symbol i: it passes the filter, its chain word is its hash but
      for the low bit, and that bit ends its bucket. */
  ghost predicate SymbolOk(t: seq<nat>, d: Dynsym, i: nat)
    requires Shaped(t, |d.symtab|) && t[1] <= i < |d.symtab|
  {
    var h := Hash(d.NameOf(i));
    && PassesBloom(t, h)
    && Chain(t, i) / 2 == h / 2
    && (Chain(t, i) % 2 == 1 <==> i + 1 == |d.symtab| || BucketOf(t, d, i + 1) != BucketOf(t, d, i))
  }

  /** Symbols are grouped by bucket, and a bucket leads to the first of its group. */
  ghost predicate BucketOk(t: seq<nat>, d: Dynsym, b: nat)
    requires Shaped(t, |d.symtab|) && b < t[0]
  {
    var k := Bucket(t, b);
    if k == 0 then forall i | t[1] <= i < |d.symtab| :: BucketOf(t, d, i) != b
    else
      && t[1] <= k < |d.symtab| && BucketOf(t, d, k) == b
      && (forall i | t[1] <= i < |d.symtab| && BucketOf(t, d, i) == b :: k <= i)
      && (forall i, j | k <= j < i < |d.symtab| && BucketOf(t, d, i) == b :: BucketOf(t, d, j) == b)
  }

  ghost predicate WellFormed(t: seq<nat>, d: Dynsym) {
    && Shaped(t, |d.symtab|)
    && (forall i | t[1] <= i < |d.symtab| :: SymbolOk(t, d, i))
    && (forall b | 0 <= b < t[0] :: BucketOk(t, d, b))
  }

  // ---------------------------------------------------------------- lookup

  method CheckBloomFilter(h: nat, t: seq<nat>, header: Header) returns (ok: bool)
    requires |t| >= 4 && t[2] > 0 && 4 + 2 * t[2] <= |t| && header == ParseHeader(t)
    ensures ok <==> PassesBloom(t, h)
    ensures ok <==>
            && Bit(t[4 + 2 * (h / 64 % t[2])] + 0x1_0000_0000 * t[5 + 2 * (h / 64 % t[2])], h % 64)
            && Bit(t[4 + 2 * (h / 64 % t[2])] + 0x1_0000_0000 * t[5 + 2 * (h / 64 % t[2])], h / Pow2(t[3]) % 64)
  {
    hide Shr, And, FilterIndex, Bit, Pow2;
    var i := h / 64 % header.bloomSize;
    IndexIs(h, t[2]);
    var bloomWord := t[header.bloomBase + 2 * i] + W32 * t[header.bloomBase + 2 * i + 1];
    var bit1 := And(h, 63);
    var bit2 := And(Shr(h, header.bloomShift), 63);
    Low6(h);
    Low6(Shr(h, header.bloomShift));
    ok := And(Shr(bloomWord, bit1), 1) != 0 && And(Shr(bloomWord, bit2), 1) != 0;
    Low1(Shr(bloomWord, bit1));
    Low1(Shr(bloomWord, bit2));
    ShrIs(h, header.bloomShift);
    BitIs(bloomWord, bit1);
    BitIs(bloomWord, bit2);
  }

  lemma IndexIs(h: nat, size: nat)
    requires size > 0
    ensures FilterIndex(h, size) == h / 64 % size < size
  {
  }

  lemma BitIs(x: nat, k: nat)
    ensures Bit(x, k) <==> Shr(x, k) % 2 != 0
  {
    ShrIs(x, k);
  }

  lemma Low6(x: nat)
    ensures And(x, 63) == x % 64
  {
    assert Pow2(6) == 64;
    AndMask(x, 6);
  }

  lemma Low1(x: nat)
    ensures And(x, 1) == x % 2 && AndNot(x, 1) == x - x % 2
  {
    assert Pow2(1) == 2;
    AndMask(x, 1);
  }

  /** Comparing without the low bit is comparing halves. */
  lemma LowBitIgnored(x: nat, y: nat)
    ensures AndNot(x, 1) == AndNot(y, 1) <==> x / 2 == y / 2
  {
    Low1(x);
    Low1(y);
  }

  method SearchHashChain(name: Name, h: nat, bucket: nat, t: seq<nat>, header: Header, d: Dynsym) returns (r: Option<Symbol>)
    requires WellFormed(t, d) && header == ParseHeader(t)
    requires h == Hash(name) && bucket == Bucket(t, h % t[0]) != 0
    ensures var k := d.FirstFrom(t[1], name);
            r == if k < |d.symtab| then Some(Unrelocated(d.symtab[k], name)) else None
  {
    hide Hash, CString, PassesBloom, And, AndNot;
    var symIdx := bucket;
    ghost var b := h % t[0];
    assert BucketOk(t, d, b);
    while true
      invariant t[1] <= bucket <= symIdx < |d.symtab| && BucketOf(t, d, symIdx) == b
      invariant forall i | bucket <= i < symIdx :: d.NameOf(i) != name
      decreases |d.symtab| - symIdx
    {
      assert SymbolOk(t, d, symIdx);
      var chainVal := t[header.chainsBase + (symIdx - header.symoffset)];
      LowBitIgnored(chainVal, h);
      if AndNot(chainVal, 1) == AndNot(h, 1) {
        var sym := d.symtab[symIdx];
        var symName := ReadCStringMem(d.strtab, sym.name, d.strtabSize);
        if symName == name {
          OutsideBucket(t, d, name, bucket, symIdx);
          return Some(Symbol(name, sym.value, sym.size, sym.info / 16, sym.info % 16, sym.shndx, 0, []));
        }
      }
      Low1(chainVal);
      if And(chainVal, 1) != 0 {
        break;
      }
      symIdx := symIdx + 1;
    }
    ChainEnd(t, d, name, bucket, symIdx);
    return None;
  }

  /** Nothing of that name stands before its bucket's group. */
  lemma OutsideBucket(t: seq<nat>, d: Dynsym, name: Name, bucket: nat, k: nat)
    requires WellFormed(t, d) && bucket == Bucket(t, Hash(name) % t[0]) != 0 && t[1] <= bucket <= k < |d.symtab|
    requires d.NameOf(k) == name && forall i | bucket <= i < k :: d.NameOf(i) != name
    ensures d.FirstFrom(t[1], name) == k
  {
    var b := Hash(name) % t[0];
    assert BucketOk(t, d, b);
    forall i | t[1] <= i < bucket ensures d.NameOf(i) != name {
      assert BucketOf(t, d, i) != b;
    }
    d.FirstFromIs(t[1], name, k);
  }

  /** Nothing of that name stands after the end of the chain. */
  lemma ChainEnd(t: seq<nat>, d: Dynsym, name: Name, bucket: nat, last: nat)
    requires WellFormed(t, d) && bucket == Bucket(t, Hash(name) % t[0]) != 0 && t[1] <= bucket <= last < |d.symtab|
    requires BucketOf(t, d, last) == Hash(name) % t[0] && Chain(t, last) % 2 == 1
    requires forall i | bucket <= i <= last :: d.NameOf(i) != name
    ensures d.FirstFrom(t[1], name) == |d.symtab|
  {
    hide Hash, CString, PassesBloom;
    var b := Hash(name) % t[0];
    assert BucketOk(t, d, b) && SymbolOk(t, d, last);
    forall i | t[1] <= i < |d.symtab| && !(bucket <= i <= last) ensures d.NameOf(i) != name {
      assert i > last ==> BucketOf(t, d, last + 1) != b;
      assert BucketOf(t, d, i) != b;
    }
    d.FirstFromIs(t[1], name, |d.symtab|);
  }

  /** In a well-formed table the lookup is the linear scan from symoffset: the first symbol
      of that name, and an error exactly if there is none.  No table is an error. */
  method GnuLookup(name: Name, table: Option<seq<nat>>, d: Dynsym) returns (r: Option<Symbol>)
    requires table.Some? ==> WellFormed(table.value, d)
    ensures table == None ==> r == None
    ensures table.Some? ==>
              var k := d.FirstFrom(table.value[1], name);
              r == if k < |d.symtab| then Some(Unrelocated(d.symtab[k], name)) else None
  {
    if table == None {
      return None;
    }
    var t := table.value;
    var header := ParseHeader(t);
    var h := GnuHash(name);
    var passes := CheckBloomFilter(h, t, header);
    if !passes {
      NotFiltered(t, d, name);
      return None;
    }
    var bucket := t[header.bucketsBase + h % header.nbuckets];
    assert BucketOk(t, d, h % t[0]);
    if bucket == 0 {
      EmptyBucket(t, d, name);
      return None;
    }
    r := SearchHashChain(name, h, bucket, t, header, d);
  }

  /** The Bloom filter has no false negatives. */
  lemma NotFiltered(t: seq<nat>, d: Dynsym, name: Name)
    requires WellFormed(t, d) && !PassesBloom(t, Hash(name))
    ensures d.FirstFrom(t[1], name) == |d.symtab|
  {
    forall i | t[1] <= i < |d.symtab| ensures d.NameOf(i) != name {
      assert SymbolOk(t, d, i);
    }
    d.FirstFromIs(t[1], name, |d.symtab|);
  }

  lemma EmptyBucket(t: seq<nat>, d: Dynsym, name: Name)
    requires WellFormed(t, d) && Bucket(t, Hash(name) % t[0]) == 0
    ensures d.FirstFrom(t[1], name) == |d.symtab|
  {
    assert BucketOk(t, d, Hash(name) % t[0]);
    forall i | t[1] <= i < |d.symtab| ensures d.NameOf(i) != name {
      assert BucketOf(t, d, i) != Hash(name) % t[0];
    }
    d.FirstFromIs(t[1], name, |d.symtab|);
  }

  // ---------------------------------------------------------------- every symbol table has one

  /** The hash of symbol i with the low bit set for the last symbol only. */
  function ChainWord(d: Dynsym, i: nat): nat
    requires i < |d.symtab|
  {
    2 * (Hash(d.NameOf(i)) / 2) + (if i + 1 == |d.symtab| then 1 else 0)
  }

  /** One bucket, and a filter that lets everything pass. */
  function OneBucket(d: Dynsym, off: nat): seq<nat>
    requires off <= |d.symtab|
  {
    var head: seq<nat> := [1, off, 1, 0, W32 - 1, W32 - 1, if off < |d.symtab| then off else 0];
    var tail := seq<nat>(|d.symtab| - off, i requires 0 <= i < |d.symtab| - off => ChainWord(d, off + i));
    head + tail
  }

  lemma {:induction false} AllOnes(k: nat, b: nat)
    requires b < k
    ensures Shr(Pow2(k) - 1, b) % 2 == 1
    decreases k
  {
    Pow2Step(k);
    if b > 0 {
      AllOnes(k - 1, b - 1);
      assert (Pow2(k) - 1) / 2 == Pow2(k - 1) - 1;
    }
  }

  lemma W64Pow()
    ensures Pow2(64) == W64
  {
    Pow32();
    PowAdd(32, 32);
  }

  /** For every dynamic symbol table and every symoffset but 0 there is a well-formed hash
      table, so the lookup theorem is about every list of symbols. */
  lemma OneBucketIsWellFormed(d: Dynsym, off: nat)
    requires off <= |d.symtab| <= W32 && (off == 0 ==> d.symtab == [])
    ensures WellFormed(OneBucket(d, off), d)
  {
    hide Hash, CString, PassesBloom;
    var t := OneBucket(d, off);
    forall i | off <= i < |d.symtab| ensures SymbolOk(t, d, i) {
      PassesAll(t, Hash(d.NameOf(i)));
      assert Chain(t, i) == t[7 + (i - off)] == ChainWord(d, i);
      Halves(Hash(d.NameOf(i)), i + 1 == |d.symtab|);
    }
    forall b | 0 <= b < 1 ensures BucketOk(t, d, b) {
      assert Bucket(t, 0) == t[6];
    }
  }

  lemma Halves(h: nat, last: bool)
    ensures var c := 2 * (h / 2) + (if last then 1 else 0);
            c / 2 == h / 2 && (c % 2 == 1 <==> last)
  {
  }

  lemma PassesAll(t: seq<nat>, h: nat)
    requires |t| >= 6 && t[2] == 1 && t[4] == t[5] == W32 - 1
    ensures PassesBloom(t, h)
  {
    assert BloomWord(t, 0) == W64 - 1;
    W64Pow();
    AllOnes(64, h % 64);
    AllOnes(64, Shr(h, t[3]) % 64);
  }

  // ---------------------------------------------------------------- any number of buckets

  /** Some symbol's hash asks for this bit of filter word j. */
  ghost predicate Asked(d: Dynsym, off: nat, size: nat, shift: nat, j: nat, bit: nat)
    requires size > 0
  {
    exists i | off <= i < |d.symtab| ::
      var h := Hash(d.NameOf(i));
      FilterIndex(h, size) == j && (h % 64 == bit || Shr(h, shift) % 64 == bit)
  }

  /** Filter word j from this bit on, made of the bits that are asked for. */
  ghost function FilterBits(d: Dynsym, off: nat, size: nat, shift: nat, j: nat, bit: nat): nat
    requires size > 0
    decreases 64 - bit
  {
    if bit >= 64 then 0
    else (if Asked(d, off, size, shift, j, bit) then 1 else 0) + 2 * FilterBits(d, off, size, shift, j, bit + 1)
  }

  lemma {:induction false} FilterBitsAt(d: Dynsym, off: nat, size: nat, shift: nat, j: nat, bit: nat, k: nat)
    requires size > 0 && bit + k < 64
    ensures Shr(FilterBits(d, off, size, shift, j, bit), k) % 2
         == if Asked(d, off, size, shift, j, bit + k) then 1 else 0
    decreases k
  {
    hide Asked, Hash, CString;
    if k > 0 {
      var w := FilterBits(d, off, size, shift, j, bit);
      ShrStep(w, k);
      assert w / 2 == FilterBits(d, off, size, shift, j, bit + 1);
      FilterBitsAt(d, off, size, shift, j, bit + 1, k - 1);
    }
  }

  /** The two halves of the filter words, one after the other. */
  ghost function FilterHalf(d: Dynsym, off: nat, size: nat, shift: nat, k: nat): nat
    requires size > 0
  {
    var w := FilterBits(d, off, size, shift, k / 2, 0);
    if k % 2 == 0 then w % W32 else w / W32
  }

  function BucketIndex(h: nat, nbuckets: nat): nat
    requires nbuckets > 0
  {
    h % nbuckets
  }

  function InBucket(d: Dynsym, nbuckets: nat, i: nat): nat
    requires nbuckets > 0 && i < |d.symtab|
  {
    BucketIndex(Hash(d.NameOf(i)), nbuckets)
  }

  /** The first symbol of bucket b from i on, 0 for none. */
  function FirstIn(d: Dynsym, nbuckets: nat, b: nat, i: nat): (k: nat)
    requires nbuckets > 0 && i <= |d.symtab|
    ensures k < |d.symtab| || k == 0
    ensures k != 0 ==> i <= k
    decreases |d.symtab| - i
  {
    if i == |d.symtab| then 0
    else if InBucket(d, nbuckets, i) == b then i
    else FirstIn(d, nbuckets, b, i + 1)
  }

  lemma {:induction false} FirstInMeans(d: Dynsym, nbuckets: nat, b: nat, i: nat)
    requires nbuckets > 0 && 0 < i <= |d.symtab|
    ensures var k := FirstIn(d, nbuckets, b, i);
            && (k != 0 ==> InBucket(d, nbuckets, k) == b && forall j | i <= j < k :: InBucket(d, nbuckets, j) != b)
            && (k == 0 ==> forall j | i <= j < |d.symtab| :: InBucket(d, nbuckets, j) != b)
    decreases |d.symtab| - i
  {
    hide InBucket;
    if i < |d.symtab| && InBucket(d, nbuckets, i) != b {
      FirstInMeans(d, nbuckets, b, i + 1);
    }
  }

  /** The hash of symbol i, with the low bit set at the end of its bucket. */
  function ChainWordIn(d: Dynsym, nbuckets: nat, i: nat): nat
    requires nbuckets > 0 && i < |d.symtab|
  {
    var last := i + 1 == |d.symtab| || InBucket(d, nbuckets, i + 1) != InBucket(d, nbuckets, i);
    2 * (Hash(d.NameOf(i)) / 2) + (if last then 1 else 0)
  }

  /** The table a linker writes. */
  ghost function Built(d: Dynsym, off: nat, nbuckets: nat, size: nat, shift: nat): seq<nat>
    requires off <= |d.symtab| && nbuckets > 0 && size > 0
  {
    [nbuckets, off, size, shift]
    + seq<nat>(2 * size, k requires 0 <= k < 2 * size => FilterHalf(d, off, size, shift, k))
    + seq<nat>(nbuckets, b requires 0 <= b < nbuckets => FirstIn(d, nbuckets, b, off))
    + seq<nat>(|d.symtab| - off, i requires 0 <= i < |d.symtab| - off => ChainWordIn(d, nbuckets, off + i))
  }

  /** A linker sorts the symbols so that those of a bucket stand together. */
  ghost predicate Grouped(d: Dynsym, off: nat, nbuckets: nat)
    requires nbuckets > 0
  {
    forall i, j, k | off <= i < j < k < |d.symtab| && InBucket(d, nbuckets, i) == InBucket(d, nbuckets, k) ::
      InBucket(d, nbuckets, j) == InBucket(d, nbuckets, i)
  }

  lemma BuiltWords(d: Dynsym, off: nat, nbuckets: nat, size: nat, shift: nat)
    requires off <= |d.symtab| <= W32 && nbuckets > 0 && size > 0
    ensures var t := Built(d, off, nbuckets, size, shift);
            && Shaped(t, |d.symtab|) && t[0] == nbuckets && t[1] == off && t[2] == size && t[3] == shift
            && (forall j | 0 <= j < size :: BloomWord(t, j) == FilterBits(d, off, size, shift, j, 0))
            && (forall b | 0 <= b < nbuckets :: Bucket(t, b) == FirstIn(d, nbuckets, b, off))
            && (forall i | off <= i < |d.symtab| :: Chain(t, i) == ChainWordIn(d, nbuckets, i))
  {
    hide Hash, CString, FilterBits, FirstIn, ChainWordIn;
    var t := Built(d, off, nbuckets, size, shift);
    forall j | 0 <= j < size ensures BloomWord(t, j) == FilterBits(d, off, size, shift, j, 0) {
      assert t[4 + 2 * j] == FilterHalf(d, off, size, shift, 2 * j);
      assert t[5 + 2 * j] == FilterHalf(d, off, size, shift, 2 * j + 1);
      assert 2 * j / 2 == j && (2 * j + 1) / 2 == j;
    }
  }

  /** For every table of grouped symbols, number of buckets, filter size and shift, the table
      with a filter of exactly the bits that are asked for is well formed. */
  lemma BuiltIsWellFormed(d: Dynsym, off: nat, nbuckets: nat, size: nat, shift: nat)
    requires off <= |d.symtab| <= W32 && (off == 0 ==> d.symtab == []) && nbuckets > 0 && size > 0
    requires Grouped(d, off, nbuckets)
    ensures WellFormed(Built(d, off, nbuckets, size, shift), d)
  {
    hide Hash, CString, Built, FilterBits;
    var t := Built(d, off, nbuckets, size, shift);
    BuiltWords(d, off, nbuckets, size, shift);
    forall i | off <= i < |d.symtab| ensures SymbolOk(t, d, i) {
      BuiltPasses(d, off, nbuckets, size, shift, i);
      Halves(Hash(d.NameOf(i)), i + 1 == |d.symtab| || InBucket(d, nbuckets, i + 1) != InBucket(d, nbuckets, i));
    }
    forall b | 0 <= b < nbuckets ensures BucketOk(t, d, b) {
      BuiltBucket(d, off, nbuckets, size, shift, b);
    }
  }

  lemma BuiltPasses(d: Dynsym, off: nat, nbuckets: nat, size: nat, shift: nat, i: nat)
    requires off <= i < |d.symtab| <= W32 && nbuckets > 0 && size > 0
    ensures var t := Built(d, off, nbuckets, size, shift);
            |t| >= 4 && t[2] > 0 && 4 + 2 * t[2] <= |t| && PassesBloom(t, Hash(d.NameOf(i)))
  {
    hide Hash, CString, Built, FilterBits;
    BuiltWords(d, off, nbuckets, size, shift);
    var h := Hash(d.NameOf(i));
    var j := FilterIndex(h, size);
    assert Asked(d, off, size, shift, j, h % 64);
    assert Asked(d, off, size, shift, j, Shr(h, shift) % 64);
    FilterBitsAt(d, off, size, shift, j, 0, h % 64);
    FilterBitsAt(d, off, size, shift, j, 0, Shr(h, shift) % 64);
  }

  lemma BuiltBucket(d: Dynsym, off: nat, nbuckets: nat, size: nat, shift: nat, b: nat)
    requires off <= |d.symtab| <= W32 && (off == 0 ==> d.symtab == []) && nbuckets > 0 && size > 0
    requires Grouped(d, off, nbuckets) && b < nbuckets
    ensures Shaped(Built(d, off, nbuckets, size, shift), |d.symtab|)
    ensures Built(d, off, nbuckets, size, shift)[0] == nbuckets && BucketOk(Built(d, off, nbuckets, size, shift), d, b)
  {
    hide Hash, CString, Built, FirstIn;
    BuiltWords(d, off, nbuckets, size, shift);
    var t := Built(d, off, nbuckets, size, shift);
    assert forall i | off <= i < |d.symtab| :: BucketOf(t, d, i) == InBucket(d, nbuckets, i);
    hide BucketOf, InBucket;
    var k := FirstIn(d, nbuckets, b, off);
    if off > 0 {
      FirstInMeans(d, nbuckets, b, off);
    }
    assert Bucket(t, b) == k;
  }
}
