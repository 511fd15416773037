/** The parser of ld.so.cache (dl/ldcache.go): a header of 88 bytes, entries of 24 bytes, a
    string table.  The encoder is the one of dl/ldcache_test.go. */
module LdCache {
  import opened Wrappers
  import opened Bits
  import opened Words

  type Name = seq<Byte>

  const HEADER: nat := 88
  const ENTRY: nat := 24

  const MAGIC: seq<Byte> :=
    [103, 108, 105, 98, 99, 45, 108, 100, 46, 115, 111, 46, 99, 97, 99, 104, 101, 49, 46, 49]

  /** The data begins with these characters. */
  predicate BeginsWith(data: seq<Byte>, text: string) {
    |data| >= |text| && forall i | 0 <= i < |text| :: data[i] == text[i] as nat
  }

  lemma MagicIs(data: seq<Byte>)
    requires |data| >= 20
    ensures data[..20] == MAGIC <==> BeginsWith(data, "glibc-ld.so.cache1.1")
  {
    var text := "glibc-ld.so.cache1.1";
    assert |text| == 20 && forall i | 0 <= i < 20 :: MAGIC[i] == text[i] as nat;
    assert forall i | 0 <= i < 20 :: data[i] == data[..20][i];
    if BeginsWith(data, text) {
      assert data[..20] == MAGIC;
    }
  }

  datatype Error = FileTooSmall | InvalidMagic | Truncated | UnreadableEntry

  datatype Result<T> = Ok(value: T) | Err(error: Error)

  datatype CacheEntry = CacheEntry(flags: nat, keyOffset: nat, valueOffset: nat)

  function U32(data: seq<Byte>, off: nat): nat
    requires off + 4 <= |data|
  {
    Word(data[off..off + 4])
  }

  // ---------------------------------------------------------------- what an entry means

  function DecodeEntry(bytes: seq<Byte>): CacheEntry
    requires |bytes| == ENTRY
  {
    CacheEntry(U32(bytes, 0), U32(bytes, 4), U32(bytes, 8))
  }

  /** Type byte 3 is libc6; architecture byte 3 is x86-64. */
  predicate Included(e: CacheEntry) {
    e.flags % 256 == 3 && e.flags / 256 % 256 in {0, 3}
  }

  /** The index of the first zero byte. */
  function IndexByte(data: seq<Byte>): (n: nat)
    ensures n <= |data| && 0 !in data[..n] && (n < |data| ==> data[n] == 0)
  {
    if data == [] || data[0] == 0 then 0
    else
      var n := IndexByte(data[1..]);
      assert data[..n + 1] == [data[0]] + data[1..][..n];
      n + 1
  }

  function StringAt(table: seq<Byte>, off: nat): Option<Name> {
    if off >= |table| || IndexByte(table[off..]) == |table| - off then None
    else Some(table[off..off + IndexByte(table[off..])])
  }

  datatype Pair = Pair(soname: Name, path: Name)

  /** The pair that an entry adds, if it is included and both strings are there. */
  function PairOf(table: seq<Byte>, e: CacheEntry): Option<Pair> {
    if !Included(e) then None
    else match (StringAt(table, e.keyOffset), StringAt(table, e.valueOffset))
         case (Some(k), Some(v)) => Some(Pair(k, v))
         case _ => None
  }

  type Entries = map<Name, Name>

  function Add(m: Entries, p: Option<Pair>): Entries {
    if p.Some? then m[p.value.soname := p.value.path] else m
  }

  function EntryBytes(data: seq<Byte>, i: nat): seq<Byte>
    requires HEADER + ENTRY * i + ENTRY <= |data|
  {
    data[HEADER + ENTRY * i..HEADER + ENTRY * i + ENTRY]
  }

  /** The pair of entry i of a file with n entries. */
  function PairAt(data: seq<Byte>, n: nat, i: nat): Option<Pair>
    requires i < n && HEADER + ENTRY * n <= |data|
  {
    PairOf(data[HEADER + ENTRY * n..], DecodeEntry(EntryBytes(data, i)))
  }

  /** What each of the n entries adds. */
  function Pairs(data: seq<Byte>, n: nat): (ps: seq<Option<Pair>>)
    requires HEADER + ENTRY * n <= |data|
    ensures |ps| == n
  {
    seq(n, i requires 0 <= i < n => PairAt(data, n, i))
  }

  /** All pairs, a later one replacing an earlier one of the same soname. */
  function Collect(ps: seq<Option<Pair>>): Entries {
    if ps == [] then map[] else Add(Collect(ps[..|ps| - 1]), ps[|ps| - 1])
  }

  function Parsed(data: seq<Byte>): Result<Entries> {
    if |data| < HEADER then Err(FileTooSmall)
    else if !BeginsWith(data, "glibc-ld.so.cache1.1") then Err(InvalidMagic)
    else
      var n := U32(data, 20);
      if n == 0 then Ok(map[])
      else if HEADER + ENTRY * n > |data| then Err(Truncated)
      else Ok(Collect(Pairs(data, n)))
  }

  /** Pair j is the last one for soname k. */
  ghost predicate Wins(ps: seq<Option<Pair>>, k: Name, v: Name, j: nat) {
    && j < |ps| && ps[j] == Some(Pair(k, v))
    && forall l | j < l < |ps| :: ps[l].Some? ==> ps[l].value.soname != k
  }

  /** What is collected for a soname is the path of its last pair. */
  lemma {:induction false} LastWins(ps: seq<Option<Pair>>, k: Name, v: Name)
    ensures k in Collect(ps) && Collect(ps)[k] == v <==> exists j: nat :: Wins(ps, k, v, j)
  {
    if ps != [] {
      var n := |ps| - 1;
      LastWins(ps[..n], k, v);
      if ps[n].Some? && ps[n].value.soname == k {
        if ps[n].value.path == v {
          assert Wins(ps, k, v, n);
        }
        forall j: nat | Wins(ps, k, v, j) ensures j == n {
        }
      } else {
        forall j: nat ensures Wins(ps, k, v, j) <==> Wins(ps[..n], k, v, j) {
        }
      }
    }
  }

  /** For every file that is parsed, a soname has the path of its last included entry. */
  lemma ParsedIsLastWins(data: seq<Byte>, k: Name, v: Name)
    requires Parsed(data).Ok? && U32(data, 20) > 0
    ensures k in Parsed(data).value && Parsed(data).value[k] == v <==>
            exists j: nat :: Wins(Pairs(data, U32(data, 20)), k, v, j)
  {
    LastWins(Pairs(data, U32(data, 20)), k, v);
  }

  lemma NothingCollected(ps: seq<Option<Pair>>)
    ensures Collect(ps[..0]) == map[]
  {
  }

  lemma CollectStep(ps: seq<Option<Pair>>, i: nat)
    requires i < |ps|
    ensures Collect(ps[..i + 1]) == Add(Collect(ps[..i]), ps[i])
  {
    assert ps[..i + 1][..i] == ps[..i];
  }

  // ---------------------------------------------------------------- slices

  lemma SliceOfSlice(s: seq<Byte>, a: nat, b: nat, c: nat, d: nat)
    requires a <= b <= |s| && c <= d <= b - a
    ensures s[a..b][c..d] == s[a + c..a + d]
  {
    forall k | 0 <= k < d - c ensures s[a..b][c..d][k] == s[a + c..a + d][k] {
      assert s[a..b][c + k] == s[a + (c + k)];
    }
  }

  lemma SliceOfFront(s: seq<Byte>, t: seq<Byte>, a: nat, b: nat)
    requires a <= b <= |s|
    ensures (s + t)[a..b] == s[a..b]
  {
  }

  lemma SliceOfMiddle(h: seq<Byte>, e: seq<Byte>, t: seq<Byte>, a: nat, b: nat)
    requires a <= b <= |e|
    ensures (h + e + t)[|h| + a..|h| + b] == e[a..b]
    ensures (h + e + t)[|h| + |e|..] == t
  {
  }

  // ---------------------------------------------------------------- the parser

  class Reader {
    const data: seq<Byte>
    var pos: nat

    constructor (data: seq<Byte>)
      ensures this.data == data && pos == 0
    {
      this.data, pos := data, 0;
    }

    /** binary.Read of a cacheEntry; no entry is the end of the data. */
    method ReadEntry() returns (e: Option<CacheEntry>)
      modifies this
      ensures e.Some? <==> old(pos) + ENTRY <= |data|
      ensures e.Some? ==> pos == old(pos) + ENTRY && e.value == DecodeEntry(data[old(pos)..old(pos) + ENTRY])
    {
      if pos + ENTRY > |data| {
        return None;
      }
      var b := data[pos..pos + ENTRY];
      pos := pos + ENTRY;
      return Some(CacheEntry(U32(b, 0), U32(b, 4), U32(b, 8)));
    }
  }

  method ShouldIncludeEntry(e: CacheEntry) returns (r: bool)
    ensures r <==> Included(e)
  {
    LowByte(e.flags);
    HighByte(e.flags);
    if And(e.flags, 0x00ff) != 0x0003 {
      return false;
    }
    var arch := And(e.flags, 0xff00);
    return arch == 0 || arch == 0x0300;
  }

  lemma Pow8()
    ensures Pow2(8) == 256
  {
  }

  lemma LowByte(x: nat)
    ensures And(x, 0x00ff) == x % 256
  {
    Pow8();
    AndMask(x, 8);
  }

  lemma HighByte(x: nat)
    ensures And(x, 0xff00) == x / 256 % 256 * 256
  {
    hide And, Pow2;
    Pow8();
    AndHigh(x, 255, 8);
    ShrBounds(x, 8);
    LowByte(x / 256);
    assert Shr(x, 8) == x / 256;
  }

  method ExtractString(data: seq<Byte>, offset: nat) returns (r: Option<Name>)
    ensures r == StringAt(data, offset)
    ensures forall s :: r == Some(s) <==> IsCString(data, offset, s)
  {
    forall s ensures StringAt(data, offset) == Some(s) <==> IsCString(data, offset, s) {
      StringMeans(data, offset, s);
    }
    if offset >= |data| {
      return None;
    }
    var end := IndexByte(data[offset..]);
    if end == |data[offset..]| {
      return None;
    }
    return Some(data[offset..offset + end]);
  }

  class Cache {
    var entries: Entries

    constructor ()
      ensures entries == map[]
    {
      entries := map[];
    }

    method ReadCacheEntry(reader: Reader, stringTable: seq<Byte>) returns (ok: bool)
      modifies this, reader
      ensures ok <==> old(reader.pos) + ENTRY <= |reader.data|
      ensures ok ==>
                && reader.pos == old(reader.pos) + ENTRY
                && entries == Add(old(entries), PairOf(stringTable, DecodeEntry(reader.data[old(reader.pos)..reader.pos])))
      ensures !ok ==> entries == old(entries)
    {
      hide U32, Included;
      var entry := reader.ReadEntry();
      if entry == None {
        return false;
      }
      ok := true;
      var included := ShouldIncludeEntry(entry.value);
      if !included {
        return;
      }
      var soname := ExtractString(stringTable, entry.value.keyOffset);
      if soname == None {
        return;
      }
      var path := ExtractString(stringTable, entry.value.valueOffset);
      if path == None {
        return;
      }
      entries := entries[soname.value := path.value];
    }
  }

  method ValidateCacheData(data: seq<Byte>) returns (r: Option<Error>)
    ensures r == if |data| < HEADER then Some(FileTooSmall)
                 else if !BeginsWith(data, "glibc-ld.so.cache1.1") then Some(InvalidMagic) else None
  {
    if |data| < HEADER {
      return Some(FileTooSmall);
    }
    MagicIs(data);
    if !(MAGIC <= data) {
      assert data[..20] != MAGIC;
      return Some(InvalidMagic);
    }
    return None;
  }

  method ParseCacheEntries(data: seq<Byte>, numLibs: nat) returns (r: Result<Entries>)
    requires |data| >= HEADER
    ensures r == if HEADER + ENTRY * numLibs > |data| then Err(Truncated) else Ok(Collect(Pairs(data, numLibs)))
  {
    hide Collect, Add, PairOf, DecodeEntry;
    var entriesSize := numLibs * ENTRY;
    var stringsOffset := HEADER + entriesSize;
    if stringsOffset > |data| {
      return Err(Truncated);
    }
    var stringTable := data[stringsOffset..];
    var cache := new Cache();
    var entryData := data[HEADER..HEADER + entriesSize];
    var reader := new Reader(entryData);
    ghost var ps := Pairs(data, numLibs);
    NothingCollected(ps);
    for i := 0 to numLibs
      invariant fresh(cache) && fresh(reader) && reader.data == entryData
      invariant reader.pos == ENTRY * i && cache.entries == Collect(ps[..i])
    {
      SliceOfSlice(data, HEADER, HEADER + entriesSize, ENTRY * i, ENTRY * i + ENTRY);
      CollectStep(ps, i);
      var ok := cache.ReadCacheEntry(reader, stringTable);
      if !ok {
        return Err(UnreadableEntry);
      }
    }
    assert ps[..numLibs] == ps;
    return Ok(cache.entries);
  }

  /** For every file, the parser stays inside it and returns the last-wins scan of its
      included entries, or the error that fits. */
  method ParseCache(data: seq<Byte>) returns (r: Result<Entries>)
    ensures r == Parsed(data)
  {
    var invalid := ValidateCacheData(data);
    if invalid.Some? {
      return Err(invalid.value);
    }
    var numLibs := U32(data, 20);
    if numLibs == 0 {
      return Ok(map[]);
    }
    r := ParseCacheEntries(data, numLibs);
  }

  // ---------------------------------------------------------------- the encoder

  function StringTable(strs: seq<Pair>): seq<Byte> {
    if strs == [] then []
    else StringTable(strs[..|strs| - 1]) + strs[|strs| - 1].soname + [0] + strs[|strs| - 1].path + [0]
  }

  function IndexOf(strs: seq<Pair>, soname: Name): (i: nat)
    ensures i <= |strs| && (i < |strs| ==> strs[i].soname == soname)
    ensures (exists p <- strs :: p.soname == soname) ==> i < |strs|
  {
    if strs == [] || strs[0].soname == soname then 0 else 1 + IndexOf(strs[1..], soname)
  }

  function KeyOffset(strs: seq<Pair>, soname: Name): nat {
    |StringTable(strs[..IndexOf(strs, soname)])|
  }

  /** The flags of an entry and its pair. */
  datatype Line = Line(flags: nat, pair: Pair)
  {
    /** libc6 for x86-64 or for no architecture in particular; the test data has 0x0303 only */
    predicate Accepted() {
      flags % 0x1_0000 == 0x0303 || flags % 0x1_0000 == 0x0003
    }
  }

  /** With zeros for the OS version and the hardware capabilities. */
  function EncodeEntry(strs: seq<Pair>, e: Line): (s: seq<Byte>)
    ensures |s| == ENTRY
  {
    var p := e.pair;
    LittleEndian(e.flags, 4) + LittleEndian(KeyOffset(strs, p.soname), 4)
    + LittleEndian(KeyOffset(strs, p.soname) + |p.soname| + 1, 4) + LittleEndian(0, 12)
  }

  function EncodeEntries(strs: seq<Pair>, ents: seq<Line>): (s: seq<Byte>)
    ensures |s| == ENTRY * |ents|
  {
    if ents == [] then [] else EncodeEntries(strs, ents[..|ents| - 1]) + EncodeEntry(strs, ents[|ents| - 1])
  }

  function EncodeHeader(n: nat, stringsLen: nat): (s: seq<Byte>)
    ensures |s| == HEADER
  {
    MAGIC + LittleEndian(n, 4) + LittleEndian(stringsLen, 4) + LittleEndian(0, 60)
  }

  /** The strings are laid out in one order of the map, the entries in another. */
  function Encode(strs: seq<Pair>, ents: seq<Line>): seq<Byte> {
    EncodeHeader(|ents|, |StringTable(strs)|) + EncodeEntries(strs, ents) + StringTable(strs)
  }

  /** `ps` lists the map m, each soname once. */
  ghost predicate Lists(ps: seq<Pair>, m: Entries) {
    && (forall p <- ps :: p.soname in m && m[p.soname] == p.path)
    && (forall k <- m :: Pair(k, m[k]) in ps)
    && (forall i, j | 0 <= i < j < |ps| :: ps[i].soname != ps[j].soname)
  }

  /** The accepted lines are those of the map m. */
  ghost predicate Describe(ents: seq<Line>, m: Entries) {
    && (forall e <- ents :: e.flags < W32)
    && (forall e <- ents | e.Accepted() :: e.pair.soname in m && m[e.pair.soname] == e.pair.path)
    && (forall k <- m :: exists e <- ents :: e.Accepted() && e.pair == Pair(k, m[k]))
  }

  ghost predicate NulFree(m: Entries) {
    forall k <- m :: 0 !in k && 0 !in m[k]
  }

  // ---------------------------------------------------------------- round trip

  lemma {:induction false} TableGrows(strs: seq<Pair>, i: nat)
    requires i <= |strs|
    ensures StringTable(strs[..i]) <= StringTable(strs)
    decreases |strs|
  {
    if i < |strs| {
      var n := |strs| - 1;
      TableGrows(strs[..n], i);
      assert strs[..n][..i] == strs[..i];
      var p := strs[n];
      assert StringTable(strs) == StringTable(strs[..n]) + (p.soname + [0] + p.path + [0]);
    } else {
      assert strs[..i] == strs;
    }
  }

  /** Where the strings of pair i stand. */
  lemma StringsAt(strs: seq<Pair>, i: nat)
    requires i < |strs|
    ensures var t, off, p := StringTable(strs), |StringTable(strs[..i])|, strs[i];
            && off + |p.soname| + |p.path| + 2 <= |t|
            && t[off..off + |p.soname|] == p.soname && t[off + |p.soname|] == 0
            && t[off + |p.soname| + 1..off + |p.soname| + 1 + |p.path|] == p.path
            && t[off + |p.soname| + 1 + |p.path|] == 0
  {
    hide StringTable;
    TableGrows(strs, i + 1);
    TableStep(strs, i);
    Pieces(StringTable(strs[..i]), strs[i].soname, strs[i].path, StringTable(strs));
  }

  lemma TableStep(strs: seq<Pair>, i: nat)
    requires i < |strs|
    ensures StringTable(strs[..i + 1]) == StringTable(strs[..i]) + strs[i].soname + [0] + strs[i].path + [0]
  {
    assert strs[..i + 1][..i] == strs[..i];
  }

  lemma Pieces(a: seq<Byte>, k: Name, v: Name, t: seq<Byte>)
    requires a + k + [0] + v + [0] <= t
    ensures var off := |a|;
            && off + |k| + |v| + 2 <= |t|
            && t[off..off + |k|] == k && t[off + |k|] == 0
            && t[off + |k| + 1..off + |k| + 1 + |v|] == v && t[off + |k| + 1 + |v|] == 0
  {
    var u := a + k + [0] + v + [0];
    assert t[..|u|] == u;
    SliceOfFront(u, t[|u|..], |a|, |a| + |k|);
    SliceOfFront(u, t[|u|..], |a| + |k| + 1, |a| + |k| + 1 + |v|);
    assert t == u + t[|u|..];
    assert t[|a| + |k|] == u[|a| + |k|] && t[|a| + |k| + 1 + |v|] == u[|a| + |k| + 1 + |v|];
  }

  lemma {:induction false} FirstZero(s: seq<Byte>, n: nat)
    requires n < |s| && s[n] == 0 && 0 !in s[..n]
    ensures IndexByte(s) == n
    decreases n
  {
    if n > 0 {
      assert s[0] == s[..n][0];
      assert s[1..][..n - 1] == s[..n][1..];
      FirstZero(s[1..], n - 1);
    }
  }

  /** The bytes s stand at `off`, none of them zero, and a zero byte ends them. */
  predicate IsCString(t: seq<Byte>, off: nat, s: Name) {
    off + |s| < |t| && t[off..off + |s|] == s && t[off + |s|] == 0 && 0 !in s
  }

  lemma StringMeans(t: seq<Byte>, off: nat, s: Name)
    ensures StringAt(t, off) == Some(s) <==> IsCString(t, off, s)
  {
    if IsCString(t, off, s) {
      assert t[off..][..|s|] == s;
      FirstZero(t[off..], |s|);
    }
    if StringAt(t, off) == Some(s) {
      assert t[off..][..|s|] == s;
    }
  }

  /** The flags of an encoded entry come back whole, and so do its offsets if they fit. */
  lemma DecodeEncoded(strs: seq<Pair>, e: Line)
    requires e.flags < W32
    ensures var d, off := DecodeEntry(EncodeEntry(strs, e)), KeyOffset(strs, e.pair.soname);
            && d.flags == e.flags
            && (off + |e.pair.soname| + 1 < W32 ==> d.keyOffset == off && d.valueOffset == off + |e.pair.soname| + 1)
  {
    hide LittleEndian, Word, KeyOffset;
    var s, off := EncodeEntry(strs, e), KeyOffset(strs, e.pair.soname);
    Widths();
    WordOfLittleEndian(e.flags, 4);
    assert s[0..4] == LittleEndian(e.flags, 4);
    if off + |e.pair.soname| + 1 < W32 {
      WordOfLittleEndian(off, 4);
      WordOfLittleEndian(off + |e.pair.soname| + 1, 4);
      assert s[4..8] == LittleEndian(off, 4);
      assert s[8..12] == LittleEndian(off + |e.pair.soname| + 1, 4);
    }
  }

  lemma AcceptedIsIncluded(e: CacheEntry, l: Line)
    requires e.flags == l.flags
    ensures Included(e) <==> l.Accepted()
  {
    TwoBytes(e.flags);
  }

  lemma TwoBytes(x: nat)
    ensures x % 0x1_0000 == x % 256 + 256 * (x / 256 % 256)
  {
    ModUnique(x, 0x1_0000, x / 256 / 256, x % 256 + 256 * (x / 256 % 256));
  }

  lemma NamesNulFree(m: Entries, k: Name)
    requires NulFree(m) && k in m
    ensures 0 !in k && 0 !in m[k]
  {
  }

  /** An encoded entry means its pair if its flags are accepted, and otherwise nothing. */
  lemma EntryMeansPair(strs: seq<Pair>, e: Line, m: Entries)
    requires Lists(strs, m) && NulFree(m) && |StringTable(strs)| < W32 && e.flags < W32
    requires e.Accepted() ==> e.pair.soname in m && m[e.pair.soname] == e.pair.path
    ensures PairOf(StringTable(strs), DecodeEntry(EncodeEntry(strs, e))) == if e.Accepted() then Some(e.pair) else None
  {
    hide EncodeEntry, DecodeEntry, StringTable, StringAt, NulFree, Included;
    DecodeEncoded(strs, e);
    AcceptedIsIncluded(DecodeEntry(EncodeEntry(strs, e)), e);
    if e.Accepted() {
      var p := e.pair;
      NamesNulFree(m, p.soname);
      assert p == Pair(p.soname, m[p.soname]) && p in strs;
      var i := IndexOf(strs, p.soname);
      assert strs[i] == p by {
        assert strs[i] in strs;
      }
      StringsAt(strs, i);
      StringMeans(StringTable(strs), KeyOffset(strs, p.soname), p.soname);
      StringMeans(StringTable(strs), KeyOffset(strs, p.soname) + |p.soname| + 1, p.path);
    }
  }

  lemma EntriesStep(strs: seq<Pair>, ents: seq<Line>)
    requires ents != []
    ensures EncodeEntries(strs, ents)
         == EncodeEntries(strs, ents[..|ents| - 1]) + EncodeEntry(strs, ents[|ents| - 1])
  {
  }

  lemma {:induction false} EntryAtIndex(strs: seq<Pair>, ents: seq<Line>, i: nat)
    requires i < |ents|
    ensures ENTRY * i + ENTRY <= |EncodeEntries(strs, ents)|
    ensures EncodeEntries(strs, ents)[ENTRY * i..ENTRY * i + ENTRY] == EncodeEntry(strs, ents[i])
    decreases |ents|
  {
    hide EncodeEntry, EncodeEntries;
    EntriesStep(strs, ents);
    var n := |ents| - 1;
    var front, last := EncodeEntries(strs, ents[..n]), EncodeEntry(strs, ents[n]);
    if i < n {
      EntryAtIndex(strs, ents[..n], i);
      SliceOfFront(front, last, ENTRY * i, ENTRY * i + ENTRY);
    } else {
      assert (front + last)[|front|..|front| + ENTRY] == last;
    }
  }

  lemma HeaderReads(n: nat, len: nat, rest: seq<Byte>)
    requires n < W32
    ensures var data := EncodeHeader(n, len) + rest;
            |data| >= HEADER && BeginsWith(data, "glibc-ld.so.cache1.1") && U32(data, 20) == n
  {
    hide LittleEndian, Word;
    var data := EncodeHeader(n, len) + rest;
    Widths();
    WordOfLittleEndian(n, 4);
    assert data[20..24] == LittleEndian(n, 4);
    assert data[..20] == MAGIC;
    MagicIs(data);
  }

  /** What a line adds. */
  function Added(e: Line): Option<Pair> {
    if e.Accepted() then Some(e.pair) else None
  }

  /** Collecting pairs of a map m gives a part of m that has each of them. */
  lemma {:induction false} CollectPart(ps: seq<Option<Pair>>, m: Entries)
    requires forall p <- ps :: p.Some? ==> p.value.soname in m && m[p.value.soname] == p.value.path
    ensures forall k <- Collect(ps) :: k in m && Collect(ps)[k] == m[k]
    ensures forall p <- ps :: p.Some? ==> p.value.soname in Collect(ps)
  {
    if ps != [] {
      CollectPart(ps[..|ps| - 1], m);
      forall p | p in ps && p.Some? ensures p.value.soname in Collect(ps) {
        assert p in ps[..|ps| - 1] || p == ps[|ps| - 1];
      }
    }
  }

  /** Collecting what the lines of a map add gives the map. */
  lemma CollectListing(ps: seq<Option<Pair>>, ents: seq<Line>, m: Entries)
    requires Describe(ents, m) && |ps| == |ents| && forall i | 0 <= i < |ps| :: ps[i] == Added(ents[i])
    ensures Collect(ps) == m
  {
    forall p | p in ps ensures p.Some? ==> p.value.soname in m && m[p.value.soname] == p.value.path {
      var i :| 0 <= i < |ps| && ps[i] == p;
      assert ents[i] in ents;
    }
    CollectPart(ps, m);
    AllListed(ps, ents, m);
    assert Collect(ps).Keys == m.Keys;
  }

  lemma AllListed(ps: seq<Option<Pair>>, ents: seq<Line>, m: Entries)
    requires Describe(ents, m) && |ps| == |ents| && forall i | 0 <= i < |ps| :: ps[i] == Added(ents[i])
    requires forall p <- ps :: p.Some? ==> p.value.soname in Collect(ps)
    ensures forall k <- m :: k in Collect(ps)
  {
    forall k | k in m ensures k in Collect(ps) {
      ListedAt(ps, ents, m, k);
    }
  }

  lemma ListedAt(ps: seq<Option<Pair>>, ents: seq<Line>, m: Entries, k: Name)
    requires Describe(ents, m) && |ps| == |ents| && forall i | 0 <= i < |ps| :: ps[i] == Added(ents[i])
    requires k in m
    ensures Some(Pair(k, m[k])) in ps
  {
    var e :| e in ents && e.Accepted() && e.pair == Pair(k, m[k]);
    var i :| 0 <= i < |ents| && ents[i] == e;
    assert ps[i] in ps;
  }

  lemma PairOfEncoded(strs: seq<Pair>, ents: seq<Line>, m: Entries, i: nat)
    requires Lists(strs, m) && Describe(ents, m) && NulFree(m) && |StringTable(strs)| < W32 && i < |ents|
    requires HEADER + ENTRY * |ents| <= |Encode(strs, ents)|
    ensures PairAt(Encode(strs, ents), |ents|, i) == Added(ents[i])
  {
    assert ents[i] in ents;
    EntryMeansPair(strs, ents[i], m);
    SlicesOfEncoded(strs, ents, i);
    hide Encode, EncodeEntries, EncodeEntry, StringTable, DecodeEntry, PairOf, Lists, NulFree;
  }

  lemma SlicesOfEncoded(strs: seq<Pair>, ents: seq<Line>, i: nat)
    requires i < |ents| && HEADER + ENTRY * |ents| <= |Encode(strs, ents)|
    ensures HEADER + ENTRY * i + ENTRY <= |Encode(strs, ents)|
    ensures EntryBytes(Encode(strs, ents), i) == EncodeEntry(strs, ents[i])
    ensures Encode(strs, ents)[HEADER + ENTRY * |ents|..] == StringTable(strs)
  {
    hide EncodeEntries, EncodeEntry, StringTable, EncodeHeader;
    EntryAtIndex(strs, ents, i);
    SliceOfMiddle(EncodeHeader(|ents|, |StringTable(strs)|), EncodeEntries(strs, ents), StringTable(strs),
                  ENTRY * i, ENTRY * i + ENTRY);
  }

  /** Round trip: parsing the encoding of a map of NUL-free names returns exactly that map,
      in whatever orders the encoder runs through it, whichever of the accepted flags it gives
      the entries, and whatever entries with other flags stand between them. */
  lemma RoundTrip(strs: seq<Pair>, ents: seq<Line>, m: Entries)
    requires Lists(strs, m) && Describe(ents, m) && NulFree(m)
    requires |StringTable(strs)| < W32 && |ents| < W32
    ensures Parsed(Encode(strs, ents)) == Ok(m)
  {
    hide EncodeEntries, EncodeEntry, StringTable, EncodeHeader, BeginsWith;
    var data, n := Encode(strs, ents), |ents|;
    var rest := EncodeEntries(strs, ents) + StringTable(strs);
    assert data == EncodeHeader(n, |StringTable(strs)|) + rest;
    HeaderReads(n, |StringTable(strs)|, rest);
    if n == 0 {
      assert m == map[];
    } else {
      forall i | 0 <= i < n ensures Pairs(data, n)[i] == Added(ents[i]) {
        PairOfEncoded(strs, ents, m, i);
      }
      CollectListing(Pairs(data, n), ents, m);
    }
  }
}
