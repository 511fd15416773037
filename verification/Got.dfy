/** The allocator of TLS GOT entry pairs (allocateGOTEntryPair of loader/loader.go).  A pair
    is 16 bytes in a list of pages, each of which the kernel places where it likes. */
module Got {
  import opened Wrappers
  import opened Bits

  const PAIR: nat := 16

  /** The address of offset x of the pages laid end to end. */
  function AddressOf(pages: seq<nat>, x: nat): nat
    requires x / PAGE < |pages|
  {
    pages[x / PAGE] + x % PAGE
  }

  /** GOTEntries, GOTBase, GOTSize, GOTPages */
  datatype State = State(entries: map<nat, nat>, base: nat, size: nat, pages: seq<nat>)
  {
    /** What mmap may answer: a failure, or a page that is not among those in use. */
    predicate MayAnswer(answer: Option<nat>) {
      answer.Some? ==> 0 < answer.value < W64 && answer.value % PAGE == 0 && answer.value !in pages
    }

    predicate Has(sym: nat) {
      sym in entries && entries[sym] / PAGE < |pages|
    }

    /** Where the pair of an allocated symbol really is. */
    function Place(sym: nat): nat
      requires Has(sym)
    {
      AddressOf(pages, entries[sym])
    }

    /** The condition for the cached branch: the page of the entry directly follows. */
    predicate Follows(sym: nat)
      requires Has(sym)
    {
      pages[entries[sym] / PAGE] == (base + PAGE * (entries[sym] / PAGE)) % W64
    }
  }

  /** 64-bit addition */
  function Plus(a: nat, b: nat): nat {
    (a + b) % W64
  }

  const EMPTY := State(map[], 0, 0, [])

  datatype Request = Request(sym: nat, answer: Option<nat>)

  datatype Reply = Reply(state: State, addr: Option<nat>)

  predicate NeedsPage(s: State) {
    s.size + PAIR > |s.pages| * PAGE
  }

  function Allocate(s: State, r: Request): Reply
    requires Inv(s)
  {
    if r.sym in s.entries then Reply(s, Some(Plus(s.base, s.entries[r.sym])))
    else if NeedsPage(s) && r.answer == None then Reply(s, None)
    else
      var pages := if NeedsPage(s) then s.pages + [r.answer.value] else s.pages;
      var t := State(s.entries[r.sym := s.size], pages[0], s.size + PAIR, pages);
      Reply(t, Some(AddressOf(pages, s.size)))
  }

  ghost predicate Counted(s: State) {
    && s.size == PAIR * |s.entries|
    && (if s.pages == [] then s.size == 0 && s.base == 0
        else s.base == s.pages[0] && PAGE * |s.pages| - PAGE < s.size <= PAGE * |s.pages|)
  }

  ghost predicate EntriesApart(entries: map<nat, nat>, size: nat) {
    && (forall k <- entries :: entries[k] % PAIR == 0 && entries[k] + PAIR <= size)
    && (forall k, l | k in entries && l in entries && k != l :: entries[k] != entries[l])
  }

  ghost predicate PagesApart(pages: seq<nat>) {
    && (forall i | 0 <= i < |pages| :: 0 < pages[i] < W64 && pages[i] % PAGE == 0)
    && (forall i, j | 0 <= i < j < |pages| :: pages[i] != pages[j])
  }

  /** Every state of every request sequence. */
  ghost predicate Inv(s: State) {
    Counted(s) && EntriesApart(s.entries, s.size) && PagesApart(s.pages)
  }

  /** There are exactly as many pages as the pairs need. */
  lemma PageCount(s: State)
    requires Inv(s)
    ensures |s.pages| == (s.size + PAGE - 1) / PAGE
  {
    hide EntriesApart, PagesApart;
    var n := |s.pages|;
    if n > 0 {
      ModUnique(s.size + PAGE - 1, PAGE, n, s.size + PAGE - 1 - n * PAGE);
    }
  }

  class Object {
    var GOTEntries: map<nat, nat>
    var GOTBase: nat
    var GOTSize: nat
    var GOTPages: seq<nat>

    constructor ()
      ensures View() == EMPTY
    {
      GOTEntries, GOTBase, GOTSize, GOTPages := map[], 0, 0, [];
    }

    ghost function View(): State
      reads this
    {
      State(GOTEntries, GOTBase, GOTSize, GOTPages)
    }

    lemma ViewIs()
      ensures View() == State(GOTEntries, GOTBase, GOTSize, GOTPages)
    {
    }

    /** allocateGOTEntryPair; `answer` is what mmap says if it is asked, no address is the
        error. */
    method AllocateGOTEntryPair(symIdx: nat, answer: Option<nat>) returns (addr: Option<nat>)
      requires Inv(View()) && View().MayAnswer(answer)
      modifies this
      ensures Reply(View(), addr) == Allocate(old(View()), Request(symIdx, answer))
      ensures Inv(View())
    {
      hide Allocate, Inv, AddressOf, Plus, NeedsPage;
      ghost var s, r := View(), Request(symIdx, answer);
      ViewIs();
      AllocateKeeps(s, r);
      AllocateIs(s, r);
      if symIdx in GOTEntries {
        SumIs(GOTBase, GOTEntries[symIdx]);
        return Some((GOTBase + GOTEntries[symIdx]) % W64);
      }
      if GOTBase == 0 {
        if answer == None {
          return None;
        }
        GOTBase, GOTEntries, GOTPages := answer.value, map[], [answer.value];
      }
      var requiredSize := GOTSize + PAIR;
      var totalAllocated := |GOTPages| * PAGE;
      if requiredSize > totalAllocated {
        if answer == None {
          return None;
        }
        GOTPages := GOTPages + [answer.value];
      }
      var offset := GOTSize;
      GOTEntries := GOTEntries[symIdx := offset];
      GOTSize := GOTSize + PAIR;
      var pageIndex, pageOffset := offset / PAGE, offset % PAGE;
      AddressIs(GOTPages, offset);
      addr := Some(GOTPages[pageIndex] + pageOffset);
      ViewIs();
    }
  }

  lemma SumIs(a: nat, b: nat)
    ensures Plus(a, b) == (a + b) % W64
  {
  }

  lemma AddressIs(pages: seq<nat>, x: nat)
    requires x / PAGE < |pages|
    ensures AddressOf(pages, x) == pages[x / PAGE] + x % PAGE
  {
  }

  lemma AllocateKeeps(s: State, r: Request)
    requires Inv(s) && s.MayAnswer(r.answer)
    ensures Inv(Allocate(s, r).state)
  {
    if r.sym !in s.entries {
      InsertKeepsApart(s.entries, s.size, |s.entries|, r.sym);
      AddedKey(s.entries, r.sym, s.size);
      if r.answer.Some? {
        AddPage(s.pages, r.answer.value);
      }
      hide EntriesApart, PagesApart;
    }
  }

  lemma AddPage(pages: seq<nat>, p: nat)
    requires PagesApart(pages) && 0 < p < W64 && p % PAGE == 0 && p !in pages
    ensures PagesApart(pages + [p])
  {
  }

  /** The cases of a request as the code goes through them: known, the first page, one more
      page, room in the last page. */
  lemma AllocateIs(s: State, r: Request)
    requires Inv(s)
    ensures r.sym in s.entries ==> Allocate(s, r) == Reply(s, Some(Plus(s.base, s.entries[r.sym])))
    ensures s.base == 0 ==> s.entries == map[] && s.size == 0 && s.pages == []
    ensures s.pages == [] <==> s.base == 0
    ensures r.sym !in s.entries && s.base == 0 && r.answer == None ==> Allocate(s, r) == Reply(s, None)
    ensures r.sym !in s.entries && s.base == 0 && r.answer.Some? ==>
              var p := r.answer.value;
              && 0 / PAGE < |[p]|
              && Allocate(s, r) == Reply(State(map[][r.sym := 0], p, PAIR, [p]), Some(AddressOf([p], 0)))
    ensures r.sym !in s.entries && s.base != 0 && s.size + PAIR > |s.pages| * PAGE && r.answer == None ==>
              Allocate(s, r) == Reply(s, None)
    ensures r.sym !in s.entries && s.base != 0 && s.size + PAIR > |s.pages| * PAGE && r.answer.Some? ==>
              var pages := s.pages + [r.answer.value];
              && s.size / PAGE < |pages|
              && Allocate(s, r) == Reply(State(s.entries[r.sym := s.size], s.base, s.size + PAIR, pages),
                                         Some(AddressOf(pages, s.size)))
    ensures r.sym !in s.entries && s.base != 0 && s.size + PAIR <= |s.pages| * PAGE ==>
              && s.size / PAGE < |s.pages|
              && Allocate(s, r) == Reply(State(s.entries[r.sym := s.size], s.base, s.size + PAIR, s.pages),
                                         Some(AddressOf(s.pages, s.size)))
  {
    Offsets(s);
    hide EntriesApart, AddressOf, Plus, PagesApart;
  }

  /** The next offset is in the pages there are, or in the next one. */
  lemma Offsets(s: State)
    requires Inv(s)
    ensures s.size / PAGE < |s.pages| + 1
    ensures s.size + PAIR <= |s.pages| * PAGE ==> s.size / PAGE < |s.pages|
  {
    hide EntriesApart, PagesApart;
    Quotient(s.size, |s.pages| + 1);
    if s.size + PAIR <= |s.pages| * PAGE {
      Quotient(s.size, |s.pages|);
    }
  }

  lemma AddedKey(m: map<nat, nat>, k: nat, v: nat)
    requires k !in m
    ensures |m[k := v]| == |m| + 1
  {
    assert m[k := v].Keys == m.Keys + {k};
  }

  lemma InsertKeepsApart(m: map<nat, nat>, size: nat, n: nat, k: nat)
    requires EntriesApart(m, size) && k !in m && size == PAIR * n
    ensures EntriesApart(m[k := size], size + PAIR)
  {
    ModUnique(size, PAIR, n, 0);
  }

  // ---------------------------------------------------------------- request sequences

  /** The kernel never answers with a page in use. */
  ghost predicate KernelIsSound(s: State, rs: seq<Request>)
    requires Inv(s)
    decreases |rs|
  {
    rs != [] ==> s.MayAnswer(rs[0].answer) && Inv(Allocate(s, rs[0]).state) && KernelIsSound(Allocate(s, rs[0]).state, rs[1..])
  }

  ghost function Run(s: State, rs: seq<Request>): State
    requires Inv(s) && KernelIsSound(s, rs)
    decreases |rs|
  {
    if rs == [] then s else Run(Allocate(s, rs[0]).state, rs[1..])
  }

  /** t has the pairs of s where s has them. */
  ghost predicate Extends(s: State, t: State) {
    && s.pages <= t.pages
    && forall k <- s.entries :: k in t.entries && t.entries[k] == s.entries[k]
  }

  lemma AllocateExtends(s: State, r: Request)
    requires Inv(s)
    ensures Extends(s, Allocate(s, r).state)
  {
  }

  lemma ExtendsTrans(s: State, t: State, u: State)
    requires Extends(s, t) && Extends(t, u)
    ensures Extends(s, u)
  {
  }

  /** Over any request sequence, pairs stay where they were put. */
  lemma {:induction false} RunKeeps(s: State, rs: seq<Request>)
    requires Inv(s) && KernelIsSound(s, rs)
    ensures Inv(Run(s, rs)) && Extends(s, Run(s, rs))
    decreases |rs|
  {
    hide Inv, Allocate, Extends;
    if rs != [] {
      AllocateExtends(s, rs[0]);
      RunKeeps(Allocate(s, rs[0]).state, rs[1..]);
      ExtendsTrans(s, Allocate(s, rs[0]).state, Run(s, rs));
    } else {
      ExtendsSelf(s);
    }
  }

  lemma ExtendsSelf(s: State)
    ensures Extends(s, s)
  {
  }

  /** After any request sequence there are exactly as many pages as the pairs of the symbols
      served so far need. */
  lemma PagesOfRun(rs: seq<Request>)
    requires Inv(EMPTY) && KernelIsSound(EMPTY, rs)
    ensures var t := Run(EMPTY, rs);
            |t.pages| == (16 * |t.entries| + 4095) / 4096 && t.size == 16 * |t.entries|
  {
    RunKeeps(EMPTY, rs);
    PageCount(Run(EMPTY, rs));
  }

  lemma EntryPage(s: State, k: nat)
    requires Inv(s) && k in s.entries
    ensures s.Has(k)
  {
    hide PagesApart;
    Quotient(s.entries[k], |s.pages|);
  }

  lemma Quotient(x: nat, n: nat)
    requires x < PAGE * n
    ensures x / PAGE < n
  {
  }

  /** A pair is 16-aligned and inside one page, and the pairs of different symbols never
      overlap. */
  lemma PairsNeverOverlap(s: State, k: nat, l: nat)
    requires Inv(s) && k in s.entries && l in s.entries && k != l
    ensures s.Has(k) && s.Has(l)
    ensures s.Place(k) % 16 == 0 && exists p <- s.pages :: p <= s.Place(k) && s.Place(k) + 16 <= p + 4096
    ensures s.Place(k) + 16 <= s.Place(l) || s.Place(l) + 16 <= s.Place(k)
  {
    EntryPage(s, k);
    EntryPage(s, l);
    var x, y := s.entries[k], s.entries[l];
    var p, q := s.pages[x / PAGE], s.pages[y / PAGE];
    InPage(p, x);
    assert p <= s.Place(k) && s.Place(k) + PAIR <= p + PAGE && p in s.pages;
    assert x / PAGE != y / PAGE ==> p != q;
    hide Inv;
    PairsApart(p, q, x, y);
  }

  lemma PairsApart(p: nat, q: nat, x: nat, y: nat)
    requires p % PAGE == 0 && q % PAGE == 0 && x % PAIR == 0 && y % PAIR == 0 && x != y
    requires if x / PAGE == y / PAGE then p == q else p != q
    ensures p + x % PAGE + PAIR <= q + y % PAGE || q + y % PAGE + PAIR <= p + x % PAGE
  {
    var a, b := x % PAGE, y % PAGE;
    InPage(p, x);
    InPage(q, y);
    MultiplesOfPair(a, b);
    if p == q {
      assert a != b;
    } else {
      MultiplesOfPage(p, q);
    }
  }

  lemma MultiplesOfPair(a: nat, b: nat)
    requires a % PAIR == 0 && b % PAIR == 0
    ensures a == b || a + PAIR <= b || b + PAIR <= a
  {
  }

  lemma MultiplesOfPage(a: nat, b: nat)
    requires a % PAGE == 0 && b % PAGE == 0
    ensures a == b || a + PAGE <= b || b + PAGE <= a
  {
  }

  lemma InPage(p: nat, x: nat)
    requires p % PAGE == 0 && x % PAIR == 0
    ensures (p + x % PAGE) % PAIR == 0 && x % PAGE % PAIR == 0 && x % PAGE <= PAGE - PAIR
  {
    var m, k, q := p / PAGE, x / PAIR, x / PAGE;
    var r := k - 256 * q;
    assert x % PAGE == r * PAIR && p + x % PAGE == (256 * m + r) * PAIR;
    ModUnique(x % PAGE, PAIR, r, 0);
    ModUnique(p + x % PAGE, PAIR, 256 * m + r, 0);
  }

  /** The first request of a symbol answers with the place of its pair.  A later one answers
      the same exactly if the page of the pair follows the earlier pages without a gap, which
      it always does for a pair in the first page. */
  lemma RepeatIsFirst(s: State, r: Request, rs: seq<Request>, again: Option<nat>)
    requires Inv(s) && s.MayAnswer(r.answer) && r.sym !in s.entries && Allocate(s, r).addr.Some?
    requires Inv(Allocate(s, r).state) && KernelIsSound(Allocate(s, r).state, rs)
    ensures var first := Allocate(s, r);
            var t := Run(first.state, rs);
            && Inv(t) && t.Has(r.sym) && first.addr == Some(t.Place(r.sym))
            && Allocate(t, Request(r.sym, again)).state == t
            && (Allocate(t, Request(r.sym, again)).addr == first.addr <==> t.Follows(r.sym))
            && (s.size < PAGE ==> t.Follows(r.sym))
  {
    var first := Allocate(s, r);
    var t := Run(first.state, rs);
    RunKeeps(first.state, rs);
    AllocateFresh(s, r);
    EntryPage(t, r.sym) by {
      assert Extends(first.state, t);
    }
    hide Allocate, Run, KernelIsSound, Inv;
    assert t.Place(r.sym) == first.state.Place(r.sym) && t.entries[r.sym] == s.size;
    hide Extends;
    RepeatOf(t, r.sym, again);
  }

  lemma RepeatOf(t: State, sym: nat, again: Option<nat>)
    requires Inv(t) && t.Has(sym)
    ensures Allocate(t, Request(sym, again)).state == t
    ensures Allocate(t, Request(sym, again)).addr == Some(t.Place(sym)) <==> t.Follows(sym)
    ensures t.entries[sym] < PAGE ==> t.Follows(sym)
  {
    AllocateCached(t, sym, again);
    hide Allocate;
    var x := t.entries[sym];
    assert t.base == t.pages[0] && PagesApart(t.pages);
    Cached(t.base, t.pages[x / PAGE], x);
    if x < PAGE {
      assert x / PAGE == 0;
    }
  }

  lemma AllocateCached(t: State, sym: nat, again: Option<nat>)
    requires Inv(t) && sym in t.entries
    ensures Allocate(t, Request(sym, again)) == Reply(t, Some(Plus(t.base, t.entries[sym])))
  {
  }

  lemma AllocateFresh(s: State, r: Request)
    requires Inv(s) && r.sym !in s.entries && Allocate(s, r).addr.Some?
    ensures var t := Allocate(s, r).state;
            && t.Has(r.sym) && t.entries[r.sym] == s.size && Allocate(s, r).addr == Some(t.Place(r.sym))
  {
  }

  lemma Cached(base: nat, page: nat, x: nat)
    requires page < W64 && page % PAGE == 0 && base % PAGE == 0
    ensures (base + x) % W64 == page + x % PAGE <==> page == (base + PAGE * (x / PAGE)) % W64
  {
    var b := base + PAGE * (x / PAGE);
    WholePages(b / PAGE, b) by {
      ModUnique(b, PAGE, base / PAGE + x / PAGE, 0);
    }
    ModUnique(base + x, W64, b / W64, b % W64 + x % PAGE);
  }

  lemma WholePages(n: nat, b: nat)
    requires b == n * PAGE
    ensures b % W64 <= W64 - PAGE
  {
    var q, c := b / W64, b % W64;
    var d := n - q * 0x10_0000_0000_0000;
    assert c == d * PAGE;
  }

  // ---------------------------------------------------------------- a sequence that fails

  const P0: nat := 0x10000
  const P1: nat := 0x30000

  /** The first n symbols, which all fit in one page. */
  ghost function FirstPage(n: nat): State
    requires 0 < n <= 256
  {
    State(map k | 0 <= k < n :: PAIR * k, P0, PAIR * n, [P0])
  }

  ghost function FirstRequests(n: nat, from: nat): seq<Request>
    requires from <= n
    decreases n - from
  {
    if from == n then [] else [Request(from, if from == 0 then Some(P0) else None)] + FirstRequests(n, from + 1)
  }

  lemma FirstPageInv(n: nat)
    requires 0 < n <= 256
    ensures Inv(FirstPage(n))
  {
    var m := map k | 0 <= k < n :: PAIR * k;
    KeysBelow(n, m);
  }

  lemma {:induction false} KeysBelow(n: nat, m: map<nat, nat>)
    requires forall k: nat :: k in m <==> k < n
    ensures |m| == n
  {
    if n == 0 {
      assert m == map[];
    } else {
      var less := m - {n - 1};
      KeysBelow(n - 1, less);
      assert m == less[n - 1 := m[n - 1]];
    }
  }

  lemma {:induction false} FirstPageFills(from: nat)
    requires 0 < from <= 256
    ensures Inv(FirstPage(from)) && Inv(FirstPage(256))
    ensures KernelIsSound(FirstPage(from), FirstRequests(256, from))
    ensures Run(FirstPage(from), FirstRequests(256, from)) == FirstPage(256)
    decreases 256 - from
  {
    FirstPageInv(from);
    FirstPageInv(256);
    if from < 256 {
      FirstPageFills(from + 1);
      var r := FirstRequests(256, from);
      assert r[1..] == FirstRequests(256, from + 1);
      FirstPageStep(from);
    }
  }

  lemma FirstPageStep(from: nat)
    requires 0 < from < 256
    ensures Inv(FirstPage(from)) && Allocate(FirstPage(from), Request(from, None)).state == FirstPage(from + 1)
  {
    FirstPageInv(from);
    assert (map k | 0 <= k < from :: PAIR * k)[from := PAIR * from] == map k | 0 <= k < from + 1 :: PAIR * k;
  }

  /** 257 symbols, and a kernel that does not place the second page behind the first: symbol
      256 is first told P1, where its pair is, and then an address that is in no page. */
  lemma RepeatCanMiss()
    ensures Inv(EMPTY) && KernelIsSound(EMPTY, FirstRequests(256, 0))
    ensures var s := Run(EMPTY, FirstRequests(256, 0));
            var r := Request(256, Some(P1));
            && Inv(s) && s.MayAnswer(r.answer) && Inv(Allocate(s, r).state)
            && Allocate(s, r).addr == Some(P1)
            && Allocate(Allocate(s, r).state, r).addr == Some(P0 + PAGE)
            && P0 + PAGE !in Allocate(s, r).state.pages
  {
    FirstOfAll();
    hide Allocate, Run, KernelIsSound, Inv, FirstRequests;
    assert Run(EMPTY, FirstRequests(256, 0)) == FirstPage(256);
    SecondPage();
  }

  lemma FirstOfAll()
    ensures Inv(EMPTY) && KernelIsSound(EMPTY, FirstRequests(256, 0))
    ensures Run(EMPTY, FirstRequests(256, 0)) == FirstPage(256) && Inv(FirstPage(256))
  {
    hide Inv;
    var rs := FirstRequests(256, 0);
    var r0 := Request(0, Some(P0));
    EmptyInv();
    AllocateKeeps(EMPTY, r0);
    assert rs[0] == r0 && rs[1..] == FirstRequests(256, 1);
    assert Allocate(EMPTY, r0).state == FirstPage(1) by {
      assert map[][0 := 0] == map k | 0 <= k < 1 :: PAIR * k;
    }
    FirstPageFills(1);
  }

  lemma EmptyInv()
    ensures Inv(EMPTY)
  {
  }

  lemma SecondPage()
    requires Inv(FirstPage(256))
    ensures var s := FirstPage(256);
            var r := Request(256, Some(P1));
            && s.MayAnswer(r.answer) && Inv(Allocate(s, r).state)
            && Allocate(s, r).addr == Some(P1)
            && Allocate(Allocate(s, r).state, r).addr == Some(P0 + PAGE)
            && P0 + PAGE !in Allocate(s, r).state.pages
  {
    var s := FirstPage(256);
    AllocateKeeps(s, Request(256, Some(P1)));
    hide Inv;
    assert s.size / PAGE == 1 && s.size % PAGE == 0;
  }
}
