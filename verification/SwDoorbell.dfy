/**
  The software doorbell allocator: a doubly linked list of pages, each with a bitmap of free
  slots and a count of used ones, refines a set of live addresses.
 */
module SwDoorbell {
  import opened Bits
  import opened Common

  const DB_SIZE := 64
  const WORD_BITS := 64
  const ALL_ONES: u64 := 0xffff_ffff_ffff_ffff

  /* Bitmaps. */

  /** One-based position of the lowest set bit; zero for zero. */
  function Ffs(w: nat): nat {
    if w == 0 then 0 else if w % 2 == 1 then 1 else 1 + Ffs(w / 2)
  }

  lemma {:induction false} FfsIsLowest(w: nat, n: nat)
    requires 0 < w < Pow2(n)
    ensures 1 <= Ffs(w) <= n && Bit(w, Ffs(w) - 1)
    ensures forall j :: 0 <= j < Ffs(w) - 1 ==> !Bit(w, j)
  {
    if w % 2 == 0 {
      FfsIsLowest(w / 2, n - 1);
    }
  }

  /** A set bit means a free slot. */
  predicate IsFree(words: seq<u64>, i: nat)
    requires i < WORD_BITS * |words|
  {
    Bit(words[i / WORD_BITS], i % WORD_BITS)
  }

  ghost function Used(words: seq<u64>, n: nat): nat
    requires n <= WORD_BITS * |words|
  {
    if n == 0 then 0 else Used(words, n - 1) + if IsFree(words, n - 1) then 0 else 1
  }

  /** Two bitmaps that differ in slot idx only. */
  ghost predicate Flipped(a: seq<u64>, b: seq<u64>, idx: nat) {
    && |a| == |b| && idx < WORD_BITS * |a|
    && forall i :: 0 <= i < WORD_BITS * |a| ==> IsFree(b, i) == if i == idx then !IsFree(a, i) else IsFree(a, i)
  }

  lemma {:induction false} UsedFlipped(a: seq<u64>, b: seq<u64>, idx: nat, n: nat)
    requires Flipped(a, b, idx) && n <= WORD_BITS * |a|
    ensures Used(b, n) == if idx >= n then Used(a, n) else if IsFree(a, idx) then Used(a, n) + 1 else Used(a, n) - 1
  {
    if n > 0 {
      UsedFlipped(a, b, idx, n - 1);
    }
  }

  lemma {:induction false} UsedBounds(words: seq<u64>, n: nat)
    requires n <= WORD_BITS * |words|
    ensures Used(words, n) <= n
    ensures Used(words, n) == n <==> forall i :: 0 <= i < n ==> !IsFree(words, i)
    ensures Used(words, n) == 0 <==> forall i :: 0 <= i < n ==> IsFree(words, i)
  {
    hide IsFree;
    if n > 0 {
      UsedBounds(words, n - 1);
    }
  }

  /** With one slot used, any used slot is that one. */
  lemma {:induction false} UsedOnce(words: seq<u64>, n: nat, i: nat, j: nat)
    requires n <= WORD_BITS * |words| && Used(words, n) == 1
    requires i < n && j < n && !IsFree(words, i) && !IsFree(words, j)
    ensures i == j
  {
    hide IsFree;
    UsedBounds(words, n - 1);
    if Used(words, n - 1) == 1 {
      UsedOnce(words, n - 1, i, j);
    }
  }

  lemma WordBound(w: u64)
    ensures w < Pow2(WORD_BITS)
  {
    Pow2Constants();
  }

  /** The word with bit b cleared. */
  function Clear(w: u64, b: nat): u64
    requires b < WORD_BITS
  {
    ClearBound(w, b);
    And(w, ALL_ONES - Pow2(b))
  }

  lemma ClearBound(w: u64, b: nat)
    requires b < WORD_BITS
    ensures Pow2(b) <= ALL_ONES && And(w, ALL_ONES - Pow2(b)) <= w
  {
    hide Pow2, And;
    WordBound(w);
    Pow2Constants();
    Pow2Monotone(b, 63);
    AndComplement(w, ALL_ONES - Pow2(b), WORD_BITS);
  }

  lemma ClearBit(w: u64, b: nat, j: nat)
    requires b < WORD_BITS && j < WORD_BITS
    ensures Bit(Clear(w, b), j) == (Bit(w, j) && j != b)
  {
    hide Pow2, And, Bit;
    ClearBound(w, b);
    Pow2Constants();
    Pow2Monotone(b, 63);
    AndBit(w, ALL_ONES - Pow2(b), j);
    NotBit(Pow2(b), WORD_BITS, j);
    Pow2Bit(b, j);
  }

  lemma SetBit(w: u64, b: nat, j: nat)
    requires b < WORD_BITS && j < WORD_BITS
    ensures Or(w, Pow2(b)) <= ALL_ONES
    ensures Bit(Or(w, Pow2(b)), j) == (Bit(w, j) || j == b)
  {
    hide Pow2, Or, Bit;
    WordBound(w);
    Pow2Constants();
    Pow2Monotone(b, 63);
    OrBit(w, Pow2(b), j);
    Pow2Bit(b, j);
    OrBound(w, Pow2(b), WORD_BITS);
  }

  lemma AllFree(j: nat)
    requires j < WORD_BITS
    ensures Bit(ALL_ONES, j)
  {
    hide Pow2, Bit;
    Pow2Constants();
    NotBit(0, WORD_BITS, j);
    ZeroBit(j);
  }

  /** A word changed in one bit is a bitmap flipped in one slot. */
  lemma WordFlipped(a: seq<u64>, i: nat, w: u64, b: nat)
    requires i < |a| && b < WORD_BITS
    requires forall j :: 0 <= j < WORD_BITS ==> Bit(w, j) == if j == b then !Bit(a[i], j) else Bit(a[i], j)
    ensures Flipped(a, a[i := w], i * WORD_BITS + b)
  {
    hide Bit;
  }

  method BitmapAlloc(nBits: u32) returns (bitmap: array<u64>)
    ensures fresh(bitmap) && bitmap.Length == (nBits + 63) / 64
    ensures forall i :: 0 <= i < WORD_BITS * bitmap.Length ==> IsFree(bitmap[..], i)
  {
    var cnt := (nBits + 63) / 64;
    bitmap := new u64[cnt](_ => 0);
    var i := 0;
    while i < cnt
      invariant i <= cnt && forall j :: 0 <= j < i ==> bitmap[j] == ALL_ONES
    {
      bitmap[i] := ALL_ONES;
      i := i + 1;
    }
    forall i | 0 <= i < WORD_BITS * bitmap.Length
      ensures IsFree(bitmap[..], i)
    {
      AllFree(i % WORD_BITS);
    }
  }

  /**
    Finds the lowest free slot and takes it. It fails when there is none below nBits; the
    slots from nBits on start out free, so a failure may still report one of those.
   */
  method BitmapUseIdx(bitmap: array<u64>, nBits: nat) returns (ret: int, idx: nat)
    requires nBits <= WORD_BITS * bitmap.Length
    modifies bitmap
    ensures ret == 0 <==> exists i :: 0 <= i < nBits && IsFree(old(bitmap[..]), i)
    ensures ret == 0 ==>
              && idx < nBits && IsFree(old(bitmap[..]), idx) && Flipped(old(bitmap[..]), bitmap[..], idx)
              && forall i :: 0 <= i < idx ==> !IsFree(old(bitmap[..]), i)
    ensures ret != 0 ==> ret == ENOMEM && bitmap[..] == old(bitmap[..])
  {
    hide Bit, Clear, Pow2;
    ghost var a := bitmap[..];
    idx := 0;
    var i := 0;
    while i < bitmap.Length && bitmap[i] == 0
      invariant i <= bitmap.Length
      invariant forall j :: 0 <= j < i ==> bitmap[j] == 0
    {
      i := i + 1;
    }
    forall x | 0 <= x < WORD_BITS * i
      ensures !IsFree(a, x)
    {
      assert a[x / WORD_BITS] == 0;
      ZeroBit(x % WORD_BITS);
    }
    if i == bitmap.Length {
      return ENOMEM, idx;
    }
    WordBound(bitmap[i]);
    FfsIsLowest(bitmap[i], WORD_BITS);
    var bit := Ffs(bitmap[i]);
    idx := i * WORD_BITS + bit - 1;
    LowestSlot(a, i, bit - 1);
    if idx >= nBits {
      return ENOMEM, idx;
    }
    forall j | 0 <= j < WORD_BITS
      ensures Bit(Clear(a[i], bit - 1), j) == if j == bit - 1 then !Bit(a[i], j) else Bit(a[i], j)
    {
      ClearBit(a[i], bit - 1, j);
    }
    WordFlipped(a, i, Clear(a[i], bit - 1), bit - 1);
    bitmap[i] := Clear(bitmap[i], bit - 1);
    assert bitmap[..] == a[i := Clear(a[i], bit - 1)];
    return 0, idx;
  }

  lemma LowestSlot(a: seq<u64>, i: nat, b: nat)
    requires i < |a| && b < WORD_BITS && Bit(a[i], b)
    requires forall j :: 0 <= j < b ==> !Bit(a[i], j)
    requires forall x :: 0 <= x < WORD_BITS * i ==> !IsFree(a, x)
    ensures IsFree(a, i * WORD_BITS + b)
    ensures forall x :: 0 <= x < i * WORD_BITS + b ==> !IsFree(a, x)
  {
    hide Bit;
    forall x | 0 <= x < i * WORD_BITS + b
      ensures !IsFree(a, x)
    {
      if x >= WORD_BITS * i {
        assert x / WORD_BITS == i && x % WORD_BITS < b;
      }
    }
  }

  /** Gives a slot back; an index outside the bitmap changes nothing. */
  method BitmapFreeIdx(bitmap: array<u64>, idx: nat)
    modifies bitmap
    ensures idx >= WORD_BITS * bitmap.Length ==> bitmap[..] == old(bitmap[..])
    ensures idx < WORD_BITS * bitmap.Length && !IsFree(old(bitmap[..]), idx) ==> Flipped(old(bitmap[..]), bitmap[..], idx)
  {
    hide Bit, Or, Pow2;
    ghost var a := bitmap[..];
    var num := idx / WORD_BITS;
    if num >= bitmap.Length {
      return;
    }
    var bit := idx % WORD_BITS;
    forall j | 0 <= j < WORD_BITS
      ensures Bit(Or(a[num], Pow2(bit)), j) == (Bit(a[num], j) || j == bit)
    {
      SetBit(a[num], bit, j);
    }
    SetBit(a[num], bit, 0);
    if !IsFree(a, idx) {
      WordFlipped(a, num, Or(a[num], Pow2(bit)), bit);
    }
    bitmap[num] := Or(bitmap[num], Pow2(bit));
    assert bitmap[..] == a[num := Or(a[num], Pow2(bit))];
  }

  /**
    The search cannot fail where its result is ignored: a page with fewer used slots than it
    has keeps its lowest free slot below the slot count.
   */
  lemma SearchSucceeds(words: seq<u64>, n: nat)
    requires n <= WORD_BITS * |words| && Used(words, n) < n
    ensures exists i :: 0 <= i < n && IsFree(words, i)
  {
    UsedBounds(words, n);
  }

  /* Pages. */

  /** A page of doorbells; buf is its address. */
  class DbPage {
    var prev: DbPage?
    var next: DbPage?
    const buf: nat
    const numDb: nat
    const bitmap: array<u64>
    var useCnt: nat

    constructor (buf: nat, numDb: nat, bitmap: array<u64>)
      ensures this.buf == buf && this.numDb == numDb && this.bitmap == bitmap && useCnt == 0
      ensures prev == null && next == null
    {
      this.buf, this.numDb, this.bitmap := buf, numDb, bitmap;
      useCnt := 0;
      prev, next := null, null;
    }
  }

  /** A page of the right shape whose use count is the number of used slots. */
  ghost predicate PageOk(p: DbPage, pageSize: nat)
    reads p`useCnt, p.bitmap
  {
    && pageSize > 0 && p.numDb == pageSize / 64 && p.bitmap.Length == (p.numDb + 63) / 64
    && p.buf % pageSize == 0 && 0 < p.buf && p.buf + pageSize <= TWO_64
    && p.useCnt == Used(p.bitmap[..], p.numDb)
  }

  /** The list is exactly these pages, in both directions. */
  ghost predicate Linked(head: DbPage?, pages: seq<DbPage>)
    reads pages`prev, pages`next
  {
    && head == (if pages == [] then null else pages[0])
    && forall i :: 0 <= i < |pages| ==> LinkAt(pages, i)
  }

  /** Page i points at its neighbours. */
  ghost predicate LinkAt(pages: seq<DbPage>, i: nat)
    reads pages`prev, pages`next
    requires i < |pages|
  {
    && pages[i].prev == (if i == 0 then null else pages[i - 1])
    && pages[i].next == (if i == |pages| - 1 then null else pages[i + 1])
  }

  ghost predicate Separate(pages: seq<DbPage>) {
    forall i, j :: 0 <= i < j < |pages| ==>
      pages[i] != pages[j] && pages[i].bitmap != pages[j].bitmap && pages[i].buf != pages[j].buf
  }

  function Addr(p: DbPage, i: nat): nat {
    p.buf + 64 * i
  }

  /** The addresses a page has handed out. */
  ghost function PageLive(p: DbPage): set<nat>
    reads p.bitmap
    requires p.numDb <= WORD_BITS * p.bitmap.Length
  {
    set i | 0 <= i < p.numDb && !IsFree(p.bitmap[..], i) :: Addr(p, i)
  }

  class Context {
    const pageSize: u32
    var page: DbPage?
    ghost var pages: seq<DbPage>

    constructor (pageSize: u32)
      requires exists k: nat :: 6 <= k <= 31 && pageSize == Pow2(k)
      ensures Valid() && Live() == {} && this.pageSize == pageSize
    {
      this.pageSize := pageSize;
      page := null;
      pages := [];
    }

    ghost predicate Shape()
      reads this, pages, set p | p in pages :: p.bitmap
    {
      && (exists k: nat :: 6 <= k <= 31 && pageSize == Pow2(k))
      && Linked(page, pages) && Separate(pages)
      && forall i {:trigger pages[i]} :: 0 <= i < |pages| ==> PageOk(pages[i], pageSize)
    }

    /** Between calls no page is empty. */
    ghost predicate Valid()
      reads this, pages, set p | p in pages :: p.bitmap
    {
      Shape() && forall i {:trigger pages[i]} :: 0 <= i < |pages| ==> pages[i].useCnt > 0
    }

    /** The addresses handed out and not yet given back. */
    ghost function Live(): set<nat>
      reads this, pages, set p | p in pages :: p.bitmap
      requires Shape()
    {
      Union(Lives())
    }

    ghost function Lives(): (l: seq<set<nat>>)
      reads this, pages, set p | p in pages :: p.bitmap
      requires Shape()
      ensures |l| == |pages|
    {
      seq(|pages|, i requires 0 <= i < |pages| reads this, pages, set p | p in pages :: p.bitmap
                     requires Shape() => PageLive(pages[i]))
    }

    /** Different pages hand out different addresses. */
    lemma LivesDisjoint(i: nat, j: nat)
      requires Shape() && i < j < |pages|
      ensures Lives()[i] !! Lives()[j]
    {
      hide IsFree, Used, Pow2;
      forall a | a in Lives()[i] && a in Lives()[j]
        ensures false
      {
        var x :| 0 <= x < pages[i].numDb && a == Addr(pages[i], x);
        var y :| 0 <= y < pages[j].numDb && a == Addr(pages[j], y);
        PageOfAddr(pages[i], x, pageSize);
        PageOfAddr(pages[j], y, pageSize);
      }
    }

    /** The head page, if there is one. */
    ghost function Front(): set<DbPage>
      reads this
    {
      if pages == [] then {} else {pages[0]}
    }

    /** What the operating system may hand out as a new page, or None if some allocation fails. */
    ghost predicate Mappable(mem: Option<nat>)
      reads this
    {
      mem.Some? ==>
        && pageSize > 0 && mem.value % pageSize == 0 && 0 < mem.value && mem.value + pageSize <= TWO_64
        && forall i :: 0 <= i < |pages| ==> pages[i].buf != mem.value
    }

    /** Allocates and links a page with no used slot in front of the list. */
    method AddDbPage(mem: Option<nat>) returns (p: DbPage?)
      requires Valid() && Mappable(mem)
      modifies this, Front()
      ensures p == null <==> mem == None
      ensures p == null ==> Valid() && Live() == old(Live()) && pages == old(pages)
      ensures p != null ==>
                && Shape() && fresh(p) && fresh(p.bitmap) && pages == [p] + old(pages)
                && p.useCnt == 0 && Lives() == [{}] + old(Lives())
                && forall i {:trigger pages[i]} :: 0 < i < |pages| ==> pages[i].useCnt > 0
    {
      if mem == None {
        return null;
      }
      PageSizeBounds();
      p := NewPage(mem.value, pageSize);
      PushFront(p);
    }

    /** The pointer updates that put a page in front. */
    method LinkFront(p: DbPage)
      requires Linked(page, pages) && Separate(pages) && p !in pages
      modifies this`page, p`prev, p`next, Front()`prev
      ensures Linked(page, [p] + pages)
    {
      p.prev := null;
      p.next := page;
      page := p;
      if p.next != null {
        p.next.prev := p;
      }
      assert forall i {:trigger pages[i]} :: 0 <= i < |pages| ==> old(LinkAt(pages, i));
      LinkedFront(p, pages);
    }

    /** Links an unused page in front of the list. */
    method PushFront(p: DbPage)
      requires Valid() && p !in pages && PageOk(p, pageSize) && p.useCnt == 0 && PageLive(p) == {}
      requires forall i :: 0 <= i < |pages| ==> pages[i].buf != p.buf && pages[i].bitmap != p.bitmap
      modifies this`page, this`pages, p`prev, p`next, Front()`prev
      ensures Shape() && pages == [p] + old(pages) && Lives() == [{}] + old(Lives())
      ensures forall i {:trigger pages[i]} :: 0 < i < |pages| ==> pages[i].useCnt > 0
    {
      hide IsFree, Pow2, Used, PageLive, Linked, Separate;
      ghost var lives, rest := Lives(), pages;
      SeparateFront(p, pages);
      LinkFront(p);
      pages := [p] + pages;
      assert forall i {:trigger pages[i]} :: 0 < i < |pages| ==> pages[i] == rest[i - 1];
      assert Shape();
      forall i | 0 <= i < |pages|
        ensures Lives()[i] == ([{}] + lives)[i]
      {
        if i > 0 {
          assert lives[i - 1] == old(PageLive(pages[i - 1]));
        }
      }
    }

    /** First page with room, from the head on. */
    method FindRoom() returns (p: DbPage?, ghost i: nat)
      requires Valid()
      ensures p == null ==> forall j {:trigger pages[j]} :: 0 <= j < |pages| ==> pages[j].useCnt == pages[j].numDb
      ensures p != null ==> i < |pages| && p == pages[i] && p.useCnt < p.numDb
    {
      hide IsFree, Pow2, Used;
      p := page;
      i := 0;
      while p != null && p.useCnt >= p.numDb
        invariant i <= |pages| && p == (if i < |pages| then pages[i] else null)
        invariant forall j {:trigger pages[j]} :: 0 <= j < i ==> pages[j].useCnt == pages[j].numDb
        decreases |pages| - i
      {
        UsedBounds(p.bitmap[..], p.numDb);
        assert LinkAt(pages, i);
        p := p.next;
        i := i + 1;
      }
    }

    /** A page with room: one of the list, else a new one, else none. */
    method PageWithRoom(mem: Option<nat>) returns (p: DbPage?, ghost i: nat)
      requires Valid() && Mappable(mem)
      modifies this, Front()
      ensures p == null <==> mem == None && forall j {:trigger old(pages[j])} :: 0 <= j < |old(pages)| ==> old(pages[j].useCnt == pages[j].numDb)
      ensures p == null ==> Valid()
      ensures Shape() && Live() == old(Live())
      ensures p != null ==>
                && i < |pages| && p == pages[i] && p.useCnt < p.numDb
                && (p in old(pages) || (fresh(p) && fresh(p.bitmap)))
                && forall j {:trigger pages[j]} :: 0 <= j < |pages| && j != i ==> pages[j].useCnt > 0
      ensures pages == old(pages) || (p != null && fresh(p) && pages == [p] + old(pages))
      ensures pages != old(pages) ==> forall j {:trigger old(pages[j])} :: 0 <= j < |old(pages)| ==> old(pages[j].useCnt == pages[j].numDb)
    {
      hide IsFree, Pow2, Used, PageLive, Linked, Separate;
      p, i := FindRoom();
      if p == null {
        UnionCons(Lives());
        p := AddDbPage(mem);
        i := 0;
        PageSizeBounds();
      }
    }

    /**
      Hands out a doorbell, on a page with room or on a new one. The address is aligned, lies in
      a page and was not live; the set of live addresses grows by exactly it. Only when every page
      is full and no page can be had is the answer null.
     */
    method AllocSwDb(mem: Option<nat>) returns (db: nat)
      requires Valid() && Mappable(mem)
      modifies this, pages, set p | p in pages :: p.bitmap
      ensures Valid()
      ensures db == 0 <==> mem == None && forall i {:trigger old(pages[i])} :: 0 <= i < |old(pages)| ==> old(pages[i].useCnt == pages[i].numDb)
      ensures db == 0 ==> Live() == old(Live())
      ensures db != 0 ==>
                && db !in old(Live()) && Live() == old(Live()) + {db} && db % 64 == 0
                && exists i :: 0 <= i < |pages| && pages[i].buf <= db < pages[i].buf + pageSize
      ensures pages == old(pages)
              || (mem.Some? && |pages| == |old(pages)| + 1 && pages[1..] == old(pages)
                  && forall i {:trigger old(pages[i])} :: 0 <= i < |old(pages)| ==> old(pages[i].useCnt == pages[i].numDb))
    {
      hide IsFree, Pow2, Used, PageLive, Linked, Separate, PageOk, Lives;
      var p, i := PageWithRoom(mem);
      if p == null {
        return 0;
      }
      db := TakeFrom(p, i);
    }

    /** Takes a slot of page i: only that page changes. */
    method TakeOn(p: DbPage, ghost i: nat) returns (db: nat)
      requires Shape() && i < |pages| && p == pages[i] && p.useCnt < p.numDb
      modifies p`useCnt, p.bitmap
      ensures Shape() && p.useCnt == old(p.useCnt) + 1
      ensures db !in old(Lives())[i] && Lives() == old(Lives())[i := old(Lives())[i] + {db}]
      ensures exists x: nat :: x < p.numDb && db == Addr(p, x)
    {
      hide IsFree, Pow2, Used, PageLive, Linked;
      ghost var lives := Lives();
      db := TakeSlot(p, pageSize);
      assert forall j {:trigger pages[j]} :: 0 <= j < |pages| && j != i ==> PageLive(pages[j]) == old(PageLive(pages[j]));
    }

    /** Takes a slot of page i, seen from the set of live addresses. */
    method TakeFrom(p: DbPage, ghost i: nat) returns (db: nat)
      requires Shape() && i < |pages| && p == pages[i] && p.useCnt < p.numDb
      requires forall j {:trigger pages[j]} :: 0 <= j < |pages| && j != i ==> pages[j].useCnt > 0
      modifies p`useCnt, p.bitmap
      ensures Valid() && db != 0 && db !in old(Live()) && Live() == old(Live()) + {db} && db % 64 == 0
      ensures p.buf <= db < p.buf + pageSize
    {
      hide IsFree, Pow2, Used, PageLive, Linked, Lives;
      ghost var lives := Lives();
      db := TakeOn(p, i);
      AddrFacts(p, db);
      UnionAdd(lives, i, db);
      NotElsewhere(i, db);
      NewInUnion(lives, Lives(), i, db);
    }

    lemma AddrFacts(p: DbPage, db: nat)
      requires Shape() && p in pages && exists x: nat :: x < p.numDb && db == Addr(p, x)
      ensures db != 0 && db % 64 == 0 && p.buf <= db < p.buf + pageSize
    {
      hide Pow2, Used;
      var x: nat :| x < p.numDb && db == Addr(p, x);
      PageOfAddr(p, x, pageSize);
      AlignedAddr(p, x);
    }

    lemma AlignedAddr(p: DbPage, x: nat)
      requires Shape() && PageOk(p, pageSize)
      ensures Addr(p, x) % 64 == 0
    {
      hide Used, Pow2;
      var k: nat :| 6 <= k <= 31 && pageSize == Pow2(k);
      Pow2Add(6, k - 6);
      Pow2Small();
      MultipleOfMultiple(p.buf, 64, Pow2(k - 6), x);
    }

    static lemma MultipleOfMultiple(b: nat, u: nat, m: nat, x: nat)
      requires u > 0 && m > 0 && u * m > 0 && b % (u * m) == 0
      ensures (b + u * x) % u == 0
    {
      var q := b / (u * m);
      Associate(q, u, m);
      Associate(u, q, m);
      assert b == u * (q * m);
      Distribute(q * m, x, u);
      DivModUnique(b + u * x, u, q * m + x, 0);
    }

    /** An address of page i is on no other page. */
    lemma NotElsewhere(i: nat, db: nat)
      requires Shape() && i < |pages| && db in Lives()[i]
      ensures forall j :: 0 <= j < |pages| && j != i ==> db !in Lives()[j]
    {
      hide IsFree, Used, Pow2, PageLive;
      forall j | 0 <= j < |pages| && j != i
        ensures db !in Lives()[j]
      {
        if i < j {
          LivesDisjoint(i, j);
        } else {
          LivesDisjoint(j, i);
        }
      }
    }

    /** The pages next to page i. */
    ghost function Neighbours(i: nat): set<DbPage>
      reads this
      requires i < |pages|
    {
      (if i == 0 then {} else {pages[i - 1]}) + (if i == |pages| - 1 then {} else {pages[i + 1]})
    }

    /** The list without page i. */
    ghost function Without(i: nat): seq<DbPage>
      reads this
      requires i < |pages|
    {
      pages[..i] + pages[i + 1..]
    }

    /** The pointer updates that take page i out. */
    method UnlinkPage(p: DbPage, ghost i: nat)
      requires Linked(page, pages) && Separate(pages) && i < |pages| && p == pages[i]
      modifies this`page, Neighbours(i)`prev, Neighbours(i)`next
      ensures Linked(page, Without(i))
    {
      assert forall j {:trigger pages[j]} :: 0 <= j < |pages| ==> LinkAt(pages, j);
      if p.prev != null {
        p.prev.next := p.next;
      } else {
        page := p.next;
      }
      if p.next != null {
        p.next.prev := p.prev;
      }
      LinkedSkip(pages, i);
    }

    /** Takes page i out of the list. */
    method RemovePage(p: DbPage, ghost i: nat)
      requires Valid() && i < |pages| && p == pages[i]
      modifies this`page, this`pages, Neighbours(i)`prev, Neighbours(i)`next
      ensures Valid() && pages == old(Without(i))
      ensures Lives() == old(Lives())[..i] + old(Lives())[i + 1..]
    {
      hide IsFree, Pow2, Used, PageLive, Linked, Separate, PageOk;
      ghost var lives, was := Lives(), pages;
      SeparateSkip(pages, i);
      UnlinkPage(p, i);
      assert forall j {:trigger was[j]} :: 0 <= j < |was| ==> PageOk(was[j], pageSize) && was[j].useCnt > 0;
      pages := Without(i);
      assert forall k {:trigger pages[k]} :: 0 <= k < |pages| ==> pages[k] == was[if k < i then k else k + 1];
      assert Valid();
      LivesSkip(was, i, lives);
    }

    /** Pages keep their live addresses when another page leaves the list. */
    lemma LivesSkip(was: seq<DbPage>, i: nat, lives: seq<set<nat>>)
      requires Shape() && i < |was| == |lives| && pages == was[..i] + was[i + 1..]
      requires forall j {:trigger was[j]} :: 0 <= j < |was| ==> PageOk(was[j], pageSize) && PageLive(was[j]) == lives[j]
      ensures Lives() == lives[..i] + lives[i + 1..]
    {
      hide IsFree, Pow2, Used, PageLive, Linked, Separate;
      forall k | 0 <= k < |pages|
        ensures Lives()[k] == (lives[..i] + lives[i + 1..])[k]
      {
        var o := if k < i then k else k + 1;
        assert pages[k] == was[o];
      }
    }

    /** First page that an address belongs to. */
    method FindPage(base: nat) returns (p: DbPage?, ghost i: nat)
      requires Valid()
      ensures p == null ==> forall j {:trigger pages[j]} :: 0 <= j < |pages| ==> pages[j].buf != base
      ensures p != null ==> i < |pages| && p == pages[i] && p.buf == base
    {
      hide IsFree, Pow2, Used;
      p := page;
      i := 0;
      while p != null && p.buf != base
        invariant i <= |pages| && p == (if i < |pages| then pages[i] else null)
        invariant forall j {:trigger pages[j]} :: 0 <= j < i ==> pages[j].buf != base
        decreases |pages| - i
      {
        assert LinkAt(pages, i);
        p := p.next;
        i := i + 1;
      }
    }

    /** The address of the page that db would be on. */
    function Base(db: nat): int
      reads this
      requires pageSize > 0
    {
      db - db % pageSize
    }

    lemma MaskIsBase(db: u64)
      requires Shape()
      ensures pageSize > 0 && And(db, ALL_ONES - (pageSize - 1)) == Base(db)
    {
      hide And, Pow2, Linked, Separate, PageOk;
      var k: nat :| 6 <= k <= 31 && pageSize == Pow2(k);
      Pow2Constants();
      AndHighMask(db, k, WORD_BITS);
    }

    /** A live address belongs to the page its base says, and to no other. */
    lemma LiveOnPage(db: nat, i: nat)
      requires Shape() && i < |pages| && db in Live() && pageSize > 0 && pages[i].buf == Base(db)
      ensures db in Lives()[i]
    {
      hide IsFree, Used, Pow2;
      var j, a :| 0 <= j < |pages| && a in Lives()[j] && a == db;
      var x :| 0 <= x < pages[j].numDb && db == Addr(pages[j], x);
      PageOfAddr(pages[j], x, pageSize);
    }

    /**
      Takes a doorbell back. A live address leaves the set of live ones and nothing else changes
      there; an address on none of the pages changes nothing at all.
     */
    method FreeSwDb(db: u64)
      requires Valid() && pageSize > 0
      requires db in Live() || forall i {:trigger pages[i]} :: 0 <= i < |pages| ==> pages[i].buf != Base(db)
      modifies this, pages, set p | p in pages :: p.bitmap
      ensures Valid() && Live() == old(Live()) - {db}
      ensures db !in old(Live()) ==> pages == old(pages) && Lives() == old(Lives())
    {
      hide IsFree, Pow2, Used, PageLive, Linked, Separate, PageOk, Lives, And;
      MaskIsBase(db);
      var p, i := FindPage(And(db, ALL_ONES - (pageSize - 1)));
      if p == null {
        NotLive(db);
        return;
      }
      LiveOnPage(db, i);
      ReturnTo(p, i, db);
    }

    lemma NotLive(db: nat)
      requires Shape() && pageSize > 0
      requires forall i {:trigger pages[i]} :: 0 <= i < |pages| ==> pages[i].buf != Base(db)
      ensures db !in Live()
    {
      hide IsFree, Used, Pow2;
      if db in Live() {
        var j, a :| 0 <= j < |pages| && a in Lives()[j] && a == db;
        var x :| 0 <= x < pages[j].numDb && db == Addr(pages[j], x);
        PageOfAddr(pages[j], x, pageSize);
      }
    }

    /** The last slot of a page takes the page with it. */
    method ReturnTo(p: DbPage, ghost i: nat, db: nat)
      requires Valid() && i < |pages| && p == pages[i] && db in Lives()[i]
      modifies this`page, this`pages, p`useCnt, p.bitmap, Neighbours(i)`prev, Neighbours(i)`next
      ensures Valid() && Live() == old(Live()) - {db}
    {
      hide IsFree, Pow2, Used, PageLive, Linked, Separate;
      ghost var lives := Lives();
      NotElsewhere(i, db);
      if p.useCnt - 1 == 0 {
        LastSlot(p, db, pageSize);
        UnionSkip(lives, i, db);
        RemovePage(p, i);
      } else {
        UnionRemove(lives, i, db);
        ReturnOn(p, i, db);
      }
    }

    /** Gives a slot of page i back: only that page changes. */
    method ReturnOn(p: DbPage, ghost i: nat, db: nat)
      requires Valid() && i < |pages| && p == pages[i] && db in Lives()[i] && p.useCnt > 1
      modifies p`useCnt, p.bitmap
      ensures Valid() && Lives() == old(Lives())[i := old(Lives())[i] - {db}]
    {
      hide IsFree, Pow2, Used, PageLive, Linked;
      ghost var lives := Lives();
      ReturnSlot(p, db, pageSize);
      assert forall j {:trigger pages[j]} :: 0 <= j < |pages| && j != i ==> PageLive(pages[j]) == old(PageLive(pages[j]));
    }

    lemma PageSizeBounds()
      requires Shape()
      ensures 64 <= pageSize <= 0x8000_0000
    {
      var k: nat :| 6 <= k <= 31 && pageSize == Pow2(k);
      Pow2Monotone(6, k);
      Pow2Monotone(k, 31);
      Pow2Constants();
    }
  }

  method NewPage(buf: nat, pageSize: u32) returns (p: DbPage)
    requires 64 <= pageSize && buf % pageSize == 0 && 0 < buf && buf + pageSize <= TWO_64
    ensures fresh(p) && fresh(p.bitmap) && p.buf == buf && PageOk(p, pageSize) && p.useCnt == 0 && PageLive(p) == {}
  {
    hide IsFree;
    var bitmap := BitmapAlloc(pageSize / DB_SIZE);
    p := new DbPage(buf, pageSize / DB_SIZE, bitmap);
    UsedBounds(bitmap[..], p.numDb);
  }

  /** A list with one more page in front is linked when the rest was and the ends meet. */
  lemma LinkedFront(p: DbPage, rest: seq<DbPage>)
    requires p !in rest && p.prev == null && p.next == (if rest == [] then null else rest[0])
    requires forall i :: 0 <= i < |rest| ==>
               && rest[i].prev == (if i == 0 then p else rest[i - 1])
               && rest[i].next == (if i == |rest| - 1 then null else rest[i + 1])
    ensures Linked(p, [p] + rest)
  {
    var all := [p] + rest;
    forall i | 0 <= i < |all|
      ensures LinkAt(all, i)
    {
      if i > 0 {
        var r := rest[i - 1];
        assert r.prev == (if i - 1 == 0 then p else rest[i - 2]);
        assert r.next == (if i - 1 == |rest| - 1 then null else rest[i]);
      }
    }
  }

  lemma SeparateFront(p: DbPage, pages: seq<DbPage>)
    requires Separate(pages) && p !in pages
    requires forall i :: 0 <= i < |pages| ==> pages[i].buf != p.buf && pages[i].bitmap != p.bitmap
    ensures Separate([p] + pages)
  {
    var all := [p] + pages;
    assert forall k {:trigger all[k]} :: 0 < k < |all| ==> all[k] == pages[k - 1];
  }

  lemma SeparateSkip(pages: seq<DbPage>, i: nat)
    requires Separate(pages) && i < |pages|
    ensures Separate(pages[..i] + pages[i + 1..])
  {
    var rest := pages[..i] + pages[i + 1..];
    assert forall k {:trigger rest[k]} :: 0 <= k < |rest| ==> rest[k] == pages[if k < i then k else k + 1];
  }

  /** What the pointers look like once page i has been stepped over, and that this is the list without it. */
  lemma LinkedSkip(pages: seq<DbPage>, i: nat)
    requires i < |pages|
    requires forall j {:trigger pages[j]} :: 0 <= j < |pages| && j != i ==>
               && pages[j].prev == (if j == 0 || (j == 1 && i == 0) then null else if j == i + 1 then pages[i - 1] else pages[j - 1])
               && pages[j].next == (if j == |pages| - 1 || (i == |pages| - 1 && j == i - 1) then null
                                    else if j == i - 1 then pages[i + 1] else pages[j + 1])
    ensures var rest := pages[..i] + pages[i + 1..];
            Linked(if rest == [] then null else rest[0], rest)
  {
    var rest := pages[..i] + pages[i + 1..];
    forall k | 0 <= k < |rest|
      ensures LinkAt(rest, k)
    {
      var o := if k < i then k else k + 1;
      assert rest[k] == pages[o];
      assert k > 0 ==> rest[k - 1] == pages[if k - 1 < i then k - 1 else k];
      assert k < |rest| - 1 ==> rest[k + 1] == pages[if k + 1 < i then k + 1 else k + 2];
    }
  }

  ghost function Union(ls: seq<set<nat>>): set<nat> {
    set i, a | 0 <= i < |ls| && a in ls[i] :: a
  }

  lemma UnionAdd(ls: seq<set<nat>>, i: nat, x: nat)
    requires i < |ls|
    ensures Union(ls[i := ls[i] + {x}]) == Union(ls) + {x}
  {
    var ls' := ls[i := ls[i] + {x}];
    forall a | a in Union(ls)
      ensures a in Union(ls')
    {
      var j :| 0 <= j < |ls| && a in ls[j];
      assert a in ls'[j];
    }
    assert x in ls'[i];
  }

  lemma NewInUnion(ls: seq<set<nat>>, ls': seq<set<nat>>, i: nat, x: nat)
    requires i < |ls| && ls' == ls[i := ls[i] + {x}] && x !in ls[i]
    requires forall j :: 0 <= j < |ls'| && j != i ==> x !in ls'[j]
    ensures x !in Union(ls)
  {
    assert forall j :: 0 <= j < |ls| && j != i ==> ls[j] == ls'[j];
  }

  lemma UnionRemove(ls: seq<set<nat>>, i: nat, x: nat)
    requires i < |ls| && x in ls[i]
    requires forall j :: 0 <= j < |ls| && j != i ==> x !in ls[j]
    ensures Union(ls[i := ls[i] - {x}]) == Union(ls) - {x}
  {
    var ls' := ls[i := ls[i] - {x}];
    forall a | a in Union(ls) - {x}
      ensures a in Union(ls')
    {
      var j :| 0 <= j < |ls| && a in ls[j];
      assert a in ls'[j];
    }
  }

  lemma UnionSkip(ls: seq<set<nat>>, i: nat, x: nat)
    requires i < |ls| && ls[i] == {x}
    requires forall j :: 0 <= j < |ls| && j != i ==> x !in ls[j]
    ensures Union(ls[..i] + ls[i + 1..]) == Union(ls) - {x}
  {
    var ls' := ls[..i] + ls[i + 1..];
    forall a | a in Union(ls) - {x}
      ensures a in Union(ls')
    {
      var j :| 0 <= j < |ls| && a in ls[j];
      assert a in ls'[if j < i then j else j - 1];
    }
    forall a | a in Union(ls')
      ensures a in Union(ls) - {x}
    {
      var j :| 0 <= j < |ls'| && a in ls'[j];
      assert a in ls[if j < i then j else j + 1];
    }
  }

  lemma UnionCons(ls: seq<set<nat>>)
    ensures Union([{}] + ls) == Union(ls)
  {
    var ls' := [{}] + ls;
    forall a | a in Union(ls)
      ensures a in Union(ls')
    {
      var j :| 0 <= j < |ls| && a in ls[j];
      assert a in ls'[j + 1];
    }
  }

  /** A page's first address is what masking any of its addresses gives. */
  lemma PageOfAddr(p: DbPage, i: nat, pageSize: nat)
    requires PageOk(p, pageSize) && i < p.numDb
    ensures Addr(p, i) - Addr(p, i) % pageSize == p.buf && (Addr(p, i) - p.buf) / DB_SIZE == i
    ensures Addr(p, i) % pageSize == DB_SIZE * i < pageSize
  {
    hide Used;
    DivModUnique(Addr(p, i), pageSize, p.buf / pageSize, DB_SIZE * i);
  }

  /** Taking a slot of a page with room. */
  method TakeSlot(p: DbPage, pageSize: u32) returns (db: nat)
    requires PageOk(p, pageSize) && p.useCnt < p.numDb
    modifies p`useCnt, p.bitmap
    ensures PageOk(p, pageSize) && p.useCnt == old(p.useCnt) + 1
    ensures db !in old(PageLive(p)) && PageLive(p) == old(PageLive(p)) + {db}
    ensures exists i: nat :: i < p.numDb && db == Addr(p, i)
  {
    hide IsFree, Used;
    ghost var a := p.bitmap[..];
    SearchSucceeds(a, p.numDb);
    var ret, npos := BitmapUseIdx(p.bitmap, p.numDb);
    UsedFlipped(a, p.bitmap[..], npos, p.numDb);
    db := p.buf + npos * DB_SIZE;
    p.useCnt := p.useCnt + 1;
    assert db == Addr(p, npos);
  }

  /** Giving a live slot of a page back. */
  method ReturnSlot(p: DbPage, db: nat, pageSize: u32)
    requires PageOk(p, pageSize) && db in PageLive(p) && p.useCnt > 0
    modifies p`useCnt, p.bitmap
    ensures PageOk(p, pageSize) && p.useCnt == old(p.useCnt) - 1
    ensures PageLive(p) == old(PageLive(p)) - {db}
  {
    hide IsFree, Used;
    ghost var a := p.bitmap[..];
    ghost var i :| 0 <= i < p.numDb && !IsFree(a, i) && db == Addr(p, i);
    PageOfAddr(p, i, pageSize);
    p.useCnt := p.useCnt - 1;
    var npos := (db - p.buf) / DB_SIZE;
    BitmapFreeIdx(p.bitmap, npos);
    UsedFlipped(a, p.bitmap[..], i, p.numDb);
  }

  /** A page whose only used slot is given back has no live address left. */
  lemma LastSlot(p: DbPage, db: nat, pageSize: nat)
    requires PageOk(p, pageSize) && p.useCnt == 1 && db in PageLive(p)
    ensures PageLive(p) == {db}
  {
    hide IsFree, Used;
    var i :| 0 <= i < p.numDb && !IsFree(p.bitmap[..], i) && db == Addr(p, i);
    forall j | 0 <= j < p.numDb && !IsFree(p.bitmap[..], j)
      ensures j == i
    {
      UsedOnce(p.bitmap[..], p.numDb, i, j);
    }
  }
}
