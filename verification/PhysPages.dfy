/** The physical page allocator: a bitmap of 32768 pages that refines a set of page indices. */
module PhysPages {
  const PAGE_SIZE: nat := 4096
  const MAX_PHYS_PAGES: nat := 32768
  const RESERVED_PAGES: nat := 512 // the first 2 MiB

  predicate IsBelow(i: nat, n: nat) { i < n }

  function Below(n: nat): (s: set<nat>)
    ensures forall i: nat :: i in s <==> i < n
  {
    set i: nat | i < n && IsBelow(i, n)
  }

  /** All page indices of the 128 MiB that the kernel manages. */
  function AllPages(): set<nat> { Below(MAX_PHYS_PAGES) }

  function ReservedPages(): set<nat> { Below(RESERVED_PAGES) }

  /** The pages still to be handed out. */
  function FreePages(used: set<nat>): set<nat> { AllPages() - used }

  /** The lowest free page at or above `from`, or MAX_PHYS_PAGES when there is none. */
  function FirstFree(used: set<nat>, from: nat := 0): (f: nat)
    requires from <= MAX_PHYS_PAGES
    ensures from <= f <= MAX_PHYS_PAGES
    ensures forall j :: from <= j < f ==> j in used
    ensures f < MAX_PHYS_PAGES ==> f !in used
    decreases MAX_PHYS_PAGES - from
  {
    if from == MAX_PHYS_PAGES || from !in used then from else FirstFree(used, from + 1)
  }

  /** Allocation fails exactly when no page is free, and otherwise takes one page off the free ones. */
  lemma FirstFreeExhausted(used: set<nat>)
    ensures FirstFree(used) == MAX_PHYS_PAGES <==> FreePages(used) == {}
    ensures var f := FirstFree(used);
            f < MAX_PHYS_PAGES ==> f in FreePages(used) && FreePages(used + {f}) == FreePages(used) - {f}
  {
    var f := FirstFree(used);
    if f == MAX_PHYS_PAGES {
      assert forall i :: i in FreePages(used) ==> i in used;
    } else {
      assert f in FreePages(used);
    }
  }

  // ---------- The bitmap ----------

  function Mask(k: nat): bv8
    requires k < 8
  {
    1 << k
  }

  predicate BitIsSet(b: bv8, k: nat)
    requires k < 8
  {
    b & Mask(k) != 0
  }

  lemma BitAdded(b: bv8, i: nat, k: nat)
    requires i < 8 && k < 8
    ensures BitIsSet(b | Mask(i), k) <==> k == i || BitIsSet(b, k)
  {
  }

  lemma BitRemoved(b: bv8, i: nat, k: nat)
    requires i < 8 && k < 8
    ensures BitIsSet(b & !Mask(i), k) <==> k != i && BitIsSet(b, k)
  {
  }

  ghost predicate Marked(bitmap: seq<bv8>, i: nat)
    requires |bitmap| == MAX_PHYS_PAGES / 8
  {
    i < MAX_PHYS_PAGES && BitIsSet(bitmap[i / 8], i % 8)
  }

  ghost function MarkedPages(bitmap: seq<bv8>): set<nat>
    requires |bitmap| == MAX_PHYS_PAGES / 8
  {
    set i: nat | i < MAX_PHYS_PAGES && Marked(bitmap, i)
  }

  /** One byte replaced: the pages of the other bytes stay as they are. */
  lemma MarkedElsewhere(bitmap: seq<bv8>, i: nat, byte: bv8, k: nat)
    requires |bitmap| == MAX_PHYS_PAGES / 8 && i < MAX_PHYS_PAGES && k < MAX_PHYS_PAGES
    ensures Marked(bitmap[i / 8 := byte], k) <==>
            if k / 8 == i / 8 then BitIsSet(byte, k % 8) else Marked(bitmap, k)
    ensures k / 8 == i / 8 ==> (Marked(bitmap, k) <==> BitIsSet(bitmap[i / 8], k % 8)) && (k == i <==> k % 8 == i % 8)
  {
    hide BitIsSet;
  }

  lemma BitReplaced(bitmap: seq<bv8>, i: nat, byte: bv8, on: bool)
    requires |bitmap| == MAX_PHYS_PAGES / 8 && i < MAX_PHYS_PAGES
    requires forall j: nat :: j < 8 ==> (BitIsSet(byte, j) <==> if j == i % 8 then on else BitIsSet(bitmap[i / 8], j))
    ensures MarkedPages(bitmap[i / 8 := byte]) == if on then MarkedPages(bitmap) + {i} else MarkedPages(bitmap) - {i}
  {
    hide Marked, BitIsSet;
    forall k: nat | k < MAX_PHYS_PAGES
      ensures Marked(bitmap[i / 8 := byte], k) <==> if k == i then on else Marked(bitmap, k)
    {
      MarkedElsewhere(bitmap, i, byte, k);
    }
    var was, now := MarkedPages(bitmap), MarkedPages(bitmap[i / 8 := byte]);
    assert forall k: nat :: k in was <==> k < MAX_PHYS_PAGES && Marked(bitmap, k);
    assert forall k: nat :: k in now <==> k < MAX_PHYS_PAGES && Marked(bitmap[i / 8 := byte], k);
  }

  lemma SetBit(bitmap: seq<bv8>, i: nat, byte: bv8)
    requires |bitmap| == MAX_PHYS_PAGES / 8 && i < MAX_PHYS_PAGES
    requires byte == bitmap[i / 8] | Mask(i % 8)
    ensures MarkedPages(bitmap[i / 8 := byte]) == MarkedPages(bitmap) + {i}
  {
    hide MarkedPages, BitIsSet, Mask;
    forall j: nat | j < 8 ensures BitIsSet(byte, j) <==> if j == i % 8 then true else BitIsSet(bitmap[i / 8], j) {
      BitAdded(bitmap[i / 8], i % 8, j);
    }
    BitReplaced(bitmap, i, byte, true);
  }

  lemma ClearBit(bitmap: seq<bv8>, i: nat, byte: bv8)
    requires |bitmap| == MAX_PHYS_PAGES / 8 && i < MAX_PHYS_PAGES
    requires byte == bitmap[i / 8] & !Mask(i % 8)
    ensures MarkedPages(bitmap[i / 8 := byte]) == MarkedPages(bitmap) - {i}
  {
    hide MarkedPages, BitIsSet, Mask;
    forall j: nat | j < 8 ensures BitIsSet(byte, j) <==> if j == i % 8 then false else BitIsSet(bitmap[i / 8], j) {
      BitRemoved(bitmap[i / 8], i % 8, j);
    }
    BitReplaced(bitmap, i, byte, false);
  }

  class FrameAllocator {
    const bitmap: array<bv8>

    ghost predicate Valid()
      reads this
    {
      bitmap.Length == MAX_PHYS_PAGES / 8
    }

    ghost function Used(): set<nat>
      requires Valid()
      reads this, bitmap
    {
      MarkedPages(bitmap[..])
    }

    /** The zero-filled bitmap followed by the reservation loop that opens mm_init. */
    constructor ()
      ensures Valid() && fresh(bitmap) && Used() == ReservedPages()
    {
      bitmap := new bv8[MAX_PHYS_PAGES / 8](_ => 0);
      new;
      forall i: nat | i < MAX_PHYS_PAGES
        ensures !Marked(bitmap[..], i)
      {
        ZeroByte(i % 8);
      }
      for i := 0 to RESERVED_PAGES
        invariant Used() == Below(i)
      {
        BitmapSet(i);
      }
    }

    method BitmapSet(i: nat)
      requires Valid() && i < MAX_PHYS_PAGES
      modifies bitmap
      ensures Used() == old(Used()) + {i}
    {
      hide MarkedPages, BitIsSet, Mask;
      ghost var before := bitmap[..];
      var byte := bitmap[i / 8] | Mask(i % 8);
      bitmap[i / 8] := byte;
      assert bitmap[..] == before[i / 8 := byte];
      SetBit(before, i, byte);
    }

    method BitmapClear(i: nat)
      requires Valid() && i < MAX_PHYS_PAGES
      modifies bitmap
      ensures Used() == old(Used()) - {i}
    {
      hide MarkedPages, BitIsSet, Mask;
      ghost var before := bitmap[..];
      var byte := bitmap[i / 8] & !Mask(i % 8);
      bitmap[i / 8] := byte;
      assert bitmap[..] == before[i / 8 := byte];
      ClearBit(before, i, byte);
    }

    method BitmapTest(i: nat) returns (marked: bool)
      requires Valid() && i < MAX_PHYS_PAGES
      ensures marked <==> i in Used()
    {
      hide Mask;
      marked := bitmap[i / 8] & Mask(i % 8) != 0;
      assert marked == Marked(bitmap[..], i);
    }

    method FindFreePage() returns (i: nat)
      requires Valid()
      ensures i == FirstFree(Used())
    {
      hide MarkedPages;
      i := 0;
      while i < MAX_PHYS_PAGES
        invariant i <= MAX_PHYS_PAGES
        invariant FirstFree(Used()) == FirstFree(Used(), i)
      {
        var marked := BitmapTest(i);
        if !marked {
          return;
        }
        i := i + 1;
      }
    }

    /** The address of the lowest free page, which becomes used; 0 when every page is used. */
    method AllocPage() returns (addr: nat)
      requires Valid()
      modifies bitmap
      ensures (addr, Used()) == Alloc(old(Used()))
    {
      var i := FindFreePage();
      if i == MAX_PHYS_PAGES {
        return 0;
      }
      BitmapSet(i);
      addr := i * PAGE_SIZE;
    }

    /** Unaligned and out-of-range addresses are ignored. */
    method FreePage(addr: nat)
      requires Valid()
      modifies bitmap
      ensures Used() == Release(old(Used()), addr)
    {
      if addr % PAGE_SIZE != 0 {
        return;
      }
      var i := addr / PAGE_SIZE;
      if i >= MAX_PHYS_PAGES {
        return;
      }
      BitmapClear(i);
    }
  }

  lemma ZeroByte(k: nat)
    requires k < 8
    ensures !BitIsSet(0, k)
  {
  }

  // ---------- Runs of allocations and releases ----------

  function Alloc(used: set<nat>): (nat, set<nat>) {
    var f := FirstFree(used);
    if f == MAX_PHYS_PAGES then (0, used) else (f * PAGE_SIZE, used + {f})
  }

  function Release(used: set<nat>, addr: nat): set<nat> {
    if addr % PAGE_SIZE == 0 && addr / PAGE_SIZE < MAX_PHYS_PAGES then used - {addr / PAGE_SIZE} else used
  }

  datatype Request = Take | Give(addr: nat)

  /** The used pages together with the addresses handed out and not yet given back. */
  datatype Ledger = Ledger(used: set<nat>, held: set<nat>)

  function Boot(): Ledger { Ledger(ReservedPages(), {}) }

  function Serve(l: Ledger, r: Request): Ledger {
    match r
    case Take =>
      var (addr, used) := Alloc(l.used);
      Ledger(used, if addr == 0 then l.held else l.held + {addr})
    case Give(addr) => Ledger(Release(l.used, addr), l.held - {addr})
  }

  function ServeAll(l: Ledger, rs: seq<Request>): Ledger
    decreases |rs|
  {
    if rs == [] then l else ServeAll(Serve(l, rs[0]), rs[1..])
  }

  /** The release of a page of the first 2 MiB, which nobody was handed. */
  predicate FreesReserved(r: Request) {
    r.Give? && r.addr % PAGE_SIZE == 0 && r.addr / PAGE_SIZE < RESERVED_PAGES
  }

  function PagesOf(held: set<nat>): set<nat> { set a | a in held :: a / PAGE_SIZE }

  /** Every page is reserved, held or free, and in only one of these ways. */
  ghost predicate Balanced(l: Ledger) {
    && (forall a :: a in l.held ==> a % PAGE_SIZE == 0 && RESERVED_PAGES <= a / PAGE_SIZE < MAX_PHYS_PAGES)
    && l.used == ReservedPages() + PagesOf(l.held)
  }

  lemma PagesOfMinus(held: set<nat>, addr: nat)
    requires addr in held && forall a :: a in held ==> a % PAGE_SIZE == 0
    ensures addr / PAGE_SIZE in PagesOf(held)
    ensures PagesOf(held - {addr}) == PagesOf(held) - {addr / PAGE_SIZE}
  {
    forall a | a in held && a != addr
      ensures a / PAGE_SIZE != addr / PAGE_SIZE
    {
      assert a == a / PAGE_SIZE * PAGE_SIZE && addr == addr / PAGE_SIZE * PAGE_SIZE;
    }
    forall p | p in PagesOf(held) - {addr / PAGE_SIZE}
      ensures p in PagesOf(held - {addr})
    {
      var a :| a in held && a / PAGE_SIZE == p;
      assert a in held - {addr};
    }
  }

  lemma TakeKeepsBalance(l: Ledger)
    requires Balanced(l)
    ensures Balanced(Serve(l, Take)) && Alloc(l.used).0 !in l.held
  {
    var l' := Serve(l, Take);
    var f := FirstFree(l.used);
    if f < MAX_PHYS_PAGES {
      assert f !in ReservedPages();
      assert f * PAGE_SIZE / PAGE_SIZE == f;
      assert PagesOf(l'.held) == PagesOf(l.held) + {f} by {
        assert f * PAGE_SIZE in l'.held;
      }
      assert f * PAGE_SIZE in l.held ==> f in PagesOf(l.held);
    }
  }

  /** A release does harm exactly when it frees a reserved page: one of an address that is held gives it back,
      and any other one, unaligned, out of range or free already, changes nothing. */
  lemma ReleaseExact(l: Ledger, addr: nat)
    requires Balanced(l)
    ensures Balanced(Serve(l, Give(addr))) <==> !FreesReserved(Give(addr))
    ensures addr !in l.held && !FreesReserved(Give(addr)) ==> Serve(l, Give(addr)) == l
  {
    var l' := Serve(l, Give(addr));
    var p := addr / PAGE_SIZE;
    if addr in l.held {
      PagesOfMinus(l.held, addr);
    } else if FreesReserved(Give(addr)) {
      assert p in ReservedPages() && p !in l'.used;
    } else {
      assert l'.held == l.held;
      assert addr % PAGE_SIZE == 0 ==> forall a :: a in l.held ==> a / PAGE_SIZE != p;
      assert l'.used == l.used;
    }
  }

  /** Every state of the run is balanced. */
  ghost predicate StaysBalanced(l: Ledger, rs: seq<Request>)
    decreases |rs|
  {
    Balanced(l) && (rs == [] || StaysBalanced(Serve(l, rs[0]), rs[1..]))
  }

  /** Over whole runs the releases of reserved pages are the only ones that do harm. */
  lemma {:induction false} BalanceExact(l: Ledger, rs: seq<Request>)
    requires Balanced(l)
    ensures StaysBalanced(l, rs) <==> forall i :: 0 <= i < |rs| ==> !FreesReserved(rs[i])
    ensures StaysBalanced(l, rs) ==> Balanced(ServeAll(l, rs))
    decreases |rs|
  {
    hide Balanced, FreesReserved;
    if rs != [] {
      var l', rest := Serve(l, rs[0]), rs[1..];
      if rs[0].Take? {
        TakeKeepsBalance(l);
        TakeIsHarmless();
      } else {
        ReleaseExact(l, rs[0].addr);
      }
      if Balanced(l') {
        BalanceExact(l', rest);
        assert forall i :: 0 < i < |rs| ==> rs[i] == rest[i - 1];
        assert forall i :: 0 <= i < |rest| ==> rest[i] == rs[i + 1];
      }
    }
  }

  lemma TakeIsHarmless()
    ensures !FreesReserved(Take)
  {
  }

  lemma {:induction false} BelowCard(n: nat)
    ensures |Below(n)| == n
  {
    if n > 0 {
      BelowCard(n - 1);
      assert Below(n) == Below(n - 1) + {n - 1};
    }
  }

  lemma {:induction false} PagesOfCard(held: set<nat>)
    requires forall a :: a in held ==> a % PAGE_SIZE == 0
    ensures |PagesOf(held)| == |held|
  {
    if held != {} {
      var a :| a in held;
      PagesOfMinus(held, a);
      PagesOfCard(held - {a});
    }
  }

  lemma BalancedCounts(l: Ledger)
    requires Balanced(l)
    ensures RESERVED_PAGES + |l.held| + |FreePages(l.used)| == MAX_PHYS_PAGES
  {
    BelowCard(RESERVED_PAGES);
    BelowCard(MAX_PHYS_PAGES);
    PagesOfCard(l.held);
    assert ReservedPages() !! PagesOf(l.held);
    assert |l.used| == RESERVED_PAGES + |l.held|;
    assert l.used <= AllPages();
    assert |FreePages(l.used)| == |AllPages()| - |l.used|;
  }

  lemma BalancedAlloc(l: Ledger)
    requires Balanced(l)
    ensures var addr := Alloc(l.used).0;
            && addr !in l.held
            && (addr == 0 <==> FreePages(l.used) == {})
            && (addr != 0 ==>
                  && RESERVED_PAGES * PAGE_SIZE <= addr < MAX_PHYS_PAGES * PAGE_SIZE && addr % PAGE_SIZE == 0
                  && forall p: nat :: RESERVED_PAGES <= p < addr / PAGE_SIZE ==> p * PAGE_SIZE in l.held)
  {
    TakeKeepsBalance(l);
    FirstFreeExhausted(l.used);
    var f := FirstFree(l.used);
    assert f !in ReservedPages();
    forall p: nat | RESERVED_PAGES <= p < f
      ensures p * PAGE_SIZE in l.held
    {
      assert p in PagesOf(l.held);
      var a :| a in l.held && a / PAGE_SIZE == p;
      assert a == p * PAGE_SIZE;
    }
  }

  /** After any run from boot that frees no reserved page, the next allocation is the lowest page that is
      neither reserved nor held, and reserved + held + free pages make 32768. */
  lemma RunsFromBoot(rs: seq<Request>)
    requires forall i :: 0 <= i < |rs| ==> !FreesReserved(rs[i])
    ensures var l := ServeAll(Boot(), rs); var addr := Alloc(l.used).0;
            && (forall a :: a in l.held ==> a >= RESERVED_PAGES * PAGE_SIZE)
            && addr !in l.held
            && (addr == 0 <==> FreePages(l.used) == {})
            && (addr != 0 ==>
                  && RESERVED_PAGES * PAGE_SIZE <= addr < MAX_PHYS_PAGES * PAGE_SIZE && addr % PAGE_SIZE == 0
                  && forall p: nat :: RESERVED_PAGES <= p < addr / PAGE_SIZE ==> p * PAGE_SIZE in l.held)
            && RESERVED_PAGES + |l.held| + |FreePages(l.used)| == MAX_PHYS_PAGES
  {
    BootIsBalanced();
    BalanceExact(Boot(), rs);
    BalancedCounts(ServeAll(Boot(), rs));
    BalancedAlloc(ServeAll(Boot(), rs));
  }

  lemma BootIsBalanced()
    ensures Balanced(Boot())
  {
    assert PagesOf({}) == {};
  }

  /** An instance of the harm: once page 0 is released the next allocation takes it, and callers read its
      address 0 as "out of memory". */
  lemma ReleaseOfPageZero()
    ensures FreesReserved(Give(0))
    ensures var l := Serve(Boot(), Give(0));
            !Balanced(l) && Alloc(l.used) == (0, l.used + {0}) && FreePages(l.used) != {}
  {
    BootIsBalanced();
    ReleaseExact(Boot(), 0);
    var l := Serve(Boot(), Give(0));
    assert 0 !in l.used;
    assert 0 in FreePages(l.used);
  }
}
