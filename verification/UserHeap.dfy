/** sys_brk: the user heaps that all processes grow and shrink in one shared address space. */
module UserHeap {
  import opened PhysPages
  import opened Words
  import opened PageTables

  const USER_HEAP_START: nat := 0x40_0000
  const USER_HEAP_MAX: nat := 0x2000_0000
  const KERNEL_VIRT_BASE: nat := 0xFFFF_8000_0000_0000
  const USER_PAGE: nat := 7 // present, writable, user

  /** The address arithmetic wraps at 64 bits. */
  function PageAlignUp(addr: nat): nat { (addr + 4095) % TWO_64 / 4096 * 4096 }

  datatype Proc = Proc(heapStart: nat, brk: nat)

  const EmptyHeap: Proc := Proc(USER_HEAP_START, USER_HEAP_START)

  datatype Sys = Sys(vm: Vm, procs: map<nat, Proc>)

  /** The mapping loop: one fresh page for each page address in [addr, end), stopping when none is left. */
  function Grow(s: Vm, root: nat, addr: nat, end: nat): (Vm, bool)
    decreases end - addr
  {
    if addr >= end then (s, true)
    else
      var (phys, used) := Alloc(s.used);
      if phys == 0 then (s.(used := used), false)
      else Grow(MapPage(s.(used := used), root, addr, phys, USER_PAGE), root, addr + 4096, end)
  }

  /** sys_brk as called by process `pid` (no current process when it is not in the table). */
  function Brk(s: Sys, root: nat, pid: nat, newBrk: nat): (Sys, nat) {
    if pid !in s.procs then (s, 0)
    else
      var p := s.procs[pid];
      if newBrk == 0 || newBrk < p.heapStart || newBrk >= USER_HEAP_MAX || newBrk >= KERNEL_VIRT_BASE then (s, p.brk)
      else if newBrk > p.brk then
        var (vm, ok) := Grow(s.vm, root, PageAlignUp(p.brk), PageAlignUp(newBrk));
        if ok then (Sys(vm, s.procs[pid := p.(brk := newBrk)]), newBrk) else (Sys(vm, s.procs), p.brk)
      else (s.(procs := s.procs[pid := p.(brk := newBrk)]), newBrk)
  }

  // ---------- The invariant ----------

  predicate IsHeapPage(v: nat) { USER_HEAP_START <= v < USER_HEAP_MAX && v % 4096 == 0 }

  /** The tables are well-formed, open to user mode, and no heap page has a huge entry in its way. */
  ghost predicate HeapReady(s: Vm, root: nat) {
    && WellFormed(s, root) && OpenLinks(s, root)
    && (forall v: nat :: IsHeapPage(v) ==> !Blocked(s.mem, root, PtPath(v)))
  }

  ghost predicate BrkInBounds(p: Proc) { p.heapStart == USER_HEAP_START <= p.brk < USER_HEAP_MAX }

  ghost predicate HeapMapped(s: Vm, root: nat, p: Proc) {
    forall v: nat :: IsHeapPage(v) && v < PageAlignUp(p.brk) ==> UserWritable(s.mem, root, v)
  }

  ghost predicate Inv(s: Sys, root: nat) {
    && HeapReady(s.vm, root)
    && (forall pid :: pid in s.procs ==> BrkInBounds(s.procs[pid]))
    && (FreePages(s.vm.used) != {} ==> forall pid :: pid in s.procs ==> HeapMapped(s.vm, root, s.procs[pid]))
  }

  // ---------- One page ----------

  lemma MapKeepsHeapReady(s: Vm, root: nat, addr: nat, phys: nat)
    requires HeapReady(s, root) && addr % 4096 == 0 && phys % 4096 == 0 && !Blocked(s.mem, root, PtPath(addr))
    ensures var s' := MapPage(s, root, addr, phys, USER_PAGE); HeapReady(s', root) && s.used <= s'.used
  {
    hide PtPath, PtIndex, WellFormed, OpenLinks, Blocked, Lookup, MapAt, LeafWord, IsHeapPage, Missing;
    var s' := MapPage(s, root, addr, phys, USER_PAGE);
    var pt, i, e := PtPath(addr), PtIndex(addr), LeafWord(phys, USER_PAGE);
    LeafWordBits(phys, USER_PAGE);
    RootIsNotNull(s, root);
    assert User(USER_PAGE);
    MapAtUpdatesOneEntry(s, root, pt, i, e, USER_PAGE);
    MapAtKeepsOpenLinks(s, root, pt, i, e, USER_PAGE);
    forall v: nat | IsHeapPage(v) ensures !Blocked(s'.mem, root, PtPath(v)) {
      MapAtKeepsUnblocked(s, root, pt, i, e, USER_PAGE, PtPath(v));
    }
  }

  lemma LeafIsUserPage(phys: nat)
    requires phys % 4096 == 0
    ensures var e := LeafWord(phys, USER_PAGE); Present(e) && Writable(e) && User(e)
  {
    hide LeafWord;
    LeafWordBits(phys, USER_PAGE);
  }

  /** A page that translates to a user-writable leaf is user-writable in an address space with open links. */
  lemma OpenLeaf(s: Vm, root: nat, v: nat)
    requires HeapReady(s, root)
    ensures UserWritable(s.mem, root, v) <==>
            var t := Translate(s.mem, root, v); t.Page? && Writable(t.leaf) && User(t.leaf)
  {
    hide Translate, WellFormed, OpenLinks;
    var t := Translate(s.mem, root, v);
    if t.Page? && Writable(t.leaf) && User(t.leaf) {
      OpenLinksSuffice(s, root, v);
    }
  }

  /** Mapping one page with one frame: the page is user-writable afterwards exactly when the missing tables
      fit in the free pages, and no page stops being user-writable. */
  lemma MapHeapPage(s: Vm, root: nat, addr: nat, phys: nat)
    requires HeapReady(s, root) && addr % 4096 == 0 && phys % 4096 == 0 && !Blocked(s.mem, root, PtPath(addr))
    ensures var s' := MapPage(s, root, addr, phys, USER_PAGE);
            && HeapReady(s', root) && s.used <= s'.used
            && (Missing(s.mem, root, PtPath(addr)) <= |FreePages(s.used)| <==> UserWritable(s'.mem, root, addr))
            && (Missing(s.mem, root, PtPath(addr)) > |FreePages(s.used)| ==> FreePages(s'.used) == {})
            && (forall v: nat :: UserWritable(s.mem, root, v) ==> UserWritable(s'.mem, root, v))
  {
    hide PtPath, PageOf, UserWritable, Translate, Missing, Writable, User, LeafWord, Blocked, MapPage;
    var s' := MapPage(s, root, addr, phys, USER_PAGE);
    MapKeepsHeapReady(s, root, addr, phys);
    MapPageRefinesUpdate(s, root, addr, phys, USER_PAGE);
    LeafIsUserPage(phys);
    OpenLeaf(s', root, addr);
    if Missing(s.mem, root, PtPath(addr)) > |FreePages(s.used)| {
      NoRoomLeavesUnmapped(s, root, addr, phys);
    }
    forall v: nat | UserWritable(s.mem, root, v) ensures UserWritable(s'.mem, root, v) {
      OpenLeaf(s, root, v);
      OpenLeaf(s', root, v);
    }
  }

  lemma NoRoomLeavesUnmapped(s: Vm, root: nat, addr: nat, phys: nat)
    requires HeapReady(s, root) && addr % 4096 == 0 && phys % 4096 == 0 && !Blocked(s.mem, root, PtPath(addr))
    requires Missing(s.mem, root, PtPath(addr)) > |FreePages(s.used)|
    ensures !Translate(s.mem, root, addr).Page?
    ensures FreePages(MapPage(s, root, addr, phys, USER_PAGE).used) == {}
  {
    hide PtPath, PtIndex, WellFormed, OpenLinks, Blocked, Lookup, MapAt, LeafWord, Missing;
    var pt, i, e := PtPath(addr), PtIndex(addr), LeafWord(phys, USER_PAGE);
    MissingTablesMapNoPage(s.mem, root, pt, i);
    LeafWordBits(phys, USER_PAGE);
    RootIsNotNull(s, root);
    MapAtUpdatesOneEntry(s, root, pt, i, e, USER_PAGE);
  }

  lemma AllocShrinks(used: set<nat>)
    ensures var (phys, used') := Alloc(used);
            used <= used' && phys % 4096 == 0
  {
  }

  lemma {:induction false} GrowMapsRange(s: Vm, root: nat, addr: nat, end: nat)
    requires HeapReady(s, root) && USER_HEAP_START <= addr && addr % 4096 == 0 && end <= USER_HEAP_MAX
    ensures var (s', ok) := Grow(s, root, addr, end);
            && HeapReady(s', root) && s.used <= s'.used
            && (forall v: nat :: UserWritable(s.mem, root, v) ==> UserWritable(s'.mem, root, v))
            && (ok && FreePages(s'.used) != {} ==>
                  forall v: nat :: IsHeapPage(v) && addr <= v < end ==> UserWritable(s'.mem, root, v))
    decreases end - addr
  {
    hide UserWritable;
    hide MapPage;
    hide HeapReady;
    if addr < end {
      var (phys, used) := Alloc(s.used);
      AllocShrinks(s.used);
      var a := s.(used := used);
      StaysReady(s, root, used);
      if phys != 0 {
        HeapPageUnblocked(a, root, addr);
        MapHeapPage(a, root, addr, phys);
        GrowMapsRange(MapPage(a, root, addr, phys, USER_PAGE), root, addr + 4096, end);
        forall v: nat | IsHeapPage(v) && addr <= v < end ensures v == addr || addr + 4096 <= v {
        }
      }
    }
  }

  lemma HeapPageUnblocked(s: Vm, root: nat, addr: nat)
    requires HeapReady(s, root) && IsHeapPage(addr)
    ensures !Blocked(s.mem, root, PtPath(addr))
  {
  }

  lemma StaysReady(s: Vm, root: nat, used: set<nat>)
    requires HeapReady(s, root) && s.used <= used
    ensures HeapReady(s.(used := used), root)
  {
  }

  // ---------- One turn of the mapping loop ----------

  /** The page that one turn of the mapping loop takes, and the state it leaves. */
  function MapNext(s: Vm, root: nat, addr: nat): Vm {
    var (phys, used) := Alloc(s.used);
    MapPage(s.(used := used), root, addr, phys, USER_PAGE)
  }

  /** Page v lies in a frame that was free in `used`. */
  ghost predicate InNewFrame(s: Vm, root: nat, v: nat, used: set<nat>) {
    var t := Translate(s.mem, root, v);
    t.Page? && AddrOf(t.leaf) / 4096 !in used && AddrOf(t.leaf) / 4096 in s.used
  }

  /** One turn of the loop with a page to take: either the tables fit beside it, or nothing is left. */
  lemma TurnExact(s: Vm, root: nat, addr: nat)
    requires HeapReady(s, root) && IsHeapPage(addr) && FreePages(s.used) != {}
    ensures var s' := MapNext(s, root, addr); var need := 1 + Missing(s.mem, root, PtPath(addr));
            && Alloc(s.used).0 != 0 && HeapReady(s', root) && s.used <= s'.used
            && (forall v: nat :: UserWritable(s.mem, root, v) ==> UserWritable(s'.mem, root, v))
            && (forall w: nat :: PageOf(w) != PageOf(addr) ==> Translate(s'.mem, root, w) == Translate(s.mem, root, w))
            && (if need <= |FreePages(s.used)| then
                  && UserWritable(s'.mem, root, addr) && InNewFrame(s', root, addr, s.used)
                  && Created(s.mem, s'.mem, root, Route(PtPath(addr))) && |FreePages(s'.used)| == |FreePages(s.used)| - need
                else
                  && FreePages(s'.used) == {} && !UserWritable(s'.mem, root, addr)
                  && Translate(s'.mem, root, addr) == Translate(s.mem, root, addr))
  {
    hide PtPath, PageOf, UserWritable, Translate, Missing, LeafWord, Blocked, MapPage, AddrOf, Route;
    hide WellFormed, OpenLinks, IsHeapPage;
    var (phys, used) := Alloc(s.used);
    FreePageIsNotNull(s, root);
    StaysReady(s, root, used);
    var a := s.(used := used);
    HeapPageUnblocked(a, root, addr);
    assert addr % 4096 == 0 by { AlignedPage(addr); }
    MapHeapPage(a, root, addr, phys);
    MapPageRefinesUpdate(a, root, addr, phys, USER_PAGE);
    LeafFrame(phys);
    if Missing(a.mem, root, PtPath(addr)) <= |FreePages(used)| {
      MapPageCounts(a, root, addr, phys, USER_PAGE);
    }
  }

  lemma AlignedPage(addr: nat)
    requires IsHeapPage(addr)
    ensures addr % 4096 == 0
  {
  }

  lemma FreePageIsNotNull(s: Vm, root: nat)
    requires HeapReady(s, root) && FreePages(s.used) != {}
    ensures var (phys, used) := Alloc(s.used);
            && phys != 0 && phys % 4096 == 0 && phys < TWO_52 && phys / 4096 !in s.used
            && used == s.used + {phys / 4096} && |FreePages(used)| == |FreePages(s.used)| - 1
  {
    FirstFreeExhausted(s.used);
  }

  lemma LeafFrame(phys: nat)
    requires phys % 4096 == 0 && phys < TWO_52
    ensures AddrOf(LeafWord(phys, USER_PAGE)) == phys
  {
    LeafWordFields(phys, USER_PAGE);
  }

  // ---------- What a growth reports and what it does ----------

  lemma GrowUnfolds(s: Vm, root: nat, addr: nat, end: nat)
    requires HeapReady(s, root)
    ensures addr >= end ==> Grow(s, root, addr, end) == (s, true)
    ensures addr < end ==>
              Grow(s, root, addr, end) ==
              if FreePages(s.used) == {} then (s, false) else Grow(MapNext(s, root, addr), root, addr + 4096, end)
  {
    hide MapPage, HeapReady;
    FirstFreeExhausted(s.used);
    if FreePages(s.used) != {} {
      FreePageIsNotNull(s, root);
    }
  }

  /** A growth of the pages addr..last reports success exactly when all of them but the last, with their tables,
      leave a page free. On success those pages are mapped, and the last one exactly when the frames and the
      missing tables of the whole range fit in the free pages: mm_map_page does not report its own failure. */
  lemma {:induction false} GrowExact(s: Vm, root: nat, addr: nat, last: nat)
    requires HeapReady(s, root) && IsHeapPage(addr) && IsHeapPage(last) && addr <= last
    ensures var (s', ok) := Grow(s, root, addr, last + 4096); var free := |FreePages(s.used)|;
            && (ok <==> Need(s.mem, root, addr, last) < free)
            && (ok ==> forall v: nat :: IsHeapPage(v) && addr <= v < last ==> UserWritable(s'.mem, root, v))
            && (ok ==> (UserWritable(s'.mem, root, last) <==> Need(s.mem, root, addr, last + 4096) <= free))
            && (Need(s.mem, root, addr, last + 4096) <= free ==>
                  && ok && |FreePages(s'.used)| == free - Need(s.mem, root, addr, last + 4096)
                  && Created(s.mem, s'.mem, root, LackingTables(s.mem, root, addr, last + 4096)))
    decreases last - addr
  {
    hide UserWritable, HeapReady, Missing, PtPath, Need, MapNext, Created, InNewFrame, Grow, Translate, PageOf, FreePages;
    var end := last + 4096;
    GrowUnfolds(s, root, addr, end);
    NeedOfPage(s.mem, root, addr, end);
    if addr < last {
      NeedOfPage(s.mem, root, addr, last);
    } else {
      NothingNeeded(s.mem, root, addr);
    }
    if FreePages(s.used) != {} {
      TurnExact(s, root, addr);
      var s1 := MapNext(s, root, addr);
      var s' := Grow(s, root, addr, end).0;
      GrowUnfolds(s1, root, addr + 4096, end);
      if 1 + Missing(s.mem, root, PtPath(addr)) <= |FreePages(s.used)| {
        if addr < last {
          NextHeapPage(addr, last);
          GrowMapsRange(s1, root, addr + 4096, end);
          GrowExact(s1, root, addr + 4096, last);
          NeedOfFirst(s.mem, s1.mem, root, addr, end);
          NeedOfFirst(s.mem, s1.mem, root, addr, last);
        } else {
          NoneCreated(s1.mem, root, end);
        }
        if Created(s1.mem, s'.mem, root, LackingTables(s1.mem, root, addr + 4096, end)) {
          CreatedFirst(s.mem, s1.mem, s'.mem, root, addr, end);
        }
      }
    }
  }

  /** Heap pages follow one another at a distance of 4096. */
  lemma NextHeapPage(addr: nat, last: nat)
    requires IsHeapPage(addr) && IsHeapPage(last) && addr < last
    ensures IsHeapPage(addr + 4096) && addr + 4096 <= last && last + 4096 <= USER_HEAP_MAX
    ensures forall v: nat :: IsHeapPage(v) && addr <= v ==> v == addr || addr + 4096 <= v
  {
  }

  lemma SamePage(m: Memory, root: nat, v: nat, w: nat)
    requires PageOf(v) == PageOf(w)
    ensures Translate(m, root, v) == Translate(m, root, w)
  {
    IndicesIdentifyPage(v, w);
  }

  lemma HeapPageNumber(v: nat)
    requires IsHeapPage(v)
    ensures PageOf(v) * 4096 == v
  {
  }

  /** A growth changes the translation of no page but addr..last, and puts those it maps into frames that were
      free: all but the last on success, and the last one too when everything fits. */
  lemma {:induction false} GrowTranslates(s: Vm, root: nat, addr: nat, last: nat)
    requires HeapReady(s, root) && IsHeapPage(addr) && IsHeapPage(last) && addr <= last
    ensures var (s', ok) := Grow(s, root, addr, last + 4096);
            && s.used <= s'.used
            && (forall w: nat :: Translate(s'.mem, root, w) == Translate(s.mem, root, w) ||
                                 (addr <= PageOf(w) * 4096 <= last && InNewFrame(s', root, w, s.used)))
            && (ok ==> forall v: nat :: IsHeapPage(v) && addr <= v < last ==> InNewFrame(s', root, v, s.used))
            && (Need(s.mem, root, addr, last + 4096) <= |FreePages(s.used)| ==> InNewFrame(s', root, last, s.used))
    decreases last - addr
  {
    hide UserWritable, HeapReady, Missing, PtPath, Need, MapNext, Created, Route, Grow, Translate, PageOf, FreePages;
    hide AddrOf;
    var end := last + 4096;
    var (s', ok) := Grow(s, root, addr, end);
    GrowUnfolds(s, root, addr, end);
    NeedOfPage(s.mem, root, addr, end);
    if FreePages(s.used) != {} {
      TurnExact(s, root, addr);
      var s1 := MapNext(s, root, addr);
      GrowUnfolds(s1, root, addr + 4096, end);
      HeapPageNumber(addr);
      forall w: nat | PageOf(w) == PageOf(addr) ensures Translate(s1.mem, root, w) == Translate(s1.mem, root, addr)
        ensures Translate(s.mem, root, w) == Translate(s.mem, root, addr)
      {
        SamePage(s1.mem, root, w, addr);
        SamePage(s.mem, root, w, addr);
      }
      if addr < last {
        NextHeapPage(addr, last);
        GrowTranslates(s1, root, addr + 4096, last);
        if 1 + Missing(s.mem, root, PtPath(addr)) <= |FreePages(s.used)| {
          NeedOfFirst(s.mem, s1.mem, root, addr, end);
        }
      }
    }
  }

  /** The frames of the mapped heap pages are used pages. */
  ghost predicate FramesUsed(s: Vm, root: nat) {
    forall v: nat :: IsHeapPage(v) && Translate(s.mem, root, v).Page? ==>
      AddrOf(Translate(s.mem, root, v).leaf) / 4096 in s.used
  }

  /** A page in a frame that was free translates differently from before. */
  lemma NewFrameDiffers(s: Vm, s': Vm, root: nat, v: nat)
    requires FramesUsed(s, root) && IsHeapPage(v) && InNewFrame(s', root, v, s.used)
    ensures Translate(s'.mem, root, v) != Translate(s.mem, root, v)
  {
    hide Translate, AddrOf;
  }

  lemma TurnKeepsFrames(s: Vm, root: nat, addr: nat)
    requires HeapReady(s, root) && IsHeapPage(addr) && FreePages(s.used) != {} && FramesUsed(s, root)
    ensures FramesUsed(MapNext(s, root, addr), root)
  {
    hide Translate, AddrOf, PageOf, UserWritable, HeapReady, Missing, PtPath, MapNext, Created, Route, IsHeapPage;
    TurnExact(s, root, addr);
    var s' := MapNext(s, root, addr);
    forall v: nat | IsHeapPage(v) && Translate(s'.mem, root, v).Page?
      ensures AddrOf(Translate(s'.mem, root, v).leaf) / 4096 in s'.used
    {
      if PageOf(v) == PageOf(addr) {
        SamePage(s'.mem, root, v, addr);
        SamePage(s.mem, root, v, addr);
      }
    }
  }

  /** Exactly which pages a growth gives another frame, whether it succeeds or fails part-way: page v of the range
      if and only if the range up to v, with its missing tables, fits in the free pages. */
  lemma {:induction false} GrowChanges(s: Vm, root: nat, addr: nat, last: nat, v: nat)
    requires HeapReady(s, root) && FramesUsed(s, root)
    requires IsHeapPage(addr) && IsHeapPage(last) && IsHeapPage(v) && addr <= v <= last
    ensures var s' := Grow(s, root, addr, last + 4096).0;
            Translate(s'.mem, root, v) != Translate(s.mem, root, v) <==>
            Need(s.mem, root, addr, v + 4096) <= |FreePages(s.used)|
    decreases last - addr
  {
    hide UserWritable, HeapReady, Missing, PtPath, Need, MapNext, Created, Route, Grow, Translate, PageOf, FreePages;
    hide AddrOf, FramesUsed, InNewFrame;
    var end := last + 4096;
    GrowUnfolds(s, root, addr, end);
    NeedOfPage(s.mem, root, addr, v + 4096);
    HeapPageNumber(addr);
    HeapPageNumber(v);
    if FreePages(s.used) != {} {
      TurnExact(s, root, addr);
      TurnKeepsFrames(s, root, addr);
      var s1 := MapNext(s, root, addr);
      GrowUnfolds(s1, root, addr + 4096, end);
      if 1 + Missing(s.mem, root, PtPath(addr)) <= |FreePages(s.used)| {
        NewFrameDiffers(s, s1, root, addr);
        NeedOfFirst(s.mem, s1.mem, root, addr, v + 4096);
        if addr < last {
          NextHeapPage(addr, last);
          if v == addr {
            GrowTranslates(s1, root, addr + 4096, last);
          } else {
            GrowChanges(s1, root, addr + 4096, last, v);
          }
        }
      }
    }
  }

  // ---------- Runs ----------

  lemma AlignUpBounds(a: nat, b: nat)
    requires a <= b < USER_HEAP_MAX
    ensures PageAlignUp(a) % 4096 == 0 && a <= PageAlignUp(a) < a + 4096
    ensures PageAlignUp(a) <= PageAlignUp(b) <= USER_HEAP_MAX
  {
  }

  lemma BrkKeepsInv(s: Sys, root: nat, pid: nat, newBrk: nat)
    requires Inv(s, root)
    ensures var (s', r) := Brk(s, root, pid, newBrk);
            && Inv(s', root)
            && (pid in s.procs ==> pid in s'.procs && r == s'.procs[pid].brk)
            && s.vm.used <= s'.vm.used
  {
    hide UserWritable, HeapReady, PageAlignUp, Grow;
    if pid in s.procs {
      var p := s.procs[pid];
      var (s', r) := Brk(s, root, pid, newBrk);
      if p.brk < newBrk < USER_HEAP_MAX {
        var lo, hi := PageAlignUp(p.brk), PageAlignUp(newBrk);
        AlignUpBounds(p.brk, newBrk);
        GrowMapsRange(s.vm, root, lo, hi);
        if FreePages(s'.vm.used) != {} {
          assert FreePages(s.vm.used) != {};
          forall q, v: nat | q in s'.procs && IsHeapPage(v) && v < PageAlignUp(s'.procs[q].brk)
            ensures UserWritable(s'.vm.mem, root, v)
          {
            if q == pid && lo <= v {
              assert v < hi;
            } else {
              assert HeapMapped(s.vm, root, s.procs[q]);
            }
          }
        }
      } else if newBrk == 0 || newBrk < p.heapStart || newBrk >= USER_HEAP_MAX {
      } else {
        AlignUpBounds(newBrk, p.brk);
        if FreePages(s'.vm.used) != {} {
          forall q | q in s'.procs ensures HeapMapped(s'.vm, root, s'.procs[q]) {
            assert HeapMapped(s.vm, root, s.procs[q]);
          }
        }
      }
    }
  }

  datatype Call = Call(pid: nat, newBrk: nat)

  function Run(s: Sys, root: nat, calls: seq<Call>): Sys
    decreases |calls|
  {
    if calls == [] then s else Run(Brk(s, root, calls[0].pid, calls[0].newBrk).0, root, calls[1..])
  }

  /** Over every run of sys_brk calls by any processes the invariant holds, whatever fails on the way. */
  lemma {:induction false} RunsKeepInv(s: Sys, root: nat, calls: seq<Call>)
    requires Inv(s, root)
    ensures Inv(Run(s, root, calls), root)
    decreases |calls|
  {
    if calls != [] {
      BrkKeepsInv(s, root, calls[0].pid, calls[0].newBrk);
      RunsKeepInv(Brk(s, root, calls[0].pid, calls[0].newBrk).0, root, calls[1..]);
    }
  }

  // ---------- The start ----------

  const USER_STACK_TOP: nat := 0x7FFF_F000_0000

  /** mm_init after the boot code: reserve 2 MiB, then map one page for the user stack. */
  function MmInit(pml4: nat, pdpt: nat, pd: nat): Vm {
    var boot := Vm(BootMemory(pml4, pdpt, pd), ReservedPages());
    var (phys, used) := Alloc(boot.used);
    if phys == 0 then boot.(used := used)
    else MapPage(boot.(used := used), pml4, USER_STACK_TOP - 4096, phys, USER_PAGE)
  }

  /** No heap page lies under the two large pages that the boot code installs. */
  lemma HeapAvoidsBootLargePages(v: nat)
    requires IsHeapPage(v)
    ensures !(PtPath(v).up == Sub(Sub(Top, 0), 0) && PtPath(v).index <= 1)
  {
  }

  lemma StackPageIsNotLarge()
    ensures PtPath(USER_STACK_TOP - 4096).up != Sub(Sub(Top, 0), 0)
  {
    assert Pml4Index(USER_STACK_TOP - 4096) == 255;
  }

  lemma BootIsReady(pml4: nat, pdpt: nat, pd: nat)
    requires BootTables(pml4, pdpt, pd)
    ensures HeapReady(Vm(BootMemory(pml4, pdpt, pd), ReservedPages()), pml4)
  {
    hide Blocked, WellFormed, OpenLinks, BootMemory, BootTables, PtPath;
    BootIsWellFormed(pml4, pdpt, pd);
    forall v: nat | IsHeapPage(v) ensures !Blocked(BootMemory(pml4, pdpt, pd), pml4, PtPath(v)) {
      HeapAvoidsBootLargePages(v);
    }
  }

  lemma InitEstablishesInv(pml4: nat, pdpt: nat, pd: nat, procs: map<nat, Proc>)
    requires BootTables(pml4, pdpt, pd)
    requires forall pid :: pid in procs ==> procs[pid] == EmptyHeap
    ensures Inv(Sys(MmInit(pml4, pdpt, pd), procs), pml4)
  {
    hide Blocked, WellFormed, OpenLinks, UserWritable, BootMemory, BootTables, MapPage, Alloc, PtPath;
    var boot := Vm(BootMemory(pml4, pdpt, pd), ReservedPages());
    BootIsWellFormed(pml4, pdpt, pd);
    BootIsReady(pml4, pdpt, pd);
    var (phys, used) := Alloc(boot.used);
    AllocShrinks(boot.used);
    StaysReady(boot, pml4, used);
    if phys != 0 {
      StackPageIsNotLarge();
      MapHeapPage(boot.(used := used), pml4, USER_STACK_TOP - 4096, phys);
    }
    assert PageAlignUp(USER_HEAP_START) == USER_HEAP_START;
  }

  /** From boot, over every run: every break stays in [heap_start, USER_HEAP_MAX), while a physical page is
      free every page of every heap is present, writable and user, and no heap page meets a huge entry. */
  lemma HeapsStayMapped(pml4: nat, pdpt: nat, pd: nat, procs: map<nat, Proc>, calls: seq<Call>)
    requires BootTables(pml4, pdpt, pd)
    requires forall pid :: pid in procs ==> procs[pid] == EmptyHeap
    ensures var s := Run(Sys(MmInit(pml4, pdpt, pd), procs), pml4, calls);
            && (forall pid :: pid in s.procs ==> s.procs[pid].heapStart <= s.procs[pid].brk < USER_HEAP_MAX)
            && (FreePages(s.vm.used) != {} ==>
                  forall pid, v: nat :: pid in s.procs && IsHeapPage(v) && v < PageAlignUp(s.procs[pid].brk) ==>
                    UserWritable(s.vm.mem, pml4, v))
            && (forall v: nat :: IsHeapPage(v) ==> !Blocked(s.vm.mem, pml4, PtPath(v)))
  {
    hide UserWritable, Blocked, PtPath;
    InitEstablishesInv(pml4, pdpt, pd, procs);
    RunsKeepInv(Sys(MmInit(pml4, pdpt, pd), procs), pml4, calls);
    var s := Run(Sys(MmInit(pml4, pdpt, pd), procs), pml4, calls);
    forall pid, v: nat | FreePages(s.vm.used) != {} && pid in s.procs && IsHeapPage(v) && v < PageAlignUp(s.procs[pid].brk)
      ensures UserWritable(s.vm.mem, pml4, v)
    {
      assert HeapMapped(s.vm, pml4, s.procs[pid]);
    }
  }

  // ---------- What sys_brk answers ----------

  /** A new break that the call refuses to look at: the query brk(0), below the heap, or at USER_HEAP_MAX and above. */
  predicate Refused(p: Proc, newBrk: nat) { newBrk == 0 || newBrk < p.heapStart || 0x2000_0000 <= newBrk }

  /** In every state: without a process nothing happens; a query or a refused break returns the old break and
      changes nothing; a break that does not grow is taken over and leaves memory alone; a growth answers with the
      new break or, changing no break, with the old one. The answer is the caller's break from then on, heapStart
      stays, and so does everything about the other processes. */
  lemma BrkAnswers(s: Sys, root: nat, pid: nat, newBrk: nat)
    ensures var (s', r) := Brk(s, root, pid, newBrk);
            if pid !in s.procs then s' == s && r == 0
            else
              var p := s.procs[pid];
              && s'.procs == s.procs[pid := Proc(p.heapStart, r)]
              && (Refused(p, newBrk) ==> s' == s && r == p.brk)
              && (!Refused(p, newBrk) && newBrk <= p.brk ==> s'.vm == s.vm && r == newBrk)
              && (!Refused(p, newBrk) && newBrk > p.brk ==> r in {p.brk, newBrk})
  {
    hide Grow, PageAlignUp;
    if pid in s.procs {
      var p := s.procs[pid];
      assert s.procs == s.procs[pid := Proc(p.heapStart, p.brk)];
    }
  }

  /** Over every run a process keeps its heap_start, and its break changes by its own calls only. */
  lemma {:induction false} BreaksArePrivate(s: Sys, root: nat, calls: seq<Call>, q: nat)
    ensures var s' := Run(s, root, calls);
            && s'.procs.Keys == s.procs.Keys
            && (q in s.procs ==> s'.procs[q].heapStart == s.procs[q].heapStart)
            && (q in s.procs && (forall i :: 0 <= i < |calls| ==> calls[i].pid != q) ==> s'.procs[q] == s.procs[q])
    decreases |calls|
  {
    hide Brk, Refused;
    if calls != [] {
      BrkAnswers(s, root, calls[0].pid, calls[0].newBrk);
      var s1 := Brk(s, root, calls[0].pid, calls[0].newBrk).0;
      assert s1.procs.Keys == s.procs.Keys;
      BreaksArePrivate(s1, root, calls[1..], q);
    }
  }

  // ---------- The user stack ----------

  /** mm_init maps the user stack page, and no run of calls takes its frame or its rights away. */
  lemma StackStays(pml4: nat, pdpt: nat, pd: nat, procs: map<nat, Proc>, calls: seq<Call>)
    requires BootTables(pml4, pdpt, pd)
    requires forall pid :: pid in procs ==> procs[pid] == EmptyHeap
    ensures var s0 := Sys(MmInit(pml4, pdpt, pd), procs); var s := Run(s0, pml4, calls);
            var v := USER_STACK_TOP - 4096;
            && UserWritable(s0.vm.mem, pml4, v) && UserWritable(s.vm.mem, pml4, v)
            && Translate(s.vm.mem, pml4, v) == Translate(s0.vm.mem, pml4, v)
  {
    hide Inv, UserWritable, Translate, MmInit, Run, HeapReady;
    var s0 := Sys(MmInit(pml4, pdpt, pd), procs);
    InitEstablishesInv(pml4, pdpt, pd, procs);
    InitMapsStack(pml4, pdpt, pd);
    RunsKeepInv(s0, pml4, calls);
    RunsKeepStack(s0, pml4, calls);
    InvIsReady(s0, pml4);
    InvIsReady(Run(s0, pml4, calls), pml4);
    OpenLeaf(s0.vm, pml4, USER_STACK_TOP - 4096);
    OpenLeaf(Run(s0, pml4, calls).vm, pml4, USER_STACK_TOP - 4096);
  }

  lemma InitMapsStack(pml4: nat, pdpt: nat, pd: nat)
    requires BootTables(pml4, pdpt, pd)
    ensures UserWritable(MmInit(pml4, pdpt, pd).mem, pml4, USER_STACK_TOP - 4096)
  {
    hide Blocked, WellFormed, OpenLinks, BootMemory, BootTables, MapPage, PtPath, UserWritable, HeapReady, Missing;
    var boot := Vm(BootMemory(pml4, pdpt, pd), ReservedPages());
    var (phys, used) := Alloc(boot.used);
    BootIsReady(pml4, pdpt, pd);
    BootIsBalanced();
    BalancedCounts(Boot());
    FreePageIsNotNull(boot, pml4);
    StaysReady(boot, pml4, used);
    StackPageIsNotLarge();
    BootLacksStackTables(pml4, pdpt, pd);
    assert !Blocked(boot.mem, pml4, PtPath(USER_STACK_TOP - 4096)) by { BootIsWellFormed(pml4, pdpt, pd); }
    MapHeapPage(boot.(used := used), pml4, USER_STACK_TOP - 4096, phys);
  }

  lemma StackIsNoHeapPage()
    ensures PageOf(USER_STACK_TOP - 4096) * 4096 == USER_STACK_TOP - 4096 > USER_HEAP_MAX
  {
  }

  lemma {:induction false} RunsKeepStack(s: Sys, root: nat, calls: seq<Call>)
    requires Inv(s, root)
    ensures var v := USER_STACK_TOP - 4096;
            Translate(Run(s, root, calls).vm.mem, root, v) == Translate(s.vm.mem, root, v)
    decreases |calls|
  {
    hide Inv, Brk, Translate, PageOf, PageAlignUp, InNewFrame;
    if calls != [] {
      var pid, newBrk := calls[0].pid, calls[0].newBrk;
      BrkKeepsInv(s, root, pid, newBrk);
      BrkKeepsStack(s, root, pid, newBrk);
      RunsKeepStack(Brk(s, root, pid, newBrk).0, root, calls[1..]);
    }
  }

  lemma BrkKeepsStack(s: Sys, root: nat, pid: nat, newBrk: nat)
    requires Inv(s, root)
    ensures var v := USER_STACK_TOP - 4096;
            Translate(Brk(s, root, pid, newBrk).0.vm.mem, root, v) == Translate(s.vm.mem, root, v)
  {
    hide Inv, Translate, PageOf, PageAlignUp, InNewFrame, Grow;
    StackIsNoHeapPage();
    BrkTranslates(s, root, pid, newBrk);
    if pid in s.procs && newBrk < USER_HEAP_MAX {
      AlignUpBounds(newBrk, newBrk);
    }
  }

  // ---------- What sys_brk reports ----------

  /** The pages of a growth that crosses a page boundary. */
  lemma GrowthRange(brk: nat, newBrk: nat)
    requires USER_HEAP_START <= brk < newBrk < USER_HEAP_MAX && PageAlignUp(brk) != PageAlignUp(newBrk)
    ensures var lo, hi := PageAlignUp(brk), PageAlignUp(newBrk);
            IsHeapPage(lo) && hi >= 4096 && IsHeapPage(hi - 4096) && lo <= hi - 4096
  {
  }

  /** A growth within one page always succeeds. Any other one from lo to hi (both rounded up) succeeds exactly when
      the pages before the last and their tables leave a page free; then all these pages are user-writable, and
      the last one is exactly when frames and missing tables of the whole range fit in the free pages. */
  lemma BrkReports(s: Sys, root: nat, pid: nat, newBrk: nat)
    requires Inv(s, root) && pid in s.procs && s.procs[pid].brk < newBrk < USER_HEAP_MAX
    ensures var (s', r) := Brk(s, root, pid, newBrk);
            var brk := s.procs[pid].brk;
            var lo, hi := PageAlignUp(brk), PageAlignUp(newBrk);
            var free := |FreePages(s.vm.used)|;
            if lo == hi then r == newBrk && s'.vm == s.vm
            else
              && lo <= hi - 4096
              && r == (if Need(s.vm.mem, root, lo, hi - 4096) < free then newBrk else brk)
              && (r == newBrk ==>
                    && (forall v: nat :: IsHeapPage(v) && lo <= v < hi - 4096 ==> UserWritable(s'.vm.mem, root, v))
                    && (UserWritable(s'.vm.mem, root, hi - 4096) <==> Need(s.vm.mem, root, lo, hi) <= free))
  {
    hide UserWritable, HeapReady, Need, Grow, PageAlignUp, FreePages, HeapMapped, IsHeapPage, LackingTables, Created;
    var lo, hi := PageAlignUp(s.procs[pid].brk), PageAlignUp(newBrk);
    assert BrkInBounds(s.procs[pid]);
    GrowUnfolds(s.vm, root, lo, hi);
    if lo != hi {
      GrowthRange(s.procs[pid].brk, newBrk);
      GrowExact(s.vm, root, lo, hi - 4096);
    }
  }

  /** A call changes the translation of no page outside the growing range, whoever uses it; every page of the
      range but the last is in a frame that was free before, after a growth that reports success. */
  lemma BrkTranslates(s: Sys, root: nat, pid: nat, newBrk: nat)
    requires Inv(s, root)
    ensures var (s', r) := Brk(s, root, pid, newBrk);
            && s.vm.used <= s'.vm.used
            && (forall w: nat :: Translate(s'.vm.mem, root, w) != Translate(s.vm.mem, root, w) ==>
                  && pid in s.procs && InNewFrame(s'.vm, root, w, s.vm.used)
                  && PageAlignUp(s.procs[pid].brk) <= PageOf(w) * 4096 < PageAlignUp(newBrk))
            && (pid in s.procs && s.procs[pid].brk < newBrk && r == newBrk ==>
                  forall v: nat :: IsHeapPage(v) && PageAlignUp(s.procs[pid].brk) <= v && v + 4096 < PageAlignUp(newBrk) ==>
                    InNewFrame(s'.vm, root, v, s.vm.used))
  {
    hide UserWritable, HeapReady, Need, Grow, PageAlignUp, FreePages, HeapMapped, IsHeapPage;
    hide Translate, PageOf, InNewFrame;
    if pid in s.procs && s.procs[pid].brk < newBrk < USER_HEAP_MAX {
      var lo, hi := PageAlignUp(s.procs[pid].brk), PageAlignUp(newBrk);
      assert BrkInBounds(s.procs[pid]);
      GrowUnfolds(s.vm, root, lo, hi);
      if lo != hi {
        GrowthRange(s.procs[pid].brk, newBrk);
        GrowTranslates(s.vm, root, lo, hi - 4096);
      }
    }
  }

  lemma {:induction false} RunsKeepFrames(s: Sys, root: nat, calls: seq<Call>)
    requires Inv(s, root) && FramesUsed(s.vm, root)
    ensures FramesUsed(Run(s, root, calls).vm, root)
    decreases |calls|
  {
    hide Inv, Brk, Translate, IsHeapPage, AddrOf, PageAlignUp, PageOf;
    if calls != [] {
      BrkKeepsInv(s, root, calls[0].pid, calls[0].newBrk);
      BrkTranslates(s, root, calls[0].pid, calls[0].newBrk);
      RunsKeepFrames(Brk(s, root, calls[0].pid, calls[0].newBrk).0, root, calls[1..]);
    }
  }

  /** The tables that mm_init leaves: the boot tables and those of the user stack page. */
  lemma InitTables(pml4: nat, pdpt: nat, pd: nat)
    requires BootTables(pml4, pdpt, pd)
    ensures var s := MmInit(pml4, pdpt, pd);
            && |FreePages(s.used)| == MAX_PHYS_PAGES - RESERVED_PAGES - 4
            && Created(BootMemory(pml4, pdpt, pd), s.mem, pml4, Route(PtPath(USER_STACK_TOP - 4096)))
  {
    hide Blocked, WellFormed, OpenLinks, BootMemory, BootTables, MapPage, PtPath, Route, TableAt, Lookup;
    var boot := Vm(BootMemory(pml4, pdpt, pd), ReservedPages());
    var (phys, used) := Alloc(boot.used);
    var v := USER_STACK_TOP - 4096;
    BootIsReady(pml4, pdpt, pd);
    BootIsBalanced();
    BalancedCounts(Boot());
    FreePageIsNotNull(boot, pml4);
    StaysReady(boot, pml4, used);
    StackPageIsNotLarge();
    BootLacksStackTables(pml4, pdpt, pd);
    assert !Blocked(boot.mem, pml4, PtPath(v)) by { BootIsWellFormed(pml4, pdpt, pd); }
    MapPageCounts(boot.(used := used), pml4, v, phys, USER_PAGE);
  }

  lemma BootLacksStackTables(pml4: nat, pdpt: nat, pd: nat)
    requires BootTables(pml4, pdpt, pd)
    ensures Missing(BootMemory(pml4, pdpt, pd), pml4, PtPath(USER_STACK_TOP - 4096)) == 3
  {
    hide BootMemory, BootTables;
    var pt := PtPath(USER_STACK_TOP - 4096);
    assert pt.up.up == Sub(Top, 255) by { assert Pml4Index(USER_STACK_TOP - 4096) == 255; }
    BootTableAt(pml4, pdpt, pd, pt);
    BootTableAt(pml4, pdpt, pd, pt.up);
    BootTableAt(pml4, pdpt, pd, pt.up.up);
    assert Missing(BootMemory(pml4, pdpt, pd), pml4, pt.up.up.up) == 0;
    assert Missing(BootMemory(pml4, pdpt, pd), pml4, pt.up.up) == 1;
    assert Missing(BootMemory(pml4, pdpt, pd), pml4, pt.up) == 2;
  }

  /** Before the first call no heap page has its page table. */
  lemma InitHasNoHeapTables(pml4: nat, pdpt: nat, pd: nat)
    requires BootTables(pml4, pdpt, pd)
    ensures NoHeapTables(MmInit(pml4, pdpt, pd).mem, pml4)
  {
    hide BootMemory, BootTables, MmInit, TableAt, PtPath;
    var m := MmInit(pml4, pdpt, pd).mem;
    InitTables(pml4, pdpt, pd);
    forall v: nat | IsHeapPage(v)
      ensures TableAt(m, pml4, PtPath(v)) == None
      ensures TableAt(m, pml4, PtPath(v).up).Some? && TableAt(m, pml4, PtPath(v).up.up).Some?
    {
      var pt := PtPath(v);
      HeapPath(v);
      BootTableAt(pml4, pdpt, pd, pt);
      BootTableAt(pml4, pdpt, pd, pt.up);
      BootTableAt(pml4, pdpt, pd, pt.up.up);
      HeapIsNotOnStackRoute(v);
    }
  }

  /** The page directory below entry 0 of entry 0. */
  const HeapPd: Path := Sub(Sub(Top, 0), 0)

  lemma HeapPath(v: nat)
    requires IsHeapPage(v)
    ensures PtPath(v) == Sub(HeapPd, v / 0x20_0000) && 2 <= v / 0x20_0000 < 256
  {
  }

  lemma HeapIsNotOnStackRoute(v: nat)
    requires IsHeapPage(v)
    ensures PtPath(v) !in Route(PtPath(USER_STACK_TOP - 4096))
  {
    hide PtPath;
    HeapPath(v);
    var pt := PtPath(USER_STACK_TOP - 4096);
    assert pt.up.up == Sub(Top, 255) by { StackPath(); }
    assert Route(pt.up.up.up) == {};
    assert Route(pt.up.up) == {pt.up.up};
    assert Route(pt.up) == {pt.up, pt.up.up};
  }

  lemma StackPath()
    ensures PtPath(USER_STACK_TOP - 4096).up.up == Sub(Top, 255)
  {
    assert Pml4Index(USER_STACK_TOP - 4096) == 255;
  }

  /** The translations that a call changes are exactly those of the pages it grows over, as far as frames and
      missing tables fit; each of these gets a frame that was free before. */
  lemma BrkChanges(s: Sys, root: nat, q: nat, newBrk: nat, v: nat)
    requires Inv(s, root) && FramesUsed(s.vm, root) && IsHeapPage(v)
    ensures var s' := Brk(s, root, q, newBrk).0;
            && (Translate(s'.vm.mem, root, v) != Translate(s.vm.mem, root, v) <==>
                  && q in s.procs && s.procs[q].brk < newBrk < USER_HEAP_MAX
                  && PageAlignUp(s.procs[q].brk) <= v < PageAlignUp(newBrk)
                  && Need(s.vm.mem, root, PageAlignUp(s.procs[q].brk), v + 4096) <= |FreePages(s.vm.used)|)
            && (Translate(s'.vm.mem, root, v) != Translate(s.vm.mem, root, v) ==> InNewFrame(s'.vm, root, v, s.vm.used))
  {
    hide UserWritable, HeapReady, Need, Grow, PageAlignUp, FreePages, HeapMapped, FramesUsed;
    hide Translate, PageOf, InNewFrame;
    BrkTranslates(s, root, q, newBrk);
    if q in s.procs && s.procs[q].brk < newBrk < USER_HEAP_MAX {
      var lo, hi := PageAlignUp(s.procs[q].brk), PageAlignUp(newBrk);
      assert BrkInBounds(s.procs[q]);
      HeapPageNumber(v);
      GrowUnfolds(s.vm, root, lo, hi);
      if lo != hi {
        GrowthRange(s.procs[q].brk, newBrk);
        if lo <= v < hi {
          PageBefore(v, hi);
          GrowChanges(s.vm, root, lo, hi - 4096, v);
        }
      }
    }
  }

  lemma PageBefore(v: nat, hi: nat)
    requires IsHeapPage(v) && hi >= 4096 && IsHeapPage(hi - 4096) && v < hi
    ensures v <= hi - 4096
  {
  }

  lemma InitFramesUsed(pml4: nat, pdpt: nat, pd: nat)
    requires BootTables(pml4, pdpt, pd)
    ensures FramesUsed(MmInit(pml4, pdpt, pd), pml4)
  {
    hide Translate, AddrOf, MmInit, TableAt, PtPath;
    InitHasNoHeapTables(pml4, pdpt, pd);
    forall v: nat | IsHeapPage(v) ensures !Translate(MmInit(pml4, pdpt, pd).mem, pml4, v).Page? {
      NoTableNoPage(MmInit(pml4, pdpt, pd).mem, pml4, v);
    }
  }

  /** All processes share one PML4 and one heap_start. So after every run from boot, a call by any q replaces what
      is behind heap page v, whoever uses that page, exactly when q grows over v and the range up to v fits. A page
      that was mapped before then lies in another frame. */
  lemma HeapsCollide(pml4: nat, pdpt: nat, pd: nat, procs: map<nat, Proc>, calls: seq<Call>, q: nat, newBrk: nat, v: nat)
    requires BootTables(pml4, pdpt, pd) && IsHeapPage(v)
    requires forall pid :: pid in procs ==> procs[pid] == EmptyHeap
    ensures var s := Run(Sys(MmInit(pml4, pdpt, pd), procs), pml4, calls);
            var t, t' := Translate(s.vm.mem, pml4, v), Translate(Brk(s, pml4, q, newBrk).0.vm.mem, pml4, v);
            && (t' != t <==>
                  && q in s.procs && s.procs[q].brk < newBrk < USER_HEAP_MAX
                  && PageAlignUp(s.procs[q].brk) <= v < PageAlignUp(newBrk)
                  && Need(s.vm.mem, pml4, PageAlignUp(s.procs[q].brk), v + 4096) <= |FreePages(s.vm.used)|)
            && (t' != t ==> t'.Page? && (t.Page? ==> AddrOf(t.leaf) / 4096 != AddrOf(t'.leaf) / 4096))
  {
    hide Inv, Translate, AddrOf, PageAlignUp, PageOf, Brk, Run, MmInit, Need, FreePages;
    var s0 := Sys(MmInit(pml4, pdpt, pd), procs);
    var s := Run(s0, pml4, calls);
    InitEstablishesInv(pml4, pdpt, pd, procs);
    InitFramesUsed(pml4, pdpt, pd);
    RunsKeepInv(s0, pml4, calls);
    RunsKeepFrames(s0, pml4, calls);
    BrkChanges(s, pml4, q, newBrk, v);
  }

  lemma NoTableNoPage(m: Memory, root: nat, v: nat)
    requires TableAt(m, root, PtPath(v)) == None
    ensures !Translate(m, root, v).Page?
  {
  }

  // ---------- Two short runs: a growth that did not happen, and a page taken away ----------

  /** The page tables lo..hi-1 of the heap's page directory. */
  function HeapTables(lo: nat, hi: nat): set<Path>
    decreases hi - lo
  {
    if lo >= hi then {} else {Sub(HeapPd, lo)} + HeapTables(lo + 1, hi)
  }

  lemma {:induction false} HeapTablesHold(lo: nat, hi: nat)
    ensures forall p :: p in HeapTables(lo, hi) <==> p.Sub? && p.up == HeapPd && lo <= p.index < hi
    ensures |HeapTables(lo, hi)| == if lo < hi then hi - lo else 0
    decreases hi - lo
  {
    if lo < hi {
      HeapTablesHold(lo + 1, hi);
      assert Sub(HeapPd, lo) !in HeapTables(lo + 1, hi);
    }
  }

  /** The page directory is there, but no page table below it. */
  ghost predicate NoHeapTables(m: Memory, root: nat) {
    forall v: nat :: IsHeapPage(v) ==>
      TableAt(m, root, PtPath(v)) == None && TableAt(m, root, PtPath(v).up).Some?
      && TableAt(m, root, PtPath(v).up.up).Some?
  }

  /** The first page table behind those that serve addresses below `end`. */
  function TableEnd(end: nat): nat { (end + 0x1F_FFFF) / 0x20_0000 }

  lemma TableOfPage(n: nat)
    ensures 4096 * n / 0x20_0000 == n / 512 && TableEnd(4096 * n) == (n + 511) / 512
  {
    assert 4096 * n + 0x1F_FFFF == 4096 * (n + 511) + 4095;
    assert (4096 * (n + 511) + 4095) / 4096 == n + 511;
  }

  lemma PageSteps(n: nat, m: nat)
    requires n + 1 < m
    ensures (n + 1) / 512 in {n / 512, n / 512 + 1} && (n + 1) / 512 < (m + 511) / 512
  {
  }

  lemma TableSteps(addr: nat, end: nat)
    requires addr % 4096 == 0 && end % 4096 == 0 && addr < end
    ensures var t := addr / 0x20_0000;
            if addr + 4096 == end then TableEnd(end) == t + 1
            else addr + 4096 < end && (addr + 4096) / 0x20_0000 in {t, t + 1} && (addr + 4096) / 0x20_0000 < TableEnd(end)
  {
    hide TableEnd;
    var n, m := addr / 4096, end / 4096;
    assert addr == 4096 * n && end == 4096 * m && addr + 4096 == 4096 * (n + 1);
    TableOfPage(n);
    TableOfPage(n + 1);
    TableOfPage(m);
    if n + 1 < m {
      PageSteps(n, m);
    }
  }

  lemma HeapTablesFrom(lo: nat, from: nat, hi: nat)
    requires from in {lo, lo + 1} && from < hi
    ensures {Sub(HeapPd, lo)} + HeapTables(from, hi) == HeapTables(lo, hi)
  {
  }

  /** While the heap has no page table, [addr, end) lacks one for every 2 MiB it touches. */
  lemma {:induction false} LackingAtInit(m: Memory, root: nat, addr: nat, end: nat)
    requires NoHeapTables(m, root) && IsHeapPage(addr) && addr < end <= USER_HEAP_MAX && end % 4096 == 0
    ensures LackingTables(m, root, addr, end) == HeapTables(addr / 0x20_0000, TableEnd(end))
    decreases end - addr
  {
    hide PtPath, TableAt, TableEnd, Lacking, HeapTables;
    LackingOne(m, root, addr);
    TableSteps(addr, end);
    if addr + 4096 < end {
      LackingAtInit(m, root, addr + 4096, end);
      HeapTablesFrom(addr / 0x20_0000, (addr + 4096) / 0x20_0000, TableEnd(end));
    } else {
      OneHeapTable(addr / 0x20_0000);
      assert LackingTables(m, root, addr + 4096, end) == {};
    }
  }

  lemma OneHeapTable(i: nat)
    ensures HeapTables(i, i + 1) == {Sub(HeapPd, i)}
  {
    assert HeapTables(i + 1, i + 1) == {};
  }

  lemma LackingOne(m: Memory, root: nat, v: nat)
    requires NoHeapTables(m, root) && IsHeapPage(v)
    ensures Lacking(m, root, PtPath(v)) == {Sub(HeapPd, v / 0x20_0000)}
  {
    hide PtPath, TableAt;
    HeapPath(v);
    var pt := PtPath(v);
    assert Route(pt.up.up.up) == {};
    assert Route(pt.up.up) == {pt.up.up};
    assert Route(pt.up) == {pt.up, pt.up.up};
  }

  const FirstEnd: nat := USER_HEAP_START + 445 * 4096
  const LastPage: nat := USER_HEAP_START + 512 * 62 * 4096

  /** 445 pages of an empty heap need one page table. */
  lemma FirstNeed(m: Memory, root: nat)
    requires NoHeapTables(m, root)
    ensures LackingTables(m, root, USER_HEAP_START, FirstEnd) == HeapTables(2, 3)
    ensures Need(m, root, USER_HEAP_START, FirstEnd) == 446
  {
    hide NoHeapTables, LackingTables, HeapTables;
    LackingAtInit(m, root, USER_HEAP_START, FirstEnd);
    HeapTablesHold(2, 3);
  }

  lemma WholePages(addr: nat, end: nat)
    requires addr < end && addr % 4096 == 0 && end % 4096 == 0
    ensures PagesIn(addr, end) == (end - addr) / 4096
  {
    var n := (end - addr) / 4096;
    assert end - addr == 4096 * n by { assert end - addr == 4096 * (end / 4096 - addr / 4096); }
  }

  lemma TableEndBounds(end: nat)
    requires USER_HEAP_START < end
    ensures TableEnd(end) >= 3
  {
  }

  lemma HeapTablesMinus(hi: nat)
    requires hi >= 3
    ensures |HeapTables(2, hi) - HeapTables(2, 3)| == hi - 3
  {
    hide HeapTables;
    HeapTablesHold(2, 3);
    HeapTablesHold(2, hi);
    HeapTablesHold(3, hi);
    assert HeapTables(2, hi) - HeapTables(2, 3) == HeapTables(3, hi);
  }

  /** Once that table is there, the first n regions of 2 MiB need n - 1 tables. */
  lemma SecondNeed(m: Memory, m': Memory, root: nat, end: nat)
    requires NoHeapTables(m, root) && Created(m, m', root, HeapTables(2, 3))
    requires USER_HEAP_START < end <= USER_HEAP_MAX && end % 4096 == 0
    ensures Need(m', root, USER_HEAP_START, end) == (end - USER_HEAP_START) / 4096 + (TableEnd(end) - 3)
  {
    hide NoHeapTables, LackingTables, HeapTables, Created, TableEnd, PagesIn;
    WholePages(USER_HEAP_START, end);
    TableEndBounds(end);
    LackingAtInit(m, root, USER_HEAP_START, end);
    LackingAfter(m, m', root, HeapTables(2, 3), USER_HEAP_START, end);
    HeapTablesMinus(TableEnd(end));
  }

  /** The first of three calls: 445 pages and one table, which leave 31806 pages. */
  lemma LongGrowth(pml4: nat, pdpt: nat, pd: nat)
    requires BootTables(pml4, pdpt, pd)
    ensures var vm0 := MmInit(pml4, pdpt, pd); var (vm1, ok) := Grow(vm0, pml4, USER_HEAP_START, FirstEnd);
            && ok && |FreePages(vm1.used)| == 31806 && Created(vm0.mem, vm1.mem, pml4, HeapTables(2, 3))
            && NoHeapTables(vm0.mem, pml4)
  {
    hide Inv, HeapReady, MmInit, Need, LackingTables, HeapTables, Created, NoHeapTables, Grow, FreePages;
    hide BootTables, UserWritable;
    InitEstablishesInv(pml4, pdpt, pd, map[]);
    InvIsReady(Sys(MmInit(pml4, pdpt, pd), map[]), pml4);
    InitTables(pml4, pdpt, pd);
    InitHasNoHeapTables(pml4, pdpt, pd);
    FirstNeed(MmInit(pml4, pdpt, pd).mem, pml4);
    GrowExact(MmInit(pml4, pdpt, pd), pml4, USER_HEAP_START, FirstEnd - 4096);
  }

  /** The failing side is reached from boot by three calls of one process: grow by 445 pages, shrink to nothing,
      grow to one byte more than 62 * 512 pages. The last call reports success, and its last page is not mapped. */
  lemma GrowthNotDone(pml4: nat, pdpt: nat, pd: nat)
    requires BootTables(pml4, pdpt, pd)
    ensures var s0 := Sys(MmInit(pml4, pdpt, pd), map[1 := EmptyHeap]);
            var s := Run(s0, pml4, [Call(1, FirstEnd), Call(1, USER_HEAP_START)]);
            var (s', r) := Brk(s, pml4, 1, LastPage + 1);
            Inv(s, pml4) && r == LastPage + 1 && !UserWritable(s'.vm.mem, pml4, LastPage)
  {
    hide Inv, UserWritable, MmInit, Need, LackingTables, HeapTables, Created, NoHeapTables, Grow, FreePages;
    hide BootTables, Run;
    var procs := map[1 := EmptyHeap];
    var vm0 := MmInit(pml4, pdpt, pd);
    var s0, first, second := Sys(vm0, procs), Call(1, FirstEnd), Call(1, USER_HEAP_START);
    LongGrowth(pml4, pdpt, pd);
    var vm1 := Grow(vm0, pml4, USER_HEAP_START, FirstEnd).0;
    var s1 := Sys(vm1, map[1 := Proc(USER_HEAP_START, FirstEnd)]);
    assert Brk(s0, pml4, 1, FirstEnd).0 == s1;
    var s := Sys(vm1, procs);
    assert Brk(s1, pml4, 1, USER_HEAP_START).0 == s;
    TwoCalls(s0, pml4, first, second);
    InitEstablishesInv(pml4, pdpt, pd, procs);
    RunsKeepInv(s0, pml4, [first, second]);
    SecondNeed(vm0.mem, vm1.mem, pml4, LastPage);
    SecondNeed(vm0.mem, vm1.mem, pml4, LastPage + 4096);
    BrkReports(s, pml4, 1, LastPage + 1);
  }

  const FirstPageEnd: nat := USER_HEAP_START + 4096

  lemma OnePageNeed(m: Memory, root: nat)
    requires NoHeapTables(m, root)
    ensures LackingTables(m, root, USER_HEAP_START, FirstPageEnd) == HeapTables(2, 3)
    ensures Need(m, root, USER_HEAP_START, FirstPageEnd) == 2
  {
    hide NoHeapTables, LackingTables, HeapTables;
    LackingAtInit(m, root, USER_HEAP_START, FirstPageEnd);
    HeapTablesHold(2, 3);
  }

  /** A first growth by one page maps it and creates one page table. */
  lemma FirstPageGrowth(pml4: nat, pdpt: nat, pd: nat)
    requires BootTables(pml4, pdpt, pd)
    ensures var vm0 := MmInit(pml4, pdpt, pd); var (vm1, ok) := Grow(vm0, pml4, USER_HEAP_START, FirstPageEnd);
            && ok && |FreePages(vm1.used)| > 1 && Created(vm0.mem, vm1.mem, pml4, HeapTables(2, 3))
            && NoHeapTables(vm0.mem, pml4) && Translate(vm1.mem, pml4, USER_HEAP_START).Page?
  {
    hide Inv, HeapReady, MmInit, Need, LackingTables, HeapTables, Created, NoHeapTables, Grow, FreePages;
    hide BootTables, Translate;
    InitEstablishesInv(pml4, pdpt, pd, map[]);
    InvIsReady(Sys(MmInit(pml4, pdpt, pd), map[]), pml4);
    InitTables(pml4, pdpt, pd);
    InitHasNoHeapTables(pml4, pdpt, pd);
    OnePageNeed(MmInit(pml4, pdpt, pd).mem, pml4);
    GrowExact(MmInit(pml4, pdpt, pd), pml4, USER_HEAP_START, USER_HEAP_START);
  }

  /** The commonest collision: process 1 grows by one page, then process 2 does. Both calls succeed, and the second
      one replaces the frame under process 1's page. */
  lemma PageTaken(pml4: nat, pdpt: nat, pd: nat)
    requires BootTables(pml4, pdpt, pd)
    ensures var s0 := Sys(MmInit(pml4, pdpt, pd), map[1 := EmptyHeap, 2 := EmptyHeap]);
            var s := Run(s0, pml4, [Call(1, FirstPageEnd)]);
            var (s', r) := Brk(s, pml4, 2, FirstPageEnd);
            var t, t' := Translate(s.vm.mem, pml4, USER_HEAP_START), Translate(s'.vm.mem, pml4, USER_HEAP_START);
            && 1 in s.procs && s.procs[1].brk == FirstPageEnd && r == FirstPageEnd
            && t.Page? && t'.Page? && AddrOf(t.leaf) / 4096 != AddrOf(t'.leaf) / 4096
  {
    hide Inv, MmInit, Need, LackingTables, HeapTables, Created, NoHeapTables, Grow, FreePages, UserWritable;
    hide BootTables, Translate, AddrOf, Run;
    var procs := map[1 := EmptyHeap, 2 := EmptyHeap];
    var vm0 := MmInit(pml4, pdpt, pd);
    var s0, first := Sys(vm0, procs), Call(1, FirstPageEnd);
    FirstPageGrowth(pml4, pdpt, pd);
    var vm1 := Grow(vm0, pml4, USER_HEAP_START, FirstPageEnd).0;
    var s := Sys(vm1, procs[1 := Proc(USER_HEAP_START, FirstPageEnd)]);
    assert Brk(s0, pml4, 1, FirstPageEnd).0 == s;
    OneCall(s0, pml4, first);
    InitEstablishesInv(pml4, pdpt, pd, procs);
    RunsKeepInv(s0, pml4, [first]);
    SecondNeed(vm0.mem, vm1.mem, pml4, FirstPageEnd);
    NothingNeeded(vm1.mem, pml4, USER_HEAP_START);
    BrkReports(s, pml4, 2, FirstPageEnd);
    HeapsCollide(pml4, pdpt, pd, procs, [first], 2, FirstPageEnd, USER_HEAP_START);
  }

  lemma OneCall(s: Sys, root: nat, a: Call)
    ensures Run(s, root, [a]) == Brk(s, root, a.pid, a.newBrk).0
  {
    hide Brk;
    assert [a][1..] == [];
    assert Run(s, root, [a]) == Run(Brk(s, root, a.pid, a.newBrk).0, root, []);
  }

  lemma TwoCalls(s: Sys, root: nat, a: Call, b: Call)
    ensures Run(s, root, [a, b]) == Brk(Brk(s, root, a.pid, a.newBrk).0, root, b.pid, b.newBrk).0
  {
    hide Brk;
    assert [a, b][1..] == [b] && [b][1..] == [];
    var s1 := Brk(s, root, a.pid, a.newBrk).0;
    assert Run(s, root, [a, b]) == Run(s1, root, [b]);
    assert Run(s1, root, [b]) == Run(Brk(s1, root, b.pid, b.newBrk).0, root, []);
  }

  lemma InvIsReady(s: Sys, root: nat)
    requires Inv(s, root)
    ensures HeapReady(s.vm, root)
  {
  }

  // ---------- The system call ----------

  class HeapCalls {
    const space: AddressSpace
    const pml4: nat
    var procs: map<nat, Proc>

    ghost predicate Valid()
      reads this, space, space.frames
    {
      space.Valid()
    }

    ghost function View(): Sys
      requires Valid()
      reads this, space, space.frames, space.frames.bitmap
    {
      Sys(space.View(), procs)
    }

    constructor (space: AddressSpace, pml4: nat)
      requires space.Valid()
      ensures Valid() && this.space == space && this.pml4 == pml4 && View() == Sys(space.View(), map[])
    {
      this.space := space;
      this.pml4 := pml4;
      procs := map[];
    }

    /** The mapping loop of sys_brk. */
    method MapRange(start: nat, end: nat) returns (ok: bool)
      requires Valid()
      modifies space, space.frames.bitmap
      ensures (space.View(), ok) == Grow(old(space.View()), pml4, start, end)
    {
      hide MapPage, Alloc, MarkedPages;
      var addr := start;
      while addr < end
        invariant Grow(old(space.View()), pml4, start, end) == Grow(space.View(), pml4, addr, end)
      {
        var phys := space.frames.AllocPage();
        if phys == 0 {
          return false;
        }
        space.Map(pml4, addr, phys, USER_PAGE);
        addr := addr + PAGE_SIZE;
      }
      ok := true;
    }

    method SysBrk(pid: nat, newBrk: nat) returns (r: nat)
      requires Valid()
      modifies this, space, space.frames.bitmap
      ensures (View(), r) == Brk(old(View()), pml4, pid, newBrk)
    {
      hide Grow, MarkedPages, PageAlignUp;
      if pid !in procs {
        return 0;
      }
      var p := procs[pid];
      if newBrk == 0 {
        return p.brk;
      }
      if newBrk < p.heapStart || newBrk >= USER_HEAP_MAX || newBrk >= KERNEL_VIRT_BASE {
        return p.brk;
      }
      if newBrk > p.brk {
        var ok := MapRange(PageAlignUp(p.brk), PageAlignUp(newBrk));
        if !ok {
          return p.brk;
        }
      }
      procs := procs[pid := p.(brk := newBrk)];
      r := newBrk;
    }
  }
}
