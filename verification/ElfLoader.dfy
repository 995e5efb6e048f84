/** The ELF loader: program segments become an image in user memory, page by page. */
module ElfLoader {
  import opened PhysPages
  import opened Words
  import opened PageTables

  const PT_LOAD: nat := 1
  const ET_EXEC: nat := 2
  const EM_X86_64: nat := 62

  datatype Segment = Segment(kind: nat, flags: nat, offset: nat, vaddr: nat, filesz: nat, memsz: nat)

  datatype Header = Header(ident: seq<nat>, kind: nat, machine: nat, entry: nat, segments: seq<Segment>)

  predicate Validate(h: Option<Header>) {
    && h.Some?
    && |h.value.ident| == 16
    && h.value.ident[..5] == [0x7F, 'E' as nat, 'L' as nat, 'F' as nat, 2]
    && h.value.kind == ET_EXEC
    && h.value.machine == EM_X86_64
  }

  // ---------- Memory as the loader sees it ----------

  /** The tables, and the data bytes by physical address. */
  datatype Image = Image(vm: Vm, bytes: map<nat, nat>)

  /** The physical address behind v. */
  function Resolve(m: Memory, root: nat, v: nat): Option<nat> {
    match Translate(m, root, v)
    case Unmapped => None
    case Page(e) => Some(AddrOf(e) + v % 0x1000)
    case Large(e) => Some(AddrOf(e) / 0x20_0000 * 0x20_0000 + v % 0x20_0000)
  }

  function ReadByte(img: Image, root: nat, v: nat): Option<nat> {
    match Resolve(img.vm.mem, root, v)
    case None => None
    case Some(a) => if a in img.bytes then Some(img.bytes[a]) else None
  }

  function Zeros(n: nat): (z: seq<nat>)
    ensures |z| == n && forall i :: 0 <= i < n ==> z[i] == 0
  {
    seq(n, _ => 0)
  }

  /** What is written from the start of the page at `page`: file bytes, zeros after them when the segment is
      larger in memory than in the file, and zeros alone on the pages behind the file part. */
  function PageContent(g: Segment, file: seq<nat>, page: nat): seq<nat>
    requires g.offset + g.filesz <= |file|
  {
    if g.vaddr <= page < (g.vaddr + g.filesz) % TWO_64 then
      var from := page - g.vaddr;
      var size: nat := if from + PAGE_SIZE > g.filesz then g.filesz - from else PAGE_SIZE;
      var copied := file[g.offset + from..g.offset + from + size];
      if size < PAGE_SIZE && g.memsz > g.filesz then copied + Zeros(PAGE_SIZE - size) else copied
    else if page < (g.vaddr + g.memsz) % TWO_64 then Zeros(PAGE_SIZE)
    else []
  }

  function PageFlags(g: Segment): nat { if g.flags / 2 % 2 == 1 then 7 else 5 }

  function Stored(bytes: map<nat, nat>, at: nat, content: seq<nat>, n: nat): map<nat, nat>
    requires n <= |content|
  {
    bytes + map a | a in Window(at, n) :: content[a - at]
  }

  function Window(at: nat, n: nat): (w: set<nat>)
    ensures forall a: nat :: a in w <==> at <= a < at + n
  {
    set a: nat | at <= a < at + n && InWindow(a, at, n)
  }

  predicate InWindow(a: nat, at: nat, n: nat) { at <= a < at + n }

  lemma StoreNone(bytes: map<nat, nat>, at: nat, content: seq<nat>)
    ensures Stored(bytes, at, content, 0) == bytes
  {
  }

  lemma StoreNext(bytes: map<nat, nat>, at: nat, content: seq<nat>, n: nat)
    requires n < |content|
    ensures Stored(bytes, at, content, n)[at + n := content[n]] == Stored(bytes, at, content, n + 1)
  {
    assert Window(at, n + 1) == Window(at, n) + {at + n};
  }

  datatype Status = Loaded | NoMemory | PageFault

  function LoadPage(img: Image, root: nat, g: Segment, file: seq<nat>, page: nat): (Image, Status)
    requires g.offset + g.filesz <= |file|
  {
    var (phys, used) := Alloc(img.vm.used);
    if phys == 0 then (img.(vm := img.vm.(used := used)), NoMemory)
    else
      var vm := MapPage(img.vm.(used := used), root, page, phys, PageFlags(g));
      var content := PageContent(g, file, page);
      match Resolve(vm.mem, root, page)
      case None => (img.(vm := vm), if content == [] then Loaded else PageFault)
      case Some(at) => (Image(vm, Stored(img.bytes, at, content, |content|)), Loaded)
  }

  function LoadPages(img: Image, root: nat, g: Segment, file: seq<nat>, page: nat, end: nat): (Image, Status)
    requires g.offset + g.filesz <= |file|
    decreases end - page
  {
    if page >= end then (img, Loaded)
    else
      var (img', status) := LoadPage(img, root, g, file, page);
      if status != Loaded then (img', status) else LoadPages(img', root, g, file, page + PAGE_SIZE, end)
  }

  function StartPage(g: Segment): nat { g.vaddr / 4096 * 4096 }
  function EndPage(g: Segment): nat { (g.vaddr + g.memsz + 4095) % TWO_64 / 4096 * 4096 }

  predicate InFile(gs: seq<Segment>, file: seq<nat>) {
    forall g :: g in gs && g.kind == PT_LOAD ==> g.offset + g.filesz <= |file|
  }

  function LoadSegments(img: Image, root: nat, gs: seq<Segment>, file: seq<nat>): (Image, Status)
    requires InFile(gs, file)
    decreases |gs|
  {
    if gs == [] then (img, Loaded)
    else if gs[0].kind != PT_LOAD then LoadSegments(img, root, gs[1..], file)
    else
      var (img', status) := LoadPages(img, root, gs[0], file, StartPage(gs[0]), EndPage(gs[0]));
      if status != Loaded then (img', status) else LoadSegments(img', root, gs[1..], file)
  }

  // ---------- One page ----------

  predicate InSegment(g: Segment, page: nat) { page % 4096 == 0 && StartPage(g) <= page < EndPage(g) }

  /** The pages of a segment are those that its addresses touch. */
  lemma SegmentPages(g: Segment, file: seq<nat>, page: nat)
    requires Loadable(g, file)
    ensures InSegment(g, page) <==> page % 4096 == 0 && g.vaddr < page + 4096 && page < g.vaddr + g.memsz
  {
    if page % 4096 == 0 {
      AlignedBelow(g.vaddr, page);
      RoundedUp(g.vaddr + g.memsz, page);
    }
  }

  lemma AlignedBelow(v: nat, page: nat)
    requires page % 4096 == 0
    ensures v / 4096 * 4096 <= page <==> v < page + 4096
  {
  }

  lemma RoundedUp(x: nat, page: nat)
    requires page % 4096 == 0
    ensures page < (x + 4095) / 4096 * 4096 <==> page < x
  {
  }

  ghost predicate Contains(bytes: map<nat, nat>, at: nat, content: seq<nat>) {
    forall a: nat :: at <= a < at + |content| ==> a in bytes && bytes[a] == content[a - at]
  }

  /** The page at v holds `content` in a frame of its own: one that `before` did not use. */
  ghost predicate Holds(img: Image, root: nat, before: set<nat>, v: nat, content: seq<nat>) {
    var t := Translate(img.vm.mem, root, v);
    && t.Page?
    && var frame := AddrOf(t.leaf);
       && frame % 4096 == 0 && frame / 4096 in img.vm.used && frame / 4096 !in before
       && |content| <= 4096
       && Contains(img.bytes, frame, content)
  }

  lemma StoredContains(bytes: map<nat, nat>, at: nat, content: seq<nat>)
    ensures Contains(Stored(bytes, at, content, |content|), at, content)
  {
  }

  lemma PageFlagsAreFlags(g: Segment, phys: nat)
    requires phys % 4096 == 0 && phys < TWO_52
    ensures AddrOf(LeafWord(phys, PageFlags(g))) == phys
  {
    LeafWordFields(phys, PageFlags(g));
  }

  /** Segments inside the file and the 48-bit address space. */
  predicate Loadable(g: Segment, file: seq<nat>) {
    g.vaddr + g.memsz <= TWO_48 && g.vaddr + g.filesz < TWO_64 && g.offset + g.filesz <= |file|
  }

  /** Storing into a frame that was free leaves what other pages hold. */
  lemma HoldsElsewhere(img: Image, img': Image, root: nat, before: set<nat>, v: nat, c: seq<nat>,
                       phys: nat, content: seq<nat>)
    requires Holds(img, root, before, v, c)
    requires img.vm.used <= img'.vm.used
    requires Translate(img'.vm.mem, root, v) == Translate(img.vm.mem, root, v)
    requires phys % 4096 == 0 && phys / 4096 !in img.vm.used && |content| <= 4096
    requires img'.bytes == img.bytes || img'.bytes == Stored(img.bytes, phys, content, |content|)
    ensures Holds(img', root, before, v, c)
  {
    hide Translate;
    var frame := AddrOf(Translate(img.vm.mem, root, v).leaf);
    assert frame != phys;
    assert frame + 4096 <= phys || phys + 4096 <= frame;
  }

  /** The page-table side of loading one page. */
  lemma MapFreshPage(s: Vm, root: nat, page: nat, phys: nat, g: Segment)
    requires WellFormed(s, root) && page % 4096 == 0 && phys % 4096 == 0 && phys < TWO_52
    requires !Blocked(s.mem, root, PtPath(page))
    ensures var s' := MapPage(s, root, page, phys, PageFlags(g));
            && WellFormed(s', root) && s.used <= s'.used
            && (forall pt :: IsPt(pt) && !Blocked(s.mem, root, pt) ==> !Blocked(s'.mem, root, pt))
            && (forall v: nat :: PageOf(v) != PageOf(page) ==> Translate(s'.mem, root, v) == Translate(s.mem, root, v))
            && (var t := Translate(s'.mem, root, page); t == Unmapped || (t.Page? && AddrOf(t.leaf) == phys))
            && (|FreePages(s.used)| >= 3 ==> Translate(s'.mem, root, page).Page?)
            && |FreePages(s'.used)| >= |FreePages(s.used)| - 3
  {
    hide PtPath, PtIndex, PageOf, WellFormed, Blocked, TableAt, Missing, Lookup, Translate, IsPt;
    var flags := PageFlags(g);
    var s' := MapPage(s, root, page, phys, flags);
    MapPageRefinesUpdate(s, root, page, phys, flags);
    RootIsNotNull(s, root);
    PageFlagsAreFlags(g, phys);
    MissingAtMostDepth(s.mem, root, PtPath(page));
    forall pt | IsPt(pt) && !Blocked(s.mem, root, pt) ensures !Blocked(s'.mem, root, pt) {
      MapAtKeepsUnblocked(s, root, PtPath(page), PtIndex(page), LeafWord(phys, flags), flags, pt);
    }
    if Missing(s.mem, root, PtPath(page)) > |FreePages(s.used)| {
      UnmappedPage(s, root, page);
    }
  }

  /** Whatever the page at v held before, it holds after. */
  ghost predicate Keeps(img: Image, img': Image, root: nat, v: nat) {
    && Translate(img'.vm.mem, root, v) == Translate(img.vm.mem, root, v)
    && forall b, c :: Holds(img, root, b, v, c) ==> Holds(img', root, b, v, c)
  }

  /** The tables stay well-formed, and pages are only taken. */
  ghost predicate Sound(img: Image, img': Image, root: nat) {
    && WellFormed(img'.vm, root) && img.vm.used <= img'.vm.used
    && forall pt :: IsPt(pt) && !Blocked(img.vm.mem, root, pt) ==> !Blocked(img'.vm.mem, root, pt)
  }

  lemma LoadPageStores(img: Image, root: nat, g: Segment, file: seq<nat>, page: nat)
    requires WellFormed(img.vm, root)
    requires Loadable(g, file) && InSegment(g, page) && !Blocked(img.vm.mem, root, PtPath(page))
    ensures var (img', status) := LoadPage(img, root, g, file, page);
            && Sound(img, img', root)
            && (status == Loaded ==> Holds(img', root, img.vm.used, page, PageContent(g, file, page)))
            && (|FreePages(img.vm.used)| >= 4 ==> status == Loaded)
            && |FreePages(img'.vm.used)| >= |FreePages(img.vm.used)| - 4
            && (forall v: nat :: PageOf(v) != PageOf(page) ==> Keeps(img, img', root, v))
  {
    hide PtPath, PageOf, WellFormed, Blocked, Translate, PageContent, IsPt, MapPage, PageFlags;
    hide AddrOf, Alloc, FreePages, Contains;
    var (phys, used) := Alloc(img.vm.used);
    AllocGivesFreshPage(img.vm, root);
    UsedMayGrow(img.vm, root, used);
    var (img', status) := LoadPage(img, root, g, file, page);
    ContentFits(g, file, page);
    var content := PageContent(g, file, page);
    if phys != 0 {
      MapFreshPage(img.vm.(used := used), root, page, phys, g);
      StoredContains(img.bytes, phys, content);
      if status == Loaded {
        assert page % 0x1000 == 0;
        var t := Translate(img'.vm.mem, root, page);
        assert t != Unmapped by { assert content != []; }
        assert Resolve(img'.vm.mem, root, page) == Some(AddrOf(t.leaf) + 0);
        assert img'.bytes == Stored(img.bytes, phys, content, |content|);
        assert phys / 4096 in img'.vm.used;
      }
      forall b, v: nat, c | PageOf(v) != PageOf(page) && Holds(img, root, b, v, c)
        ensures Holds(img', root, b, v, c)
      {
        HoldsElsewhere(img, img', root, b, v, c, phys, content);
      }
    }
  }

  lemma AllocGivesFreshPage(s: Vm, root: nat)
    requires WellFormed(s, root)
    ensures var (phys, used) := Alloc(s.used);
            && (phys == 0 <==> FreePages(s.used) == {}) && (phys == 0 ==> used == s.used)
            && (phys != 0 ==>
                  && phys % 4096 == 0 && phys < TWO_52 && phys / 4096 !in s.used
                  && used == s.used + {phys / 4096}
                  && |FreePages(used)| == |FreePages(s.used)| - 1)
  {
    FirstFreeExhausted(s.used);
  }

  /** A page whose tables are incomplete and which no large page covers is unmapped. */
  lemma UnmappedPage(s: Vm, root: nat, v: nat)
    requires WellFormed(s, root) && Missing(s.mem, root, PtPath(v)) > 0 && !Blocked(s.mem, root, PtPath(v))
    ensures Translate(s.mem, root, v) == Unmapped
  {
    var pt := PtPath(v);
    assert TableAt(s.mem, root, pt) == None;
    assert Depth(pt.up) == 2 && Depth(pt.up.up) == 1;
  }

  lemma ContentFits(g: Segment, file: seq<nat>, page: nat)
    requires Loadable(g, file) && InSegment(g, page)
    ensures 0 < |PageContent(g, file, page)| <= 4096
  {
    SegmentPages(g, file, page);
  }

  // ---------- Whole segments ----------

  lemma PageOfInjective(v: nat, w: nat)
    requires v % 4096 == 0 && w % 4096 == 0 && v < TWO_48 && w < TWO_48 && v != w
    ensures PageOf(v) != PageOf(w)
  {
  }

  predicate IsPage(v: nat) { v % 4096 == 0 && v < TWO_48 }

  function FrameOf(img: Image, root: nat, v: nat): Option<nat> {
    match Translate(img.vm.mem, root, v)
    case Page(e) => Some(AddrOf(e))
    case _ => None
  }

  /** The pages of g from `page` on are loaded into frames that were free in img, each into its own. */
  ghost predicate LoadedFrom(img: Image, img': Image, root: nat, g: Segment, file: seq<nat>, page: nat)
    requires g.offset + g.filesz <= |file|
  {
    && (forall v: nat :: InSegment(g, v) && page <= v ==> Holds(img', root, img.vm.used, v, PageContent(g, file, v)))
    && (forall v: nat, w: nat :: InSegment(g, v) && InSegment(g, w) && page <= v < w ==>
          FrameOf(img', root, v) != FrameOf(img', root, w))
  }

  ghost predicate Unblocked(s: Vm, root: nat, g: Segment) {
    forall v: nat :: InSegment(g, v) ==> !Blocked(s.mem, root, PtPath(v))
  }

  lemma HoldsGivesFrame(img: Image, root: nat, before: set<nat>, v: nat, c: seq<nat>)
    requires Holds(img, root, before, v, c)
    ensures var f := FrameOf(img, root, v);
            f.Some? && f.value % 4096 == 0 && f.value / 4096 in img.vm.used && f.value / 4096 !in before
  {
  }

  lemma HoldsWeaken(img: Image, root: nat, before: set<nat>, before': set<nat>, v: nat, c: seq<nat>)
    requires Holds(img, root, before, v, c) && before' <= before
    ensures Holds(img, root, before', v, c)
  {
  }

  lemma SegmentPageFacts(g: Segment, file: seq<nat>, v: nat)
    requires Loadable(g, file) && InSegment(g, v)
    ensures IsPage(v)
  {
  }

  lemma SoundReflexive(a: Image, root: nat)
    requires WellFormed(a.vm, root)
    ensures Sound(a, a, root)
  {
  }

  lemma SoundTransitive(a: Image, b: Image, c: Image, root: nat)
    requires Sound(a, b, root) && Sound(b, c, root)
    ensures Sound(a, c, root)
  {
  }

  lemma SoundKeepsUnblocked(a: Image, b: Image, root: nat, g: Segment)
    requires Sound(a, b, root) && Unblocked(a.vm, root, g)
    ensures Unblocked(b.vm, root, g)
  {
  }

  lemma {:induction false} LoadPagesStore(img: Image, root: nat, g: Segment, file: seq<nat>, page: nat)
    requires WellFormed(img.vm, root) && Unblocked(img.vm, root, g)
    requires Loadable(g, file) && StartPage(g) <= page && page % 4096 == 0
    ensures var (img', status) := LoadPages(img, root, g, file, page, EndPage(g));
            && Sound(img, img', root)
            && (status == Loaded ==> LoadedFrom(img, img', root, g, file, page))
            && (4 * PagesIn(page, EndPage(g)) <= |FreePages(img.vm.used)| ==> status == Loaded)
            && |FreePages(img'.vm.used)| >= |FreePages(img.vm.used)| - 4 * PagesIn(page, EndPage(g))
            && (forall v: nat :: IsPage(v) && !(InSegment(g, v) && page <= v) ==> Keeps(img, img', root, v))
    decreases EndPage(g) - page
  {
    hide PtPath, PageOf, WellFormed, Blocked, Translate, PageContent, IsPt, Holds, FrameOf;
    hide FreePages, LoadPage, Sound, Unblocked, Keeps;
    KeepsReflexive(img, root);
    SoundReflexive(img, root);
    if page < EndPage(g) {
      PagesInNext(page, EndPage(g));
      assert InSegment(g, page);
      var (img1, status1) := LoadPage(img, root, g, file, page);
      HeadUnblocked(img.vm, root, g, page);
      LoadPageStores(img, root, g, file, page);
      SegmentPageFacts(g, file, page);
      forall v: nat | IsPage(v) && v != page ensures Keeps(img, img1, root, v) {
        PageOfInjective(v, page);
      }
      if status1 == Loaded {
        SoundKeepsUnblocked(img, img1, root, g);
        SoundGivesShape(img, img1, root);
        LoadPagesStore(img1, root, g, file, page + 4096);
        var (img', status) := LoadPages(img1, root, g, file, page + 4096, EndPage(g));
        SoundTransitive(img, img1, img', root);
        assert Keeps(img1, img', root, page);
        forall v: nat | IsPage(v) && !(InSegment(g, v) && page <= v) ensures Keeps(img, img', root, v) {
          KeepsTransitive(img, img1, img', root, v);
        }
        if status == Loaded {
          LoadedOneMore(img, img1, img', root, g, file, page);
        }
      }
    }
  }

  lemma KeepsReflexive(img: Image, root: nat)
    ensures forall v: nat :: Keeps(img, img, root, v)
  {
    hide Translate, Holds;
  }

  lemma KeepsTransitive(a: Image, b: Image, c: Image, root: nat, v: nat)
    requires Keeps(a, b, root, v) && Keeps(b, c, root, v)
    ensures Keeps(a, c, root, v)
  {
    hide Translate, Holds;
  }

  lemma HeadUnblocked(s: Vm, root: nat, g: Segment, page: nat)
    requires Unblocked(s, root, g) && InSegment(g, page)
    ensures !Blocked(s.mem, root, PtPath(page))
  {
  }

  lemma SoundGivesShape(a: Image, b: Image, root: nat)
    requires Sound(a, b, root)
    ensures WellFormed(b.vm, root) && a.vm.used <= b.vm.used
  {
  }

  lemma LoadedOneMore(img: Image, img1: Image, img': Image, root: nat, g: Segment, file: seq<nat>, page: nat)
    requires Loadable(g, file) && InSegment(g, page)
    requires img.vm.used <= img1.vm.used
    requires Holds(img1, root, img.vm.used, page, PageContent(g, file, page)) && Keeps(img1, img', root, page)
    requires LoadedFrom(img1, img', root, g, file, page + 4096)
    ensures LoadedFrom(img, img', root, g, file, page)
  {
    hide Translate, PageContent, Holds;
    forall v: nat | InSegment(g, v) && page <= v
      ensures Holds(img', root, img.vm.used, v, PageContent(g, file, v))
    {
      if v != page {
        HoldsWeaken(img', root, img1.vm.used, img.vm.used, v, PageContent(g, file, v));
      }
    }
    HoldsGivesFrame(img1, root, img.vm.used, page, PageContent(g, file, page));
    forall v: nat, w: nat | InSegment(g, v) && InSegment(g, w) && page <= v < w
      ensures FrameOf(img', root, v) != FrameOf(img', root, w)
    {
      if v == page {
        HoldsGivesFrame(img', root, img1.vm.used, w, PageContent(g, file, w));
      }
    }
  }

  // ---------- Whole programs ----------

  predicate Loads(gs: seq<Segment>, g: Segment) { g in gs && g.kind == PT_LOAD }

  /** Page v is part of segment i and of none that is loaded after it. */
  ghost predicate Owns(gs: seq<Segment>, i: nat, v: nat) {
    && i < |gs| && gs[i].kind == PT_LOAD && InSegment(gs[i], v)
    && forall j :: i < j < |gs| && gs[j].kind == PT_LOAD ==> !InSegment(gs[j], v)
  }

  ghost predicate ProgramReady(s: Vm, root: nat, gs: seq<Segment>, file: seq<nat>) {
    && WellFormed(s, root)
    && forall g :: Loads(gs, g) ==> Loadable(g, file) && Unblocked(s, root, g)
  }

  function TotalPages(gs: seq<Segment>): nat {
    if gs == [] then 0
    else (if gs[0].kind == PT_LOAD then PagesIn(StartPage(gs[0]), EndPage(gs[0])) else 0) + TotalPages(gs[1..])
  }

  /** Every page holds the content of the last segment that it is part of, in a frame that was free in img, and no
      frame serves two pages. */
  ghost predicate ProgramLoaded(img: Image, img': Image, root: nat, gs: seq<Segment>, file: seq<nat>)
    requires InFile(gs, file)
  {
    && (forall i: nat, v: nat :: Owns(gs, i, v) ==> Holds(img', root, img.vm.used, v, PageContent(gs[i], file, v)))
    && (forall i: nat, j: nat, v: nat, w: nat :: Owns(gs, i, v) && Owns(gs, j, w) && v != w ==>
          FrameOf(img', root, v) != FrameOf(img', root, w))
  }

  lemma {:induction false} LoadSegmentsLoads(img: Image, root: nat, gs: seq<Segment>, file: seq<nat>)
    requires ProgramReady(img.vm, root, gs, file) && InFile(gs, file)
    ensures var (img', status) := LoadSegments(img, root, gs, file);
            && Sound(img, img', root)
            && (status == Loaded ==> ProgramLoaded(img, img', root, gs, file))
            && (4 * TotalPages(gs) <= |FreePages(img.vm.used)| ==> status == Loaded)
            && (forall v: nat :: IsPage(v) && (forall g :: Loads(gs, g) ==> !InSegment(g, v)) ==>
                  Keeps(img, img', root, v))
    decreases |gs|
  {
    hide PtPath, PageOf, WellFormed, Blocked, Translate, PageContent, IsPt, Holds, FrameOf;
    hide FreePages, LoadPages, Sound, Unblocked, InSegment, PagesIn, Loadable;
    SoundReflexive(img, root);
    if gs != [] {
      var g, rest := gs[0], gs[1..];
      assert forall h :: Loads(rest, h) ==> Loads(gs, h);
      if g.kind != PT_LOAD {
        assert forall h :: Loads(gs, h) ==> Loads(rest, h);
        LoadSegmentsLoads(img, root, rest, file);
        forall i: nat, v: nat | Owns(gs, i, v) ensures i > 0 && Owns(rest, i - 1, v) && rest[i - 1] == gs[i] {
          OwnsInRest(gs, i, v);
        }
      } else {
        assert Loads(gs, g);
        StartIsAligned(g);
        LoadPagesStore(img, root, g, file, StartPage(g));
        var (img1, status1) := LoadPages(img, root, g, file, StartPage(g), EndPage(g));
        SoundGivesShape(img, img1, root);
        forall h | Loads(rest, h) ensures Unblocked(img1.vm, root, h) {
          SoundKeepsUnblocked(img, img1, root, h);
        }
        if status1 == Loaded {
          LoadSegmentsLoads(img1, root, rest, file);
          var (img', status) := LoadSegments(img1, root, rest, file);
          SoundTransitive(img, img1, img', root);
          forall v: nat | Owns(gs, 0, v) ensures Keeps(img1, img', root, v) {
            SegmentPageFacts(g, file, v);
            forall h | Loads(rest, h) ensures !InSegment(h, v) {
              var j :| 0 <= j < |rest| && rest[j] == h;
              assert gs[j + 1] == h;
            }
          }
          if status == Loaded {
            ProgramOneMore(img, img1, img', root, gs, file);
          }
        }
      }
    }
  }

  /** A page of a later segment than the first has the same owner among the remaining segments. */
  lemma OwnsInRest(gs: seq<Segment>, i: nat, v: nat)
    requires Owns(gs, i, v)
    ensures i > 0 ==> Owns(gs[1..], i - 1, v) && gs[1..][i - 1] == gs[i]
  {
    hide InSegment;
    if i > 0 {
      forall j | i - 1 < j < |gs[1..]| && gs[1..][j].kind == PT_LOAD ensures !InSegment(gs[1..][j], v) {
        assert gs[1..][j] == gs[j + 1];
      }
    }
  }

  lemma StartIsAligned(g: Segment)
    ensures StartPage(g) % 4096 == 0
  {
  }

  lemma ProgramOneMore(img: Image, img1: Image, img': Image, root: nat, gs: seq<Segment>, file: seq<nat>)
    requires InFile(gs, file) && gs != [] && gs[0].kind == PT_LOAD
    requires forall g :: Loads(gs, g) ==> Loadable(g, file)
    requires img.vm.used <= img1.vm.used
    requires LoadedFrom(img, img1, root, gs[0], file, StartPage(gs[0]))
    requires forall v: nat :: Owns(gs, 0, v) ==> Keeps(img1, img', root, v)
    requires ProgramLoaded(img1, img', root, gs[1..], file)
    ensures ProgramLoaded(img, img', root, gs, file)
  {
    hide Translate, PageContent, Holds, Loadable;
    forall v: nat | Owns(gs, 0, v)
      ensures Holds(img', root, img.vm.used, v, PageContent(gs[0], file, v))
      ensures FrameOf(img', root, v) == FrameOf(img1, root, v)
      ensures FrameOf(img', root, v).Some? && FrameOf(img', root, v).value / 4096 in img1.vm.used
    {
      assert Keeps(img1, img', root, v);
      HoldsGivesFrame(img1, root, img.vm.used, v, PageContent(gs[0], file, v));
    }
    forall i: nat, v: nat | i > 0 && Owns(gs, i, v)
      ensures Owns(gs[1..], i - 1, v) && Holds(img', root, img.vm.used, v, PageContent(gs[i], file, v))
      ensures FrameOf(img', root, v).Some? && FrameOf(img', root, v).value / 4096 !in img1.vm.used
    {
      OwnsInRest(gs, i, v);
      HoldsGivesFrame(img', root, img1.vm.used, v, PageContent(gs[i], file, v));
      HoldsWeaken(img', root, img1.vm.used, img.vm.used, v, PageContent(gs[i], file, v));
    }
    forall i: nat, j: nat, v: nat, w: nat | Owns(gs, i, v) && Owns(gs, j, w) && v != w
      ensures FrameOf(img', root, v) != FrameOf(img', root, w)
    {
      if i == 0 && j == 0 {
        assert InSegment(gs[0], v) && InSegment(gs[0], w);
      } else if i > 0 && j > 0 {
        assert Owns(gs[1..], i - 1, v) && Owns(gs[1..], j - 1, w);
      }
    }
  }

  // ---------- Access rights ----------

  /** Bit 1 of p_flags. */
  predicate WantsWrite(g: Segment) { g.flags / 2 % 2 == 1 }

  /** User mode may read page v, and its leaf allows writing exactly when segment g asks for it. */
  ghost predicate HasRights(img: Image, root: nat, g: Segment, v: nat) {
    var t := Translate(img.vm.mem, root, v);
    t.Page? && Present(t.leaf) && User(t.leaf) && (Writable(t.leaf) <==> WantsWrite(g))
  }

  lemma LeafRights(g: Segment, phys: nat)
    requires phys % 4096 == 0
    ensures var e := LeafWord(phys, PageFlags(g)); Present(e) && User(e) && (Writable(e) <==> WantsWrite(g))
    ensures User(PageFlags(g))
  {
    hide LeafWord;
    LeafWordBits(phys, PageFlags(g));
  }

  lemma LoadPageRights(img: Image, root: nat, g: Segment, file: seq<nat>, page: nat)
    requires WellFormed(img.vm, root) && OpenLinks(img.vm, root)
    requires Loadable(g, file) && InSegment(g, page) && !Blocked(img.vm.mem, root, PtPath(page))
    ensures var (img', status) := LoadPage(img, root, g, file, page);
            OpenLinks(img'.vm, root) && (status == Loaded ==> HasRights(img', root, g, page))
  {
    hide PtPath, PtIndex, PageOf, WellFormed, OpenLinks, Blocked, Translate, PageContent, PageFlags, WantsWrite;
    hide AddrOf, Alloc, FreePages, Missing, LeafWord, MapAt, Present, User, Writable;
    var (phys, used) := Alloc(img.vm.used);
    AllocGivesFreshPage(img.vm, root);
    UsedMayGrow(img.vm, root, used);
    ContentFits(g, file, page);
    var vm := img.vm.(used := used);
    LinksStayOpen(img.vm, root, used);
    if phys != 0 {
      LeafRights(g, phys);
      RootIsNotNull(vm, root);
      MapPageRefinesUpdate(vm, root, page, phys, PageFlags(g));
      MapAtKeepsOpenLinks(vm, root, PtPath(page), PtIndex(page), LeafWord(phys, PageFlags(g)), PageFlags(g));
      if Missing(vm.mem, root, PtPath(page)) > |FreePages(used)| {
        UnmappedPage(vm, root, page);
      }
    }
  }

  lemma LinksStayOpen(s: Vm, root: nat, used: set<nat>)
    requires OpenLinks(s, root)
    ensures OpenLinks(s.(used := used), root)
  {
  }

  lemma RightsKept(img: Image, img': Image, root: nat, g: Segment, v: nat)
    requires HasRights(img, root, g, v) && Keeps(img, img', root, v)
    ensures HasRights(img', root, g, v)
  {
    hide Translate, Holds;
  }

  lemma {:induction false} LoadPagesRights(img: Image, root: nat, g: Segment, file: seq<nat>, page: nat)
    requires WellFormed(img.vm, root) && OpenLinks(img.vm, root) && Unblocked(img.vm, root, g)
    requires Loadable(g, file) && StartPage(g) <= page && page % 4096 == 0
    ensures var (img', status) := LoadPages(img, root, g, file, page, EndPage(g));
            && OpenLinks(img'.vm, root)
            && (status == Loaded ==> forall v: nat :: InSegment(g, v) && page <= v ==> HasRights(img', root, g, v))
    decreases EndPage(g) - page
  {
    hide PtPath, PageOf, WellFormed, OpenLinks, Blocked, PageContent, Holds, HasRights, LoadedFrom;
    hide FreePages, LoadPage, Sound, Unblocked, Keeps;
    if page < EndPage(g) {
      assert InSegment(g, page);
      var (img1, status1) := LoadPage(img, root, g, file, page);
      HeadUnblocked(img.vm, root, g, page);
      LoadPageStores(img, root, g, file, page);
      LoadPageRights(img, root, g, file, page);
      SegmentPageFacts(g, file, page);
      if status1 == Loaded {
        SoundKeepsUnblocked(img, img1, root, g);
        SoundGivesShape(img, img1, root);
        LoadPagesStore(img1, root, g, file, page + 4096);
        LoadPagesRights(img1, root, g, file, page + 4096);
        var (img', status) := LoadPages(img1, root, g, file, page + 4096, EndPage(g));
        assert Keeps(img1, img', root, page);
        RightsKept(img1, img', root, g, page);
        forall v: nat | InSegment(g, v) && page <= v ensures v == page || page + 4096 <= v {
        }
      }
    }
  }

  lemma {:induction false} LoadSegmentsRights(img: Image, root: nat, gs: seq<Segment>, file: seq<nat>)
    requires ProgramReady(img.vm, root, gs, file) && OpenLinks(img.vm, root) && InFile(gs, file)
    ensures var (img', status) := LoadSegments(img, root, gs, file);
            && OpenLinks(img'.vm, root)
            && (status == Loaded ==> forall i: nat, v: nat :: Owns(gs, i, v) ==> HasRights(img', root, gs[i], v))
    decreases |gs|
  {
    hide PtPath, WellFormed, OpenLinks, Blocked, PageContent, Holds, FrameOf, HasRights, LoadedFrom;
    hide FreePages, LoadPages, Sound, Unblocked, InSegment, PagesIn, Loadable, Keeps, ProgramLoaded;
    if gs != [] {
      var g, rest := gs[0], gs[1..];
      assert forall h :: Loads(rest, h) ==> Loads(gs, h);
      var img1, status1 := img, Loaded;
      if g.kind == PT_LOAD {
        assert Loads(gs, g);
        StartIsAligned(g);
        LoadPagesStore(img, root, g, file, StartPage(g));
        LoadPagesRights(img, root, g, file, StartPage(g));
        img1, status1 := LoadPages(img, root, g, file, StartPage(g), EndPage(g)).0,
          LoadPages(img, root, g, file, StartPage(g), EndPage(g)).1;
        SoundGivesShape(img, img1, root);
        forall h | Loads(rest, h) ensures Unblocked(img1.vm, root, h) {
          SoundKeepsUnblocked(img, img1, root, h);
        }
      }
      if status1 == Loaded {
        LoadSegmentsLoads(img1, root, rest, file);
        LoadSegmentsRights(img1, root, rest, file);
        var (img', status) := LoadSegments(img1, root, rest, file);
        forall i: nat, v: nat | status == Loaded && Owns(gs, i, v) ensures HasRights(img', root, gs[i], v) {
          OwnsInRest(gs, i, v);
          if i == 0 {
            FirstOwnerKept(img1, img', root, gs, file, v);
            InSegmentStart(g, v);
            RightsKept(img1, img', root, g, v);
          }
        }
      }
    }
  }

  lemma InSegmentStart(g: Segment, v: nat)
    requires InSegment(g, v)
    ensures StartPage(g) <= v
  {
  }

  /** A page that only the first segment has is not touched by the loading of the others. */
  lemma FirstOwnerKept(img: Image, img': Image, root: nat, gs: seq<Segment>, file: seq<nat>, v: nat)
    requires Owns(gs, 0, v) && Loadable(gs[0], file)
    requires forall v: nat :: IsPage(v) && (forall g :: Loads(gs[1..], g) ==> !InSegment(g, v)) ==>
               Keeps(img, img', root, v)
    ensures Keeps(img, img', root, v)
  {
    hide Keeps, InSegment, Loadable;
    SegmentPageFacts(gs[0], file, v);
    forall h | Loads(gs[1..], h) ensures !InSegment(h, v) {
      var j :| 0 <= j < |gs[1..]| && gs[1..][j] == h;
      assert gs[j + 1] == h;
    }
  }

  /** After a successful load every page of a program is present and open to user mode, and user mode may write it
      exactly when the last segment that it is part of has PF_W. */
  lemma LoadedRights(img: Image, root: nat, gs: seq<Segment>, file: seq<nat>)
    requires ProgramReady(img.vm, root, gs, file) && OpenLinks(img.vm, root) && InFile(gs, file)
    requires LoadSegments(img, root, gs, file).1 == Loaded
    ensures var img' := LoadSegments(img, root, gs, file).0;
            forall i: nat, v: nat :: Owns(gs, i, v) ==>
              var t := Translate(img'.vm.mem, root, v);
              && t.Page? && Present(t.leaf) && User(t.leaf) && (Writable(t.leaf) <==> gs[i].flags / 2 % 2 == 1)
              && (UserWritable(img'.vm.mem, root, v) <==> gs[i].flags / 2 % 2 == 1)
  {
    hide PtPath, WellFormed, OpenLinks, Blocked, InSegment, LoadSegments, ProgramReady, ProgramLoaded, Translate;
    LoadSegmentsRights(img, root, gs, file);
    LoadSegmentsLoads(img, root, gs, file);
    var img' := LoadSegments(img, root, gs, file).0;
    SoundGivesShape(img, img', root);
    forall i: nat, v: nat | Owns(gs, i, v)
      ensures HasRights(img', root, gs[i], v) && (UserWritable(img'.vm.mem, root, v) <==> WantsWrite(gs[i]))
    {
      assert HasRights(img', root, gs[i], v);
      if WantsWrite(gs[i]) {
        OpenLinksSuffice(img'.vm, root, v);
      }
    }
  }

  /** The headers that elf_validate accepts. */
  lemma ValidateAccepts(h: Header)
    ensures Validate(Some(h)) <==>
            && |h.ident| == 16 && h.ident[0] == 0x7F && h.ident[1] == 0x45 && h.ident[2] == 0x4C && h.ident[3] == 0x46
            && h.ident[4] == 2 && h.kind == 2 && h.machine == 62
    ensures !Validate(None)
  {
    if |h.ident| == 16 {
      assert h.ident[..5] == [h.ident[0], h.ident[1], h.ident[2], h.ident[3], h.ident[4]];
    }
  }

  // ---------- How many pages a program needs ----------

  /** The positions without a table on the way to some page of the segments. */
  function LackingOf(m: Memory, root: nat, gs: seq<Segment>): set<Path> {
    if gs == [] then {}
    else
      (if gs[0].kind == PT_LOAD then LackingTables(m, root, StartPage(gs[0]), EndPage(gs[0])) else {})
      + LackingOf(m, root, gs[1..])
  }

  /** One frame for each page of each PT_LOAD segment, and one for each table that is not there yet. */
  function ProgramNeed(m: Memory, root: nat, gs: seq<Segment>): nat { TotalPages(gs) + |LackingOf(m, root, gs)| }

  /** One page is loaded exactly when its frame and its missing tables fit. */
  lemma LoadPageExact(img: Image, root: nat, g: Segment, file: seq<nat>, page: nat)
    requires WellFormed(img.vm, root)
    requires Loadable(g, file) && InSegment(g, page) && !Blocked(img.vm.mem, root, PtPath(page))
    ensures var (img', status) := LoadPage(img, root, g, file, page);
            var need, free := 1 + Missing(img.vm.mem, root, PtPath(page)), |FreePages(img.vm.used)|;
            && (status == Loaded <==> need <= free) && (status == NoMemory <==> free == 0)
            && (status == Loaded ==>
                  && Created(img.vm.mem, img'.vm.mem, root, Route(PtPath(page)))
                  && |FreePages(img'.vm.used)| == free - need)
  {
    hide PtPath, PageOf, WellFormed, Blocked, Translate, PageContent, IsPt, MapPage, PageFlags;
    hide AddrOf, Alloc, FreePages, Missing, Created, Route, LeafWord, TableAt;
    var (phys, used) := Alloc(img.vm.used);
    AllocGivesFreshPage(img.vm, root);
    UsedMayGrow(img.vm, root, used);
    ContentFits(g, file, page);
    if phys != 0 {
      var vm := img.vm.(used := used);
      MapPageRefinesUpdate(vm, root, page, phys, PageFlags(g));
      if Missing(vm.mem, root, PtPath(page)) <= |FreePages(used)| {
        MapPageCounts(vm, root, page, phys, PageFlags(g));
      } else {
        UnmappedPage(vm, root, page);
      }
    } else {
      NoFreePages(img.vm.used);
    }
  }

  lemma NoFreePages(used: set<nat>)
    requires FreePages(used) == {}
    ensures |FreePages(used)| == 0
  {
  }

  lemma {:induction false} LoadPagesExact(img: Image, root: nat, g: Segment, file: seq<nat>, page: nat)
    requires WellFormed(img.vm, root) && Unblocked(img.vm, root, g)
    requires Loadable(g, file) && StartPage(g) <= page && page % 4096 == 0
    ensures var (img', status) := LoadPages(img, root, g, file, page, EndPage(g));
            var need, free := Need(img.vm.mem, root, page, EndPage(g)), |FreePages(img.vm.used)|;
            && (status == Loaded <==> need <= free)
            && (status == Loaded ==>
                  && Created(img.vm.mem, img'.vm.mem, root, LackingTables(img.vm.mem, root, page, EndPage(g)))
                  && |FreePages(img'.vm.used)| == free - need)
    decreases EndPage(g) - page
  {
    hide PtPath, WellFormed, Blocked, Created, Route, Need, Missing, TableAt, LackingTables;
    hide FreePages, LoadPage, Sound, Unblocked, Keeps, Holds, PageContent;
    var end := EndPage(g);
    if page < end {
      assert InSegment(g, page);
      var (img1, status1) := LoadPage(img, root, g, file, page);
      HeadUnblocked(img.vm, root, g, page);
      LoadPageStores(img, root, g, file, page);
      LoadPageExact(img, root, g, file, page);
      NeedOfPage(img.vm.mem, root, page, end);
      if status1 == Loaded {
        SoundKeepsUnblocked(img, img1, root, g);
        SoundGivesShape(img, img1, root);
        LoadPagesExact(img1, root, g, file, page + 4096);
        NeedOfFirst(img.vm.mem, img1.vm.mem, root, page, end);
        var (img', status) := LoadPages(img1, root, g, file, page + 4096, end);
        if status == Loaded {
          CreatedFirst(img.vm.mem, img1.vm.mem, img'.vm.mem, root, page, end);
        }
      }
    } else {
      NothingToLoad(img.vm.mem, root, page, end);
    }
  }

  lemma NothingToLoad(m: Memory, root: nat, page: nat, end: nat)
    requires page >= end
    ensures Need(m, root, page, end) == 0 && Created(m, m, root, LackingTables(m, root, page, end))
  {
  }

  lemma {:induction false} LackingOfAfter(m: Memory, m': Memory, root: nat, ps: set<Path>, gs: seq<Segment>)
    requires Created(m, m', root, ps)
    ensures LackingOf(m', root, gs) == LackingOf(m, root, gs) - ps
  {
    hide LackingTables, Created;
    if gs != [] {
      LackingOfAfter(m, m', root, ps, gs[1..]);
      if gs[0].kind == PT_LOAD {
        LackingAfter(m, m', root, ps, StartPage(gs[0]), EndPage(gs[0]));
      }
    }
  }

  /** The first segment takes its need; what it leaves to do is the need of the rest. */
  lemma NeedOfSegment(m: Memory, m': Memory, root: nat, gs: seq<Segment>)
    requires gs != [] && gs[0].kind == PT_LOAD
    ensures Need(m, root, StartPage(gs[0]), EndPage(gs[0])) <= ProgramNeed(m, root, gs)
    ensures Created(m, m', root, LackingTables(m, root, StartPage(gs[0]), EndPage(gs[0]))) ==>
              ProgramNeed(m, root, gs) ==
              Need(m, root, StartPage(gs[0]), EndPage(gs[0])) + ProgramNeed(m', root, gs[1..])
  {
    hide LackingTables, Created, PagesIn, StartPage, EndPage;
    var first := LackingTables(m, root, StartPage(gs[0]), EndPage(gs[0]));
    var all, rest := LackingOf(m, root, gs), LackingOf(m, root, gs[1..]);
    assert all == first + (rest - first);
    if Created(m, m', root, first) {
      LackingOfAfter(m, m', root, first, gs[1..]);
    }
  }

  /** A program is loaded exactly when the frames of its pages and the tables they lack fit in the free pages. */
  lemma {:induction false} LoadSegmentsExact(img: Image, root: nat, gs: seq<Segment>, file: seq<nat>)
    requires ProgramReady(img.vm, root, gs, file) && InFile(gs, file)
    ensures LoadSegments(img, root, gs, file).1 == Loaded <==>
            ProgramNeed(img.vm.mem, root, gs) <= |FreePages(img.vm.used)|
    decreases |gs|
  {
    hide WellFormed, Blocked, Created, Need, LackingTables, FreePages, LoadPages, Sound, Unblocked, Loadable, PagesIn;
    hide LoadedFrom, Keeps;
    if gs != [] {
      var g, rest := gs[0], gs[1..];
      assert forall h :: Loads(rest, h) ==> Loads(gs, h);
      if g.kind != PT_LOAD {
        LoadSegmentsExact(img, root, rest, file);
        assert LackingOf(img.vm.mem, root, gs) == LackingOf(img.vm.mem, root, rest);
      } else {
        assert Loads(gs, g);
        StartIsAligned(g);
        LoadPagesStore(img, root, g, file, StartPage(g));
        LoadPagesExact(img, root, g, file, StartPage(g));
        var (img1, status1) := LoadPages(img, root, g, file, StartPage(g), EndPage(g));
        NeedOfSegment(img.vm.mem, img1.vm.mem, root, gs);
        if status1 == Loaded {
          SoundGivesShape(img, img1, root);
          forall h | Loads(rest, h) ensures Unblocked(img1.vm, root, h) {
            SoundKeepsUnblocked(img, img1, root, h);
          }
          LoadSegmentsExact(img1, root, rest, file);
        }
      }
    }
  }

  // ---------- The meaning of a loaded program ----------

  function PageBase(v: nat): nat { v / 4096 * 4096 }

  /** Byte k of a segment in memory: the file byte, or zero behind the file part. */
  function SegmentByte(g: Segment, file: seq<nat>, k: nat): nat
    requires k < g.memsz && g.offset + g.filesz <= |file|
  {
    if k < g.filesz then file[g.offset + k] else 0
  }

  /** How many bytes of the segment share their page with addresses below it. */
  function HeadBytes(g: Segment): nat { HeadOf(g.vaddr) }

  function HeadOf(v: nat): nat { (4096 - v % 4096) % 4096 }

  /** Byte k as the loader leaves it: a partial first page is cleared instead of filled. */
  function LoadedByte(g: Segment, file: seq<nat>, k: nat): nat
    requires k < g.memsz && g.offset + g.filesz <= |file|
  {
    if k < HeadBytes(g) then 0 else SegmentByte(g, file, k)
  }

  function Least(a: nat, b: nat, c: nat): nat { Min(a, Min(b, c)) }

  lemma HeadCondition(g: Segment, file: seq<nat>)
    requires Loadable(g, file)
    ensures (forall k: nat :: k < g.memsz ==> LoadedByte(g, file, k) == SegmentByte(g, file, k)) <==> HeadIsZero(g, file)
  {
    if forall k: nat :: k < g.memsz ==> LoadedByte(g, file, k) == SegmentByte(g, file, k) {
      forall i | 0 <= i - g.offset < Least(g.memsz, g.filesz, HeadBytes(g)) ensures file[i] == 0 {
        var k: nat := i - g.offset;
        assert LoadedByte(g, file, k) == SegmentByte(g, file, k);
      }
    }
  }

  /** The segment starts on a page boundary, or what the file has for its partial first page is zero. */
  predicate HeadIsZero(g: Segment, file: seq<nat>)
    requires g.offset + g.filesz <= |file|
  {
    g.vaddr % 4096 == 0 ||
    forall i :: 0 <= i - g.offset < Least(g.memsz, g.filesz, HeadBytes(g)) ==> file[i] == 0
  }

  lemma ContentByte(g: Segment, file: seq<nat>, k: nat)
    requires Loadable(g, file) && k < g.memsz
    ensures var page := PageBase(g.vaddr + k); var c := PageContent(g, file, page); var j := (g.vaddr + k) % 4096;
            InSegment(g, page) && j < |c| && c[j] == LoadedByte(g, file, k)
  {
    hide PageBase, InSegment, HeadOf;
    var page := PageBase(g.vaddr + k);
    ByteInSegment(g, file, k);
    FirstPage(g.vaddr, k);
    assert page < g.vaddr <==> k < HeadBytes(g);
    if g.vaddr <= page && page < g.vaddr + g.filesz {
      assert page - g.vaddr + (g.vaddr + k) % 4096 == k;
    }
  }

  lemma ByteInSegment(g: Segment, file: seq<nat>, k: nat)
    requires Loadable(g, file) && k < g.memsz
    ensures var page := PageBase(g.vaddr + k);
            InSegment(g, page) && page + (g.vaddr + k) % 4096 == g.vaddr + k && (g.vaddr + k) % 4096 < 4096
  {
  }

  lemma FirstPage(v: nat, k: nat)
    ensures PageBase(v + k) < v <==> k < HeadOf(v)
  {
    var q, r := v / 4096, v % 4096;
    assert v + k == 4096 * q + (r + k);
    assert (v + k) / 4096 == q + (r + k) / 4096;
  }

  lemma HeldByte(img: Image, root: nat, before: set<nat>, v: nat, c: seq<nat>)
    requires Holds(img, root, before, PageBase(v), c) && v % 4096 < |c|
    ensures ReadByte(img, root, v) == Some(c[v % 4096])
  {
    var page := v / 4096 * 4096;
    assert PageOf(page) == PageOf(v);
    IndicesIdentifyPage(page, v);
    assert Translate(img.vm.mem, root, page) == Translate(img.vm.mem, root, v);
  }

  /** A load that reports success leaves every byte of every PT_LOAD segment as the System V gABI asks, a
      partial first page and pages that a later segment takes over apart. It succeeds exactly when frames and
      lacking tables fit, and so whenever four free pages per segment page are left. */
  lemma LoadedImage(img: Image, root: nat, gs: seq<Segment>, file: seq<nat>)
    requires ProgramReady(img.vm, root, gs, file) && InFile(gs, file)
    ensures var (img', status) := LoadSegments(img, root, gs, file);
            && (status == Loaded <==> ProgramNeed(img.vm.mem, root, gs) <= |FreePages(img.vm.used)|)
            && (4 * TotalPages(gs) <= |FreePages(img.vm.used)| ==> status == Loaded)
            && (status == Loaded ==>
                  forall i: nat, k: nat ::
                    i < |gs| && gs[i].kind == PT_LOAD && k < gs[i].memsz && Owns(gs, i, PageBase(gs[i].vaddr + k)) ==>
                      ReadByte(img', root, gs[i].vaddr + k) == Some(LoadedByte(gs[i], file, k)))
  {
    hide Translate, PageContent, Holds, ReadByte, InSegment, Loadable, LoadSegments, PageBase, ProgramNeed;
    LoadSegmentsLoads(img, root, gs, file);
    LoadSegmentsExact(img, root, gs, file);
    var (img', status) := LoadSegments(img, root, gs, file);
    forall i: nat, k: nat |
      && status == Loaded && i < |gs| && gs[i].kind == PT_LOAD && k < gs[i].memsz
      && Owns(gs, i, PageBase(gs[i].vaddr + k))
      ensures ReadByte(img', root, gs[i].vaddr + k) == Some(LoadedByte(gs[i], file, k))
    {
      var page := PageBase(gs[i].vaddr + k);
      assert Loads(gs, gs[i]);
      ContentByte(gs[i], file, k);
      HeldByte(img', root, img.vm.used, gs[i].vaddr + k, PageContent(gs[i], file, page));
    }
  }

  /** The image of a segment in memory has the gABI meaning exactly when the segment is page-aligned or its
      partial first page is zero in the file. */
  lemma AlignmentCondition(img: Image, root: nat, gs: seq<Segment>, file: seq<nat>, i: nat)
    requires ProgramReady(img.vm, root, gs, file) && InFile(gs, file) && LoadSegments(img, root, gs, file).1 == Loaded
    requires i < |gs| && gs[i].kind == PT_LOAD && forall v: nat :: InSegment(gs[i], v) ==> Owns(gs, i, v)
    ensures var (g, img') := (gs[i], LoadSegments(img, root, gs, file).0);
            (forall k: nat :: k < g.memsz ==> ReadByte(img', root, g.vaddr + k) == Some(SegmentByte(g, file, k)))
            <==> HeadIsZero(g, file)
  {
    hide ProgramReady, ReadByte, LoadSegments, PageContent, InSegment, Loadable, Owns, HeadIsZero, LoadedByte, SegmentByte;
    var (g, img') := (gs[i], LoadSegments(img, root, gs, file).0);
    LoadedImage(img, root, gs, file);
    ReadyIsLoadable(img.vm, root, gs, file, i);
    HeadCondition(g, file);
    forall k: nat | k < g.memsz ensures ReadByte(img', root, g.vaddr + k) == Some(LoadedByte(g, file, k)) {
      ContentByte(g, file, k);
    }
  }

  lemma ReadyIsLoadable(s: Vm, root: nat, gs: seq<Segment>, file: seq<nat>, i: nat)
    requires ProgramReady(s, root, gs, file) && i < |gs| && gs[i].kind == PT_LOAD
    ensures Loadable(gs[i], file)
  {
    assert Loads(gs, gs[i]);
  }

  /** One failing program on the tables of the boot code: a segment of one non-zero byte at 0x400010 is loaded
      with success, and the byte reads as zero. */
  lemma UnalignedByteIsLost(pml4: nat, pdpt: nat, pd: nat)
    requires BootTables(pml4, pdpt, pd)
    ensures var img := Image(Vm(BootMemory(pml4, pdpt, pd), ReservedPages()), map[]);
            var g := Segment(PT_LOAD, 5, 0, 0x40_0010, 1, 1);
            var (img', status) := LoadSegments(img, pml4, [g], [0xC3]);
            && ProgramReady(img.vm, pml4, [g], [0xC3]) && status == Loaded
            && ReadByte(img', pml4, 0x40_0010) == Some(0) && SegmentByte(g, [0xC3], 0) == 0xC3
  {
    hide BootMemory, BootTables, ReadByte, LoadSegments, ProgramReady, ProgramNeed, Owns, PageContent, TotalPages;
    var img := Image(Vm(BootMemory(pml4, pdpt, pd), ReservedPages()), map[]);
    var g := Segment(PT_LOAD, 5, 0, 0x40_0010, 1, 1);
    ByteProgramReady(pml4, pdpt, pd, g);
    BootIsBalanced();
    BalancedCounts(Boot());
    LoadedImage(img, pml4, [g], [0xC3]);
    assert LoadedByte([g][0], [0xC3], 0) == 0;
  }

  lemma ByteProgramReady(pml4: nat, pdpt: nat, pd: nat, g: Segment)
    requires BootTables(pml4, pdpt, pd) && g == Segment(PT_LOAD, 5, 0, 0x40_0010, 1, 1)
    ensures ProgramReady(Vm(BootMemory(pml4, pdpt, pd), ReservedPages()), pml4, [g], [0xC3])
    ensures TotalPages([g]) == 1 && Owns([g], 0, PageBase([g][0].vaddr + 0))
  {
    hide BootMemory, BootTables, WellFormed, Blocked, PtPath;
    BootIsWellFormed(pml4, pdpt, pd);
    forall v: nat | InSegment(g, v) ensures !Blocked(BootMemory(pml4, pdpt, pd), pml4, PtPath(v)) {
      assert v == 0x40_0000;
      PathOfFirstPage();
    }
    assert [g][1..] == [] && TotalPages([]) == 0;
    assert InSegment(g, 0x40_0000);
  }

  lemma PathOfFirstPage()
    ensures PtPath(0x40_0000).index == 2
  {
  }

  // ---------- The loader ----------

  datatype Result = Rejected | Attempted(entry: nat, status: Status)

  class Loader {
    const space: AddressSpace
    const pml4: nat
    var bytes: map<nat, nat>

    ghost predicate Valid()
      reads this, space, space.frames
    {
      space.Valid()
    }

    ghost function View(): Image
      requires Valid()
      reads this, space, space.frames, space.frames.bitmap
    {
      Image(space.View(), bytes)
    }

    constructor (space: AddressSpace, pml4: nat)
      requires space.Valid()
      ensures Valid() && this.space == space && this.pml4 == pml4 && View() == Image(space.View(), map[])
    {
      this.space := space;
      this.pml4 := pml4;
      bytes := map[];
    }

    /** The copy and clear loops for one page, whose first byte is at physical address `at`. */
    method FillPage(at: nat, g: Segment, file: seq<nat>, page: nat)
      requires g.offset + g.filesz <= |file|
      modifies `bytes
      ensures var content := PageContent(g, file, page); bytes == Stored(old(bytes), at, content, |content|)
    {
      hide Stored;
      ghost var content := PageContent(g, file, page);
      StoreNone(bytes, at, content);
      if g.vaddr <= page < (g.vaddr + g.filesz) % TWO_64 {
        var from := page - g.vaddr;
        var size := PAGE_SIZE;
        if from + size > g.filesz {
          size := g.filesz - from;
        }
        for j := 0 to size
          invariant bytes == Stored(old(bytes), at, content, j)
        {
          StoreNext(old(bytes), at, content, j);
          bytes := bytes[at + j := file[g.offset + from + j]];
        }
        if size < PAGE_SIZE && g.memsz > g.filesz {
          for j := size to PAGE_SIZE
            invariant bytes == Stored(old(bytes), at, content, j)
          {
            StoreNext(old(bytes), at, content, j);
            bytes := bytes[at + j := 0];
          }
        }
      } else if page < (g.vaddr + g.memsz) % TWO_64 {
        for j := 0 to PAGE_SIZE
          invariant bytes == Stored(old(bytes), at, content, j)
        {
          StoreNext(old(bytes), at, content, j);
          bytes := bytes[at + j := 0];
        }
      }
    }

    /** One turn of the page loop: allocate, map, fill. A write to a page left unmapped faults. */
    method LoadOnePage(g: Segment, file: seq<nat>, page: nat) returns (status: Status)
      requires Valid() && g.offset + g.filesz <= |file|
      modifies this, space, space.frames.bitmap
      ensures (View(), status) == LoadPage(old(View()), pml4, g, file, page)
    {
      hide MapPage, MarkedPages, PageContent, Translate, Alloc;
      var phys := space.frames.AllocPage();
      if phys == 0 {
        return NoMemory;
      }
      var flags := if g.flags / 2 % 2 == 1 then 7 else 5;
      space.Map(pml4, page, phys, flags);
      var target := Resolve(space.mem, pml4, page);
      if target == None {
        return if PageContent(g, file, page) == [] then Loaded else PageFault;
      }
      FillPage(target.value, g, file, page);
      status := Loaded;
    }

    method LoadSegment(g: Segment, file: seq<nat>) returns (status: Status)
      requires Valid() && g.offset + g.filesz <= |file|
      modifies this, space, space.frames.bitmap
      ensures (View(), status) == LoadPages(old(View()), pml4, g, file, StartPage(g), EndPage(g))
    {
      hide LoadPage, MarkedPages;
      var page, end := StartPage(g), EndPage(g);
      while page < end
        invariant LoadPages(old(View()), pml4, g, file, StartPage(g), end) == LoadPages(View(), pml4, g, file, page, end)
      {
        status := LoadOnePage(g, file, page);
        if status != Loaded {
          return;
        }
        page := page + PAGE_SIZE;
      }
      status := Loaded;
    }

    method Load(header: Option<Header>, hasProcess: bool, file: seq<nat>) returns (r: Result)
      requires Valid() && (header.Some? ==> InFile(header.value.segments, file))
      modifies this, space, space.frames.bitmap
      ensures !(Validate(header) && hasProcess) ==> r == Rejected && View() == old(View())
      ensures Validate(header) && hasProcess ==>
                (View(), r) == (var (img, status) := LoadSegments(old(View()), pml4, header.value.segments, file);
                                (img, Attempted(header.value.entry, status)))
    {
      hide LoadPages, MarkedPages;
      if !Validate(header) || !hasProcess {
        return Rejected;
      }
      var gs := header.value.segments;
      var i := 0;
      while i < |gs|
        invariant 0 <= i <= |gs|
        invariant LoadSegments(old(View()), pml4, gs, file) == LoadSegments(View(), pml4, gs[i..], file)
      {
        assert gs[i..][0] == gs[i] && gs[i..][1..] == gs[i + 1..];
        if gs[i].kind == PT_LOAD {
          var status := LoadSegment(gs[i], file);
          if status != Loaded {
            return Attempted(header.value.entry, status);
          }
        }
        i := i + 1;
      }
      r := Attempted(header.value.entry, Loaded);
    }
  }
}
