/** 4-level page tables: mm_map_page as an update of one page of the address space. */
module PageTables {
  import opened PhysPages
  import opened Words

  // ---------- Table words ----------

  /** Word `index` of the page-sized table at physical address `table`. */
  datatype Slot = Slot(table: nat, index: nat)

  type Memory = map<Slot, nat>

  /** Physical memory seen as table words, and the allocator's used pages. */
  datatype Vm = Vm(mem: Memory, used: set<nat>)

  function Word(m: Memory, table: nat, index: nat): nat {
    if Slot(table, index) in m then m[Slot(table, index)] else 0
  }

  // Bits 0, 1, 2 and 7 of the twelve below the address.
  predicate Present(e: nat) { e % 4096 % 2 == 1 }
  predicate Writable(e: nat) { e % 4096 / 2 % 2 == 1 }
  predicate User(e: nat) { e % 4096 / 4 % 2 == 1 }
  predicate Huge(e: nat) { e % 4096 / 128 % 2 == 1 }

  /** The word masked with 0x000FFFFFFFFFF000. */
  function AddrOf(e: nat): nat { e / 4096 % TWO_40 * 4096 }

  function FlagsOf(e: nat): int { e - AddrOf(e) }

  /** A link to a lower table: the page-aligned address or-ed with present, writable and the user flag. */
  function LinkWord(table: nat, flags: nat): nat { table + 3 + (if User(flags) then 4 else 0) }

  function LeafWord(phys: nat, flags: nat): nat { Or(Or(phys, flags), 1) }

  lemma SplitWord(k: nat, r: nat)
    requires r < 4096
    ensures (4096 * k + r) / 4096 == k && (4096 * k + r) % 4096 == r
  {
  }

  lemma LinkWordFields(table: nat, flags: nat)
    requires table % 4096 == 0 && table < TWO_52
    ensures var e := LinkWord(table, flags);
            AddrOf(e) == table && Present(e) && Writable(e) && !Huge(e) && (User(e) <==> User(flags))
  {
    SplitWord(table / 4096, if User(flags) then 7 else 3);
  }

  /** The leaf written for a 52-bit page address and a word of flags carries exactly that address and those flags. */
  lemma LeafWordFields(phys: nat, flags: nat)
    requires phys % 4096 == 0 && phys < TWO_52 && AddrOf(flags) == 0
    ensures AddrOf(LeafWord(phys, flags)) == phys && FlagsOf(LeafWord(phys, flags)) == Or(flags, 1)
  {
    hide Or;
    OrOfPageAndFlags(phys, flags);
    OrOne(phys + flags);
    OrOne(flags);
    AddLowBit(flags);
    FieldsOfWord(phys / 4096, flags / 4096, Or(flags, 1) % 4096);
    assert Or(flags, 1) == 4096 * (flags / 4096) + Or(flags, 1) % 4096;
    assert (phys + flags) % 2 == flags % 2 by { SameParity(phys / 4096, flags); }
  }

  lemma SameParity(k: nat, x: nat)
    ensures (4096 * k + x) % 2 == x % 2
  {
    assert 4096 * k + x == 2 * (2048 * k) + x;
  }

  /** The fields of a page number k below a word of flags with high part h and low part r. */
  lemma FieldsOfWord(k: nat, h: nat, r: nat)
    requires k < TWO_40 && h % TWO_40 == 0 && r < 4096
    ensures AddrOf(4096 * (k + h) + r) == 4096 * k && FlagsOf(4096 * (k + h) + r) == 4096 * h + r
  {
    SplitWord(k + h, r);
    FieldOfSum(k, h);
  }

  lemma AddLowBit(flags: nat)
    ensures (flags + 1 - flags % 2) / 4096 == flags / 4096
  {
    var r := flags % 4096;
    SplitWord(flags / 4096, r + 1 - r % 2);
  }

  lemma FieldOfSum(k: nat, h: nat)
    requires k < TWO_40 && h % TWO_40 == 0
    ensures (k + h) % TWO_40 == k
  {
  }

  lemma LeafWordBits(phys: nat, flags: nat)
    requires phys % 4096 == 0
    ensures Present(LeafWord(phys, flags))
    ensures flags < 4096 ==> LeafWord(phys, flags) % 4096 == flags + 1 - flags % 2
  {
    hide Or;
    OrOne(Or(phys, flags));
    OddWord(Or(phys, flags));
    if flags < 4096 {
      OrOfLowBits(phys, flags);
      SplitWord(phys / 4096, flags + 1 - flags % 2);
    }
  }

  lemma OddWord(x: nat)
    ensures Present(x + 1 - x % 2)
  {
    var k, r := x / 4096, x % 4096;
    SplitWord(k, r + 1 - r % 2);
    assert x == 2 * (2048 * k) + r;
    assert x % 2 == r % 2;
    assert x + 1 - x % 2 == 4096 * k + (r + 1 - r % 2);
  }

  // ---------- Virtual addresses ----------

  function Pml4Index(v: nat): nat { v / 0x80_0000_0000 % 512 }
  function PdptIndex(v: nat): nat { v / 0x4000_0000 % 512 }
  function PdIndex(v: nat): nat { v / 0x20_0000 % 512 }
  function PtIndex(v: nat): (i: nat)
    ensures i < 512
  {
    v / 0x1000 % 512
  }

  /** The page number within the 48-bit address space. */
  function PageOf(v: nat): nat { v / 0x1000 % 0x10_0000_0000 }

  lemma PageFromIndices(v: nat)
    ensures PageOf(v) == ((Pml4Index(v) * 512 + PdptIndex(v)) * 512 + PdIndex(v)) * 512 + PtIndex(v)
  {
    var n := v / 0x1000;
    assert v / 0x20_0000 == n / 512;
    assert v / 0x4000_0000 == n / 512 / 512;
    assert v / 0x80_0000_0000 == n / 512 / 512 / 512;
  }

  // ---------- The tree ----------

  /** A position in the tree: the root table, or an entry below another position. */
  datatype Path = Top | Sub(up: Path, index: nat)

  function Depth(p: Path): nat { if p.Top? then 0 else 1 + Depth(p.up) }

  predicate InBounds(p: Path) { p.Top? || (p.index < 512 && InBounds(p.up)) }

  /** The positions that can hold a table: the PML4 and three levels below it. */
  predicate IsNode(p: Path) { InBounds(p) && Depth(p) <= 3 }

  /** The positions of page tables proper, which hold the leaves. */
  predicate IsPt(p: Path)
    ensures IsPt(p) ==> p.Sub? && p.up.Sub? && p.up.up.Sub? && p.up.up.up.Top?
    ensures IsPt(p) ==> IsNode(p) && IsNode(p.up) && IsNode(p.up.up) && Depth(p) == 3
  {
    if p.Sub? && p.up.Sub? && p.up.up.Sub? && p.up.up.up.Top? then
      assert Depth(p.up.up) == 1 + Depth(p.up.up.up);
      assert Depth(p.up) == 1 + Depth(p.up.up);
      p.index < 512 && p.up.index < 512 && p.up.up.index < 512 && assert InBounds(p.up.up); InBounds(p.up)
    else false
  }

  function PtPath(v: nat): (p: Path)
    ensures IsPt(p)
  {
    Sub(Sub(Sub(Top, Pml4Index(v)), PdptIndex(v)), PdIndex(v))
  }

  /** Two addresses follow the same entries exactly when they lie in the same 48-bit page. */
  lemma IndicesIdentifyPage(v: nat, w: nat)
    ensures PageOf(v) == PageOf(w) <==> PtPath(v) == PtPath(w) && PtIndex(v) == PtIndex(w)
  {
    PageFromIndices(v);
    PageFromIndices(w);
    SameDigits(Pml4Index(v), PdptIndex(v), PdIndex(v), PtIndex(v), Pml4Index(w), PdptIndex(w), PdIndex(w), PtIndex(w));
  }

  lemma SameDigits(a: nat, b: nat, c: nat, d: nat, a': nat, b': nat, c': nat, d': nat)
    requires b < 512 && c < 512 && d < 512 && b' < 512 && c' < 512 && d' < 512
    ensures ((a * 512 + b) * 512 + c) * 512 + d == ((a' * 512 + b') * 512 + c') * 512 + d' <==>
            a == a' && b == b' && c == c' && d == d'
  {
  }

  /** The table at a position, following present entries that are not huge pages. */
  function TableAt(m: Memory, root: nat, p: Path): Option<nat> {
    match p
    case Top => Some(root)
    case Sub(up, i) =>
      match TableAt(m, root, up)
      case None => None
      case Some(t) =>
        var e := Word(m, t, i);
        if Present(e) && !Huge(e) then Some(AddrOf(e)) else None
  }

  datatype Mapping = Unmapped | Page(leaf: nat) | Large(entry: nat)

  /** What the processor finds behind entry i of the page table at position pt. */
  function Lookup(m: Memory, root: nat, pt: Path, i: nat): Mapping
    requires IsPt(pt)
  {
    match TableAt(m, root, pt)
    case Some(t) => var e := Word(m, t, i); if Present(e) then Page(e) else Unmapped
    case None =>
      match TableAt(m, root, pt.up)
      case Some(t) => var e := Word(m, t, pt.index); if Present(e) then Large(e) else Unmapped
      case None =>
        match TableAt(m, root, pt.up.up)
        case Some(t) => var e := Word(m, t, pt.up.index); if Present(e) then Large(e) else Unmapped
        case None => Unmapped
  }

  /** The processor's translation of virtual address v. */
  function Translate(m: Memory, root: nat, v: nat): Mapping { Lookup(m, root, PtPath(v), PtIndex(v)) }

  ghost predicate TablesAllocated(s: Vm, root: nat) {
    forall p :: IsNode(p) && TableAt(s.mem, root, p).Some? ==>
      var t := TableAt(s.mem, root, p).value; t != 0 && t % 4096 == 0 && t / 4096 in s.used
  }

  ghost predicate OnePathPerTable(s: Vm, root: nat) {
    forall p, q ::
      (IsNode(p) && IsNode(q) && TableAt(s.mem, root, p).Some? && TableAt(s.mem, root, p) == TableAt(s.mem, root, q))
      ==> p == q
  }

  ghost predicate HugeOnlyInPd(s: Vm, root: nat) {
    forall p, i: nat :: IsNode(p) && Depth(p) <= 1 && i < 512 && TableAt(s.mem, root, p).Some? ==>
      var e := Word(s.mem, TableAt(s.mem, root, p).value, i); !(Present(e) && Huge(e))
  }

  /** The tables form a tree of used pages, with large pages only at the 2 MiB level. */
  ghost predicate WellFormed(s: Vm, root: nat) {
    0 in s.used && TablesAllocated(s, root) && OnePathPerTable(s, root) && HugeOnlyInPd(s, root)
  }

  // ---------- mm_map_page ----------

  function TableSlots(table: nat, n: nat): set<Slot> { set i | i in Below(n) :: Slot(table, i) }

  /** The first n words of a table cleared. */
  function Cleared(m: Memory, table: nat, n: nat): Memory {
    m + map x | x in TableSlots(table, n) :: 0
  }

  datatype Outcome = Outcome(vm: Vm, table: Option<nat>)

  function AllocTable(s: Vm): Outcome {
    var (addr, used) := Alloc(s.used);
    if addr == 0 then Outcome(s.(used := used), None)
    else Outcome(Vm(Cleared(s.mem, addr, 512), used), Some(addr))
  }

  function SetWord(s: Vm, table: nat, index: nat, e: nat): Vm {
    s.(mem := s.mem[Slot(table, index) := e])
  }

  /** One level of the walk: the table behind entry i of table t, created when the entry is absent. */
  function Descend(s: Vm, t: nat, i: nat, flags: nat, refuseHuge: bool): Outcome {
    var e := Word(s.mem, t, i);
    if Present(e) then Outcome(s, Some(AddrOf(e)))
    else if refuseHuge && Huge(e) then Outcome(s, None)
    else
      var a := AllocTable(s);
      match a.table
      case None => a
      case Some(n) => Outcome(SetWord(a.vm, t, i, LinkWord(n, flags)), a.table)
  }

  /** The walk of mm_map_page down to position p; only the last level looks at the huge bit. */
  function Walk(s: Vm, root: nat, p: Path, flags: nat): Outcome {
    match p
    case Top => Outcome(s, Some(root))
    case Sub(up, i) =>
      var a := Walk(s, root, up, flags);
      if a.table == None then a else Descend(a.vm, a.table.value, i, flags, Depth(p) == 3)
  }

  lemma WalkUnfolds(s: Vm, root: nat, pt: Path, flags: nat)
    requires IsPt(pt)
    ensures var a := Descend(s, root, pt.up.up.index, flags, false);
            Walk(s, root, pt, flags) ==
            if a.table == None then a
            else
              var b := Descend(a.vm, a.table.value, pt.up.index, flags, false);
              if b.table == None then b else Descend(b.vm, b.table.value, pt.index, flags, true)
  {
    assert Depth(pt.up.up.up) == 0;
    assert Walk(s, root, pt.up.up.up, flags) == Outcome(s, Some(root));
    assert Depth(pt.up.up) == 1;
    assert Walk(s, root, pt.up.up, flags) == Descend(s, root, pt.up.up.index, flags, false);
    assert Depth(pt.up) == 2;
  }

  function MapAt(s: Vm, root: nat, pt: Path, i: nat, e: nat, flags: nat): Vm
    requires IsPt(pt)
  {
    var o := Walk(s, root, pt, flags);
    if o.table == None then o.vm else SetWord(o.vm, o.table.value, i, e)
  }

  function MapPage(s: Vm, root: nat, virt: nat, phys: nat, flags: nat): Vm {
    if root == 0 || virt % 4096 != 0 || phys % 4096 != 0 then s
    else MapAt(s, root, PtPath(virt), PtIndex(virt), LeafWord(phys, flags), flags)
  }

  // ---------- Linking a fresh table ----------

  lemma ClearedWords(m: Memory, table: nat, n: nat)
    ensures forall t: nat, i: nat :: Word(Cleared(m, table, n), t, i) == if t == table && i < n then 0 else Word(m, t, i)
  {
    forall t: nat, i: nat
      ensures Word(Cleared(m, table, n), t, i) == if t == table && i < n then 0 else Word(m, t, i)
    {
      assert Slot(t, i) in TableSlots(table, n) <==> t == table && i < n by {
        if t == table && i < n {
          assert i in Below(n);
        }
      }
    }
  }

  lemma ClearNext(m: Memory, table: nat, n: nat)
    ensures Cleared(m, table, n)[Slot(table, n) := 0] == Cleared(m, table, n + 1)
  {
    assert TableSlots(table, n + 1) == TableSlots(table, n) + {Slot(table, n)};
  }

  /** s' is s with the fresh, cleared table n linked at entry i of the table at p. */
  ghost predicate Linked(s: Vm, s': Vm, root: nat, p: Path, i: nat, n: nat, flags: nat) {
    && IsNode(p) && Depth(p) <= 2 && i < 512
    && TableAt(s.mem, root, p).Some?
    && !Present(Word(s.mem, TableAt(s.mem, root, p).value, i))
    && n != 0 && n % 4096 == 0 && n < TWO_52 && n / 4096 !in s.used
    && s'.used == s.used + {n / 4096}
    && forall t: nat, j: nat :: Word(s'.mem, t, j) ==
         if t == TableAt(s.mem, root, p).value && j == i then LinkWord(n, flags)
         else if t == n && j < 512 then 0
         else Word(s.mem, t, j)
  }

  lemma DescendLinks(s: Vm, root: nat, p: Path, i: nat, flags: nat, refuseHuge: bool)
    requires WellFormed(s, root) && IsNode(p) && Depth(p) <= 2 && i < 512
    requires TableAt(s.mem, root, p).Some?
    requires var e := Word(s.mem, TableAt(s.mem, root, p).value, i); !Present(e) && !(refuseHuge && Huge(e))
    ensures var o := Descend(s, TableAt(s.mem, root, p).value, i, flags, refuseHuge);
            && (o.table == None <==> FreePages(s.used) == {})
            && (o.table == None ==> o.vm == s)
            && (o.table.Some? ==>
                  && Linked(s, o.vm, root, p, i, o.table.value, flags)
                  && FreePages(o.vm.used) == FreePages(s.used) - {o.table.value / 4096}
                  && o.table.value / 4096 in FreePages(s.used))
  {
    FirstFreeExhausted(s.used);
    var t := TableAt(s.mem, root, p).value;
    var f := FirstFree(s.used);
    if f < MAX_PHYS_PAGES {
      assert f != 0;
      ClearedWords(s.mem, f * PAGE_SIZE, 512);
      assert t / 4096 in s.used;
      assert t != f * PAGE_SIZE;
    }
  }

  lemma LinkedWords(s: Vm, s': Vm, root: nat, p: Path, i: nat, n: nat, flags: nat, q: Path, j: nat)
    requires WellFormed(s, root) && Linked(s, s', root, p, i, n, flags)
    requires IsNode(q) && TableAt(s.mem, root, q).Some? && !(q == p && j == i)
    ensures var t := TableAt(s.mem, root, q).value; t != n && Word(s'.mem, t, j) == Word(s.mem, t, j)
  {
    var t := TableAt(s.mem, root, q).value;
    assert t / 4096 in s.used;
    assert t == TableAt(s.mem, root, p).value ==> q == p;
  }

  lemma {:induction false} LinkedTables(s: Vm, s': Vm, root: nat, p: Path, i: nat, n: nat, flags: nat, q: Path)
    requires WellFormed(s, root) && Linked(s, s', root, p, i, n, flags) && IsNode(q)
    ensures TableAt(s'.mem, root, q) == if q == Sub(p, i) then Some(n) else TableAt(s.mem, root, q)
  {
    if q.Sub? {
      LinkedTables(s, s', root, p, i, n, flags, q.up);
      LinkWordFields(n, flags);
      if q != Sub(p, i) && TableAt(s.mem, root, q.up).Some? {
        LinkedWords(s, s', root, p, i, n, flags, q.up, q.index);
      }
    }
  }

  lemma LinkedKeepsShape(s: Vm, s': Vm, root: nat, p: Path, i: nat, n: nat, flags: nat)
    requires WellFormed(s, root) && Linked(s, s', root, p, i, n, flags)
    ensures WellFormed(s', root)
  {
    forall q | IsNode(q)
      ensures TableAt(s'.mem, root, q) == if q == Sub(p, i) then Some(n) else TableAt(s.mem, root, q)
    {
      LinkedTables(s, s', root, p, i, n, flags, q);
    }
    LinkWordFields(n, flags);
    assert HugeOnlyInPd(s', root);
  }

  lemma LinkedKeepsLookup(s: Vm, s': Vm, root: nat, p: Path, i: nat, n: nat, flags: nat, pt: Path, j: nat)
    requires WellFormed(s, root) && Linked(s, s', root, p, i, n, flags)
    requires IsPt(pt) && j < 512
    ensures Lookup(s'.mem, root, pt, j) == Lookup(s.mem, root, pt, j)
  {
    LinkedTables(s, s', root, p, i, n, flags, pt);
    LinkedTables(s, s', root, p, i, n, flags, pt.up);
    LinkedTables(s, s', root, p, i, n, flags, pt.up.up);
    var e := Sub(p, i);
    assert TableAt(s.mem, root, e) == None;
    if TableAt(s.mem, root, pt).Some? {
      LinkedWords(s, s', root, p, i, n, flags, pt, j);
    } else if TableAt(s.mem, root, pt.up).Some? {
      if pt == e {
        assert Word(s'.mem, n, j) == 0;
      } else {
        LinkedWords(s, s', root, p, i, n, flags, pt.up, pt.index);
      }
    } else if TableAt(s.mem, root, pt.up.up).Some? {
      if pt.up == e {
        assert Word(s'.mem, n, pt.index) == 0;
      } else {
        LinkedWords(s, s', root, p, i, n, flags, pt.up.up, pt.up.index);
      }
    } else if pt.up.up == e {
      assert Word(s'.mem, n, pt.up.index) == 0;
    }
  }

  // ---------- Writing a leaf ----------

  /** Table t is none of the tables above the last level. */
  ghost predicate NoUpperTable(s: Vm, root: nat, t: nat) {
    forall p :: IsNode(p) && Depth(p) <= 2 ==> TableAt(s.mem, root, p) != Some(t)
  }

  lemma {:induction false} WriteKeepsTables(s: Vm, root: nat, t: nat, i: nat, e: nat, q: Path)
    requires IsNode(q) && NoUpperTable(s, root, t)
    ensures TableAt(SetWord(s, t, i, e).mem, root, q) == TableAt(s.mem, root, q)
  {
    if q.Sub? {
      WriteKeepsTables(s, root, t, i, e, q.up);
      assert IsNode(q.up) && Depth(q.up) <= 2;
    }
  }

  lemma WriteKeepsShape(s: Vm, root: nat, t: nat, i: nat, e: nat)
    requires WellFormed(s, root) && NoUpperTable(s, root, t)
    ensures WellFormed(SetWord(s, t, i, e), root)
  {
    var s' := SetWord(s, t, i, e);
    forall q | IsNode(q)
      ensures TableAt(s'.mem, root, q) == TableAt(s.mem, root, q)
    {
      WriteKeepsTables(s, root, t, i, e, q);
    }
    forall p, j: nat | IsNode(p) && Depth(p) <= 1 && j < 512 && TableAt(s'.mem, root, p).Some?
      ensures var e := Word(s'.mem, TableAt(s'.mem, root, p).value, j); !(Present(e) && Huge(e))
    {
      var t' := TableAt(s.mem, root, p).value;
      assert t' != t;
      assert Word(s'.mem, t', j) == Word(s.mem, t', j);
    }
  }

  lemma WriteKeepsLookup(s: Vm, root: nat, t: nat, i: nat, e: nat, pt: Path, j: nat)
    requires NoUpperTable(s, root, t) && IsPt(pt)
    requires TableAt(s.mem, root, pt) == Some(t) ==> i != j
    ensures Lookup(SetWord(s, t, i, e).mem, root, pt, j) == Lookup(s.mem, root, pt, j)
  {
    assert IsNode(pt) && IsNode(pt.up) && IsNode(pt.up.up);
    WriteKeepsTables(s, root, t, i, e, pt);
    WriteKeepsTables(s, root, t, i, e, pt.up);
    WriteKeepsTables(s, root, t, i, e, pt.up.up);
  }

  lemma PtIsNoUpperTable(s: Vm, root: nat, pt: Path)
    requires WellFormed(s, root) && IsPt(pt) && TableAt(s.mem, root, pt).Some?
    ensures NoUpperTable(s, root, TableAt(s.mem, root, pt).value)
  {
    assert IsNode(pt);
  }

  // ---------- The whole walk ----------

  /** s' extends the tables of s by at most one, at position q, without changing any translation. */
  ghost predicate Extends(s: Vm, s': Vm, root: nat, q: Path) {
    && WellFormed(s', root)
    && (forall p :: IsNode(p) && p != q ==> TableAt(s'.mem, root, p) == TableAt(s.mem, root, p))
    && (forall pt, j: nat :: IsPt(pt) && j < 512 ==> Lookup(s'.mem, root, pt, j) == Lookup(s.mem, root, pt, j))
    && s.used <= s'.used
  }

  lemma LinkedExtends(s: Vm, s': Vm, root: nat, p: Path, i: nat, n: nat, flags: nat)
    requires WellFormed(s, root) && Linked(s, s', root, p, i, n, flags)
    ensures Extends(s, s', root, Sub(p, i)) && TableAt(s'.mem, root, Sub(p, i)) == Some(n)
    ensures forall j: nat :: j < 512 ==> Word(s'.mem, n, j) == 0
  {
    hide Lookup, LinkWord;
    LinkedKeepsShape(s, s', root, p, i, n, flags);
    forall q | IsNode(q)
      ensures TableAt(s'.mem, root, q) == if q == Sub(p, i) then Some(n) else TableAt(s.mem, root, q)
    {
      LinkedTables(s, s', root, p, i, n, flags, q);
    }
    assert IsNode(Sub(p, i));
    forall pt, j: nat | IsPt(pt) && j < 512
      ensures Lookup(s'.mem, root, pt, j) == Lookup(s.mem, root, pt, j)
    {
      LinkedKeepsLookup(s, s', root, p, i, n, flags, pt, j);
    }
    assert TableAt(s.mem, root, p).value / 4096 in s.used;
  }

  lemma DescendExtends(s: Vm, root: nat, p: Path, i: nat, flags: nat, refuseHuge: bool)
    requires WellFormed(s, root) && IsNode(p) && Depth(p) <= 2 && i < 512
    requires TableAt(s.mem, root, p).Some?
    requires var e := Word(s.mem, TableAt(s.mem, root, p).value, i);
             !(Present(e) && Huge(e)) && !(refuseHuge && Huge(e))
    ensures var o := Descend(s, TableAt(s.mem, root, p).value, i, flags, refuseHuge);
            && Extends(s, o.vm, root, Sub(p, i))
            && (TableAt(s.mem, root, Sub(p, i)).Some? ==> o == Outcome(s, TableAt(s.mem, root, Sub(p, i))))
            && (TableAt(s.mem, root, Sub(p, i)) == None ==>
                  if FreePages(s.used) == {} then o == Outcome(s, None)
                  else o.table.Some? && TableAt(o.vm.mem, root, Sub(p, i)) == o.table
                       && |FreePages(o.vm.used)| == |FreePages(s.used)| - 1
                       && (forall j: nat :: j < 512 ==> Word(o.vm.mem, o.table.value, j) == 0))
  {
    hide Lookup, Linked, LinkWord;
    var t := TableAt(s.mem, root, p).value;
    if !Present(Word(s.mem, t, i)) {
      DescendLinks(s, root, p, i, flags, refuseHuge);
      var o := Descend(s, t, i, flags, refuseHuge);
      if o.table.Some? {
        LinkedExtends(s, o.vm, root, p, i, o.table.value, flags);
      }
    }
  }

  /** How many tables the walk to p still has to create. */
  function Missing(m: Memory, root: nat, p: Path): nat {
    if p.Top? || TableAt(m, root, p).Some? then 0 else 1 + Missing(m, root, p.up)
  }

  lemma {:induction false} MissingAtMostDepth(m: Memory, root: nat, p: Path)
    ensures Missing(m, root, p) <= Depth(p)
  {
    if p.Sub? {
      MissingAtMostDepth(m, root, p.up);
    }
  }

  lemma MissingTablesMapNoPage(m: Memory, root: nat, pt: Path, i: nat)
    requires IsPt(pt) && Missing(m, root, pt) > 0
    ensures !Lookup(m, root, pt, i).Page?
  {
    assert TableAt(m, root, pt) == None;
  }

  /** The page directory entry on the way to the page table at pt has its huge bit set. */
  predicate Blocked(m: Memory, root: nat, pt: Path) {
    Depth(pt) == 3 && TableAt(m, root, pt.up).Some? && Huge(Word(m, TableAt(m, root, pt.up).value, pt.index))
  }

  /** The walk either only follows existing tables or ends in a cleared one. */
  ghost predicate Followed(s: Vm, root: nat, p: Path, o: Outcome) {
    && (TableAt(s.mem, root, p).Some? ==> o == Outcome(s, TableAt(s.mem, root, p)))
    && (TableAt(s.mem, root, p) == None && o.table.Some? ==>
          && TableAt(o.vm.mem, root, p) == o.table
          && (forall j: nat :: j < 512 ==> Word(o.vm.mem, o.table.value, j) == 0))
  }

  lemma {:induction false} WalkReaches(s: Vm, root: nat, p: Path, flags: nat)
    requires WellFormed(s, root) && IsNode(p) && !Blocked(s.mem, root, p)
    ensures var o := Walk(s, root, p, flags);
            && WellFormed(o.vm, root)
            && (forall pt, j: nat :: IsPt(pt) && j < 512 ==>
                  Lookup(o.vm.mem, root, pt, j) == Lookup(s.mem, root, pt, j))
            && s.used <= o.vm.used
            && Followed(s, root, p, o)
            && (if Missing(s.mem, root, p) <= |FreePages(s.used)|
                then o.table.Some? && |FreePages(o.vm.used)| == |FreePages(s.used)| - Missing(s.mem, root, p)
                else o.table == None && FreePages(o.vm.used) == {})
  {
    if p.Sub? {
      WalkReaches(s, root, p.up, flags);
      var a := Walk(s, root, p.up, flags);
      if a.table.Some? {
        DescendExtends(a.vm, root, p.up, p.index, flags, Depth(p) == 3);
      }
    }
  }

  lemma MapAtUpdatesOneEntry(s: Vm, root: nat, pt: Path, i: nat, e: nat, flags: nat)
    requires WellFormed(s, root) && IsPt(pt) && i < 512 && Present(e) && !Blocked(s.mem, root, pt)
    ensures var s' := MapAt(s, root, pt, i, e, flags);
            var enough := Missing(s.mem, root, pt) <= |FreePages(s.used)|;
            && WellFormed(s', root)
            && s.used <= s'.used
            && (forall pt', j: nat :: IsPt(pt') && j < 512 ==>
                  Lookup(s'.mem, root, pt', j) ==
                  if enough && pt' == pt && j == i then Page(e) else Lookup(s.mem, root, pt', j))
            && |FreePages(s'.used)| == if enough then |FreePages(s.used)| - Missing(s.mem, root, pt) else 0
  {
    WalkReaches(s, root, pt, flags);
    var o := Walk(s, root, pt, flags);
    if o.table.Some? {
      var t := o.table.value;
      PtIsNoUpperTable(o.vm, root, pt);
      WriteKeepsShape(o.vm, root, t, i, e);
      var s' := SetWord(o.vm, t, i, e);
      WriteKeepsTables(o.vm, root, t, i, e, pt);
      assert Lookup(s'.mem, root, pt, i) == Page(e);
      forall pt', j: nat | IsPt(pt') && j < 512 && !(pt' == pt && j == i)
        ensures Lookup(s'.mem, root, pt', j) == Lookup(s.mem, root, pt', j)
      {
        assert TableAt(o.vm.mem, root, pt') == Some(t) ==> pt' == pt;
        WriteKeepsLookup(o.vm, root, t, i, e, pt', j);
      }
    }
  }

  // ---------- Which tables a walk creates ----------

  /** The positions on the way from the root to p, the root apart. */
  function Route(p: Path): set<Path> { if p.Top? then {} else {p} + Route(p.up) }

  /** The positions on the way to p that have no table yet. */
  function Lacking(m: Memory, root: nat, p: Path): set<Path> {
    set q | q in Route(p) && TableAt(m, root, q) == None
  }

  lemma {:induction false} RouteDepth(p: Path)
    ensures forall q :: q in Route(p) ==> Depth(q) <= Depth(p)
    ensures IsNode(p) ==> forall q :: q in Route(p) ==> IsNode(q)
  {
    if p.Sub? {
      RouteDepth(p.up);
    }
  }

  /** Missing counts the lacking tables. */
  lemma {:induction false} LackingCount(m: Memory, root: nat, p: Path)
    ensures |Lacking(m, root, p)| == Missing(m, root, p)
  {
    hide TableAt, Depth;
    if p.Sub? {
      LackingCount(m, root, p.up);
      OffItsOwnRoute(p);
      if TableAt(m, root, p) == None {
        assert Lacking(m, root, p) == {p} + Lacking(m, root, p.up);
      } else {
        TableAbove(m, root, p);
        assert Lacking(m, root, p) == Lacking(m, root, p.up);
      }
    }
  }

  lemma OffItsOwnRoute(p: Path)
    requires p.Sub?
    ensures p !in Route(p.up)
  {
    RouteDepth(p.up);
  }

  lemma TableAbove(m: Memory, root: nat, p: Path)
    requires p.Sub? && TableAt(m, root, p).Some?
    ensures TableAt(m, root, p.up).Some?
  {
  }

  /** A walk that succeeds creates the lacking tables of its route and no other. */
  lemma {:induction false} WalkCreates(s: Vm, root: nat, p: Path, flags: nat)
    requires WellFormed(s, root) && IsNode(p) && !Blocked(s.mem, root, p)
    requires Missing(s.mem, root, p) <= |FreePages(s.used)|
    ensures var m := Walk(s, root, p, flags).vm.mem;
            forall q :: IsNode(q) ==> (TableAt(m, root, q).Some? <==> TableAt(s.mem, root, q).Some? || q in Route(p))
  {
    hide Lookup, Descend, AddrOf, Word;
    if p.Sub? {
      WalkReaches(s, root, p, flags);
      if TableAt(s.mem, root, p) == None {
        WalkReaches(s, root, p.up, flags);
        WalkCreates(s, root, p.up, flags);
        var a := Walk(s, root, p.up, flags);
        DescendExtends(a.vm, root, p.up, p.index, flags, Depth(p) == 3);
      } else {
        LackingCount(s.mem, root, p);
        assert forall q :: q in Route(p) ==> q !in Lacking(s.mem, root, p);
      }
    }
  }

  lemma MapAtCreates(s: Vm, root: nat, pt: Path, i: nat, e: nat, flags: nat)
    requires WellFormed(s, root) && IsPt(pt) && !Blocked(s.mem, root, pt)
    requires Missing(s.mem, root, pt) <= |FreePages(s.used)|
    ensures var m := MapAt(s, root, pt, i, e, flags).mem;
            forall q :: IsNode(q) ==> (TableAt(m, root, q).Some? <==> TableAt(s.mem, root, q).Some? || q in Route(pt))
  {
    hide Lookup, Descend, AddrOf, Walk, Missing, Route;
    WalkReaches(s, root, pt, flags);
    WalkCreates(s, root, pt, flags);
    var o := Walk(s, root, pt, flags);
    PtIsNoUpperTable(o.vm, root, pt);
    forall q | IsNode(q)
      ensures TableAt(SetWord(o.vm, o.table.value, i, e).mem, root, q) == TableAt(o.vm.mem, root, q)
    {
      WriteKeepsTables(o.vm, root, o.table.value, i, e, q);
    }
  }

  /** A huge page directory entry is never replaced: absent, it stops the call; present, the leaf is
      written into the first frame of the large page, which is harmless to the tables if it holds none of them. */
  lemma MapAtOverHugeEntry(s: Vm, root: nat, pt: Path, i: nat, e: nat, flags: nat)
    requires WellFormed(s, root) && IsPt(pt) && i < 512 && Blocked(s.mem, root, pt)
    requires forall p :: IsNode(p) ==>
               TableAt(s.mem, root, p) != Some(AddrOf(Word(s.mem, TableAt(s.mem, root, pt.up).value, pt.index)))
    ensures var s' := MapAt(s, root, pt, i, e, flags);
            && WellFormed(s', root) && s'.used == s.used
            && (forall pt', j: nat :: IsPt(pt') && j < 512 ==>
                  Lookup(s'.mem, root, pt', j) == Lookup(s.mem, root, pt', j))
            && !Lookup(s'.mem, root, pt, i).Page?
  {
    WalkReaches(s, root, pt.up, flags);
    assert TableAt(s.mem, root, pt) == None;
    assert Walk(s, root, pt, flags) == Descend(s, TableAt(s.mem, root, pt.up).value, pt.index, flags, true);
    var entry := Word(s.mem, TableAt(s.mem, root, pt.up).value, pt.index);
    if Present(entry) {
      var t := AddrOf(entry);
      assert Walk(s, root, pt, flags) == Outcome(s, Some(t));
      WriteKeepsShape(s, root, t, i, e);
      forall pt', j: nat | IsPt(pt') && j < 512
        ensures Lookup(SetWord(s, t, i, e).mem, root, pt', j) == Lookup(s.mem, root, pt', j)
      {
        WriteKeepsLookup(s, root, t, i, e, pt', j);
      }
    }
  }

  /** If a large page covers virt, its first frame is none of the tables. */
  ghost predicate LargePageHoldsNoTable(s: Vm, root: nat, pt: Path)
    requires IsPt(pt)
  {
    Blocked(s.mem, root, pt) ==>
      forall p :: IsNode(p) ==>
        TableAt(s.mem, root, p) != Some(AddrOf(Word(s.mem, TableAt(s.mem, root, pt.up).value, pt.index)))
  }

  /** mm_map_page installs (phys, flags) at virt exactly when no huge entry is in the way and the missing
      tables fit in the free pages; in every case no other 48-bit page changes its translation, the
      tables stay a tree of used pages, and at most 3 pages are consumed. */
  lemma MapPageRefinesUpdate(s: Vm, root: nat, virt: nat, phys: nat, flags: nat)
    requires WellFormed(s, root) && virt % 4096 == 0 && phys % 4096 == 0
    requires LargePageHoldsNoTable(s, root, PtPath(virt))
    ensures var s' := MapPage(s, root, virt, phys, flags);
            var ok := !Blocked(s.mem, root, PtPath(virt)) && Missing(s.mem, root, PtPath(virt)) <= |FreePages(s.used)|;
            && WellFormed(s', root)
            && (Translate(s'.mem, root, virt) == Page(LeafWord(phys, flags)) <==> ok)
            && (forall w: nat :: Translate(s'.mem, root, w) ==
                  if ok && PageOf(w) == PageOf(virt) then Page(LeafWord(phys, flags)) else Translate(s.mem, root, w))
            && s.used <= s'.used
            && |FreePages(s.used)| - 3 <= |FreePages(s'.used)|
  {
    var pt, i, e := PtPath(virt), PtIndex(virt), LeafWord(phys, flags);
    var s' := MapPage(s, root, virt, phys, flags);
    var ok := !Blocked(s.mem, root, pt) && Missing(s.mem, root, pt) <= |FreePages(s.used)|;
    LeafWordBits(phys, flags);
    RootIsNotNull(s, root);
    MissingAtMostDepth(s.mem, root, pt);
    if Blocked(s.mem, root, pt) {
      MapAtOverHugeEntry(s, root, pt, i, e, flags);
    } else {
      MapAtUpdatesOneEntry(s, root, pt, i, e, flags);
    }
    forall w: nat
      ensures Translate(s'.mem, root, w) ==
              if ok && PageOf(w) == PageOf(virt) then Page(e) else Translate(s.mem, root, w)
    {
      IndicesIdentifyPage(virt, w);
      assert PtIndex(w) < 512;
    }
  }

  /** Without a PML4, or with an address that is not page-aligned, the call does nothing. */
  lemma MapPageRefuses(s: Vm, root: nat, virt: nat, phys: nat, flags: nat)
    requires root == 0 || virt % 4096 != 0 || phys % 4096 != 0
    ensures MapPage(s, root, virt, phys, flags) == s
  {
  }

  lemma RootIsNotNull(s: Vm, root: nat)
    requires WellFormed(s, root)
    ensures root != 0
  {
    assert TableAt(s.mem, root, Top) == Some(root);
  }

  lemma UsedMayGrow(s: Vm, root: nat, used: set<nat>)
    requires WellFormed(s, root) && s.used <= used
    ensures WellFormed(s.(used := used), root)
  {
  }

  // ---------- How many pages a range needs ----------

  /** The positions without a table on the way to some page of [addr, end). */
  function LackingTables(m: Memory, root: nat, addr: nat, end: nat): set<Path>
    decreases end - addr
  {
    if addr >= end then {} else Lacking(m, root, PtPath(addr)) + LackingTables(m, root, addr + 4096, end)
  }

  /** One frame for each page of the range, and one for each table that is not there yet. */
  function Need(m: Memory, root: nat, addr: nat, end: nat): nat {
    PagesIn(addr, end) + |LackingTables(m, root, addr, end)|
  }

  /** How many pages [addr, end) touches from addr on. */
  function PagesIn(addr: nat, end: nat): nat { if addr < end then (end - addr + 4095) / 4096 else 0 }

  lemma PagesInNext(addr: nat, end: nat)
    requires addr < end
    ensures PagesIn(addr, end) == 1 + PagesIn(addr + 4096, end)
  {
  }

  lemma PagesInNone(addr: nat)
    ensures PagesIn(addr, addr) == 0
  {
  }

  /** m' has tables where m has, and at the positions ps. */
  ghost predicate Created(m: Memory, m': Memory, root: nat, ps: set<Path>) {
    forall q :: IsNode(q) ==> (TableAt(m', root, q).Some? <==> TableAt(m, root, q).Some? || q in ps)
  }

  lemma {:induction false} LackingAfter(m: Memory, m': Memory, root: nat, ps: set<Path>, addr: nat, end: nat)
    requires Created(m, m', root, ps)
    ensures LackingTables(m', root, addr, end) == LackingTables(m, root, addr, end) - ps
    ensures forall q :: q in LackingTables(m, root, addr, end) ==> IsNode(q) && TableAt(m, root, q) == None
    decreases end - addr
  {
    hide PtPath, Route, TableAt, IsNode;
    if addr < end {
      LackingAfter(m, m', root, ps, addr + 4096, end);
      assert IsNode(PtPath(addr)) by { NodeOfPage(addr); }
      RouteDepth(PtPath(addr));
      assert Lacking(m', root, PtPath(addr)) == Lacking(m, root, PtPath(addr)) - ps;
    }
  }

  lemma NodeOfPage(addr: nat)
    ensures IsNode(PtPath(addr))
  {
  }

  /** The first page takes a frame and its missing tables; what they leave to do is the need of the rest. */
  lemma NeedOfFirst(m: Memory, m': Memory, root: nat, addr: nat, end: nat)
    requires addr < end && Created(m, m', root, Route(PtPath(addr)))
    ensures Need(m, root, addr, end) == 1 + Missing(m, root, PtPath(addr)) + Need(m', root, addr + 4096, end)
  {
    hide PtPath, Route, TableAt, Missing, PagesIn;
    PagesInNext(addr, end);
    var pt := PtPath(addr);
    var first, rest := Lacking(m, root, pt), LackingTables(m, root, addr + 4096, end);
    LackingAfter(m, m', root, Route(pt), addr + 4096, end);
    LackingCount(m, root, pt);
    assert LackingTables(m, root, addr, end) == first + (rest - Route(pt));
    assert first !! (rest - Route(pt));
  }

  lemma NeedOfPage(m: Memory, root: nat, addr: nat, end: nat)
    requires addr < end
    ensures 1 + Missing(m, root, PtPath(addr)) <= Need(m, root, addr, end)
    ensures end == addr + 4096 ==> Need(m, root, addr, end) == 1 + Missing(m, root, PtPath(addr))
  {
    hide PtPath, Missing, Lacking, PagesIn;
    PagesInNext(addr, end);
    assert PagesIn(addr + 4096, addr + 4096) == 0 by { PagesInNone(addr + 4096); }
    LackingCount(m, root, PtPath(addr));
    var all, first := LackingTables(m, root, addr, end), Lacking(m, root, PtPath(addr));
    assert all == first + (all - first);
    assert LackingTables(m, root, addr + 4096, addr + 4096) == {};
  }

  lemma NoneCreated(m: Memory, root: nat, addr: nat)
    ensures Created(m, m, root, LackingTables(m, root, addr, addr))
  {
  }

  lemma CreatedFirst(m: Memory, m1: Memory, m': Memory, root: nat, addr: nat, end: nat)
    requires addr < end && Created(m, m1, root, Route(PtPath(addr)))
    requires Created(m1, m', root, LackingTables(m1, root, addr + 4096, end))
    ensures Created(m, m', root, LackingTables(m, root, addr, end))
  {
    hide PtPath, Route, TableAt, IsNode;
    LackingAfter(m, m1, root, Route(PtPath(addr)), addr + 4096, end);
    var first, rest := Lacking(m, root, PtPath(addr)), LackingTables(m, root, addr + 4096, end);
    assert LackingTables(m, root, addr, end) == first + rest;
    forall q | IsNode(q)
      ensures TableAt(m', root, q).Some? <==> TableAt(m, root, q).Some? || q in first + rest
    {
      assert q in Route(PtPath(addr)) && TableAt(m, root, q) == None ==> q in first;
    }
  }

  lemma NothingNeeded(m: Memory, root: nat, addr: nat)
    ensures Need(m, root, addr, addr) == 0
  {
    PagesInNone(addr);
  }

  lemma MapPageCounts(s: Vm, root: nat, addr: nat, phys: nat, flags: nat)
    requires WellFormed(s, root) && addr % 4096 == 0 && phys % 4096 == 0 && !Blocked(s.mem, root, PtPath(addr))
    requires Missing(s.mem, root, PtPath(addr)) <= |FreePages(s.used)|
    ensures var s' := MapPage(s, root, addr, phys, flags);
            && Created(s.mem, s'.mem, root, Route(PtPath(addr)))
            && |FreePages(s'.used)| == |FreePages(s.used)| - Missing(s.mem, root, PtPath(addr))
  {
    hide PtPath, PtIndex, WellFormed, Blocked, Lookup, MapAt, LeafWord, Missing, Route, TableAt;
    var pt, i, e := PtPath(addr), PtIndex(addr), LeafWord(phys, flags);
    LeafWordBits(phys, flags);
    RootIsNotNull(s, root);
    MapAtUpdatesOneEntry(s, root, pt, i, e, flags);
    MapAtCreates(s, root, pt, i, e, flags);
  }

  // ---------- Access rights ----------

  /** Every link between tables is writable and open to user mode. */
  ghost predicate OpenLinks(s: Vm, root: nat) {
    forall p, i: nat :: IsNode(p) && Depth(p) <= 2 && i < 512 && TableAt(s.mem, root, p).Some? ==>
      var e := Word(s.mem, TableAt(s.mem, root, p).value, i); Present(e) ==> Writable(e) && User(e)
  }

  /** User mode may write at v: the leaf and the three links above it all allow it. */
  predicate UserWritable(m: Memory, root: nat, v: nat) {
    var pt := PtPath(v);
    && Translate(m, root, v).Page? && Writable(Translate(m, root, v).leaf) && User(Translate(m, root, v).leaf)
    && (forall p :: p in {pt, pt.up, pt.up.up} ==>
          && TableAt(m, root, p.up).Some?
          && var e := Word(m, TableAt(m, root, p.up).value, p.index); Writable(e) && User(e))
  }

  lemma OpenLinksSuffice(s: Vm, root: nat, v: nat)
    requires WellFormed(s, root) && OpenLinks(s, root)
    requires Translate(s.mem, root, v).Page?
    requires Writable(Translate(s.mem, root, v).leaf) && User(Translate(s.mem, root, v).leaf)
    ensures UserWritable(s.mem, root, v)
  {
    var pt := PtPath(v);
    assert TableAt(s.mem, root, pt).Some?;
    assert TableAt(s.mem, root, pt.up).Some?;
    assert TableAt(s.mem, root, pt.up.up).Some?;
    assert Depth(pt.up) == 2 && Depth(pt.up.up) == 1 && Depth(pt.up.up.up) == 0;
  }

  lemma DescendKeepsOpenLinks(s: Vm, root: nat, p: Path, i: nat, flags: nat, refuseHuge: bool)
    requires WellFormed(s, root) && OpenLinks(s, root) && User(flags)
    requires IsNode(p) && Depth(p) <= 2 && i < 512 && TableAt(s.mem, root, p).Some?
    requires var e := Word(s.mem, TableAt(s.mem, root, p).value, i); !(refuseHuge && Huge(e))
    ensures OpenLinks(Descend(s, TableAt(s.mem, root, p).value, i, flags, refuseHuge).vm, root)
  {
    hide LinkWord, AddrOf, FreePages, Linked, WellFormed, OpenLinks, Present;
    var t := TableAt(s.mem, root, p).value;
    if !Present(Word(s.mem, t, i)) {
      DescendLinks(s, root, p, i, flags, refuseHuge);
      var o := Descend(s, t, i, flags, refuseHuge);
      if o.table.Some? {
        LinkedKeepsOpenLinks(s, o.vm, root, p, i, o.table.value, flags);
      }
    }
  }

  lemma LinkedKeepsOpenLinks(s: Vm, s': Vm, root: nat, p: Path, i: nat, n: nat, flags: nat)
    requires WellFormed(s, root) && OpenLinks(s, root) && User(flags) && Linked(s, s', root, p, i, n, flags)
    ensures OpenLinks(s', root)
  {
    hide LinkWord, AddrOf, WellFormed, Linked, TableAt, User, Writable, Present, Huge, Word;
    forall q, j: nat | IsNode(q) && Depth(q) <= 2 && j < 512 && TableAt(s'.mem, root, q).Some?
      ensures var e := Word(s'.mem, TableAt(s'.mem, root, q).value, j); Present(e) ==> Writable(e) && User(e)
    {
      LinkedTables(s, s', root, p, i, n, flags, q);
      if q == Sub(p, i) || (q == p && j == i) {
        LinkedNewWords(s, s', root, p, i, n, flags, j);
      } else {
        LinkedWords(s, s', root, p, i, n, flags, q, j);
      }
    }
  }

  /** The words that linking writes: the link itself and the cleared table. */
  lemma LinkedNewWords(s: Vm, s': Vm, root: nat, p: Path, i: nat, n: nat, flags: nat, j: nat)
    requires WellFormed(s, root) && Linked(s, s', root, p, i, n, flags) && User(flags) && j < 512
    ensures TableAt(s'.mem, root, p) == TableAt(s.mem, root, p)
    ensures var e := Word(s'.mem, TableAt(s.mem, root, p).value, i); Present(e) && Writable(e) && User(e)
    ensures !Present(Word(s'.mem, n, j))
  {
    hide LinkWord;
    LinkWordFields(n, flags);
    LinkedTables(s, s', root, p, i, n, flags, p);
    assert TableAt(s.mem, root, p).value / 4096 in s.used;
    assert !Present(0);
  }

  lemma {:induction false} WalkKeepsOpenLinks(s: Vm, root: nat, p: Path, flags: nat)
    requires WellFormed(s, root) && OpenLinks(s, root) && User(flags)
    requires IsNode(p) && !Blocked(s.mem, root, p)
    ensures OpenLinks(Walk(s, root, p, flags).vm, root)
  {
    hide Lookup, Descend, Missing, AddrOf;
    if p.Sub? {
      WalkKeepsOpenLinks(s, root, p.up, flags);
      WalkReaches(s, root, p.up, flags);
      var a := Walk(s, root, p.up, flags);
      if a.table.Some? {
        DescendKeepsOpenLinks(a.vm, root, p.up, p.index, flags, Depth(p) == 3);
      }
    }
  }

  /** Mapping a user page keeps every link open. */
  lemma MapAtKeepsOpenLinks(s: Vm, root: nat, pt: Path, i: nat, e: nat, flags: nat)
    requires WellFormed(s, root) && OpenLinks(s, root) && User(flags)
    requires IsPt(pt) && !Blocked(s.mem, root, pt)
    ensures OpenLinks(MapAt(s, root, pt, i, e, flags), root)
  {
    WalkKeepsOpenLinks(s, root, pt, flags);
    WalkReaches(s, root, pt, flags);
    var o := Walk(s, root, pt, flags);
    if o.table.Some? {
      PtIsNoUpperTable(o.vm, root, pt);
      WriteKeepsOpenLinks(o.vm, root, o.table.value, i, e);
    }
  }

  lemma WriteKeepsOpenLinks(s: Vm, root: nat, t: nat, i: nat, e: nat)
    requires OpenLinks(s, root) && NoUpperTable(s, root, t)
    ensures OpenLinks(SetWord(s, t, i, e), root)
  {
    var s' := SetWord(s, t, i, e);
    forall p, j: nat | IsNode(p) && Depth(p) <= 2 && j < 512 && TableAt(s'.mem, root, p).Some?
      ensures var e := Word(s'.mem, TableAt(s'.mem, root, p).value, j); Present(e) ==> Writable(e) && User(e)
    {
      WriteKeepsTables(s, root, t, i, e, p);
      var t' := TableAt(s.mem, root, p).value;
      assert t' != t;
      assert Word(s'.mem, t', j) == Word(s.mem, t', j);
    }
  }

  // ---------- Huge entries ----------

  lemma DescendKeepsUnblocked(s: Vm, root: nat, p: Path, i: nat, flags: nat, refuseHuge: bool, pt: Path)
    requires WellFormed(s, root) && IsNode(p) && Depth(p) <= 2 && i < 512 && TableAt(s.mem, root, p).Some?
    requires var e := Word(s.mem, TableAt(s.mem, root, p).value, i); !(refuseHuge && Huge(e))
    requires IsPt(pt) && !Blocked(s.mem, root, pt)
    ensures !Blocked(Descend(s, TableAt(s.mem, root, p).value, i, flags, refuseHuge).vm.mem, root, pt)
  {
    var t := TableAt(s.mem, root, p).value;
    if !Present(Word(s.mem, t, i)) {
      DescendLinks(s, root, p, i, flags, refuseHuge);
      var o := Descend(s, t, i, flags, refuseHuge);
      if o.table.Some? {
        var n := o.table.value;
        LinkWordFields(n, flags);
        LinkedTables(s, o.vm, root, p, i, n, flags, pt.up);
        assert t != n by { assert t / 4096 in s.used; }
        if pt.up == Sub(p, i) {
          assert Word(o.vm.mem, n, pt.index) == 0;
        } else if pt != Sub(p, i) && TableAt(s.mem, root, pt.up).Some? {
          LinkedWords(s, o.vm, root, p, i, n, flags, pt.up, pt.index);
        }
      }
    }
  }

  lemma {:induction false} WalkKeepsUnblocked(s: Vm, root: nat, p: Path, flags: nat, pt: Path)
    requires WellFormed(s, root) && IsNode(p) && !Blocked(s.mem, root, p)
    requires IsPt(pt) && !Blocked(s.mem, root, pt)
    ensures !Blocked(Walk(s, root, p, flags).vm.mem, root, pt)
  {
    hide Lookup, Descend, Missing, AddrOf;
    if p.Sub? {
      WalkKeepsUnblocked(s, root, p.up, flags, pt);
      WalkReaches(s, root, p.up, flags);
      var a := Walk(s, root, p.up, flags);
      if a.table.Some? {
        DescendKeepsUnblocked(a.vm, root, p.up, p.index, flags, Depth(p) == 3, pt);
      }
    }
  }

  /** Mapping a page puts no huge entry in the way of any page. */
  lemma MapAtKeepsUnblocked(s: Vm, root: nat, p: Path, i: nat, e: nat, flags: nat, pt: Path)
    requires WellFormed(s, root) && IsPt(p) && !Blocked(s.mem, root, p)
    requires IsPt(pt) && !Blocked(s.mem, root, pt)
    ensures !Blocked(MapAt(s, root, p, i, e, flags).mem, root, pt)
  {
    WalkKeepsUnblocked(s, root, p, flags, pt);
    WalkReaches(s, root, p, flags);
    var o := Walk(s, root, p, flags);
    if o.table.Some? {
      PtIsNoUpperTable(o.vm, root, p);
      WriteKeepsTables(o.vm, root, o.table.value, i, e, pt.up);
      assert Depth(pt.up) == 2;
    }
  }

  // ---------- The state left by the boot code ----------

  /** The boot code links one PDPT and one PD below the PML4 and maps 0-4 MiB by two large pages. */
  function BootMemory(pml4: nat, pdpt: nat, pd: nat): Memory {
    map[Slot(pml4, 0) := pdpt + 7, Slot(pdpt, 0) := pd + 7, Slot(pd, 0) := 0x87, Slot(pd, 1) := 0x20_0087]
  }

  /** The three boot tables are distinct pages of the reserved first 2 MiB. */
  predicate BootTables(pml4: nat, pdpt: nat, pd: nat) {
    && pml4 != pdpt && pml4 != pd && pdpt != pd
    && (forall t :: t in {pml4, pdpt, pd} ==> t != 0 && t % 4096 == 0 && t / 4096 < RESERVED_PAGES)
  }

  function BootTable(pml4: nat, pdpt: nat, pd: nat, p: Path): Option<nat> {
    if p == Top then Some(pml4)
    else if p == Sub(Top, 0) then Some(pdpt)
    else if p == Sub(Sub(Top, 0), 0) then Some(pd)
    else None
  }

  lemma BootWordAt(pml4: nat, pdpt: nat, pd: nat, t: nat, i: nat)
    requires BootTables(pml4, pdpt, pd)
    ensures Word(BootMemory(pml4, pdpt, pd), t, i) ==
            if t == pml4 && i == 0 then LinkWord(pdpt, 7)
            else if t == pdpt && i == 0 then LinkWord(pd, 7)
            else if t == pd && i == 0 then 0x87
            else if t == pd && i == 1 then 0x20_0087
            else 0
  {
    assert User(7);
  }

  lemma {:induction false} BootTableAt(pml4: nat, pdpt: nat, pd: nat, p: Path)
    requires BootTables(pml4, pdpt, pd)
    requires InBounds(p) && Depth(p) <= 3
    ensures TableAt(BootMemory(pml4, pdpt, pd), pml4, p) == BootTable(pml4, pdpt, pd, p)
  {
    if p.Sub? {
      hide BootMemory, LinkWord, AddrOf, Word;
      BootTableAt(pml4, pdpt, pd, p.up);
      LinkWordFields(pdpt, 7);
      LinkWordFields(pd, 7);
      assert !Present(0) && Huge(0x87) && Huge(0x20_0087);
      var up := BootTable(pml4, pdpt, pd, p.up);
      if up.Some? {
        BootWordAt(pml4, pdpt, pd, up.value, p.index);
      }
    }
  }

  /** The present words of the boot tables are writable and open to user mode; only two PD words are huge. */
  lemma BootWords(pml4: nat, pdpt: nat, pd: nat, t: nat, i: nat)
    requires BootTables(pml4, pdpt, pd)
    ensures var e := Word(BootMemory(pml4, pdpt, pd), t, i);
            && (Present(e) ==> Writable(e) && User(e))
            && (Huge(e) ==> t == pd && i <= 1)
  {
    LinkWordFields(pdpt, 7);
    LinkWordFields(pd, 7);
    assert LinkWord(pdpt, 7) == pdpt + 7 && LinkWord(pd, 7) == pd + 7;
    assert !Present(0) && !Huge(0) && Writable(0x87) && User(0x87) && Writable(0x20_0087) && User(0x20_0087);
  }

  /** The boot tables are well-formed, and only the pages of 0-4 MiB have a huge entry in the way. */
  lemma BootIsWellFormed(pml4: nat, pdpt: nat, pd: nat)
    requires BootTables(pml4, pdpt, pd)
    ensures var s := Vm(BootMemory(pml4, pdpt, pd), ReservedPages());
            WellFormed(s, pml4) && OpenLinks(s, pml4)
    ensures forall pt :: IsPt(pt) && Blocked(BootMemory(pml4, pdpt, pd), pml4, pt) ==>
              pt.up == Sub(Sub(Top, 0), 0) && pt.index <= 1
  {
    var m := BootMemory(pml4, pdpt, pd);
    forall p | IsNode(p)
      ensures TableAt(m, pml4, p) == BootTable(pml4, pdpt, pd, p)
    {
      BootTableAt(pml4, pdpt, pd, p);
    }
    forall t: nat, i: nat
      ensures var e := Word(m, t, i); (Present(e) ==> Writable(e) && User(e)) && (Huge(e) ==> t == pd && i <= 1)
    {
      BootWords(pml4, pdpt, pd, t, i);
    }
    assert Depth(Sub(Sub(Top, 0), 0)) == 1 + Depth(Sub(Top, 0));
  }

  // ---------- The tables in memory ----------

  class AddressSpace {
    const frames: FrameAllocator
    var mem: Memory

    ghost predicate Valid()
      reads this, frames
    {
      frames.Valid()
    }

    ghost function View(): Vm
      requires Valid()
      reads this, frames, frames.bitmap
    {
      Vm(mem, frames.Used())
    }

    /** Boot memory holds whatever the boot code left in it. */
    constructor (boot: Memory)
      ensures Valid() && fresh(frames) && fresh(frames.bitmap) && View() == Vm(boot, ReservedPages())
    {
      frames := new FrameAllocator();
      mem := boot;
    }

    method NewTable() returns (table: Option<nat>)
      requires Valid()
      modifies this, frames.bitmap
      ensures Outcome(View(), table) == AllocTable(old(View()))
    {
      var phys := frames.AllocPage();
      if phys == 0 {
        return None;
      }
      ghost var before := mem;
      for i := 0 to 512
        invariant mem == Cleared(before, phys, i)
        invariant frames.Used() == old(Alloc(frames.Used()).1)
      {
        ClearNext(before, phys, i);
        mem := mem[Slot(phys, i) := 0];
      }
      table := Some(phys);
    }

    method NextTable(table: nat, index: nat, flags: nat, refuseHuge: bool) returns (next: Option<nat>)
      requires Valid()
      modifies this, frames.bitmap
      ensures Outcome(View(), next) == Descend(old(View()), table, index, flags, refuseHuge)
    {
      var e := Word(mem, table, index);
      if !Present(e) {
        if refuseHuge && Huge(e) {
          return None;
        }
        next := NewTable();
        if next == None {
          return;
        }
        mem := mem[Slot(table, index) := LinkWord(next.value, flags)];
      } else {
        next := Some(AddrOf(e));
      }
    }

    method Map(pml4: nat, virt: nat, phys: nat, flags: nat)
      requires Valid()
      modifies this, frames.bitmap
      ensures View() == MapPage(old(View()), pml4, virt, phys, flags)
    {
      if pml4 == 0 {
        return;
      }
      if virt % PAGE_SIZE != 0 || phys % PAGE_SIZE != 0 {
        return;
      }
      WalkUnfolds(View(), pml4, PtPath(virt), flags);
      var pdpt := NextTable(pml4, Pml4Index(virt), flags, false);
      if pdpt == None {
        return;
      }
      var pd := NextTable(pdpt.value, PdptIndex(virt), flags, false);
      if pd == None {
        return;
      }
      var pt := NextTable(pd.value, PdIndex(virt), flags, true);
      if pt == None {
        return;
      }
      mem := mem[Slot(pt.value, PtIndex(virt)) := LeafWord(phys, flags)];
    }
  }
}
