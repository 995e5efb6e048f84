/** The heap's linked list of headers in memory, kept in step with the block list. */
module HeapMemory {
  import opened KernelHeap

  /** Memory by the address of each stored object: a header holds its size, its next pointer and its free
      byte at offsets 0, 8 and 16; everything else is payload. */
  type Memory = map<nat, nat>

  ghost predicate HeaderAt(m: Memory, b: Block, next: nat) {
    && b.addr in m && m[b.addr] == b.size
    && b.addr + 8 in m && m[b.addr + 8] == next
    && b.addr + 16 in m && m[b.addr + 16] == if b.free then 1 else 0
  }

  function NextOf(bs: seq<Block>, k: nat): nat
    requires k < |bs|
  {
    if k + 1 < |bs| then bs[k + 1].addr else 0
  }

  ghost predicate Represents(m: Memory, bs: seq<Block>) {
    forall k :: 0 <= k < |bs| ==> HeaderAt(m, bs[k], NextOf(bs, k))
  }

  predicate InPayload(x: nat, b: Block) { b.addr + HEADER <= x < b.End() }

  predicate Same(m: Memory, m': Memory, x: nat) {
    if x in m then x in m' && m'[x] == m[x] else x !in m'
  }

  /** No payload byte of the given blocks differs between the two memories. */
  ghost predicate PayloadsKept(m: Memory, m': Memory, l: seq<Block>) {
    forall b, x: nat :: b in l && InPayload(x, b) ==> Same(m, m', x)
  }

  /** Only memory inside block b may differ. */
  ghost predicate WritesWithin(m: Memory, m': Memory, b: Block) {
    forall x: nat :: !(b.addr <= x < b.End()) ==> Same(m, m', x)
  }

  lemma {:induction false} LiveIndex(bs: seq<Block>, b: Block) returns (i: nat)
    requires b in Live(bs)
    ensures i < |bs| && bs[i] == b && !b.free
  {
    if !bs[0].free && bs[0] == b {
      i := 0;
    } else {
      var j := LiveIndex(bs[1..], b);
      i := j + 1;
    }
  }

  /** Writing inside a free block leaves every live payload alone. */
  lemma FreeBlockWrites(m: Memory, m': Memory, bs: seq<Block>, k: nat, lo: nat, hi: nat)
    requires Tiles(bs, lo, hi) && k < |bs| && bs[k].free && WritesWithin(m, m', bs[k])
    ensures PayloadsKept(m, m', Live(bs))
  {
    hide Tiles, Live, Same;
    forall b, x: nat | b in Live(bs) && InPayload(x, b) ensures Same(m, m', x) {
      var i := LiveIndex(bs, b);
      if i < k {
        TilesSeparate(bs, i, k, lo, hi);
      } else {
        TilesSeparate(bs, k, i, lo, hi);
      }
    }
  }

  lemma HeaderUntouched(m: Memory, m': Memory, b: Block, c: Block, next: nat)
    requires HeaderAt(m, c, next) && WritesWithin(m, m', b)
    requires c.End() <= b.addr || b.End() <= c.addr
    ensures HeaderAt(m', c, next)
  {
    assert Same(m, m', c.addr) && Same(m, m', c.addr + 8) && Same(m, m', c.addr + 16);
  }

  // ---------- The three list updates ----------

  /** kmalloc's stores for the block b followed by the header at `next`. */
  function Carved(m: Memory, b: Block, n: nat, next: nat): Memory {
    if b.size >= n && b.size - n > SPLIT_MIN then
      var rest := b.addr + HEADER + n;
      var split := m[rest := b.size - n - HEADER][rest + 8 := next][rest + 16 := 1];
      split[b.addr := n][b.addr + 8 := rest][b.addr + 16 := 0]
    else
      m[b.addr + 16 := 0]
  }

  /** Writes inside block k leave the other headers. */
  lemma OtherHeaders(m: Memory, m': Memory, bs: seq<Block>, k: nat, lo: nat, hi: nat)
    requires Represents(m, bs) && Tiles(bs, lo, hi) && k < |bs| && WritesWithin(m, m', bs[k])
    ensures forall i :: 0 <= i < |bs| && i != k ==> HeaderAt(m', bs[i], NextOf(bs, i))
  {
    hide Tiles, HeaderAt, WritesWithin, NextOf;
    forall i | 0 <= i < |bs| && i != k ensures HeaderAt(m', bs[i], NextOf(bs, i)) {
      if i < k {
        TilesSeparate(bs, i, k, lo, hi);
      } else {
        TilesSeparate(bs, k, i, lo, hi);
      }
      HeaderUntouched(m, m', bs[k], bs[i], NextOf(bs, i));
    }
  }

  lemma CarvedHeaders(m: Memory, b: Block, n: nat, next: nat)
    requires HeaderAt(m, b, next) && Fits(b, n)
    ensures var m' := Carved(m, b, n, next);
            && WritesWithin(m, m', b)
            && if b.size - n > SPLIT_MIN then
                 var rest := b.addr + HEADER + n;
                 && HeaderAt(m', Block(b.addr, n, false), rest)
                 && HeaderAt(m', Block(rest, b.size - n - HEADER, true), next)
               else HeaderAt(m', b.(free := false), next)
  {
  }

  lemma CarvedRepresents(m: Memory, bs: seq<Block>, k: nat, n: nat, lo: nat, hi: nat)
    requires Represents(m, bs) && Tiles(bs, lo, hi) && k < |bs| && Fits(bs[k], n)
    ensures var m' := Carved(m, bs[k], n, NextOf(bs, k));
            Represents(m', Carve(bs, k, n)) && WritesWithin(m, m', bs[k])
  {
    hide Tiles, HeaderAt, WritesWithin, Carved;
    var b := bs[k];
    var m' := Carved(m, b, n, NextOf(bs, k));
    var c := Carve(bs, k, n);
    assert HeaderAt(m, b, NextOf(bs, k));
    CarvedHeaders(m, b, n, NextOf(bs, k));
    OtherHeaders(m, m', bs, k, lo, hi);
    var shift := |c| - |bs|;
    forall i | 0 <= i < |c| ensures HeaderAt(m', c[i], NextOf(c, i)) {
      if i < k {
        assert c[i] == bs[i] && NextOf(c, i) == NextOf(bs, i);
      } else if i > k + shift {
        assert c[i] == bs[i - shift] && NextOf(c, i) == NextOf(bs, i - shift);
      } else if i == k + shift {
        assert NextOf(c, i) == NextOf(bs, k);
      }
    }
  }

  /** kfree's stores that absorb the block behind b. */
  function Merged(m: Memory, b: Block, c: Block, next: nat): Memory {
    m[b.addr := b.size + HEADER + c.size][b.addr + 8 := next]
  }

  lemma MergedHeader(m: Memory, b: Block, c: Block, link: nat, next: nat)
    requires HeaderAt(m, b, link)
    ensures var m' := Merged(m, b, c, next);
            WritesWithin(m, m', b) && HeaderAt(m', b.(size := b.size + HEADER + c.size), next)
  {
  }

  lemma MergedRepresents(m: Memory, bs: seq<Block>, k: nat, lo: nat, hi: nat)
    requires Represents(m, bs) && Tiles(bs, lo, hi) && k + 1 < |bs|
    ensures var m' := Merged(m, bs[k], bs[k + 1], NextOf(bs, k + 1));
            Represents(m', Merge(bs, k)) && WritesWithin(m, m', bs[k])
  {
    hide Tiles, HeaderAt, WritesWithin, Merged;
    var m' := Merged(m, bs[k], bs[k + 1], NextOf(bs, k + 1));
    var c := Merge(bs, k);
    assert HeaderAt(m, bs[k], NextOf(bs, k));
    MergedHeader(m, bs[k], bs[k + 1], NextOf(bs, k), NextOf(bs, k + 1));
    OtherHeaders(m, m', bs, k, lo, hi);
    forall i | 0 <= i < |c| ensures HeaderAt(m', c[i], NextOf(c, i)) {
      if i < k {
        assert c[i] == bs[i] && NextOf(c, i) == NextOf(bs, i);
      } else {
        assert NextOf(c, i) == NextOf(bs, i + 1);
        assert i > k ==> c[i] == bs[i + 1];
      }
    }
  }

  lemma FreedHeader(m: Memory, b: Block, next: nat)
    requires HeaderAt(m, b, next)
    ensures var m' := m[b.addr + 16 := 1];
            WritesWithin(m, m', b) && WritesWithin(m, m', b.(free := true)) && HeaderAt(m', b.(free := true), next)
  {
  }

  lemma FreedRepresents(m: Memory, bs: seq<Block>, k: nat, lo: nat, hi: nat)
    requires Represents(m, bs) && Tiles(bs, lo, hi) && k < |bs|
    ensures var m' := m[bs[k].addr + 16 := 1]; var c := bs[k := bs[k].(free := true)];
            Represents(m', c) && WritesWithin(m, m', c[k])
  {
    hide Tiles, HeaderAt, WritesWithin;
    var m' := m[bs[k].addr + 16 := 1];
    var c := bs[k := bs[k].(free := true)];
    assert HeaderAt(m, bs[k], NextOf(bs, k));
    FreedHeader(m, bs[k], NextOf(bs, k));
    OtherHeaders(m, m', bs, k, lo, hi);
    forall i | 0 <= i < |c| ensures HeaderAt(m', c[i], NextOf(c, i)) {
      assert NextOf(c, i) == NextOf(bs, i);
    }
  }

  lemma KeptTransitive(m: Memory, m': Memory, m'': Memory, l: seq<Block>)
    requires PayloadsKept(m, m', l) && PayloadsKept(m', m'', l)
    ensures PayloadsKept(m, m'', l)
  {
    forall b, x: nat | b in l && InPayload(x, b) ensures Same(m, m'', x) {
      assert Same(m, m', x) && Same(m', m'', x);
    }
  }

  lemma ProperFacts(bs: seq<Block>, lo: nat, hi: nat)
    requires Proper(bs, lo, hi) && bs != []
    ensures Tiles(bs, lo, hi) && bs[0].addr == lo
    ensures forall k :: 0 <= k < |bs| ==> lo <= bs[k].addr
  {
    TilesGrow(bs, lo, hi);
  }

  // ---------- The heap ----------

  class KernelHeapList {
    const start: nat
    var mem: Memory
    var head: nat
    var locked: bool
    ghost var blocks: seq<Block>

    ghost predicate Valid()
      reads this
    {
      && head == start > 0 && blocks != [] && !locked
      && Proper(blocks, start, start + HEAP_SIZE) && Represents(mem, blocks)
    }

    /** kheap_init: one free block that fills the heap. */
    constructor (start: nat, ram: Memory)
      requires start > 0 && start % 8 == 0
      ensures Valid() && this.start == start && blocks == InitialBlocks(start)
    {
      this.start := start;
      head := start;
      mem := ram[start := HEAP_SIZE - HEADER][start + 8 := 0][start + 16 := 1];
      locked := false;
      blocks := InitialBlocks(start);
      InitIsProper(start);
    }

    method Kmalloc(request: nat) returns (ptr: nat)
      requires Valid()
      modifies this
      ensures Valid() && (blocks, ptr) == Malloc(old(blocks), request)
      ensures PayloadsKept(old(mem), mem, Live(old(blocks)))
    {
      hide Tiles, Live, Align16, Carve, Carved, Proper, PayloadsKept, Represents, NextOf, HeaderAt;
      KeptReflexive(mem, Live(blocks));
      if request == 0 {
        return 0;
      }
      var size := Align16(request);
      AlignedSize(request);
      locked := true;
      var cur := head;
      ghost var k := 0;
      ghost var hi := start + HEAP_SIZE;
      ProperFacts(blocks, start, hi);
      while cur != 0
        invariant blocks == old(blocks) && mem == old(mem) && head == start && locked
        invariant k <= |blocks| && cur == if k < |blocks| then blocks[k].addr else 0
        invariant MallocFrom(blocks, 0, size) == MallocFrom(blocks, k, size)
        decreases |blocks| - k
      {
        Links(mem, blocks, k, start, hi);
        if mem[cur + 16] != 0 && mem[cur] >= size {
          ghost var b, next := blocks[k], NextOf(blocks, k);
          CarvedRepresents(mem, blocks, k, size, start, hi);
          FreeBlockWrites(mem, Carved(mem, b, size, next), blocks, k, start, hi);
          CarveCorrect(blocks, k, size, start, hi);
          Take(cur, size, b, next);
          blocks := Carve(blocks, k, size);
          ptr := cur + HEADER;
          locked := false;
          return;
        }
        cur := mem[cur + 8];
        k := k + 1;
      }
      locked := false;
      ptr := 0;
    }

    /** The stores of a successful kmalloc at the header `cur`. */
    method Take(cur: nat, size: nat, ghost b: Block, ghost next: nat)
      requires cur == b.addr && HeaderAt(mem, b, next) && b.size >= size
      modifies `mem
      ensures mem == Carved(old(mem), b, size, next)
    {
      var remaining := mem[cur] - size;
      var link := mem[cur + 8];
      if remaining > HEADER + 16 {
        var rest := cur + HEADER + size;
        mem := mem[rest := remaining - HEADER];
        mem := mem[rest + 8 := link];
        mem := mem[rest + 16 := 1];
        mem := mem[cur := size];
        mem := mem[cur + 8 := rest];
      }
      mem := mem[cur + 16 := 0];
    }

    /** kfree of NULL, of a live pointer, or of any other one whose flag store is harmless. */
    method Kfree(ptr: nat)
      requires Valid() && (ptr == 0 || Harmless(blocks, ptr))
      modifies this
      ensures Valid() && blocks == Free(old(blocks), ptr)
      ensures ptr != 0 ==> PayloadsKept(old(mem), mem, Live(MarkFree(old(blocks), ptr - HEADER)))
      ensures ptr == 0 ==> mem == old(mem)
    {
      hide Tiles, Live, Aligned, NoAdjacentFree, PayloadsKept, Represents, CoalesceFrom, MarkFree;
      if ptr == 0 {
        return;
      }
      locked := true;
      ghost var hi := start + HEAP_SIZE;
      var block := ptr - HEADER;
      AnyReleaseStart(mem, blocks, ptr, start, hi);
      mem := mem[block + 16 := 1];
      blocks := MarkFree(blocks, block);
      ghost var marked, between := blocks, mem;
      CoalesceAll();
      KeptTransitive(old(mem), between, mem, Live(marked));
      CoalesceCorrect(marked, 0, start, hi);
      locked := false;
    }

    /** The coalescing pass over the whole list. */
    method CoalesceAll()
      requires locked && head == start > 0 && blocks != [] && blocks[0].addr == start
      requires Tiles(blocks, start, start + HEAP_SIZE) && Aligned(blocks) && Represents(mem, blocks)
      modifies `mem, `blocks
      ensures blocks == CoalesceFrom(old(blocks), 0) && blocks != [] && Represents(mem, blocks)
      ensures PayloadsKept(old(mem), mem, Live(old(blocks)))
    {
      hide Tiles, Live, Merge, Merged, Aligned, NoAdjacentFree, PayloadsKept, Represents, NextOf, HeaderAt;
      ghost var hi := start + HEAP_SIZE;
      ghost var k := 0;
      var cur := head;
      KeptReflexive(mem, Live(blocks));
      Links(mem, blocks, k, start, hi);
      while cur != 0 && mem[cur + 8] != 0
        invariant k < |blocks| && cur == blocks[k].addr
        invariant Tiles(blocks, start, hi) && Aligned(blocks) && Represents(mem, blocks)
        invariant cur + 8 in mem && cur > 0 && (mem[cur + 8] == 0 <==> k + 1 == |blocks|)
        invariant CoalesceFrom(old(blocks), 0) == CoalesceFrom(blocks, k)
        invariant Live(blocks) == Live(old(blocks)) && PayloadsKept(old(mem), mem, Live(old(blocks)))
        decreases |blocks| - k
      {
        ghost var before, bs := mem, blocks;
        Links(mem, bs, k, start, hi);
        Links(mem, bs, k + 1, start, hi);
        var next := mem[cur + 8];
        if mem[cur + 16] != 0 && mem[next + 16] != 0 {
          MergedRepresents(mem, bs, k, start, hi);
          MergeKeeps(bs, k, start, hi);
          FreeBlockWrites(mem, Merged(mem, bs[k], bs[k + 1], NextOf(bs, k + 1)), bs, k, start, hi);
          Absorb(cur, next, bs[k], bs[k + 1], NextOf(bs, k + 1));
          blocks := Merge(bs, k);
          KeptTransitive(old(mem), before, mem, Live(bs));
          MergedBlock(bs, k);
        } else {
          cur := next;
          k := k + 1;
        }
        Links(mem, blocks, k, start, hi);
      }
    }

    /** The stores that merge the block at `next` into the one at `cur`. */
    method Absorb(cur: nat, next: nat, ghost b: Block, ghost c: Block, ghost after: nat)
      requires cur == b.addr && next == c.addr && b.addr + HEADER <= c.addr
      requires HeaderAt(mem, b, next) && HeaderAt(mem, c, after)
      modifies `mem
      ensures mem == Merged(old(mem), b, c, after)
    {
      mem := mem[cur := mem[cur] + HEADER + mem[next]];
      mem := mem[cur + 8 := mem[next + 8]];
    }
  }

  lemma MergedBlock(bs: seq<Block>, k: nat)
    requires k + 1 < |bs|
    ensures k < |Merge(bs, k)| && Merge(bs, k)[k].addr == bs[k].addr && |Merge(bs, k)| == |bs| - 1
  {
  }

  lemma KeptReflexive(m: Memory, l: seq<Block>)
    ensures PayloadsKept(m, m, l)
  {
  }

  /** What the list walk reads at block k. */
  lemma Links(m: Memory, bs: seq<Block>, k: nat, lo: nat, hi: nat)
    requires Represents(m, bs) && Tiles(bs, lo, hi) && k < |bs| && lo > 0
    ensures HeaderAt(m, bs[k], NextOf(bs, k)) && bs[k].addr > 0
    ensures var a := bs[k].addr;
            a in m && m[a] == bs[k].size && a + 8 in m && a + 16 in m && (m[a + 16] != 0 <==> bs[k].free)
    ensures m[bs[k].addr + 8] == NextOf(bs, k) && (NextOf(bs, k) == 0 <==> k + 1 == |bs|)
    ensures k + 1 < |bs| ==> NextOf(bs, k) == bs[k + 1].addr && bs[k].addr + HEADER <= bs[k + 1].addr
  {
    hide Tiles;
    TilesGrow(bs, lo, hi);
    assert HeaderAt(m, bs[k], NextOf(bs, k));
    if k + 1 < |bs| {
      TilesSeparate(bs, k, k + 1, lo, hi);
    }
  }

  /** The free flag that kfree(ptr) stores, at ptr - 8, hits no header but on its own flag, and no live payload. */
  ghost predicate Harmless(bs: seq<Block>, ptr: nat) {
    ptr >= HEADER &&
    forall k :: 0 <= k < |bs| ==>
      && (bs[k].addr <= ptr - 8 < bs[k].addr + HEADER ==> ptr == bs[k].addr + HEADER)
      && (!bs[k].free ==> !InPayload(ptr - 8, bs[k]))
  }

  lemma LiveIsHarmless(bs: seq<Block>, ptr: nat, lo: nat, hi: nat)
    requires Tiles(bs, lo, hi) && IsLive(bs, ptr)
    ensures Harmless(bs, ptr)
  {
    hide Tiles;
    var j :| 0 <= j < |bs| && bs[j].addr + HEADER == ptr && !bs[j].free;
    forall k | 0 <= k < |bs| && k != j ensures bs[k].End() <= bs[j].addr || bs[j].End() <= bs[k].addr {
      if k < j {
        TilesSeparate(bs, k, j, lo, hi);
      } else {
        TilesSeparate(bs, j, k, lo, hi);
      }
    }
  }

  /** A pointer that was released, and whose memory is still free, may be released again. */
  lemma ReleasedIsHarmless(bs: seq<Block>, ptr: nat, j: nat, lo: nat, hi: nat)
    requires Tiles(bs, lo, hi) && j < |bs| && bs[j].free && bs[j].addr + HEADER <= ptr <= bs[j].End()
    requires ptr == bs[j].addr + HEADER || bs[j].addr + 2 * HEADER <= ptr
    ensures Harmless(bs, ptr)
  {
    hide Tiles;
    forall k | 0 <= k < |bs| && k != j ensures bs[k].End() <= bs[j].addr || bs[j].End() <= bs[k].addr {
      if k < j {
        TilesSeparate(bs, k, j, lo, hi);
      } else {
        TilesSeparate(bs, j, k, lo, hi);
      }
    }
  }

  /** The first store of kfree, whether or not ptr is live. */
  lemma AnyReleaseStart(m: Memory, bs: seq<Block>, ptr: nat, lo: nat, hi: nat)
    requires Represents(m, bs) && Proper(bs, lo, hi) && bs != [] && ptr >= HEADER && Harmless(bs, ptr)
    ensures var c := MarkFree(bs, ptr - HEADER); var m' := m[ptr - 8 := 1];
            && c != [] && c[0].addr == lo && Tiles(c, lo, hi) && Aligned(c) && Represents(m', c)
            && PayloadsKept(m, m', Live(c))
  {
    hide Tiles, Live, NoAdjacentFree, Represents, PayloadsKept, Harmless, MarkFree, Aligned, Free;
    if IsLive(bs, ptr) {
      var k :| 0 <= k < |bs| && bs[k].addr + HEADER == ptr && !bs[k].free;
      ReleaseStart(m, bs, k, lo, hi);
    } else {
      FreeOfOther(bs, ptr, lo, hi);
      ProperFacts(bs, lo, hi);
      HarmlessStore(m, bs, ptr);
    }
  }

  lemma HarmlessStore(m: Memory, bs: seq<Block>, ptr: nat)
    requires Represents(m, bs) && Harmless(bs, ptr) && !IsLive(bs, ptr)
    ensures Represents(m[ptr - 8 := 1], bs) && PayloadsKept(m, m[ptr - 8 := 1], Live(bs))
  {
    hide Live;
    var m' := m[ptr - 8 := 1];
    forall k | 0 <= k < |bs| ensures HeaderAt(m', bs[k], NextOf(bs, k)) {
      assert HeaderAt(m, bs[k], NextOf(bs, k));
    }
    forall b, x: nat | b in Live(bs) && InPayload(x, b) ensures Same(m, m', x) {
      var i := LiveIndex(bs, b);
    }
  }

  lemma ReleaseStart(m: Memory, bs: seq<Block>, k: nat, lo: nat, hi: nat)
    requires Represents(m, bs) && Proper(bs, lo, hi) && k < |bs| && !bs[k].free
    ensures var c := MarkFree(bs, bs[k].addr); var m' := m[bs[k].addr + 16 := 1];
            && c != [] && c[0].addr == lo && Tiles(c, lo, hi) && Aligned(c) && Represents(m', c)
            && PayloadsKept(m, m', Live(c))
  {
    hide Tiles, Live, Represents, PayloadsKept, NoAdjacentFree, WritesWithin;
    var b, b' := bs[k], bs[k].(free := true);
    MarkFreeIsUpdate(bs, k, lo, hi);
    TilesSplit(bs, k, lo, hi);
    TilesNext(bs, k, lo, hi);
    TilesSplit(bs, k + 1, lo, hi);
    OneBlock(b');
    Splice(bs[..k], [b'], bs[k + 1..], lo, b.addr, b.End(), hi);
    var c := bs[k := b'];
    assert c == bs[..k] + [b'] + bs[k + 1..];
    FreedRepresents(m, bs, k, lo, hi);
    FreeBlockWrites(m, m[b.addr + 16 := 1], c, k, lo, hi);
    ProperFacts(bs, lo, hi);
    forall x | x in c ensures x == b' || x in bs {
    }
    assert b in bs;
  }
}
