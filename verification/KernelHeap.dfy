/** The kernel heap: first fit with splitting, and a full coalescing pass on every release. */
module KernelHeap {
  import opened Words

  const HEADER: nat := 24
  const HEAP_SIZE: nat := 0x40_0000
  const SPLIT_MIN: nat := 40

  datatype Block = Block(addr: nat, size: nat, free: bool) {
    function End(): nat { addr + HEADER + size }
  }

  /** The 64-bit sum wraps for requests within 15 bytes of the top. */
  function Align16(size: nat): nat { (size + 15) % TWO_64 / 16 * 16 }

  // ---------- The operations on the block list ----------

  predicate Fits(b: Block, n: nat) { b.free && b.size >= n }

  /** Block k handed out for n bytes, with the rest split off when it is worth a block. */
  function Carve(bs: seq<Block>, k: nat, n: nat): (c: seq<Block>)
    requires k < |bs| && Fits(bs[k], n)
    ensures |bs| <= |c| <= |bs| + 1
  {
    var b := bs[k];
    if b.size - n > SPLIT_MIN then
      bs[..k] + [Block(b.addr, n, false), Block(b.addr + HEADER + n, b.size - n - HEADER, true)] + bs[k + 1..]
    else
      bs[..k] + [b.(free := false)] + bs[k + 1..]
  }

  /** The search of kmalloc from block k on, for an aligned size; the address is 0 when nothing fits. */
  function MallocFrom(bs: seq<Block>, k: nat, n: nat): (seq<Block>, nat)
    requires k <= |bs|
    decreases |bs| - k
  {
    if k == |bs| then (bs, 0)
    else if Fits(bs[k], n) then (Carve(bs, k, n), bs[k].addr + HEADER)
    else MallocFrom(bs, k + 1, n)
  }

  function Malloc(bs: seq<Block>, size: nat): (seq<Block>, nat) {
    if size == 0 then (bs, 0) else MallocFrom(bs, 0, Align16(size))
  }

  function Merge(bs: seq<Block>, k: nat): (c: seq<Block>)
    requires k + 1 < |bs|
    ensures |c| == |bs| - 1
  {
    bs[..k] + [bs[k].(size := bs[k].size + HEADER + bs[k + 1].size)] + bs[k + 2..]
  }

  /** The coalescing pass of kfree with its cursor at block k. */
  function CoalesceFrom(bs: seq<Block>, k: nat): seq<Block>
    requires k < |bs|
    decreases |bs| - k
  {
    if k + 1 == |bs| then bs
    else if bs[k].free && bs[k + 1].free then CoalesceFrom(Merge(bs, k), k)
    else CoalesceFrom(bs, k + 1)
  }

  function MarkFree(bs: seq<Block>, addr: nat): (bs': seq<Block>)
    ensures |bs'| == |bs|
  {
    seq(|bs|, i requires 0 <= i < |bs| => if bs[i].addr == addr then bs[i].(free := true) else bs[i])
  }

  function Free(bs: seq<Block>, ptr: nat): seq<Block> {
    if ptr < HEADER || bs == [] then bs else CoalesceFrom(MarkFree(bs, ptr - HEADER), 0)
  }

  // ---------- Shape ----------

  /** The blocks fill [lo, hi) end to end. */
  predicate Tiles(bs: seq<Block>, lo: nat, hi: nat) {
    if bs == [] then lo == hi else bs[0].addr == lo && Tiles(bs[1..], bs[0].End(), hi)
  }

  predicate NoAdjacentFree(bs: seq<Block>) {
    forall i :: 0 <= i < |bs| - 1 ==> !(bs[i].free && bs[i + 1].free)
  }

  predicate Aligned(bs: seq<Block>) {
    forall b :: b in bs ==> b.size % 8 == 0 && b.addr % 8 == 0
  }

  function Live(bs: seq<Block>): seq<Block> {
    if bs == [] then [] else (if bs[0].free then [] else [bs[0]]) + Live(bs[1..])
  }

  lemma {:induction false} TilesConcat(a: seq<Block>, b: seq<Block>, lo: nat, mid: nat, hi: nat)
    requires Tiles(a, lo, mid)
    ensures Tiles(a + b, lo, hi) <==> Tiles(b, mid, hi)
  {
    if a == [] {
      assert a + b == b;
    } else {
      assert (a + b)[1..] == a[1..] + b;
      TilesConcat(a[1..], b, a[0].End(), mid, hi);
    }
  }

  /** Where block k starts, or the end of the region for k == |bs|. */
  function StartOf(bs: seq<Block>, k: nat, hi: nat): nat
    requires k <= |bs|
  {
    if k == |bs| then hi else bs[k].addr
  }

  lemma {:induction false} TilesSplit(bs: seq<Block>, k: nat, lo: nat, hi: nat)
    requires Tiles(bs, lo, hi) && k <= |bs|
    ensures Tiles(bs[..k], lo, StartOf(bs, k, hi)) && Tiles(bs[k..], StartOf(bs, k, hi), hi)
  {
    if k == 0 {
      assert bs[..0] == [] && bs[0..] == bs;
      assert bs != [] ==> bs[0].addr == lo;
    } else {
      TilesSplit(bs[1..], k - 1, bs[0].End(), hi);
      assert bs[..k][1..] == bs[1..][..k - 1];
      assert bs[1..][k - 1..] == bs[k..];
    }
  }

  lemma {:induction false} LiveConcat(a: seq<Block>, b: seq<Block>)
    ensures Live(a + b) == Live(a) + Live(b)
  {
    if a == [] {
      assert a + b == b;
    } else {
      assert (a + b)[1..] == a[1..] + b;
      LiveConcat(a[1..], b);
    }
  }

  lemma {:induction false} TilesGrow(bs: seq<Block>, lo: nat, hi: nat)
    requires Tiles(bs, lo, hi)
    ensures lo + HEADER * |bs| <= hi
    ensures forall b :: b in bs ==> lo <= b.addr && b.End() <= hi
  {
    if bs != [] {
      TilesGrow(bs[1..], bs[0].End(), hi);
    }
  }

  /** Blocks follow one another without overlap. */
  lemma TilesSeparate(bs: seq<Block>, i: nat, j: nat, lo: nat, hi: nat)
    requires Tiles(bs, lo, hi) && i < j < |bs|
    ensures bs[i].End() <= bs[j].addr
    ensures j == i + 1 ==> bs[i].End() == bs[j].addr
  {
    TilesSplit(bs, i, lo, hi);
    assert bs[i..][0] == bs[i] && bs[i..][1..] == bs[i + 1..];
    TilesGrow(bs[i + 1..], bs[i].End(), hi);
    assert bs[i + 1..][j - i - 1] == bs[j];
    assert j == i + 1 ==> bs[i + 1..][0] == bs[j];
  }

  lemma TilesNext(bs: seq<Block>, k: nat, lo: nat, hi: nat)
    requires Tiles(bs, lo, hi) && k < |bs|
    ensures bs[k].End() == StartOf(bs, k + 1, hi)
  {
    TilesSplit(bs, k, lo, hi);
    assert bs[k..][0] == bs[k] && bs[k..][1..] == bs[k + 1..];
    assert k + 1 < |bs| ==> bs[k + 1..][0] == bs[k + 1];
  }

  // ---------- The canonical form ----------

  lemma LiveHead(bs: seq<Block>, lo: nat, hi: nat)
    requires Tiles(bs, lo, hi) && NoAdjacentFree(bs) && bs != [] && bs[0].free
    ensures if |bs| == 1 then Live(bs) == [] && bs[0].End() == hi
            else Live(bs) != [] && Live(bs)[0] == bs[1] && bs[1].addr == bs[0].End()
  {
    if |bs| > 1 {
      assert bs[1..][0] == bs[1];
    }
  }

  /** A tiling without adjacent free blocks is determined by its live blocks. */
  lemma {:induction false} CanonicalForm(a: seq<Block>, b: seq<Block>, lo: nat, hi: nat)
    requires Tiles(a, lo, hi) && Tiles(b, lo, hi) && NoAdjacentFree(a) && NoAdjacentFree(b)
    requires Live(a) == Live(b)
    ensures a == b
  {
    TilesGrow(a, lo, hi);
    TilesGrow(b, lo, hi);
    if a != [] && b != [] {
      assert !a[0].free ==> Live(a)[0] == a[0] && Live(a)[1..] == Live(a[1..]);
      assert !b[0].free ==> Live(b)[0] == b[0] && Live(b)[1..] == Live(b[1..]);
      if a[0].free {
        LiveHead(a, lo, hi);
      }
      if b[0].free {
        LiveHead(b, lo, hi);
      }
      assert a[0].free ==> Live(a) == Live(a[1..]);
      assert b[0].free ==> Live(b) == Live(b[1..]);
      assert a[0].free == b[0].free;
      assert a[0].End() == b[0].End();
      CanonicalForm(a[1..], b[1..], a[0].End(), hi);
    }
  }

  // ---------- Coalescing ----------

  ghost predicate NoAdjacentFreeUpTo(bs: seq<Block>, k: nat) {
    forall i :: 0 <= i < k && i + 1 < |bs| ==> !(bs[i].free && bs[i + 1].free)
  }

  lemma Splice(pre: seq<Block>, mid: seq<Block>, post: seq<Block>, lo: nat, p: nat, q: nat, hi: nat)
    requires Tiles(pre, lo, p) && Tiles(mid, p, q) && Tiles(post, q, hi)
    ensures Tiles(pre + mid + post, lo, hi) && Live(pre + mid + post) == Live(pre) + Live(mid) + Live(post)
  {
    TilesConcat(pre, mid, lo, p, q);
    TilesConcat(pre + mid, post, lo, q, hi);
    LiveConcat(pre, mid);
    LiveConcat(pre + mid, post);
  }

  lemma OneBlock(b: Block)
    ensures Tiles([b], b.addr, b.End()) && Live([b]) == if b.free then [] else [b]
  {
  }

  lemma TwoBlocks(b: Block, c: Block)
    requires c.addr == b.End()
    ensures Tiles([b, c], b.addr, c.End())
    ensures Live([b, c]) == (if b.free then [] else [b]) + (if c.free then [] else [c])
  {
    assert [b, c] == [b] + [c];
    OneBlock(b);
    OneBlock(c);
    TilesConcat([b], [c], b.addr, b.End(), c.End());
    LiveConcat([b], [c]);
  }

  lemma MergeKeepsAlignment(bs: seq<Block>, k: nat)
    requires Aligned(bs) && k + 1 < |bs|
    ensures Aligned(Merge(bs, k))
  {
    var b, c := bs[k], bs[k + 1];
    var m := b.(size := b.size + HEADER + c.size);
    assert b in bs && c in bs;
    EightSum(b.size, c.size);
    forall x | x in Merge(bs, k) ensures x == m || x in bs {
    }
  }

  lemma EightSum(x: nat, y: nat)
    requires x % 8 == 0 && y % 8 == 0
    ensures (x + HEADER + y) % 8 == 0
  {
  }

  lemma MergeKeeps(bs: seq<Block>, k: nat, lo: nat, hi: nat)
    requires Tiles(bs, lo, hi) && Aligned(bs) && k + 1 < |bs| && bs[k].free && bs[k + 1].free
    ensures Tiles(Merge(bs, k), lo, hi) && Live(Merge(bs, k)) == Live(bs) && Aligned(Merge(bs, k))
  {
    hide Tiles, Live, Aligned;
    MergeKeepsAlignment(bs, k);
    var b, c := bs[k], bs[k + 1];
    var m := b.(size := b.size + HEADER + c.size);
    TilesSplit(bs, k, lo, hi);
    TilesNext(bs, k, lo, hi);
    TilesNext(bs, k + 1, lo, hi);
    TilesSplit(bs, k + 2, lo, hi);
    OneBlock(m);
    TwoBlocks(b, c);
    Splice(bs[..k], [m], bs[k + 2..], lo, b.addr, c.End(), hi);
    Splice(bs[..k], [b, c], bs[k + 2..], lo, b.addr, c.End(), hi);
    assert bs == bs[..k] + [b, c] + bs[k + 2..];
  }

  /** The pass merges every pair of adjacent free blocks and touches nothing else. */
  lemma {:induction false} CoalesceCorrect(bs: seq<Block>, k: nat, lo: nat, hi: nat)
    requires Tiles(bs, lo, hi) && Aligned(bs) && k < |bs| && NoAdjacentFreeUpTo(bs, k)
    ensures var c := CoalesceFrom(bs, k);
            Tiles(c, lo, hi) && Aligned(c) && NoAdjacentFree(c) && Live(c) == Live(bs)
    decreases |bs| - k
  {
    if k + 1 < |bs| {
      if bs[k].free && bs[k + 1].free {
        MergeKeeps(bs, k, lo, hi);
        CoalesceCorrect(Merge(bs, k), k, lo, hi);
      } else {
        CoalesceCorrect(bs, k + 1, lo, hi);
      }
    }
  }

  // ---------- Allocation ----------

  predicate Proper(bs: seq<Block>, lo: nat, hi: nat) {
    Tiles(bs, lo, hi) && Aligned(bs) && NoAdjacentFree(bs)
  }

  lemma CarveCorrect(bs: seq<Block>, k: nat, n: nat, lo: nat, hi: nat)
    requires Proper(bs, lo, hi) && k < |bs| && Fits(bs[k], n) && n % 8 == 0
    ensures var c := Carve(bs, k, n); var b := c[k];
            && k < |c| && Proper(c, lo, hi)
            && b.addr == bs[k].addr && !b.free && n <= b.size <= n + SPLIT_MIN
            && Live(c) == Live(bs[..k]) + [b] + Live(bs[k + 1..]) && Live(bs) == Live(bs[..k]) + Live(bs[k + 1..])
  {
    hide Tiles, Live, Aligned, NoAdjacentFree;
    var b := bs[k];
    TilesSplit(bs, k, lo, hi);
    TilesNext(bs, k, lo, hi);
    TilesSplit(bs, k + 1, lo, hi);
    OneBlock(b);
    Splice(bs[..k], [b], bs[k + 1..], lo, b.addr, b.End(), hi);
    assert bs == bs[..k] + [b] + bs[k + 1..];
    if b.size - n > SPLIT_MIN {
      var used, rest := Block(b.addr, n, false), Block(b.addr + HEADER + n, b.size - n - HEADER, true);
      TwoBlocks(used, rest);
      Splice(bs[..k], [used, rest], bs[k + 1..], lo, b.addr, b.End(), hi);
    } else {
      OneBlock(b.(free := false));
      Splice(bs[..k], [b.(free := false)], bs[k + 1..], lo, b.addr, b.End(), hi);
    }
    CarveKeepsApart(bs, k, n);
  }

  lemma CarveKeepsApart(bs: seq<Block>, k: nat, n: nat)
    requires NoAdjacentFree(bs) && Aligned(bs) && k < |bs| && Fits(bs[k], n) && n % 8 == 0
    ensures NoAdjacentFree(Carve(bs, k, n)) && Aligned(Carve(bs, k, n))
  {
    var c := Carve(bs, k, n);
    if bs[k].size - n > SPLIT_MIN {
      forall i | 0 <= i < |c| - 1 ensures !(c[i].free && c[i + 1].free) {
        if k + 1 < i {
          assert c[i] == bs[i - 1] && c[i + 1] == bs[i];
        } else if i == k + 1 {
          assert c[i + 1] == bs[k + 1];
        }
      }
    }
  }

  /** What kmalloc finds: nothing fits, or block k is the first that fits. */
  lemma {:induction false} MallocFinds(bs: seq<Block>, k: nat, n: nat) returns (found: nat)
    requires k <= |bs|
    ensures k <= found <= |bs| && (forall i :: k <= i < found ==> !Fits(bs[i], n))
    ensures found == |bs| ==> MallocFrom(bs, k, n) == (bs, 0)
    ensures found < |bs| ==> Fits(bs[found], n) && MallocFrom(bs, k, n) == (Carve(bs, found, n), bs[found].addr + HEADER)
    decreases |bs| - k
  {
    if k == |bs| || Fits(bs[k], n) {
      found := k;
    } else {
      found := MallocFinds(bs, k + 1, n);
    }
  }

  lemma AlignedSize(size: nat)
    ensures Align16(size) % 8 == 0 && Align16(size) % 16 == 0
    ensures size + 15 < TWO_64 ==> size <= Align16(size) <= size + 15
  {
  }

  // ---------- Release ----------

  predicate IsLive(bs: seq<Block>, ptr: nat) {
    exists k :: 0 <= k < |bs| && bs[k].addr + HEADER == ptr && !bs[k].free
  }

  lemma MarkFreeIsUpdate(bs: seq<Block>, k: nat, lo: nat, hi: nat)
    requires Tiles(bs, lo, hi) && k < |bs|
    ensures MarkFree(bs, bs[k].addr) == bs[k := bs[k].(free := true)]
  {
    forall i | 0 <= i < |bs| && i != k ensures bs[i].addr != bs[k].addr {
      if i < k {
        TilesSeparate(bs, i, k, lo, hi);
      } else {
        TilesSeparate(bs, k, i, lo, hi);
      }
    }
  }

  /** Releasing live block k keeps the form and removes exactly that block from the live ones. */
  lemma FreeCorrect(bs: seq<Block>, k: nat, lo: nat, hi: nat)
    requires Proper(bs, lo, hi) && k < |bs| && !bs[k].free
    ensures var c := Free(bs, bs[k].addr + HEADER);
            && Proper(c, lo, hi) && Live(c) == Live(bs[..k]) + Live(bs[k + 1..])
            && Live(bs) == Live(bs[..k]) + [bs[k]] + Live(bs[k + 1..])
  {
    hide Tiles, Live;
    var b := bs[k];
    var b' := b.(free := true);
    TilesSplit(bs, k, lo, hi);
    TilesNext(bs, k, lo, hi);
    TilesSplit(bs, k + 1, lo, hi);
    OneBlock(b);
    OneBlock(b');
    Splice(bs[..k], [b], bs[k + 1..], lo, b.addr, b.End(), hi);
    Splice(bs[..k], [b'], bs[k + 1..], lo, b.addr, b.End(), hi);
    assert bs == bs[..k] + [b] + bs[k + 1..];
    assert bs[k := b'] == bs[..k] + [b'] + bs[k + 1..];
    MarkFreeIsUpdate(bs, k, lo, hi);
    CoalesceCorrect(bs[k := b'], 0, lo, hi);
  }

  /** kfree of an address that is not behind a live block leaves the list as it is. */
  lemma FreeOfOther(bs: seq<Block>, ptr: nat, lo: nat, hi: nat)
    requires Proper(bs, lo, hi) && bs != [] && ptr >= HEADER && !IsLive(bs, ptr)
    ensures MarkFree(bs, ptr - HEADER) == bs && Free(bs, ptr) == bs
  {
    hide Tiles, Live, Aligned;
    forall i | 0 <= i < |bs| ensures MarkFree(bs, ptr - HEADER)[i] == bs[i] {
      assert bs[i].addr + HEADER == ptr ==> bs[i].free;
    }
    assert MarkFree(bs, ptr - HEADER) == bs;
    CoalesceCorrect(bs, 0, lo, hi);
    CanonicalForm(CoalesceFrom(bs, 0), bs, lo, hi);
  }

  /** Releasing a pointer twice in a row is releasing it once. */
  lemma FreeTwice(bs: seq<Block>, k: nat, lo: nat, hi: nat)
    requires Proper(bs, lo, hi) && k < |bs| && !bs[k].free
    ensures var ptr := bs[k].addr + HEADER; var c := Free(bs, ptr); !IsLive(c, ptr) && Free(c, ptr) == c
  {
    hide Tiles, Live, Aligned, NoAdjacentFree, Free;
    var ptr := bs[k].addr + HEADER;
    var c := Free(bs, ptr);
    FreeCorrect(bs, k, lo, hi);
    TilesGrow(bs, lo, hi);
    assert bs[k] in bs;
    TilesNonEmpty(c, lo, hi);
    LiveSorted(bs, lo, hi);
    OneOfItsKind(Live(bs[..k]), bs[k], Live(bs[k + 1..]));
    forall i | 0 <= i < |c| && !c[i].free ensures c[i].addr + HEADER != ptr {
      LiveHolds(c, i);
    }
    FreeOfOther(c, ptr, lo, hi);
  }

  lemma {:induction false} LiveHolds(bs: seq<Block>, i: nat)
    requires i < |bs| && !bs[i].free
    ensures bs[i] in Live(bs)
  {
    if i > 0 {
      LiveHolds(bs[1..], i - 1);
    }
  }

  /** kfree directly after a successful kmalloc restores the block list exactly. */
  lemma FreeUndoesMalloc(bs: seq<Block>, size: nat, lo: nat, hi: nat)
    requires Proper(bs, lo, hi) && Malloc(bs, size).1 != 0
    ensures var (bs', ptr) := Malloc(bs, size); Free(bs', ptr) == bs
  {
    var n := Align16(size);
    AlignedSize(size);
    var k := MallocFinds(bs, 0, n);
    var c := Carve(bs, k, n);
    CarveCorrect(bs, k, n, lo, hi);
    FreeCorrect(c, k, lo, hi);
    assert c[..k] == bs[..k];
    CancelMiddle(Live(bs[..k]), c[k], Live(c[k + 1..]), Live(bs[k + 1..]));
    CanonicalForm(Free(c, c[k].addr + HEADER), bs, lo, hi);
  }

  lemma CancelMiddle(a: seq<Block>, b: Block, x: seq<Block>, y: seq<Block>)
    requires a + [b] + x == a + [b] + y
    ensures x == y
  {
    assert (a + [b] + x)[|a| + 1..] == x;
    assert (a + [b] + y)[|a| + 1..] == y;
  }

  // ---------- First fit, seen from the live blocks alone ----------

  /** The lowest gap of at least `need` bytes in [lo, hi) between the given allocations. */
  function FirstGap(live: seq<Block>, lo: nat, hi: nat, need: nat): (g: int) {
    if live == [] then if hi - lo >= need then lo else -1
    else if live[0].addr - lo >= need then lo
    else FirstGap(live[1..], live[0].End(), hi, need)
  }

  /** Gap i lies before allocation i, the last one before the end of the region. */
  function GapStart(live: seq<Block>, lo: nat, i: nat): nat
    requires i <= |live|
  {
    if i == 0 then lo else live[i - 1].End()
  }

  function GapEnd(live: seq<Block>, hi: nat, i: nat): nat
    requires i <= |live|
  {
    if i == |live| then hi else live[i].addr
  }

  /** FirstGap finds the first gap that is large enough, and nothing only when no gap is. */
  lemma {:induction false} FirstGapMeaning(live: seq<Block>, lo: nat, hi: nat, need: nat)
    ensures var g := FirstGap(live, lo, hi, need);
            && (g == -1 <==> forall i: nat :: i <= |live| ==> GapEnd(live, hi, i) - GapStart(live, lo, i) < need)
            && (g != -1 ==> exists i: nat ::
                  && i <= |live| && g == GapStart(live, lo, i) && GapEnd(live, hi, i) - GapStart(live, lo, i) >= need
                  && forall j: nat :: j < i ==> GapEnd(live, hi, j) - GapStart(live, lo, j) < need)
  {
    var g := FirstGap(live, lo, hi, need);
    if live == [] || live[0].addr - lo >= need {
      assert GapEnd(live, hi, 0) - GapStart(live, lo, 0) >= need <==> g == lo;
    } else {
      var rest, lo' := live[1..], live[0].End();
      FirstGapMeaning(rest, lo', hi, need);
      assert forall i: nat :: i <= |rest| ==>
        GapEnd(rest, hi, i) == GapEnd(live, hi, i + 1) && GapStart(rest, lo', i) == GapStart(live, lo, i + 1);
      if g != -1 {
        var i: nat :| i <= |rest| && g == GapStart(rest, lo', i) && GapEnd(rest, hi, i) - GapStart(rest, lo', i) >= need
          && forall j: nat :: j < i ==> GapEnd(rest, hi, j) - GapStart(rest, lo', j) < need;
        assert g == GapStart(live, lo, i + 1);
        forall j: nat | j < i + 1 ensures GapEnd(live, hi, j) - GapStart(live, lo, j) < need {
          if j > 0 {
            assert GapEnd(rest, hi, j - 1) - GapStart(rest, lo', j - 1) < need;
          }
        }
      } else {
        forall j: nat | j <= |live| ensures GapEnd(live, hi, j) - GapStart(live, lo, j) < need {
          if j > 0 {
            assert GapEnd(rest, hi, j - 1) - GapStart(rest, lo', j - 1) < need;
          }
        }
      }
    }
  }

  lemma {:induction false} MallocTakesFirstGap(bs: seq<Block>, k: nat, n: nat, lo: nat, hi: nat)
    requires Proper(bs, lo, hi) && k <= |bs|
    ensures var g := FirstGap(Live(bs[k..]), StartOf(bs, k, hi), hi, HEADER + n);
            MallocFrom(bs, k, n).1 == if g == -1 then 0 else g + HEADER
    decreases |bs| - k
  {
    if k < |bs| {
      assert bs[k..][0] == bs[k] && bs[k..][1..] == bs[k + 1..];
      TilesSplit(bs, k, lo, hi);
      TilesNext(bs, k, lo, hi);
      MallocTakesFirstGap(bs, k + 1, n, lo, hi);
      var rest := Live(bs[k + 1..]);
      assert Live(bs[k..]) == if bs[k].free then rest else [bs[k]] + rest;
      if k + 1 < |bs| {
        assert bs[k + 1..][0] == bs[k + 1];
      } else {
        assert bs[k + 1..] == [] && rest == [];
      }
      if !bs[k].free {
        assert Live(bs[k..])[1..] == rest;
      }
    }
  }

  /** kmalloc takes the lowest gap between live blocks that holds the header and the aligned size, and
      returns NULL, changing nothing, exactly when there is none or no size is asked for. */
  lemma FirstFit(bs: seq<Block>, size: nat, lo: nat, hi: nat)
    requires Proper(bs, lo, hi)
    ensures var g := FirstGap(Live(bs), lo, hi, HEADER + Align16(size));
            Malloc(bs, size).1 == if size == 0 || g == -1 then 0 else g + HEADER
    ensures Malloc(bs, size).1 == 0 ==> Malloc(bs, size).0 == bs
  {
    assert bs[0..] == bs;
    MallocTakesFirstGap(bs, 0, Align16(size), lo, hi);
    var _ := MallocFinds(bs, 0, Align16(size));
  }

  // ---------- Runs ----------

  datatype Op = Take(size: nat) | Give(ptr: nat)

  /** The block list, and the size asked for at each live pointer. */
  datatype Heap = Heap(blocks: seq<Block>, requests: map<nat, nat>)

  function InitialBlocks(start: nat): seq<Block> { [Block(start, HEAP_SIZE - HEADER, true)] }

  function Init(start: nat): Heap { Heap(InitialBlocks(start), map[]) }

  function Step(h: Heap, op: Op): Heap {
    match op
    case Take(size) =>
      var (bs, ptr) := Malloc(h.blocks, size);
      Heap(bs, if ptr == 0 then h.requests else h.requests[ptr := size])
    case Give(ptr) => Heap(Free(h.blocks, ptr), h.requests - {ptr})
  }

  ghost predicate Sized(b: Block, requests: map<nat, nat>) {
    && b.addr + HEADER in requests
    && var n := Align16(requests[b.addr + HEADER]); n <= b.size <= n + SPLIT_MIN
  }

  ghost predicate Covered(p: nat, l: seq<Block>) { exists b :: b in l && b.addr + HEADER == p }

  ghost predicate HeapInv(h: Heap, start: nat) {
    && start > 0 && h.blocks != [] && Proper(h.blocks, start, start + HEAP_SIZE)
    && (forall b :: b in Live(h.blocks) ==> Sized(b, h.requests))
    && (forall p :: p in h.requests ==> Covered(p, Live(h.blocks)))
  }

  predicate Allowed(h: Heap, op: Op) { op.Give? ==> op.ptr in h.requests }

  lemma {:induction false} LiveSorted(bs: seq<Block>, lo: nat, hi: nat)
    requires Tiles(bs, lo, hi)
    ensures var l := Live(bs);
            && (forall i, j :: 0 <= i < j < |l| ==> l[i].End() <= l[j].addr)
            && (forall b :: b in l ==> b in bs && !b.free && lo <= b.addr && b.End() <= hi)
  {
    if bs != [] {
      LiveSorted(bs[1..], bs[0].End(), hi);
      TilesGrow(bs, lo, hi);
    }
  }

  lemma {:induction false} TilesNonEmpty(bs: seq<Block>, lo: nat, hi: nat)
    requires Tiles(bs, lo, hi) && lo < hi
    ensures bs != []
  {
  }

  /** In a list of blocks in address order, b has an address of its own. */
  lemma OneOfItsKind(a: seq<Block>, b: Block, c: seq<Block>)
    requires var l := a + [b] + c; forall i, j :: 0 <= i < j < |l| ==> l[i].End() <= l[j].addr
    ensures forall x :: x in a + [b] + c <==> x == b || x in a + c
    ensures forall x :: x in a + c ==> x.addr != b.addr
  {
    var l := a + [b] + c;
    assert l[|a|] == b;
    forall x | x in a + c ensures x in l && x.addr != b.addr {
      var j :| 0 <= j < |a + c| && (a + c)[j] == x;
      var i := if j < |a| then j else j + 1;
      assert l[i] == x && i != |a|;
    }
  }

  lemma SizedElsewhere(x: Block, requests: map<nat, nat>, p: nat, size: nat)
    requires Sized(x, requests) && x.addr + HEADER != p
    ensures Sized(x, requests[p := size]) && Sized(x, requests - {p})
  {
  }

  /** The bookkeeping of one request: block b joins the live blocks l. */
  lemma RequestAdded(l: seq<Block>, l': seq<Block>, requests: map<nat, nat>, b: Block, size: nat)
    requires forall x :: x in l' <==> x == b || x in l
    requires forall x :: x in l ==> x.addr != b.addr && Sized(x, requests)
    requires forall p :: p in requests ==> Covered(p, l)
    requires Align16(size) <= b.size <= Align16(size) + SPLIT_MIN
    ensures var r := requests[b.addr + HEADER := size];
            && (forall x :: x in l' ==> Sized(x, r))
            && (forall p :: p in r ==> Covered(p, l'))
            && b.addr + HEADER !in requests
  {
    hide Align16, Sized;
    var r := requests[b.addr + HEADER := size];
    forall x | x in l' ensures Sized(x, r) {
      if x == b {
        SizedByRequest(b, r, size);
      } else {
        SizedElsewhere(x, requests, b.addr + HEADER, size);
      }
    }
    forall p | p in r ensures Covered(p, l') {
      if p == b.addr + HEADER {
        assert b in l';
      } else {
        var x :| x in l && x.addr + HEADER == p;
        assert x in l';
      }
    }
    assert !Covered(b.addr + HEADER, l);
  }

  lemma SizedByRequest(b: Block, requests: map<nat, nat>, size: nat)
    requires b.addr + HEADER in requests && requests[b.addr + HEADER] == size
    requires Align16(size) <= b.size <= Align16(size) + SPLIT_MIN
    ensures Sized(b, requests)
  {
  }

  lemma RequestRemoved(l: seq<Block>, l': seq<Block>, requests: map<nat, nat>, b: Block)
    requires forall x :: x in l <==> x == b || x in l'
    requires forall x :: x in l' ==> x.addr != b.addr
    requires forall x :: x in l ==> Sized(x, requests)
    requires forall p :: p in requests ==> Covered(p, l)
    ensures var r := requests - {b.addr + HEADER};
            && (forall x :: x in l' ==> Sized(x, r))
            && (forall p :: p in r ==> Covered(p, l'))
  {
    hide Align16, Sized;
    var r := requests - {b.addr + HEADER};
    forall x | x in l' ensures Sized(x, r) {
      SizedElsewhere(x, requests, b.addr + HEADER, 0);
    }
    forall p | p in r ensures Covered(p, l') {
      assert Covered(p, l);
      var x :| x in l && x.addr + HEADER == p;
      assert x in l';
    }
  }

  lemma TakeKeepsInv(h: Heap, size: nat, start: nat)
    requires HeapInv(h, start)
    ensures HeapInv(Step(h, Take(size)), start)
    ensures forall b :: b in Live(h.blocks) ==> b in Live(Step(h, Take(size)).blocks)
    ensures var ptr := Malloc(h.blocks, size).1; ptr != 0 ==> ptr !in h.requests
  {
    hide Live, Tiles, Sized, Aligned, NoAdjacentFree, Carve, Align16, MallocFrom, Covered;
    var bs, hi := h.blocks, start + HEAP_SIZE;
    if size > 0 {
      var n := Align16(size);
      AlignedSize(size);
      var k := MallocFinds(bs, 0, n);
      if k < |bs| {
        CarveCorrect(bs, k, n, start, hi);
        var c := Carve(bs, k, n);
        LiveSorted(c, start, hi);
        OneOfItsKind(Live(bs[..k]), c[k], Live(bs[k + 1..]));
        RequestAdded(Live(bs), Live(c), h.requests, c[k], size);
      }
    }
  }

  lemma GiveKeepsInv(h: Heap, ptr: nat, start: nat)
    requires HeapInv(h, start) && ptr in h.requests
    ensures HeapInv(Step(h, Give(ptr)), start)
    ensures forall b :: b in Live(h.blocks) && b.addr + HEADER != ptr ==> b in Live(Step(h, Give(ptr)).blocks)
  {
    hide Live, Tiles, Sized, Aligned, NoAdjacentFree, Free;
    var bs, hi := h.blocks, start + HEAP_SIZE;
    LiveSorted(bs, start, hi);
    assert Covered(ptr, Live(bs));
    var b :| b in Live(bs) && b.addr + HEADER == ptr;
    var k :| 0 <= k < |bs| && bs[k] == b;
    FreeCorrect(bs, k, start, hi);
    var bs' := Free(bs, ptr);
    TilesNonEmpty(bs', start, hi);
    OneOfItsKind(Live(bs[..k]), b, Live(bs[k + 1..]));
    RequestRemoved(Live(bs), Live(bs'), h.requests, b);
  }

  function Run(h: Heap, ops: seq<Op>): Heap
    decreases |ops|
  {
    if ops == [] then h else Run(Step(h, ops[0]), ops[1..])
  }

  /** Every release in the run is of a pointer that is live at that point. */
  predicate Disciplined(h: Heap, ops: seq<Op>)
    decreases |ops|
  {
    ops == [] || (Allowed(h, ops[0]) && Disciplined(Step(h, ops[0]), ops[1..]))
  }

  lemma {:induction false} RunsKeepInv(h: Heap, ops: seq<Op>, start: nat)
    requires HeapInv(h, start) && Disciplined(h, ops)
    ensures HeapInv(Run(h, ops), start)
    decreases |ops|
  {
    hide HeapInv, Step;
    if ops != [] {
      if ops[0].Take? {
        TakeKeepsInv(h, ops[0].size, start);
      } else {
        GiveKeepsInv(h, ops[0].ptr, start);
      }
      RunsKeepInv(Step(h, ops[0]), ops[1..], start);
    }
  }

  function TotalSize(bs: seq<Block>): nat {
    if bs == [] then 0 else HEADER + bs[0].size + TotalSize(bs[1..])
  }

  lemma {:induction false} TilesTotal(bs: seq<Block>, lo: nat, hi: nat)
    requires Tiles(bs, lo, hi)
    ensures TotalSize(bs) == hi - lo
  {
    if bs != [] {
      TilesTotal(bs[1..], bs[0].End(), hi);
    }
  }

  lemma InitIsProper(start: nat)
    requires start > 0 && start % 8 == 0
    ensures HeapInv(Init(start), start)
  {
    OneBlock(InitialBlocks(start)[0]);
  }

  /** A block for n bytes: a 64-bit n fits exactly when n + 15 does not wrap, and then at most 55 bytes are
      wasted; otherwise the block has at most 40 bytes. */
  predicate SizeServes(size: nat, n: nat) {
    && (n < TWO_64 ==> (n <= size <==> n + 15 < TWO_64))
    && (n + 15 < TWO_64 ==> size <= n + 55)
    && (n < TWO_64 <= n + 15 ==> size <= SPLIT_MIN)
  }

  lemma AlignedServes(size: nat, n: nat)
    requires Align16(n) <= size <= Align16(n) + SPLIT_MIN
    ensures SizeServes(size, n)
  {
    AlignedSize(n);
    if n < TWO_64 <= n + 15 {
      assert (n + 15) % TWO_64 == n + 15 - TWO_64;
    }
  }

  /** Pointer p, asked for with n bytes, is the 8-aligned payload of a live block that serves the request. */
  ghost predicate Served(p: nat, n: nat, l: seq<Block>) {
    exists b :: b in l && b.addr + HEADER == p && p % 8 == 0 && SizeServes(b.size, n)
  }

  lemma CoveredBy(p: nat, l: seq<Block>) returns (b: Block)
    requires Covered(p, l)
    ensures b in l && b.addr + HEADER == p
  {
    b :| b in l && b.addr + HEADER == p;
  }

  lemma SizedServes(b: Block, requests: map<nat, nat>, l: seq<Block>)
    requires b in l && Sized(b, requests) && b.addr % 8 == 0
    ensures Served(b.addr + HEADER, requests[b.addr + HEADER], l)
  {
    hide SizeServes, Align16;
    AlignedServes(b.size, requests[b.addr + HEADER]);
  }

  lemma InvServes(h: Heap, start: nat, p: nat)
    requires HeapInv(h, start) && p in h.requests
    ensures Served(p, h.requests[p], Live(h.blocks))
  {
    hide Tiles, NoAdjacentFree, Align16, Live, Covered, Served, Sized;
    var b := CoveredBy(p, Live(h.blocks));
    LiveSorted(h.blocks, start, start + HEAP_SIZE);
    SizedServes(b, h.requests, Live(h.blocks));
  }

  /** After every disciplined run from kheap_init: the blocks fill the 4 MiB exactly; every live pointer has
      its own 8-aligned payload, which overlaps no other and holds between n and n + 55 bytes for a request
      of n exactly when n + 15 does not wrap; and once nothing is live the list is the initial single block. */
  lemma ReachableHeaps(start: nat, ops: seq<Op>)
    requires start > 0 && start % 8 == 0 && Disciplined(Init(start), ops)
    ensures var h := Run(Init(start), ops); var l := Live(h.blocks);
            && Proper(h.blocks, start, start + HEAP_SIZE) && TotalSize(h.blocks) == 0x40_0000
            && (forall p :: p in h.requests ==> Served(p, h.requests[p], l))
            && (forall b :: b in l ==> b.addr + HEADER in h.requests && start <= b.addr && b.End() <= start + HEAP_SIZE)
            && (forall i, j :: 0 <= i < j < |l| ==> l[i].End() <= l[j].addr)
            && (h.requests == map[] ==> h.blocks == InitialBlocks(start))
  {
    hide Live, Tiles, NoAdjacentFree, Aligned, Served, Covered, Sized, Run;
    InitIsProper(start);
    RunsKeepInv(Init(start), ops, start);
    var h := Run(Init(start), ops);
    InvMeaning(h, start);
  }

  lemma InvMeaning(h: Heap, start: nat)
    requires HeapInv(h, start) && start % 8 == 0
    ensures var l := Live(h.blocks);
            && TotalSize(h.blocks) == 0x40_0000
            && (forall p :: p in h.requests ==> Served(p, h.requests[p], l))
            && (forall b :: b in l ==> b.addr + HEADER in h.requests && start <= b.addr && b.End() <= start + HEAP_SIZE)
            && (forall i, j :: 0 <= i < j < |l| ==> l[i].End() <= l[j].addr)
            && (h.requests == map[] ==> h.blocks == InitialBlocks(start))
  {
    hide Live, Tiles, NoAdjacentFree, Align16, Served, Covered;
    var hi := start + HEAP_SIZE;
    TilesTotal(h.blocks, start, hi);
    LiveSorted(h.blocks, start, hi);
    var l := Live(h.blocks);
    forall p | p in h.requests ensures Served(p, h.requests[p], l) {
      InvServes(h, start, p);
    }
    forall b | b in l ensures b.addr + HEADER in h.requests {
      assert Sized(b, h.requests);
    }
    if h.requests == map[] {
      NothingLive(h.blocks, start);
    }
  }

  lemma NothingLive(bs: seq<Block>, start: nat)
    requires Proper(bs, start, start + HEAP_SIZE)
    requires forall b :: b !in Live(bs)
    ensures bs == InitialBlocks(start)
  {
    var i := InitialBlocks(start);
    OneBlock(i[0]);
    assert |Live(bs)| > 0 ==> Live(bs)[0] in Live(bs);
    CanonicalForm(bs, i, start, start + HEAP_SIZE);
  }

  /** The live block behind a pointer from kmalloc is large enough exactly when aligning the size did not wrap. */
  lemma MallocServes(bs: seq<Block>, size: nat, lo: nat, hi: nat) returns (k: nat)
    requires Proper(bs, lo, hi) && Malloc(bs, size).1 != 0 && size < TWO_64
    ensures var (bs', ptr) := Malloc(bs, size);
            && k < |bs'| && bs'[k].addr + HEADER == ptr && !bs'[k].free
            && (bs'[k].size >= size <==> size + 15 < TWO_64)
            && (size + 15 >= TWO_64 ==> bs'[k].size <= SPLIT_MIN)
  {
    hide Proper, Carve, Align16;
    AlignedSize(size);
    k := MallocFinds(bs, 0, Align16(size));
    CarveCorrect(bs, k, Align16(size), lo, hi);
    AlignedServes(Carve(bs, k, Align16(size))[k].size, size);
  }

  /** The exact split: from the free block that kmalloc takes, the caller gets the aligned size when more than 40
      bytes remain, and they, less a header of 24, become a free block behind it; otherwise it gets the whole. */
  lemma SplitExact(bs: seq<Block>, size: nat, lo: nat, hi: nat) returns (k: nat)
    requires Proper(bs, lo, hi) && Malloc(bs, size).1 != 0
    ensures var (bs', ptr) := Malloc(bs, size); var n := Align16(size);
            && k < |bs| && bs[k].free && bs[k].addr + 24 == ptr && n <= bs[k].size
            && |bs| <= |bs'| && bs'[..k] == bs[..k]
            && (if bs[k].size - n > 40 then
                  && |bs'| == |bs| + 1
                  && bs'[k] == Block(bs[k].addr, n, false)
                  && bs'[k + 1] == Block(ptr + n, bs[k].size - n - 24, true)
                  && bs'[k + 2..] == bs[k + 1..]
                else |bs'| == |bs| && bs'[k] == bs[k].(free := false) && bs'[k + 1..] == bs[k + 1..])
  {
    hide Proper, Align16;
    k := MallocFinds(bs, 0, Align16(size));
  }

  /** The first request of a fresh heap, for 2^64 - 1 bytes: kmalloc answers with a block of 0 bytes. */
  lemma WrappedRequest(start: nat)
    ensures Malloc(InitialBlocks(start), TWO_64 - 1) ==
            ([Block(start, 0, false), Block(start + HEADER, HEAP_SIZE - 2 * HEADER, true)], start + HEADER)
  {
    var bs := InitialBlocks(start);
    assert Align16(TWO_64 - 1) == 0;
    assert Fits(bs[0], 0) && bs[0].size > SPLIT_MIN && bs[..0] == [] && bs[1..] == [];
    assert Carve(bs, 0, 0) == [Block(start, 0, false), Block(start + HEADER, HEAP_SIZE - 2 * HEADER, true)];
  }

  /** No other operation moves, resizes or releases a live block. */
  lemma LiveBlocksStay(h: Heap, op: Op, start: nat, b: Block)
    requires HeapInv(h, start) && Allowed(h, op) && b in Live(h.blocks) && op != Give(b.addr + HEADER)
    ensures b in Live(Step(h, op).blocks)
  {
    hide HeapInv, Step, Live;
    if op.Take? {
      TakeKeepsInv(h, op.size, start);
    } else {
      GiveKeepsInv(h, op.ptr, start);
    }
  }
}
