/** The MesaFS read path: block-wise reading and path resolution over readable blocks and inodes. */
module MesaFs {
  import opened Words

  const BLOCK_SIZE: nat := 4096
  const DIRECT_BLOCKS: nat := 10
  const TYPE_FILE: nat := 1
  const TYPE_DIR: nat := 2

  datatype Inode = Inode(kind: nat, size: nat, blocksUsed: nat, direct: seq<nat>)

  datatype Dirent = Dirent(inode: nat, nameLen: nat, name: string)

  /** What the disk yields: an absent key is a read that fails. A directory block is given by its entries. */
  datatype Volume = Volume(root: nat, inodes: map<nat, Inode>, blocks: map<nat, seq<nat>>, dirs: map<nat, seq<Dirent>>)

  predicate IsInode(n: Inode) { |n.direct| == DIRECT_BLOCKS && n.size < TWO_32 }

  /** Blocks are 4096 bytes, directory blocks hold 64 entries, and names fit their field without a terminator. */
  ghost predicate IsVolume(v: Volume) {
    && (forall i :: i in v.inodes ==> IsInode(v.inodes[i]))
    && (forall b :: b in v.blocks ==> |v.blocks[b]| == BLOCK_SIZE)
    && (forall b :: b in v.dirs ==> |v.dirs[b]| == 64 && forall e :: e in v.dirs[b] ==> IsDirent(e))
  }

  predicate IsDirent(e: Dirent) {
    |e.name| == 58 && e.nameLen <= 58 && forall j :: 0 <= j < e.nameLen ==> e.name[j] != '\0'
  }

  datatype Result = Failed | Data(bytes: seq<nat>)

  // ---------- Reading ----------

  /** The block loop from block `index` and offset `within` it; no more than `remaining` bytes. */
  function ReadLoop(v: Volume, n: Inode, index: nat, within: nat, remaining: nat): Result
    requires IsVolume(v) && IsInode(n) && within < BLOCK_SIZE
    decreases n.blocksUsed - index
  {
    if remaining == 0 || index >= n.blocksUsed || index >= DIRECT_BLOCKS || n.direct[index] == 0 then Data([])
    else if n.direct[index] !in v.blocks then Failed
    else
      var size := Min(BLOCK_SIZE - within, remaining);
      match ReadLoop(v, n, index + 1, 0, remaining - size)
      case Failed => Failed
      case Data(rest) => Data(v.blocks[n.direct[index]][within..within + size] + rest)
  }

  /** The count limited to the file size; the sum is a 64-bit word. */
  function Limit(n: Inode, count: nat, offset: nat): nat
    requires offset < n.size
  {
    if (offset + count) % TWO_64 > n.size then n.size - offset else count
  }

  function Read(v: Volume, ino: nat, count: nat, offset: nat): Result
    requires IsVolume(v)
  {
    if ino == 0 || ino !in v.inodes || v.inodes[ino].kind != TYPE_FILE then Failed
    else if offset >= v.inodes[ino].size then Data([])
    else ReadLoop(v, v.inodes[ino], offset / BLOCK_SIZE, offset % BLOCK_SIZE, Limit(v.inodes[ino], count, offset))
  }

  // ---------- What a read means ----------

  predicate Stops(n: Inode, k: nat)
    requires IsInode(n)
  {
    k >= n.blocksUsed || k >= DIRECT_BLOCKS || n.direct[k] == 0
  }

  /** The first block at or after k where reading stops. */
  function StopBlock(n: Inode, k: nat): (s: nat)
    requires IsInode(n)
    ensures k <= s && Stops(n, s) && forall i :: k <= i < s ==> !Stops(n, i)
    ensures s <= DIRECT_BLOCKS || s == k
    decreases DIRECT_BLOCKS - k
  {
    if Stops(n, k) then k else StopBlock(n, k + 1)
  }

  /** The bytes from `offset` up to the stop. */
  function Available(n: Inode, offset: nat): nat
    requires IsInode(n)
  {
    var stop := StopBlock(n, offset / BLOCK_SIZE) * BLOCK_SIZE;
    if stop >= offset then stop - offset else 0
  }

  predicate Readable(v: Volume, n: Inode, k: nat)
    requires IsInode(n)
  {
    !Stops(n, k) ==> n.direct[k] in v.blocks
  }

  /** Byte `pos` of the concatenated direct blocks, or -1 where there is none to read. */
  function ByteAt(v: Volume, n: Inode, pos: nat): int
    requires IsVolume(v) && IsInode(n)
  {
    var k := pos / BLOCK_SIZE;
    if Stops(n, k) || n.direct[k] !in v.blocks then -1 else v.blocks[n.direct[k]][pos % BLOCK_SIZE]
  }

  /** bytes are the file's bytes from `offset` on. */
  ghost predicate Slice(v: Volume, n: Inode, offset: nat, bytes: seq<nat>)
    requires IsVolume(v) && IsInode(n)
  {
    forall i :: 0 <= i < |bytes| ==> bytes[i] == ByteAt(v, n, offset + i)
  }

  /** Some block that holds one of the `size` bytes from `offset` on cannot be read. */
  ghost predicate Broken(v: Volume, n: Inode, offset: nat, size: nat)
    requires IsInode(n)
  {
    size > 0 && exists k: nat :: offset / BLOCK_SIZE <= k && k * BLOCK_SIZE < offset + size && !Readable(v, n, k)
  }

  lemma BrokenStep(v: Volume, n: Inode, index: nat, within: nat, here: nat, rest: nat)
    requires IsInode(n) && within < BLOCK_SIZE && 0 < here <= BLOCK_SIZE - within && Readable(v, n, index)
    requires rest > 0 ==> here == BLOCK_SIZE - within
    ensures Broken(v, n, index * BLOCK_SIZE + within, here + rest) <==> Broken(v, n, (index + 1) * BLOCK_SIZE, rest)
  {
    hide Readable;
    var offset, next := index * BLOCK_SIZE + within, (index + 1) * BLOCK_SIZE;
    assert offset / BLOCK_SIZE == index && next / BLOCK_SIZE == index + 1;
    if Broken(v, n, offset, here + rest) {
      var k: nat :| index <= k && k * BLOCK_SIZE < offset + here + rest && !Readable(v, n, k);
      assert index + 1 <= k && rest > 0 && k * BLOCK_SIZE < next + rest;
    }
    if Broken(v, n, next, rest) {
      var k: nat :| index + 1 <= k && k * BLOCK_SIZE < next + rest && !Readable(v, n, k);
      assert k * BLOCK_SIZE < offset + here + rest;
    }
  }

  lemma SliceStep(v: Volume, n: Inode, index: nat, within: nat, here: nat, tail: seq<nat>)
    requires IsVolume(v) && IsInode(n) && !Stops(n, index) && Readable(v, n, index)
    requires within < BLOCK_SIZE && here <= BLOCK_SIZE - within
    requires tail != [] ==> here == BLOCK_SIZE - within
    requires Slice(v, n, (index + 1) * BLOCK_SIZE, tail)
    ensures Slice(v, n, index * BLOCK_SIZE + within, v.blocks[n.direct[index]][within..within + here] + tail)
  {
    var offset, next := index * BLOCK_SIZE + within, (index + 1) * BLOCK_SIZE;
    var head := v.blocks[n.direct[index]][within..within + here];
    forall i | 0 <= i < |head + tail|
      ensures (head + tail)[i] == ByteAt(v, n, offset + i)
    {
      if i < here {
        assert (offset + i) / BLOCK_SIZE == index && (offset + i) % BLOCK_SIZE == within + i;
      } else {
        assert offset + i == next + (i - here);
        assert (head + tail)[i] == tail[i - here] == ByteAt(v, n, next + (i - here));
      }
    }
  }

  lemma AvailableStep(n: Inode, index: nat, within: nat)
    requires IsInode(n) && within < BLOCK_SIZE
    ensures Available(n, index * BLOCK_SIZE + within) ==
            if Stops(n, index) then 0 else BLOCK_SIZE - within + Available(n, (index + 1) * BLOCK_SIZE)
  {
    var offset, next := index * BLOCK_SIZE + within, (index + 1) * BLOCK_SIZE;
    assert offset / BLOCK_SIZE == index && next / BLOCK_SIZE == index + 1;
  }

  lemma {:induction false} LoopMeaning(v: Volume, n: Inode, index: nat, within: nat, remaining: nat)
    requires IsVolume(v) && IsInode(n) && within < BLOCK_SIZE
    ensures var offset := index * BLOCK_SIZE + within;
            var size := Min(remaining, Available(n, offset));
            match ReadLoop(v, n, index, within, remaining)
            case Failed => Broken(v, n, offset, size)
            case Data(bytes) => !Broken(v, n, offset, size) && |bytes| == size && Slice(v, n, offset, bytes)
    decreases n.blocksUsed - index
  {
    hide Available, Slice;
    var offset := index * BLOCK_SIZE + within;
    var size := Min(remaining, Available(n, offset));
    AvailableStep(n, index, within);
    EmptySlice(v, n, offset);
    if remaining > 0 && !Stops(n, index) {
      if n.direct[index] !in v.blocks {
        assert offset / BLOCK_SIZE == index && !Readable(v, n, index);
      } else {
        hide Broken, Readable;
        var here := Min(BLOCK_SIZE - within, remaining);
        LoopMeaning(v, n, index + 1, 0, remaining - here);
        assert Readable(v, n, index) by { IsReadable(v, n, index); }
        var next := (index + 1) * BLOCK_SIZE;
        var rest := Min(remaining - here, Available(n, next));
        assert size == here + rest;
        BrokenStep(v, n, index, within, here, rest);
        match ReadLoop(v, n, index + 1, 0, remaining - here)
        case Failed =>
        case Data(tail) => SliceStep(v, n, index, within, here, tail);
      }
    }
  }

  lemma IsReadable(v: Volume, n: Inode, k: nat)
    requires IsInode(n) && k < DIRECT_BLOCKS && n.direct[k] in v.blocks
    ensures Readable(v, n, k)
  {
  }

  lemma EmptySlice(v: Volume, n: Inode, offset: nat)
    requires IsVolume(v) && IsInode(n)
    ensures Slice(v, n, offset, []) && !Broken(v, n, offset, 0)
  {
  }

  /** A read of a file yields exactly the bytes from `offset` on, as many as the limited count, the file and
      the blocks before the first stop allow, and fails exactly when one of their blocks cannot be read. */
  lemma ReadMeaning(v: Volume, ino: nat, count: nat, offset: nat)
    requires IsVolume(v) && ino != 0 && ino in v.inodes && v.inodes[ino].kind == TYPE_FILE && offset < v.inodes[ino].size
    ensures var n := v.inodes[ino];
            var size := Min(Limit(n, count, offset), Available(n, offset));
            match Read(v, ino, count, offset)
            case Failed => Broken(v, n, offset, size)
            case Data(bytes) => !Broken(v, n, offset, size) && |bytes| == size && Slice(v, n, offset, bytes)
  {
    LoopMeaning(v, v.inodes[ino], offset / BLOCK_SIZE, offset % BLOCK_SIZE, Limit(v.inodes[ino], count, offset));
  }

  /** When a read fails: without a file, or when one of the blocks that hold its bytes cannot be read. At the end of
      the file and behind it there is nothing to read. */
  lemma ReadOutcome(v: Volume, ino: nat, count: nat, offset: nat)
    requires IsVolume(v)
    ensures var file := ino != 0 && ino in v.inodes && v.inodes[ino].kind == 1;
            && (Read(v, ino, count, offset) == Failed <==>
                  || !file
                  || (offset < v.inodes[ino].size && var n := v.inodes[ino];
                      Broken(v, n, offset, Min(Limit(n, count, offset), Available(n, offset)))))
            && (file && offset >= v.inodes[ino].size ==> Read(v, ino, count, offset) == Data([]))
  {
    hide ReadLoop, Broken;
    if ino != 0 && ino in v.inodes && v.inodes[ino].kind == TYPE_FILE && offset < v.inodes[ino].size {
      ReadMeaning(v, ino, count, offset);
    }
  }

  lemma AvailableBound(n: Inode, offset: nat)
    requires IsInode(n)
    ensures Available(n, offset) <= DIRECT_BLOCKS * BLOCK_SIZE
  {
  }

  /** The length is the minimum of count, the rest of the file and the bytes before the stop, except when
      offset + count wraps and the blocks reach beyond the file size: then bytes behind the end are returned. */
  lemma SizeLimitHolds(n: Inode, count: nat, offset: nat)
    requires IsInode(n) && offset < n.size && count < TWO_64
    ensures Min(Limit(n, count, offset), Available(n, offset)) == Min(Min(count, n.size - offset), Available(n, offset)) <==>
            offset + count < TWO_64 || Available(n, offset) <= n.size - offset
  {
    AvailableBound(n, offset);
  }

  /** A file of 100 bytes in one block, read from offset 1 with the largest count: the sum wraps to 0, and the read
      returns 4095 bytes where the file has 99 left. */
  lemma ReadPastEnd(v: Volume, ino: nat)
    requires IsVolume(v) && ino != 0 && ino in v.inodes && 7 in v.blocks
    requires v.inodes[ino] == Inode(TYPE_FILE, 100, 1, [7, 0, 0, 0, 0, 0, 0, 0, 0, 0])
    ensures Read(v, ino, TWO_64 - 1, 1) == Data(v.blocks[7][1..]) && |v.blocks[7][1..]| == 4095
  {
    var n := v.inodes[ino];
    assert Limit(n, TWO_64 - 1, 1) == TWO_64 - 1;
    assert ReadLoop(v, n, 1, 0, TWO_64 - 1 - 4095) == Data([]);
    assert v.blocks[7][1..4096] + [] == v.blocks[7][1..];
  }

  // ---------- Back-to-back reads ----------

  lemma {:induction false} StopSkips(n: Inode, k: nat, m: nat)
    requires IsInode(n) && k <= m && forall i :: k <= i < m ==> !Stops(n, i)
    ensures StopBlock(n, k) == StopBlock(n, m)
    decreases m - k
  {
    if k < m {
      assert !Stops(n, k);
      StopSkips(n, k + 1, m);
    }
  }

  /** A prefix of the available bytes leaves the stop where it is. */
  lemma AvailableShrinks(n: Inode, offset: nat, size: nat)
    requires IsInode(n) && size <= Available(n, offset)
    ensures Available(n, offset + size) == Available(n, offset) - size
  {
    var k, m := offset / BLOCK_SIZE, (offset + size) / BLOCK_SIZE;
    var stop := StopBlock(n, k);
    if size > 0 {
      assert m <= stop;
      StopSkips(n, k, m);
    }
  }

  lemma SliceAppend(v: Volume, n: Inode, offset: nat, a: seq<nat>, b: seq<nat>)
    requires IsVolume(v) && IsInode(n) && Slice(v, n, offset, a) && Slice(v, n, offset + |a|, b)
    ensures Slice(v, n, offset, a + b)
  {
    hide ByteAt;
    forall i | 0 <= i < |a + b|
      ensures (a + b)[i] == ByteAt(v, n, offset + i)
    {
      if i >= |a| {
        assert (a + b)[i] == b[i - |a|] && offset + i == offset + |a| + (i - |a|);
      }
    }
  }

  lemma SliceUnique(v: Volume, n: Inode, offset: nat, a: seq<nat>, b: seq<nat>)
    requires IsVolume(v) && IsInode(n) && Slice(v, n, offset, a) && Slice(v, n, offset, b) && |a| == |b|
    ensures a == b
  {
    hide ByteAt;
    assert forall i :: 0 <= i < |a| ==> a[i] == b[i];
  }

  lemma BrokenSplits(v: Volume, n: Inode, offset: nat, a: nat, b: nat)
    requires IsInode(n) && Broken(v, n, offset, a + b)
    ensures Broken(v, n, offset, a) || Broken(v, n, offset + a, b)
  {
    hide Readable;
    var k: nat :| offset / BLOCK_SIZE <= k && k * BLOCK_SIZE < offset + a + b && !Readable(v, n, k);
    if a == 0 || !(k * BLOCK_SIZE < offset + a) {
      assert b > 0;
      assert (offset + a) / BLOCK_SIZE <= k;
    }
  }

  /** Two full back-to-back reads give the bytes of one larger read. */
  lemma ReadsConcatenate(v: Volume, ino: nat, offset: nat, c1: nat, c2: nat)
    requires IsVolume(v) && offset + c1 + c2 < TWO_64
    requires Read(v, ino, c1, offset).Data? && |Read(v, ino, c1, offset).bytes| == c1
    requires Read(v, ino, c2, offset + c1).Data? && |Read(v, ino, c2, offset + c1).bytes| == c2
    ensures Read(v, ino, c1 + c2, offset) == Data(Read(v, ino, c1, offset).bytes + Read(v, ino, c2, offset + c1).bytes)
  {
    hide Broken, Slice, Available, Read, IsVolume, IsInode, Limit;
    var a, b := Read(v, ino, c1, offset).bytes, Read(v, ino, c2, offset + c1).bytes;
    if c2 == 0 {
      assert b == [] && a + b == a;
    } else if c1 == 0 {
      assert a == [] && a + b == b;
    } else {
      BothInside(v, ino, offset, c1, c2);
      ReadMeaning(v, ino, c1, offset);
      ReadMeaning(v, ino, c2, offset + c1);
      ReadMeaning(v, ino, c1 + c2, offset);
      var n := v.inodes[ino];
      FullRead(n, c1, offset);
      FullRead(n, c2, offset + c1);
      AvailableShrinks(n, offset, c1);
      assert Min(Limit(n, c1 + c2, offset), Available(n, offset)) == c1 + c2 by {
        WithinLimit(n, offset, c1 + c2);
      }
      SliceAppend(v, n, offset, a, b);
      if Broken(v, n, offset, c1 + c2) {
        BrokenSplits(v, n, offset, c1, c2);
      } else {
        SliceUnique(v, n, offset, Read(v, ino, c1 + c2, offset).bytes, a + b);
      }
    }
  }

  lemma FullRead(n: Inode, count: nat, offset: nat)
    requires offset < n.size && offset + count < TWO_64 && IsInode(n)
    requires Min(Limit(n, count, offset), Available(n, offset)) == count
    ensures offset + count <= n.size && count <= Available(n, offset)
  {
  }

  lemma WithinLimit(n: Inode, offset: nat, count: nat)
    requires offset < n.size && offset + count <= n.size && n.size < TWO_32
    ensures Limit(n, count, offset) == count
  {
  }

  lemma BothInside(v: Volume, ino: nat, offset: nat, c1: nat, c2: nat)
    requires IsVolume(v) && c1 > 0 && c2 > 0
    requires Read(v, ino, c1, offset).Data? && |Read(v, ino, c1, offset).bytes| == c1
    requires Read(v, ino, c2, offset + c1).Data? && |Read(v, ino, c2, offset + c1).bytes| == c2
    ensures ino != 0 && ino in v.inodes && v.inodes[ino].kind == TYPE_FILE && offset + c1 < v.inodes[ino].size
    ensures IsInode(v.inodes[ino]) && v.inodes[ino].size < TWO_32
  {
  }

  function Prepend(out: seq<nat>, r: Result): Result {
    match r
    case Failed => Failed
    case Data(bytes) => Data(out + bytes)
  }

  /** The byte copy out of one block buffer. */
  method CopyRange(block: seq<nat>, from: nat, size: nat) returns (part: seq<nat>)
    requires from + size <= |block|
    ensures part == block[from..from + size]
  {
    part := [];
    for i := 0 to size
      invariant part == block[from..from + i]
    {
      part := part + [block[from + i]];
    }
  }

  /** mesafs_read; the result carries the bytes written to the buffer. */
  method ReadFile(fs: Option<Volume>, hasBuffer: bool, ino: nat, count: nat, offset: nat) returns (r: Result)
    requires fs.Some? ==> IsVolume(fs.value)
    ensures r == if fs == None || !hasBuffer then Failed else Read(fs.value, ino, count, offset)
  {
    if fs == None || !hasBuffer || ino == 0 {
      return Failed;
    }
    var v := fs.value;
    if ino !in v.inodes || v.inodes[ino].kind != TYPE_FILE {
      return Failed;
    }
    var n := v.inodes[ino];
    if offset >= n.size {
      return Data([]);
    }
    r := ReadBlocks(v, n, offset / BLOCK_SIZE, offset % BLOCK_SIZE, Limit(n, count, offset));
  }

  /** The block loop. */
  method ReadBlocks(v: Volume, n: Inode, first: nat, skip: nat, limit: nat) returns (r: Result)
    requires IsVolume(v) && IsInode(n) && skip < BLOCK_SIZE
    ensures r == ReadLoop(v, n, first, skip, limit)
  {
    var index: nat, within: nat, remaining: nat := first, skip, limit;
    var out: seq<nat> := [];
    ghost var start := ReadLoop(v, n, index, within, remaining);
    assert Prepend([], start) == start;
    while remaining > 0 && index < n.blocksUsed
      invariant within < BLOCK_SIZE
      invariant start == Prepend(out, ReadLoop(v, n, index, within, remaining))
      decreases n.blocksUsed - index
    {
      if index >= DIRECT_BLOCKS {
        break;
      }
      var number := n.direct[index];
      if number == 0 {
        break;
      }
      if number !in v.blocks {
        return Failed;
      }
      var size := BLOCK_SIZE - within;
      if size > remaining {
        size := remaining;
      }
      var part := CopyRange(v.blocks[number], within, size);
      AppendAssociates(out, v.blocks[number][within..within + size], ReadLoop(v, n, index + 1, 0, remaining - size));
      out := out + part;
      remaining := remaining - size;
      within := 0;
      index := index + 1;
    }
    assert start == Data(out + []);
    r := Data(out);
  }

  lemma AppendAssociates(a: seq<nat>, b: seq<nat>, r: Result)
    ensures Prepend(a, Prepend(b, r)) == Prepend(a + b, r)
  {
    if r.Data? {
      assert a + (b + r.bytes) == (a + b) + r.bytes;
    }
  }

  // ---------- Path resolution ----------

  predicate Names(e: Dirent, name: string)
    requires IsDirent(e)
  {
    e.inode != 0 && e.nameLen > 0 && e.name[..e.nameLen] == name
  }

  /** The inode of the first entry from i on that carries the name, or 0. */
  function FirstNamed(es: seq<Dirent>, name: string, i: nat): nat
    requires i <= |es| && forall e :: e in es ==> IsDirent(e)
    decreases |es| - i
  {
    if i == |es| then 0 else if Names(es[i], name) then es[i].inode else FirstNamed(es, name, i + 1)
  }

  function Find(v: Volume, dir: nat, name: string): nat
    requires IsVolume(v)
  {
    if dir !in v.inodes || v.inodes[dir].kind != TYPE_DIR || v.inodes[dir].direct[0] !in v.dirs then 0
    else FirstNamed(v.dirs[v.inodes[dir].direct[0]], name, 0)
  }

  function SlashAt(s: string, i: nat): (k: nat)
    requires i <= |s|
    ensures i <= k <= |s| && (k < |s| ==> s[k] == '/') && forall j :: i <= j < k ==> s[j] != '/'
    decreases |s| - i
  {
    if i == |s| || s[i] == '/' then i else SlashAt(s, i + 1)
  }

  /** The parts between slashes; nothing after a final slash. */
  function Components(s: string): seq<string> {
    if s == "" then []
    else
      var k := SlashAt(s, 0);
      [s[..k]] + if k < |s| then Components(s[k + 1..]) else []
  }

  /** What fits into the component buffer. */
  function Cut(s: string): (c: string)
    ensures c <= s && |c| == Min(|s|, 63)
  {
    if |s| > 63 then s[..63] else s
  }

  /** Looking up one component after the other; 0 means "not found" and stays. */
  function Follow(v: Volume, ino: nat, parts: seq<string>): nat
    requires IsVolume(v)
    decreases |parts|
  {
    if parts == [] then ino
    else
      var next := Find(v, ino, Cut(parts[0]));
      if next == 0 then 0 else Follow(v, next, parts[1..])
  }

  function Unrooted(path: string): string { if path != "" && path[0] == '/' then path[1..] else path }

  function Resolve(v: Volume, path: string): nat
    requires IsVolume(v)
  {
    Follow(v, v.root, Components(Unrooted(path)))
  }

  lemma {:induction false} SlashAtPrefix(p: string, q: string, i: nat)
    requires i <= |p|
    ensures SlashAt(p + ['/'] + q, i) == if SlashAt(p, i) < |p| then SlashAt(p, i) else |p|
    decreases |p| - i
  {
    var s := p + ['/'] + q;
    if i < |p| {
      assert s[i] == p[i];
      SlashAtPrefix(p, q, i + 1);
    } else {
      assert s[|p|] == '/';
    }
  }

  lemma ComponentsUnfold(s: string)
    requires s != ""
    ensures var k := SlashAt(s, 0); Components(s) == [s[..k]] + if k < |s| then Components(s[k + 1..]) else []
  {
  }

  lemma {:induction false} ComponentsJoin(p: string, q: string)
    requires p != "" && p[|p| - 1] != '/'
    ensures Components(p + ['/'] + q) == Components(p) + Components(q)
  {
    hide SlashAt, Components;
    var s := p + ['/'] + q;
    SlashAtPrefix(p, q, 0);
    ComponentsUnfold(s);
    ComponentsUnfold(p);
    var k := SlashAt(p, 0);
    assert s[..k] == p[..k];
    if k < |p| {
      var rest := p[k + 1..];
      assert k < |p| - 1;
      assert rest[|rest| - 1] == p[|p| - 1];
      ComponentsJoin(rest, q);
      assert s[k + 1..] == rest + ['/'] + q;
      assert Components(s) == [p[..k]] + (Components(rest) + Components(q));
    } else {
      assert s[k + 1..] == q;
    }
  }

  lemma {:induction false} FollowJoin(v: Volume, ino: nat, a: seq<string>, b: seq<string>)
    requires IsVolume(v) && a != []
    ensures var mid := Follow(v, ino, a); Follow(v, ino, a + b) == if mid == 0 then 0 else Follow(v, mid, b)
    decreases |a|
  {
    assert (a + b)[0] == a[0] && (a + b)[1..] == a[1..] + b;
    var next := Find(v, ino, Cut(a[0]));
    if next != 0 && |a| > 1 {
      FollowJoin(v, next, a[1..], b);
    } else if |a| == 1 {
      assert a[1..] == [] && a[1..] + b == b;
    }
  }

  /** Resolving p/q is resolving q from where p leads. */
  lemma ResolveJoin(v: Volume, p: string, q: string)
    requires IsVolume(v) && p != "" && p[|p| - 1] != '/'
    ensures Resolve(v, p + ['/'] + q) == if Resolve(v, p) == 0 then 0 else Follow(v, Resolve(v, p), Components(q))
  {
    var u := Unrooted(p);
    assert u != "" && u[|u| - 1] == p[|p| - 1];
    assert Unrooted(p + ['/'] + q) == u + ['/'] + q;
    ComponentsJoin(u, q);
    FollowJoin(v, v.root, Components(u), Components(q));
  }

  // ---------- What a path leads to ----------

  /** Inode `dir` is a directory whose block can be read. */
  predicate IsDir(v: Volume, dir: nat)
    requires IsVolume(v)
  {
    dir in v.inodes && v.inodes[dir].kind == 2 && v.inodes[dir].direct[0] in v.dirs
  }

  /** Entry i of directory `dir` is in use and carries the name. */
  ghost predicate IsEntry(v: Volume, dir: nat, name: string, i: nat)
    requires IsVolume(v)
  {
    IsDir(v, dir) && i < 64 &&
    var e := v.dirs[v.inodes[dir].direct[0]][i];
    IsDirent(e) && e.inode != 0 && e.nameLen > 0 && e.name[..e.nameLen] == name
  }

  /** `name` in `dir` leads to inode r: that of the first entry with this name, or 0 when there is none. */
  ghost predicate LeadsTo(v: Volume, dir: nat, name: string, r: nat)
    requires IsVolume(v)
  {
    || (r == 0 && forall i: nat :: !IsEntry(v, dir, name, i))
    || exists i: nat ::
         && IsEntry(v, dir, name, i) && r == v.dirs[v.inodes[dir].direct[0]][i].inode
         && forall j: nat :: j < i ==> !IsEntry(v, dir, name, j)
  }

  lemma {:induction false} FirstNamedMeaning(v: Volume, dir: nat, name: string, i: nat)
    requires IsVolume(v) && IsDir(v, dir) && i <= 64 && forall j: nat :: j < i ==> !IsEntry(v, dir, name, j)
    ensures LeadsTo(v, dir, name, FirstNamed(v.dirs[v.inodes[dir].direct[0]], name, i))
    decreases 64 - i
  {
    var es := v.dirs[v.inodes[dir].direct[0]];
    if i < 64 {
      assert IsDirent(es[i]);
      if Names(es[i], name) {
        assert IsEntry(v, dir, name, i);
      } else {
        FirstNamedMeaning(v, dir, name, i + 1);
      }
    }
  }

  /** The lookup in a directory leads to the first used entry with that name, and to nothing else. */
  lemma FindMeaning(v: Volume, dir: nat, name: string)
    requires IsVolume(v)
    ensures forall r: nat :: LeadsTo(v, dir, name, r) <==> r == Find(v, dir, name)
  {
    hide IsVolume, IsEntry;
    if IsDir(v, dir) {
      FirstNamedMeaning(v, dir, name, 0);
    } else {
      NoEntries(v, dir, name);
    }
    forall r: nat, q: nat | LeadsTo(v, dir, name, r) && LeadsTo(v, dir, name, q) ensures r == q {
      LeadsToOne(v, dir, name, r, q);
    }
  }

  lemma NoEntries(v: Volume, dir: nat, name: string)
    requires IsVolume(v) && !IsDir(v, dir)
    ensures forall i: nat :: !IsEntry(v, dir, name, i)
    ensures Find(v, dir, name) == 0
  {
  }

  lemma LeadsToOne(v: Volume, dir: nat, name: string, r: nat, q: nat)
    requires IsVolume(v) && LeadsTo(v, dir, name, r) && LeadsTo(v, dir, name, q)
    ensures r == q
  {
    if (exists i: nat :: IsEntry(v, dir, name, i)) {
      var i: nat :| IsEntry(v, dir, name, i) && r == v.dirs[v.inodes[dir].direct[0]][i].inode
        && forall j: nat :: j < i ==> !IsEntry(v, dir, name, j);
      var k: nat :| IsEntry(v, dir, name, k) && q == v.dirs[v.inodes[dir].direct[0]][k].inode
        && forall j: nat :: j < k ==> !IsEntry(v, dir, name, j);
      assert i == k;
    }
  }

  /** `at` lists the inodes that `parts` pass through from `ino` on: each part leads from one to the next, only the
      last may be 0, and without a 0 all parts are used. */
  ghost predicate IsTrail(v: Volume, ino: nat, parts: seq<string>, at: seq<nat>)
    requires IsVolume(v)
  {
    && 0 < |at| <= |parts| + 1 && at[0] == ino
    && (forall i :: 0 <= i < |at| - 1 ==> LeadsTo(v, at[i], Cut(parts[i]), at[i + 1]))
    && (forall i :: 0 < i < |at| - 1 ==> at[i] != 0)
    && (|at| <= |parts| ==> |at| > 1 && at[|at| - 1] == 0)
  }

  lemma {:induction false} FollowMeaning(v: Volume, ino: nat, parts: seq<string>) returns (at: seq<nat>)
    requires IsVolume(v)
    ensures IsTrail(v, ino, parts, at) && at[|at| - 1] == Follow(v, ino, parts)
    decreases |parts|
  {
    hide IsVolume, LeadsTo, Find, Cut;
    if parts == [] {
      at := [ino];
    } else {
      var next := Find(v, ino, Cut(parts[0]));
      FindMeaning(v, ino, Cut(parts[0]));
      if next == 0 {
        at := [ino, 0];
      } else {
        var rest := FollowMeaning(v, next, parts[1..]);
        at := [ino] + rest;
        forall i | 0 <= i < |at| - 1 ensures LeadsTo(v, at[i], Cut(parts[i]), at[i + 1]) {
          if i > 0 {
            assert parts[1..][i - 1] == parts[i];
            assert LeadsTo(v, rest[i - 1], Cut(parts[1..][i - 1]), rest[i]);
          }
        }
      }
    }
  }

  /** A path, its leading slash dropped, leads from the root through its parts, entry by entry, to the result. */
  lemma ResolveMeaning(v: Volume, path: string) returns (parts: seq<string>, at: seq<nat>)
    requires IsVolume(v)
    ensures var u := if path != "" && path[0] == '/' then path[1..] else path;
            && Joined(parts) == (if u != "" && u[|u| - 1] == '/' then u[..|u| - 1] else u)
            && (forall c :: c in parts ==> '/' !in c)
    ensures IsTrail(v, v.root, parts, at) && Resolve(v, path) == at[|at| - 1]
  {
    hide IsVolume, IsTrail, Components, Follow;
    parts := Components(Unrooted(path));
    ComponentsCover(Unrooted(path));
    at := FollowMeaning(v, v.root, parts);
    assert |at| > 0 by { TrailIsNotEmpty(v, v.root, parts, at); }
  }

  lemma TrailIsNotEmpty(v: Volume, ino: nat, parts: seq<string>, at: seq<nat>)
    requires IsVolume(v) && IsTrail(v, ino, parts, at)
    ensures |at| > 0
  {
  }

  /** The empty path and the slash are the root directory. */
  lemma ResolveRoot(v: Volume)
    requires IsVolume(v)
    ensures Resolve(v, "") == v.root && Resolve(v, "/") == v.root
  {
    assert Unrooted("/") == "" && Components("") == [];
    assert Follow(v, v.root, []) == v.root;
  }

  /** A single name of at most 63 characters, with or without the slash, is looked up in the root directory. */
  lemma ResolveOne(v: Volume, name: string)
    requires IsVolume(v) && name != "" && '/' !in name && |name| <= 63
    ensures LeadsTo(v, v.root, name, Resolve(v, ['/'] + name)) && Resolve(v, name) == Resolve(v, ['/'] + name)
  {
    hide IsVolume, LeadsTo, Find;
    OnePart(name);
    assert Unrooted(['/'] + name) == name && Unrooted(name) == name;
    FollowOne(v, v.root, name);
    FindMeaning(v, v.root, name);
  }

  lemma OnePart(name: string)
    requires name != "" && '/' !in name
    ensures Components(name) == [name]
  {
    assert SlashAt(name, 0) == |name|;
    assert name[..|name|] == name;
  }

  lemma FollowOne(v: Volume, ino: nat, name: string)
    requires IsVolume(v) && |name| <= 63
    ensures Follow(v, ino, [name]) == Find(v, ino, name)
  {
    hide Find;
    assert [name][1..] == [];
    var next := Find(v, ino, Cut([name][0]));
    assert next != 0 ==> Follow(v, next, []) == next;
  }

  /** /a/b is b looked up in the directory that a leads to. */
  lemma ResolveTwo(v: Volume, a: string, b: string)
    requires IsVolume(v) && a != "" && '/' !in a && |a| <= 63 && b != "" && '/' !in b && |b| <= 63
    ensures exists mid: nat ::
              && LeadsTo(v, v.root, a, mid)
              && var r := Resolve(v, ['/'] + a + ['/'] + b); if mid == 0 then r == 0 else LeadsTo(v, mid, b, r)
  {
    hide IsVolume, LeadsTo, Find, Follow;
    var p := ['/'] + a;
    var mid := Resolve(v, p);
    ResolveOne(v, a);
    ResolveJoin(v, p, b);
    OnePart(b);
    FollowOne(v, mid, b);
    FindMeaning(v, mid, b);
    assert LeadsTo(v, v.root, a, mid);
  }

  /** Putting the components back together with slashes gives the path, up to one final slash. */
  lemma {:induction false} ComponentsCover(s: string)
    ensures Joined(Components(s)) == if s != "" && s[|s| - 1] == '/' then s[..|s| - 1] else s
    ensures forall c :: c in Components(s) ==> '/' !in c
    ensures s != "" ==> Components(s) != []
  {
    hide SlashAt, Joined, Components;
    if s != "" {
      ComponentsUnfold(s);
      var k := SlashAt(s, 0);
      var head := s[..k];
      if k < |s| {
        var rest := s[k + 1..];
        ComponentsCover(rest);
        JoinedHead(head, Components(rest));
        assert s == head + ['/'] + rest;
        if rest == "" {
          NoParts();
          assert Components(s) == [head] && head == s[..|s| - 1];
        } else {
          assert rest[|rest| - 1] == s[|s| - 1];
        }
      } else {
        assert head == s;
        JoinedHead(head, []);
      }
    } else {
      NoParts();
    }
  }

  lemma NoParts()
    ensures Components("") == [] && Joined([]) == ""
  {
  }

  lemma JoinedHead(head: string, parts: seq<string>)
    ensures Joined([head] + parts) == if parts == [] then head else head + ['/'] + Joined(parts)
  {
    assert ([head] + parts)[1..] == parts;
  }

  function Joined(parts: seq<string>): string {
    if parts == [] then "" else if |parts| == 1 then parts[0] else parts[0] + ['/'] + Joined(parts[1..])
  }

  /** find_in_dir, comparing names character by character against the terminated component. */
  method FindInDir(v: Volume, dir: nat, name: string) returns (r: nat)
    requires IsVolume(v) && '\0' !in name
    ensures r == Find(v, dir, name)
  {
    if dir !in v.inodes || v.inodes[dir].kind != TYPE_DIR || v.inodes[dir].direct[0] !in v.dirs {
      return 0;
    }
    var entries := v.dirs[v.inodes[dir].direct[0]];
    var i := 0;
    while i < 64
      invariant i <= 64 && FirstNamed(entries, name, 0) == FirstNamed(entries, name, i)
    {
      var e := entries[i];
      assert IsDirent(e);
      if e.inode != 0 && e.nameLen > 0 {
        var same := SameName(e, name);
        if same {
          return e.inode;
        }
      }
      i := i + 1;
    }
    r := 0;
  }

  method SameName(e: Dirent, name: string) returns (same: bool)
    requires IsDirent(e) && '\0' !in name
    ensures same <==> e.name[..e.nameLen] == name
  {
    var text := name + ['\0'];
    var j := 0;
    while j < e.nameLen && j < 58
      invariant j <= e.nameLen && j <= |name| && e.name[..j] == name[..j]
    {
      if e.name[j] != text[j] {
        return false;
      }
      j := j + 1;
    }
    same := text[e.nameLen] == '\0';
    assert e.name[..e.nameLen] == name[..e.nameLen];
  }

  method NextSlash(p: string, from: nat) returns (end: nat)
    requires from <= |p|
    ensures end == SlashAt(p, from)
  {
    end := from;
    while end < |p| && p[end] != '/'
      invariant from <= end <= |p| && SlashAt(p, from) == SlashAt(p, end)
    {
      end := end + 1;
    }
  }

  method CopyPart(p: string, from: nat, end: nat) returns (component: string)
    requires from <= end <= |p|
    ensures component == Cut(p[from..end])
  {
    var start := from;
    component := "";
    while start < end && |component| < 63
      invariant from <= start <= end && |component| == start - from <= 63
      invariant component == p[from..end][..start - from]
    {
      component := component + [p[start]];
      start := start + 1;
    }
  }

  /** The two inner loops of resolve_path: `end` runs to the next slash, `start` follows it while at most 63
      characters are copied. */
  method ScanComponent(p: string, from: nat) returns (component: string, end: nat)
    requires from <= |p|
    ensures end == SlashAt(p, from) && component == Cut(p[from..end])
  {
    end := NextSlash(p, from);
    component := CopyPart(p, from, end);
  }

  /** resolve_path. */
  method ResolvePath(fs: Option<Volume>, path: Option<string>) returns (r: nat)
    requires fs.Some? ==> IsVolume(fs.value)
    requires path.Some? ==> '\0' !in path.value
    ensures r == if fs == None || path == None then 0 else Resolve(fs.value, path.value)
  {
    hide Components, Find, IsVolume, SlashAt, Follow;
    if fs == None || path == None {
      return 0;
    }
    var v := fs.value;
    var p := if path.value != "" && path.value[0] == '/' then path.value[1..] else path.value;
    var current := v.root;
    if p == "" {
      NothingToFollow(v, current);
      return current;
    }
    assert p[0..] == p;
    var end := 0;
    while end < |p|
      invariant end <= |p|
      invariant Resolve(v, path.value) == Follow(v, current, Components(p[end..]))
    {
      var from := end;
      var component;
      component, end := ScanComponent(p, from);
      FollowHead(v, current, p, from, end);
      assert '\0' !in component;
      current := FindInDir(v, current, component);
      if current == 0 {
        return 0;
      }
      if end < |p| {
        end := end + 1;
      }
    }
    assert p[end..] == "";
    NothingToFollow(v, current);
    r := current;
  }

  lemma NothingToFollow(v: Volume, ino: nat)
    requires IsVolume(v)
    ensures Follow(v, ino, Components("")) == ino
  {
  }

  lemma {:induction false} SlashAtShift(p: string, from: nat, i: nat)
    requires from <= i <= |p|
    ensures SlashAt(p[from..], i - from) == SlashAt(p, i) - from
    decreases |p| - i
  {
    if i < |p| && p[i] != '/' {
      SlashAtShift(p, from, i + 1);
    }
  }

  /** One turn of the outer loop looks up the component up to the next slash. */
  lemma FollowHead(v: Volume, ino: nat, p: string, from: nat, end: nat)
    requires IsVolume(v) && from < |p| && end == SlashAt(p, from)
    ensures var next := Find(v, ino, Cut(p[from..end]));
            Follow(v, ino, Components(p[from..])) ==
            if next == 0 then 0 else Follow(v, next, Components(p[if end < |p| then end + 1 else end..]))
  {
    hide SlashAt, Find, IsVolume;
    SlashAtShift(p, from, from);
    var s := p[from..];
    assert s[..end - from] == p[from..end];
    var rest := if end < |p| then Components(p[end + 1..]) else [];
    assert end < |p| ==> s[end - from + 1..] == p[end + 1..];
    assert Components(s) == [p[from..end]] + rest;
    assert Components(s)[1..] == rest;
    assert end == |p| ==> p[end..] == "";
  }
}
