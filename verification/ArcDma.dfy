/**
 Transfers of the ARC HS DMA driver drivers/dma/dma_arc_hs.c: dma_arc_hs_transfer
 splits a copy into blocks, dma_arc_hs_config and dma_arc_hs_start queue them to the
 hardware. Sizes and addresses are 32 bits wide.
 */
module ArcDma {
  import opened Bits
  import opened Bytes
  import opened Wrappers

  datatype Command = Command(src: nat, dst: nat, len: nat)

  function Min(a: nat, b: nat): (m: nat) {
    if a < b then a else b
  }

  // The commands a copy of len bytes is cut into.
  function Tile(src: nat, dst: nat, len: nat, max: nat): (t: seq<Command>)
    requires max > 0
    decreases len
  {
    if len == 0 then []
    else
      var n := Min(len, max);
      [Command(src, dst, n)] + Tile((src + n) % TWO32, (dst + n) % TWO32, len - n, max)
  }

  lemma DivNext(x: nat, m: nat)
    requires m > 0
    ensures (x + m) / m == x / m + 1
  {
    var q, r := x / m, x % m;
    assert x + m == (q + 1) * m + r;
    DivModUnique(x + m, m, q + 1, r);
  }

  /** The number of blocks is the length divided by the block size, rounded up. */
  lemma {:induction false} TileCount(src: nat, dst: nat, len: nat, max: nat)
    requires max > 0
    ensures |Tile(src, dst, len, max)| == (len + max - 1) / max
    decreases len
  {
    if len == 0 {
      DivModUnique(max - 1, max, 0, max - 1);
    } else {
      var n := Min(len, max);
      TileCount((src + n) % TWO32, (dst + n) % TWO32, len - n, max);
      if len <= max {
        DivModUnique(max - 1, max, 0, max - 1);
        DivModUnique(len + max - 1, max, 1, len - 1);
      } else {
        DivNext(len - 1, max);
      }
    }
  }

  function Total(t: seq<Command>): nat {
    if t == [] then 0 else t[0].len + Total(t[1..])
  }

  // Each command starts where the one before it ended, on both sides.
  ghost predicate Contiguous(src: nat, dst: nat, t: seq<Command>)
    decreases |t|
  {
    t != [] ==> (
      && t[0].src == src && t[0].dst == dst
      && Contiguous((src + t[0].len) % TWO32, (dst + t[0].len) % TWO32, t[1..]))
  }

  /** The commands are in order, contiguous, not empty, at most max long, and together
      cover exactly len bytes. */
  lemma {:induction false} TileCovers(src: nat, dst: nat, len: nat, max: nat)
    requires max > 0
    ensures var t := Tile(src, dst, len, max);
      && Contiguous(src, dst, t) && Total(t) == len
      && (forall i :: 0 <= i < |t| ==> 0 < t[i].len <= max)
    decreases len
  {
    if len > 0 {
      var n := Min(len, max);
      var rest := Tile((src + n) % TWO32, (dst + n) % TWO32, len - n, max);
      TileCovers((src + n) % TWO32, (dst + n) % TWO32, len - n, max);
      var t := Tile(src, dst, len, max);
      assert t[1..] == rest;
      assert forall i :: 0 < i < |t| ==> t[i] == rest[i - 1];
    }
  }

  // ---- What the queued commands do to memory -------------------------------------------------

  function Copied(mem: bytes, src: nat, dst: nat, len: nat): (m: bytes)
    requires src + len <= |mem| && dst + len <= |mem|
    ensures |m| == |mem|
    ensures forall a :: 0 <= a < |mem| ==> m[a] == (if dst <= a < dst + len then mem[src + (a - dst)] else mem[a])
  {
    mem[..dst] + mem[src..src + len] + mem[dst + len..]
  }

  predicate Fits(t: seq<Command>, size: nat) {
    forall i :: 0 <= i < |t| ==> t[i].src + t[i].len <= size && t[i].dst + t[i].len <= size
  }

  // The hardware carries out one command after the other.
  function Execute(mem: bytes, t: seq<Command>): (m: bytes)
    requires Fits(t, |mem|)
    ensures |m| == |mem|
    decreases |t|
  {
    if t == [] then mem else Execute(Copied(mem, t[0].src, t[0].dst, t[0].len), t[1..])
  }

  lemma {:induction false} TileFits(src: nat, dst: nat, len: nat, max: nat, size: nat)
    requires max > 0 && src + len <= size && dst + len <= size && size <= TWO32
    ensures Fits(Tile(src, dst, len, max), size)
    decreases len
  {
    if len > max {
      var rest := Tile(src + max, dst + max, len - max, max);
      SmallMod(src + max, TWO32);
      SmallMod(dst + max, TWO32);
      TileFits(src + max, dst + max, len - max, max, size);
      assert forall i :: 0 < i < |Tile(src, dst, len, max)| ==> Tile(src, dst, len, max)[i] == rest[i - 1];
    } else if len > 0 {
      assert Tile((src + len) % TWO32, (dst + len) % TWO32, 0, max) == [];
    }
  }

  // Splitting cannot read a byte that an earlier block has overwritten.
  predicate Safe(src: nat, dst: nat, len: nat, max: nat) {
    dst <= src || src + len <= dst || len <= max
  }

  lemma TileFirst(src: nat, dst: nat, len: nat, max: nat)
    requires 0 < max < len && src + len <= TWO32 && dst + len <= TWO32
    ensures Tile(src, dst, len, max) == [Command(src, dst, max)] + Tile(src + max, dst + max, len - max, max)
  {
    SmallMod(src + max, TWO32);
    SmallMod(dst + max, TWO32);
  }

  // t is the copy cut into blocks, at addresses that do not wrap.
  ghost predicate CutUp(t: seq<Command>, src: nat, dst: nat, len: nat, max: nat)
    decreases |t|
  {
    if len == 0 then t == []
    else
      var n := Min(len, max);
      n > 0 && t != [] && t[0] == Command(src, dst, n) && CutUp(t[1..], src + n, dst + n, len - n, max)
  }

  lemma {:induction false} TileIsCutUp(src: nat, dst: nat, len: nat, max: nat)
    requires max > 0 && src + len <= TWO32 && dst + len <= TWO32
    ensures CutUp(Tile(src, dst, len, max), src, dst, len, max)
    decreases len
  {
    var t := Tile(src, dst, len, max);
    if len > max {
      TileFirst(src, dst, len, max);
      assert t[1..] == Tile(src + max, dst + max, len - max, max);
      TileIsCutUp(src + max, dst + max, len - max, max);
    } else if len > 0 {
      assert t[1..] == Tile((src + len) % TWO32, (dst + len) % TWO32, 0, max) == [];
    }
  }

  lemma {:induction false} CutUpIsOneCopy(mem: bytes, t: seq<Command>, src: nat, dst: nat, len: nat, max: nat)
    requires src + len <= |mem| && dst + len <= |mem| && Safe(src, dst, len, max)
    requires Fits(t, |mem|) && CutUp(t, src, dst, len, max)
    ensures Execute(mem, t) == Copied(mem, src, dst, len)
    decreases |t|
  {
    if len == 0 {
      assert Copied(mem, src, dst, 0) == mem;
    } else {
      var n := Min(len, max);
      var m := Copied(mem, src, dst, n);
      CutUpIsOneCopy(m, t[1..], src + n, dst + n, len - n, max);
      if n < len {
        TwoCopies(mem, src, dst, len, n);
      }
    }
  }

  lemma SplitIsOneCopy(mem: bytes, src: nat, dst: nat, len: nat, max: nat)
    requires max > 0 && src + len <= |mem| && dst + len <= |mem| && |mem| <= TWO32
    requires Safe(src, dst, len, max)
    ensures Fits(Tile(src, dst, len, max), |mem|)
    ensures Execute(mem, Tile(src, dst, len, max)) == Copied(mem, src, dst, len)
  {
    TileFits(src, dst, len, max, |mem|);
    TileIsCutUp(src, dst, len, max);
    CutUpIsOneCopy(mem, Tile(src, dst, len, max), src, dst, len, max);
  }

  lemma TwoCopies(mem: bytes, src: nat, dst: nat, len: nat, n: nat)
    requires n < len && src + len <= |mem| && dst + len <= |mem| && (dst <= src || src + len <= dst)
    ensures Copied(Copied(mem, src, dst, n), src + n, dst + n, len - n) == Copied(mem, src, dst, len)
  {
    var p, q := Copied(Copied(mem, src, dst, n), src + n, dst + n, len - n), Copied(mem, src, dst, len);
    forall a | 0 <= a < |mem| ensures p[a] == q[a] {
    }
  }

  function Zero(n: nat): (z: bytes)
    ensures |z| == n && forall a :: 0 <= a < n ==> z[a] == 0
  {
    seq(n, i => 0)
  }

  lemma {:induction false} ZeroStays(n: nat, t: seq<Command>)
    requires Fits(t, n)
    ensures Execute(Zero(n), t) == Zero(n)
    decreases |t|
  {
    if t != [] {
      assert Copied(Zero(n), t[0].src, t[0].dst, t[0].len) == Zero(n);
      ZeroStays(n, t[1..]);
    }
  }

  // A memory on which an unsafe split loses a byte.
  lemma UnsafeLosesByte(size: nat, src: nat, dst: nat, len: nat, max: nat) returns (mem: bytes)
    requires max > 0 && src + len <= size && dst + len <= size && size <= TWO32 && !Safe(src, dst, len, max)
    ensures |mem| == size && Fits(Tile(src, dst, len, max), size)
    ensures Execute(mem, Tile(src, dst, len, max)) != Copied(mem, src, dst, len)
  {
    // the first block overwrites this byte, a later one should have copied it
    var q := if dst < src + max then src + max else dst;
    mem := Zero(size)[q := 1];
    var t := Tile(src, dst, len, max);
    TileFits(src, dst, len, max, size);
    TileFirst(src, dst, len, max);
    assert t[0] == Command(src, dst, max);
    FirstBlockClears(mem, q, src, dst, max);
    ZeroStays(size, t[1..]);
    assert Copied(mem, src, dst, len)[dst + (q - src)] == 1;
    assert Execute(mem, t)[dst + (q - src)] == 0;
  }

  lemma FirstBlockClears(mem: bytes, q: nat, src: nat, dst: nat, n: nat)
    requires src + n <= |mem| && dst + n <= |mem| && src + n <= q && dst <= q < dst + n
    requires mem == Zero(|mem|)[q := 1]
    ensures Copied(mem, src, dst, n) == Zero(|mem|)
  {
    var m := Copied(mem, src, dst, n);
    forall a | 0 <= a < |mem| ensures m[a] == 0 {
    }
  }

  /** The queued blocks have the effect of one copy on every memory exactly when the
      destination is not above an overlapping source, or one block is enough. */
  lemma SplitExact(size: nat, src: nat, dst: nat, len: nat, max: nat)
    requires max > 0 && src + len <= size && dst + len <= size && size <= TWO32
    ensures Fits(Tile(src, dst, len, max), size)
    ensures (forall mem: bytes ::
               |mem| == size ==> Execute(mem, Tile(src, dst, len, max)) == Copied(mem, src, dst, len))
      <==> Safe(src, dst, len, max)
  {
    TileFits(src, dst, len, max, size);
    if Safe(src, dst, len, max) {
      forall mem: bytes | |mem| == size ensures Execute(mem, Tile(src, dst, len, max)) == Copied(mem, src, dst, len) {
        SplitIsOneCopy(mem, src, dst, len, max);
      }
    } else {
      var mem := UnsafeLosesByte(size, src, dst, len, max);
    }
  }

  // ---- The driver --------------------------------------------------------------------------------

  const EINVAL := 22
  const ENOTSUP := 134
  const ETIMEDOUT := 116

  datatype ChannelState = Free | Idle | Prepared | Active | Suspended

  // struct dma_block_config; next is an index into the driver's block array
  datatype Block = Block(src: nat, dst: nat, size: nat, next: Option<nat>)

  datatype Channel = Channel(state: ChannelState, blockCount: nat, head: Option<Block>)

  // Both addresses must be clear under the mask of the required alignment.
  predicate Aligned(alignment: nat, a: nat)
    requires alignment > 0
  {
    BitAnd(a, alignment - 1) == 0
  }

  lemma AlignedIsMultiple(k: nat, a: nat)
    ensures Pow2(k) > 0 && (Aligned(Pow2(k), a) <==> a % Pow2(k) == 0)
  {
    BitAndLowMask(a, k);
  }

  class Driver {
    const channels: nat
    const descriptors: nat
    const maxBlockSize: nat
    const alignment: nat
    const transferBlocks: array<Block>
    var chans: seq<Channel>
    // commands written to the hardware: channel and block
    var queued: seq<(nat, Command)>

    ghost predicate Valid()
      reads this, transferBlocks
    {
      && |chans| == channels && transferBlocks.Length == descriptors
      && 0 < maxBlockSize < TWO32 && 0 < alignment && 0 < descriptors < TWO32
      && (forall j :: 0 <= j < transferBlocks.Length ==> Points(transferBlocks[j], descriptors))
      && (forall c :: 0 <= c < |chans| && chans[c].head.Some? ==> Points(chans[c].head.value, descriptors))
    }

    // The loop of dma_arc_hs_transfer that fills the block array.
    method Split(src: nat, dst: nat, len: nat)
      requires Valid() && src < TWO32 && dst < TWO32 && 0 < |Tile(src, dst, len, maxBlockSize)| <= descriptors
      modifies transferBlocks
      ensures Valid() && Holds(transferBlocks[..], Tile(src, dst, len, maxBlockSize))
    {
      ghost var t := Tile(src, dst, len, maxBlockSize);
      TileCount(src, dst, len, maxBlockSize);
      var n := (len + maxBlockSize - 1) / maxBlockSize;
      var remaining: nat, srcAddr: nat, dstAddr: nat := len, src, dst;
      for i := 0 to n
        invariant 0 <= remaining <= len && t[i..] == Tile(srcAddr, dstAddr, remaining, maxBlockSize)
        invariant Valid() && forall j :: 0 <= j < i ==> transferBlocks[j] == BlockOf(t, j)
      {
        var blockLen := if remaining > maxBlockSize then maxBlockSize else remaining;
        transferBlocks[i] := Block(srcAddr, dstAddr, blockLen, if i < n - 1 then Some(i + 1) else None);
        assert t[i] == t[i..][0] && t[i + 1..] == t[i..][1..];
        srcAddr := (srcAddr + blockLen) % TWO32;
        dstAddr := (dstAddr + blockLen) % TWO32;
        remaining := remaining - blockLen;
      }
    }

    // dma_arc_hs_config with the given block list
    method Config(channel: nat, blockCount: nat, memoryToMemory: bool, head: Option<Block>) returns (rc: int)
      requires Valid() && (head.Some? ==> Points(head.value, descriptors))
      modifies `chans
      ensures Valid() && (rc == 0 || rc == -EINVAL || rc == -ENOTSUP)
      ensures rc == 0 <==> channel < channels && 0 < blockCount <= descriptors && memoryToMemory && head.Some?
      ensures rc == -ENOTSUP <==> channel < channels && 0 < blockCount <= descriptors && !memoryToMemory
      ensures rc != 0 ==> chans == old(chans)
      ensures rc == 0 ==> chans == old(chans)[channel := Channel(Prepared, blockCount, head)]
    {
      if channel >= channels {
        return -EINVAL;
      }
      if blockCount == 0 {
        return -EINVAL;
      }
      if blockCount > descriptors {
        return -EINVAL;
      }
      if !memoryToMemory {
        return -ENOTSUP;
      }
      if head == None {
        return -EINVAL;
      }
      chans := chans[channel := Channel(Prepared, blockCount, head)];
      return 0;
    }

    /** dma_arc_hs_start on a channel that is not linked to another: the head block and those
        its next pointers lead to, up to the configured count, go to the hardware in order.
        A channel already active is left alone. */
    method Start(channel: nat) returns (rc: int)
      requires Valid()
      modifies `chans, `queued
      ensures Valid() && (rc == 0 || rc == -EINVAL)
      ensures rc == -EINVAL <==> (
                || channel >= channels || old(chans)[channel].state == Free
                || (old(chans)[channel].state != Active && old(chans)[channel].head == None))
      ensures rc != 0 || old(chans)[channel].state == Active ==> chans == old(chans) && queued == old(queued)
      ensures rc == 0 && old(chans)[channel].state != Active ==> (
                var c := old(chans)[channel];
                && chans == old(chans)[channel := c.(state := Active)]
                && queued == old(queued) + OnChannel(channel, Follow(transferBlocks[..], c.head.value, c.blockCount)))
    {
      if channel >= channels {
        return -EINVAL;
      }
      var chan := chans[channel];
      if chan.state == Free {
        return -EINVAL;
      }
      if chan.state == Active {
        return 0;
      }
      if chan.head == None {
        return -EINVAL;
      }
      Queue(channel, chan.head.value, chan.blockCount);
      chans := chans[channel := chan.(state := Active)];
      return 0;
    }

    // The part of dma_arc_hs_start that writes the blocks to the hardware.
    method Queue(channel: nat, block: Block, blockCount: nat)
      requires Valid() && Points(block, descriptors)
      modifies `queued
      ensures queued == old(queued) + OnChannel(channel, Follow(transferBlocks[..], block, blockCount))
    {
      ghost var blocks := transferBlocks[..];
      ghost var done := [Command(block.src, block.dst, block.size)];
      queued := queued + [(channel, Command(block.src, block.dst, block.size))];
      var idx := 1;
      var next: Option<nat> := block.next;
      while next.Some? && idx < blockCount
        invariant Valid() && idx >= 1 && (next.Some? ==> next.value < descriptors)
        invariant queued == old(queued) + OnChannel(channel, done)
        invariant Follow(blocks, block, blockCount) == done + Beyond(blocks, next, Left(blockCount, idx))
        decreases blockCount - idx
      {
        var b := transferBlocks[next.value];
        assert blocks[next.value] == b;
        OnChannelMore(channel, done, Command(b.src, b.dst, b.size));
        queued := queued + [(channel, Command(b.src, b.dst, b.size))];
        done := done + [Command(b.src, b.dst, b.size)];
        idx := idx + 1;
        next := b.next;
      }
    }

    // dma_arc_hs_stop; the hardware's done bit belongs to the completion model
    method Stop(channel: nat) returns (rc: int)
      requires Valid()
      modifies `chans
      ensures Valid() && rc == (if channel >= channels || old(chans)[channel].state == Free then -EINVAL else 0)
      ensures chans == if channel < channels && old(chans)[channel].state == Active
        then old(chans)[channel := old(chans)[channel].(state := Idle)] else old(chans)
    {
      if channel >= channels {
        return -EINVAL;
      }
      if chans[channel].state == Free {
        return -EINVAL;
      }
      if chans[channel].state == Active {
        chans := chans[channel := chans[channel].(state := Idle)];
      }
      return 0;
    }

    // The requests dma_arc_hs_transfer carries out.
    predicate Accepts(channel: nat, src: nat, dst: nat, len: nat)
      requires maxBlockSize > 0 && alignment > 0
    {
      && Aligned(alignment, src) && Aligned(alignment, dst) && channel < channels
      && len + maxBlockSize - 1 < TWO32 && (len + maxBlockSize - 1) / maxBlockSize <= descriptors
    }

    /** With an alignment of a power of two, a transfer is carried out exactly when both
        addresses are multiples of it, the channel exists, and the blocks needed, counted
        without wrapping, fit the descriptors. */
    lemma AcceptsExact(channel: nat, src: nat, dst: nat, len: nat, k: nat)
      requires maxBlockSize > 0 && alignment == Pow2(k) > 0
      ensures Accepts(channel, src, dst, len) <==> (
                && src % alignment == 0 && dst % alignment == 0 && channel < channels
                && len + maxBlockSize - 1 < TWO32 && len <= maxBlockSize * descriptors)
    {
      AlignedIsMultiple(k, src);
      AlignedIsMultiple(k, dst);
      CeilAtMost(len, maxBlockSize, descriptors);
    }

    // dma_arc_hs_transfer; finished says whether a poll sees the transfer done in time
    method Transfer(channel: nat, src: nat, dst: nat, len: nat, finished: bool) returns (rc: int)
      requires Valid() && src < TWO32 && dst < TWO32 && len < TWO32
      modifies this, transferBlocks
      ensures Valid()
      ensures len == 0 ==> rc == 0 && queued == old(queued) && chans == old(chans)
      ensures len > 0 && !Accepts(channel, src, dst, len)
        ==> rc == -EINVAL && queued == old(queued) && chans == old(chans)
      ensures len > 0 && Accepts(channel, src, dst, len) ==> (
                && rc == (if finished then 0 else -ETIMEDOUT)
                && queued == old(queued) + OnChannel(channel, Tile(src, dst, len, maxBlockSize))
                && chans == old(chans)[channel := chans[channel]] && chans[channel].state == Idle)
    {
      if len == 0 {
        return 0;
      }
      if !Aligned(alignment, src) || !Aligned(alignment, dst) {
        return -EINVAL;
      }
      if channel >= channels {
        return -EINVAL;
      }
      TileCount(src, dst, len, maxBlockSize);
      WrappedCount(len, maxBlockSize);
      var numBlocks := (len + maxBlockSize - 1) % TWO32 / maxBlockSize;
      if numBlocks > descriptors {
        return -EINVAL;
      }
      ghost var t := Tile(src, dst, len, maxBlockSize);
      if numBlocks > 0 {
        Split(src, dst, len);
      }
      rc := Config(channel, numBlocks, true, Some(transferBlocks[0]));
      if rc < 0 {
        return;
      }
      FollowHolds(transferBlocks[..], t, 0);
      rc := Start(channel);
      if rc < 0 {
        return;
      }
      if finished {
        chans := chans[channel := chans[channel].(state := Idle)];
        var _ := Stop(channel);
        return 0;
      }
      var _ := Stop(channel);
      return -ETIMEDOUT;
    }
  }

  lemma CeilAtMost(len: nat, max: nat, n: nat)
    requires max > 0
    ensures (len + max - 1) / max <= n <==> len <= max * n
  {
    var x := len + max - 1;
    var q, r := x / max, x % max;
    assert x == max * q + r;
    if q <= n {
      MulAtMost(max, q, n);
    } else {
      MulAtMost(max, n + 1, q);
      assert max * (n + 1) == max * n + max;
    }
  }

  lemma MulAtMost(d: nat, a: nat, b: nat)
    requires a <= b
    ensures d * a <= d * b
  {
    assert d * b == d * a + d * (b - a);
  }

  // The block count computed in 32 bits is 0 exactly when the sum wraps.
  lemma WrappedCount(len: nat, max: nat)
    requires 0 < len < TWO32 && 0 < max < TWO32
    ensures (len + max - 1) % TWO32 / max == (if len + max - 1 < TWO32 then (len + max - 1) / max else 0)
    ensures (len + max - 1) / max > 0
  {
    var sum := len + max - 1;
    QuotientPositive(sum, max);
    if sum < TWO32 {
      SmallMod(sum, TWO32);
    } else {
      WrappedSum(sum, max);
    }
  }

  lemma QuotientPositive(x: nat, d: nat)
    requires 0 < d <= x
    ensures x / d > 0
  {
    assert x == x / d * d + x % d;
  }

  lemma WrappedSum(sum: nat, max: nat)
    requires TWO32 <= sum < TWO32 + max && max < TWO32
    ensures sum % TWO32 / max == 0
  {
    var w := sum - TWO32;
    DivModUnique(sum, TWO32, 1, w);
    DivModUnique(w, max, 0, w);
  }

  // A block's next pointer lies inside the block array.
  predicate Points(b: Block, n: nat) {
    b.next.Some? ==> b.next.value < n
  }

  function BlockOf(t: seq<Command>, j: nat): Block
    requires j < |t|
  {
    Block(t[j].src, t[j].dst, t[j].len, NextOf(t, j + 1))
  }

  function NextOf(t: seq<Command>, j: nat): Option<nat> {
    if j < |t| then Some(j) else None
  }

  // The block array holds t as a linked list.
  ghost predicate Holds(blocks: seq<Block>, t: seq<Command>) {
    |t| <= |blocks| && forall j :: 0 <= j < |t| ==> blocks[j] == BlockOf(t, j)
  }

  function OnChannel(channel: nat, t: seq<Command>): (q: seq<(nat, Command)>) {
    seq(|t|, i requires 0 <= i < |t| => (channel, t[i]))
  }

  lemma OnChannelMore(channel: nat, t: seq<Command>, c: Command)
    ensures OnChannel(channel, t + [c]) == OnChannel(channel, t) + [(channel, c)]
  {
  }

  // How many of n blocks are still to be queued after k of them.
  function Left(n: nat, k: nat): nat {
    if k < n then n - k else 0
  }

  ghost predicate Linked(blocks: seq<Block>) {
    forall j :: 0 <= j < |blocks| ==> Points(blocks[j], |blocks|)
  }

  // The commands found along the next pointers from block b: one, and at most n.
  ghost function Follow(blocks: seq<Block>, b: Block, n: nat): (t: seq<Command>)
    requires Linked(blocks) && Points(b, |blocks|)
    ensures 1 <= |t| && (n > 0 ==> |t| <= n)
  {
    [Command(b.src, b.dst, b.size)] + Beyond(blocks, b.next, if n == 0 then 0 else n - 1)
  }

  ghost function Beyond(blocks: seq<Block>, next: Option<nat>, n: nat): (t: seq<Command>)
    requires Linked(blocks) && (next.Some? ==> next.value < |blocks|)
    ensures |t| <= n
    decreases n
  {
    if next.None? || n == 0 then []
    else
      var b := blocks[next.value];
      [Command(b.src, b.dst, b.size)] + Beyond(blocks, b.next, n - 1)
  }

  /** Followed to its full count, the list that holds t gives t back. */
  lemma {:induction false} FollowHolds(blocks: seq<Block>, t: seq<Command>, k: nat)
    requires Linked(blocks) && Holds(blocks, t) && k < |t|
    ensures Follow(blocks, blocks[k], |t| - k) == t[k..]
    decreases |t| - k
  {
    if k + 1 < |t| {
      FollowHolds(blocks, t, k + 1);
    }
    assert t[k..] == [t[k]] + t[k + 1..];
  }
}
