/**
 * The first-fit allocator of part1.c: one list of blocks in address order,
 * doubly linked and NULL-terminated at both ends, a request placed in the
 * first free block big enough for it, and a freed block coalesced with a
 * free neighbour on either side.
 *
 * Headers are addressed by their byte offset in the region, as in the
 * Circular module; the abstract view (`order`, `blocks`) and the block-level
 * rules (Grant, Release) are those of the Blocks module.
 */
module Linear {
  import opened Blocks

  /** The list is doubly linked in the order of `order`, with NULL before the first header and after the last. */
  ghost predicate LineLinked(mem: map<nat, Node>, order: seq<nat>)
    requires |order| > 0 && forall i :: 0 <= i < |order| ==> order[i] in mem
  {
    (forall i {:trigger order[Succ(i, |order|)]} :: 0 <= i < |order| - 1 ==>
       mem[order[i]].next == At(order[Succ(i, |order|)])
       && mem[order[Succ(i, |order|)]].prev == At(order[i]))
    && mem[order[|order| - 1]].next == Null
    && mem[order[0]].prev == Null
  }

  /** LineLinked, position by position. */
  ghost predicate LineSteps(mem: map<nat, Node>, order: seq<nat>)
    requires |order| > 0 && forall i :: 0 <= i < |order| ==> order[i] in mem
  {
    (forall i :: 0 <= i < |order| - 1 ==> mem[order[i]].next == At(order[i + 1]))
    && (forall i :: 0 < i < |order| ==> mem[order[i]].prev == At(order[i - 1]))
    && mem[order[|order| - 1]].next == Null
    && mem[order[0]].prev == Null
  }

  lemma LineStepsIff(mem: map<nat, Node>, order: seq<nat>)
    requires |order| > 0 && forall i :: 0 <= i < |order| ==> order[i] in mem
    ensures LineLinked(mem, order) <==> LineSteps(mem, order)
  {
    var n := |order|;
    if LineLinked(mem, order) {
      forall i | 0 <= i < n - 1
        ensures mem[order[i]].next == At(order[i + 1])
      {
        assert order[Succ(i, n)] == order[i + 1];
      }
      forall i | 0 < i < n
        ensures mem[order[i]].prev == At(order[i - 1])
      {
        assert order[Succ(i - 1, n)] == order[i];
      }
    }
    if LineSteps(mem, order) {
      forall i | 0 <= i < n - 1
        ensures mem[order[i]].next == At(order[Succ(i, n)])
        ensures mem[order[Succ(i, n)]].prev == At(order[i])
      {
        assert mem[order[i + 1]].prev == At(order[i]);
      }
    }
  }

  /** The header view of a block sequence: tiled region, headers that say what the blocks say, a linear list. */
  ghost predicate ListLinked(mem: map<nat, Node>, order: seq<nat>, bs: seq<Block>, nodeSize: nat, regionSize: nat)
  {
    Tiled(order, bs, nodeSize, regionSize) && Headers(mem, order, bs) && LineLinked(mem, order)
  }

  /** What a live header names: the header after it or NULL, the header before it or NULL. */
  lemma Neighbours(mem: map<nat, Node>, order: seq<nat>, bs: seq<Block>, nodeSize: nat, regionSize: nat, i: nat)
    requires ListLinked(mem, order, bs, nodeSize, regionSize) && i < |order|
    ensures mem[order[i]].next == if i + 1 < |order| then At(order[i + 1]) else Null
    ensures mem[order[i]].prev == if 0 < i then At(order[i - 1]) else Null
    ensures mem[order[i]].free == bs[i].free && mem[order[i]].size == bs[i].size
  {
    var n := |order|;
    if i + 1 < n {
      assert order[Succ(i, n)] == order[i + 1];
    }
    if 0 < i {
      assert order[Succ(i - 1, n)] == order[i];
    }
  }

  /** Setting the `free` flag of the `i`-th header keeps the list well formed, with block `i` flagged the same way. */
  lemma MarkLinked(m0: map<nat, Node>, order: seq<nat>, bs: seq<Block>, nodeSize: nat, regionSize: nat, i: nat, free: bool)
    requires nodeSize > 0 && ListLinked(m0, order, bs, nodeSize, regionSize) && i < |order|
    ensures ListLinked(m0[order[i] := m0[order[i]].(free := free)], order, bs[i := Block(free, bs[i].size)],
                       nodeSize, regionSize)
  {
    var m1 := m0[order[i] := m0[order[i]].(free := free)];
    var b1 := bs[i := Block(free, bs[i].size)];
    TiledIncreasing(order, bs, nodeSize, regionSize);
    assert forall x :: x in m0 ==> x in m1 && m1[x].next == m0[x].next && m1[x].prev == m0[x].prev;
    assert Tiled(order, b1, nodeSize, regionSize) by {
      forall k | 0 <= k < |b1| - 1
        ensures order[Succ(k, |order|)] == order[k] + nodeSize + b1[k].size
      {
        assert b1[k].size == bs[k].size;
      }
      assert b1[|b1| - 1].size == bs[|bs| - 1].size;
    }
    assert Headers(m1, order, b1) by {
      forall k | 0 <= k < |order| && k != i
        ensures m1[order[k]] == m0[order[k]]
      {
        assert order[k] != order[i] by {
          if k < i { assert order[k] < order[i]; } else { assert order[i] < order[k]; }
        }
      }
    }
  }

  /**
   * The link rewrites of a split of block `i`: the new header at `tail`
   * takes block `i`'s old `next` and points back at block `i`, block `i`
   * points at it, the block after (if any) points back at it, and nothing
   * else is relinked. The list stays linear, one block longer.
   */
  lemma SplitLinked(m0: map<nat, Node>, m1: map<nat, Node>, o0: seq<nat>, i: nat, tail: nat)
    requires i < |o0| && (forall k :: 0 <= k < |o0| ==> o0[k] in m0) && LineLinked(m0, o0)
    requires var node := o0[i];
      tail in m1 && m1[tail].next == m0[node].next && m1[tail].prev == At(node)
      && node in m1 && m1[node].next == At(tail) && m1[node].prev == m0[node].prev
      && (i + 1 < |o0| ==> o0[i + 1] in m1 && m1[o0[i + 1]].prev == At(tail)
                           && m1[o0[i + 1]].next == m0[o0[i + 1]].next)
      && forall k :: 0 <= k < |o0| && k != i && k != i + 1 ==>
           o0[k] in m1 && m1[o0[k]].next == m0[o0[k]].next && m1[o0[k]].prev == m0[o0[k]].prev
    ensures var o1 := o0[..i + 1] + [tail] + o0[i + 1..];
      (forall k :: 0 <= k < |o1| ==> o1[k] in m1) && LineLinked(m1, o1)
  {
    LineStepsIff(m0, o0);
    var n := |o0|;
    var o1 := o0[..i + 1] + [tail] + o0[i + 1..];
    assert forall k :: 0 <= k <= i ==> o1[k] == o0[k];
    assert o1[i + 1] == tail;
    assert forall k :: i + 1 < k <= n ==> o1[k] == o0[k - 1];
    forall k | 0 <= k < n
      ensures m1[o1[k]].next == At(o1[k + 1])
    {
      if k == i + 1 {
        assert o1[k + 1] == o0[i + 1];
      }
    }
    assert m1[o1[n]].next == Null;
    forall k | 0 < k <= n
      ensures m1[o1[k]].prev == At(o1[k - 1])
    {
      if k == i + 2 {
        assert o1[k] == o0[i + 1] && o1[k - 1] == tail;
      }
    }
    LineStepsIff(m1, o1);
  }

  /**
   * The header writes of part1's `allocate` splitting block `i` keep the
   * list well formed with the new header in position `i + 1`, and keep no
   * two neighbouring blocks free.
   */
  lemma SplitPreserves(m0: map<nat, Node>, m1: map<nat, Node>, o0: seq<nat>, b0: seq<Block>,
                       o1: seq<nat>, b1: seq<Block>, i: nat, bytes: nat, nodeSize: nat, regionSize: nat)
    requires nodeSize > 0 && ListLinked(m0, o0, b0, nodeSize, regionSize) && NoAdjacentFree(b0)
    requires i < |o0| && b0[i].size > bytes + nodeSize && (i + 1 < |b0| ==> !b0[i + 1].free)
    requires m0[o0[i]].next.At? ==> m0[o0[i]].next.offset in m0
    requires var node := o0[i];
      var tail := node + nodeSize + bytes;
      var m2 := m0[tail := Node(true, m0[node].size - (bytes + nodeSize), m0[node].next, At(node))];
      var m3 := if m0[node].next.At? then m2[m0[node].next.offset := m2[m0[node].next.offset].(prev := At(tail))] else m2;
      m1 == m3[node := m3[node].(free := false, size := bytes, next := At(tail))]
    requires o1 == o0[..i + 1] + [o0[i] + nodeSize + bytes] + o0[i + 1..]
    requires b1 == SplitAt(b0, i, bytes, nodeSize)
    ensures ListLinked(m1, o1, b1, nodeSize, regionSize) && NoAdjacentFree(b1)
  {
    var node := o0[i];
    var tail := node + nodeSize + bytes;
    assert Tiled(o1, b1, nodeSize, regionSize) by {
      SplitTiled(o0, b0, i, bytes, nodeSize, regionSize);
    }
    assert NoAdjacentFree(b1) by {
      SplitKeepsNoAdjacentFree(b0, i, bytes, nodeSize);
    }
    assert Headers(m1, o1, b1) && LineLinked(m1, o1) by {
      TiledIncreasing(o0, b0, nodeSize, regionSize);
      SplitPointFresh(o0, b0, i, bytes, nodeSize, regionSize);
      Neighbours(m0, o0, b0, nodeSize, regionSize, i);
      forall k | 0 <= k < |o0| && k != i
        ensures o0[k] in m1 && m1[o0[k]].free == m0[o0[k]].free && m1[o0[k]].size == m0[o0[k]].size
        ensures k != i + 1 ==> m1[o0[k]].next == m0[o0[k]].next && m1[o0[k]].prev == m0[o0[k]].prev
      {
        assert o0[k] != node;
      }
      SplitHeaders(m0, m1, o0, b0, i, bytes, nodeSize, tail);
      SplitLinked(m0, m1, o0, i, tail);
    }
  }

  /**
   * The link rewrites of a merge of block `j` with its successor (the
   * successor's `next` copied into block `j`, the block after that, if any,
   * pointed back at block `j`) leave a linear list one block shorter.
   */
  lemma MergeLinked(m0: map<nat, Node>, m1: map<nat, Node>, o0: seq<nat>, j: nat)
    requires j + 1 < |o0| && Ascending(o0) && (forall k :: 0 <= k < |o0| ==> o0[k] in m0) && LineLinked(m0, o0)
    requires var a, b := o0[j], o0[j + 1];
      a in m1 && m1[a].next == m0[b].next && m1[a].prev == m0[a].prev
      && (j + 2 < |o0| ==> o0[j + 2] in m1 && m1[o0[j + 2]].prev == At(a) && m1[o0[j + 2]].next == m0[o0[j + 2]].next)
      && forall k :: 0 <= k < |o0| && k != j && k != j + 1 && k != j + 2 ==>
           o0[k] in m1 && m1[o0[k]].next == m0[o0[k]].next && m1[o0[k]].prev == m0[o0[k]].prev
    ensures var o1 := o0[..j + 1] + o0[j + 2..];
      (forall k :: 0 <= k < |o1| ==> o1[k] in m1) && LineLinked(m1, o1)
  {
    LineStepsIff(m0, o0);
    var n := |o0|;
    var o1 := o0[..j + 1] + o0[j + 2..];
    assert forall k :: 0 <= k <= j ==> o1[k] == o0[k];
    assert forall k :: j < k < n - 1 ==> o1[k] == o0[k + 1];
    forall k | 0 <= k < n - 2
      ensures m1[o1[k]].next == At(o1[k + 1])
    {
      if k == j {
        assert o1[k + 1] == o0[j + 2];
      }
    }
    assert m1[o1[n - 2]].next == Null;
    forall k | 0 < k < n - 1
      ensures m1[o1[k]].prev == At(o1[k - 1])
    {
      if k == j + 1 {
        assert o1[k] == o0[j + 2] && o1[k - 1] == o0[j];
      } else if k > j + 1 {
        assert o1[k - 1] == o0[k];
      }
    }
    LineStepsIff(m1, o1);
  }

  /**
   * The header writes of one coalescing step of part1's `deallocate` on
   * block `j` and its successor keep the list well formed, one block
   * shorter.
   */
  lemma MergePreserves(m0: map<nat, Node>, m1: map<nat, Node>, o0: seq<nat>, b0: seq<Block>,
                       o1: seq<nat>, b1: seq<Block>, j: nat, nodeSize: nat, regionSize: nat)
    requires nodeSize > 0 && ListLinked(m0, o0, b0, nodeSize, regionSize)
    requires j + 1 < |o0| && b0[j].free
    requires m0[o0[j + 1]].next.At? ==> m0[o0[j + 1]].next.offset in m0
    requires var a, b := o0[j], o0[j + 1];
      var m2 := m0[a := m0[a].(next := m0[b].next, size := m0[a].size + m0[b].size + nodeSize)];
      m1 == if m0[b].next.At? then m2[m0[b].next.offset := m2[m0[b].next.offset].(prev := At(a))] else m2
    requires o1 == o0[..j + 1] + o0[j + 2..] && b1 == MergeAt(b0, j, nodeSize)
    ensures ListLinked(m1, o1, b1, nodeSize, regionSize)
  {
    var n := |o0|;
    var a := o0[j];
    assert Tiled(o1, b1, nodeSize, regionSize) by {
      MergeTiled(o0, b0, j, nodeSize, regionSize);
    }
    assert Headers(m1, o1, b1) && LineLinked(m1, o1) by {
      TiledIncreasing(o0, b0, nodeSize, regionSize);
      Neighbours(m0, o0, b0, nodeSize, regionSize, j + 1);
      forall k | 0 <= k < n && k != j && k != j + 1
        ensures o0[k] in m1 && m1[o0[k]].free == m0[o0[k]].free && m1[o0[k]].size == m0[o0[k]].size
        ensures k != j + 2 ==> m1[o0[k]].next == m0[o0[k]].next && m1[o0[k]].prev == m0[o0[k]].prev
      {
        assert o0[k] != a;
      }
      MergeHeaders(m0, m1, o0, b0, j, nodeSize);
      MergeLinked(m0, m1, o0, j);
    }
  }

  /**
   * `allocate`'s walk over the list whose headers stand at `order` in `mem`:
   * from `first` along `next` until NULL, stopping at the first free block
   * with at least `bytes` bytes.
   */
  method Walk(mem: map<nat, Node>, first: nat, bytes: nat, ghost order: seq<nat>, ghost bs: seq<Block>,
              ghost nodeSize: nat, ghost regionSize: nat) returns (node: Ptr, ghost k: nat)
    requires ListLinked(mem, order, bs, nodeSize, regionSize) && first == order[0]
    ensures node.At? ==> k < |order| && order[k] == node.offset && FirstFitIn(bs, bytes, 0, |bs|) == Some(k)
    ensures node.Null? ==> FirstFitIn(bs, bytes, 0, |bs|) == None
  {
    node := At(first);
    k := 0;
    while node != Null
      invariant k <= |order| && node == if k < |order| then At(order[k]) else Null
      invariant forall t :: 0 <= t < k ==> !Fits(bs[t], bytes)
      decreases |order| - k
    {
      Neighbours(mem, order, bs, nodeSize, regionSize, k);
      var n := node.offset;
      if mem[n].free && bytes <= mem[n].size {
        return;
      }
      node := mem[n].next;
      k := k + 1;
    }
  }

  class ListAllocator {
    const nodeSize: nat      // sizeof(Node)
    const regionSize: nat    // bytes handed to initialise
    const firstBlock: nat    // offset of the head of the list
    var mem: map<nat, Node>  // headers written into the region

    ghost var order: seq<nat>
    ghost var blocks: seq<Block>

    /** The list structure and tiling, without the coalescing invariant. */
    ghost predicate Wf()
      reads this
    {
      nodeSize > 0 && firstBlock == 0 && ListLinked(mem, order, blocks, nodeSize, regionSize)
    }

    /** Wf and no two neighbouring blocks free, between calls. */
    ghost predicate Valid()
      reads this
    {
      Wf() && NoAdjacentFree(blocks)
    }

    /** One free block covering the whole region less its header, with NULL on both sides. */
    constructor Init(regionSize: nat, nodeSize: nat)
      requires 0 < nodeSize <= regionSize
      ensures Valid()
      ensures this.regionSize == regionSize && this.nodeSize == nodeSize
      ensures blocks == [Block(true, regionSize - nodeSize)] && order == [firstBlock]
      ensures firstBlock in mem && mem[firstBlock] == Node(true, regionSize - nodeSize, Null, Null)
    {
      this.nodeSize := nodeSize;
      this.regionSize := regionSize;
      firstBlock := 0;
      mem := map[0 := Node(true, regionSize - nodeSize, Null, Null)];
      order := [0];
      blocks := [Block(true, regionSize - nodeSize)];
    }

    /**
     * part1's `initialise`: the process exits when the region is NULL or its
     * size is 0 (None here); otherwise the allocator holds one free block of
     * `size - nodeSize` bytes with no neighbours.
     */
    static method Initialise(memory: Ptr, size: nat, nodeSize: nat) returns (a: Option<ListAllocator>)
      requires 0 < nodeSize
      requires size != 0 ==> nodeSize <= size
      ensures a.None? <==> size == 0 || memory.Null?
      ensures a.Some? ==> fresh(a.value) && a.value.Valid()
      ensures a.Some? ==> a.value.regionSize == size && a.value.nodeSize == nodeSize
      ensures a.Some? ==> a.value.blocks == [Block(true, size - nodeSize)]
      ensures a.Some? ==> a.value.order == [a.value.firstBlock]
      ensures a.Some? ==> a.value.firstBlock in a.value.mem && a.value.mem[a.value.firstBlock] == Node(true, size - nodeSize, Null, Null)
    {
      if size == 0 || memory.Null? {
        return None;
      }
      var allocator := new ListAllocator.Init(size, nodeSize);
      return Some(allocator);
    }

    /** A fitting block with no room for another header is marked used and handed out whole. */
    method TakeWhole(node: nat, bytes: nat, ghost k: nat) returns (r: Ptr)
      requires Valid() && k < |order| && order[k] == node && Fits(blocks[k], bytes)
      requires blocks[k].size <= bytes + nodeSize
      modifies this`mem, this`blocks
      ensures Valid()
      ensures Placed(old(mem), old(order), old(blocks), mem, order, blocks, Some(k), bytes, nodeSize, r)
    {
      assert Grant(blocks, k, bytes, nodeSize) == blocks[k := Block(false, blocks[k].size)];
      MarkLinked(mem, order, blocks, nodeSize, regionSize, k, false);
      MarkUsedKeepsNoAdjacentFree(blocks, k);
      mem := mem[node := mem[node].(free := false)];
      blocks := blocks[k := Block(false, blocks[k].size)];
      return At(node + nodeSize);
    }

    /**
     * The header writes of a split: a free header `bytes` into the body of
     * `node`, taking the rest of that body less one header, linked between
     * `node` and its old `next`; then `node` shrinks to `bytes`, used.
     */
    method WriteSplit(node: nat, bytes: nat) returns (tail: nat)
      requires node in mem && nodeSize > 0 && mem[node].size > bytes + nodeSize
      requires mem[node].next.At? ==> mem[node].next.offset in mem
      modifies this`mem
      ensures tail == node + nodeSize + bytes
      ensures var m2 := old(mem)[tail := Node(true, old(mem)[node].size - (bytes + nodeSize), old(mem)[node].next, At(node))];
        var after := old(mem)[node].next;
        var m3 := if after.At? then m2[after.offset := m2[after.offset].(prev := At(tail))] else m2;
        mem == m3[node := m3[node].(free := false, size := bytes, next := At(tail))]
    {
      var totalBytes := bytes + nodeSize;
      tail := node + nodeSize + bytes;
      mem := mem[tail := Node(true, mem[node].size - totalBytes, mem[node].next, At(node))];
      if mem[tail].next != Null {
        var after := mem[node].next.offset;
        mem := mem[after := mem[after].(prev := At(tail))];
      }
      mem := mem[node := mem[node].(free := false, size := bytes, next := At(tail))];
    }

    /** A fitting block with room for another header and one more byte keeps `bytes` and gives up the rest. */
    method TakeSplit(node: nat, bytes: nat, ghost k: nat) returns (r: Ptr)
      requires Valid() && k < |order| && order[k] == node && Fits(blocks[k], bytes)
      requires blocks[k].size > bytes + nodeSize
      modifies this`mem, this`order, this`blocks
      ensures Valid()
      ensures Placed(old(mem), old(order), old(blocks), mem, order, blocks, Some(k), bytes, nodeSize, r)
    {
      ghost var m0, o0, b0 := mem, order, blocks;
      assert k + 1 < |blocks| ==> !blocks[k + 1].free;
      Neighbours(mem, order, blocks, nodeSize, regionSize, k);
      var tail := WriteSplit(node, bytes);
      order := order[..k + 1] + [tail] + order[k + 1..];
      blocks := SplitAt(blocks, k, bytes, nodeSize);
      SplitPreserves(m0, mem, o0, b0, order, blocks, k, bytes, nodeSize, regionSize);
      return At(node + nodeSize);
    }

    /**
     * part1's `allocate`: 0 bytes gives NULL; otherwise the list is walked
     * from `firstBlock` to NULL and the first free block of at least `bytes`
     * bytes is taken, whole when it has no room for another header and at
     * least one more byte, split otherwise; NULL when none fits.
     */
    method Allocate(bytes: nat) returns (r: Ptr)
      requires Valid()
      modifies this`mem, this`order, this`blocks
      ensures Valid()
      ensures Placed(old(mem), old(order), old(blocks), mem, order, blocks,
                     if bytes < 1 then None else FirstFitIn(old(blocks), bytes, 0, |old(blocks)|), bytes, nodeSize, r)
    {
      var totalBytes := bytes + nodeSize;
      if bytes < 1 {
        return Null;
      }
      var node, k := Walk(mem, firstBlock, bytes, order, blocks, nodeSize, regionSize);
      if node == Null {
        return Null;
      }
      if mem[node.offset].size <= totalBytes {
        r := TakeWhole(node.offset, bytes, k);
      } else {
        r := TakeSplit(node.offset, bytes, k);
      }
    }

    /** `node->free = true` on a live block; its neighbours are not looked at yet. */
    method MarkFree(node: nat, ghost i: nat)
      requires Wf() && i < |order| && order[i] == node
      modifies this`mem, this`blocks
      ensures Wf()
      ensures blocks == old(blocks)[i := Block(true, old(blocks)[i].size)]
      ensures mem == old(mem)[node := old(mem)[node].(free := true)]
    {
      MarkLinked(mem, order, blocks, nodeSize, regionSize, i, true);
      mem := mem[node := mem[node].(free := true)];
      blocks := blocks[i := Block(true, blocks[i].size)];
    }

    /**
     * The header writes of one coalescing step: `keep` takes over the `next`
     * of `gone`, the block after it, and grows by `gone`'s body and header;
     * then the header after `gone`, if any, is pointed back at `keep`.
     */
    method WriteMerge(keep: nat, gone: nat)
      requires keep in mem && gone in mem && keep != gone
      requires mem[gone].next.At? ==> mem[gone].next.offset in mem
      modifies this`mem
      ensures mem.Keys == old(mem).Keys
      ensures var m2 := old(mem)[keep := old(mem)[keep].(next := old(mem)[gone].next, size := old(mem)[keep].size + old(mem)[gone].size + nodeSize)];
        var after := old(mem)[gone].next;
        mem == if after.At? then m2[after.offset := m2[after.offset].(prev := At(keep))] else m2
    {
      mem := mem[keep := mem[keep].(next := mem[gone].next, size := mem[keep].size + mem[gone].size + nodeSize)];
      if mem[gone].next != Null {
        var next := mem[gone].next.offset;
        mem := mem[next := mem[next].(prev := At(keep))];
      }
    }

    /** One coalescing step: block `j`, at `keep`, absorbs block `j + 1`, at `gone`. */
    method Absorb(keep: nat, gone: nat, ghost j: nat)
      requires Wf() && j + 1 < |order| && order[j] == keep && order[j + 1] == gone && blocks[j].free
      modifies this`mem, this`order, this`blocks
      ensures Wf() && mem.Keys == old(mem).Keys
      ensures blocks == MergeAt(old(blocks), j, nodeSize)
      ensures order == old(order)[..j + 1] + old(order)[j + 2..]
    {
      ghost var m0, o0, b0 := mem, order, blocks;
      Neighbours(mem, order, blocks, nodeSize, regionSize, j);
      Neighbours(mem, order, blocks, nodeSize, regionSize, j + 1);
      assert order[Succ(j, |order|)] == gone;
      WriteMerge(keep, gone);
      order := order[..j + 1] + order[j + 2..];
      blocks := MergeAt(blocks, j, nodeSize);
      MergePreserves(m0, mem, o0, b0, order, blocks, j, nodeSize, regionSize);
    }

    /** The first coalescing step of part1's `deallocate`: a free block after block `i` is absorbed. */
    method CoalesceNext(node: nat, nextNode: Ptr, ghost i: nat)
      requires Wf() && i < |order| && order[i] == node && blocks[i].free
      requires nextNode == if i + 1 < |order| then At(order[i + 1]) else Null
      modifies this`mem, this`order, this`blocks
      ensures Wf() && mem.Keys == old(mem).Keys
      ensures i < |order| && order[i] == node && (0 < i ==> order[i - 1] == old(order)[i - 1])
      ensures var merge := i + 1 < |old(blocks)| && old(blocks)[i + 1].free;
        blocks == (if merge then MergeAt(old(blocks), i, nodeSize) else old(blocks))
        && order == (if merge then old(order)[..i + 1] + old(order)[i + 2..] else old(order))
    {
      if i + 1 < |order| {
        Neighbours(mem, order, blocks, nodeSize, regionSize, i + 1);
      }
      if nextNode != Null && mem[nextNode.offset].free {
        Absorb(node, nextNode.offset, i);
      }
    }

    /** The second coalescing step: `prevNode`, read before the first step, absorbs block `i` when it is free. */
    method CoalescePrev(prevNode: Ptr, node: nat, ghost i: nat)
      requires Wf() && i < |order| && order[i] == node && blocks[i].free
      requires prevNode == if 0 < i then At(order[i - 1]) else Null
      modifies this`mem, this`order, this`blocks
      ensures Wf()
      ensures var merge := 0 < i && old(blocks)[i - 1].free;
        blocks == (if merge then MergeAt(old(blocks), i - 1, nodeSize) else old(blocks))
        && order == (if merge then old(order)[..i] + old(order)[i + 1..] else old(order))
    {
      if 0 < i {
        Neighbours(mem, order, blocks, nodeSize, regionSize, i - 1);
      }
      if prevNode != Null && mem[prevNode.offset].free {
        Absorb(prevNode.offset, node, i - 1);
      }
    }

    /**
     * part1's `deallocate`: NULL is ignored; otherwise the block whose body
     * starts at `memory` is freed and coalesced with a free successor and
     * then with a free predecessor. The list is Release of the old one and
     * each surviving block keeps its header.
     */
    method Deallocate(memory: Ptr, ghost i: nat)
      requires Valid()
      requires memory.At? ==> i < |order| && memory.offset == order[i] + nodeSize
      modifies this`mem, this`order, this`blocks
      ensures Valid()
      ensures memory.Null? ==> mem == old(mem) && order == old(order) && blocks == old(blocks)
      ensures memory.At? ==> blocks == Release(old(blocks), i, nodeSize)
      ensures memory.At? ==> order == ReleaseOrder(old(order), old(blocks), i)
    {
      if memory.Null? {
        return;
      }
      var node := memory.offset - nodeSize;
      ghost var b0 := blocks;
      Neighbours(mem, order, blocks, nodeSize, regionSize, i);
      var prevNode := mem[node].prev;
      var nextNode := mem[node].next;
      MarkFree(node, i);
      CoalesceNext(node, nextNode, i);
      ReleaseStages(b0, i, nodeSize);
      CoalescePrev(prevNode, node, i);
      ReleaseKeepsNoAdjacentFree(b0, i, nodeSize);
    }
  }
}
