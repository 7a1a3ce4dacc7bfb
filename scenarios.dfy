/**
 * Runs of the two allocators on the regions their own test programs use,
 * with 16-byte headers, and the values those programs check.
 */
module Scenarios {
  import opened Blocks
  import Linear
  import Circular

  /**
   * A 200-byte region leaves one free block of 184 bytes; a request of
   * 2000 bytes gets NULL and changes nothing; a request of 180 bytes gets
   * that whole block, since 184 <= 180 + 16 leaves no room for a header.
   */
  method NoRoomForNewNode() returns (over: Ptr, p: Ptr, free: bool, size: nat)
    ensures over == Null && p == At(16) && !free && size == 184
  {
    var opt := Linear.ListAllocator.Initialise(At(0), 200, 16);
    var a := opt.value;
    assert a.blocks == [Block(true, 184)];
    over := a.Allocate(2000);
    p := a.Allocate(180);
    assert a.blocks == [Block(false, 184)] && a.order == [0];
    free, size := a.mem[0].free, a.mem[0].size;
  }

  /**
   * First-fit on a list whose only free block is the last one, big enough
   * to split: the request is carved from the front of that block and the
   * rest stays free at the end of the list.
   */
  method Carve(a: Linear.ListAllocator, bytes: nat, ghost used: seq<Block>, ghost rest: nat) returns (p: Ptr)
    requires a.Valid() && 1 <= bytes && rest > bytes + a.nodeSize
    requires a.blocks == used + [Block(true, rest)] && forall j :: 0 <= j < |used| ==> !used[j].free
    modifies a
    ensures a.Valid() && a.blocks == used + [Block(false, bytes), Block(true, rest - bytes - a.nodeSize)]
    ensures |old(a.order)| == |used| + 1 && p == At(old(a.order)[|used|] + a.nodeSize)
    ensures a.order == old(a.order) + [old(a.order)[|used|] + a.nodeSize + bytes]
  {
    ghost var k := |used|;
    ghost var o0 := a.order;
    assert FirstFitIn(a.blocks, bytes, 0, |a.blocks|) == Some(k);
    assert SplitAt(a.blocks, k, bytes, a.nodeSize) == used + [Block(false, bytes), Block(true, rest - bytes - a.nodeSize)];
    assert o0[k + 1..] == [];
    p := a.Allocate(bytes);
  }

  /** Four requests of 20 bytes carved one after another from the front of a fresh 200-byte region. */
  method FillFour(a: Linear.ListAllocator) returns (t2: Ptr, t3: Ptr, t4: Ptr, t5: Ptr)
    requires a.Valid() && a.nodeSize == 16 && a.blocks == [Block(true, 184)] && a.order == [0]
    modifies a
    ensures a.Valid() && t2 == At(16) && t3 == At(52) && t4 == At(88) && t5 == At(124)
    ensures a.blocks == [Block(false, 20), Block(false, 20), Block(false, 20), Block(false, 20), Block(true, 40)]
    ensures a.order == [0, 36, 72, 108, 144]
  {
    var u := Block(false, 20);
    t2 := Carve(a, 20, [], 184);
    t3 := Carve(a, 20, [u], 148);
    t4 := Carve(a, 20, [u, u], 112);
    t5 := Carve(a, 20, [u, u, u], 76);
  }

  /**
   * Freeing the second, the third and the first of four 20-byte blocks in
   * that order: a lone free block, a merge with the free block before it,
   * and a merge with the free block after it.
   */
  method FreeThree(a: Linear.ListAllocator, t2: Ptr, t3: Ptr, t4: Ptr)
    requires a.Valid() && a.nodeSize == 16 && t2 == At(16) && t3 == At(52) && t4 == At(88)
    requires a.blocks == [Block(false, 20), Block(false, 20), Block(false, 20), Block(false, 20), Block(true, 40)]
    requires a.order == [0, 36, 72, 108, 144]
    modifies a
    ensures a.Valid() && a.blocks == [Block(true, 92), Block(false, 20), Block(true, 40)] && a.order == [0, 108, 144]
  {
    FreeMiddlePair(a, t3, t4);
    a.Deallocate(t2, 0);
  }

  /** The second block freed alone, then the third merged into it. */
  method FreeMiddlePair(a: Linear.ListAllocator, t3: Ptr, t4: Ptr)
    requires a.Valid() && a.nodeSize == 16 && t3 == At(52) && t4 == At(88)
    requires a.blocks == [Block(false, 20), Block(false, 20), Block(false, 20), Block(false, 20), Block(true, 40)]
    requires a.order == [0, 36, 72, 108, 144]
    modifies a
    ensures a.Valid() && a.blocks == [Block(false, 20), Block(true, 56), Block(false, 20), Block(true, 40)]
    ensures a.order == [0, 36, 108, 144]
  {
    a.Deallocate(t3, 1);
    assert a.blocks == [Block(false, 20), Block(true, 20), Block(false, 20), Block(false, 20), Block(true, 40)];
    a.Deallocate(t4, 2);
  }

  /**
   * Four requests of 20 bytes from a 200-byte region, then the second, the
   * third and the first freed: the first block ends up free, holding the
   * three bodies and two of the headers, 3 * 20 + 2 * 16 bytes.
   */
  method TripleCoalesce() returns (free: bool, size: nat)
    ensures free && size == 3 * 20 + 2 * 16
  {
    var opt := Linear.ListAllocator.Initialise(At(0), 200, 16);
    var a := opt.value;
    var t2, t3, t4, t5 := FillFour(a);
    FreeThree(a, t2, t3, t4);
    assert a.order[0] == 0;
    free, size := a.mem[0].free, a.mem[0].size;
  }

  /**
   * Any policy on a list whose only free block is the last one, big enough
   * to split: the request is carved from the front of that block, and the
   * cursor moves onto it under next-fit and stays where it was otherwise.
   */
  method CarveLast(a: Circular.Allocator, bytes: nat, ghost used: seq<Block>, ghost rest: nat) returns (p: Ptr)
    requires a.Valid() && 1 <= bytes && rest > bytes + a.nodeSize
    requires a.blocks == used + [Block(true, rest)] && forall j :: 0 <= j < |used| ==> !used[j].free
    modifies a
    ensures a.Valid() && a.blocks == used + [Block(false, bytes), Block(true, rest - bytes - a.nodeSize)]
    ensures |old(a.order)| == |used| + 1 && p == At(old(a.order)[|used|] + a.nodeSize)
    ensures a.order == old(a.order) + [old(a.order)[|used|] + a.nodeSize + bytes]
    ensures a.cursor == if a.policy == Circular.UseNextFit then |used| else old(a.cursor)
  {
    ghost var k := |used|;
    ghost var o0 := a.order;
    assert Circular.Placement(a.policy, a.blocks, bytes, a.cursor) == Some(k);
    assert SplitAt(a.blocks, k, bytes, a.nodeSize) == used + [Block(false, bytes), Block(true, rest - bytes - a.nodeSize)];
    assert o0[k + 1..] == [];
    p := a.Allocate(bytes);
  }

  /** Requests of 20, 10, 20, 20 and 20 bytes under next-fit, carved from the front of a fresh 240-byte region. */
  method FillFive(a: Circular.Allocator) returns (t1: Ptr, t2: Ptr, t3: Ptr, t4: Ptr, t5: Ptr)
    requires a.Valid() && a.policy == Circular.UseNextFit && a.nodeSize == 16
    requires a.blocks == [Block(true, 224)] && a.order == [0]
    modifies a
    ensures a.Valid() && t1 == At(16) && t2 == At(52) && t3 == At(78) && t4 == At(114) && t5 == At(150)
    ensures a.blocks == [Block(false, 20), Block(false, 10), Block(false, 20), Block(false, 20), Block(false, 20), Block(true, 54)]
    ensures a.order == [0, 36, 62, 98, 134, 170] && a.cursor == 4
  {
    var u, v := Block(false, 20), Block(false, 10);
    t1 := CarveLast(a, 20, [], 224);
    t2 := CarveLast(a, 10, [u], 188);
    t3 := CarveLast(a, 20, [u, v], 162);
    t4 := CarveLast(a, 20, [u, v, u], 126);
    t5 := CarveLast(a, 20, [u, v, u, u], 90);
  }

  /**
   * 54 bytes take the last block whole (54 <= 54 + 16); the 10-byte block
   * is freed and then taken again by a request of 10 bytes, found by
   * wrapping round from the last block, so the cursor rests on it.
   */
  method RefillSecond(a: Circular.Allocator, t2: Ptr) returns (t6: Ptr)
    requires a.Valid() && a.policy == Circular.UseNextFit && a.nodeSize == 16 && t2 == At(52)
    requires a.blocks == [Block(false, 20), Block(false, 10), Block(false, 20), Block(false, 20), Block(false, 20), Block(true, 54)]
    requires a.order == [0, 36, 62, 98, 134, 170] && a.cursor == 4
    modifies a
    ensures a.Valid() && a.order == [0, 36, 62, 98, 134, 170] && a.cursor == 1 && t6 == At(186)
    ensures a.blocks == [Block(false, 20), Block(false, 10), Block(false, 20), Block(false, 20), Block(false, 20), Block(false, 54)]
  {
    assert Circular.Placement(Circular.UseNextFit, a.blocks, 54, a.cursor) == Some(5);
    t6 := a.Allocate(54);
    a.Deallocate(t2, 1);
    assert a.blocks == [Block(false, 20), Block(true, 10), Block(false, 20), Block(false, 20), Block(false, 20), Block(false, 54)];
    assert Circular.Placement(Circular.UseNextFit, a.blocks, 10, a.cursor) == Some(1);
    var t7 := a.Allocate(10);
  }

  /** The first and the third block freed, neither next to a free block. */
  method FreeFirstAndThird(a: Circular.Allocator, t1: Ptr, t3: Ptr)
    requires a.Valid() && a.nodeSize == 16 && t1 == At(16) && t3 == At(78)
    requires a.blocks == [Block(false, 20), Block(false, 10), Block(false, 20), Block(false, 20), Block(false, 20), Block(false, 54)]
    requires a.order == [0, 36, 62, 98, 134, 170] && a.cursor == 1
    modifies a
    ensures a.Valid() && a.order == [0, 36, 62, 98, 134, 170] && a.cursor == 1
    ensures a.blocks == [Block(true, 20), Block(false, 10), Block(true, 20), Block(false, 20), Block(false, 20), Block(false, 54)]
  {
    a.Deallocate(t1, 0);
    a.Deallocate(t3, 2);
  }

  /**
   * With 20 bytes free at both the first and the third block and the
   * cursor on the second, a request of 20 bytes under next-fit takes the
   * third block, where first-fit would take the first.
   */
  method ResumeAtCursor(a: Circular.Allocator, t1: Ptr, t3: Ptr) returns (t9: Ptr)
    requires a.Valid() && a.policy == Circular.UseNextFit && a.nodeSize == 16 && t1 == At(16) && t3 == At(78)
    requires a.blocks == [Block(false, 20), Block(false, 10), Block(false, 20), Block(false, 20), Block(false, 20), Block(false, 54)]
    requires a.order == [0, 36, 62, 98, 134, 170] && a.cursor == 1
    modifies a
    ensures a.Valid() && a.order == [0, 36, 62, 98, 134, 170] && a.cursor == 2 && t9 == At(78)
    ensures a.blocks == [Block(true, 20), Block(false, 10), Block(false, 20), Block(false, 20), Block(false, 20), Block(false, 54)]
  {
    FreeFirstAndThird(a, t1, t3);
    assert FirstFitIn(a.blocks, 20, 0, |a.blocks|) == Some(0);
    assert FirstFitIn(a.blocks, 20, a.cursor, |a.blocks|) == Some(2);
    assert Circular.Placement(Circular.UseNextFit, a.blocks, 20, a.cursor) == Some(2);
    t9 := a.Allocate(20);
  }

  /** Next-fit resumes at `lastUsed`: the third block is the one handed out. */
  method NextFitResumes() returns (p: Ptr, free: bool, size: nat)
    ensures p == At(62 + 16) && !free && size == 20
  {
    var opt := Circular.Allocator.Initialise(At(0), 240, 16, Some("NextFit"));
    var a := opt.value;
    var t1, t2, t3, t4, t5 := FillFive(a);
    var t6 := RefillSecond(a, t2);
    p := ResumeAtCursor(a, t1, t3);
    assert a.order[2] == 62;
    free, size := a.mem[62].free, a.mem[62].size;
  }

  /** The last block is freed and a request of 20 bytes, found from the cursor on, splits it. */
  method SplitTail(a: Circular.Allocator, t6: Ptr)
    requires a.Valid() && a.policy == Circular.UseNextFit && a.nodeSize == 16 && t6 == At(186)
    requires a.blocks == [Block(true, 20), Block(false, 10), Block(false, 20), Block(false, 20), Block(false, 20), Block(false, 54)]
    requires a.order == [0, 36, 62, 98, 134, 170] && a.cursor == 2
    modifies a
    ensures a.Valid() && a.order == [0, 36, 62, 98, 134, 170, 206] && a.cursor == 5
    ensures a.blocks == [Block(true, 20), Block(false, 10), Block(false, 20), Block(false, 20), Block(false, 20), Block(false, 20), Block(true, 18)]
  {
    var u, v := Block(false, 20), Block(false, 10);
    a.Deallocate(t6, 5);
    assert a.blocks == [Block(true, 20), v, u, u, u, Block(true, 54)];
    assert FirstFitIn(a.blocks, 20, a.cursor, |a.blocks|) == Some(5);
    assert Circular.Placement(Circular.UseNextFit, a.blocks, 20, a.cursor) == Some(5);
    assert SplitAt(a.blocks, 5, 20, 16) == [Block(true, 20), v, u, u, u, u, Block(true, 18)];
    var t10 := a.Allocate(20);
  }

  /**
   * A request of 18 bytes takes the 18-byte remainder whole, and the next
   * request of 20 bytes wraps round to the free first block.
   */
  method WrapRound(a: Circular.Allocator) returns (t11: Ptr, t12: Ptr)
    requires a.Valid() && a.policy == Circular.UseNextFit && a.nodeSize == 16
    requires a.blocks == [Block(true, 20), Block(false, 10), Block(false, 20), Block(false, 20), Block(false, 20), Block(false, 20), Block(true, 18)]
    requires a.order == [0, 36, 62, 98, 134, 170, 206] && a.cursor == 5
    modifies a
    ensures a.Valid() && a.order == [0, 36, 62, 98, 134, 170, 206] && a.cursor == 0
    ensures t11 == At(222) && t12 == At(16)
    ensures a.blocks == [Block(false, 20), Block(false, 10), Block(false, 20), Block(false, 20), Block(false, 20), Block(false, 20), Block(false, 18)]
  {
    var u, v := Block(false, 20), Block(false, 10);
    assert FirstFitIn(a.blocks, 18, a.cursor, |a.blocks|) == Some(6);
    assert Circular.Placement(Circular.UseNextFit, a.blocks, 18, a.cursor) == Some(6);
    t11 := a.Allocate(18);
    assert a.blocks == [Block(true, 20), v, u, u, u, u, Block(false, 18)];
    assert FirstFitIn(a.blocks, 20, a.cursor, |a.blocks|) == None;
    assert Circular.Placement(Circular.UseNextFit, a.blocks, 20, a.cursor) == Some(0);
    t12 := a.Allocate(20);
  }

  /** The fourth block is freed and taken again by the next request of 20 bytes. */
  method ReuseFourth(a: Circular.Allocator, t4: Ptr) returns (t13: Ptr)
    requires a.Valid() && a.policy == Circular.UseNextFit && a.nodeSize == 16 && t4 == At(114)
    requires a.blocks == [Block(false, 20), Block(false, 10), Block(false, 20), Block(false, 20), Block(false, 20), Block(false, 20), Block(false, 18)]
    requires a.order == [0, 36, 62, 98, 134, 170, 206] && a.cursor == 0
    modifies a
    ensures a.Valid() && a.order == [0, 36, 62, 98, 134, 170, 206] && a.cursor == 3 && t13 == At(114)
    ensures a.blocks == [Block(false, 20), Block(false, 10), Block(false, 20), Block(false, 20), Block(false, 20), Block(false, 20), Block(false, 18)]
  {
    a.Deallocate(t4, 3);
    assert FirstFitIn(a.blocks, 20, a.cursor, |a.blocks|) == Some(3);
    assert Circular.Placement(Circular.UseNextFit, a.blocks, 20, a.cursor) == Some(3);
    t13 := a.Allocate(20);
  }

  /** The first and third of seven blocks freed, not neighbours. */
  method FreeFrontPair(a: Circular.Allocator, t12: Ptr, t9: Ptr)
    requires a.Valid() && a.nodeSize == 16 && t12 == At(16) && t9 == At(78)
    requires a.blocks == [Block(false, 20), Block(false, 10), Block(false, 20), Block(false, 20), Block(false, 20), Block(false, 20), Block(false, 18)]
    requires a.order == [0, 36, 62, 98, 134, 170, 206] && a.cursor == 3
    modifies a
    ensures a.Valid() && a.order == [0, 36, 62, 98, 134, 170, 206] && a.cursor == 3
    ensures a.blocks == [Block(true, 20), Block(false, 10), Block(true, 20), Block(false, 20), Block(false, 20), Block(false, 20), Block(false, 18)]
  {
    a.Deallocate(t12, 0);
    a.Deallocate(t9, 2);
  }

  /**
   * The fifth and seventh of seven blocks freed: neither merges, the
   * seventh because its successor is the first block.
   */
  method FreeBackPair(a: Circular.Allocator, t5: Ptr, t11: Ptr)
    requires a.Valid() && a.nodeSize == 16 && t5 == At(150) && t11 == At(222)
    requires a.blocks == [Block(true, 20), Block(false, 10), Block(true, 20), Block(false, 20), Block(false, 20), Block(false, 20), Block(false, 18)]
    requires a.order == [0, 36, 62, 98, 134, 170, 206] && a.cursor == 3
    modifies a
    ensures a.Valid() && a.order == [0, 36, 62, 98, 134, 170, 206] && a.cursor == 3
    ensures a.blocks == [Block(true, 20), Block(false, 10), Block(true, 20), Block(false, 20), Block(true, 20), Block(false, 20), Block(true, 18)]
  {
    a.Deallocate(t5, 4);
    a.Deallocate(t11, 6);
  }

  /**
   * Freeing the fourth block, which the cursor is on, merges it with both
   * free neighbours into one block of 20 + 20 + 20 + 2 * 16 bytes, and the
   * cursor moves onto the merged block.
   */
  method MergeUnderCursor(a: Circular.Allocator, t13: Ptr)
    requires a.Valid() && a.nodeSize == 16 && t13 == At(114)
    requires a.blocks == [Block(true, 20), Block(false, 10), Block(true, 20), Block(false, 20), Block(true, 20), Block(false, 20), Block(true, 18)]
    requires a.order == [0, 36, 62, 98, 134, 170, 206] && a.cursor == 3
    modifies a
    ensures a.Valid() && a.order == [0, 36, 62, 170, 206] && a.cursor == 2
    ensures a.blocks == [Block(true, 20), Block(false, 10), Block(true, 92), Block(false, 20), Block(true, 18)]
  {
    a.Deallocate(t13, 3);
  }

  /** A request of 20 bytes is carved from the merged block under the cursor, although the first block fits. */
  method ServeMerged(a: Circular.Allocator) returns (p: Ptr)
    requires a.Valid() && a.policy == Circular.UseNextFit && a.nodeSize == 16
    requires a.blocks == [Block(true, 20), Block(false, 10), Block(true, 92), Block(false, 20), Block(true, 18)]
    requires a.order == [0, 36, 62, 170, 206] && a.cursor == 2
    modifies a
    ensures a.Valid() && a.order == [0, 36, 62, 98, 170, 206] && a.cursor == 2 && p == At(78)
    ensures a.blocks == [Block(true, 20), Block(false, 10), Block(false, 20), Block(true, 56), Block(false, 20), Block(true, 18)]
  {
    assert FirstFitIn(a.blocks, 20, 0, |a.blocks|) == Some(0);
    assert FirstFitIn(a.blocks, 20, a.cursor, |a.blocks|) == Some(2);
    assert Circular.Placement(Circular.UseNextFit, a.blocks, 20, a.cursor) == Some(2);
    p := a.Allocate(20);
  }

  /**
   * Next-fit keeps its cursor through a merge: after the block under the
   * cursor is merged into its free neighbours, the next request of 20
   * bytes is served from the merged block, not from the free first block.
   */
  method NextFitKeepsCursor() returns (p: Ptr, free: bool, size: nat)
    ensures p == At(62 + 16) && !free && size == 20
  {
    var opt := Circular.Allocator.Initialise(At(0), 240, 16, Some("NextFit"));
    var a := opt.value;
    var t1, t2, t3, t4, t5 := FillFive(a);
    var t6 := RefillSecond(a, t2);
    var t9 := ResumeAtCursor(a, t1, t3);
    SplitTail(a, t6);
    var t11, t12 := WrapRound(a);
    var t13 := ReuseFourth(a, t4);
    FreeFrontPair(a, t12, t9);
    FreeBackPair(a, t5, t11);
    MergeUnderCursor(a, t13);
    p := ServeMerged(a);
    assert a.order[2] == 62;
    free, size := a.mem[62].free, a.mem[62].size;
  }

  /** Requests of 60, 40, 30, 5 and 30 bytes under best-fit, carved from the front of a fresh 400-byte region. */
  method FillBest(a: Circular.Allocator) returns (t2: Ptr, t4: Ptr)
    requires a.Valid() && a.policy == Circular.UseBestFit && a.nodeSize == 16
    requires a.blocks == [Block(true, 384)] && a.order == [0]
    modifies a
    ensures a.Valid() && t2 == At(92) && t4 == At(194)
    ensures a.blocks == [Block(false, 60), Block(false, 40), Block(false, 30), Block(false, 5), Block(false, 30), Block(true, 139)]
    ensures a.order == [0, 76, 132, 178, 199, 245]
  {
    var t1 := CarveLast(a, 60, [], 384);
    t2 := CarveLast(a, 40, [Block(false, 60)], 308);
    var t3 := CarveLast(a, 30, [Block(false, 60), Block(false, 40)], 252);
    t4 := CarveLast(a, 5, [Block(false, 60), Block(false, 40), Block(false, 30)], 206);
    var t5 := CarveLast(a, 30, [Block(false, 60), Block(false, 40), Block(false, 30), Block(false, 5)], 185);
  }

  /** The 40-byte and the 5-byte block freed, neither next to a free block. */
  method FreeHoles(a: Circular.Allocator, t2: Ptr, t4: Ptr)
    requires a.Valid() && a.nodeSize == 16 && t2 == At(92) && t4 == At(194)
    requires a.blocks == [Block(false, 60), Block(false, 40), Block(false, 30), Block(false, 5), Block(false, 30), Block(true, 139)]
    requires a.order == [0, 76, 132, 178, 199, 245]
    modifies a
    ensures a.Valid() && a.order == [0, 76, 132, 178, 199, 245]
    ensures a.blocks == [Block(false, 60), Block(true, 40), Block(false, 30), Block(true, 5), Block(false, 30), Block(true, 139)]
  {
    a.Deallocate(t2, 1);
    a.Deallocate(t4, 3);
  }

  /** Of holes of 40, 5 and 139 bytes, best-fit picks the 5-byte one for a request of 5 bytes. */
  lemma BestOfHoles()
    ensures BestFitIn([Block(false, 60), Block(true, 40), Block(false, 30), Block(true, 5), Block(false, 30), Block(true, 139)], 5, 6) == Some(3)
  {
    var bs := [Block(false, 60), Block(true, 40), Block(false, 30), Block(true, 5), Block(false, 30), Block(true, 139)];
    assert BestFitIn(bs, 5, 2) == Some(1);
    assert BestFitIn(bs, 5, 4) == Some(3);
  }

  /**
   * Best-fit stops at an exact fit: with 40 bytes free at the second block
   * and 5 at the fourth, a request of 5 bytes takes the fourth whole.
   */
  method BestFitTakesExact() returns (p: Ptr, free: bool, size: nat)
    ensures p == At(178 + 16) && !free && size == 5
  {
    var opt := Circular.Allocator.Initialise(At(0), 400, 16, Some("BestFit"));
    var a := opt.value;
    var t2, t4 := FillBest(a);
    FreeHoles(a, t2, t4);
    BestOfHoles();
    assert Circular.Placement(Circular.UseBestFit, a.blocks, 5, a.cursor) == Some(3);
    p := a.Allocate(5);
    assert a.order[3] == 178;
    free, size := a.mem[178].free, a.mem[178].size;
  }

  /** Requests of 20, 5, 30, 5 and 60 bytes under worst-fit fill a fresh 200-byte region exactly. */
  method FillWorst(a: Circular.Allocator) returns (t2: Ptr, t5: Ptr)
    requires a.Valid() && a.policy == Circular.UseWorstFit && a.nodeSize == 16
    requires a.blocks == [Block(true, 184)] && a.order == [0]
    modifies a
    ensures a.Valid() && t2 == At(52) && t5 == At(140)
    ensures a.blocks == [Block(false, 20), Block(false, 5), Block(false, 30), Block(false, 5), Block(false, 60)]
    ensures a.order == [0, 36, 57, 103, 124]
  {
    var t1 := CarveLast(a, 20, [], 184);
    t2 := CarveLast(a, 5, [Block(false, 20)], 148);
    var t3 := CarveLast(a, 30, [Block(false, 20), Block(false, 5)], 127);
    var t4 := CarveLast(a, 5, [Block(false, 20), Block(false, 5), Block(false, 30)], 81);
    t5 := TakeLastSixty(a);
  }

  /** A request of 60 bytes takes the last, 60-byte block whole. */
  method TakeLastSixty(a: Circular.Allocator) returns (p: Ptr)
    requires a.Valid() && a.policy == Circular.UseWorstFit && a.nodeSize == 16
    requires a.blocks == [Block(false, 20), Block(false, 5), Block(false, 30), Block(false, 5), Block(true, 60)]
    requires a.order == [0, 36, 57, 103, 124]
    modifies a
    ensures a.Valid() && p == At(140)
    ensures a.blocks == [Block(false, 20), Block(false, 5), Block(false, 30), Block(false, 5), Block(false, 60)]
    ensures a.order == [0, 36, 57, 103, 124]
  {
    assert Circular.Placement(Circular.UseWorstFit, a.blocks, 60, a.cursor) == Some(4);
    p := a.Allocate(60);
  }

  /**
   * Worst-fit takes the largest hole: with 5 bytes free at the second
   * block and 60 at the last, a request of 5 bytes splits the last one.
   */
  method WorstFitTakesLargest() returns (p: Ptr, free: bool, size: nat)
    ensures p == At(124 + 16) && !free && size == 5
  {
    var opt := Circular.Allocator.Initialise(At(0), 200, 16, Some("WorstFit"));
    var a := opt.value;
    var t2, t5 := FillWorst(a);
    a.Deallocate(t2, 1);
    a.Deallocate(t5, 4);
    assert a.blocks == [Block(false, 20), Block(true, 5), Block(false, 30), Block(false, 5), Block(true, 60)];
    assert Circular.Placement(Circular.UseWorstFit, a.blocks, 5, a.cursor) == Some(4);
    p := a.Allocate(5);
    assert a.order[4] == 124;
    free, size := a.mem[124].free, a.mem[124].size;
  }
}
