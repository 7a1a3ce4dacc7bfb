/**
 * The abstract view of the allocator's block list, shared by the circular
 * multi-policy allocator (part3.c) and the linear first-fit one (part1.c).
 *
 * A block is what its header says without the links: the `free` flag and the
 * body `size`. The list is the sequence of blocks in address order. The four
 * placement rules, the split rule and the coalescing rule are stated here as
 * functions on that sequence; the allocator classes are proved to implement
 * them, and the lemmas below say what the rules keep true.
 */
module Blocks {

  datatype Option<T> = None | Some(value: T)

  /** A pointer into the region: NULL, or a byte offset from the region's start. */
  datatype Ptr = Null | At(offset: nat)

  /** The in-band header written at the front of every block (`Node`). */
  datatype Node = Node(free: bool, size: nat, next: Ptr, prev: Ptr)

  /** A block as the placement and coalescing rules see it. */
  datatype Block = Block(free: bool, size: nat)

  /** A block a request of `bytes` may be placed in: free and big enough. */
  predicate Fits(b: Block, bytes: nat)
  {
    b.free && bytes <= b.size
  }

  /** Bytes a run of blocks covers: every body plus its header. */
  function Span(bs: seq<Block>, nodeSize: nat): nat
  {
    if bs == [] then 0 else bs[0].size + nodeSize + Span(bs[1..], nodeSize)
  }

  lemma {:induction false} SpanAppend(a: seq<Block>, b: seq<Block>, nodeSize: nat)
    ensures Span(a + b, nodeSize) == Span(a, nodeSize) + Span(b, nodeSize)
  {
    if a == [] {
      assert a + b == b;
    } else {
      assert (a + b)[1..] == a[1..] + b;
      SpanAppend(a[1..], b, nodeSize);
    }
  }

  /**
   * The headers stored in `mem` at the offsets `order` say what `bs` says,
   * block by block.
   */
  ghost predicate Headers(mem: map<nat, Node>, order: seq<nat>, bs: seq<Block>)
  {
    |order| == |bs|
    && forall i :: 0 <= i < |bs| ==>
         order[i] in mem && mem[order[i]].free == bs[i].free && mem[order[i]].size == bs[i].size
  }

  /** Span of a three-part split of a list, in one step. */
  lemma SpanSplice(bs: seq<Block>, lo: nat, hi: nat, nodeSize: nat)
    requires lo <= hi <= |bs|
    ensures Span(bs, nodeSize) == Span(bs[..lo], nodeSize) + Span(bs[lo..hi], nodeSize) + Span(bs[hi..], nodeSize)
  {
    assert bs == bs[..lo] + bs[lo..hi] + bs[hi..];
    SpanAppend(bs[..lo] + bs[lo..hi], bs[hi..], nodeSize);
    SpanAppend(bs[..lo], bs[lo..hi], nodeSize);
  }

  /** The position after `j` in a ring of `n` positions: the next one, or the first after the last. */
  function Succ(j: nat, n: nat): (s: nat)
    requires j < n
    ensures s < n && (s == 0 <==> j + 1 == n) && (s != 0 ==> s == j + 1)
  {
    if j + 1 < n then j + 1 else 0
  }

  /**
   * `order` lists the header offsets of `bs` and the blocks tile the region:
   * the first header sits at offset 0, every body runs up to the next header
   * and the last body runs up to the end of the region.
   */
  ghost predicate Tiled(order: seq<nat>, bs: seq<Block>, nodeSize: nat, regionSize: nat)
  {
    |order| == |bs| > 0 && order[0] == 0
    && (forall i {:trigger order[Succ(i, |order|)]} :: 0 <= i < |order| - 1 ==>
          order[Succ(i, |order|)] == order[i] + nodeSize + bs[i].size)
    && order[|bs| - 1] + nodeSize + bs[|bs| - 1].size == regionSize
  }

  /** Tiled, position by position: each header sits right after the body before it. */
  lemma TiledSteps(order: seq<nat>, bs: seq<Block>, nodeSize: nat, regionSize: nat)
    requires |order| == |bs| > 0
    ensures Tiled(order, bs, nodeSize, regionSize) <==>
      order[0] == 0
      && (forall i :: 0 <= i < |bs| - 1 ==> order[i + 1] == order[i] + nodeSize + bs[i].size)
      && order[|bs| - 1] + nodeSize + bs[|bs| - 1].size == regionSize
  {
    var n := |order|;
    if Tiled(order, bs, nodeSize, regionSize) {
      forall i | 0 <= i < n - 1
        ensures order[i + 1] == order[i] + nodeSize + bs[i].size
      {
        assert order[Succ(i, n)] == order[i + 1];
      }
    }
  }

  /**
   * Tiling pins every header offset down to the bytes covered before it, and
   * `size + nodeSize` summed over the list is the whole region.
   */
  lemma {:induction false} TiledSpan(order: seq<nat>, bs: seq<Block>, nodeSize: nat, regionSize: nat)
    requires Tiled(order, bs, nodeSize, regionSize)
    ensures forall i :: 0 <= i < |bs| ==> order[i] == Span(bs[..i], nodeSize)
    ensures Span(bs, nodeSize) == regionSize
  {
    TiledSteps(order, bs, nodeSize, regionSize);
    var k := 0;
    assert bs[..0] == [];
    while k < |bs| - 1
      invariant 0 <= k < |bs|
      invariant forall i :: 0 <= i <= k ==> order[i] == Span(bs[..i], nodeSize)
    {
      assert bs[..k + 1] == bs[..k] + [bs[k]];
      SpanAppend(bs[..k], [bs[k]], nodeSize);
      assert Span([bs[k]], nodeSize) == bs[k].size + nodeSize + Span([], nodeSize);
      k := k + 1;
    }
    var n := |bs| - 1;
    assert bs == bs[..n] + [bs[n]];
    SpanAppend(bs[..n], [bs[n]], nodeSize);
    assert Span([bs[n]], nodeSize) == bs[n].size + nodeSize + Span([], nodeSize);
  }

  /** Header offsets in strictly increasing address order. */
  ghost predicate Ascending(order: seq<nat>)
  {
    forall i, j :: 0 <= i < j < |order| ==> order[i] < order[j]
  }

  /** With a header of at least one byte, header offsets strictly increase and stay inside the region. */
  lemma TiledIncreasing(order: seq<nat>, bs: seq<Block>, nodeSize: nat, regionSize: nat)
    requires Tiled(order, bs, nodeSize, regionSize) && nodeSize > 0
    ensures Ascending(order)
    ensures forall i :: 0 <= i < |order| ==> order[i] + nodeSize + bs[i].size <= regionSize
  {
    TiledSteps(order, bs, nodeSize, regionSize);
    var k := 0;
    while k < |order| - 1
      invariant 0 <= k < |order|
      invariant forall i, j :: 0 <= i < j <= k ==> order[i] < order[j]
    {
      assert order[k + 1] == order[k] + nodeSize + bs[k].size;
      k := k + 1;
    }
    forall i | 0 <= i < |order|
      ensures order[i] + nodeSize + bs[i].size <= regionSize
    {
      if i < |order| - 1 {
        assert order[i + 1] <= order[|order| - 1];
      }
    }
  }

  // ---------------------------------------------------------------------
  // Placement policies
  // ---------------------------------------------------------------------

  /** First-fit over the index range [lo, hi): the first block there that fits. */
  function FirstFitIn(bs: seq<Block>, bytes: nat, lo: nat, hi: nat): (r: Option<nat>)
    requires lo <= hi <= |bs|
    ensures r.Some? ==> lo <= r.value < hi && Fits(bs[r.value], bytes)
                        && forall j :: lo <= j < r.value ==> !Fits(bs[j], bytes)
    ensures r.None? <==> forall j :: lo <= j < hi ==> !Fits(bs[j], bytes)
    decreases hi - lo
  {
    if lo == hi then None
    else if Fits(bs[lo], bytes) then Some(lo)
    else FirstFitIn(bs, bytes, lo + 1, hi)
  }

  /**
   * Next-fit from cursor `c`: the first block that fits scanning circularly
   * from `c` itself (inclusive) to the end and on from the start up to `c`.
   */
  function NextFitPick(bs: seq<Block>, bytes: nat, c: nat): (r: Option<nat>)
    requires c < |bs|
    ensures r.Some? ==> r.value < |bs| && Fits(bs[r.value], bytes)
    ensures r.Some? && c <= r.value ==> forall j :: c <= j < r.value ==> !Fits(bs[j], bytes)
    ensures r.Some? && r.value < c ==> (forall j :: c <= j < |bs| ==> !Fits(bs[j], bytes))
                                       && forall j :: 0 <= j < r.value ==> !Fits(bs[j], bytes)
    ensures r.None? <==> forall j :: 0 <= j < |bs| ==> !Fits(bs[j], bytes)
  {
    var tail := FirstFitIn(bs, bytes, c, |bs|);
    if tail.Some? then tail else FirstFitIn(bs, bytes, 0, c)
  }

  /** The index `k` steps after `c` round a ring of `n` blocks. */
  function Around(c: nat, k: nat, n: nat): (r: nat)
    requires c < n && k < n
    ensures r < n && (r < c <==> n <= c + k)
  {
    if c + k < n then c + k else c + k - n
  }

  /** None of the first `k` blocks a circular scan from `c` visits fits. */
  ghost predicate ScannedUnfit(bs: seq<Block>, bytes: nat, c: nat, k: nat)
    requires c < |bs| && k <= |bs|
  {
    forall t :: 0 <= t < k ==> !Fits(bs[Around(c, t, |bs|)], bytes)
  }

  /**
   * A circular scan from `c` that passes `k` unfit blocks and then meets a
   * fitting one stops where next-fit does.
   */
  lemma ScanFindsNextFit(bs: seq<Block>, bytes: nat, c: nat, k: nat)
    requires c < |bs| && k < |bs| && ScannedUnfit(bs, bytes, c, k)
    requires Fits(bs[Around(c, k, |bs|)], bytes)
    ensures NextFitPick(bs, bytes, c) == Some(Around(c, k, |bs|))
  {
    var n, j := |bs|, Around(c, k, |bs|);
    forall t | c <= t < n && t < c + k
      ensures !Fits(bs[t], bytes)
    {
      assert Around(c, t - c, n) == t;
    }
    forall t | 0 <= t < j && j < c
      ensures !Fits(bs[t], bytes)
    {
      assert Around(c, t + n - c, n) == t;
    }
    var tail := FirstFitIn(bs, bytes, c, n);
    if c + k < n {
      assert tail.Some? && tail.value <= j;
    } else {
      assert tail.None?;
      var head := FirstFitIn(bs, bytes, 0, c);
      assert head.Some? && head.value <= j;
    }
  }

  /** A circular scan from `c` that passes every block unfit is next-fit's failure. */
  lemma ScanMissesNextFit(bs: seq<Block>, bytes: nat, c: nat)
    requires c < |bs| && ScannedUnfit(bs, bytes, c, |bs|)
    ensures NextFitPick(bs, bytes, c) == None
  {
    var n := |bs|;
    forall t | 0 <= t < n
      ensures !Fits(bs[t], bytes)
    {
      if c <= t {
        assert Around(c, t - c, n) == t;
      } else {
        assert Around(c, t + n - c, n) == t;
      }
    }
  }

  /**
   * Best-fit over the first `hi` blocks: a fitting block of least size, the
   * earliest among equals (a later block replaces the best only when strictly
   * smaller).
   */
  function BestFitIn(bs: seq<Block>, bytes: nat, hi: nat): (r: Option<nat>)
    requires hi <= |bs|
    ensures r.Some? ==> r.value < hi && Fits(bs[r.value], bytes)
    ensures r.None? <==> forall j :: 0 <= j < hi ==> !Fits(bs[j], bytes)
  {
    if hi == 0 then None
    else
      var best := BestFitIn(bs, bytes, hi - 1);
      if Fits(bs[hi - 1], bytes) && (best.None? || bs[hi - 1].size < bs[best.value].size)
      then Some(hi - 1)
      else best
  }

  /**
   * The block best-fit picks is no larger than any fitting block, and
   * strictly smaller than every fitting block before it.
   */
  lemma {:induction false} BestFitLeast(bs: seq<Block>, bytes: nat, hi: nat)
    requires hi <= |bs| && BestFitIn(bs, bytes, hi).Some?
    ensures var b := BestFitIn(bs, bytes, hi).value;
      (forall j :: 0 <= j < hi && Fits(bs[j], bytes) ==> bs[b].size <= bs[j].size)
      && forall j :: 0 <= j < b && Fits(bs[j], bytes) ==> bs[b].size < bs[j].size
  {
    var best := BestFitIn(bs, bytes, hi - 1);
    if best.Some? {
      BestFitLeast(bs, bytes, hi - 1);
    }
  }

  /**
   * Worst-fit over the first `hi` blocks: a fitting block of greatest size,
   * the earliest among equals.
   */
  function WorstFitIn(bs: seq<Block>, bytes: nat, hi: nat): (r: Option<nat>)
    requires hi <= |bs|
    ensures r.Some? ==> r.value < hi && Fits(bs[r.value], bytes)
    ensures r.None? <==> forall j :: 0 <= j < hi ==> !Fits(bs[j], bytes)
  {
    if hi == 0 then None
    else
      var worst := WorstFitIn(bs, bytes, hi - 1);
      if Fits(bs[hi - 1], bytes) && (worst.None? || bs[hi - 1].size > bs[worst.value].size)
      then Some(hi - 1)
      else worst
  }

  /**
   * The block worst-fit picks is no smaller than any fitting block, and
   * strictly larger than every fitting block before it.
   */
  lemma {:induction false} WorstFitGreatest(bs: seq<Block>, bytes: nat, hi: nat)
    requires hi <= |bs| && WorstFitIn(bs, bytes, hi).Some?
    ensures var w := WorstFitIn(bs, bytes, hi).value;
      (forall j :: 0 <= j < hi && Fits(bs[j], bytes) ==> bs[j].size <= bs[w].size)
      && forall j :: 0 <= j < w && Fits(bs[j], bytes) ==> bs[j].size < bs[w].size
  {
    var worst := WorstFitIn(bs, bytes, hi - 1);
    if worst.Some? {
      WorstFitGreatest(bs, bytes, hi - 1);
    }
  }

  /**
   * Best-fit's short cut: the first block whose size is exactly the request
   * is the block best-fit would choose after the whole traversal.
   */
  lemma BestFitExact(bs: seq<Block>, bytes: nat, e: nat)
    requires e < |bs| && bs[e].free && bs[e].size == bytes
    requires forall j :: 0 <= j < e ==> !(Fits(bs[j], bytes) && bs[j].size == bytes)
    ensures BestFitIn(bs, bytes, |bs|) == Some(e)
  {
    var r := BestFitIn(bs, bytes, |bs|);
    assert Fits(bs[e], bytes);
    assert r.Some?;
    BestFitLeast(bs, bytes, |bs|);
    assert bs[r.value].size == bytes;
    if r.value > e {
      assert false;
    }
  }

  // ---------------------------------------------------------------------
  // Split
  // ---------------------------------------------------------------------

  /**
   * Splitting block `i` for a request of `bytes`: the block keeps exactly
   * `bytes`, becomes used, and the rest of its body, less one header, becomes
   * a new free block right after it.
   */
  function SplitAt(bs: seq<Block>, i: nat, bytes: nat, nodeSize: nat): (r: seq<Block>)
    requires i < |bs| && bs[i].size > bytes + nodeSize
    ensures |r| == |bs| + 1 && !r[i].free && r[i].size == bytes
    ensures r[i + 1].free && r[i].size + r[i + 1].size + nodeSize == bs[i].size
  {
    bs[..i] + [Block(false, bytes), Block(true, bs[i].size - bytes - nodeSize)] + bs[i + 1..]
  }

  /**
   * Granting block `i` to a request of `bytes`: a block with no room for a
   * header and at least one more byte is handed out whole, a larger one is
   * split. Either way the caller gets a used block of at least `bytes` and
   * at most `bytes + nodeSize` bytes, nothing before it moves, nothing after
   * it changes, and any new remainder block is free and holds at least one byte.
   */
  function Grant(bs: seq<Block>, i: nat, bytes: nat, nodeSize: nat): (r: seq<Block>)
    requires i < |bs| && Fits(bs[i], bytes)
    ensures |r| == if bs[i].size <= bytes + nodeSize then |bs| else |bs| + 1
    ensures r[..i] == bs[..i]
    ensures !r[i].free && bytes <= r[i].size <= bytes + nodeSize
    ensures r[i].size == if bs[i].size <= bytes + nodeSize then bs[i].size else bytes
    ensures r[|r| - (|bs| - i - 1)..] == bs[i + 1..]
    ensures |r| == |bs| + 1 ==> r[i + 1].free && 1 <= r[i + 1].size
    ensures |r| == |bs| + 1 ==> r[i].size + r[i + 1].size + nodeSize == bs[i].size
  {
    if bs[i].size <= bytes + nodeSize then bs[i := Block(false, bs[i].size)]
    else SplitAt(bs, i, bytes, nodeSize)
  }

  /** Header offsets after granting block `i`: a split adds the new header right after it. */
  function GrantOrder(order: seq<nat>, bs: seq<Block>, i: nat, bytes: nat, nodeSize: nat): seq<nat>
    requires i < |bs| && i < |order|
  {
    if bs[i].size <= bytes + nodeSize then order
    else order[..i + 1] + [order[i] + nodeSize + bytes] + order[i + 1..]
  }

  /**
   * Where a cursor on block `c` stands after block `i` is granted: one
   * further on when a split inserted a block before it.
   */
  function GrantCursor(bs: seq<Block>, i: nat, bytes: nat, nodeSize: nat, c: nat): nat
    requires i < |bs|
  {
    if bs[i].size > bytes + nodeSize && c > i then c + 1 else c
  }

  /** A grant leaves a cursor on the very header it was on. */
  lemma GrantCursorSurvives(order: seq<nat>, bs: seq<Block>, i: nat, bytes: nat, nodeSize: nat, c: nat)
    requires i < |bs| == |order| && c < |order|
    ensures var o1, c1 := GrantOrder(order, bs, i, bytes, nodeSize), GrantCursor(bs, i, bytes, nodeSize, c);
      c1 < |o1| && o1[c1] == order[c]
  {
  }

  /**
   * The outcome of placing a request of `bytes` in block `pick` of the list
   * `m0`, `o0`, `b0`, which became `m1`, `o1`, `b1`, with `r` returned: no
   * block (None) means NULL and nothing changed; otherwise the caller gets
   * the body of that block, which is granted whole or split.
   */
  ghost predicate Placed(m0: map<nat, Node>, o0: seq<nat>, b0: seq<Block>, m1: map<nat, Node>, o1: seq<nat>,
                         b1: seq<Block>, pick: Option<nat>, bytes: nat, nodeSize: nat, r: Ptr)
  {
    if pick.None? then r == Null && m1 == m0 && o1 == o0 && b1 == b0
    else
      var i := pick.value;
      i < |b0| && i < |o0| && Fits(b0[i], bytes)
      && r == At(o0[i] + nodeSize)
      && b1 == Grant(b0, i, bytes, nodeSize)
      && o1 == GrantOrder(o0, b0, i, bytes, nodeSize)
  }

  /** A split does not look at whether the block was free: it leaves the block used either way. */
  lemma SplitAfterMarkUsed(bs: seq<Block>, i: nat, bytes: nat, nodeSize: nat)
    requires i < |bs| && bs[i].size > bytes + nodeSize
    ensures SplitAt(bs[i := Block(false, bs[i].size)], i, bytes, nodeSize) == SplitAt(bs, i, bytes, nodeSize)
  {
    var u := bs[i := Block(false, bs[i].size)];
    assert u[..i] == bs[..i] && u[i + 1..] == bs[i + 1..];
  }

  /** The header a split of block `i` writes lands at an offset no live header occupies. */
  lemma SplitPointFresh(order: seq<nat>, bs: seq<Block>, i: nat, bytes: nat, nodeSize: nat, regionSize: nat)
    requires Tiled(order, bs, nodeSize, regionSize) && nodeSize > 0
    requires i < |bs| && bs[i].size > bytes + nodeSize
    ensures forall k :: 0 <= k < |order| ==> order[k] != order[i] + nodeSize + bytes
  {
    TiledSteps(order, bs, nodeSize, regionSize);
    TiledIncreasing(order, bs, nodeSize, regionSize);
    var tail := order[i] + nodeSize + bytes;
    forall k | 0 <= k < |order|
      ensures order[k] != tail
    {
      if k <= i {
        assert k < i ==> order[k] < order[i];
      } else {
        assert order[i + 1] == order[i] + nodeSize + bs[i].size;
        assert k > i + 1 ==> order[i + 1] < order[k];
      }
    }
  }

  /** One step of the split list: header `k + 1` sits right after body `k`. */
  lemma SplitStep(order: seq<nat>, bs: seq<Block>, i: nat, bytes: nat, nodeSize: nat, k: nat)
    requires |order| == |bs| && i < |bs| && bs[i].size > bytes + nodeSize && k < |bs|
    requires forall j :: 0 <= j < |bs| - 1 ==> order[j + 1] == order[j] + nodeSize + bs[j].size
    ensures var o1 := order[..i + 1] + [order[i] + nodeSize + bytes] + order[i + 1..];
      var b1 := SplitAt(bs, i, bytes, nodeSize);
      o1[k + 1] == o1[k] + nodeSize + b1[k].size
  {
    var tail := order[i] + nodeSize + bytes;
    var o1, b1 := order[..i + 1] + [tail] + order[i + 1..], SplitAt(bs, i, bytes, nodeSize);
    if k < i {
      assert o1[k] == order[k] && o1[k + 1] == order[k + 1] && b1[k] == bs[k];
    } else if k == i {
      assert o1[k] == order[i] && o1[k + 1] == tail && b1[k] == Block(false, bytes);
    } else if k == i + 1 {
      assert o1[k] == tail && b1[k] == Block(true, bs[i].size - bytes - nodeSize);
      assert o1[k + 1] == order[i + 1];
    } else {
      assert o1[k] == order[k - 1] && o1[k + 1] == order[k] && b1[k] == bs[k - 1];
    }
  }

  /** Splitting block `i` keeps the region tiled: the new header goes exactly `bytes` into the old body. */
  lemma SplitTiled(order: seq<nat>, bs: seq<Block>, i: nat, bytes: nat, nodeSize: nat, regionSize: nat)
    requires Tiled(order, bs, nodeSize, regionSize)
    requires i < |bs| && bs[i].size > bytes + nodeSize
    ensures Tiled(order[..i + 1] + [order[i] + nodeSize + bytes] + order[i + 1..],
                  SplitAt(bs, i, bytes, nodeSize), nodeSize, regionSize)
  {
    TiledSteps(order, bs, nodeSize, regionSize);
    var tail := order[i] + nodeSize + bytes;
    var o1, b1 := order[..i + 1] + [tail] + order[i + 1..], SplitAt(bs, i, bytes, nodeSize);
    TiledSteps(o1, b1, nodeSize, regionSize);
    assert o1[0] == order[0];
    forall k | 0 <= k < |b1| - 1
      ensures o1[k + 1] == o1[k] + nodeSize + b1[k].size
    {
      SplitStep(order, bs, i, bytes, nodeSize, k);
    }
    var last := |b1| - 1;
    if i + 1 < |bs| {
      assert o1[last] == order[|bs| - 1] && b1[last] == bs[|bs| - 1];
    } else {
      assert o1[last] == tail && b1[last] == Block(true, bs[i].size - bytes - nodeSize);
    }
  }

  /** Splitting keeps NoAdjacentFree when the block after the split one is used. */
  lemma SplitKeepsNoAdjacentFree(bs: seq<Block>, i: nat, bytes: nat, nodeSize: nat)
    requires i < |bs| && bs[i].size > bytes + nodeSize && NoAdjacentFree(bs)
    requires i + 1 < |bs| ==> !bs[i + 1].free
    ensures NoAdjacentFree(SplitAt(bs, i, bytes, nodeSize))
  {
    var r := SplitAt(bs, i, bytes, nodeSize);
    forall k | 0 <= k < |r| - 1
      ensures !(r[k].free && r[k + 1].free)
    {
      if k + 1 < i {
        assert r[k] == bs[k] && r[k + 1] == bs[k + 1];
      } else if k == i + 1 {
        assert r[k + 1] == bs[i + 1];
      } else if k > i + 1 {
        assert r[k] == bs[k - 1] && r[k + 1] == bs[k];
      }
    }
  }

  /**
   * After the headers are rewritten for a split of block `i`, with the new
   * header written at `tail`, they describe the split list.
   */
  lemma SplitHeaders(m0: map<nat, Node>, m1: map<nat, Node>, order: seq<nat>, bs: seq<Block>,
                     i: nat, bytes: nat, nodeSize: nat, tail: nat)
    requires Headers(m0, order, bs) && Ascending(order)
    requires i < |bs| && bs[i].size > bytes + nodeSize
    requires forall k :: 0 <= k < |order| ==> order[k] != tail
    requires tail in m1 && m1[tail].free && m1[tail].size == bs[i].size - bytes - nodeSize
    requires order[i] in m1 && !m1[order[i]].free && m1[order[i]].size == bytes
    requires forall k :: 0 <= k < |order| && k != i ==>
               order[k] in m1 && m1[order[k]].free == m0[order[k]].free && m1[order[k]].size == m0[order[k]].size
    ensures Headers(m1, order[..i + 1] + [tail] + order[i + 1..], SplitAt(bs, i, bytes, nodeSize))
  {
    var o1, b1 := order[..i + 1] + [tail] + order[i + 1..], SplitAt(bs, i, bytes, nodeSize);
    forall k | 0 <= k < |b1|
      ensures o1[k] in m1 && m1[o1[k]].free == b1[k].free && m1[o1[k]].size == b1[k].size
    {
      if k < i {
        assert o1[k] == order[k] && b1[k] == bs[k];
      } else if k > i + 1 {
        assert o1[k] == order[k - 1] && b1[k] == bs[k - 1];
      }
    }
  }

  // ---------------------------------------------------------------------
  // Coalesce
  // ---------------------------------------------------------------------

  /** Merging block `j` with its successor: one free block covering both bodies and the absorbed header. */
  function MergeAt(bs: seq<Block>, j: nat, nodeSize: nat): (r: seq<Block>)
    requires j + 1 < |bs|
    ensures |r| == |bs| - 1
    ensures r[j] == Block(true, bs[j].size + bs[j + 1].size + nodeSize)
  {
    bs[..j] + [Block(true, bs[j].size + bs[j + 1].size + nodeSize)] + bs[j + 2..]
  }

  /** Merging block `j` with its successor keeps the region tiled once the successor's header leaves the list. */
  lemma MergeTiled(order: seq<nat>, bs: seq<Block>, j: nat, nodeSize: nat, regionSize: nat)
    requires Tiled(order, bs, nodeSize, regionSize) && j + 1 < |bs|
    ensures Tiled(order[..j + 1] + order[j + 2..], MergeAt(bs, j, nodeSize), nodeSize, regionSize)
  {
    TiledSteps(order, bs, nodeSize, regionSize);
    var o1, b1 := order[..j + 1] + order[j + 2..], MergeAt(bs, j, nodeSize);
    TiledSteps(o1, b1, nodeSize, regionSize);
    forall k | 0 <= k < |b1| - 1
      ensures o1[k + 1] == o1[k] + nodeSize + b1[k].size
    {
      if k < j {
        assert o1[k] == order[k] && o1[k + 1] == order[k + 1] && b1[k] == bs[k];
      } else if k == j {
        assert o1[k + 1] == order[j + 2];
      } else {
        assert o1[k] == order[k + 1] && o1[k + 1] == order[k + 2] && b1[k] == bs[k + 1];
      }
    }
    if j + 2 < |bs| {
      assert o1[|b1| - 1] == order[|bs| - 1] && b1[|b1| - 1] == bs[|bs| - 1];
    }
  }

  /** After a merge of block `j` with its successor is written into the headers, they describe the merged list. */
  lemma MergeHeaders(m0: map<nat, Node>, m1: map<nat, Node>, order: seq<nat>, bs: seq<Block>, j: nat, nodeSize: nat)
    requires Headers(m0, order, bs) && Ascending(order) && j + 1 < |bs|
    requires order[j] in m1 && m1[order[j]].free && m1[order[j]].size == bs[j].size + bs[j + 1].size + nodeSize
    requires forall k :: 0 <= k < |order| && k != j && k != j + 1 ==>
               order[k] in m1 && m1[order[k]].free == m0[order[k]].free && m1[order[k]].size == m0[order[k]].size
    ensures Headers(m1, order[..j + 1] + order[j + 2..], MergeAt(bs, j, nodeSize))
  {
    var o1, b1 := order[..j + 1] + order[j + 2..], MergeAt(bs, j, nodeSize);
    forall k | 0 <= k < |b1|
      ensures o1[k] in m1 && m1[o1[k]].free == b1[k].free && m1[o1[k]].size == b1[k].size
    {
      if k < j {
        assert o1[k] == order[k] && b1[k] == bs[k];
      } else if k > j {
        assert o1[k] == order[k + 1] && b1[k] == bs[k + 1];
      }
    }
  }

  /**
   * Freeing block `i`: mark it free, absorb its successor if that is free,
   * then let a free predecessor absorb it. Neither merge crosses the wrap
   * from the last block back to the first.
   */
  function Release(bs: seq<Block>, i: nat, nodeSize: nat): (r: seq<Block>)
    requires i < |bs|
    ensures |bs| - 2 <= |r| <= |bs|
  {
    var a := bs[i := Block(true, bs[i].size)];
    var b := if i + 1 < |a| && a[i + 1].free then MergeAt(a, i, nodeSize) else a;
    if 0 < i && b[i - 1].free then MergeAt(b, i - 1, nodeSize) else b
  }

  /** First index of the run Release(bs, i, _) turns into one block. */
  function RunStart(bs: seq<Block>, i: nat): nat
    requires i < |bs|
  {
    if 0 < i && bs[i - 1].free then i - 1 else i
  }

  /** One past the last index of the run Release(bs, i, _) turns into one block. */
  function RunEnd(bs: seq<Block>, i: nat): nat
    requires i < |bs|
  {
    if i + 1 < |bs| && bs[i + 1].free then i + 2 else i + 1
  }

  /** Bytes covered by one, two or three consecutive blocks. */
  lemma SpanShort(bs: seq<Block>, lo: nat, hi: nat, nodeSize: nat)
    requires lo < hi <= |bs| && hi <= lo + 3
    ensures Span(bs[lo..hi], nodeSize) == bs[lo].size + nodeSize + Span(bs[lo + 1..hi], nodeSize)
    ensures hi == lo + 1 ==> Span(bs[lo + 1..hi], nodeSize) == 0
    ensures hi == lo + 2 ==> Span(bs[lo + 1..hi], nodeSize) == bs[lo + 1].size + nodeSize
    ensures hi == lo + 3 ==> Span(bs[lo + 1..hi], nodeSize) == bs[lo + 1].size + bs[lo + 2].size + 2 * nodeSize
  {
    assert bs[lo..hi][1..] == bs[lo + 1..hi];
    if hi >= lo + 2 {
      assert bs[lo + 1..hi][1..] == bs[lo + 2..hi];
      if hi == lo + 3 {
        assert bs[lo + 2..hi][1..] == [];
        assert Span(bs[lo + 2..hi], nodeSize) == bs[lo + 2].size + nodeSize;
      } else {
        assert bs[lo + 2..hi] == [];
      }
    }
  }

  /** Freeing block `i` between two free blocks merges all three. */
  lemma ReleaseBoth(bs: seq<Block>, i: nat, nodeSize: nat)
    requires 0 < i && i + 1 < |bs| && bs[i - 1].free && bs[i + 1].free
    ensures Release(bs, i, nodeSize)
         == bs[..i - 1] + [Block(true, bs[i - 1].size + bs[i].size + bs[i + 1].size + 2 * nodeSize)] + bs[i + 2..]
  {
    var a := bs[i := Block(true, bs[i].size)];
    var mid := Block(true, bs[i].size + bs[i + 1].size + nodeSize);
    var b := MergeAt(a, i, nodeSize);
    assert b == bs[..i] + [mid] + bs[i + 2..];
    assert b[i - 1] == bs[i - 1] && b[i] == mid;
    assert b[..i - 1] == bs[..i - 1] && b[i + 1..] == bs[i + 2..];
  }

  /** Freeing block `i` after a free block and before a used one merges the two. */
  lemma ReleaseLeft(bs: seq<Block>, i: nat, nodeSize: nat)
    requires 0 < i < |bs| && bs[i - 1].free && !(i + 1 < |bs| && bs[i + 1].free)
    ensures Release(bs, i, nodeSize)
         == bs[..i - 1] + [Block(true, bs[i - 1].size + bs[i].size + nodeSize)] + bs[i + 1..]
  {
    var a := bs[i := Block(true, bs[i].size)];
    assert a[i - 1] == bs[i - 1];
    assert a[..i - 1] == bs[..i - 1] && a[i + 1..] == bs[i + 1..];
  }

  /** Freeing block `i` before a free block and after a used one merges the two. */
  lemma ReleaseRight(bs: seq<Block>, i: nat, nodeSize: nat)
    requires i + 1 < |bs| && bs[i + 1].free && !(0 < i && bs[i - 1].free)
    ensures Release(bs, i, nodeSize)
         == bs[..i] + [Block(true, bs[i].size + bs[i + 1].size + nodeSize)] + bs[i + 2..]
  {
    var a := bs[i := Block(true, bs[i].size)];
    var b := MergeAt(a, i, nodeSize);
    assert a[..i] == bs[..i] && a[i + 2..] == bs[i + 2..];
    assert 0 < i ==> b[i - 1] == bs[i - 1];
  }

  /** Freeing block `i` between used blocks only marks it free. */
  lemma ReleaseAlone(bs: seq<Block>, i: nat, nodeSize: nat)
    requires i < |bs| && !(0 < i && bs[i - 1].free) && !(i + 1 < |bs| && bs[i + 1].free)
    ensures Release(bs, i, nodeSize) == bs[..i] + [Block(true, bs[i].size)] + bs[i + 1..]
  {
    var a := bs[i := Block(true, bs[i].size)];
    assert 0 < i ==> a[i - 1] == bs[i - 1];
    assert a == bs[..i] + [Block(true, bs[i].size)] + bs[i + 1..];
  }

  /**
   * Release in closed form: the run of blocks around `i` made of `i` and its
   * free neighbours becomes a single free block covering exactly the bytes of
   * the run, and every block outside the run is untouched.
   */
  lemma ReleaseShape(bs: seq<Block>, i: nat, nodeSize: nat)
    requires i < |bs|
    ensures var lo, hi := RunStart(bs, i), RunEnd(bs, i);
      Span(bs[lo..hi], nodeSize) >= nodeSize
      && Release(bs, i, nodeSize)
         == bs[..lo] + [Block(true, Span(bs[lo..hi], nodeSize) - nodeSize)] + bs[hi..]
  {
    var lo, hi := RunStart(bs, i), RunEnd(bs, i);
    SpanShort(bs, lo, hi, nodeSize);
    var merged := Span(bs[lo..hi], nodeSize) - nodeSize;
    if 0 < i && bs[i - 1].free && i + 1 < |bs| && bs[i + 1].free {
      assert lo == i - 1 && hi == i + 2;
      assert merged == bs[i - 1].size + bs[i].size + bs[i + 1].size + 2 * nodeSize;
      ReleaseBoth(bs, i, nodeSize);
    } else if 0 < i && bs[i - 1].free {
      assert lo == i - 1 && hi == i + 1;
      assert merged == bs[i - 1].size + bs[i].size + nodeSize;
      ReleaseLeft(bs, i, nodeSize);
    } else if i + 1 < |bs| && bs[i + 1].free {
      assert lo == i && hi == i + 2;
      assert merged == bs[i].size + bs[i + 1].size + nodeSize;
      ReleaseRight(bs, i, nodeSize);
    } else {
      assert lo == i && hi == i + 1;
      assert merged == bs[i].size;
      ReleaseAlone(bs, i, nodeSize);
    }
  }

  /**
   * The two stages of Release seen from the blocks around `i`: the first
   * stage leaves block `i` free and keeps its neighbours, the second looks
   * at the same predecessor the original list had.
   */
  lemma ReleaseStages(bs: seq<Block>, i: nat, nodeSize: nat)
    requires i < |bs|
    ensures var a := bs[i := Block(true, bs[i].size)];
      var b := if i + 1 < |a| && a[i + 1].free then MergeAt(a, i, nodeSize) else a;
      (i + 1 < |bs| ==> a[i + 1] == bs[i + 1])
      && i < |b| && b[i].free && (0 < i ==> b[i - 1] == bs[i - 1])
  {
    var a := bs[i := Block(true, bs[i].size)];
    if 0 < i && i + 1 < |a| && a[i + 1].free {
      assert MergeAt(a, i, nodeSize)[i - 1] == a[i - 1];
    }
  }

  /**
   * The headers left in the list after Release(bs, i, _), stage by stage:
   * an absorbed block's header leaves the list.
   */
  function ReleaseOrder(order: seq<nat>, bs: seq<Block>, i: nat): seq<nat>
    requires i < |bs| == |order|
  {
    var o := if i + 1 < |bs| && bs[i + 1].free then order[..i + 1] + order[i + 2..] else order;
    if 0 < i && bs[i - 1].free then o[..i] + o[i + 1..] else o
  }

  /**
   * ReleaseOrder in closed form: the merged block keeps the header of the
   * first block of its run, the other headers of the run leave, and every
   * header outside the run stays where it was.
   */
  lemma ReleaseOrderShape(order: seq<nat>, bs: seq<Block>, i: nat, nodeSize: nat)
    requires i < |bs| == |order|
    ensures ReleaseOrder(order, bs, i) == order[..RunStart(bs, i) + 1] + order[RunEnd(bs, i)..]
    ensures |ReleaseOrder(order, bs, i)| == |Release(bs, i, nodeSize)|
  {
    var o := if i + 1 < |bs| && bs[i + 1].free then order[..i + 1] + order[i + 2..] else order;
    assert o[..i] == order[..i];
    assert o[..i + 1] == order[..i + 1];
    assert o[i + 1..] == order[RunEnd(bs, i)..];
    ReleaseShape(bs, i, nodeSize);
  }

  /** Freeing a block never changes how many bytes the list covers. */
  lemma ReleaseConservesSpan(bs: seq<Block>, i: nat, nodeSize: nat)
    requires i < |bs|
    ensures Span(Release(bs, i, nodeSize), nodeSize) == Span(bs, nodeSize)
  {
    var lo, hi := RunStart(bs, i), RunEnd(bs, i);
    ReleaseShape(bs, i, nodeSize);
    var merged := Block(true, Span(bs[lo..hi], nodeSize) - nodeSize);
    SpanSplice(bs, lo, hi, nodeSize);
    SpanAppend(bs[..lo] + [merged], bs[hi..], nodeSize);
    SpanAppend(bs[..lo], [merged], nodeSize);
    assert Span([merged], nodeSize) == merged.size + nodeSize + Span([], nodeSize);
  }

  /** Granting a block never changes how many bytes the list covers. */
  lemma GrantConservesSpan(bs: seq<Block>, i: nat, bytes: nat, nodeSize: nat)
    requires i < |bs| && Fits(bs[i], bytes)
    ensures Span(Grant(bs, i, bytes, nodeSize), nodeSize) == Span(bs, nodeSize)
  {
    var r := Grant(bs, i, bytes, nodeSize);
    var mid := r[i..|r| - (|bs| - i - 1)];
    assert r == r[..i] + mid + r[|r| - (|bs| - i - 1)..];
    SpanAppend(r[..i] + mid, r[|r| - (|bs| - i - 1)..], nodeSize);
    SpanAppend(r[..i], mid, nodeSize);
    SpanSplice(bs, i, i + 1, nodeSize);
    assert bs[i..i + 1] == [bs[i]];
    assert Span([bs[i]], nodeSize) == bs[i].size + nodeSize + Span([], nodeSize);
    if |r| == |bs| {
      assert mid == [r[i]];
      assert Span(mid, nodeSize) == r[i].size + nodeSize + Span([], nodeSize);
    } else {
      assert mid == [r[i], r[i + 1]];
      assert mid[1..] == [r[i + 1]];
      assert Span(mid[1..], nodeSize) == r[i + 1].size + nodeSize + Span([], nodeSize);
    }
  }

  /** No two neighbouring blocks are both free (the wrap from last to first is not a neighbourhood). */
  predicate NoAdjacentFree(bs: seq<Block>)
  {
    forall i :: 0 <= i < |bs| - 1 ==> !(bs[i].free && bs[i + 1].free)
  }

  /** Replacing a run by one block keeps NoAdjacentFree when the blocks around the run are used. */
  lemma ReplaceRunKeepsNoAdjacentFree(bs: seq<Block>, lo: nat, hi: nat, blk: Block)
    requires lo < hi <= |bs| && NoAdjacentFree(bs)
    requires 0 < lo ==> !bs[lo - 1].free
    requires hi < |bs| ==> !bs[hi].free
    ensures NoAdjacentFree(bs[..lo] + [blk] + bs[hi..])
  {
    var r := bs[..lo] + [blk] + bs[hi..];
    forall k | 0 <= k < |r| - 1
      ensures !(r[k].free && r[k + 1].free)
    {
      if k + 1 < lo {
        assert r[k] == bs[k] && r[k + 1] == bs[k + 1];
      } else if k + 1 == lo {
        assert r[k] == bs[lo - 1];
      } else if k == lo {
        assert r[k + 1] == bs[hi];
      } else {
        assert r[k] == bs[k - lo - 1 + hi] && r[k + 1] == bs[k - lo + hi];
      }
    }
  }

  /** Marking a block used leaves no two neighbouring blocks free. */
  lemma MarkUsedKeepsNoAdjacentFree(bs: seq<Block>, i: nat)
    requires i < |bs| && NoAdjacentFree(bs)
    ensures NoAdjacentFree(bs[i := Block(false, bs[i].size)])
  {
    var r := bs[i := Block(false, bs[i].size)];
    forall k | 0 <= k < |r| - 1
      ensures !(r[k].free && r[k + 1].free)
    {
      assert r[k].free ==> bs[k].free;
      assert r[k + 1].free ==> bs[k + 1].free;
    }
  }

  /** Freeing a block leaves no two neighbouring blocks free. */
  lemma ReleaseKeepsNoAdjacentFree(bs: seq<Block>, i: nat, nodeSize: nat)
    requires i < |bs| && NoAdjacentFree(bs)
    ensures NoAdjacentFree(Release(bs, i, nodeSize))
  {
    var lo, hi := RunStart(bs, i), RunEnd(bs, i);
    ReleaseShape(bs, i, nodeSize);
    if 0 < lo && lo == i - 1 {
      assert !bs[lo - 1].free;
    }
    if hi < |bs| && hi == i + 2 {
      assert !bs[hi].free;
    }
    ReplaceRunKeepsNoAdjacentFree(bs, lo, hi, Block(true, Span(bs[lo..hi], nodeSize) - nodeSize));
  }

  /** Granting a free block leaves no two neighbouring blocks free. */
  lemma GrantKeepsNoAdjacentFree(bs: seq<Block>, i: nat, bytes: nat, nodeSize: nat)
    requires i < |bs| && Fits(bs[i], bytes) && NoAdjacentFree(bs)
    ensures NoAdjacentFree(Grant(bs, i, bytes, nodeSize))
  {
    var r := Grant(bs, i, bytes, nodeSize);
    forall k | 0 <= k < |r| - 1
      ensures !(r[k].free && r[k + 1].free)
    {
      if |r| == |bs| {
        if k != i && k + 1 != i {
          assert r[k] == bs[k] && r[k + 1] == bs[k + 1];
        }
      } else {
        if k + 1 < i {
          assert r[k] == bs[k] && r[k + 1] == bs[k + 1];
        } else if k == i + 1 && k + 1 < |r| {
          assert r[k + 1] == bs[i + 1];
          assert !(bs[i].free && bs[i + 1].free);
        } else if k > i + 1 {
          assert r[k] == bs[k - 1] && r[k + 1] == bs[k];
        }
      }
    }
  }

  /**
   * Round trip: freeing a block right after it was granted gives back the
   * list as it was, whether the grant split the block or not.
   */
  lemma GrantThenRelease(bs: seq<Block>, i: nat, bytes: nat, nodeSize: nat)
    requires i < |bs| && Fits(bs[i], bytes) && NoAdjacentFree(bs)
    ensures Release(Grant(bs, i, bytes, nodeSize), i, nodeSize) == bs
  {
    var g := Grant(bs, i, bytes, nodeSize);
    assert 0 < i ==> !bs[i - 1].free;
    assert i + 1 < |bs| ==> !bs[i + 1].free;
    if bs[i].size <= bytes + nodeSize {
      assert g[i := Block(true, g[i].size)] == bs;
    } else {
      var a := g[i := Block(true, g[i].size)];
      assert a[i + 1].free;
      assert MergeAt(a, i, nodeSize) == bs;
    }
  }

  /**
   * When every block is free, the list is one free block covering the whole
   * region less one header: freeing everything, in any order, ends there.
   */
  lemma AllFreeIsOneBlock(bs: seq<Block>, nodeSize: nat, regionSize: nat)
    requires |bs| > 0 && NoAdjacentFree(bs) && Span(bs, nodeSize) == regionSize
    requires forall i :: 0 <= i < |bs| ==> bs[i].free
    ensures bs == [Block(true, regionSize - nodeSize)]
  {
    if |bs| > 1 {
      assert false;
    }
    assert bs[1..] == [];
  }

  /**
   * Where the Next-Fit cursor goes when block `i` is freed: a cursor on a
   * block that gets absorbed moves to the block that absorbs it.
   */
  function ReleaseCursor(bs: seq<Block>, i: nat, c: nat): nat
    requires i < |bs| && c < |bs|
  {
    var c1 := if i + 1 < |bs| && bs[i + 1].free && c > i then c - 1 else c;
    if 0 < i && bs[i - 1].free && c1 >= i then c1 - 1 else c1
  }

  /**
   * The cursor survives coalescing: it ends on a block of the new list; a
   * cursor inside the merged run ends on the merged block, any other cursor
   * ends on the very same block it was on.
   */
  lemma ReleaseCursorSurvives(bs: seq<Block>, i: nat, c: nat, nodeSize: nat)
    requires i < |bs| && c < |bs|
    ensures var r, c', lo, hi := Release(bs, i, nodeSize), ReleaseCursor(bs, i, c), RunStart(bs, i), RunEnd(bs, i);
      c' < |r|
      && (lo <= c < hi ==> c' == lo)
      && (c < lo ==> c' == c && r[c'] == bs[c])
      && (hi <= c ==> c' == c - (hi - lo - 1) && r[c'] == bs[c])
  {
    var lo, hi := RunStart(bs, i), RunEnd(bs, i);
    ReleaseShape(bs, i, nodeSize);
  }
}
