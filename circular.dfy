/**
 * The multi-policy allocator of part3.c, one call at a time.
 *
 * The region is addressed by byte offset: a header (`Node`) at offset `o`
 * owns the body that starts at `o + nodeSize`. `mem` holds the headers
 * written into the region, by offset; a header absorbed by coalescing is
 * not erased from it, just as the bytes stay in the region. The blocks form
 * one circular doubly linked list in address order, headed by the fixed
 * `firstBlock`; `lastUsed` is the Next-Fit cursor.
 *
 * The ghost fields give the public view: `order` lists the live headers in
 * list order, `blocks` says what each of them says, and `cursor` is the
 * position of `lastUsed` in `order`.
 */
module Circular {
  import opened Blocks

  /** The placement policy behind the `allocate` function pointer. */
  datatype Policy = UseFirstFit | UseNextFit | UseBestFit | UseWorstFit

  /** The name that selects a policy in `initialise`. */
  function PolicyName(p: Policy): string
  {
    match p
    case UseFirstFit => "FirstFit"
    case UseNextFit => "NextFit"
    case UseBestFit => "BestFit"
    case UseWorstFit => "WorstFit"
  }

  /**
   * Policy selection in `initialise`: "BestFit", "WorstFit" and "NextFit"
   * select their policy; a missing name or any other name selects first-fit.
   */
  function PolicyFor(algorithm: Option<string>): (p: Policy)
    ensures p == UseFirstFit <==> algorithm.None? || algorithm.value !in {"BestFit", "WorstFit", "NextFit"}
    ensures p != UseFirstFit ==> algorithm == Some(PolicyName(p))
  {
    if algorithm.None? then UseFirstFit
    else if algorithm.value == "BestFit" then UseBestFit
    else if algorithm.value == "WorstFit" then UseWorstFit
    else if algorithm.value == "NextFit" then UseNextFit
    else UseFirstFit
  }

  /** Every policy is selected by its own name. */
  lemma PolicyNameSelects(p: Policy)
    ensures PolicyFor(Some(PolicyName(p))) == p
  {
  }

  /**
   * The block `allocate(bytes)` places the request in under policy `p`, or
   * None for NULL: a request of 0 bytes is refused before any search.
   */
  function Placement(p: Policy, bs: seq<Block>, bytes: nat, c: nat): (r: Option<nat>)
    requires c < |bs|
    ensures r.Some? ==> 1 <= bytes && r.value < |bs| && Fits(bs[r.value], bytes)
    ensures r.None? <==> bytes < 1 || forall j :: 0 <= j < |bs| ==> !Fits(bs[j], bytes)
  {
    if bytes < 1 then None
    else
      match p
      case UseFirstFit => FirstFitIn(bs, bytes, 0, |bs|)
      case UseNextFit => NextFitPick(bs, bytes, c)
      case UseBestFit => BestFitIn(bs, bytes, |bs|)
      case UseWorstFit => WorstFitIn(bs, bytes, |bs|)
  }

  /**
   * Where the Next-Fit cursor stands after `allocate`: on the block taken
   * under Next-Fit, on the header it was on under the other policies.
   */
  function PlacedCursor(p: Policy, bs: seq<Block>, bytes: nat, nodeSize: nat, c: nat): nat
    requires c < |bs|
  {
    match Placement(p, bs, bytes, c)
    case None => c
    case Some(i) => if p == UseNextFit then i else GrantCursor(bs, i, bytes, nodeSize, c)
  }

  /** Following `next` from the header `p` points at leads to the header at `o`. */
  ghost predicate LeadsTo(mem: map<nat, Node>, p: Ptr, o: nat)
  {
    p.At? && p.offset in mem && mem[p.offset].next == At(o)
  }

  /**
   * The list is circular and doubly linked in the order of `order`. The one
   * exception is allowed when a single block is left: its `prev` may name a
   * header it has absorbed, whose stale `next` still leads back to it.
   */
  ghost predicate RingLinked(mem: map<nat, Node>, order: seq<nat>)
    requires |order| > 0 && forall i :: 0 <= i < |order| ==> order[i] in mem
  {
    (forall i {:trigger order[Succ(i, |order|)]} :: 0 <= i < |order| ==>
       mem[order[i]].next == At(order[Succ(i, |order|)])
       && (1 < |order| ==> mem[order[Succ(i, |order|)]].prev == At(order[i])))
    && (|order| == 1 ==> LeadsTo(mem, mem[order[0]].prev, order[0]))
  }

  /** RingLinked, position by position, with the wrap from last to first spelt out. */
  ghost predicate RingSteps(mem: map<nat, Node>, order: seq<nat>)
    requires |order| > 0 && forall i :: 0 <= i < |order| ==> order[i] in mem
  {
    (forall i :: 0 <= i < |order| - 1 ==> mem[order[i]].next == At(order[i + 1]))
    && mem[order[|order| - 1]].next == At(order[0])
    && (forall i :: 0 < i < |order| ==> mem[order[i]].prev == At(order[i - 1]))
    && (|order| > 1 ==> mem[order[0]].prev == At(order[|order| - 1]))
    && (|order| == 1 ==> LeadsTo(mem, mem[order[0]].prev, order[0]))
  }

  lemma RingStepsIff(mem: map<nat, Node>, order: seq<nat>)
    requires |order| > 0 && forall i :: 0 <= i < |order| ==> order[i] in mem
    ensures RingLinked(mem, order) <==> RingSteps(mem, order)
  {
    var n := |order|;
    if RingLinked(mem, order) {
      forall i | 0 <= i < n - 1
        ensures mem[order[i]].next == At(order[i + 1])
      {
        assert order[Succ(i, n)] == order[i + 1];
      }
      assert order[Succ(n - 1, n)] == order[0];
      forall i | 0 < i < n
        ensures mem[order[i]].prev == At(order[i - 1])
      {
        assert order[Succ(i - 1, n)] == order[i];
      }
    }
    if RingSteps(mem, order) {
      forall i | 0 <= i < n
        ensures mem[order[i]].next == At(order[Succ(i, n)])
        ensures 1 < n ==> mem[order[Succ(i, n)]].prev == At(order[i])
      {
        if i + 1 < n {
          assert mem[order[i + 1]].prev == At(order[i]);
        }
      }
    }
  }

  /**
   * The header view of a block sequence: the headers tile the region, each
   * live header says what its block says, and they form a ring in address
   * order.
   */
  ghost predicate Linked(mem: map<nat, Node>, order: seq<nat>, bs: seq<Block>, nodeSize: nat, regionSize: nat)
  {
    Tiled(order, bs, nodeSize, regionSize) && Headers(mem, order, bs) && RingLinked(mem, order)
  }

  /** Stepping back along `prev` and forward along `next` returns to the same header. */
  lemma PrevLeadsTo(mem: map<nat, Node>, order: seq<nat>, bs: seq<Block>, nodeSize: nat, regionSize: nat, c: nat)
    requires Linked(mem, order, bs, nodeSize, regionSize) && c < |order|
    ensures LeadsTo(mem, mem[order[c]].prev, order[c])
  {
    RingStepsIff(mem, order);
    if 0 < c {
      assert mem[order[c - 1]].next == At(order[c]);
    } else if |order| > 1 {
      assert mem[order[|order| - 1]].next == At(order[0]);
    }
  }

  /**
   * Setting the `free` flag of the `i`-th header rewrites no link and no
   * size, so the list stays well linked with block `i` flagged the same way.
   */
  lemma MarkLinked(m0: map<nat, Node>, order: seq<nat>, bs: seq<Block>, nodeSize: nat, regionSize: nat, i: nat, free: bool)
    requires nodeSize > 0 && Linked(m0, order, bs, nodeSize, regionSize) && i < |order|
    ensures Linked(m0[order[i] := m0[order[i]].(free := free)], order, bs[i := Block(free, bs[i].size)],
                   nodeSize, regionSize)
  {
    var m1 := m0[order[i] := m0[order[i]].(free := free)];
    var b1 := bs[i := Block(free, bs[i].size)];
    TiledIncreasing(order, bs, nodeSize, regionSize);
    assert forall x :: x in m0 ==> x in m1 && m1[x].next == m0[x].next && m1[x].prev == m0[x].prev;
    assert Tiled(order, b1, nodeSize, regionSize) by {
      forall k | 0 <= k < |b1| - 1
        ensures order[Succ(k, |order|)] == order[k] + nodeSize + b1[k].size
      {
        assert b1[k].size == bs[k].size;
      }
      assert b1[|b1| - 1].size == bs[|bs| - 1].size;
    }
    assert Headers(m1, order, b1) by {
      forall k | 0 <= k < |order| && k != i
        ensures m1[order[k]] == m0[order[k]]
      {
        assert order[k] != order[i] by {
          if k < i { assert order[k] < order[i]; } else { assert order[i] < order[k]; }
        }
      }
    }
  }

  /**
   * What a walk round the list from the `c`-th header reads: the `j`-th
   * header says what block `j` says and its `next` is the header after it,
   * the start's `prev` leads back to the start, and no other position holds
   * the start's offset.
   */
  ghost predicate WalkView(mem: map<nat, Node>, order: seq<nat>, bs: seq<Block>, c: nat)
  {
    |order| == |bs| && c < |order|
    && (forall j {:trigger order[Succ(j, |order|)]} :: 0 <= j < |order| ==>
          order[j] in mem && mem[order[j]].free == bs[j].free && mem[order[j]].size == bs[j].size
          && mem[order[j]].next == At(order[Succ(j, |order|)]))
    && (forall j {:trigger order[j]} :: 0 <= j < |order| && j != c ==> order[j] != order[c])
    && order[c] in mem && LeadsTo(mem, mem[order[c]].prev, order[c])
  }

  /** A well-linked list gives a walk view from any of its headers. */
  lemma LinkedWalkView(mem: map<nat, Node>, order: seq<nat>, bs: seq<Block>, nodeSize: nat, regionSize: nat, c: nat)
    requires nodeSize > 0 && Linked(mem, order, bs, nodeSize, regionSize) && c < |order|
    ensures WalkView(mem, order, bs, c)
  {
    TiledIncreasing(order, bs, nodeSize, regionSize);
    forall j | 0 <= j < |order| && j != c
      ensures order[j] != order[c]
    {
      if j < c {
        assert order[j] < order[c];
      } else {
        assert order[c] < order[j];
      }
    }
    PrevLeadsTo(mem, order, bs, nodeSize, regionSize, c);
  }

  /**
   * What a walk learns at the `j`-th header: its fields are the block's,
   * and its `next` is the following header, which is the start only when
   * it stands at the start's position.
   */
  lemma VisitAt(mem: map<nat, Node>, order: seq<nat>, bs: seq<Block>, c: nat, j: nat)
    requires WalkView(mem, order, bs, c) && j < |order|
    ensures order[j] in mem && mem[order[j]].free == bs[j].free && mem[order[j]].size == bs[j].size
    ensures mem[order[j]].next == At(order[Succ(j, |order|)])
    ensures order[Succ(j, |order|)] == order[c] <==> Succ(j, |order|) == c
  {
    assert mem[order[j]].next == At(order[Succ(j, |order|)]);
  }

  /** A walk starts at the header whose `next` is the start. */
  lemma StartView(mem: map<nat, Node>, order: seq<nat>, bs: seq<Block>, c: nat)
    requires WalkView(mem, order, bs, c)
    ensures order[c] in mem && LeadsTo(mem, mem[order[c]].prev, order[c])
  {
  }

  /**
   * `firstFit`'s walk over the list whose headers stand at `order` in `mem`:
   * from `first` once round, stopping at the first free block with at
   * least `bytes` bytes.
   */
  method WalkFirst(mem: map<nat, Node>, first: nat, bytes: nat, ghost order: seq<nat>, ghost bs: seq<Block>)
    returns (found: bool, node: nat, ghost k: nat)
    requires WalkView(mem, order, bs, 0) && first == order[0]
    ensures found ==> k < |order| && order[k] == node && FirstFitIn(bs, bytes, 0, |bs|) == Some(k)
    ensures !found ==> FirstFitIn(bs, bytes, 0, |bs|) == None
  {
    StartView(mem, order, bs, 0);
    node := mem[first].prev.offset;
    k := 0;
    while true
      invariant k < |order| && node in mem && mem[node].next == At(order[k])
      invariant forall t :: 0 <= t < k ==> !Fits(bs[t], bytes)
      decreases |order| - k
    {
      node := mem[node].next.offset;
      VisitAt(mem, order, bs, 0, k);
      if mem[node].free && bytes <= mem[node].size {
        return true, node, k;
      }
      if mem[node].next == At(first) {
        break;
      }
      k := k + 1;
    }
    return false, node, k;
  }

  /**
   * `nextFit`'s walk: from `start`, the `c`-th header, once round the list,
   * stopping at the first free block with at least `bytes` bytes.
   */
  method WalkNext(mem: map<nat, Node>, start: nat, bytes: nat, ghost order: seq<nat>, ghost bs: seq<Block>, ghost c: nat)
    returns (found: bool, node: nat, ghost j: nat)
    requires WalkView(mem, order, bs, c) && order[c] == start
    ensures found ==> j < |order| && order[j] == node && NextFitPick(bs, bytes, c) == Some(j)
    ensures !found ==> NextFitPick(bs, bytes, c) == None
  {
    StartView(mem, order, bs, c);
    node := mem[start].prev.offset;
    ghost var k := 0;
    j := c;
    while true
      invariant k < |order| && j == Around(c, k, |order|)
      invariant node in mem && mem[node].next == At(order[j])
      invariant ScannedUnfit(bs, bytes, c, k)
      decreases |order| - k
    {
      node := mem[node].next.offset;
      VisitAt(mem, order, bs, c, j);
      if mem[node].free && bytes <= mem[node].size {
        ScanFindsNextFit(bs, bytes, c, k);
        return true, node, j;
      }
      if mem[node].next == At(start) {
        break;
      }
      k, j := k + 1, Succ(j, |order|);
    }
    ScanMissesNextFit(bs, bytes, c);
    return false, node, j;
  }

  /**
   * `bestFit`'s walk: from `first` once round the list, remembering the
   * smallest free block with at least `bytes` bytes (a later one replaces it
   * only when strictly smaller) and stopping early at one of exactly `bytes`.
   */
  method WalkBest(mem: map<nat, Node>, first: nat, bytes: nat, ghost order: seq<nat>, ghost bs: seq<Block>)
    returns (found: bool, exact: bool, node: nat, ghost k: nat)
    requires WalkView(mem, order, bs, 0) && first == order[0]
    ensures found ==> k < |order| && order[k] == node && BestFitIn(bs, bytes, |bs|) == Some(k)
    ensures !found ==> BestFitIn(bs, bytes, |bs|) == None
    ensures exact ==> found && bs[k].size == bytes
  {
    var bestNode: Ptr := Null;
    StartView(mem, order, bs, 0);
    var walk := mem[first].prev.offset;
    ghost var i := 0;
    ghost var best: Option<nat> := None;
    while true
      invariant i < |order| && walk in mem && mem[walk].next == At(order[i])
      invariant best == BestFitIn(bs, bytes, i) && (best.Some? ==> best.value < i)
      invariant bestNode == if best.None? then Null else At(order[best.value])
      invariant forall t :: 0 <= t < i ==> !(Fits(bs[t], bytes) && bs[t].size == bytes)
      decreases |order| - i
    {
      walk := mem[walk].next.offset;
      VisitAt(mem, order, bs, 0, i);
      if best.Some? {
        VisitAt(mem, order, bs, 0, best.value);
      }
      if mem[walk].free && bytes <= mem[walk].size {
        if mem[walk].size == bytes {
          BestFitExact(bs, bytes, i);
          return true, true, walk, i;
        }
        if bestNode == Null || mem[walk].size < mem[bestNode.offset].size {
          bestNode := At(walk);
        }
      }
      best := BestFitIn(bs, bytes, i + 1);
      if mem[walk].next == At(first) {
        break;
      }
      i := i + 1;
    }
    if bestNode == Null {
      return false, false, walk, i;
    }
    return true, false, bestNode.offset, best.value;
  }

  /**
   * `worstFit`'s walk: from `first` once round the list, remembering the
   * largest free block with at least `bytes` bytes (a later one replaces it
   * only when strictly larger).
   */
  method WalkWorst(mem: map<nat, Node>, first: nat, bytes: nat, ghost order: seq<nat>, ghost bs: seq<Block>)
    returns (found: bool, node: nat, ghost k: nat)
    requires WalkView(mem, order, bs, 0) && first == order[0]
    ensures found ==> k < |order| && order[k] == node && WorstFitIn(bs, bytes, |bs|) == Some(k)
    ensures !found ==> WorstFitIn(bs, bytes, |bs|) == None
  {
    var worstNode: Ptr := Null;
    StartView(mem, order, bs, 0);
    var walk := mem[first].prev.offset;
    ghost var i := 0;
    ghost var worst: Option<nat> := None;
    while true
      invariant i < |order| && walk in mem && mem[walk].next == At(order[i])
      invariant worst == WorstFitIn(bs, bytes, i) && (worst.Some? ==> worst.value < i)
      invariant worstNode == if worst.None? then Null else At(order[worst.value])
      decreases |order| - i
    {
      walk := mem[walk].next.offset;
      VisitAt(mem, order, bs, 0, i);
      if worst.Some? {
        VisitAt(mem, order, bs, 0, worst.value);
      }
      if mem[walk].free && bytes <= mem[walk].size {
        if worstNode == Null || mem[walk].size > mem[worstNode.offset].size {
          worstNode := At(walk);
        }
      }
      worst := WorstFitIn(bs, bytes, i + 1);
      if mem[walk].next == At(first) {
        break;
      }
      i := i + 1;
    }
    if worstNode == Null {
      return false, walk, i;
    }
    return true, worstNode.offset, worst.value;
  }

  /**
   * The link rewrites of `freeNode` on block `i`: a new header at `tail`
   * linked between block `i` and its successor, and nothing else relinked.
   */
  ghost predicate SplitRewrites(m0: map<nat, Node>, m1: map<nat, Node>, o0: seq<nat>, i: nat, tail: nat)
    requires i < |o0| && forall k :: 0 <= k < |o0| ==> o0[k] in m0
  {
    var node, succ := o0[i], o0[Succ(i, |o0|)];
    tail in m1 && m1[tail].next == At(succ) && m1[tail].prev == At(node)
    && node in m1 && m1[node].next == At(tail)
    && succ in m1 && m1[succ].prev == At(tail)
    && (succ != node ==> m1[node].prev == m0[node].prev && m1[succ].next == m0[succ].next)
    && forall k :: 0 <= k < |o0| && o0[k] != node && o0[k] != succ ==>
         o0[k] in m1 && m1[o0[k]].next == m0[o0[k]].next && m1[o0[k]].prev == m0[o0[k]].prev
  }

  lemma SplitNextLinked(m0: map<nat, Node>, m1: map<nat, Node>, o0: seq<nat>, i: nat, tail: nat)
    requires i < |o0| && Ascending(o0) && (forall k :: 0 <= k < |o0| ==> o0[k] in m0 && o0[k] != tail)
    requires RingLinked(m0, o0) && SplitRewrites(m0, m1, o0, i, tail)
    ensures var o1 := o0[..i + 1] + [tail] + o0[i + 1..];
      (forall k :: 0 <= k < |o1| ==> o1[k] in m1)
      && (forall k :: 0 <= k < |o1| - 1 ==> m1[o1[k]].next == At(o1[k + 1]))
      && m1[o1[|o1| - 1]].next == At(o1[0])
  {
    RingStepsIff(m0, o0);
    var n := |o0|;
    var node, s := o0[i], Succ(i, n);
    var succ := o0[s];
    var o1 := o0[..i + 1] + [tail] + o0[i + 1..];
    forall k | 0 <= k <= n
      ensures o1[k] in m1
    {
      if k <= i {
        assert o1[k] == o0[k];
      } else if k > i + 1 {
        assert o1[k] == o0[k - 1];
      } else {
        assert o1[k] == tail;
      }
    }
    forall k | 0 <= k < n
      ensures m1[o1[k]].next == At(o1[k + 1])
    {
      if k < i {
        assert o1[k] == o0[k] && o1[k + 1] == o0[k + 1] && o0[k] != node;
        assert m0[o0[k]].next == At(o0[k + 1]);
      } else if k == i {
        assert o1[k] == node && o1[k + 1] == tail;
      } else if k == i + 1 {
        assert o1[k] == tail && o1[k + 1] == o0[i + 1] == succ;
      } else {
        assert o1[k] == o0[k - 1] && o1[k + 1] == o0[k] && o0[k - 1] != node;
        assert m0[o0[k - 1]].next == At(o0[k]);
        assert o0[k - 1] == succ ==> k - 1 == s;
      }
    }
    assert m1[o1[n]].next == At(o1[0]) by {
      assert o1[0] == o0[0];
      if i + 1 < n {
        assert o1[n] == o0[n - 1] && o0[n - 1] != node;
        assert o0[n - 1] == succ ==> n - 1 == s;
      } else {
        assert o1[n] == tail;
      }
    }
  }

  lemma SplitPrevLinked(m0: map<nat, Node>, m1: map<nat, Node>, o0: seq<nat>, i: nat, tail: nat)
    requires i < |o0| && Ascending(o0) && (forall k :: 0 <= k < |o0| ==> o0[k] in m0 && o0[k] != tail)
    requires RingLinked(m0, o0) && SplitRewrites(m0, m1, o0, i, tail)
    requires var o1 := o0[..i + 1] + [tail] + o0[i + 1..];
      forall k :: 0 <= k < |o1| ==> o1[k] in m1
    ensures var o1 := o0[..i + 1] + [tail] + o0[i + 1..];
      (forall k :: 0 < k < |o1| ==> m1[o1[k]].prev == At(o1[k - 1]))
      && m1[o1[0]].prev == At(o1[|o1| - 1])
  {
    RingStepsIff(m0, o0);
    var n := |o0|;
    var node, s := o0[i], Succ(i, n);
    var succ := o0[s];
    var o1 := o0[..i + 1] + [tail] + o0[i + 1..];
    forall k | 0 < k <= n
      ensures m1[o1[k]].prev == At(o1[k - 1])
    {
      if k < i {
        assert o1[k] == o0[k] && o1[k - 1] == o0[k - 1] && o0[k] != node && o0[k] != succ;
        assert m0[o0[k]].prev == At(o0[k - 1]);
      } else if k == i {
        assert o1[k] == node && o1[k - 1] == o0[k - 1] && succ != node;
        assert m0[o0[k]].prev == At(o0[k - 1]);
      } else if k == i + 1 {
        assert o1[k] == tail && o1[k - 1] == node;
      } else if k == i + 2 {
        assert o1[k] == succ && o1[k - 1] == tail;
      } else {
        assert o1[k] == o0[k - 1] && o1[k - 1] == o0[k - 2] && o0[k - 1] != node && o0[k - 1] != succ;
        assert m0[o0[k - 1]].prev == At(o0[k - 2]);
      }
    }
    assert m1[o1[0]].prev == At(o1[n]) by {
      assert o1[0] == o0[0];
      if i + 1 < n {
        assert o1[n] == o0[n - 1];
        if i == 0 {
          assert succ != node;
        } else {
          assert o0[0] != node && o0[0] != succ;
        }
      } else {
        assert o1[n] == tail && succ == o0[0];
      }
    }
  }

  /**
   * The link rewrites of `freeNode` on block `i` leave a well-linked ring one
   * block longer, with the new header in position `i + 1`.
   */
  lemma SplitRingLinked(m0: map<nat, Node>, m1: map<nat, Node>, o0: seq<nat>, i: nat, tail: nat)
    requires i < |o0| && Ascending(o0) && (forall k :: 0 <= k < |o0| ==> o0[k] in m0 && o0[k] != tail)
    requires RingLinked(m0, o0) && SplitRewrites(m0, m1, o0, i, tail)
    ensures var o1 := o0[..i + 1] + [tail] + o0[i + 1..];
      (forall k :: 0 <= k < |o1| ==> o1[k] in m1) && RingLinked(m1, o1)
  {
    SplitNextLinked(m0, m1, o0, i, tail);
    SplitPrevLinked(m0, m1, o0, i, tail);
    RingStepsIff(m1, o0[..i + 1] + [tail] + o0[i + 1..]);
  }

  /**
   * The three header writes of `freeNode` on block `i` (the new header at
   * `tail`, the successor's `prev`, then block `i` itself) are the split's
   * rewrites, and they give the header view of the split block sequence.
   */
  lemma SplitWrites(m0: map<nat, Node>, m1: map<nat, Node>, o0: seq<nat>, b0: seq<Block>,
                    i: nat, bytes: nat, nodeSize: nat, tail: nat)
    requires i < |o0| && Ascending(o0) && (forall k :: 0 <= k < |o0| ==> o0[k] in m0 && o0[k] != tail)
    requires RingLinked(m0, o0) && Headers(m0, o0, b0) && b0[i].size > bytes + nodeSize
    requires var node, succ := o0[i], o0[Succ(i, |o0|)];
      var m2 := m0[tail := Node(true, m0[node].size - (bytes + nodeSize), m0[node].next, At(node))];
      var m3 := m2[succ := m2[succ].(prev := At(tail))];
      m1 == m3[node := m3[node].(free := false, size := bytes, next := At(tail))]
    ensures SplitRewrites(m0, m1, o0, i, tail)
    ensures Headers(m1, o0[..i + 1] + [tail] + o0[i + 1..], SplitAt(b0, i, bytes, nodeSize))
  {
    var node, succ := o0[i], o0[Succ(i, |o0|)];
    assert m0[node].next == At(succ);
    forall k | 0 <= k < |o0| && k != i
      ensures o0[k] in m1 && m1[o0[k]].free == m0[o0[k]].free && m1[o0[k]].size == m0[o0[k]].size
    {
      assert o0[k] != node;
    }
    SplitHeaders(m0, m1, o0, b0, i, bytes, nodeSize, tail);
  }

  /**
   * `freeNode`'s writes keep the header, tiling, linking and coalescing
   * invariants, with the new header in position `i + 1` and every old block
   * keeping its header.
   */
  lemma SplitPreserves(m0: map<nat, Node>, m1: map<nat, Node>, o0: seq<nat>, b0: seq<Block>,
                       o1: seq<nat>, b1: seq<Block>, i: nat, bytes: nat, nodeSize: nat, regionSize: nat, c: nat)
    requires nodeSize > 0 && Linked(m0, o0, b0, nodeSize, regionSize) && NoAdjacentFree(b0)
    requires i < |o0| && b0[i].size > bytes + nodeSize && (i + 1 < |b0| ==> !b0[i + 1].free)
    requires var node, succ := o0[i], o0[Succ(i, |o0|)];
      var tail := node + nodeSize + bytes;
      var m2 := m0[tail := Node(true, m0[node].size - (bytes + nodeSize), m0[node].next, At(node))];
      var m3 := m2[succ := m2[succ].(prev := At(tail))];
      m1 == m3[node := m3[node].(free := false, size := bytes, next := At(tail))]
    requires o1 == o0[..i + 1] + [o0[i] + nodeSize + bytes] + o0[i + 1..]
    requires b1 == SplitAt(b0, i, bytes, nodeSize)
    ensures Linked(m1, o1, b1, nodeSize, regionSize) && NoAdjacentFree(b1)
    requires c < |o0|
    ensures c + 1 < |o1| && o1[if c > i then c + 1 else c] == o0[c]
  {
    var tail := o0[i] + nodeSize + bytes;
    assert Tiled(o1, b1, nodeSize, regionSize) by {
      SplitTiled(o0, b0, i, bytes, nodeSize, regionSize);
    }
    assert NoAdjacentFree(b1) by {
      SplitKeepsNoAdjacentFree(b0, i, bytes, nodeSize);
    }
    assert Headers(m1, o1, b1) && RingLinked(m1, o1) by {
      TiledIncreasing(o0, b0, nodeSize, regionSize);
      SplitPointFresh(o0, b0, i, bytes, nodeSize, regionSize);
      SplitWrites(m0, m1, o0, b0, i, bytes, nodeSize, tail);
      SplitRingLinked(m0, m1, o0, i, tail);
    }
  }

  /**
   * The link rewrites of a merge of block `j` with its successor (the
   * successor's `next` copied into block `j`, and the block after that
   * pointed back at `j` unless it is `j` itself) leave a well-linked ring one
   * shorter. When block `j` is left alone in the ring its `prev` may still
   * name the absorbed header.
   */
  lemma MergeRingLinked(m0: map<nat, Node>, m1: map<nat, Node>, o0: seq<nat>, j: nat, c: nat)
    requires j + 1 < |o0| && Ascending(o0) && (forall k :: 0 <= k < |o0| ==> o0[k] in m0)
    requires RingLinked(m0, o0)
    requires c == o0[Succ(j + 1, |o0|)]
    requires var a, b := o0[j], o0[j + 1];
      a in m1 && m1[a].next == At(c)
      && b in m1 && m1[b].next == At(c)
      && (c != a ==> c in m1 && m1[c].prev == At(a) && m1[c].next == m0[c].next && m1[a].prev == m0[a].prev)
      && (c == a ==> m1[a].prev == m0[a].prev || m1[a].prev == At(a))
      && forall k :: 0 <= k < |o0| && o0[k] != a && o0[k] != b && o0[k] != c ==>
           o0[k] in m1 && m1[o0[k]].next == m0[o0[k]].next && m1[o0[k]].prev == m0[o0[k]].prev
    ensures var o1 := o0[..j + 1] + o0[j + 2..];
      (forall k :: 0 <= k < |o1| ==> o1[k] in m1) && RingLinked(m1, o1)
  {
    RingStepsIff(m0, o0);
    var n := |o0|;
    var a, b := o0[j], o0[j + 1];
    var o1 := o0[..j + 1] + o0[j + 2..];
    assert |o1| == n - 1;
    assert forall k :: 0 <= k <= j ==> o1[k] == o0[k];
    assert forall k :: j < k < n - 1 ==> o1[k] == o0[k + 1];
    forall k | 0 <= k < n - 1
      ensures o1[k] in m1
    {
      if k <= j { assert o1[k] == o0[k]; } else { assert o1[k] == o0[k + 1]; }
    }
    forall k | 0 <= k < n - 2
      ensures m1[o1[k]].next == At(o1[k + 1])
    {
      if k < j {
        assert o0[k] != a && o0[k] != b;
        assert o1[k + 1] == o0[k + 1];
        assert o0[k] == c ==> k == 0 && j + 2 == n;
      } else if k > j {
        assert o0[k + 1] != a && o0[k + 1] != b;
        assert o1[k + 1] == o0[k + 2];
      }
    }
    assert m1[o1[n - 2]].next == At(o1[0]) by {
      if j < n - 2 {
        assert o1[n - 2] == o0[n - 1] && o0[n - 1] != a && o0[n - 1] != b;
      }
    }
    forall k | 0 < k < n - 1
      ensures m1[o1[k]].prev == At(o1[k - 1])
    {
      if k < j {
        assert o0[k] != a && o0[k] != b && o0[k] != c;
      } else if k == j {
        assert c != a;
      } else if k == j + 1 {
        assert o1[k] == c;
      } else {
        assert o0[k + 1] != a && o0[k + 1] != b && o0[k + 1] != c;
        assert o1[k - 1] == o0[k];
      }
    }
    if n - 1 > 1 {
      assert m1[o1[0]].prev == At(o1[n - 2]) by {
        if j + 2 == n {
          assert o1[n - 2] == a && c == o0[0] && c != a;
        } else if j == 0 {
          assert c != a;
          assert o1[n - 2] == o0[n - 1];
        } else {
          assert o0[0] != a && o0[0] != b && o0[0] != c;
          assert o1[n - 2] == o0[n - 1];
        }
      }
    } else {
      assert c == a;
    }
    RingStepsIff(m1, o1);
  }

  /**
   * The neighbours a live header names: its `next` is the header after it
   * in the ring, and its `prev` is a header in the region, the one before it
   * unless it is the first.
   */
  lemma Neighbours(mem: map<nat, Node>, order: seq<nat>, bs: seq<Block>, nodeSize: nat, regionSize: nat, i: nat)
    requires nodeSize > 0 && Linked(mem, order, bs, nodeSize, regionSize) && i < |order|
    ensures mem[order[i]].next == At(order[Succ(i, |order|)])
    ensures mem[order[i]].prev.At? && mem[order[i]].prev.offset in mem
    ensures 0 < i ==> mem[order[i]].prev == At(order[i - 1])
  {
    PrevLeadsTo(mem, order, bs, nodeSize, regionSize, i);
    if 0 < i {
      assert order[Succ(i - 1, |order|)] == order[i];
    }
  }

  /**
   * Whether `deallocate` absorbs the successor of the freed block `i`: the
   * header its `next` names is another block, free and not `firstBlock`
   * exactly when block `i` has a free block after it in address order.
   */
  lemma NextGuard(mem: map<nat, Node>, order: seq<nat>, bs: seq<Block>, nodeSize: nat, regionSize: nat, i: nat)
    requires nodeSize > 0 && Linked(mem, order, bs, nodeSize, regionSize) && i < |order|
    ensures var next := order[Succ(i, |order|)];
      (next != order[i] && mem[next].free && next != 0) <==> (i + 1 < |bs| && bs[i + 1].free)
    ensures i + 1 < |order| ==> order[Succ(i, |order|)] == order[i + 1]
  {
    TiledIncreasing(order, bs, nodeSize, regionSize);
  }

  /**
   * Whether `deallocate` lets the predecessor absorb block `i`: the header
   * its `prev` named is another block, free, and block `i` is not
   * `firstBlock` exactly when block `i` has a free block before it.
   */
  lemma PrevGuard(mem: map<nat, Node>, order: seq<nat>, bs: seq<Block>, nodeSize: nat, regionSize: nat,
                  i: nat, prev: nat)
    requires nodeSize > 0 && Linked(mem, order, bs, nodeSize, regionSize) && i < |order|
    requires prev in mem && (0 < i ==> prev == order[i - 1])
    ensures (prev != order[i] && mem[prev].free && order[i] != 0) <==> (0 < i && bs[i - 1].free)
  {
    TiledIncreasing(order, bs, nodeSize, regionSize);
  }

  /**
   * The link rewrites of one coalescing step of `deallocate` on block `j`
   * and its successor are those MergeRingLinked describes.
   */
  lemma MergeLinks(m0: map<nat, Node>, m1: map<nat, Node>, o0: seq<nat>, j: nat, node: nat, nodeSize: nat)
    requires j + 1 < |o0| && Ascending(o0) && (forall k :: 0 <= k < |o0| ==> o0[k] in m0)
    requires RingLinked(m0, o0) && (node == o0[j] || node == o0[j + 1])
    requires var a, b, after := o0[j], o0[j + 1], o0[Succ(j + 1, |o0|)];
      var m2 := m0[a := m0[a].(next := At(after), size := m0[a].size + m0[b].size + nodeSize)];
      m1 == if after != node then m2[after := m2[after].(prev := At(a))] else m2
    ensures var o1 := o0[..j + 1] + o0[j + 2..];
      (forall k :: 0 <= k < |o1| ==> o1[k] in m1) && RingLinked(m1, o1)
  {
    var n := |o0|;
    var a, b, after := o0[j], o0[j + 1], o0[Succ(j + 1, n)];
    assert m0[b].next == At(after);
    assert a < b;
    assert after != b by {
      if Succ(j + 1, n) == 0 { assert o0[0] < b; } else { assert b < after; }
    }
    MergeRingLinked(m0, m1, o0, j, after);
  }

  /**
   * The writes of one coalescing step of `deallocate` on block `j` and its
   * successor (the successor's `next` and its body and header added to
   * block `j`, then the header after the pair pointed back at block `j`
   * unless that header is `node`, the block being freed) keep the list well
   * linked, one block shorter; a cursor on the absorbed block moves to
   * block `j`, any other stays on its block.
   */
  lemma MergePreserves(m0: map<nat, Node>, m1: map<nat, Node>, o0: seq<nat>, b0: seq<Block>,
                       o1: seq<nat>, b1: seq<Block>, j: nat, node: nat, nodeSize: nat, regionSize: nat,
                       c0: nat, c1: nat)
    requires nodeSize > 0 && Linked(m0, o0, b0, nodeSize, regionSize)
    requires j + 1 < |o0| && b0[j].free && (node == o0[j] || node == o0[j + 1])
    requires var a, b, after := o0[j], o0[j + 1], o0[Succ(j + 1, |o0|)];
      var m2 := m0[a := m0[a].(next := At(after), size := m0[a].size + m0[b].size + nodeSize)];
      m1 == if after != node then m2[after := m2[after].(prev := At(a))] else m2
    requires o1 == o0[..j + 1] + o0[j + 2..] && b1 == MergeAt(b0, j, nodeSize)
    requires c0 < |o0| && c1 == if c0 > j then c0 - 1 else c0
    ensures Linked(m1, o1, b1, nodeSize, regionSize)
    ensures c1 < |o1| && o1[c1] == if o0[c0] == o0[j + 1] then o0[j] else o0[c0]
  {
    var n := |o0|;
    var a := o0[j];
    assert Tiled(o1, b1, nodeSize, regionSize) by {
      MergeTiled(o0, b0, j, nodeSize, regionSize);
    }
    assert Headers(m1, o1, b1) by {
      TiledIncreasing(o0, b0, nodeSize, regionSize);
      forall k | 0 <= k < n && k != j && k != j + 1
        ensures o0[k] in m1 && m1[o0[k]].free == m0[o0[k]].free && m1[o0[k]].size == m0[o0[k]].size
      {
        assert o0[k] != a;
      }
      MergeHeaders(m0, m1, o0, b0, j, nodeSize);
    }
    assert RingLinked(m1, o1) by {
      TiledIncreasing(o0, b0, nodeSize, regionSize);
      MergeLinks(m0, m1, o0, j, node, nodeSize);
    }
    if c0 != j + 1 {
      assert o0[c0] != o0[j + 1] by {
        TiledIncreasing(o0, b0, nodeSize, regionSize);
      }
    }
  }

  class Allocator {
    const nodeSize: nat      // sizeof(Node)
    const regionSize: nat    // bytes handed to initialise
    const firstBlock: nat    // offset of the head of the list
    const policy: Policy     // what `allocate` points at
    var mem: map<nat, Node>  // headers written into the region
    var lastUsed: nat        // the Next-Fit cursor

    ghost var order: seq<nat>
    ghost var blocks: seq<Block>
    ghost var cursor: nat

    /** The list structure, tiling and cursor, without the coalescing invariant. */
    ghost predicate Wf()
      reads this
    {
      nodeSize > 0 && firstBlock == 0
      && Linked(mem, order, blocks, nodeSize, regionSize)
      && cursor < |order| && order[cursor] == lastUsed
    }

    /** Wf and no two neighbouring blocks free, between calls. */
    ghost predicate Valid()
      reads this
    {
      Wf() && NoAdjacentFree(blocks)
    }

    /** Distinct live headers sit at distinct offsets, all inside the region. */
    lemma Distinct()
      requires Wf()
      ensures forall a, b :: 0 <= a < b < |order| ==> order[a] < order[b]
      ensures forall a :: 0 <= a < |order| ==> order[a] + nodeSize + blocks[a].size <= regionSize
    {
      TiledIncreasing(order, blocks, nodeSize, regionSize);
    }

    /** One free block covering the whole region less its header, cursor on it. */
    constructor Init(regionSize: nat, nodeSize: nat, policy: Policy)
      requires 0 < nodeSize <= regionSize
      ensures Valid()
      ensures this.regionSize == regionSize && this.nodeSize == nodeSize && this.policy == policy
      ensures blocks == [Block(true, regionSize - nodeSize)]
      ensures order == [firstBlock] && lastUsed == firstBlock
      ensures firstBlock in mem && mem[firstBlock] == Node(true, regionSize - nodeSize, At(firstBlock), At(firstBlock))
    {
      this.nodeSize := nodeSize;
      this.regionSize := regionSize;
      this.policy := policy;
      firstBlock := 0;
      mem := map[0 := Node(true, regionSize - nodeSize, At(0), At(0))];
      lastUsed := 0;
      order := [0];
      blocks := [Block(true, regionSize - nodeSize)];
      cursor := 0;
    }

    /**
     * `initialise`: the process exits when the region is NULL or its size is
     * 0 (None here); otherwise the allocator holds one free block of
     * `size - nodeSize` bytes linked to itself, both `firstBlock` and
     * `lastUsed` name it, and the policy is the one `algorithm` names.
     */
    static method Initialise(memory: Ptr, size: nat, nodeSize: nat, algorithm: Option<string>)
      returns (a: Option<Allocator>)
      requires 0 < nodeSize
      requires size != 0 ==> nodeSize <= size
      ensures a.None? <==> size == 0 || memory.Null?
      ensures a.Some? ==> fresh(a.value) && a.value.Valid()
      ensures a.Some? ==> a.value.policy == PolicyFor(algorithm) && a.value.regionSize == size
      ensures a.Some? ==> a.value.nodeSize == nodeSize
      ensures a.Some? ==> a.value.blocks == [Block(true, size - nodeSize)]
      ensures a.Some? ==> a.value.lastUsed == a.value.firstBlock
      ensures a.Some? ==> a.value.order == [a.value.firstBlock] && a.value.cursor == 0
      ensures a.Some? ==> var first := a.value.firstBlock;
        first in a.value.mem && a.value.mem[first] == Node(true, size - nodeSize, At(first), At(first))
    {
      var policy := PolicyFor(algorithm);
      if size == 0 || memory.Null? {
        return None;
      }
      var allocator := new Allocator.Init(size, nodeSize, policy);
      return Some(allocator);
    }

    /** `node->free = false` on a live block: the block is taken whole. */
    method MarkUsed(node: nat, ghost i: nat)
      requires Valid() && i < |order| && order[i] == node
      modifies this`mem, this`blocks
      ensures Valid()
      ensures blocks == old(blocks)[i := Block(false, old(blocks)[i].size)]
      ensures mem == old(mem)[node := old(mem)[node].(free := false)]
    {
      MarkLinked(mem, order, blocks, nodeSize, regionSize, i, false);
      MarkUsedKeepsNoAdjacentFree(blocks, i);
      mem := mem[node := mem[node].(free := false)];
      blocks := blocks[i := Block(false, blocks[i].size)];
    }

    /**
     * The header writes of `freeNode`: a free header `bytes` into the body
     * of `node`, taking the rest of that body less one header and linked
     * between `node` and its successor; then `node` shrinks to `bytes`, used.
     */
    method WriteSplit(node: nat, bytes: nat, ghost succ: nat) returns (tail: nat)
      requires node in mem && succ in mem && mem[node].next == At(succ)
      requires mem[node].size > bytes + nodeSize
      modifies this`mem
      ensures tail == node + nodeSize + bytes
      ensures var m2 := old(mem)[tail := Node(true, old(mem)[node].size - (bytes + nodeSize), At(succ), At(node))];
        var m3 := m2[succ := m2[succ].(prev := At(tail))];
        mem == m3[node := m3[node].(free := false, size := bytes, next := At(tail))]
    {
      var totalBytes := bytes + nodeSize;
      tail := node + nodeSize + bytes;
      mem := mem[tail := Node(true, mem[node].size - totalBytes, mem[node].next, At(node))];
      if mem[tail].next != Null {
        var after := mem[node].next.offset;
        mem := mem[after := mem[after].(prev := At(tail))];
      }
      mem := mem[node := mem[node].(free := false, size := bytes, next := At(tail))];
    }

    /**
     * `freeNode`: block `i` keeps exactly `bytes`, becomes used, and a new
     * free header is written `bytes` into its body, taking the rest of the
     * body less one header and linked in right after it.
     */
    method FreeNode(node: nat, bytes: nat, ghost i: nat) returns (r: nat)
      requires Valid() && i < |order| && order[i] == node
      requires blocks[i].size > bytes + nodeSize
      requires i + 1 < |blocks| ==> !blocks[i + 1].free
      modifies this`mem, this`order, this`blocks, this`cursor
      ensures Valid() && r == node
      ensures blocks == SplitAt(old(blocks), i, bytes, nodeSize)
      ensures order == old(order)[..i + 1] + [node + nodeSize + bytes] + old(order)[i + 1..]
      ensures cursor == if old(cursor) > i then old(cursor) + 1 else old(cursor)
    {
      ghost var m0, o0, b0, c0 := mem, order, blocks, cursor;
      ghost var succ := order[Succ(i, |order|)];
      assert mem[node].next == At(succ);
      var tail := WriteSplit(node, bytes, succ);
      ghost var o1, b1 := o0[..i + 1] + [tail] + o0[i + 1..], SplitAt(b0, i, bytes, nodeSize);
      SplitPreserves(m0, mem, o0, b0, o1, b1, i, bytes, nodeSize, regionSize, c0);
      order, blocks := o1, b1;
      cursor := if cursor > i then cursor + 1 else cursor;
      r := node;
    }

    /** A block with no room for another header is marked used and handed out whole. */
    method TakeWhole(node: nat, bytes: nat, ghost k: nat) returns (r: Ptr)
      requires Valid() && k < |order| && order[k] == node && Fits(blocks[k], bytes)
      requires blocks[k].size <= bytes + nodeSize
      modifies this`mem, this`blocks
      ensures Valid()
      ensures Placed(old(mem), old(order), old(blocks), mem, order, blocks, Some(k), bytes, nodeSize, r)
    {
      assert Grant(blocks, k, bytes, nodeSize) == blocks[k := Block(false, blocks[k].size)];
      assert GrantOrder(order, blocks, k, bytes, nodeSize) == order;
      MarkUsed(node, k);
      return At(node + nodeSize);
    }

    /**
     * How `firstFit` and `nextFit` take the block they stop at: whole when
     * it has no room for another header and at least one more byte
     * (`size <= bytes + nodeSize`), through `freeNode` otherwise.
     */
    method Claim(node: nat, bytes: nat, ghost k: nat) returns (r: Ptr)
      requires Valid() && k < |order| && order[k] == node && Fits(blocks[k], bytes)
      modifies this`mem, this`order, this`blocks, this`cursor
      ensures Valid()
      ensures Placed(old(mem), old(order), old(blocks), mem, order, blocks, Some(k), bytes, nodeSize, r)
      ensures cursor == GrantCursor(old(blocks), k, bytes, nodeSize, old(cursor))
    {
      var totalBytes := bytes + nodeSize;
      if mem[node].size <= totalBytes {
        r := TakeWhole(node, bytes, k);
      } else {
        r := TakeSplit(node, bytes, k);
      }
    }

    /** A block with room for another header and at least one more byte is split by `freeNode`. */
    method TakeSplit(node: nat, bytes: nat, ghost k: nat) returns (r: Ptr)
      requires Valid() && k < |order| && order[k] == node && Fits(blocks[k], bytes)
      requires blocks[k].size > bytes + nodeSize
      modifies this`mem, this`order, this`blocks, this`cursor
      ensures Valid()
      ensures Placed(old(mem), old(order), old(blocks), mem, order, blocks, Some(k), bytes, nodeSize, r)
      ensures cursor == GrantCursor(old(blocks), k, bytes, nodeSize, old(cursor))
    {
      assert Grant(blocks, k, bytes, nodeSize) == SplitAt(blocks, k, bytes, nodeSize);
      assert GrantOrder(order, blocks, k, bytes, nodeSize) == order[..k + 1] + [node + nodeSize + bytes] + order[k + 1..];
      var n := FreeNode(node, bytes, k);
      return At(n + nodeSize);
    }

    /**
     * How `bestFit` and `worstFit` take the block they chose: marked used
     * first, then split by `freeNode` when `size > bytes + nodeSize`.
     */
    method ClaimMarked(node: nat, bytes: nat, ghost k: nat) returns (r: Ptr)
      requires Valid() && k < |order| && order[k] == node && Fits(blocks[k], bytes)
      modifies this`mem, this`order, this`blocks, this`cursor
      ensures Valid()
      ensures Placed(old(mem), old(order), old(blocks), mem, order, blocks, Some(k), bytes, nodeSize, r)
      ensures cursor == GrantCursor(old(blocks), k, bytes, nodeSize, old(cursor))
    {
      var totalBytes := bytes + nodeSize;
      var chosen := node;
      ghost var b0 := blocks;
      assert GrantOrder(order, blocks, k, bytes, nodeSize)
          == if blocks[k].size <= bytes + nodeSize then order
             else order[..k + 1] + [node + nodeSize + bytes] + order[k + 1..];
      MarkUsed(chosen, k);
      if mem[chosen].size > totalBytes {
        SplitAfterMarkUsed(b0, k, bytes, nodeSize);
        chosen := FreeNode(chosen, bytes, k);
      }
      return At(chosen + nodeSize);
    }

    /**
     * `firstFit`: 0 bytes gives NULL; otherwise the first free block from
     * `firstBlock` with at least `bytes` bytes is taken, whole when it has no
     * room for another header and at least one more byte, split otherwise.
     */
    method FirstFit(bytes: nat) returns (r: Ptr)
      requires Valid()
      modifies this`mem, this`order, this`blocks, this`cursor
      ensures Valid()
      ensures Placed(old(mem), old(order), old(blocks), mem, order, blocks, Placement(UseFirstFit, old(blocks), bytes, old(cursor)), bytes, nodeSize, r)
      ensures cursor == PlacedCursor(UseFirstFit, old(blocks), bytes, nodeSize, old(cursor))
    {
      if bytes < 1 {
        return Null;
      }
      ghost var pick := Placement(UseFirstFit, blocks, bytes, cursor);
      assert WalkView(mem, order, blocks, 0) by { LinkedWalkView(mem, order, blocks, nodeSize, regionSize, 0); }
      var found, node, k := WalkFirst(mem, firstBlock, bytes, order, blocks);
      if !found {
        assert pick == None;
        return Null;
      }
      assert pick == Some(k);
      r := Claim(node, bytes, k);
    }

    /**
     * How `nextFit` takes the block it stops at: `lastUsed` moves to it
     * first, then it is taken as `firstFit` takes one.
     */
    method ClaimNext(node: nat, bytes: nat, ghost k: nat) returns (r: Ptr)
      requires Valid() && k < |order| && order[k] == node && Fits(blocks[k], bytes)
      modifies this`mem, this`order, this`blocks, this`cursor, this`lastUsed
      ensures Valid()
      ensures Placed(old(mem), old(order), old(blocks), mem, order, blocks, Some(k), bytes, nodeSize, r)
      ensures lastUsed == node
      ensures cursor == k
    {
      lastUsed := node;
      cursor := k;
      r := Claim(node, bytes, k);
    }

    /**
     * `nextFit`: 0 bytes gives NULL; otherwise the first fitting block
     * from `lastUsed` round the list becomes `lastUsed` and is taken as
     * `firstFit` takes one.
     */
    method NextFit(bytes: nat) returns (r: Ptr)
      requires Valid()
      modifies this`mem, this`order, this`blocks, this`cursor, this`lastUsed
      ensures Valid()
      ensures Placed(old(mem), old(order), old(blocks), mem, order, blocks, Placement(UseNextFit, old(blocks), bytes, old(cursor)), bytes, nodeSize, r)
      ensures r.At? ==> lastUsed + nodeSize == r.offset
      ensures r.Null? ==> lastUsed == old(lastUsed)
      ensures cursor == PlacedCursor(UseNextFit, old(blocks), bytes, nodeSize, old(cursor))
    {
      if bytes < 1 {
        return Null;
      }
      ghost var pick := Placement(UseNextFit, blocks, bytes, cursor);
      assert WalkView(mem, order, blocks, cursor) by { LinkedWalkView(mem, order, blocks, nodeSize, regionSize, cursor); }
      var found, node, j := WalkNext(mem, lastUsed, bytes, order, blocks, cursor);
      if !found {
        assert pick == None;
        return Null;
      }
      assert pick == Some(j);
      r := ClaimNext(node, bytes, j);
    }

    /** `bestFit`'s walk over this list, as the block `allocate` would place a request in. */
    method SearchBest(bytes: nat) returns (found: bool, exact: bool, node: nat, ghost k: nat)
      requires Valid() && 1 <= bytes
      ensures found ==> k < |order| && order[k] == node && Placement(UseBestFit, blocks, bytes, cursor) == Some(k)
      ensures !found ==> Placement(UseBestFit, blocks, bytes, cursor) == None
      ensures exact ==> found && blocks[k].size == bytes
    {
      assert WalkView(mem, order, blocks, 0) by { LinkedWalkView(mem, order, blocks, nodeSize, regionSize, 0); }
      found, exact, node, k := WalkBest(mem, firstBlock, bytes, order, blocks);
    }

    /** `worstFit`'s walk over this list, as the block `allocate` would place a request in. */
    method SearchWorst(bytes: nat) returns (found: bool, node: nat, ghost k: nat)
      requires Valid() && 1 <= bytes
      ensures found ==> k < |order| && order[k] == node && Placement(UseWorstFit, blocks, bytes, cursor) == Some(k)
      ensures !found ==> Placement(UseWorstFit, blocks, bytes, cursor) == None
    {
      assert WalkView(mem, order, blocks, 0) by { LinkedWalkView(mem, order, blocks, nodeSize, regionSize, 0); }
      found, node, k := WalkWorst(mem, firstBlock, bytes, order, blocks);
    }

    /**
     * `bestFit`: 0 bytes gives NULL; a block of exactly `bytes` bytes met on
     * the walk is marked used and returned at once; otherwise the smallest
     * fitting block, the earliest among equals, is marked used and split when
     * it has room for another header and at least one more byte.
     */
    method BestFit(bytes: nat) returns (r: Ptr)
      requires Valid()
      modifies this`mem, this`order, this`blocks, this`cursor
      ensures Valid()
      ensures Placed(old(mem), old(order), old(blocks), mem, order, blocks, Placement(UseBestFit, old(blocks), bytes, old(cursor)), bytes, nodeSize, r)
      ensures cursor == PlacedCursor(UseBestFit, old(blocks), bytes, nodeSize, old(cursor))
    {
      if bytes < 1 {
        return Null;
      }
      var found, exact, node, k := SearchBest(bytes);
      if !found {
        return Null;
      }
      if exact {
        r := TakeWhole(node, bytes, k);
        return;
      }
      r := ClaimMarked(node, bytes, k);
    }

    /**
     * `worstFit`: 0 bytes gives NULL; otherwise the largest fitting block,
     * the earliest among equals, is marked used and split when it has room
     * for another header and at least one more byte.
     */
    method WorstFit(bytes: nat) returns (r: Ptr)
      requires Valid()
      modifies this`mem, this`order, this`blocks, this`cursor
      ensures Valid()
      ensures Placed(old(mem), old(order), old(blocks), mem, order, blocks, Placement(UseWorstFit, old(blocks), bytes, old(cursor)), bytes, nodeSize, r)
      ensures cursor == PlacedCursor(UseWorstFit, old(blocks), bytes, nodeSize, old(cursor))
    {
      if bytes < 1 {
        return Null;
      }
      var found, node, k := SearchWorst(bytes);
      if !found {
        return Null;
      }
      r := ClaimMarked(node, bytes, k);
    }

    /**
     * `allocate`: the placement function `initialise` chose, applied to
     * `bytes`. The block it takes is the one the policy's selection rule
     * picks in the list as it stood.
     */
    method Allocate(bytes: nat) returns (r: Ptr)
      requires Valid()
      modifies this`mem, this`order, this`blocks, this`cursor, this`lastUsed
      ensures Valid()
      ensures Placed(old(mem), old(order), old(blocks), mem, order, blocks, Placement(policy, old(blocks), bytes, old(cursor)), bytes, nodeSize, r)
      ensures cursor == PlacedCursor(policy, old(blocks), bytes, nodeSize, old(cursor))
    {
      match policy
      case UseFirstFit => r := FirstFit(bytes);
      case UseNextFit => r := NextFit(bytes);
      case UseBestFit => r := BestFit(bytes);
      case UseWorstFit => r := WorstFit(bytes);
    }

    /** `node->free = true` on a live block; its neighbours are not looked at yet. */
    method MarkFree(node: nat, ghost i: nat)
      requires Wf() && i < |order| && order[i] == node
      modifies this`mem, this`blocks
      ensures Wf()
      ensures blocks == old(blocks)[i := Block(true, old(blocks)[i].size)]
      ensures mem == old(mem)[node := old(mem)[node].(free := true)]
    {
      MarkLinked(mem, order, blocks, nodeSize, regionSize, i, true);
      mem := mem[node := mem[node].(free := true)];
      blocks := blocks[i := Block(true, blocks[i].size)];
    }

    /**
     * The header writes of one coalescing step: `keep` takes over the `next`
     * of `gone`, the block after it, and grows by `gone`'s body and header;
     * then, unless `gone`'s `next` is `node`, the header it names is pointed
     * back at `keep`.
     */
    method WriteMerge(keep: nat, gone: nat, node: nat, ghost after: nat)
      requires keep in mem && gone in mem && keep != gone && mem[gone].next == At(after) && after in mem
      modifies this`mem
      ensures mem.Keys == old(mem).Keys
      ensures var m2 := old(mem)[keep := old(mem)[keep].(next := At(after), size := old(mem)[keep].size + old(mem)[gone].size + nodeSize)];
        mem == if after != node then m2[after := m2[after].(prev := At(keep))] else m2
    {
      mem := mem[keep := mem[keep].(next := mem[gone].next, size := mem[keep].size + mem[gone].size + nodeSize)];
      if mem[gone].next != At(node) {
        var next := mem[gone].next.offset;
        mem := mem[next := mem[next].(prev := At(keep))];
      }
    }

    /**
     * One coalescing step: block `j`, at `keep`, absorbs block `j + 1`, at
     * `gone`; a `lastUsed` naming `gone` is moved to `keep`. `node` is the
     * block being freed, one of the two.
     */
    method Absorb(keep: nat, gone: nat, node: nat, ghost j: nat)
      requires Wf() && j + 1 < |order| && order[j] == keep && order[j + 1] == gone && blocks[j].free
      requires node == keep || node == gone
      modifies this`mem, this`order, this`blocks, this`cursor, this`lastUsed
      ensures Wf() && mem.Keys == old(mem).Keys
      ensures blocks == MergeAt(old(blocks), j, nodeSize)
      ensures order == old(order)[..j + 1] + old(order)[j + 2..]
      ensures cursor == if old(cursor) > j then old(cursor) - 1 else old(cursor)
    {
      ghost var m0, o0, b0, c0 := mem, order, blocks, cursor;
      ghost var after := order[Succ(j + 1, |order|)];
      assert order[Succ(j, |order|)] == gone;
      assert mem[gone].next == At(after);
      if lastUsed == gone {
        lastUsed := keep;
      }
      WriteMerge(keep, gone, node, after);
      order := order[..j + 1] + order[j + 2..];
      blocks := MergeAt(blocks, j, nodeSize);
      cursor := if cursor > j then cursor - 1 else cursor;
      MergePreserves(m0, mem, o0, b0, order, blocks, j, node, nodeSize, regionSize, c0, cursor);
    }

    /**
     * The first coalescing step of `deallocate`, on the freed block `i`: the
     * block after it is absorbed when it is free, is another block, and is
     * not `firstBlock` (no merge across the wrap). A cursor on the absorbed
     * block moves to block `i`.
     */
    method CoalesceNext(node: nat, nextNode: nat, ghost i: nat)
      requires Wf() && i < |order| && order[i] == node && blocks[i].free
      requires nextNode == order[Succ(i, |order|)]
      modifies this`mem, this`order, this`blocks, this`cursor, this`lastUsed
      ensures Wf() && mem.Keys == old(mem).Keys
      ensures i < |order| && order[i] == node && (0 < i ==> order[i - 1] == old(order)[i - 1])
      ensures var merge := i + 1 < |old(blocks)| && old(blocks)[i + 1].free;
        blocks == (if merge then MergeAt(old(blocks), i, nodeSize) else old(blocks))
        && order == (if merge then old(order)[..i + 1] + old(order)[i + 2..] else old(order))
        && cursor == (if merge && old(cursor) > i then old(cursor) - 1 else old(cursor))
    {
      NextGuard(mem, order, blocks, nodeSize, regionSize, i);
      if nextNode != node && mem[nextNode].free && nextNode != firstBlock {
        Absorb(node, nextNode, node, i);
      }
    }

    /**
     * The second coalescing step of `deallocate`: `prevNode`, read before
     * the first step, absorbs block `i` when it is free, is another block,
     * and block `i` is not `firstBlock`. A cursor on block `i` moves to it.
     */
    method CoalescePrev(prevNode: nat, node: nat, ghost i: nat)
      requires Wf() && i < |order| && order[i] == node && blocks[i].free
      requires prevNode in mem && (0 < i ==> prevNode == order[i - 1])
      modifies this`mem, this`order, this`blocks, this`cursor, this`lastUsed
      ensures Wf()
      ensures var merge := 0 < i && old(blocks)[i - 1].free;
        blocks == (if merge then MergeAt(old(blocks), i - 1, nodeSize) else old(blocks))
        && order == (if merge then old(order)[..i] + old(order)[i + 1..] else old(order))
        && cursor == (if merge && old(cursor) >= i then old(cursor) - 1 else old(cursor))
    {
      PrevGuard(mem, order, blocks, nodeSize, regionSize, i, prevNode);
      if prevNode != node && mem[prevNode].free && node != firstBlock {
        Absorb(prevNode, node, node, i - 1);
      }
    }

    /**
     * `deallocate`: NULL is ignored; otherwise the block whose body starts
     * at `memory` is freed and coalesced with a free successor and then with
     * a free predecessor, never across the wrap. The list is Release of the
     * old one, each surviving block keeps its header, and the Next-Fit
     * cursor follows a block that is absorbed.
     */
    method Deallocate(memory: Ptr, ghost i: nat)
      requires Valid()
      requires memory.At? ==> i < |order| && memory.offset == order[i] + nodeSize
      modifies this`mem, this`order, this`blocks, this`cursor, this`lastUsed
      ensures Valid()
      ensures memory.Null? ==> mem == old(mem) && order == old(order) && blocks == old(blocks) && cursor == old(cursor)
      ensures memory.At? ==> blocks == Release(old(blocks), i, nodeSize)
      ensures memory.At? ==> order == ReleaseOrder(old(order), old(blocks), i)
      ensures memory.At? ==> cursor == ReleaseCursor(old(blocks), i, old(cursor))
    {
      if memory.Null? {
        return;
      }
      var node := memory.offset - nodeSize;
      ghost var b0 := blocks;
      Neighbours(mem, order, blocks, nodeSize, regionSize, i);
      var prevNode := mem[node].prev.offset;
      var nextNode := mem[node].next.offset;
      MarkFree(node, i);
      CoalesceNext(node, nextNode, i);
      ReleaseStages(b0, i, nodeSize);
      CoalescePrev(prevNode, node, i);
      ReleaseKeepsNoAdjacentFree(b0, i, nodeSize);
    }
  }
}
