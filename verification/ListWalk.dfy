/** Decomposing a list from either end without forcing a hole. Each pop unwinds
    a worklist and re-leans what it left, so a whole walk is linear: the number
    of concatenations off the walking spine is a potential that pays for every
    descent. */
module ListWalk {
  import opened Basics
  import opened ListCore

  datatype LeafStep<+V, +T> =
    | LeafEmpty
    | Leaf(leaf: List<V, T>, rest: List<V, T>)
    | LeafDeferred(thunk: T, rest: List<V, T>)

  datatype ItemStep<+V, +T> =
    | ItemEmpty
    | ItemStep(item: Item<V, T>, rest: List<V, T>)

  // ---- Potential ----

  function Concats<V, T>(list: List<V, T>): nat {
    if list.Concat? then 1 + Concats(list.left) + Concats(list.right) else 0
  }

  function LeftSpine<V, T>(list: List<V, T>): nat {
    if list.Concat? then 1 + LeftSpine(list.left) else 0
  }

  function RightSpine<V, T>(list: List<V, T>): nat {
    if list.Concat? then 1 + RightSpine(list.right) else 0
  }

  /** Concatenations not on the spine that starts at the root and runs right. */
  function OffRightSpine<V, T>(list: List<V, T>): int {
    Concats(list) - RightSpine(list)
  }

  function OffLeftSpine<V, T>(list: List<V, T>): int {
    Concats(list) - LeftSpine(list)
  }

  lemma {:induction false} PotentialNonNegative<V, T>(list: List<V, T>)
    ensures 0 <= OffRightSpine(list) && 0 <= OffLeftSpine(list)
  {
    if list.Concat? {
      PotentialNonNegative(list.left);
      PotentialNonNegative(list.right);
    }
  }

  // ---- Pending siblings, nearest last ----

  /** `join_logical_suffix`: the pending right siblings as a right-leaning spine. */
  function JoinSuffix<V, T>(pending: seq<List<V, T>>): List<V, T> {
    if pending == [] then Empty
    else Join(pending[|pending| - 1], JoinSuffix(pending[..|pending| - 1]))
  }

  /** `join_logical_prefix`: the pending left siblings as a left-leaning spine. */
  function JoinPrefix<V, T>(pending: seq<List<V, T>>): List<V, T> {
    if pending == [] then Empty
    else Join(JoinPrefix(pending[..|pending| - 1]), pending[|pending| - 1])
  }

  function SumConcats<V, T>(pending: seq<List<V, T>>): nat {
    if pending == [] then 0
    else SumConcats(pending[..|pending| - 1]) + Concats(pending[|pending| - 1])
  }

  predicate AllSiblings<V, T>(pending: seq<List<V, T>>) {
    forall i :: 0 <= i < |pending| ==> Valid(pending[i]) && !pending[i].Empty?
  }

  /** Rejoining n pending siblings keeps their items and adds n - 1 concatenations,
      all of them on the spine the next pop starts from. */
  lemma {:induction false} JoinSuffixShape<V, T>(pending: seq<List<V, T>>)
    requires AllSiblings(pending)
    ensures Items(JoinSuffix(pending)) == StackItems(pending)
    ensures Valid(JoinSuffix(pending))
    ensures JoinSuffix(pending).Empty? <==> pending == []
    ensures pending != [] ==>
              && Concats(JoinSuffix(pending)) == SumConcats(pending) + |pending| - 1
              && RightSpine(JoinSuffix(pending)) == RightSpine(pending[0]) + |pending| - 1
  {
    if pending != [] {
      var init := pending[..|pending| - 1];
      JoinSuffixShape(init);
      if init != [] {
        assert init[0] == pending[0];
      }
    }
  }

  lemma {:induction false} JoinPrefixShape<V, T>(pending: seq<List<V, T>>)
    requires AllSiblings(pending)
    ensures Items(JoinPrefix(pending)) == ItemsOf(pending)
    ensures Valid(JoinPrefix(pending))
    ensures JoinPrefix(pending).Empty? <==> pending == []
    ensures pending != [] ==>
              && Concats(JoinPrefix(pending)) == SumConcats(pending) + |pending| - 1
              && LeftSpine(JoinPrefix(pending)) == LeftSpine(pending[0]) + |pending| - 1
  {
    if pending != [] {
      var init := pending[..|pending| - 1];
      JoinPrefixShape(init);
      if init != [] {
        assert init[0] == pending[0];
      }
    }
  }

  // ---- Pops from the front ----

  /** The depth a front pop descends below its first concatenation. */
  function ExtraLeft<V, T>(list: List<V, T>): nat {
    if list.Concat? then LeftSpine(list) - 1 else 0
  }

  function ExtraRight<V, T>(list: List<V, T>): nat {
    if list.Concat? then RightSpine(list) - 1 else 0
  }

  /** What the front worklist holds while it descends: the node it is about to
      visit and, pending behind it, one right sibling per level already passed. */
  ghost predicate FrontState<V, T>(list: List<V, T>, pending: seq<List<V, T>>, near: List<V, T>) {
    && AllSiblings(pending)
    && Valid(near) && (near.Empty? <==> list.Empty?) && (near.Empty? ==> pending == [])
    && Items(list) == Items(near) + StackItems(pending)
    && LeftSpine(list) == |pending| + LeftSpine(near)
    && Concats(list) == |pending| + Concats(near) + SumConcats(pending)
    && RightSpine(list) == if pending == [] then RightSpine(near) else 1 + RightSpine(pending[0])
  }

  lemma FrontDescend<V, T>(list: List<V, T>, pending: seq<List<V, T>>, near: List<V, T>)
    requires near.Concat? && FrontState(list, pending, near)
    ensures FrontState(list, pending + [near.right], near.left)
  {
    var next := pending + [near.right];
    assert next[..|next| - 1] == pending && next[|next| - 1] == near.right;
    Associative(Items(near.left), Items(near.right), StackItems(pending));
  }

  lemma FrontRejoin<V, T>(list: List<V, T>, pending: seq<List<V, T>>, near: List<V, T>)
    requires !near.Concat? && FrontState(list, pending, near)
    ensures Valid(JoinSuffix(pending))
    ensures Items(list) == Items(near) + Items(JoinSuffix(pending))
    ensures OffRightSpine(list) == OffRightSpine(JoinSuffix(pending)) + ExtraLeft(list)
    ensures LeftSpine(list) == |pending|
  {
    JoinSuffixShape(pending);
  }

  /** Takes the first strict leaf or the first hole. `visits` counts the nodes the
      worklist hands out. The potential drops by exactly the extra depth. */
  method PopFrontLeafStep<V, T>(list: List<V, T>) returns (step: LeafStep<V, T>, ghost visits: nat)
    requires Valid(list)
    ensures step.LeafEmpty? <==> list.Empty?
    ensures step.Leaf? ==>
              && IsLeaf(step.leaf) && Valid(step.leaf)
              && Items(list) == Items(step.leaf) + Items(step.rest)
    ensures step.LeafDeferred? ==> Items(list) == [Hole(step.thunk)] + Items(step.rest)
    ensures !step.LeafEmpty? ==>
              && Valid(step.rest)
              && OffRightSpine(list) == OffRightSpine(step.rest) + ExtraLeft(list)
    ensures visits == LeftSpine(list) + 1
  {
    var worklist := [list];
    visits := 0;
    while worklist != []
      invariant if worklist == [] then list.Empty? && visits == 1 else |worklist| == visits + 1
      invariant worklist != [] ==>
                  FrontState(list, worklist[..|worklist| - 1], worklist[|worklist| - 1])
      decreases if worklist == [] then 0 else 1 + LeftSpine(worklist[|worklist| - 1])
    {
      var top := worklist[|worklist| - 1];
      worklist := worklist[..|worklist| - 1];
      visits := visits + 1;
      match top
      case Empty =>
      case Concat(left, right) =>
        FrontDescend(list, worklist, top);
        var pending := worklist + [right];
        worklist := pending + [left];
        assert worklist[..|worklist| - 1] == pending;
      case Thunk(thunk) =>
        FrontRejoin(list, worklist, top);
        return LeafDeferred(thunk, JoinSuffix(worklist)), visits;
      case _ =>
        FrontRejoin(list, worklist, top);
        return Leaf(top, JoinSuffix(worklist)), visits;
    }
    return LeafEmpty, visits;
  }

  lemma ChunkFront<V, T>(chunk: Chunk<V>)
    requires chunk.Len() > 0
    ensures |ChunkItems<V, T>(chunk)| == chunk.Len() && !ChunkItems<V, T>(chunk)[0].Hole?
    ensures ChunkItems<V, T>(chunk) == [ChunkItems<V, T>(chunk)[0]] +
            match chunk.Slice(1, chunk.Len()) case Some(tail) => ChunkItems<V, T>(tail) case None => []
  {
  }

  lemma ChunkBack<V, T>(chunk: Chunk<V>)
    requires chunk.Len() > 0
    ensures |ChunkItems<V, T>(chunk)| == chunk.Len() && !ChunkItems<V, T>(chunk)[chunk.Len() - 1].Hole?
    ensures ChunkItems<V, T>(chunk) ==
            (match chunk.Slice(0, chunk.Len() - 1) case Some(init) => ChunkItems<V, T>(init) case None => []) +
            [ChunkItems<V, T>(chunk)[chunk.Len() - 1]]
  {
  }

  /** The first item of a strict leaf, and the leaf that is left. */
  function PopLeafFront<V, T>(leaf: List<V, T>): (r: (Item<V, T>, List<V, T>))
    requires IsLeaf(leaf) && Valid(leaf)
    ensures Items(leaf) == [r.0] + Items(r.1) && !r.0.Hole?
    ensures Valid(r.1) && (r.1.Empty? || IsLeaf(r.1))
  {
    match leaf
    case Bytes(bytes) => (Byte(bytes[0]), FromBytes(bytes[1..]))
    case Values(values) => (Value(values[0]), FromValues(values[1..]))
    case Finger(chunks) =>
      var tail := chunks[0].Slice(1, chunks[0].Len());
      var rest := chunks[1..];
      PopRopeFrontSplits<V, T>(chunks);
      (ChunkItems(chunks[0])[0],
       FromFinger(if tail.Some? then [tail.value] + rest else rest))
  }

  /** Splits the last item from a rope, dropping its chunk when that empties it. */
  function PopRopeBack<V, T>(chunks: seq<Chunk<V>>): (seq<Chunk<V>>, Item<V, T>)
    requires |chunks| != 0 && ValidRope(chunks)
  {
    var last := chunks[|chunks| - 1];
    var rest := chunks[..|chunks| - 1];
    var item := ChunkItems<V, T>(last)[last.Len() - 1];
    match last.Slice(0, last.Len() - 1)
    case Some(init) => (rest + [init], item)
    case None => (rest, item)
  }

  lemma PopRopeBackSplits<V, T>(chunks: seq<Chunk<V>>)
    requires |chunks| != 0 && ValidRope(chunks)
    ensures var r := PopRopeBack<V, T>(chunks);
            RopeItems(chunks) == RopeItems(r.0) + [r.1] && !r.1.Hole?
  {
    var last, rest := chunks[|chunks| - 1], chunks[..|chunks| - 1];
    ChunkBack<V, T>(last);
    LastChunkShorter<V, T>(rest, last);
    WithLast(chunks);
  }

  lemma WithLast<X>(all: seq<X>)
    requires |all| > 0
    ensures all[..|all| - 1] + [all[|all| - 1]] == all
  {
  }

  lemma PopRopeBackValid<V, T>(chunks: seq<Chunk<V>>)
    requires |chunks| != 0 && ValidRope(chunks)
    ensures ValidRope(PopRopeBack<V, T>(chunks).0)
  {
  }

  lemma LastChunkShorter<V, T>(rest: seq<Chunk<V>>, last: Chunk<V>)
    requires last.Len() > 0 && |ChunkItems<V, T>(last)| == last.Len()
    ensures var init, item := last.Slice(0, last.Len() - 1), ChunkItems<V, T>(last)[last.Len() - 1];
            RopeItems<V, T>(rest + [last]) ==
            RopeItems<V, T>(if init.Some? then rest + [init.value] else rest) + [item]
  {
    var init, item := last.Slice(0, last.Len() - 1), ChunkItems<V, T>(last)[last.Len() - 1];
    ChunkBack<V, T>(last);
    if init.Some? {
      ShorterLast<V, T>(rest, last, init.value, item);
    } else {
      RopeItemsPush<V, T>(rest, last);
      assert [] + [item] == [item];
    }
  }

  lemma ShorterLast<V, T>(rest: seq<Chunk<V>>, last: Chunk<V>, init: Chunk<V>, item: Item<V, T>)
    requires ChunkItems<V, T>(last) == ChunkItems(init) + [item]
    ensures RopeItems<V, T>(rest + [last]) == RopeItems<V, T>(rest + [init]) + [item]
  {
    RopeItemsPush<V, T>(rest, last);
    RopeItemsPush<V, T>(rest, init);
    Associative(RopeItems<V, T>(rest), ChunkItems(init), [item]);
  }

  lemma PopRopeFrontSplits<V, T>(chunks: seq<Chunk<V>>)
    requires |chunks| != 0 && ValidRope(chunks)
    ensures var tail, rest := chunks[0].Slice(1, chunks[0].Len()), chunks[1..];
            var left := if tail.Some? then [tail.value] + rest else rest;
            && ValidRope(left) && |ChunkItems<V, T>(chunks[0])| > 0 && !ChunkItems<V, T>(chunks[0])[0].Hole?
            && RopeItems<V, T>(chunks) == [ChunkItems<V, T>(chunks[0])[0]] + RopeItems<V, T>(left)
  {
    var tail, rest := chunks[0].Slice(1, chunks[0].Len()), chunks[1..];
    ChunkFront<V, T>(chunks[0]);
    var item := ChunkItems<V, T>(chunks[0])[0];
    if tail.Some? {
      assert ([tail.value] + rest)[1..] == rest;
      Associative([item], ChunkItems<V, T>(tail.value), RopeItems<V, T>(rest));
    } else {
      assert [item] + [] == [item];
    }
  }

  /** The last item of a strict leaf, and the leaf that is left before it. */
  function PopLeafBack<V, T>(leaf: List<V, T>): (r: (List<V, T>, Item<V, T>))
    requires IsLeaf(leaf) && Valid(leaf)
    ensures Items(leaf) == Items(r.0) + [r.1] && !r.1.Hole?
    ensures Valid(r.0) && (r.0.Empty? || IsLeaf(r.0))
  {
    match leaf
    case Bytes(bytes) => (FromBytes(bytes[..|bytes| - 1]), Byte(bytes[|bytes| - 1]))
    case Values(values) => (FromValues(values[..|values| - 1]), Value(values[|values| - 1]))
    case Finger(chunks) =>
      PopRopeBackSplits<V, T>(chunks);
      PopRopeBackValid<V, T>(chunks);
      var (rest, item) := PopRopeBack(chunks);
      (FromFinger(rest), item)
  }

  /** Putting back what is left of a leaf costs the next pop nothing extra. */
  lemma ReattachPotential<V, T>(rest: List<V, T>, other: List<V, T>)
    requires rest.Empty? || IsLeaf(rest)
    ensures OffRightSpine(Join(rest, other)) == OffRightSpine(other)
    ensures OffLeftSpine(Join(other, rest)) == OffLeftSpine(other)
  {
    assert Concats(rest) == LeftSpine(rest) == RightSpine(rest) == 0;
    if !rest.Empty? && !other.Empty? {
      var front, back := Concat(rest, other), Concat(other, rest);
      assert Concats(front) == Concats(back) == 1 + Concats(other);
      assert RightSpine(front) == 1 + RightSpine(other) && LeftSpine(back) == 1 + LeftSpine(other);
    }
  }

  /** Takes the first item, a strict one or a hole; `rest` follows it. */
  method PopFrontStep<V, T>(list: List<V, T>) returns (step: ItemStep<V, T>, ghost visits: nat)
    requires Valid(list)
    ensures step.ItemEmpty? <==> Items(list) == []
    ensures step.ItemStep? ==>
              && Valid(step.rest)
              && Items(list) == [step.item] + Items(step.rest)
              && OffRightSpine(list) == OffRightSpine(step.rest) + ExtraLeft(list)
    ensures visits == LeftSpine(list) + 1
  {
    var leafStep;
    leafStep, visits := PopFrontLeafStep(list);
    EmptyIffNoItems(list);
    match leafStep
    case LeafEmpty => step := ItemEmpty;
    case Leaf(leaf, tail) =>
      var (item, rest) := PopLeafFront(leaf);
      ReattachPotential(rest, tail);
      step := ItemStep(item, Join(rest, tail));
      Associative([item], Items(rest), Items(tail));
    case LeafDeferred(thunk, suffix) => step := ItemStep(Hole(thunk), suffix);
  }

  /** A complete front walk: every item in order, at a linear number of visits.
      The last visit finds the list empty. */
  method WalkFront<V, T>(list: List<V, T>) returns (items: seq<Item<V, T>>, ghost visits: nat)
    requires Valid(list)
    ensures items == Items(list)
    ensures visits <= 2 * |Items(list)| + OffRightSpine(list) + 1
  {
    items, visits := [], 0;
    var rest := list;
    while true
      invariant Valid(rest)
      invariant Items(list) == items + Items(rest)
      invariant visits + OffRightSpine(rest) <= 2 * |items| + OffRightSpine(list)
      decreases |Items(rest)|
    {
      var step, cost := PopFrontStep(rest);
      visits := visits + cost;
      PotentialNonNegative(rest);
      EmptyIffNoItems(rest);
      if step.ItemEmpty? {
        return;
      }
      Associative(items, [step.item], Items(step.rest));
      items, rest := items + [step.item], step.rest;
    }
  }

  // ---- Pops from the back ----

  /** What the back worklist holds while it descends: the node it is about to
      visit and, pending behind it, one left sibling per level already passed. */
  ghost predicate BackState<V, T>(list: List<V, T>, pending: seq<List<V, T>>, near: List<V, T>) {
    && AllSiblings(pending)
    && Valid(near) && (near.Empty? <==> list.Empty?) && (near.Empty? ==> pending == [])
    && Items(list) == ItemsOf(pending) + Items(near)
    && RightSpine(list) == |pending| + RightSpine(near)
    && Concats(list) == |pending| + Concats(near) + SumConcats(pending)
    && LeftSpine(list) == if pending == [] then LeftSpine(near) else 1 + LeftSpine(pending[0])
  }

  lemma BackDescend<V, T>(list: List<V, T>, pending: seq<List<V, T>>, near: List<V, T>)
    requires near.Concat? && BackState(list, pending, near)
    ensures BackState(list, pending + [near.left], near.right)
  {
    var next := pending + [near.left];
    assert next[..|next| - 1] == pending && next[|next| - 1] == near.left;
    Associative(ItemsOf(pending), Items(near.left), Items(near.right));
  }

  lemma BackRejoin<V, T>(list: List<V, T>, pending: seq<List<V, T>>, near: List<V, T>)
    requires !near.Concat? && BackState(list, pending, near)
    ensures Valid(JoinPrefix(pending))
    ensures Items(list) == Items(JoinPrefix(pending)) + Items(near)
    ensures OffLeftSpine(list) == OffLeftSpine(JoinPrefix(pending)) + ExtraRight(list)
    ensures RightSpine(list) == |pending|
  {
    JoinPrefixShape(pending);
  }

  /** The mirror of `PopFrontLeafStep`: the last strict leaf or hole, after `rest`. */
  method PopBackLeafStep<V, T>(list: List<V, T>) returns (step: LeafStep<V, T>, ghost visits: nat)
    requires Valid(list)
    ensures step.LeafEmpty? <==> list.Empty?
    ensures step.Leaf? ==>
              && IsLeaf(step.leaf) && Valid(step.leaf)
              && Items(list) == Items(step.rest) + Items(step.leaf)
    ensures step.LeafDeferred? ==> Items(list) == Items(step.rest) + [Hole(step.thunk)]
    ensures !step.LeafEmpty? ==>
              && Valid(step.rest)
              && OffLeftSpine(list) == OffLeftSpine(step.rest) + ExtraRight(list)
    ensures visits == RightSpine(list) + 1
  {
    var worklist := [list];
    visits := 0;
    while worklist != []
      invariant if worklist == [] then list.Empty? && visits == 1 else |worklist| == visits + 1
      invariant worklist != [] ==>
                  BackState(list, worklist[..|worklist| - 1], worklist[|worklist| - 1])
      decreases if worklist == [] then 0 else 1 + RightSpine(worklist[|worklist| - 1])
    {
      var top := worklist[|worklist| - 1];
      worklist := worklist[..|worklist| - 1];
      visits := visits + 1;
      match top
      case Empty =>
      case Concat(left, right) =>
        BackDescend(list, worklist, top);
        var pending := worklist + [left];
        worklist := pending + [right];
        assert worklist[..|worklist| - 1] == pending;
      case Thunk(thunk) =>
        BackRejoin(list, worklist, top);
        return LeafDeferred(thunk, JoinPrefix(worklist)), visits;
      case _ =>
        BackRejoin(list, worklist, top);
        return Leaf(top, JoinPrefix(worklist)), visits;
    }
    return LeafEmpty, visits;
  }

  method PopBackStep<V, T>(list: List<V, T>) returns (step: ItemStep<V, T>, ghost visits: nat)
    requires Valid(list)
    ensures step.ItemEmpty? <==> Items(list) == []
    ensures step.ItemStep? ==>
              && Valid(step.rest)
              && Items(list) == Items(step.rest) + [step.item]
              && OffLeftSpine(list) == OffLeftSpine(step.rest) + ExtraRight(list)
    ensures visits == RightSpine(list) + 1
  {
    var leafStep;
    leafStep, visits := PopBackLeafStep(list);
    EmptyIffNoItems(list);
    match leafStep
    case LeafEmpty => step := ItemEmpty;
    case Leaf(leaf, init) =>
      var (rest, item) := PopLeafBack(leaf);
      ReattachPotential(rest, init);
      step := ItemStep(item, Join(init, rest));
      Associative(Items(init), Items(rest), [item]);
    case LeafDeferred(thunk, prefix) => step := ItemStep(Hole(thunk), prefix);
  }

  /** A complete back walk, collecting the same items from the other end. */
  method WalkBack<V, T>(list: List<V, T>) returns (items: seq<Item<V, T>>, ghost visits: nat)
    requires Valid(list)
    ensures items == Items(list)
    ensures visits <= 2 * |Items(list)| + OffLeftSpine(list) + 1
  {
    items, visits := [], 0;
    var rest := list;
    while true
      invariant Valid(rest)
      invariant Items(list) == Items(rest) + items
      invariant visits + OffLeftSpine(rest) <= 2 * |items| + OffLeftSpine(list)
      decreases |Items(rest)|
    {
      var step, cost := PopBackStep(rest);
      visits := visits + cost;
      PotentialNonNegative(rest);
      EmptyIffNoItems(rest);
      if step.ItemEmpty? {
        return;
      }
      Associative(Items(step.rest), [step.item], items);
      items, rest := [step.item] + items, step.rest;
    }
  }
}
