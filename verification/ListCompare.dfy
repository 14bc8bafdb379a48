/** Reading a list part by part, and comparing two lists item by item whatever
    their segmentation. */
module ListCompare {
  import opened Basics
  import opened ListCore

  datatype Part<+V, +T> = BytesPart(bytes: seq<byte>) | ValuesPart(values: seq<V>) | ThunkPart(thunk: T) {
    function Len(): nat {
      match this
      case BytesPart(bytes) => |bytes|
      case ValuesPart(values) => |values|
      case ThunkPart(_) => 1
    }

    /** The item at `offset`, if the part reaches that far. */
    function Get(offset: nat): (item: Option<Item<V, T>>)
      ensures item.Some? <==> offset < Len()
      ensures item.Some? ==> item.value == Items()[offset]
    {
      match this
      case BytesPart(bytes) => if offset < |bytes| then Some(Byte(bytes[offset])) else None
      case ValuesPart(values) => if offset < |values| then Some(Value(values[offset])) else None
      case ThunkPart(thunk) => if offset == 0 then Some(Hole(thunk)) else None
    }

    function Items(): (items: seq<Item<V, T>>)
      ensures |items| == Len()
    {
      match this
      case BytesPart(bytes) => ByteItems(bytes)
      case ValuesPart(values) => ValueItems(values)
      case ThunkPart(thunk) => [Hole(thunk)]
    }
  }

  function PartsItems<V, T>(parts: seq<Part<V, T>>): seq<Item<V, T>> {
    if parts == [] then [] else parts[0].Items() + PartsItems(parts[1..])
  }

  ghost predicate NoEmptyPart<V, T>(parts: seq<Part<V, T>>) {
    forall i :: 0 <= i < |parts| ==> parts[i].Len() > 0
  }

  lemma {:induction false} PartsItemsSplit<V, T>(a: seq<Part<V, T>>, b: seq<Part<V, T>>)
    ensures PartsItems(a + b) == PartsItems(a) + PartsItems(b)
  {
    if a == [] {
      assert a + b == b;
    } else {
      PartsItemsSplit(a[1..], b);
      assert (a + b)[1..] == a[1..] + b && (a + b)[0] == a[0];
      Associative(a[0].Items(), PartsItems(a[1..]), PartsItems(b));
    }
  }

  function ChunkPart<V, T>(chunk: Chunk<V>): Part<V, T> {
    match chunk
    case ByteChunk(bytes) => BytesPart(bytes)
    case ValueChunk(values) => ValuesPart(values)
  }

  function RopeParts<V, T>(chunks: seq<Chunk<V>>): seq<Part<V, T>> {
    seq(|chunks|, i requires 0 <= i < |chunks| => ChunkPart(chunks[i]))
  }

  lemma {:induction false} RopePartsItems<V, T>(chunks: seq<Chunk<V>>)
    ensures PartsItems(RopeParts<V, T>(chunks)) == RopeItems(chunks)
  {
    if |chunks| != 0 {
      RopePartsItems<V, T>(chunks[1..]);
      var parts := RopeParts<V, T>(chunks);
      assert parts[1..] == RopeParts(chunks[1..]);
    }
  }

  // ---- The parts of a list ----

  function StackNodes<V, T>(worklist: seq<List<V, T>>): nat {
    if worklist == [] then 0
    else Nodes(worklist[|worklist| - 1]) + StackNodes(worklist[..|worklist| - 1])
  }

  /** Replacing the top concatenation by its children keeps the items and sheds one node. */
  lemma StackDescend<V, T>(below: seq<List<V, T>>, left: List<V, T>, right: List<V, T>)
    ensures StackItems(below + [right, left]) == Items(Concat(left, right)) + StackItems(below)
    ensures StackNodes(below + [right, left]) == Nodes(Concat(left, right)) + StackNodes(below) - 1
  {
    var one, two := below + [right], below + [right, left];
    assert one[..|one| - 1] == below && two[..|two| - 1] == one;
    Associative(Items(left), Items(right), StackItems(below));
  }

  /** The non-structural parts of one node. */
  function NodeParts<V, T>(list: List<V, T>): (parts: seq<Part<V, T>>)
    requires !list.Concat?
    ensures Valid(list) ==> forall i :: 0 <= i < |parts| ==> parts[i].Len() > 0
  {
    match list
    case Empty => []
    case Bytes(bytes) => [BytesPart(bytes)]
    case Values(values) => [ValuesPart(values)]
    case Finger(chunks) => RopeParts(chunks)
    case Thunk(thunk) => [ThunkPart(thunk)]
  }

  lemma NodePartsItems<V, T>(parts: seq<Part<V, T>>, list: List<V, T>)
    requires !list.Concat?
    ensures PartsItems(parts + NodeParts(list)) == PartsItems(parts) + Items(list)
  {
    PartsItemsSplit(parts, NodeParts(list));
    if list.Finger? {
      RopePartsItems<V, T>(list.chunks);
    } else if !list.Empty? {
      assert PartsItems(NodeParts(list)[1..]) == [];
    }
  }

  /** The parts of a list in logical order, none of them empty, each node visited once. */
  method LogicalParts<V, T>(list: List<V, T>) returns (parts: seq<Part<V, T>>, ghost visits: nat)
    requires Valid(list)
    ensures PartsItems(parts) == Items(list)
    ensures NoEmptyPart(parts)
    ensures visits == Nodes(list)
  {
    parts, visits := [], 0;
    var worklist := [list];
    while worklist != []
      invariant forall i :: 0 <= i < |worklist| ==> Valid(worklist[i])
      invariant Items(list) == PartsItems(parts) + StackItems(worklist)
      invariant NoEmptyPart(parts)
      invariant Nodes(list) == visits + StackNodes(worklist)
      decreases StackNodes(worklist)
    {
      var top, below := worklist[|worklist| - 1], worklist[..|worklist| - 1];
      visits := visits + 1;
      if top.Concat? {
        StackDescend(below, top.left, top.right);
        worklist := below + [top.right, top.left];
      } else {
        NodePartsItems(parts, top);
        Associative(PartsItems(parts), Items(top), StackItems(below));
        parts, worklist := parts + NodeParts(top), below;
      }
    }
  }

  // ---- The item cursor ----

  /** The items from an offset of one part on. */
  ghost function RemainingFrom<V, T>(parts: seq<Part<V, T>>, partIndex: nat, offset: nat): seq<Item<V, T>>
    requires partIndex < |parts| ==> offset <= parts[partIndex].Len()
  {
    if partIndex < |parts| then parts[partIndex].Items()[offset..] + PartsItems(parts[partIndex + 1..]) else []
  }

  lemma RemainingStep<V, T>(parts: seq<Part<V, T>>, p: nat, offset: nat)
    requires p < |parts| && offset < parts[p].Len()
    ensures RemainingFrom(parts, p, offset)[1..] ==
            if offset + 1 == parts[p].Len() then RemainingFrom(parts, p + 1, 0)
            else RemainingFrom(parts, p, offset + 1)
  {
    Passed(parts[p].Items(), PartsItems(parts[p + 1..]), offset);
    PartsFrom(parts, p + 1);
  }

  class ItemCursor<V, T> {
    const parts: seq<Part<V, T>>
    var partIndex: nat
    var offset: nat

    ghost predicate Valid()
      reads this
    {
      && NoEmptyPart(parts)
      && partIndex <= |parts|
      && if partIndex < |parts| then offset < parts[partIndex].Len() else offset == 0
    }

    /** What the cursor has not passed yet. */
    ghost function Remaining(): seq<Item<V, T>>
      reads this
      requires Valid()
    {
      RemainingFrom(parts, partIndex, offset)
    }

    constructor (parts: seq<Part<V, T>>)
      requires NoEmptyPart(parts)
      ensures Valid() && this.parts == parts && Remaining() == PartsItems(parts)
    {
      this.parts, partIndex, offset := parts, 0, 0;
    }

    function Current(): (item: Option<Item<V, T>>)
      reads this
      requires Valid()
      ensures item == if Remaining() == [] then None else Some(Remaining()[0])
    {
      if partIndex < |parts| then parts[partIndex].Get(offset) else None
    }

    method Advance()
      requires Valid() && Remaining() != []
      modifies this
      ensures Valid() && Remaining() == old(Remaining())[1..]
    {
      RemainingStep(parts, partIndex, offset);
      offset := offset + 1;
      if offset == parts[partIndex].Len() {
        partIndex, offset := partIndex + 1, 0;
      }
    }
  }

  lemma Passed<X>(items: seq<X>, rest: seq<X>, offset: nat)
    requires offset < |items|
    ensures (items[offset..] + rest)[1..] == items[offset + 1..] + rest
    ensures offset + 1 == |items| ==> items[offset + 1..] + rest == rest
  {
  }

  lemma PartsFrom<V, T>(parts: seq<Part<V, T>>, k: nat)
    requires k <= |parts|
    ensures PartsItems(parts[k..]) ==
            if k < |parts| then parts[k].Items()[0..] + PartsItems(parts[k + 1..]) else []
  {
    if k < |parts| {
      assert parts[k..][1..] == parts[k + 1..];
      assert parts[k].Items()[0..] == parts[k].Items();
    }
  }

  /** Two flat sequences agree item by item under a test. */
  ghost predicate Agree<V, T>(left: seq<Item<V, T>>, right: seq<Item<V, T>>,
                              same: (Item<V, T>, Item<V, T>) -> bool) {
    |left| == |right| && forall i :: 0 <= i < |left| ==> same(left[i], right[i])
  }

  ghost predicate AgreeUpTo<V, T>(left: seq<Item<V, T>>, right: seq<Item<V, T>>, done: nat,
                                  same: (Item<V, T>, Item<V, T>) -> bool) {
    done <= |left| && done <= |right| && forall i :: 0 <= i < done ==> same(left[i], right[i])
  }

  lemma AgreeStep<V, T>(left: seq<Item<V, T>>, right: seq<Item<V, T>>, done: nat,
                        same: (Item<V, T>, Item<V, T>) -> bool)
    requires AgreeUpTo(left, right, done, same) && done < |left| && done < |right|
    ensures same(left[done], right[done]) ==> AgreeUpTo(left, right, done + 1, same)
    ensures !same(left[done], right[done]) ==> !Agree(left, right, same)
  {
  }

  lemma AgreeEnd<V, T>(left: seq<Item<V, T>>, right: seq<Item<V, T>>, done: nat,
                       same: (Item<V, T>, Item<V, T>) -> bool)
    requires AgreeUpTo(left, right, done, same) && (done == |left| || done == |right|)
    ensures Agree(left, right, same) <==> done == |left| && done == |right|
  {
  }

  /** A cursor that has passed `done` items has the others left. */
  ghost predicate Reached<X>(all: seq<X>, done: nat, remaining: seq<X>) {
    done <= |all| && remaining == all[done..]
  }

  lemma CursorHead<X>(all: seq<X>, done: nat, remaining: seq<X>)
    requires Reached(all, done, remaining)
    ensures remaining == [] <==> done == |all|
    ensures done < |all| ==> remaining[0] == all[done] && Reached(all, done + 1, remaining[1..])
  {
  }

  /** A cursor before the first item of a list. */
  method CursorOver<V, T>(list: List<V, T>) returns (cursor: ItemCursor<V, T>)
    requires Valid(list)
    ensures fresh(cursor) && cursor.Valid() && Reached(Items(list), 0, cursor.Remaining())
  {
    var parts, _ := LogicalParts(list);
    cursor := new ItemCursor(parts);
  }

  method AdvanceBoth<V, T>(l: ItemCursor<V, T>, r: ItemCursor<V, T>)
    requires l != r && l.Valid() && r.Valid() && l.Remaining() != [] && r.Remaining() != []
    modifies l, r
    ensures l.Valid() && l.Remaining() == old(l.Remaining())[1..]
    ensures r.Valid() && r.Remaining() == old(r.Remaining())[1..]
  {
    l.Advance();
    r.Advance();
  }

  /** Compares retained items without forcing a hole. `samePointer` is the shared-node
      shortcut, sound for a test that is reflexive on the items present. */
  method SameLogicalItemsBy<V, T>(left: List<V, T>, right: List<V, T>,
                                  same: (Item<V, T>, Item<V, T>) -> bool, samePointer: bool)
    returns (answer: bool)
    requires Valid(left) && Valid(right)
    requires samePointer ==> left == right && Agree(Items(left), Items(left), same)
    ensures answer <==> Agree(Items(left), Items(right), same)
  {
    if samePointer {
      return true;
    }
    var l := CursorOver(left);
    var r := CursorOver(right);
    ghost var a, b, done := Items(left), Items(right), 0;
    while true
      invariant l != r && l.Valid() && r.Valid() && fresh(l) && fresh(r)
      invariant Reached(a, done, l.Remaining()) && Reached(b, done, r.Remaining())
      invariant AgreeUpTo(a, b, done, same)
      decreases |a| - done
    {
      CursorHead(a, done, l.Remaining());
      CursorHead(b, done, r.Remaining());
      var x, y := l.Current(), r.Current();
      if x.None? || y.None? {
        AgreeEnd(a, b, done, same);
        return x.None? && y.None?;
      }
      AgreeStep(a, b, done, same);
      if !same(x.value, y.value) {
        return false;
      }
      AdvanceBoth(l, r);
      done := done + 1;
    }
  }
}
