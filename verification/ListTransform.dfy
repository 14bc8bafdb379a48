/** Mapping and flat-mapping one representation node at a time. A transformation
    leaves deferred children behind; unfolding them all gives the map, or the
    flat map, of the flat sequence. */
module ListTransform {
  import opened Basics
  import opened ListCore

  /** What a transformed list defers: a source child still to transform, a source
      hole, or a hole of a produced list. */
  datatype Deferred<+V, +T, +R> = DeferList(list: List<V, T>) | DeferThunk(thunk: T) | Own(own: R)

  /** The work an item still stands for. */
  function Weight<V, T, R, U>(item: Item<U, Deferred<V, T, R>>): nat {
    if item.Hole? && item.thunk.DeferList? then Nodes(item.thunk.list) else 0
  }

  /** Every deferred source child is valid and weighs less than the bound. */
  predicate Deferrable<V, T, R, U>(items: seq<Item<U, Deferred<V, T, R>>>, bound: nat) {
    forall i :: 0 <= i < |items| ==>
      && Weight(items[i]) < bound
      && (items[i].Hole? && items[i].thunk.DeferList? ==> Valid(items[i].thunk.list))
  }

  // ---- Map ----

  function MapBytes<U>(bytes: seq<byte>, f: byte -> U): (values: seq<U>)
    ensures |values| == |bytes| && forall i :: 0 <= i < |bytes| ==> values[i] == f(bytes[i])
  {
    seq(|bytes|, i requires 0 <= i < |bytes| => f(bytes[i]))
  }

  function MapValues<V, U>(values: seq<V>, f: V -> U): (mapped: seq<U>)
    ensures |mapped| == |values| && forall i :: 0 <= i < |values| ==> mapped[i] == f(values[i])
  {
    seq(|values|, i requires 0 <= i < |values| => f(values[i]))
  }

  function MapChunk<V, U>(chunk: Chunk<V>, onByte: byte -> U, onValue: V -> U): (mapped: Chunk<U>)
    ensures mapped.Len() == chunk.Len()
  {
    match chunk
    case ByteChunk(bytes) => ValueChunk(MapBytes(bytes, onByte))
    case ValueChunk(values) => ValueChunk(MapValues(values, onValue))
  }

  function MapRope<V, U>(chunks: seq<Chunk<V>>, onByte: byte -> U, onValue: V -> U): (mapped: seq<Chunk<U>>)
    ensures |mapped| == |chunks|
    ensures ValidRope(chunks) ==> ValidRope(mapped)
  {
    if |chunks| == 0 then []
    else [MapChunk(chunks[0], onByte, onValue)] + MapRope(chunks[1..], onByte, onValue)
  }

  /** `map_root_step`: strict leaves whole, both children of a concatenation deferred. */
  function MapRootStep<V, T, U>(list: List<V, T>, onByte: byte -> U, onValue: V -> U)
    : List<U, Deferred<V, T, ()>>
    requires Valid(list)
  {
    match list
    case Empty => Empty
    case Bytes(bytes) => FromValues(MapBytes(bytes, onByte))
    case Values(values) => FromValues(MapValues(values, onValue))
    case Concat(left, right) => Join(Thunk(DeferList(left)), Thunk(DeferList(right)))
    case Finger(chunks) => FromFinger(MapRope(chunks, onByte, onValue))
    case Thunk(thunk) => Thunk(DeferThunk(thunk))
  }

  function MapItem<V, T, U>(item: Item<V, T>, onByte: byte -> U, onValue: V -> U)
    : Item<U, Deferred<V, T, ()>>
  {
    match item
    case Byte(byte) => Value(onByte(byte))
    case Value(value) => Value(onValue(value))
    case Hole(thunk) => Hole(DeferThunk(thunk))
  }

  function MapItems<V, T, U>(items: seq<Item<V, T>>, onByte: byte -> U, onValue: V -> U)
    : (mapped: seq<Item<U, Deferred<V, T, ()>>>)
    ensures |mapped| == |items|
    ensures forall i :: 0 <= i < |items| ==> mapped[i] == MapItem(items[i], onByte, onValue)
  {
    seq(|items|, i requires 0 <= i < |items| => MapItem(items[i], onByte, onValue))
  }

  lemma {:induction false} MapRopeItems<V, T, U>(chunks: seq<Chunk<V>>, onByte: byte -> U, onValue: V -> U)
    ensures RopeItems<U, Deferred<V, T, ()>>(MapRope(chunks, onByte, onValue))
            == MapItems(RopeItems<V, T>(chunks), onByte, onValue)
  {
    if |chunks| != 0 {
      MapRopeItems<V, T, U>(chunks[1..], onByte, onValue);
      var mapped := MapRope(chunks, onByte, onValue);
      assert mapped[1..] == MapRope(chunks[1..], onByte, onValue);
      assert ChunkItems<U, Deferred<V, T, ()>>(mapped[0])
          == MapItems(ChunkItems<V, T>(chunks[0]), onByte, onValue);
    }
  }

  /** A strict leaf or hole is mapped in one step; nothing of it stays deferred. */
  lemma MapStrict<V, T, U>(list: List<V, T>, onByte: byte -> U, onValue: V -> U)
    requires Valid(list) && !list.Concat?
    ensures Items(MapRootStep(list, onByte, onValue)) == MapItems(Items(list), onByte, onValue)
    ensures Deferrable(Items(MapRootStep(list, onByte, onValue)), 1)
  {
    if list.Finger? {
      MapRopeItems<V, T, U>(list.chunks, onByte, onValue);
    }
  }

  lemma MapBelow<V, T, U>(list: List<V, T>, onByte: byte -> U, onValue: V -> U)
    requires Valid(list)
    ensures Deferrable(Items(MapRootStep(list, onByte, onValue)), Nodes(list))
    ensures Valid(MapRootStep(list, onByte, onValue))
  {
    if !list.Concat? {
      MapStrict(list, onByte, onValue);
    }
  }

  /** Replaces every deferred source child by its own, unfolded, transformation. */
  ghost function UnfoldMap<V, T, U>(items: seq<Item<U, Deferred<V, T, ()>>>, onByte: byte -> U,
                                    onValue: V -> U, bound: nat): seq<Item<U, Deferred<V, T, ()>>>
    requires Deferrable(items, bound)
    decreases bound, |items|
  {
    if items == [] then []
    else
      var head :=
        if items[0].Hole? && items[0].thunk.DeferList? then
          var child := items[0].thunk.list;
          MapBelow(child, onByte, onValue);
          UnfoldMap(Items(MapRootStep(child, onByte, onValue)), onByte, onValue, Nodes(child))
        else [items[0]];
      head + UnfoldMap(items[1..], onByte, onValue, bound)
  }

  /** The items of a mapped root with all its deferred children unfolded. */
  ghost function UnfoldRoot<V, T, U>(list: List<V, T>, onByte: byte -> U, onValue: V -> U)
    : seq<Item<U, Deferred<V, T, ()>>>
    requires Valid(list)
  {
    MapBelow(list, onByte, onValue);
    UnfoldMap(Items(MapRootStep(list, onByte, onValue)), onByte, onValue, Nodes(list))
  }

  lemma {:induction false} UnfoldSettled<V, T, U>(items: seq<Item<U, Deferred<V, T, ()>>>, onByte: byte -> U,
                                                  onValue: V -> U, bound: nat)
    requires Deferrable(items, 1) && 0 < bound
    ensures UnfoldMap(items, onByte, onValue, bound) == items
  {
    if items != [] {
      UnfoldSettled(items[1..], onByte, onValue, bound);
      assert Weight(items[0]) < 1;
    }
  }

  lemma UnfoldChild<V, T, U>(child: List<V, T>, rest: seq<Item<U, Deferred<V, T, ()>>>, onByte: byte -> U,
                             onValue: V -> U, bound: nat)
    requires Valid(child) && Deferrable(rest, bound) && Nodes(child) < bound
    ensures UnfoldMap([Hole(DeferList(child))] + rest, onByte, onValue, bound)
            == UnfoldRoot(child, onByte, onValue) + UnfoldMap(rest, onByte, onValue, bound)
  {
    var items := [Hole(DeferList(child))] + rest;
    assert items[1..] == rest && items[0] == Hole(DeferList(child));
  }

  lemma MapItemsSplit<V, T, U>(a: seq<Item<V, T>>, b: seq<Item<V, T>>, onByte: byte -> U, onValue: V -> U)
    ensures MapItems(a + b, onByte, onValue) == MapItems(a, onByte, onValue) + MapItems(b, onByte, onValue)
  {
  }

  /** Both deferred children of a mapped concatenation unfold side by side. */
  lemma UnfoldConcat<V, T, U>(list: List<V, T>, onByte: byte -> U, onValue: V -> U)
    requires list.Concat? && Valid(list)
    ensures Deferrable(Items(MapRootStep(list, onByte, onValue)), Nodes(list))
    ensures UnfoldRoot(list, onByte, onValue)
            == UnfoldRoot(list.left, onByte, onValue) + UnfoldRoot(list.right, onByte, onValue)
  {
    var second: seq<Item<U, Deferred<V, T, ()>>> := [Hole(DeferList(list.right))];
    UnfoldChild(list.left, second, onByte, onValue, Nodes(list));
    UnfoldChild<V, T, U>(list.right, [], onByte, onValue, Nodes(list));
    assert second + [] == second;
    assert Items(MapRootStep(list, onByte, onValue)) == [Hole(DeferList(list.left))] + second;
  }

  /** Unfolding the deferred children of a mapped root gives the map of the items. */
  lemma {:induction false} MapUnfolds<V, T, U>(list: List<V, T>, onByte: byte -> U, onValue: V -> U)
    requires Valid(list)
    ensures UnfoldRoot(list, onByte, onValue) == MapItems(Items(list), onByte, onValue)
  {
    if list.Concat? {
      MapUnfolds(list.left, onByte, onValue);
      MapUnfolds(list.right, onByte, onValue);
      UnfoldConcat(list, onByte, onValue);
      MapItemsSplit(Items(list.left), Items(list.right), onByte, onValue);
    } else {
      MapStrict(list, onByte, onValue);
      UnfoldSettled(Items(MapRootStep(list, onByte, onValue)), onByte, onValue, Nodes(list));
    }
  }
}
