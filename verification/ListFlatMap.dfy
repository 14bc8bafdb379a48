/** Flat-mapping one representation node, and the balanced join of the produced lists. */
module ListFlatMap {
  import opened Basics
  import opened ListCore
  import opened ListTransform

  // ---- Balanced concatenation ----

  function Depth<V, T>(list: List<V, T>): nat {
    if list.Concat? then 1 + Max(Depth(list.left), Depth(list.right)) else 0
  }

  /** Rounds of pairwise joining that reduce n lists to one. */
  function CeilLog2(n: nat): nat {
    if n <= 1 then 0 else 1 + CeilLog2((n + 1) / 2)
  }

  /** `CeilLog2(n)` is the least k with n <= 2^k. */
  lemma {:induction false} CeilLog2Least(n: nat)
    ensures n <= Pow2(CeilLog2(n))
    ensures n > 1 ==> Pow2(CeilLog2(n) - 1) < n
  {
    if n > 1 {
      var half := (n + 1) / 2;
      CeilLog2Least(half);
      var k := CeilLog2(half);
      assert CeilLog2(n) == k + 1;
      Doubled(k);
      if k > 0 {
        Doubled(k - 1);
      }
    }
  }

  lemma Doubled(k: nat)
    ensures Pow2(k + 1) == 2 * Pow2(k)
  {
  }

  ghost predicate Bounded<V, T>(lists: seq<List<V, T>>, depth: nat) {
    forall i :: 0 <= i < |lists| ==> Valid(lists[i]) && Depth(lists[i]) <= depth
  }

  lemma BoundedPush<V, T>(lists: seq<List<V, T>>, list: List<V, T>, depth: nat)
    requires Bounded(lists, depth) && Valid(list) && Depth(list) <= depth
    ensures Bounded(lists + [list], depth)
  {
  }

  /** The first `i` lists have been joined into `next`. */
  ghost predicate Paired<V, T>(lists: seq<List<V, T>>, i: nat, next: seq<List<V, T>>, depth: nat)
    requires i <= |lists|
  {
    Bounded(next, depth + 1) && ItemsOf(next) == ItemsOf(lists[..i])
  }

  lemma PairTwo<V, T>(lists: seq<List<V, T>>, i: nat, next: seq<List<V, T>>, depth: nat)
    requires i + 1 < |lists| && Bounded(lists, depth) && Paired(lists, i, next, depth)
    ensures Paired(lists, i + 2, next + [Join(lists[i], lists[i + 1])], depth)
  {
    JoinDepth(lists[i], lists[i + 1], depth);
    BoundedPush(next, Join(lists[i], lists[i + 1]), depth + 1);
    ItemsOfNext(lists, i);
    ItemsOfNext(lists, i + 1);
    ItemsOfPush(next, Join(lists[i], lists[i + 1]));
    Associative(ItemsOf(next), Items(lists[i]), Items(lists[i + 1]));
  }

  lemma PairLast<V, T>(lists: seq<List<V, T>>, i: nat, next: seq<List<V, T>>, depth: nat)
    requires i < |lists| && Bounded(lists, depth) && Paired(lists, i, next, depth)
    ensures Paired(lists, i + 1, next + [lists[i]], depth)
  {
    BoundedPush(next, lists[i], depth + 1);
    ItemsOfNext(lists, i);
    ItemsOfPush(next, lists[i]);
  }

  lemma JoinDepth<V, T>(left: List<V, T>, right: List<V, T>, depth: nat)
    requires Valid(left) && Valid(right) && Depth(left) <= depth && Depth(right) <= depth
    ensures Valid(Join(left, right)) && Depth(Join(left, right)) <= depth + 1
  {
  }

  /** One round: neighbours are joined in pairs, an odd last list is kept. */
  method PairUp<V, T>(lists: seq<List<V, T>>, ghost depth: nat) returns (next: seq<List<V, T>>)
    requires Bounded(lists, depth)
    ensures Bounded(next, depth + 1)
    ensures |next| == (|lists| + 1) / 2
    ensures ItemsOf(next) == ItemsOf(lists)
  {
    next := [];
    var i := 0;
    while i < |lists|
      invariant 0 <= i <= |lists|
      invariant i == |lists| || i % 2 == 0
      invariant |next| == (i + 1) / 2
      invariant Paired(lists, i, next, depth)
    {
      var left := lists[i];
      if i + 1 < |lists| {
        var right := lists[i + 1];
        PairTwo(lists, i, next, depth);
        next, i := next + [Join(left, right)], i + 2;
      } else {
        PairLast(lists, i, next, depth);
        next, i := next + [left], i + 1;
      }
    }
    assert lists[..|lists|] == lists;
  }

  /** Joins n lists in order, adding at most ceil(log2 n) levels of concatenation. */
  method ConcatBalanced<V, T>(lists: seq<List<V, T>>, ghost depth: nat) returns (joined: List<V, T>)
    requires Bounded(lists, depth)
    ensures Items(joined) == ItemsOf(lists)
    ensures Valid(joined)
    ensures Depth(joined) <= depth + CeilLog2(|lists|)
  {
    if lists == [] {
      return Empty;
    }
    var current := lists;
    ghost var rounds := 0;
    while |current| > 1
      invariant |current| >= 1
      invariant Bounded(current, depth + rounds)
      invariant ItemsOf(current) == ItemsOf(lists)
      invariant rounds + CeilLog2(|current|) == CeilLog2(|lists|)
    {
      current := PairUp(current, depth + rounds);
      rounds := rounds + 1;
    }
    assert current == [] + [current[0]];
    ItemsOfPush([], current[0]);
    joined := current[0];
  }

  // ---- Flat map ----

  type Image<U, V, T, R, E> = Result<List<U, Deferred<V, T, R>>, E>

  /** Runs two steps in order; the first error wins. */
  function Then<X, E>(first: Result<seq<X>, E>, second: Result<seq<X>, E>): Result<seq<X>, E> {
    match first
    case Err(e) => Err(e)
    case Ok(a) => match second case Err(e) => Err(e) case Ok(b) => Ok(a + b)
  }

  /** The items one source item stands for: its image, or the deferred hole itself. */
  function FlatItem<U, V, T, R, E>(item: Item<V, T>, onByte: byte -> Image<U, V, T, R, E>,
                                   onValue: V -> Image<U, V, T, R, E>)
    : Result<seq<Item<U, Deferred<V, T, R>>>, E>
  {
    match item
    case Byte(byte) => (match onByte(byte) case Ok(list) => Ok(Items(list)) case Err(e) => Err(e))
    case Value(value) => (match onValue(value) case Ok(list) => Ok(Items(list)) case Err(e) => Err(e))
    case Hole(thunk) => Ok([Hole(DeferThunk(thunk))])
  }

  /** The flat map of a flat sequence, stopping at the first item that fails. */
  function FlatItems<U, V, T, R, E>(items: seq<Item<V, T>>, onByte: byte -> Image<U, V, T, R, E>,
                                    onValue: V -> Image<U, V, T, R, E>)
    : Result<seq<Item<U, Deferred<V, T, R>>>, E>
  {
    if items == [] then Ok([])
    else Then(FlatItem(items[0], onByte, onValue), FlatItems(items[1..], onByte, onValue))
  }

  /** What one root step leaves: two deferred children, or the image of the whole node. */
  function FlatRoot<U, V, T, R, E>(list: List<V, T>, onByte: byte -> Image<U, V, T, R, E>,
                                   onValue: V -> Image<U, V, T, R, E>)
    : Result<seq<Item<U, Deferred<V, T, R>>>, E>
  {
    if list.Concat? then Ok([Hole(DeferList(list.left)), Hole(DeferList(list.right))])
    else FlatItems(Items(list), onByte, onValue)
  }

  /** The list an item is mapped to; a hole has none. */
  function ImageOf<U, V, T, R, E>(item: Item<V, T>, onByte: byte -> Image<U, V, T, R, E>,
                                  onValue: V -> Image<U, V, T, R, E>): Option<List<U, Deferred<V, T, R>>>
  {
    match item
    case Byte(byte) => (match onByte(byte) case Ok(list) => Some(list) case Err(_) => None)
    case Value(value) => (match onValue(value) case Ok(list) => Some(list) case Err(_) => None)
    case Hole(_) => None
  }

  /** No image of these items defers a source child: what it defers is its own. */
  predicate SettledImages<U, V, T, R, E>(items: seq<Item<V, T>>, onByte: byte -> Image<U, V, T, R, E>,
                                         onValue: V -> Image<U, V, T, R, E>) {
    forall i :: 0 <= i < |items| && ImageOf(items[i], onByte, onValue).Some? ==>
      Deferrable(Items(ImageOf(items[i], onByte, onValue).value), 1)
  }

  predicate ValidImages<U, V, T, R, E>(items: seq<Item<V, T>>, onByte: byte -> Image<U, V, T, R, E>,
                                       onValue: V -> Image<U, V, T, R, E>) {
    forall i :: 0 <= i < |items| && ImageOf(items[i], onByte, onValue).Some? ==>
      Valid(ImageOf(items[i], onByte, onValue).value)
  }

  lemma SettledSplit<U, V, T, R, E>(a: seq<Item<V, T>>, b: seq<Item<V, T>>, onByte: byte -> Image<U, V, T, R, E>,
                                    onValue: V -> Image<U, V, T, R, E>)
    requires SettledImages(a + b, onByte, onValue)
    ensures SettledImages(a, onByte, onValue) && SettledImages(b, onByte, onValue)
  {
    assert forall i :: 0 <= i < |a| ==> (a + b)[i] == a[i];
    assert forall i :: 0 <= i < |b| ==> (a + b)[|a| + i] == b[i];
  }

  lemma ThenAssociative<X, E>(a: Result<seq<X>, E>, b: Result<seq<X>, E>, c: Result<seq<X>, E>)
    ensures Then(a, Then(b, c)) == Then(Then(a, b), c)
  {
    if a.Ok? && b.Ok? && c.Ok? {
      Associative(a.value, b.value, c.value);
    }
  }

  lemma ThenNothing<X, E>(a: Result<seq<X>, E>)
    ensures Then(a, Ok([])) == a
  {
    assert a.Ok? ==> a.value + [] == a.value;
  }

  lemma {:induction false} FlatItemsSplit<U, V, T, R, E>(a: seq<Item<V, T>>, b: seq<Item<V, T>>,
                                                         onByte: byte -> Image<U, V, T, R, E>,
                                                         onValue: V -> Image<U, V, T, R, E>)
    ensures FlatItems(a + b, onByte, onValue)
            == Then(FlatItems(a, onByte, onValue), FlatItems(b, onByte, onValue))
  {
    if a == [] {
      assert a + b == b;
      if FlatItems(b, onByte, onValue).Ok? {
        assert [] + FlatItems(b, onByte, onValue).value == FlatItems(b, onByte, onValue).value;
      }
    } else {
      FlatItemsSplit(a[1..], b, onByte, onValue);
      assert (a + b)[1..] == a[1..] + b && (a + b)[0] == a[0];
      ThenAssociative(FlatItem(a[0], onByte, onValue), FlatItems(a[1..], onByte, onValue),
                      FlatItems(b, onByte, onValue));
    }
  }

  lemma {:induction false} FlatItemsSettled<U, V, T, R, E>(items: seq<Item<V, T>>,
                                                           onByte: byte -> Image<U, V, T, R, E>,
                                                           onValue: V -> Image<U, V, T, R, E>)
    requires SettledImages(items, onByte, onValue)
    ensures FlatItems(items, onByte, onValue).Ok? ==>
              Deferrable(FlatItems(items, onByte, onValue).value, 1)
  {
    if items != [] {
      assert [items[0]] + items[1..] == items;
      SettledSplit([items[0]], items[1..], onByte, onValue);
      FlatItemsSettled(items[1..], onByte, onValue);
      assert ImageOf(items[0], onByte, onValue).Some? ==>
          Deferrable(Items(ImageOf(items[0], onByte, onValue).value), 1);
    }
  }

  /** Every deferred source child has settled images itself. */
  predicate SettledChildren<U, V, T, R, E>(items: seq<Item<U, Deferred<V, T, R>>>,
                                           onByte: byte -> Image<U, V, T, R, E>,
                                           onValue: V -> Image<U, V, T, R, E>) {
    forall i :: 0 <= i < |items| && items[i].Hole? && items[i].thunk.DeferList? ==>
      SettledImages(Items(items[i].thunk.list), onByte, onValue)
  }

  lemma SettledHasNoChild<U, V, T, R, E>(items: seq<Item<U, Deferred<V, T, R>>>,
                                         onByte: byte -> Image<U, V, T, R, E>, onValue: V -> Image<U, V, T, R, E>)
    requires Deferrable(items, 1)
    ensures SettledChildren(items, onByte, onValue)
  {
    assert forall i :: 0 <= i < |items| ==> Weight(items[i]) < 1;
  }

  lemma FlatRootDeferrable<U, V, T, R, E>(list: List<V, T>, onByte: byte -> Image<U, V, T, R, E>,
                                          onValue: V -> Image<U, V, T, R, E>)
    requires SettledImages(Items(list), onByte, onValue) && Valid(list)
    ensures FlatRoot(list, onByte, onValue).Ok? ==>
              && Deferrable(FlatRoot(list, onByte, onValue).value, Nodes(list))
              && SettledChildren(FlatRoot(list, onByte, onValue).value, onByte, onValue)
  {
    if list.Concat? {
      SettledSplit(Items(list.left), Items(list.right), onByte, onValue);
    } else {
      FlatItemsSettled(Items(list), onByte, onValue);
      if FlatRoot(list, onByte, onValue).Ok? {
        SettledHasNoChild(FlatRoot(list, onByte, onValue).value, onByte, onValue);
      }
    }
  }

  /** Replaces every deferred source child by its own, unfolded, flat map. */
  ghost function UnfoldFlat<U, V, T, R, E>(items: seq<Item<U, Deferred<V, T, R>>>,
                                           onByte: byte -> Image<U, V, T, R, E>,
                                           onValue: V -> Image<U, V, T, R, E>, bound: nat)
    : Result<seq<Item<U, Deferred<V, T, R>>>, E>
    requires SettledChildren(items, onByte, onValue) && Deferrable(items, bound)
    decreases bound, |items|
  {
    if items == [] then Ok([])
    else
      var head :=
        if items[0].Hole? && items[0].thunk.DeferList? then
          var child := items[0].thunk.list;
          FlatRootDeferrable(child, onByte, onValue);
          match FlatRoot(child, onByte, onValue)
          case Err(e) => Err(e)
          case Ok(left) => UnfoldFlat(left, onByte, onValue, Nodes(child))
        else Ok([items[0]]);
      Then(head, UnfoldFlat(items[1..], onByte, onValue, bound))
  }

  ghost function UnfoldFlatRoot<U, V, T, R, E>(list: List<V, T>, onByte: byte -> Image<U, V, T, R, E>,
                                               onValue: V -> Image<U, V, T, R, E>)
    : Result<seq<Item<U, Deferred<V, T, R>>>, E>
    requires SettledImages(Items(list), onByte, onValue) && Valid(list)
  {
    FlatRootDeferrable(list, onByte, onValue);
    match FlatRoot(list, onByte, onValue)
    case Err(e) => Err(e)
    case Ok(left) => UnfoldFlat(left, onByte, onValue, Nodes(list))
  }

  lemma {:induction false} UnfoldFlatSettled<U, V, T, R, E>(items: seq<Item<U, Deferred<V, T, R>>>,
                                                            onByte: byte -> Image<U, V, T, R, E>,
                                                            onValue: V -> Image<U, V, T, R, E>, bound: nat)
    requires Deferrable(items, 1) && 0 < bound
    requires SettledChildren(items, onByte, onValue)
    ensures UnfoldFlat(items, onByte, onValue, bound) == Ok(items)
  {
    if items != [] {
      UnfoldFlatSettled(items[1..], onByte, onValue, bound);
      assert Weight(items[0]) < 1 && [items[0]] + items[1..] == items;
    }
  }

  lemma UnfoldFlatChild<U, V, T, R, E>(child: List<V, T>, rest: seq<Item<U, Deferred<V, T, R>>>,
                                       onByte: byte -> Image<U, V, T, R, E>,
                                       onValue: V -> Image<U, V, T, R, E>, bound: nat)
    requires SettledImages(Items(child), onByte, onValue) && SettledChildren(rest, onByte, onValue)
    requires Valid(child) && Deferrable(rest, bound) && Nodes(child) < bound
    ensures SettledChildren([Hole(DeferList(child))] + rest, onByte, onValue)
    ensures UnfoldFlat([Hole(DeferList(child))] + rest, onByte, onValue, bound)
            == Then(UnfoldFlatRoot(child, onByte, onValue), UnfoldFlat(rest, onByte, onValue, bound))
  {
    var items := [Hole(DeferList(child))] + rest;
    assert items[1..] == rest && items[0] == Hole(DeferList(child));
  }

  lemma UnfoldFlatConcat<U, V, T, R, E>(list: List<V, T>, onByte: byte -> Image<U, V, T, R, E>,
                                        onValue: V -> Image<U, V, T, R, E>)
    requires SettledImages(Items(list), onByte, onValue) && list.Concat? && Valid(list)
    ensures SettledImages(Items(list.left), onByte, onValue) && SettledImages(Items(list.right), onByte, onValue)
    ensures UnfoldFlatRoot(list, onByte, onValue)
            == Then(UnfoldFlatRoot(list.left, onByte, onValue), UnfoldFlatRoot(list.right, onByte, onValue))
  {
    SettledSplit(Items(list.left), Items(list.right), onByte, onValue);
    var second: seq<Item<U, Deferred<V, T, R>>> := [Hole(DeferList(list.right))];
    assert second + [] == second;
    UnfoldFlatChild<U, V, T, R, E>(list.right, [], onByte, onValue, Nodes(list));
    UnfoldFlatChild(list.left, second, onByte, onValue, Nodes(list));
    ThenNothing(UnfoldFlatRoot(list.right, onByte, onValue));
    assert FlatRoot(list, onByte, onValue).value == [Hole(DeferList(list.left))] + second;
  }

  /** Unfolding the deferred children of a flat-mapped root gives the flat map of
      the items, and reports the same first failure. */
  lemma {:induction false} FlatMapUnfolds<U, V, T, R, E>(list: List<V, T>, onByte: byte -> Image<U, V, T, R, E>,
                                                         onValue: V -> Image<U, V, T, R, E>)
    requires SettledImages(Items(list), onByte, onValue) && Valid(list)
    ensures UnfoldFlatRoot(list, onByte, onValue) == FlatItems(Items(list), onByte, onValue)
  {
    if list.Concat? {
      UnfoldFlatConcat(list, onByte, onValue);
      FlatMapUnfolds(list.left, onByte, onValue);
      FlatMapUnfolds(list.right, onByte, onValue);
      FlatItemsSplit(Items(list.left), Items(list.right), onByte, onValue);
    } else if FlatRoot(list, onByte, onValue).Ok? {
      FlatRootDeferrable(list, onByte, onValue);
      FlatItemsSettled(Items(list), onByte, onValue);
      UnfoldFlatSettled(FlatRoot(list, onByte, onValue).value, onByte, onValue, Nodes(list));
    }
  }

  // ---- Collecting images ----

  /** The greatest depth among the images of the items present. */
  function ImageDepth<U, V, T, R, E>(items: seq<Item<V, T>>, onByte: byte -> Image<U, V, T, R, E>,
                                     onValue: V -> Image<U, V, T, R, E>): (depth: nat)
    ensures forall i :: 0 <= i < |items| && ImageOf(items[i], onByte, onValue).Some? ==>
              Depth(ImageOf(items[i], onByte, onValue).value) <= depth
  {
    if items == [] then 0
    else
      var image := ImageOf(items[0], onByte, onValue);
      Max(if image.Some? then Depth(image.value) else 0, ImageDepth(items[1..], onByte, onValue))
  }

  /** The images of these items are valid and no deeper than `depth`. */
  ghost predicate Within<U, V, T, R, E>(items: seq<Item<V, T>>, onByte: byte -> Image<U, V, T, R, E>,
                                        onValue: V -> Image<U, V, T, R, E>, depth: nat) {
    forall i :: 0 <= i < |items| && ImageOf(items[i], onByte, onValue).Some? ==>
      && Valid(ImageOf(items[i], onByte, onValue).value)
      && Depth(ImageOf(items[i], onByte, onValue).value) <= depth
  }

  /** The first `i` items have been mapped to `parts`, one list each. */
  ghost predicate Gathered<U, V, T, R, E>(items: seq<Item<V, T>>, i: nat, parts: seq<List<U, Deferred<V, T, R>>>,
                                          onByte: byte -> Image<U, V, T, R, E>,
                                          onValue: V -> Image<U, V, T, R, E>, depth: nat) {
    && i <= |items| && |parts| == i && Bounded(parts, depth)
    && FlatItems(items[..i], onByte, onValue) == Ok(ItemsOf(parts))
  }

  /** All items mapped, or the first failure among them. */
  ghost predicate Collected<U, V, T, R, E>(items: seq<Item<V, T>>, images: Result<seq<List<U, Deferred<V, T, R>>>, E>,
                                           onByte: byte -> Image<U, V, T, R, E>,
                                           onValue: V -> Image<U, V, T, R, E>, depth: nat) {
    match images
    case Err(e) => FlatItems(items, onByte, onValue) == Err(e)
    case Ok(parts) =>
      && FlatItems(items, onByte, onValue) == Ok(ItemsOf(parts))
      && |parts| == |items| && Bounded(parts, depth)
  }

  lemma GatherNext<U, V, T, R, E>(items: seq<Item<V, T>>, i: nat, parts: seq<List<U, Deferred<V, T, R>>>,
                                  onByte: byte -> Image<U, V, T, R, E>, onValue: V -> Image<U, V, T, R, E>,
                                  depth: nat)
    requires Gathered(items, i, parts, onByte, onValue, depth) && Within(items, onByte, onValue, depth)
    requires i < |items| && ImageOf(items[i], onByte, onValue).Some?
    ensures Gathered(items, i + 1, parts + [ImageOf(items[i], onByte, onValue).value], onByte, onValue, depth)
  {
    var image := ImageOf(items[i], onByte, onValue).value;
    FlatNext(items, i, onByte, onValue);
    ItemsOfPush(parts, image);
    BoundedPush(parts, image, depth);
  }

  lemma GatherAll<U, V, T, R, E>(items: seq<Item<V, T>>, parts: seq<List<U, Deferred<V, T, R>>>,
                                 onByte: byte -> Image<U, V, T, R, E>, onValue: V -> Image<U, V, T, R, E>,
                                 depth: nat)
    requires Gathered(items, |items|, parts, onByte, onValue, depth)
    ensures Collected(items, Ok(parts), onByte, onValue, depth)
  {
    assert items[..|items|] == items;
  }

  method CollectBytes<U, V, T, R, E>(bytes: seq<byte>, onByte: byte -> Image<U, V, T, R, E>,
                                     ghost onValue: V -> Image<U, V, T, R, E>, ghost depth: nat)
    returns (images: Result<seq<List<U, Deferred<V, T, R>>>, E>)
    requires Within(ByteItems<V, T>(bytes), onByte, onValue, depth)
    ensures Collected(ByteItems<V, T>(bytes), images, onByte, onValue, depth)
  {
    ghost var items := ByteItems<V, T>(bytes);
    var parts := [];
    for i := 0 to |bytes|
      invariant Gathered(items, i, parts, onByte, onValue, depth)
    {
      var image := onByte(bytes[i]);
      if image.Err? {
        FlatStops(items, i, image.error, onByte, onValue);
        return Err(image.error);
      }
      GatherNext(items, i, parts, onByte, onValue, depth);
      parts := parts + [image.value];
    }
    GatherAll(items, parts, onByte, onValue, depth);
    return Ok(parts);
  }

  method CollectValues<U, V, T, R, E>(values: seq<V>, ghost onByte: byte -> Image<U, V, T, R, E>,
                                      onValue: V -> Image<U, V, T, R, E>, ghost depth: nat)
    returns (images: Result<seq<List<U, Deferred<V, T, R>>>, E>)
    requires Within(ValueItems<V, T>(values), onByte, onValue, depth)
    ensures Collected(ValueItems<V, T>(values), images, onByte, onValue, depth)
  {
    ghost var items := ValueItems<V, T>(values);
    var parts := [];
    for i := 0 to |values|
      invariant Gathered(items, i, parts, onByte, onValue, depth)
    {
      var image := onValue(values[i]);
      if image.Err? {
        FlatStops(items, i, image.error, onByte, onValue);
        return Err(image.error);
      }
      GatherNext(items, i, parts, onByte, onValue, depth);
      parts := parts + [image.value];
    }
    GatherAll(items, parts, onByte, onValue, depth);
    return Ok(parts);
  }

  lemma WithinSplit<U, V, T, R, E>(a: seq<Item<V, T>>, b: seq<Item<V, T>>, onByte: byte -> Image<U, V, T, R, E>,
                                   onValue: V -> Image<U, V, T, R, E>, depth: nat)
    requires Within(a + b, onByte, onValue, depth)
    ensures Within(a, onByte, onValue, depth) && Within(b, onByte, onValue, depth)
  {
    assert forall i :: 0 <= i < |a| ==> (a + b)[i] == a[i];
    assert forall i :: 0 <= i < |b| ==> (a + b)[|a| + i] == b[i];
  }

  lemma {:induction false} ItemsOfSplit<V, T>(a: seq<List<V, T>>, b: seq<List<V, T>>)
    ensures ItemsOf(a + b) == ItemsOf(a) + ItemsOf(b)
  {
    if b == [] {
      assert a + b == a;
    } else {
      var init, last := b[..|b| - 1], b[|b| - 1];
      ItemsOfSplit(a, init);
      assert (a + b)[..|a + b| - 1] == a + init;
      Associative(ItemsOf(a), ItemsOf(init), Items(last));
    }
  }

  lemma CollectedJoin<U, V, T, R, E>(a: seq<Item<V, T>>, b: seq<Item<V, T>>,
                                     parts: seq<List<U, Deferred<V, T, R>>>,
                                     images: Result<seq<List<U, Deferred<V, T, R>>>, E>,
                                     onByte: byte -> Image<U, V, T, R, E>, onValue: V -> Image<U, V, T, R, E>,
                                     depth: nat)
    requires Collected(a, Ok(parts), onByte, onValue, depth) && Collected(b, images, onByte, onValue, depth)
    ensures Collected(a + b, match images case Err(e) => Err(e) case Ok(more) => Ok(parts + more),
                      onByte, onValue, depth)
  {
    FlatItemsSplit(a, b, onByte, onValue);
    if images.Ok? {
      ItemsOfSplit(parts, images.value);
    }
  }

  lemma CollectedFails<U, V, T, R, E>(a: seq<Item<V, T>>, b: seq<Item<V, T>>, error: E,
                                      onByte: byte -> Image<U, V, T, R, E>, onValue: V -> Image<U, V, T, R, E>,
                                      depth: nat)
    requires Collected(a, Err(error), onByte, onValue, depth)
    ensures Collected(a + b, Err(error), onByte, onValue, depth)
  {
    FlatItemsSplit(a, b, onByte, onValue);
  }

  /** The images of a rope's items, chunk by chunk. */
  method CollectChunks<U, V, T, R, E>(chunks: seq<Chunk<V>>, onByte: byte -> Image<U, V, T, R, E>,
                                      onValue: V -> Image<U, V, T, R, E>, ghost depth: nat)
    returns (images: Result<seq<List<U, Deferred<V, T, R>>>, E>)
    requires Within(RopeItems<V, T>(chunks), onByte, onValue, depth)
    ensures Collected(RopeItems<V, T>(chunks), images, onByte, onValue, depth)
  {
    var parts := [];
    for i := 0 to |chunks|
      invariant Collected(RopeItems<V, T>(chunks[..i]), Ok(parts), onByte, onValue, depth)
    {
      ghost var here := ChunkItems<V, T>(chunks[i]);
      RopeAround<V, T>(chunks, i);
      WithinSplit(RopeItems<V, T>(chunks[..i]) + here, RopeItems<V, T>(chunks[i + 1..]), onByte, onValue, depth);
      WithinSplit(RopeItems<V, T>(chunks[..i]), here, onByte, onValue, depth);
      var more;
      match chunks[i] {
        case ByteChunk(bytes) => more := CollectBytes(bytes, onByte, onValue, depth);
        case ValueChunk(values) => more := CollectValues(values, onByte, onValue, depth);
      }
      CollectedJoin(RopeItems<V, T>(chunks[..i]), here, parts, more, onByte, onValue, depth);
      if more.Err? {
        CollectedFails(RopeItems<V, T>(chunks[..i]) + here, RopeItems<V, T>(chunks[i + 1..]), more.error,
                       onByte, onValue, depth);
        return Err(more.error);
      }
      parts := parts + more.value;
    }
    assert chunks[..|chunks|] == chunks;
    return Ok(parts);
  }

  lemma RopeNext<V, T>(chunks: seq<Chunk<V>>, i: nat)
    requires i < |chunks|
    ensures RopeItems<V, T>(chunks[..i + 1]) == RopeItems<V, T>(chunks[..i]) + ChunkItems<V, T>(chunks[i])
  {
    TakeNext(chunks, i);
    RopeItemsPush<V, T>(chunks[..i], chunks[i]);
  }

  lemma RopeAround<V, T>(chunks: seq<Chunk<V>>, i: nat)
    requires i < |chunks|
    ensures RopeItems<V, T>(chunks[..i + 1]) == RopeItems<V, T>(chunks[..i]) + ChunkItems<V, T>(chunks[i])
    ensures RopeItems<V, T>(chunks) ==
            RopeItems<V, T>(chunks[..i]) + ChunkItems<V, T>(chunks[i]) + RopeItems<V, T>(chunks[i + 1..])
  {
    TakeNext(chunks, i);
    RopeNext<V, T>(chunks, i);
    RopeItemsSplit<V, T>(chunks[..i + 1], chunks[i + 1..]);
  }

  lemma TakeNext<X>(all: seq<X>, i: nat)
    requires i < |all|
    ensures all[..i + 1] == all[..i] + [all[i]] && all == all[..i + 1] + all[i + 1..]
  {
  }

  /** `flat_map_root_step`: the images of a strict leaf are collected in order and
      joined in a balanced way; a concatenation or hole stays deferred. */
  method FlatMapRootStep<U, V, T, R, E>(list: List<V, T>, onByte: byte -> Image<U, V, T, R, E>,
                                        onValue: V -> Image<U, V, T, R, E>)
    returns (mapped: Result<List<U, Deferred<V, T, R>>, E>)
    requires Valid(list) && ValidImages(Items(list), onByte, onValue)
    ensures match mapped
            case Err(e) => FlatRoot(list, onByte, onValue) == Err(e)
            case Ok(result) =>
              && FlatRoot(list, onByte, onValue) == Ok(Items(result))
              && Valid(result)
              && Depth(result) <= Max(1, ImageDepth(Items(list), onByte, onValue) + CeilLog2(|Items(list)|))
  {
    if list.Concat? {
      var both := Join(Thunk(DeferList(list.left)), Thunk(DeferList(list.right)));
      assert Items(both) == [Hole(DeferList(list.left)), Hole(DeferList(list.right))];
      return Ok(both);
    }
    if list.Thunk? {
      assert FlatItems(Items(list)[1..], onByte, onValue) == Ok([]);
      ThenNothing(FlatItem(Items(list)[0], onByte, onValue));
      return Ok(Thunk(DeferThunk(list.thunk)));
    }
    if list.Empty? {
      return Ok(Empty);
    }
    ghost var depth := ImageDepth(Items(list), onByte, onValue);
    assert Within(Items(list), onByte, onValue, depth);
    var images;
    match list {
      case Bytes(bytes) => images := CollectBytes(bytes, onByte, onValue, depth);
      case Values(values) => images := CollectValues(values, onByte, onValue, depth);
      case Finger(chunks) => images := CollectChunks(chunks, onByte, onValue, depth);
    }
    if images.Err? {
      return Err(images.error);
    }
    var joined := ConcatBalanced(images.value, depth);
    return Ok(joined);
  }

  lemma FlatNext<U, V, T, R, E>(items: seq<Item<V, T>>, i: nat, onByte: byte -> Image<U, V, T, R, E>,
                                onValue: V -> Image<U, V, T, R, E>)
    requires i < |items|
    ensures FlatItems(items[..i + 1], onByte, onValue)
            == Then(FlatItems(items[..i], onByte, onValue), FlatItem(items[i], onByte, onValue))
  {
    assert items[..i + 1] == items[..i] + [items[i]];
    FlatItemsSplit(items[..i], [items[i]], onByte, onValue);
    assert [items[i]][1..] == [];
    ThenNothing(FlatItem(items[i], onByte, onValue));
  }

  lemma FlatStops<U, V, T, R, E>(items: seq<Item<V, T>>, i: nat, error: E,
                                 onByte: byte -> Image<U, V, T, R, E>, onValue: V -> Image<U, V, T, R, E>)
    requires i < |items| && FlatItems(items[..i], onByte, onValue).Ok?
    requires FlatItem(items[i], onByte, onValue) == Err(error)
    ensures FlatItems(items, onByte, onValue) == Err(error)
  {
    FlatNext(items, i, onByte, onValue);
    TakeNext(items, i);
    FlatItemsSplit(items[..i + 1], items[i + 1..], onByte, onValue);
  }
}
