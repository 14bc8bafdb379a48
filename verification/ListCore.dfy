/** The persistent list: its nodes, the flat item sequence they stand for, the
    representation invariant and the constructors that keep it. */
module ListCore {
  import opened Basics

  /** One logical item. A hole is an opaque deferred segment, never forced here. */
  datatype Item<+V, +T> = Byte(byte: byte) | Value(value: V) | Hole(thunk: T)

  datatype Chunk<+V> = ByteChunk(bytes: seq<byte>) | ValueChunk(values: seq<V>) {
    function Len(): nat {
      match this
      case ByteChunk(bytes) => |bytes|
      case ValueChunk(values) => |values|
    }

    /** The sub-chunk `[start, end)`, absent when it would be empty. */
    function Slice(start: nat, end: nat): Option<Chunk<V>>
      requires start <= end <= Len()
    {
      if start == end then None
      else Some(match this
                case ByteChunk(bytes) => ByteChunk(bytes[start..end])
                case ValueChunk(values) => ValueChunk(values[start..end]))
    }
  }

  /** A finger tree is the sequence of its chunks, measured by their total length. */
  datatype List<+V, +T> =
    | Empty
    | Bytes(bytes: seq<byte>)
    | Values(values: seq<V>)
    | Concat(left: List<V, T>, right: List<V, T>)
    | Finger(chunks: seq<Chunk<V>>)
    | Thunk(thunk: T)

  function ByteItems<V, T>(bytes: seq<byte>): seq<Item<V, T>> {
    seq(|bytes|, i requires 0 <= i < |bytes| => Byte(bytes[i]))
  }

  function ValueItems<V, T>(values: seq<V>): seq<Item<V, T>> {
    seq(|values|, i requires 0 <= i < |values| => Value(values[i]))
  }

  function ChunkItems<V, T>(chunk: Chunk<V>): seq<Item<V, T>> {
    match chunk
    case ByteChunk(bytes) => ByteItems(bytes)
    case ValueChunk(values) => ValueItems(values)
  }

  function RopeItems<V, T>(chunks: seq<Chunk<V>>): seq<Item<V, T>> {
    if chunks == [] then [] else ChunkItems(chunks[0]) + RopeItems(chunks[1..])
  }

  /** The flat sequence a list denotes, whatever its segmentation. */
  function Items<V, T>(list: List<V, T>): seq<Item<V, T>> {
    match list
    case Empty => []
    case Bytes(bytes) => ByteItems(bytes)
    case Values(values) => ValueItems(values)
    case Concat(left, right) => Items(left) + Items(right)
    case Finger(chunks) => RopeItems(chunks)
    case Thunk(thunk) => [Hole(thunk)]
  }

  /** The items of several lists in order. */
  function ItemsOf<V, T>(lists: seq<List<V, T>>): seq<Item<V, T>> {
    if lists == [] then [] else ItemsOf(lists[..|lists| - 1]) + Items(lists[|lists| - 1])
  }

  /** The items still on a worklist whose top, visited next, is last. */
  function StackItems<V, T>(worklist: seq<List<V, T>>): seq<Item<V, T>> {
    if worklist == [] then []
    else Items(worklist[|worklist| - 1]) + StackItems(worklist[..|worklist| - 1])
  }

  function Nodes<V, T>(list: List<V, T>): nat {
    if list.Concat? then 1 + Nodes(list.left) + Nodes(list.right) else 1
  }

  predicate ValidRope<V>(chunks: seq<Chunk<V>>) {
    forall i :: 0 <= i < |chunks| ==> chunks[i].Len() > 0
  }

  /** No empty leaf, no empty chunk, no `Empty` below a concatenation. */
  predicate Valid<V, T>(list: List<V, T>) {
    match list
    case Empty => true
    case Bytes(bytes) => bytes != []
    case Values(values) => |values| != 0
    case Concat(left, right) => !left.Empty? && !right.Empty? && Valid(left) && Valid(right)
    case Finger(chunks) => |chunks| != 0 && ValidRope(chunks)
    case Thunk(_) => true
  }

  predicate IsLeaf<V, T>(list: List<V, T>) {
    list.Bytes? || list.Values? || list.Finger?
  }

  // ---- Constructors ----

  function FromBytes<V, T>(bytes: seq<byte>): List<V, T> {
    if bytes == [] then Empty else Bytes(bytes)
  }

  lemma BytesLeaf<V, T>(bytes: seq<byte>)
    ensures Valid(FromBytes<V, T>(bytes)) && Items(FromBytes<V, T>(bytes)) == ByteItems(bytes)
  {
  }

  function FromValues<V, T>(values: seq<V>): List<V, T> {
    if |values| == 0 then Empty else Values(values)
  }

  lemma ValuesLeaf<V, T>(values: seq<V>)
    ensures Valid(FromValues<V, T>(values)) && Items(FromValues<V, T>(values)) == ValueItems(values)
  {
  }

  function FromFinger<V, T>(chunks: seq<Chunk<V>>): List<V, T> {
    if |chunks| == 0 then Empty else Finger(chunks)
  }

  lemma FingerLeaf<V, T>(chunks: seq<Chunk<V>>)
    requires ValidRope(chunks)
    ensures Valid(FromFinger<V, T>(chunks)) && Items(FromFinger<V, T>(chunks)) == RopeItems(chunks)
  {
  }

  function Join<V, T>(left: List<V, T>, right: List<V, T>): (list: List<V, T>)
    ensures Items(list) == Items(left) + Items(right)
    ensures Valid(left) && Valid(right) ==> Valid(list)
  {
    if left.Empty? then right
    else if right.Empty? then left
    else Concat(left, right)
  }

  /** The strict length, unknown as soon as one hole is present. */
  function KnownLen<V, T>(list: List<V, T>): Option<nat> {
    match list
    case Empty => Some(0)
    case Bytes(bytes) => Some(|bytes|)
    case Values(values) => Some(|values|)
    case Concat(left, right) =>
      (match (KnownLen(left), KnownLen(right))
       case (Some(l), Some(r)) => Some(l + r)
       case _ => None)
    case Finger(chunks) => Some(Measure(chunks))
    case Thunk(_) => None
  }

  /** The cached length measure of a finger tree. */
  function Measure<V>(chunks: seq<Chunk<V>>): nat {
    if chunks == [] then 0 else chunks[0].Len() + Measure(chunks[1..])
  }

  // ---- Facts about the flat sequence ----

  predicate HasHole<V, T>(items: seq<Item<V, T>>) {
    exists i :: 0 <= i < |items| && items[i].Hole?
  }

  lemma ItemsOfPush<V, T>(lists: seq<List<V, T>>, list: List<V, T>)
    ensures ItemsOf(lists + [list]) == ItemsOf(lists) + Items(list)
  {
    assert (lists + [list])[..|lists|] == lists;
  }

  lemma ItemsOfNext<V, T>(lists: seq<List<V, T>>, i: nat)
    requires i < |lists|
    ensures ItemsOf(lists[..i + 1]) == ItemsOf(lists[..i]) + Items(lists[i])
  {
    assert lists[..i + 1][..i] == lists[..i];
  }

  lemma {:induction false} RopeItemsSplit<V, T>(a: seq<Chunk<V>>, b: seq<Chunk<V>>)
    ensures RopeItems<V, T>(a + b) == RopeItems<V, T>(a) + RopeItems<V, T>(b)
  {
    if a == [] {
      assert a + b == b;
    } else {
      RopeItemsSplit<V, T>(a[1..], b);
      assert (a + b)[1..] == a[1..] + b && (a + b)[0] == a[0];
      Associative(ChunkItems<V, T>(a[0]), RopeItems<V, T>(a[1..]), RopeItems<V, T>(b));
    }
  }

  lemma {:induction false} RopeItemsOne<V, T>(chunk: Chunk<V>)
    ensures RopeItems<V, T>([chunk]) == ChunkItems(chunk)
  {
    assert RopeItems<V, T>([chunk][1..]) == [];
  }

  lemma RopeItemsPush<V, T>(chunks: seq<Chunk<V>>, chunk: Chunk<V>)
    ensures RopeItems<V, T>(chunks + [chunk]) == RopeItems<V, T>(chunks) + ChunkItems(chunk)
  {
    RopeItemsSplit<V, T>(chunks, [chunk]);
    RopeItemsOne<V, T>(chunk);
  }

  lemma {:induction false} RopeItemsStrict<V, T>(chunks: seq<Chunk<V>>)
    ensures |RopeItems<V, T>(chunks)| == Measure(chunks)
    ensures !HasHole(RopeItems<V, T>(chunks))
  {
    if chunks != [] {
      RopeItemsStrict<V, T>(chunks[1..]);
    }
  }

  /** `known_len` answers exactly when nothing is deferred, and then counts the items. */
  lemma {:induction false} KnownLenCounts<V, T>(list: List<V, T>)
    ensures KnownLen(list).Some? <==> !HasHole(Items(list))
    ensures KnownLen(list).Some? ==> KnownLen(list).value == |Items(list)|
  {
    match list
    case Concat(left, right) =>
      KnownLenCounts(left);
      KnownLenCounts(right);
      var l, r := Items(left), Items(right);
      if HasHole(l) {
        var i :| 0 <= i < |l| && l[i].Hole?;
        assert (l + r)[i].Hole?;
      }
      if HasHole(r) {
        var i :| 0 <= i < |r| && r[i].Hole?;
        assert (l + r)[|l| + i].Hole?;
      }
    case Finger(chunks) => RopeItemsStrict<V, T>(chunks);
    case Thunk(thunk) => assert Items(list)[0].Hole?;
    case _ =>
  }

  /** A valid list is the canonical `Empty` exactly when it has no items. */
  lemma {:induction false} EmptyIffNoItems<V, T>(list: List<V, T>)
    requires Valid(list)
    ensures list.Empty? <==> Items(list) == []
  {
    match list
    case Concat(left, right) =>
      EmptyIffNoItems(left);
    case Finger(chunks) =>
      assert ChunkItems<V, T>(chunks[0]) <= RopeItems<V, T>(chunks);
    case _ =>
  }
}
