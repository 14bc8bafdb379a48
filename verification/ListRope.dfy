/** Cutting strict leaves by position and joining the pieces into a rope. */
module ListRope {
  import opened Basics
  import opened ListCore

  // ---- Splitting a finger tree ----

  /** The library's split by `measure > index`: the first chunk whose running
      measure satisfies the predicate opens the right part. */
  function SplitPoint<V>(chunks: seq<Chunk<V>>, index: nat, from: nat): (k: nat)
    requires from <= |chunks|
    ensures from <= k <= |chunks|
    ensures forall j :: from < j <= k ==> Measure(chunks[..j]) <= index
    ensures k < |chunks| ==> Measure(chunks[..k + 1]) > index
    decreases |chunks| - from
  {
    if from == |chunks| || Measure(chunks[..from + 1]) > index then from
    else SplitPoint(chunks, index, from + 1)
  }

  /** `split_finger_at`: cuts a rope at an item index, inside a chunk if need be. */
  function SplitFingerAt<V>(chunks: seq<Chunk<V>>, index: nat): (seq<Chunk<V>>, seq<Chunk<V>>)
    requires index <= Measure(chunks)
  {
    if index == 0 then ([], chunks)
    else if index == Measure(chunks) then (chunks, [])
    else
      var k := SplitPoint(chunks, index, 0);
      var (left, right) := (chunks[..k], chunks[k..]);
      var leftLen := Measure(left);
      SplitPointInside(chunks, index);
      if leftLen == index then (left, right)
      else
        var chunk, offset := right[0], index - leftLen;
        ((match chunk.Slice(0, offset) case Some(l) => left + [l] case None => left),
         (match chunk.Slice(offset, chunk.Len()) case Some(r) => [r] + right[1..] case None => right[1..]))
  }

  lemma {:induction false} MeasureSplit<V>(a: seq<Chunk<V>>, b: seq<Chunk<V>>)
    ensures Measure(a + b) == Measure(a) + Measure(b)
  {
    RopeItemsSplit<V, ()>(a, b);
    RopeItemsStrict<V, ()>(a);
    RopeItemsStrict<V, ()>(b);
    RopeItemsStrict<V, ()>(a + b);
  }

  /** The boundary chunk straddles the index: it starts at or before it and ends after. */
  lemma SplitPointInside<V>(chunks: seq<Chunk<V>>, index: nat)
    requires index < Measure(chunks)
    ensures var k := SplitPoint(chunks, index, 0);
            && k < |chunks|
            && Measure(chunks[..k]) <= index < Measure(chunks[..k]) + chunks[k].Len()
  {
    var k := SplitPoint(chunks, index, 0);
    assert chunks[..|chunks|] == chunks;
    assert chunks[..k + 1] == chunks[..k] + [chunks[k]];
    MeasureSplit(chunks[..k], [chunks[k]]);
    assert Measure([chunks[k]]) == chunks[k].Len() + Measure([chunks[k]][1..]);
  }

  lemma SliceItems<V, T>(chunk: Chunk<V>, start: nat, end: nat)
    requires start <= end <= chunk.Len()
    ensures match chunk.Slice(start, end)
            case Some(part) => start < end && ChunkItems<V, T>(part) == ChunkItems(chunk)[start..end]
            case None => start == end
  {
  }

  /** A boundary chunk cut at `offset` completes the left part and opens the right one. */
  lemma CutChunk<V, T>(before: seq<Chunk<V>>, chunk: Chunk<V>, after: seq<Chunk<V>>, offset: nat)
    requires 0 < offset < chunk.Len()
    ensures var l, r := chunk.Slice(0, offset).value, chunk.Slice(offset, chunk.Len()).value;
            var all := RopeItems<V, T>(before + [chunk] + after);
            && |RopeItems<V, T>(before + [l])| == Measure(before) + offset
            && RopeItems<V, T>(before + [l]) + RopeItems<V, T>([r] + after) == all
  {
    var l, r := chunk.Slice(0, offset).value, chunk.Slice(offset, chunk.Len()).value;
    SliceItems<V, T>(chunk, 0, offset);
    SliceItems<V, T>(chunk, offset, chunk.Len());
    assert ChunkItems<V, T>(chunk) == ChunkItems<V, T>(l) + ChunkItems<V, T>(r);
    RopeItemsPush<V, T>(before, l);
    RopeItemsPush<V, T>(before, chunk);
    RopeItemsStrict<V, T>(before);
    RopeItemsSplit<V, T>(before + [chunk], after);
    assert ([r] + after)[1..] == after;
    Associative(RopeItems<V, T>(before), ChunkItems<V, T>(l), ChunkItems<V, T>(r));
    Associative(RopeItems<V, T>(before + [l]), ChunkItems<V, T>(r), RopeItems<V, T>(after));
  }

  lemma CutAt<X>(all: seq<X>, a: seq<X>, b: seq<X>)
    requires all == a + b
    ensures a == all[..|a|] && b == all[|a|..]
  {
  }

  /** The shape of a cut strictly inside a rope: between two chunks, or through one. */
  lemma SplitFingerShape<V>(chunks: seq<Chunk<V>>, index: nat) returns (k: nat)
    requires 0 < index < Measure(chunks)
    ensures k < |chunks| && Measure(chunks[..k]) <= index < Measure(chunks[..k]) + chunks[k].Len()
    ensures Measure(chunks[..k]) == index ==> SplitFingerAt(chunks, index) == (chunks[..k], chunks[k..])
    ensures Measure(chunks[..k]) < index ==>
              var offset := index - Measure(chunks[..k]);
              SplitFingerAt(chunks, index) ==
              (chunks[..k] + [chunks[k].Slice(0, offset).value],
               [chunks[k].Slice(offset, chunks[k].Len()).value] + chunks[k + 1..])
  {
    k := SplitPoint(chunks, index, 0);
    SplitPointInside(chunks, index);
    assert chunks[k..][1..] == chunks[k + 1..];
  }

  lemma Around<X>(all: seq<X>, k: nat)
    requires k < |all|
    ensures all == all[..k] + all[k..]
    ensures all == all[..k] + [all[k]] + all[k + 1..]
  {
  }

  /** Neither part of a cut holds an empty chunk. */
  lemma SplitFingerValid<V>(chunks: seq<Chunk<V>>, index: nat)
    requires ValidRope(chunks) && index <= Measure(chunks)
    ensures ValidRope(SplitFingerAt(chunks, index).0)
    ensures ValidRope(SplitFingerAt(chunks, index).1)
  {
    if 0 < index < Measure(chunks) {
      var k := SplitFingerShape(chunks, index);
      if Measure(chunks[..k]) < index {
        CutValid(chunks, k, index - Measure(chunks[..k]));
      }
    }
  }

  lemma CutValid<V>(chunks: seq<Chunk<V>>, k: nat, offset: nat)
    requires ValidRope(chunks) && k < |chunks| && 0 < offset < chunks[k].Len()
    ensures ValidRope(chunks[..k] + [chunks[k].Slice(0, offset).value])
    ensures ValidRope([chunks[k].Slice(offset, chunks[k].Len()).value] + chunks[k + 1..])
  {
  }

  /** Both parts are the prefix and the suffix of the items. */
  lemma SplitFingerItems<V, T>(chunks: seq<Chunk<V>>, index: nat)
    requires index <= Measure(chunks)
    ensures index <= |RopeItems<V, T>(chunks)|
    ensures RopeItems<V, T>(SplitFingerAt(chunks, index).0) == RopeItems<V, T>(chunks)[..index]
    ensures RopeItems<V, T>(SplitFingerAt(chunks, index).1) == RopeItems<V, T>(chunks)[index..]
  {
    RopeItemsStrict<V, T>(chunks);
    if 0 < index < Measure(chunks) {
      var k := SplitFingerShape(chunks, index);
      var (left, right) := SplitFingerAt(chunks, index);
      Around(chunks, k);
      if Measure(chunks[..k]) == index {
        RopeItemsSplit<V, T>(left, right);
        RopeItemsStrict<V, T>(left);
      } else {
        CutChunk<V, T>(chunks[..k], chunks[k], chunks[k + 1..], index - Measure(chunks[..k]));
      }
      CutAt(RopeItems<V, T>(chunks), RopeItems<V, T>(left), RopeItems<V, T>(right));
    }
  }

  // ---- Strict leaves by position ----

  function LeafItemAt<V, T>(leaf: List<V, T>, index: nat): (item: Item<V, T>)
    requires IsLeaf(leaf) && Valid(leaf) && index < |Items(leaf)|
    ensures item == Items(leaf)[index]
  {
    match leaf
    case Bytes(bytes) => Byte(bytes[index])
    case Values(values) => Value(values[index])
    case Finger(chunks) =>
      RopeItemsStrict<V, T>(chunks);
      SplitFingerItems<V, T>(chunks, index);
      SplitFingerValid(chunks, index);
      var right := SplitFingerAt(chunks, index).1;
      assert RopeItems<V, T>(right)[0] == Items(leaf)[index];
      ChunkItems(right[0])[0]
  }

  function SplitLeafAt<V, T>(leaf: List<V, T>, index: nat): (parts: (List<V, T>, List<V, T>))
    requires (leaf.Empty? || IsLeaf(leaf)) && Valid(leaf) && index <= |Items(leaf)|
    ensures Items(parts.0) == Items(leaf)[..index] && Items(parts.1) == Items(leaf)[index..]
    ensures Valid(parts.0) && (parts.0.Empty? || IsLeaf(parts.0))
    ensures Valid(parts.1) && (parts.1.Empty? || IsLeaf(parts.1))
  {
    match leaf
    case Empty => (Empty, Empty)
    case Bytes(bytes) => (FromBytes(bytes[..index]), FromBytes(bytes[index..]))
    case Values(values) => (FromValues(values[..index]), FromValues(values[index..]))
    case Finger(chunks) =>
      RopeItemsStrict<V, T>(chunks);
      SplitFingerItems<V, T>(chunks, index);
      SplitFingerValid(chunks, index);
      var (left, right) := SplitFingerAt(chunks, index);
      (FromFinger(left), FromFinger(right))
  }

  // ---- Joining strict pieces ----

  const ROPE_RUN_ITEMS := 32

  predicate StrictPiece<V, T>(piece: List<V, T>) {
    Valid(piece) && (piece.Empty? || IsLeaf(piece))
  }

  predicate BothShort<V>(a: Chunk<V>, b: Chunk<V>) {
    a.ByteChunk? == b.ByteChunk? && a.Len() < ROPE_RUN_ITEMS && b.Len() < ROPE_RUN_ITEMS
  }

  /** No two neighbouring chunks of one kind are both short enough to have been merged. */
  predicate Merged<V>(rope: seq<Chunk<V>>) {
    |rope| > 1 ==>
      && !BothShort(rope[|rope| - 2], rope[|rope| - 1])
      && Merged(rope[..|rope| - 1])
  }

  lemma {:induction false} MergedNeighbours<V>(rope: seq<Chunk<V>>, i: nat)
    requires Merged(rope) && i + 1 < |rope|
    ensures !BothShort(rope[i], rope[i + 1])
  {
    if i + 2 < |rope| {
      MergedNeighbours(rope[..|rope| - 1], i);
    }
  }

  function FlushBytes<V>(rope: seq<Chunk<V>>, run: seq<byte>): seq<Chunk<V>> {
    if run == [] then rope else rope + [ByteChunk(run)]
  }

  function FlushValues<V>(rope: seq<Chunk<V>>, run: seq<V>): seq<Chunk<V>> {
    if |run| == 0 then rope else rope + [ValueChunk(run)]
  }

  /** The chunks a rope will have once both runs are flushed. */
  function Flushed<V>(rope: seq<Chunk<V>>, bytes: seq<byte>, values: seq<V>): seq<Chunk<V>> {
    FlushValues(FlushBytes(rope, bytes), values)
  }

  /** The rope so far and its two runs, of which at most one is non-empty. With
      no run pending, the last chunk is long. */
  ghost predicate Building<V>(rope: seq<Chunk<V>>, bytes: seq<byte>, values: seq<V>, merged: bool) {
    && ValidRope(rope)
    && (bytes == [] || |values| == 0)
    && |bytes| < ROPE_RUN_ITEMS && |values| < ROPE_RUN_ITEMS
    && (merged ==>
          && Merged(Flushed(rope, bytes, values))
          && (bytes == [] && |values| == 0 && |rope| > 0 ==> rope[|rope| - 1].Len() >= ROPE_RUN_ITEMS))
  }

  lemma MergedPush<V>(rope: seq<Chunk<V>>, chunk: Chunk<V>)
    ensures Merged(rope + [chunk]) <==>
              Merged(rope) && (|rope| > 0 ==> !BothShort(rope[|rope| - 1], chunk))
  {
    assert (rope + [chunk])[..|rope|] == rope;
  }

  /** The state after a short byte piece: the value run is flushed, the byte run grows
      and is flushed too once it is long. */
  lemma AddShortBytes<V>(rope: seq<Chunk<V>>, bytes: seq<byte>, values: seq<V>, merged: bool,
                         more: seq<byte>)
    requires Building(rope, bytes, values, merged) && 0 < |more| < ROPE_RUN_ITEMS
    ensures var flushed, run := FlushValues(rope, values), bytes + more;
            if |run| < ROPE_RUN_ITEMS then Building(flushed, run, [], merged)
            else Building(FlushBytes(flushed, run), [], [], merged)
  {
    var flushed := FlushValues(rope, values);
    MergedPush(flushed, ByteChunk(bytes + more));
    MergedPush(flushed, ByteChunk(bytes));
  }

  lemma AddShortValues<V>(rope: seq<Chunk<V>>, bytes: seq<byte>, values: seq<V>, merged: bool,
                          more: seq<V>)
    requires Building(rope, bytes, values, merged) && 0 < |more| < ROPE_RUN_ITEMS
    ensures var flushed, run := FlushBytes(rope, bytes), values + more;
            if |run| < ROPE_RUN_ITEMS then Building(flushed, [], run, merged)
            else Building(FlushValues(flushed, run), [], [], merged)
  {
    var flushed := FlushBytes(rope, bytes);
    MergedPush(flushed, ValueChunk(values + more));
    MergedPush(flushed, ValueChunk(values));
  }

  /** Growing the one pending run appends exactly the new items. */
  lemma ShortBytesItems<V, T>(rope: seq<Chunk<V>>, bytes: seq<byte>, values: seq<V>, more: seq<byte>)
    requires bytes == [] || |values| == 0
    requires more != []
    ensures RopeItems<V, T>(FlushBytes(FlushValues(rope, values), bytes + more))
            == RopeItems<V, T>(Flushed(rope, bytes, values)) + ByteItems(more)
  {
    var flushed := FlushValues(rope, values);
    RopeItemsPush<V, T>(flushed, ByteChunk(bytes + more));
    ByteItemsJoin<V, T>(bytes, more);
    if bytes != [] {
      RopeItemsPush<V, T>(flushed, ByteChunk(bytes));
      Associative(RopeItems<V, T>(flushed), ByteItems(bytes), ByteItems(more));
    } else {
      assert Flushed(rope, bytes, values) == flushed && bytes + more == more;
    }
  }

  lemma ByteItemsJoin<V, T>(a: seq<byte>, b: seq<byte>)
    ensures ByteItems<V, T>(a + b) == ByteItems(a) + ByteItems(b)
  {
  }

  lemma ValueItemsJoin<V, T>(a: seq<V>, b: seq<V>)
    ensures ValueItems<V, T>(a + b) == ValueItems(a) + ValueItems(b)
  {
  }

  lemma ShortValuesItems<V, T>(rope: seq<Chunk<V>>, bytes: seq<byte>, values: seq<V>, more: seq<V>)
    requires bytes == [] || |values| == 0
    requires |more| > 0
    ensures RopeItems<V, T>(FlushValues(FlushBytes(rope, bytes), values + more))
            == RopeItems<V, T>(Flushed(rope, bytes, values)) + ValueItems(more)
  {
    var flushed := FlushBytes(rope, bytes);
    RopeItemsPush<V, T>(flushed, ValueChunk(values + more));
    ValueItemsJoin<V, T>(values, more);
    if |values| > 0 {
      RopeItemsPush<V, T>(flushed, ValueChunk(values));
      Associative(RopeItems<V, T>(flushed), ValueItems(values), ValueItems(more));
    } else {
      assert Flushed(rope, bytes, values) == flushed && values + more == more;
    }
  }

  lemma FlushedValid<V>(rope: seq<Chunk<V>>, bytes: seq<byte>, values: seq<V>)
    requires ValidRope(rope)
    ensures ValidRope(Flushed(rope, bytes, values))
  {
  }

  lemma MergedLong<V>(rope: seq<Chunk<V>>, more: seq<Chunk<V>>)
    requires Merged(rope) && |more| == 1 && more[0].Len() >= ROPE_RUN_ITEMS
    ensures Merged(rope + more)
  {
    MergedPush(rope, more[0]);
    assert more == [more[0]];
  }

  lemma ChunksKeepBuilding<V>(rope: seq<Chunk<V>>, bytes: seq<byte>, values: seq<V>, merged: bool,
                              more: seq<Chunk<V>>)
    requires Building(rope, bytes, values, merged) && ValidRope(more)
    requires merged ==> |more| == 1 && more[0].Len() >= ROPE_RUN_ITEMS
    ensures Building(Flushed(rope, bytes, values) + more, [], [], merged)
  {
    FlushedValid(rope, bytes, values);
    if merged {
      MergedLong(Flushed(rope, bytes, values), more);
    }
  }

  /** A long chunk, or the chunks of a finger tree, follow both flushed runs. */
  lemma AddChunks<V, T>(rope: seq<Chunk<V>>, bytes: seq<byte>, values: seq<V>, merged: bool,
                        more: seq<Chunk<V>>)
    requires Building(rope, bytes, values, merged) && ValidRope(more)
    requires merged ==> |more| == 1 && more[0].Len() >= ROPE_RUN_ITEMS
    ensures Building(Flushed(rope, bytes, values) + more, [], [], merged)
    ensures RopeItems<V, T>(Flushed(rope, bytes, values) + more)
            == RopeItems<V, T>(Flushed(rope, bytes, values)) + RopeItems<V, T>(more)
  {
    RopeItemsSplit<V, T>(Flushed(rope, bytes, values), more);
    ChunksKeepBuilding(rope, bytes, values, merged, more);
  }

  function NonEmpty<V, T>(pieces: seq<List<V, T>>): (kept: seq<List<V, T>>)
    ensures forall i :: 0 <= i < |kept| ==> !kept[i].Empty? && kept[i] in pieces
  {
    if pieces == [] then []
    else
      var kept := NonEmpty(pieces[..|pieces| - 1]);
      if pieces[|pieces| - 1].Empty? then kept else kept + [pieces[|pieces| - 1]]
  }

  lemma {:induction false} NonEmptyItems<V, T>(pieces: seq<List<V, T>>)
    ensures ItemsOf(NonEmpty(pieces)) == ItemsOf(pieces)
  {
    if pieces != [] {
      NonEmptyItems(pieces[..|pieces| - 1]);
      var kept := NonEmpty(pieces[..|pieces| - 1]);
      assert (kept + [pieces[|pieces| - 1]])[..|kept|] == kept;
    }
  }

  /** One turn of the joining loop: the new rope and runs after one more piece. */
  method AddPiece<V, T>(rope: seq<Chunk<V>>, byteRun: seq<byte>, valueRun: seq<V>, piece: List<V, T>,
                        ghost merged: bool)
    returns (rope': seq<Chunk<V>>, byteRun': seq<byte>, valueRun': seq<V>)
    requires Building(rope, byteRun, valueRun, merged)
    requires StrictPiece(piece) && !piece.Empty? && (merged ==> !piece.Finger?)
    ensures Building(rope', byteRun', valueRun', merged)
    ensures RopeItems(Flushed(rope', byteRun', valueRun'))
            == RopeItems(Flushed(rope, byteRun, valueRun)) + Items(piece)
  {
    match piece
    case Bytes(bytes) =>
      if |bytes| < ROPE_RUN_ITEMS {
        AddShortBytes(rope, byteRun, valueRun, merged, bytes);
        ShortBytesItems<V, T>(rope, byteRun, valueRun, bytes);
        rope', valueRun' := FlushValues(rope, valueRun), [];
        byteRun' := byteRun + bytes;
        if |byteRun'| >= ROPE_RUN_ITEMS {
          rope', byteRun' := FlushBytes(rope', byteRun'), [];
        }
      } else {
        AddChunks<V, T>(rope, byteRun, valueRun, merged, [ByteChunk(bytes)]);
        RopeItemsOne<V, T>(ByteChunk(bytes));
        rope', byteRun', valueRun' := Flushed(rope, byteRun, valueRun) + [ByteChunk(bytes)], [], [];
      }
    case Values(values) =>
      if |values| < ROPE_RUN_ITEMS {
        AddShortValues(rope, byteRun, valueRun, merged, values);
        ShortValuesItems<V, T>(rope, byteRun, valueRun, values);
        rope', byteRun' := FlushBytes(rope, byteRun), [];
        valueRun' := valueRun + values;
        if |valueRun'| >= ROPE_RUN_ITEMS {
          rope', valueRun' := FlushValues(rope', valueRun'), [];
        }
      } else {
        AddChunks<V, T>(rope, byteRun, valueRun, merged, [ValueChunk(values)]);
        RopeItemsOne<V, T>(ValueChunk(values));
        rope', byteRun', valueRun' := Flushed(rope, byteRun, valueRun) + [ValueChunk(values)], [], [];
      }
    case Finger(chunks) =>
      AddChunks<V, T>(rope, byteRun, valueRun, merged, chunks);
      rope', byteRun', valueRun' := Flushed(rope, byteRun, valueRun) + chunks, [], [];
  }

  /** The joining loop, both runs flushed at its end. */
  method BuildRope<V, T>(pieces: seq<List<V, T>>) returns (rope: seq<Chunk<V>>)
    requires forall i :: 0 <= i < |pieces| ==> StrictPiece(pieces[i]) && !pieces[i].Empty?
    ensures ValidRope(rope) && RopeItems<V, T>(rope) == ItemsOf(pieces)
    ensures (forall i :: 0 <= i < |pieces| ==> !pieces[i].Finger?) ==> Merged(rope)
  {
    ghost var merged := forall i :: 0 <= i < |pieces| ==> !pieces[i].Finger?;
    var byteRun: seq<byte>, valueRun: seq<V>;
    rope, byteRun, valueRun := [], [], [];
    for i := 0 to |pieces|
      invariant Building(rope, byteRun, valueRun, merged)
      invariant RopeItems(Flushed(rope, byteRun, valueRun)) == ItemsOf(pieces[..i])
    {
      ItemsOfNext(pieces, i);
      rope, byteRun, valueRun := AddPiece(rope, byteRun, valueRun, pieces[i], merged);
    }
    assert pieces[..|pieces|] == pieces;
    FlushedValid(rope, byteRun, valueRun);
    rope := FlushBytes(rope, byteRun);
    rope := FlushValues(rope, valueRun);
  }

  lemma OneItems<V, T>(lists: seq<List<V, T>>)
    requires |lists| <= 1
    ensures ItemsOf(lists) == if |lists| == 0 then [] else Items(lists[0])
  {
    if |lists| == 1 {
      assert lists[..0] == [];
    }
  }

  /** Joins strict pieces in order. One piece comes back as it is; several become a
      rope that shares long pieces and copies runs of short ones into one chunk. */
  method JoinStrictPieces<V, T>(pieces: seq<List<V, T>>) returns (joined: List<V, T>)
    requires forall i :: 0 <= i < |pieces| ==> StrictPiece(pieces[i])
    ensures Items(joined) == ItemsOf(pieces)
    ensures StrictPiece(joined)
    ensures (forall i :: 0 <= i < |pieces| ==> !pieces[i].Finger?) && joined.Finger? ==>
              Merged(joined.chunks) && |joined.chunks| > 1
  {
    var kept := NonEmpty(pieces);
    NonEmptyItems(pieces);
    if |kept| <= 1 {
      OneItems(kept);
      return if |kept| == 0 then Empty else kept[0];
    }
    var rope := BuildRope(kept);
    if |rope| == 1 {
      RopeItemsOne<V, T>(rope[0]);
      match rope[0]
      case ByteChunk(bytes) => joined := FromBytes(bytes);
      case ValueChunk(values) => joined := FromValues(values);
    } else {
      joined := FromFinger(rope);
    }
  }
}
