/** Values, keys, and the comparison of retained representations. */
module CoreValue {
  import opened Basics
  import opened ListCore
  import opened Numbers

  /** An atom is interned tagged data: its identity is its key. */
  datatype Key =
    | AtomKey(key: Key)
    | NumberKey(number: Number)
    | BinaryKey(bytes: seq<byte>)
    | GlobalPathKey(parts: seq<string>)
    | ListKey(items: seq<Key>)
    | DictKey(entries: seq<(Key, Key)>)

  /** A deferred list edge, compared by its managed allocation. */
  datatype Deferred = LazyEdge(allocation: nat) | PromisedEdge(allocation: nat)

  /** A dictionary is the sequence its tree map iterates, in key order. Managed and
      host-owned values carry only the identity they are compared by. */
  datatype GlamValue =
    | AtomValue(key: Key)
    | NumberValue(number: Number)
    | BinaryValue(bytes: seq<byte>)
    | ListValue(list: List<GlamValue, Deferred>)
    | DictValue(entries: seq<(Key, GlamValue)>)
    | BuiltinValue(builtin: nat)
    | PartialValue(builtin: nat, arguments: seq<GlamValue>)
    | FunctionValue(stage: nat, remainingArity: nat)
    | NetValue(net: nat)
    | LazyValue(allocation: nat)
    | PromisedValue(allocation: nat)
    | MetadataValue(metadata: nat)
    | OpaqueValue(owner: nat)
    | VolumeValue(volume: nat)
    | ResolverValue(breaker: nat)

  type ItemSeq = seq<Item<GlamValue, Deferred>>

  // ---- Sizes ----

  ghost function Size(v: GlamValue): nat {
    match v
    case ListValue(list) => 1 + ListSize(list)
    case DictValue(entries) => 1 + EntriesSize(entries)
    case PartialValue(_, arguments) => 1 + ValuesSize(arguments)
    case _ => 1
  }

  ghost function ListSize(list: List<GlamValue, Deferred>): nat {
    match list
    case Values(values) => ValuesSize(values)
    case Concat(left, right) => ListSize(left) + ListSize(right)
    case Finger(chunks) => ChunksSize(chunks)
    case _ => 0
  }

  ghost function ChunksSize(chunks: seq<Chunk<GlamValue>>): nat {
    if |chunks| == 0 then 0 else ChunkSize(chunks[0]) + ChunksSize(chunks[1..])
  }

  ghost function ChunkSize(chunk: Chunk<GlamValue>): nat {
    if chunk.ValueChunk? then ValuesSize(chunk.values) else 0
  }

  ghost function ValuesSize(values: seq<GlamValue>): nat {
    if |values| == 0 then 0 else Size(values[0]) + ValuesSize(values[1..])
  }

  ghost function EntrySize(entry: (Key, GlamValue)): nat {
    Size(entry.1)
  }

  ghost function EntriesSize(entries: seq<(Key, GlamValue)>): nat {
    if |entries| == 0 then 0 else EntrySize(entries[0]) + EntriesSize(entries[1..])
  }

  ghost function ItemSize(item: Item<GlamValue, Deferred>): nat {
    if item.Value? then Size(item.value) else 0
  }

  ghost function ItemsSize(items: ItemSeq): nat {
    if |items| == 0 then 0 else ItemSize(items[0]) + ItemsSize(items[1..])
  }

  lemma EntriesSizeHead(entries: seq<(Key, GlamValue)>)
    requires |entries| > 0
    ensures Size(entries[0].1) <= EntriesSize(entries)
  {
    assert EntriesSize(entries) == EntrySize(entries[0]) + EntriesSize(entries[1..]);
  }

  lemma {:induction false} ItemsSizeSplit(a: ItemSeq, b: ItemSeq)
    ensures ItemsSize(a + b) == ItemsSize(a) + ItemsSize(b)
  {
    if |a| == 0 {
      assert a + b == b;
    } else {
      ItemsSizeSplit(a[1..], b);
      assert (a + b)[1..] == a[1..] + b;
    }
  }

  lemma {:induction false} ByteItemsSize(bytes: seq<byte>)
    ensures ItemsSize(ByteItems(bytes)) == 0
  {
    if bytes != [] {
      ByteItemsSize(bytes[1..]);
      assert ByteItems<GlamValue, Deferred>(bytes)[1..] == ByteItems(bytes[1..]);
    }
  }

  lemma {:induction false} ValueItemsSize(values: seq<GlamValue>)
    ensures ItemsSize(ValueItems(values)) == ValuesSize(values)
  {
    if |values| != 0 {
      ValueItemsSize(values[1..]);
      assert ValueItems<GlamValue, Deferred>(values)[1..] == ValueItems(values[1..]);
    }
  }

  lemma {:induction false} RopeItemsSize(chunks: seq<Chunk<GlamValue>>)
    ensures ItemsSize(RopeItems(chunks)) == ChunksSize(chunks)
  {
    if |chunks| != 0 {
      RopeItemsSize(chunks[1..]);
      ItemsSizeSplit(ChunkItems(chunks[0]), RopeItems(chunks[1..]));
      match chunks[0]
      case ByteChunk(bytes) => ByteItemsSize(bytes);
      case ValueChunk(values) => ValueItemsSize(values);
    }
  }

  /** A list's flat items hold exactly the values its nodes hold. */
  lemma {:induction false} FlatSize(list: List<GlamValue, Deferred>)
    ensures ItemsSize(Items(list)) == ListSize(list)
  {
    match list
    case Empty =>
    case Bytes(bytes) => ByteItemsSize(bytes);
    case Values(values) => ValueItemsSize(values);
    case Concat(left, right) =>
      FlatSize(left);
      FlatSize(right);
      ItemsSizeSplit(Items(left), Items(right));
    case Finger(chunks) => RopeItemsSize(chunks);
    case Thunk(_) =>
  }

  // ---- Comparison ----

  /** Compares retained representations without evaluating anything. */
  predicate Same(left: GlamValue, right: GlamValue)
    decreases Size(left), 0
  {
    match (left, right)
    case (AtomValue(a), AtomValue(b)) => a == b
    case (NumberValue(a), NumberValue(b)) => a == b
    case (BinaryValue(a), BinaryValue(b)) => a == b
    case (ListValue(a), ListValue(b)) =>
      FlatSize(a);
      SameItems(Items(a), Items(b))
    case (DictValue(a), DictValue(b)) => SameEntries(a, b)
    case (BuiltinValue(a), BuiltinValue(b)) => a == b
    case (PartialValue(f, a), PartialValue(g, b)) =>
      ValueItemsSize(a);
      f == g && SameItems(ValueItems(a), ValueItems(b))
    case (FunctionValue(s, m), FunctionValue(t, n)) => m == n && s == t
    case (NetValue(a), NetValue(b)) => a == b
    case (LazyValue(a), LazyValue(b)) => a == b
    case (PromisedValue(a), PromisedValue(b)) => a == b
    case (MetadataValue(a), MetadataValue(b)) => a == b
    case (OpaqueValue(a), OpaqueValue(b)) => a == b
    case (VolumeValue(a), VolumeValue(b)) => a == b
    case (ResolverValue(a), ResolverValue(b)) => a == b
    case _ => false
  }

  /** A byte and a number value differ here, whatever keys they have. */
  predicate SameItem(left: Item<GlamValue, Deferred>, right: Item<GlamValue, Deferred>)
    decreases ItemSize(left), 1
  {
    match (left, right)
    case (Byte(a), Byte(b)) => a == b
    case (Value(a), Value(b)) => Same(a, b)
    case (Hole(a), Hole(b)) => a == b
    case _ => false
  }

  predicate SameItems(left: ItemSeq, right: ItemSeq)
    decreases ItemsSize(left), 2 + |left|
  {
    |left| == |right| && (|left| == 0 || (SameItem(left[0], right[0]) && SameItems(left[1..], right[1..])))
  }

  predicate SameEntries(left: seq<(Key, GlamValue)>, right: seq<(Key, GlamValue)>)
    decreases EntriesSize(left), 2 + |left|
  {
    |left| == |right| && (|left| == 0 ||
      (EntriesSizeHead(left); left[0].0 == right[0].0 && Same(left[0].1, right[0].1) && SameEntries(left[1..], right[1..])))
  }

  // ---- The segmentation-free form of a value ----

  datatype Form =
    | LeafForm(value: GlamValue)
    | ListForm(items: seq<Item<Form, Deferred>>)
    | DictForm(entries: seq<(Key, Form)>)
    | PartialForm(builtin: nat, arguments: seq<Item<Form, Deferred>>)

  function FormOf(v: GlamValue): Form
    decreases Size(v), 0
  {
    match v
    case ListValue(list) =>
      FlatSize(list);
      ListForm(FormItems(Items(list)))
    case DictValue(entries) => DictForm(FormEntries(entries))
    case PartialValue(builtin, arguments) =>
      ValueItemsSize(arguments);
      PartialForm(builtin, FormItems(ValueItems(arguments)))
    case _ => LeafForm(v)
  }

  function FormItem(item: Item<GlamValue, Deferred>): Item<Form, Deferred>
    decreases ItemSize(item), 1
  {
    match item
    case Byte(b) => Byte(b)
    case Value(v) => Value(FormOf(v))
    case Hole(thunk) => Hole(thunk)
  }

  function FormItems(items: ItemSeq): (forms: seq<Item<Form, Deferred>>)
    ensures |forms| == |items|
    decreases ItemsSize(items), 2 + |items|
  {
    if |items| == 0 then [] else [FormItem(items[0])] + FormItems(items[1..])
  }

  function FormEntries(entries: seq<(Key, GlamValue)>): (forms: seq<(Key, Form)>)
    ensures |forms| == |entries|
    decreases EntriesSize(entries), 2 + |entries|
  {
    if |entries| == 0 then [] else
      EntriesSizeHead(entries);
      [(entries[0].0, FormOf(entries[0].1))] + FormEntries(entries[1..])
  }

  /** Two values compare equal exactly when their segmentation-free forms are equal. */
  lemma {:induction false} SameIffForm(left: GlamValue, right: GlamValue)
    ensures Same(left, right) <==> FormOf(left) == FormOf(right)
    decreases Size(left), 0
  {
    match (left, right)
    case (ListValue(a), ListValue(b)) =>
      FlatSize(a);
      SameItemsIffForms(Items(a), Items(b));
    case (DictValue(a), DictValue(b)) => SameEntriesIffForms(a, b);
    case (PartialValue(_, a), PartialValue(_, b)) =>
      ValueItemsSize(a);
      SameItemsIffForms(ValueItems(a), ValueItems(b));
    case _ =>
  }

  lemma {:induction false} SameItemsIffForms(left: ItemSeq, right: ItemSeq)
    ensures SameItems(left, right) <==> FormItems(left) == FormItems(right)
    decreases ItemsSize(left), 2 + |left|
  {
    if |left| == |right| && |left| > 0 {
      if left[0].Value? && right[0].Value? {
        SameIffForm(left[0].value, right[0].value);
      }
      SameItemsIffForms(left[1..], right[1..]);
      ConsEqual(FormItem(left[0]), FormItems(left[1..]), FormItem(right[0]), FormItems(right[1..]));
    }
  }

  lemma {:induction false} SameEntriesIffForms(left: seq<(Key, GlamValue)>, right: seq<(Key, GlamValue)>)
    ensures SameEntries(left, right) <==> FormEntries(left) == FormEntries(right)
    decreases EntriesSize(left), 2 + |left|
  {
    if |left| == |right| && |left| > 0 {
      EntriesSizeHead(left);
      SameIffForm(left[0].1, right[0].1);
      SameEntriesIffForms(left[1..], right[1..]);
      ConsEqual((left[0].0, FormOf(left[0].1)), FormEntries(left[1..]),
                (right[0].0, FormOf(right[0].1)), FormEntries(right[1..]));
    }
  }

  lemma ConsEqual<X>(a: X, rest: seq<X>, b: X, others: seq<X>)
    ensures [a] + rest == [b] + others <==> a == b && rest == others
  {
    if [a] + rest == [b] + others {
      assert a == ([a] + rest)[0] == b;
      assert rest == ([a] + rest)[1..] == others;
    }
  }

  /** Comparison is an equivalence relation. */
  lemma SameIsEquivalence(a: GlamValue, b: GlamValue, c: GlamValue)
    ensures Same(a, a)
    ensures Same(a, b) ==> Same(b, a)
    ensures Same(a, b) && Same(b, c) ==> Same(a, c)
  {
    SameIffForm(a, a);
    SameIffForm(a, b);
    SameIffForm(b, a);
    SameIffForm(b, c);
    SameIffForm(a, c);
  }

  // ---- Keys of values ----

  /** The key of currently available data; deferred, callable and sealed values have none. */
  function KeyFromValue(v: GlamValue): Option<Key>
    decreases Size(v), 0
  {
    match v
    case AtomValue(key) => Some(AtomKey(key))
    case NumberValue(number) => Some(NumberKey(number))
    case BinaryValue(bytes) => Some(BinaryKey(bytes))
    case ListValue(list) =>
      FlatSize(list);
      (match KeysFromItems(Items(list))
       case None => None
       case Some(keys) => Some(ListKey(keys)))
    case DictValue(entries) =>
      (match KeysFromEntries(entries)
       case None => None
       case Some(keyed) => Some(DictKey(keyed)))
    case _ => None
  }

  /** A byte keys as the number it counts. */
  function KeyFromItem(item: Item<GlamValue, Deferred>): Option<Key>
    decreases ItemSize(item), 1
  {
    match item
    case Byte(b) => Some(NumberKey(FromByte(b)))
    case Value(v) => KeyFromValue(v)
    case Hole(_) => None
  }

  function KeysFromItems(items: ItemSeq): Option<seq<Key>>
    decreases ItemsSize(items), 2 + |items|
  {
    if |items| == 0 then Some([])
    else
      match (KeyFromItem(items[0]), KeysFromItems(items[1..]))
      case (Some(key), Some(keys)) => Some([key] + keys)
      case _ => None
  }

  function KeysFromEntries(entries: seq<(Key, GlamValue)>): Option<seq<(Key, Key)>>
    decreases EntriesSize(entries), 2 + |entries|
  {
    if |entries| == 0 then Some([])
    else
      EntriesSizeHead(entries);
      match (KeyFromValue(entries[0].1), KeysFromEntries(entries[1..]))
      case (Some(key), Some(keyed)) => Some([(entries[0].0, key)] + keyed)
      case _ => None
  }

  /** Values that compare equal have the same key, or neither has one. */
  lemma {:induction false} SameKeys(left: GlamValue, right: GlamValue)
    requires Same(left, right)
    ensures KeyFromValue(left) == KeyFromValue(right)
    decreases Size(left), 0
  {
    match (left, right)
    case (ListValue(a), ListValue(b)) =>
      FlatSize(a);
      SameItemsKeys(Items(a), Items(b));
    case (DictValue(a), DictValue(b)) => SameEntriesKeys(a, b);
    case _ =>
  }

  lemma {:induction false} SameItemsKeys(left: ItemSeq, right: ItemSeq)
    requires SameItems(left, right)
    ensures KeysFromItems(left) == KeysFromItems(right)
    decreases ItemsSize(left), 2 + |left|
  {
    if |left| > 0 {
      if left[0].Value? {
        SameKeys(left[0].value, right[0].value);
      }
      SameItemsKeys(left[1..], right[1..]);
    }
  }

  lemma {:induction false} SameEntriesKeys(left: seq<(Key, GlamValue)>, right: seq<(Key, GlamValue)>)
    requires SameEntries(left, right)
    ensures KeysFromEntries(left) == KeysFromEntries(right)
    decreases EntriesSize(left), 2 + |left|
  {
    if |left| > 0 {
      EntriesSizeHead(left);
      SameKeys(left[0].1, right[0].1);
      SameEntriesKeys(left[1..], right[1..]);
    }
  }
}
