/** Reading a value's key through the list visitor, and comparing two values with
    the list cursors and the dictionary iterators. */
module CoreAccess {
  import opened Basics
  import opened ListCore
  import opened ListCompare
  import opened CoreValue
  import opened Numbers
  import opened CoreKey

  function Both<X>(front: Option<seq<X>>, back: Option<seq<X>>): Option<seq<X>> {
    match (front, back)
    case (Some(a), Some(b)) => Some(a + b)
    case _ => None
  }

  lemma BothAssociative<X>(a: Option<seq<X>>, b: Option<seq<X>>, c: Option<seq<X>>)
    ensures Both(a, Both(b, c)) == Both(Both(a, b), c)
    ensures Both(Some([]), c) == c == Both(c, Some([]))
  {
    if a.Some? && b.Some? && c.Some? {
      Associative(a.value, b.value, c.value);
    }
    if c.Some? {
      assert [] + c.value == c.value == c.value + [];
    }
  }

  lemma {:induction false} KeysSplit(a: ItemSeq, b: ItemSeq)
    ensures KeysFromItems(a + b) == Both(KeysFromItems(a), KeysFromItems(b))
  {
    if |a| == 0 {
      assert a + b == b;
      BothAssociative(KeysFromItems(b), KeysFromItems(b), KeysFromItems(b));
    } else {
      KeysSplit(a[1..], b);
      assert (a + b)[1..] == a[1..] + b;
      var head := KeyFromItem(a[0]);
      if head.Some? {
        BothAssociative(Some([head.value]), KeysFromItems(a[1..]), KeysFromItems(b));
      }
    }
  }

  lemma {:induction false} WellFormedSplit(a: ItemSeq, b: ItemSeq, lt: KeyOrder)
    ensures WellFormedItems(a + b, lt) <==> WellFormedItems(a, lt) && WellFormedItems(b, lt)
  {
    if |a| == 0 {
      assert a + b == b;
    } else {
      WellFormedSplit(a[1..], b, lt);
      assert (a + b)[1..] == a[1..] + b;
    }
  }

  function ByteKeys(bytes: seq<byte>): (keys: seq<Key>)
    ensures KeysFromItems(ByteItems(bytes)) == Some(keys)
  {
    if bytes == [] then [] else
      assert ByteItems<GlamValue, Deferred>(bytes)[1..] == ByteItems(bytes[1..]);
      [NumberKey(FromByte(bytes[0]))] + ByteKeys(bytes[1..])
  }

  lemma ItemAt(items: ItemSeq, j: nat, lt: KeyOrder)
    requires j < |items| && items[j].Value? && WellFormedItems(items, lt)
    ensures WellFormed(items[j].value, lt)
    ensures Size(items[j].value) <= ItemsSize(items)
  {
    if j > 0 {
      ItemAt(items[1..], j - 1, lt);
    }
  }

  /** The keys one visited part adds. */
  method PartKeys(part: Part<GlamValue, Deferred>, ghost lt: KeyOrder) returns (keys: Option<seq<Key>>)
    requires WellFormedItems(part.Items(), lt)
    ensures keys == KeysFromItems(part.Items())
    decreases ItemsSize(part.Items()), 1
  {
    match part
    case BytesPart(bytes) =>
      return Some(ByteKeys(bytes));
    case ThunkPart(_) =>
      return None;
    case ValuesPart(values) =>
      ghost var items: ItemSeq := part.Items();
      var found: seq<Key> := [];
      BothAssociative(Some(found), Some(found), KeysFromItems(items));
      assert items[0..] == items;
      for j := 0 to |values|
        invariant KeysFromItems(items) == Both(Some(found), KeysFromItems(items[j..]))
      {
        ItemAt(items, j, lt);
        var key := ReadKey(values[j], lt);
        assert items[j..][0] == Value(values[j]) && items[j..][1..] == items[j + 1..];
        if key == None {
          return None;
        }
        BothAssociative(Some(found), Some([key.value]), KeysFromItems(items[j + 1..]));
        found := found + [key.value];
      }
      assert items[|values|..] == [];
      BothAssociative(Some(found), Some([]), Some(found));
      keys := Some(found);
  }

  lemma PartsStep(parts: seq<Part<GlamValue, Deferred>>, p: nat)
    requires p < |parts|
    ensures PartsItems(parts[p..]) == parts[p].Items() + PartsItems(parts[p + 1..])
  {
    assert parts[p..][1..] == parts[p + 1..];
  }

  lemma KeyedStep(here: ItemSeq, rest: ItemSeq, lt: KeyOrder)
    requires WellFormedItems(here + rest, lt)
    ensures WellFormedItems(here, lt) && WellFormedItems(rest, lt)
    ensures ItemsSize(here + rest) == ItemsSize(here) + ItemsSize(rest)
    ensures KeysFromItems(here + rest) == Both(KeysFromItems(here), KeysFromItems(rest))
  {
    WellFormedSplit(here, rest, lt);
    ItemsSizeSplit(here, rest);
    KeysSplit(here, rest);
  }

  /** Visits the parts of a list in order, stopping the key at the first unkeyable item. */
  method ListKeys(list: List<GlamValue, Deferred>, ghost lt: KeyOrder) returns (keys: Option<seq<Key>>)
    requires Valid(list) && WellFormedItems(Items(list), lt)
    ensures keys == KeysFromItems(Items(list))
    decreases ItemsSize(Items(list)), 2
  {
    var parts, _ := LogicalParts(list);
    var found: seq<Key> := [];
    assert parts[0..] == parts;
    BothAssociative(Some(found), Some(found), KeysFromItems(Items(list)));
    for p := 0 to |parts|
      invariant KeysFromItems(Items(list)) == Both(Some(found), KeysFromItems(PartsItems(parts[p..])))
      invariant WellFormedItems(PartsItems(parts[p..]), lt)
      invariant ItemsSize(PartsItems(parts[p..])) <= ItemsSize(Items(list))
    {
      ghost var here, rest := parts[p].Items(), PartsItems(parts[p + 1..]);
      PartsStep(parts, p);
      KeyedStep(here, rest, lt);
      var added := PartKeys(parts[p], lt);
      if added == None {
        return None;
      }
      BothAssociative(Some(found), added, KeysFromItems(rest));
      found := found + added.value;
    }
    assert parts[|parts|..] == [];
    BothAssociative(Some(found), Some([]), Some(found));
    keys := Some(found);
  }

  method EntryKeys(entries: seq<(Key, GlamValue)>, ghost lt: KeyOrder) returns (keyed: Option<seq<(Key, Key)>>)
    requires WellFormedEntries(entries, lt)
    ensures keyed == KeysFromEntries(entries)
    decreases EntriesSize(entries), 2 + |entries|
  {
    if |entries| == 0 {
      return Some([]);
    }
    EntriesSizeHead(entries);
    var key := ReadKey(entries[0].1, lt);
    if key == None {
      return None;
    }
    var rest := EntryKeys(entries[1..], lt);
    keyed := if rest == None then None else Some([(entries[0].0, key.value)] + rest.value);
  }

  method ReadKey(value: GlamValue, ghost lt: KeyOrder) returns (key: Option<Key>)
    requires WellFormed(value, lt)
    ensures key == KeyFromValue(value)
    decreases Size(value), 0
  {
    match value
    case AtomValue(k) => return Some(AtomKey(k));
    case NumberValue(number) => return Some(NumberKey(number));
    case BinaryValue(bytes) => return Some(BinaryKey(bytes));
    case ListValue(list) =>
      FlatSize(list);
      var keys := ListKeys(list, lt);
      return if keys == None then None else Some(ListKey(keys.value));
    case DictValue(entries) =>
      var keyed := EntryKeys(entries, lt);
      return if keyed == None then None else Some(DictKey(keyed.value));
    case _ => return None;
  }

  // ---- Comparison ----

  lemma {:induction false} SameItemsAgree(left: ItemSeq, right: ItemSeq)
    ensures SameItems(left, right) <==> Agree(left, right, SameItem)
  {
    if |left| == |right| && |left| > 0 {
      SameItemsAgree(left[1..], right[1..]);
      assert forall i :: 0 <= i < |left[1..]| ==> left[1..][i] == left[i + 1] && right[1..][i] == right[i + 1];
      assert forall i :: 0 < i < |left| ==> left[i] == left[1..][i - 1] && right[i] == right[1..][i - 1];
    }
  }

  lemma EntriesSizeTail(entries: seq<(Key, GlamValue)>, i: nat)
    requires i <= |entries|
    ensures EntriesSize(entries[i..]) <= EntriesSize(entries)
    ensures i < |entries| ==> Size(entries[i].1) <= EntriesSize(entries)
  {
    if i == 0 {
      assert entries[0..] == entries;
      if |entries| > 0 {
        EntriesSizeHead(entries);
      }
    } else {
      EntriesSizeTail(entries[1..], i - 1);
      assert entries[1..][i - 1..] == entries[i..];
    }
  }

  /** Walks both dictionaries in key order. */
  method SameDicts(left: seq<(Key, GlamValue)>, right: seq<(Key, GlamValue)>, ghost lt: KeyOrder)
    returns (answer: bool)
    requires WellFormedEntries(left, lt) && WellFormedEntries(right, lt)
    ensures answer <==> SameEntries(left, right)
    decreases EntriesSize(left), 1
  {
    var i := 0;
    assert left[0..] == left && right[0..] == right;
    while i < |left| && i < |right|
      invariant i <= |left| && i <= |right|
      invariant WellFormedEntries(left[i..], lt) && WellFormedEntries(right[i..], lt)
      invariant SameEntries(left, right) <==> SameEntries(left[i..], right[i..])
    {
      EntriesSizeTail(left, i);
      assert left[i..][1..] == left[i + 1..] && right[i..][1..] == right[i + 1..];
      if left[i].0 != right[i].0 {
        return false;
      }
      var same := SameRepresentation(left[i].1, right[i].1, lt);
      if !same {
        return false;
      }
      i := i + 1;
    }
    answer := i == |left| && i == |right|;
  }

  method SameArguments(left: seq<GlamValue>, right: seq<GlamValue>, ghost lt: KeyOrder) returns (answer: bool)
    requires WellFormedItems(ValueItems(left), lt) && WellFormedItems(ValueItems(right), lt)
    ensures answer <==> SameItems(ValueItems(left), ValueItems(right))
    decreases ValuesSize(left), 1
  {
    ghost var l: ItemSeq, r: ItemSeq := ValueItems(left), ValueItems(right);
    ValueItemsSize(left);
    SameItemsAgree(l, r);
    if |left| != |right| {
      return false;
    }
    for i := 0 to |left|
      invariant forall j :: 0 <= j < i ==> SameItem(l[j], r[j])
    {
      ItemAt(l, i, lt);
      ItemAt(r, i, lt);
      var same := SameRepresentation(left[i], right[i], lt);
      if !same {
        assert !SameItem(l[i], r[i]);
        return false;
      }
    }
    answer := true;
  }

  /** Compares two items, descending into values. */
  method SameListItem(left: Item<GlamValue, Deferred>, right: Item<GlamValue, Deferred>, ghost lt: KeyOrder)
    returns (answer: bool)
    requires left.Value? ==> WellFormed(left.value, lt)
    requires right.Value? ==> WellFormed(right.value, lt)
    ensures answer <==> SameItem(left, right)
    decreases ItemSize(left), 1
  {
    match (left, right)
    case (Byte(a), Byte(b)) => return a == b;
    case (Value(a), Value(b)) => answer := SameRepresentation(a, b, lt);
    case (Hole(a), Hole(b)) => return a == b;
    case _ => return false;
  }

  /** Every value among the items is well formed and no larger than `size`. */
  ghost predicate Fits(items: ItemSeq, lt: KeyOrder, size: nat) {
    forall i :: 0 <= i < |items| ==>
      ItemSize(items[i]) <= size && (items[i].Value? ==> WellFormed(items[i].value, lt))
  }

  lemma ItemsFit(items: ItemSeq, lt: KeyOrder)
    requires WellFormedItems(items, lt)
    ensures Fits(items, lt, ItemsSize(items))
  {
    forall i | 0 <= i < |items|
      ensures ItemSize(items[i]) <= ItemsSize(items) && (items[i].Value? ==> WellFormed(items[i].value, lt))
    {
      if items[i].Value? {
        ItemAt(items, i, lt);
      }
    }
  }

  /** Compares the items two cursors stand at and passes them when they agree. */
  method SameCurrent(l: ItemCursor<GlamValue, Deferred>, r: ItemCursor<GlamValue, Deferred>,
                     ghost a: ItemSeq, ghost b: ItemSeq, ghost done: nat,
                     ghost lt: KeyOrder, ghost size: nat, ghost other: nat)
    returns (same: bool)
    requires l != r && l.Valid() && r.Valid() && done < |a| && done < |b|
    requires Reached(a, done, l.Remaining()) && Reached(b, done, r.Remaining())
    requires Fits(a, lt, size) && Fits(b, lt, other)
    modifies l, r
    ensures same <==> SameItem(a[done], b[done])
    ensures l.Valid() && r.Valid()
    ensures same ==> Reached(a, done + 1, l.Remaining()) && Reached(b, done + 1, r.Remaining())
    decreases size, 2
  {
    CursorHead(a, done, l.Remaining());
    CursorHead(b, done, r.Remaining());
    same := SameListItem(l.Current().value, r.Current().value, lt);
    if same {
      AdvanceBoth(l, r);
    }
  }

  /** Walks two lists item by item, descending into values. */
  method SameCursors(l: ItemCursor<GlamValue, Deferred>, r: ItemCursor<GlamValue, Deferred>,
                     ghost a: ItemSeq, ghost b: ItemSeq, ghost lt: KeyOrder, ghost size: nat, ghost other: nat)
    returns (answer: bool)
    requires l != r && l.Valid() && r.Valid()
    requires Reached(a, 0, l.Remaining()) && Reached(b, 0, r.Remaining())
    requires Fits(a, lt, size) && Fits(b, lt, other)
    modifies l, r
    ensures answer <==> Agree(a, b, SameItem)
    decreases size, 3
  {
    ghost var done := 0;
    while true
      invariant l.Valid() && r.Valid()
      invariant Reached(a, done, l.Remaining()) && Reached(b, done, r.Remaining())
      invariant AgreeUpTo(a, b, done, SameItem)
      decreases |a| - done
    {
      CursorHead(a, done, l.Remaining());
      CursorHead(b, done, r.Remaining());
      var leftEnds, rightEnds := l.Current().None?, r.Current().None?;
      if leftEnds || rightEnds {
        AgreeEnd(a, b, done, SameItem);
        return leftEnds && rightEnds;
      }
      AgreeStep(a, b, done, SameItem);
      var same := SameCurrent(l, r, a, b, done, lt, size, other);
      if !same {
        return false;
      }
      done := done + 1;
    }
  }

  /** Whether two list handles share one node is not determined by their values, so it
      is any choice that implies the lists are equal. */
  method SameLists(left: List<GlamValue, Deferred>, right: List<GlamValue, Deferred>, ghost lt: KeyOrder)
    returns (answer: bool)
    requires Valid(left) && Valid(right)
    requires WellFormedItems(Items(left), lt) && WellFormedItems(Items(right), lt)
    ensures answer <==> SameItems(Items(left), Items(right))
    decreases ItemsSize(Items(left)), 4
  {
    var sharedNode: bool :| sharedNode ==> left == right;
    if sharedNode {
      SameItemsIffForms(Items(left), Items(left));
      return true;
    }
    var l := CursorOver(left);
    var r := CursorOver(right);
    ItemsFit(Items(left), lt);
    ItemsFit(Items(right), lt);
    answer := SameCursors(l, r, Items(left), Items(right), lt, ItemsSize(Items(left)), ItemsSize(Items(right)));
    SameItemsAgree(Items(left), Items(right));
  }

  method SameRepresentation(left: GlamValue, right: GlamValue, ghost lt: KeyOrder) returns (answer: bool)
    requires WellFormed(left, lt) && WellFormed(right, lt)
    ensures answer <==> Same(left, right)
    decreases Size(left), 0
  {
    if left.ListValue? && right.ListValue? {
      FlatSize(left.list);
      answer := SameLists(left.list, right.list, lt);
    } else if left.DictValue? && right.DictValue? {
      answer := SameDicts(left.entries, right.entries, lt);
    } else if left.PartialValue? && right.PartialValue? {
      answer := SameArguments(left.arguments, right.arguments, lt);
      answer := left.builtin == right.builtin && answer;
    } else {
      answer := left == right;
    }
  }
}
