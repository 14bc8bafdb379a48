/** Reifying keys as values, and which keys survive being read back. */
module CoreKey {
  import opened Basics
  import opened ListCore
  import opened CoreValue
  import opened Numbers

  /** The order a dictionary's tree map keeps its keys in. */
  type KeyOrder = (Key, Key) -> bool

  ghost predicate StrictOrder(lt: KeyOrder) {
    && (forall a: Key :: !lt(a, a))
    && (forall a: Key, b: Key, c: Key :: lt(a, b) && lt(b, c) ==> lt(a, c))
    && (forall a: Key, b: Key :: a != b ==> lt(a, b) || lt(b, a))
  }

  ghost predicate Sorted<X>(entries: seq<(Key, X)>, lt: KeyOrder) {
    forall i, j :: 0 <= i < j < |entries| ==> lt(entries[i].0, entries[j].0)
  }

  lemma SortedByKeys<X, Y>(a: seq<(Key, X)>, b: seq<(Key, Y)>, lt: KeyOrder)
    requires Sorted(a, lt) && |a| == |b|
    requires forall i :: 0 <= i < |a| ==> b[i].0 == a[i].0
    ensures Sorted(b, lt)
  {
  }

  // ---- Dictionary insertion ----

  function Insert<X>(dict: seq<(Key, X)>, key: Key, value: X, lt: KeyOrder): seq<(Key, X)> {
    if |dict| == 0 then [(key, value)]
    else if dict[0].0 == key then [(key, value)] + dict[1..]
    else if lt(key, dict[0].0) then [(key, value)] + dict
    else [dict[0]] + Insert(dict[1..], key, value, lt)
  }

  lemma {:induction false} InsertedFrom<X>(dict: seq<(Key, X)>, key: Key, value: X, lt: KeyOrder)
    ensures forall i :: 0 <= i < |Insert(dict, key, value, lt)| ==>
              Insert(dict, key, value, lt)[i] == (key, value) || Insert(dict, key, value, lt)[i] in dict
  {
    if |dict| > 0 && dict[0].0 != key && !lt(key, dict[0].0) {
      InsertedFrom(dict[1..], key, value, lt);
    }
  }

  lemma {:induction false} InsertSorted<X>(dict: seq<(Key, X)>, key: Key, value: X, lt: KeyOrder)
    requires StrictOrder(lt) && Sorted(dict, lt)
    ensures Sorted(Insert(dict, key, value, lt), lt)
  {
    if |dict| > 0 && dict[0].0 != key && !lt(key, dict[0].0) {
      InsertSorted(dict[1..], key, value, lt);
      InsertedFrom(dict[1..], key, value, lt);
      var rest := Insert(dict[1..], key, value, lt);
      forall i | 0 <= i < |rest|
        ensures lt(dict[0].0, rest[i].0)
      {
        if rest[i] != (key, value) {
          assert rest[i] in dict[1..];
        }
      }
    } else if |dict| > 0 && dict[0].0 != key {
      forall i | 0 <= i < |dict|
        ensures lt(key, dict[i].0)
      {
      }
    }
  }

  /** Inserting puts the value under its key, in place of what was there, and keeps
      every other entry. */
  lemma {:induction false} InsertExact<X>(dict: seq<(Key, X)>, key: Key, value: X, lt: KeyOrder, entry: (Key, X))
    requires StrictOrder(lt) && Sorted(dict, lt)
    ensures entry in Insert(dict, key, value, lt) <==>
            entry == (key, value) || (entry.0 != key && entry in dict)
  {
    if |dict| > 0 {
      assert entry in dict <==> entry == dict[0] || entry in dict[1..];
      if dict[0].0 == key {
        assert forall i :: 0 < i < |dict| ==> lt(key, dict[i].0);
      } else if lt(key, dict[0].0) {
        assert forall i :: 0 <= i < |dict| ==> lt(key, dict[i].0);
      } else {
        InsertExact(dict[1..], key, value, lt, entry);
      }
    }
  }

  lemma {:induction false} InsertLast<X>(dict: seq<(Key, X)>, key: Key, value: X, lt: KeyOrder)
    requires StrictOrder(lt)
    requires forall i :: 0 <= i < |dict| ==> lt(dict[i].0, key)
    ensures Insert(dict, key, value, lt) == dict + [(key, value)]
  {
    if |dict| > 0 {
      assert lt(dict[0].0, key);
      InsertLast(dict[1..], key, value, lt);
    }
  }

  // ---- Reification ----

  function ValueFromKey(key: Key, lt: KeyOrder): GlamValue {
    match key
    case AtomKey(k) => AtomValue(k)
    case NumberKey(number) => NumberValue(number)
    case BinaryKey(bytes) => BinaryValue(bytes)
    case GlobalPathKey(parts) => AtomValue(key)
    case ListKey(items) => ListValue(FromValues(ValuesFromKeys(items, lt)))
    case DictKey(entries) => DictValue(InsertAll(entries, lt))
  }

  function ValuesFromKeys(keys: seq<Key>, lt: KeyOrder): seq<GlamValue> {
    if |keys| == 0 then [] else [ValueFromKey(keys[0], lt)] + ValuesFromKeys(keys[1..], lt)
  }

  function EntryValue(entry: (Key, Key), lt: KeyOrder): GlamValue {
    ValueFromKey(entry.1, lt)
  }

  /** Inserts the reified entries one after another into an empty dictionary. */
  function InsertAll(entries: seq<(Key, Key)>, lt: KeyOrder): seq<(Key, GlamValue)> {
    if |entries| == 0 then []
    else
      var last := entries[|entries| - 1];
      Insert(InsertAll(entries[..|entries| - 1], lt), last.0, EntryValue(last, lt), lt)
  }

  function MapEntries(entries: seq<(Key, Key)>, lt: KeyOrder): seq<(Key, GlamValue)> {
    seq(|entries|, i requires 0 <= i < |entries| => (entries[i].0, ValueFromKey(entries[i].1, lt)))
  }

  lemma {:induction false} InsertAllSorted(entries: seq<(Key, Key)>, lt: KeyOrder)
    requires StrictOrder(lt)
    ensures Sorted(InsertAll(entries, lt), lt)
  {
    if |entries| > 0 {
      var init, last := entries[..|entries| - 1], entries[|entries| - 1];
      InsertAllSorted(init, lt);
      InsertSorted(InsertAll(init, lt), last.0, EntryValue(last, lt), lt);
    }
  }

  lemma MapEntriesPush(entries: seq<(Key, Key)>, lt: KeyOrder)
    requires |entries| > 0
    ensures var last := entries[|entries| - 1];
            MapEntries(entries, lt) == MapEntries(entries[..|entries| - 1], lt) + [(last.0, ValueFromKey(last.1, lt))]
  {
  }

  lemma SortedPush<X>(entries: seq<(Key, X)>, lt: KeyOrder)
    requires |entries| > 0 && Sorted(entries, lt)
    ensures Sorted(entries[..|entries| - 1], lt)
    ensures forall i :: 0 <= i < |entries| - 1 ==> lt(entries[i].0, entries[|entries| - 1].0)
  {
  }

  /** Entries already in order are inserted without being moved. */
  lemma {:induction false} InsertAllInOrder(entries: seq<(Key, Key)>, lt: KeyOrder)
    requires StrictOrder(lt) && Sorted(entries, lt)
    ensures InsertAll(entries, lt) == MapEntries(entries, lt)
  {
    if |entries| > 0 {
      var init, last := entries[..|entries| - 1], entries[|entries| - 1];
      SortedPush(entries, lt);
      InsertAllInOrder(init, lt);
      MapEntriesPush(entries, lt);
      InsertLast(MapEntries(init, lt), last.0, ValueFromKey(last.1, lt), lt);
    }
  }

  // ---- Which keys are read back ----

  /** A key some well-formed value has: no bare global path, dictionaries in order. */
  ghost predicate Canonical(key: Key, lt: KeyOrder) {
    match key
    case GlobalPathKey(_) => false
    case ListKey(items) => forall i :: 0 <= i < |items| ==> Canonical(items[i], lt)
    case DictKey(entries) =>
      Sorted(entries, lt) && forall i :: 0 <= i < |entries| ==> CanonicalEntry(entries[i], lt)
    case _ => true
  }

  ghost predicate CanonicalEntry(entry: (Key, Key), lt: KeyOrder) {
    Canonical(entry.1, lt)
  }

  lemma {:induction false} KeysOfItems(items: ItemSeq)
    ensures KeysFromItems(items).Some? <==> forall i :: 0 <= i < |items| ==> KeyFromItem(items[i]).Some?
    ensures KeysFromItems(items).Some? ==>
              var keys := KeysFromItems(items).value;
              |keys| == |items| && forall i :: 0 <= i < |items| ==> KeyFromItem(items[i]) == Some(keys[i])
  {
    if |items| > 0 {
      var rest := items[1..];
      KeysOfItems(rest);
      assert forall i :: 0 <= i < |rest| ==> rest[i] == items[i + 1];
      assert forall i :: 0 < i < |items| ==> items[i] == rest[i - 1];
    }
  }

  lemma {:induction false} KeysOfEntries(entries: seq<(Key, GlamValue)>)
    ensures KeysFromEntries(entries).Some? <==>
            forall i :: 0 <= i < |entries| ==> KeyFromValue(entries[i].1).Some?
    ensures KeysFromEntries(entries).Some? ==>
              var keyed := KeysFromEntries(entries).value;
              |keyed| == |entries| && forall i :: 0 <= i < |entries| ==>
                keyed[i].0 == entries[i].0 && KeyFromValue(entries[i].1) == Some(keyed[i].1)
  {
    if |entries| > 0 {
      var rest := entries[1..];
      KeysOfEntries(rest);
      assert forall i :: 0 <= i < |rest| ==> rest[i] == entries[i + 1];
      assert forall i :: 0 < i < |entries| ==> entries[i] == rest[i - 1];
    }
  }

  lemma {:induction false} ReifiedValues(keys: seq<Key>, lt: KeyOrder)
    ensures |ValuesFromKeys(keys, lt)| == |keys|
    ensures forall i :: 0 <= i < |keys| ==> ValuesFromKeys(keys, lt)[i] == ValueFromKey(keys[i], lt)
  {
    if |keys| > 0 {
      ReifiedValues(keys[1..], lt);
    }
  }

  /** Every inserted value reifies one of the entries. */
  lemma {:induction false} InsertAllFrom(entries: seq<(Key, Key)>, lt: KeyOrder, i: nat)
    requires i < |InsertAll(entries, lt)|
    ensures exists e :: e in entries && InsertAll(entries, lt)[i] == (e.0, ValueFromKey(e.1, lt))
  {
    var init, last := entries[..|entries| - 1], entries[|entries| - 1];
    var dict := InsertAll(init, lt);
    InsertedFrom(dict, last.0, EntryValue(last, lt), lt);
    if InsertAll(entries, lt)[i] == (last.0, EntryValue(last, lt)) {
      assert last in entries;
    } else {
      var j :| 0 <= j < |dict| && dict[j] == InsertAll(entries, lt)[i];
      InsertAllFrom(init, lt, j);
    }
  }

  /** A key is read back from its value exactly when it is canonical; every key's
      value has some key. */
  lemma {:induction false} ReadBack(key: Key, lt: KeyOrder)
    requires StrictOrder(lt)
    ensures KeyFromValue(ValueFromKey(key, lt)).Some?
    ensures KeyFromValue(ValueFromKey(key, lt)) == Some(key) <==> Canonical(key, lt)
  {
    match key
    case ListKey(items) =>
      forall i | 0 <= i < |items|
        ensures KeyFromValue(ValueFromKey(items[i], lt)).Some?
        ensures KeyFromValue(ValueFromKey(items[i], lt)) == Some(items[i]) <==> Canonical(items[i], lt)
      {
        ReadBack(items[i], lt);
      }
      ReadBackItems(items, lt);
    case DictKey(entries) =>
      forall e | e in entries
        ensures KeyFromValue(ValueFromKey(e.1, lt)).Some?
        ensures KeyFromValue(ValueFromKey(e.1, lt)) == Some(e.1) <==> CanonicalEntry(e, lt)
      {
        ReadBackEntry(e, lt);
      }
      ReadBackEntries(entries, lt);
    case _ =>
  }

  lemma {:induction false} ReadBackEntry(entry: (Key, Key), lt: KeyOrder)
    requires StrictOrder(lt)
    ensures KeyFromValue(ValueFromKey(entry.1, lt)).Some?
    ensures KeyFromValue(ValueFromKey(entry.1, lt)) == Some(entry.1) <==> CanonicalEntry(entry, lt)
  {
    ReadBack(entry.1, lt);
  }

  lemma ReadBackItems(items: seq<Key>, lt: KeyOrder)
    requires forall i :: 0 <= i < |items| ==> KeyFromValue(ValueFromKey(items[i], lt)).Some?
    requires forall i :: 0 <= i < |items| ==>
               (KeyFromValue(ValueFromKey(items[i], lt)) == Some(items[i]) <==> Canonical(items[i], lt))
    ensures KeyFromValue(ValueFromKey(ListKey(items), lt)).Some?
    ensures KeyFromValue(ValueFromKey(ListKey(items), lt)) == Some(ListKey(items)) <==> Canonical(ListKey(items), lt)
  {
    var values := ValuesFromKeys(items, lt);
    ReifiedValues(items, lt);
    KeysOfItems(ValueItems(values));
    var flat := ValueItems<GlamValue, Deferred>(values);
    assert forall i :: 0 <= i < |items| ==> KeyFromItem(flat[i]) == KeyFromValue(ValueFromKey(items[i], lt));
    assert Items(FromValues<GlamValue, Deferred>(values)) == flat;
    var keys := KeysFromItems(flat).value;
    if Canonical(ListKey(items), lt) {
      assert keys == items;
    }
  }

  lemma KeyedEntries(entries: seq<(Key, Key)>, keyed: seq<(Key, Key)>, lt: KeyOrder)
    requires |keyed| == |entries|
    requires forall e :: e in entries ==>
               (KeyFromValue(ValueFromKey(e.1, lt)) == Some(e.1) <==> CanonicalEntry(e, lt))
    requires forall i :: 0 <= i < |entries| ==>
               keyed[i].0 == entries[i].0 && KeyFromValue(ValueFromKey(entries[i].1, lt)) == Some(keyed[i].1)
    ensures keyed == entries <==> forall i :: 0 <= i < |entries| ==> CanonicalEntry(entries[i], lt)
  {
    forall i | 0 <= i < |entries|
      ensures keyed[i] == entries[i] <==> CanonicalEntry(entries[i], lt)
    {
      assert entries[i] in entries;
    }
  }

  lemma InsertedKeyed(entries: seq<(Key, Key)>, lt: KeyOrder)
    requires forall e :: e in entries ==> KeyFromValue(ValueFromKey(e.1, lt)).Some?
    ensures KeysFromEntries(InsertAll(entries, lt)).Some?
  {
    var dict := InsertAll(entries, lt);
    forall i | 0 <= i < |dict|
      ensures KeyFromValue(dict[i].1).Some?
    {
      InsertAllFrom(entries, lt, i);
    }
    KeysOfEntries(dict);
  }

  lemma ReadBackSorted(entries: seq<(Key, Key)>, lt: KeyOrder, keyed: seq<(Key, Key)>)
    requires StrictOrder(lt) && Sorted(entries, lt)
    requires forall e :: e in entries ==>
               (KeyFromValue(ValueFromKey(e.1, lt)) == Some(e.1) <==> CanonicalEntry(e, lt))
    requires KeysFromEntries(InsertAll(entries, lt)) == Some(keyed)
    ensures keyed == entries <==> forall i :: 0 <= i < |entries| ==> CanonicalEntry(entries[i], lt)
  {
    InsertAllInOrder(entries, lt);
    KeysOfEntries(MapEntries(entries, lt));
    KeyedEntries(entries, keyed, lt);
  }

  lemma ReadBackUnsorted(entries: seq<(Key, Key)>, lt: KeyOrder, keyed: seq<(Key, Key)>)
    requires StrictOrder(lt) && !Sorted(entries, lt)
    requires KeysFromEntries(InsertAll(entries, lt)) == Some(keyed)
    ensures keyed != entries
  {
    InsertAllSorted(entries, lt);
    KeysOfEntries(InsertAll(entries, lt));
    SortedByKeys(InsertAll(entries, lt), keyed, lt);
  }

  lemma ReadBackEntries(entries: seq<(Key, Key)>, lt: KeyOrder)
    requires StrictOrder(lt)
    requires forall e :: e in entries ==> KeyFromValue(ValueFromKey(e.1, lt)).Some?
    requires forall e :: e in entries ==>
               (KeyFromValue(ValueFromKey(e.1, lt)) == Some(e.1) <==> CanonicalEntry(e, lt))
    ensures KeyFromValue(ValueFromKey(DictKey(entries), lt)).Some?
    ensures KeyFromValue(ValueFromKey(DictKey(entries), lt)) == Some(DictKey(entries)) <==>
            Canonical(DictKey(entries), lt)
  {
    InsertedKeyed(entries, lt);
    var keyed := KeysFromEntries(InsertAll(entries, lt)).value;
    if Sorted(entries, lt) {
      ReadBackSorted(entries, lt, keyed);
    } else {
      ReadBackUnsorted(entries, lt, keyed);
    }
  }

  // ---- Well-formed values ----

  /** Lists keep their representation invariant and dictionaries their key order, at every depth. */
  ghost predicate WellFormed(v: GlamValue, lt: KeyOrder)
    decreases Size(v), 0
  {
    match v
    case ListValue(list) =>
      FlatSize(list);
      Valid(list) && WellFormedItems(Items(list), lt)
    case DictValue(entries) => Sorted(entries, lt) && WellFormedEntries(entries, lt)
    case PartialValue(_, arguments) =>
      ValueItemsSize(arguments);
      WellFormedItems(ValueItems(arguments), lt)
    case _ => true
  }

  ghost predicate WellFormedItems(items: ItemSeq, lt: KeyOrder)
    decreases ItemsSize(items), 2 + |items|
  {
    |items| == 0 || ((items[0].Value? ==> WellFormed(items[0].value, lt)) && WellFormedItems(items[1..], lt))
  }

  ghost predicate WellFormedEntries(entries: seq<(Key, GlamValue)>, lt: KeyOrder)
    decreases EntriesSize(entries), 2 + |entries|
  {
    |entries| == 0 ||
    (EntriesSizeHead(entries); WellFormed(entries[0].1, lt) && WellFormedEntries(entries[1..], lt))
  }

  /** The key of a well-formed value is canonical. */
  lemma {:induction false} KeyIsCanonical(v: GlamValue, lt: KeyOrder)
    requires WellFormed(v, lt) && KeyFromValue(v).Some?
    ensures Canonical(KeyFromValue(v).value, lt)
    decreases Size(v), 0
  {
    match v
    case ListValue(list) =>
      FlatSize(list);
      ItemKeysCanonical(Items(list), lt);
    case DictValue(entries) =>
      EntryKeysCanonical(entries, lt);
      KeysOfEntries(entries);
    case _ =>
  }

  lemma {:induction false} ItemKeysCanonical(items: ItemSeq, lt: KeyOrder)
    requires WellFormedItems(items, lt) && KeysFromItems(items).Some?
    ensures forall i :: 0 <= i < |KeysFromItems(items).value| ==> Canonical(KeysFromItems(items).value[i], lt)
    decreases ItemsSize(items), 2 + |items|
  {
    if |items| > 0 {
      if items[0].Value? {
        KeyIsCanonical(items[0].value, lt);
      }
      ItemKeysCanonical(items[1..], lt);
    }
  }

  lemma {:induction false} EntryKeysCanonical(entries: seq<(Key, GlamValue)>, lt: KeyOrder)
    requires WellFormedEntries(entries, lt) && KeysFromEntries(entries).Some?
    ensures forall i :: 0 <= i < |KeysFromEntries(entries).value| ==>
              CanonicalEntry(KeysFromEntries(entries).value[i], lt)
    decreases EntriesSize(entries), 2 + |entries|
  {
    if |entries| > 0 {
      EntriesSizeHead(entries);
      KeyIsCanonical(entries[0].1, lt);
      EntryKeysCanonical(entries[1..], lt);
    }
  }

  /** Reifying the key of a value and reading it again gives the same key. */
  lemma KeyRoundTrip(v: GlamValue, lt: KeyOrder)
    requires StrictOrder(lt) && WellFormed(v, lt) && KeyFromValue(v).Some?
    ensures KeyFromValue(ValueFromKey(KeyFromValue(v).value, lt)) == KeyFromValue(v)
  {
    KeyIsCanonical(v, lt);
    ReadBack(KeyFromValue(v).value, lt);
  }

  /** A list's items with every packed byte unpacked to a number value. */
  function Unpacked(items: ItemSeq): ItemSeq {
    if |items| == 0 then [] else [UnpackedItem(items[0])] + Unpacked(items[1..])
  }

  function UnpackedItem(item: Item<GlamValue, Deferred>): Item<GlamValue, Deferred> {
    if item.Byte? then Value(NumberValue(FromByte(item.byte))) else item
  }

  lemma UnpackedItemKey(item: Item<GlamValue, Deferred>)
    ensures KeyFromItem(UnpackedItem(item)) == KeyFromItem(item)
  {
    if item.Byte? {
      var number := NumberValue(FromByte(item.byte));
      assert KeyFromValue(number) == Some(NumberKey(FromByte(item.byte)));
    }
  }

  /** Packing bytes is invisible to keys: a list and its unpacked form have one key. */
  lemma {:induction false} PackingKeepsKeys(a: List<GlamValue, Deferred>, b: List<GlamValue, Deferred>)
    requires Items(b) == Unpacked(Items(a))
    ensures KeyFromValue(ListValue(b)) == KeyFromValue(ListValue(a))
  {
    UnpackedKeys(Items(a));
  }

  lemma {:induction false} UnpackedKeys(items: ItemSeq)
    ensures KeysFromItems(Unpacked(items)) == KeysFromItems(items)
  {
    if |items| > 0 {
      UnpackedKeys(items[1..]);
      UnpackedItemKey(items[0]);
      assert Unpacked(items)[1..] == Unpacked(items[1..]);
    }
  }

  // ---- Reified values ----

  lemma {:induction false} InsertWellFormed(dict: seq<(Key, GlamValue)>, key: Key, value: GlamValue, lt: KeyOrder)
    requires WellFormedEntries(dict, lt) && WellFormed(value, lt)
    ensures WellFormedEntries(Insert(dict, key, value, lt), lt)
  {
    if |dict| > 0 {
      InsertWellFormed(dict[1..], key, value, lt);
    }
  }

  /** Every key, canonical or not, reifies to a well-formed value. */
  lemma {:induction false} ReifiedWellFormed(key: Key, lt: KeyOrder)
    requires StrictOrder(lt)
    ensures WellFormed(ValueFromKey(key, lt), lt)
  {
    match key
    case ListKey(items) => ReifiedItemsWellFormed(items, lt);
    case DictKey(entries) =>
      InsertAllSorted(entries, lt);
      ReifiedEntriesWellFormed(entries, lt);
    case _ =>
  }

  lemma {:induction false} ReifiedItemsWellFormed(items: seq<Key>, lt: KeyOrder)
    requires StrictOrder(lt)
    ensures WellFormedItems(ValueItems(ValuesFromKeys(items, lt)), lt)
  {
    if |items| > 0 {
      ReifiedWellFormed(items[0], lt);
      ReifiedItemsWellFormed(items[1..], lt);
      var flat := ValueItems<GlamValue, Deferred>(ValuesFromKeys(items, lt));
      assert flat[1..] == ValueItems(ValuesFromKeys(items[1..], lt));
    }
  }

  lemma {:induction false} ReifiedEntryWellFormed(entry: (Key, Key), lt: KeyOrder)
    requires StrictOrder(lt)
    ensures WellFormed(ValueFromKey(entry.1, lt), lt)
  {
    ReifiedWellFormed(entry.1, lt);
  }

  lemma {:induction false} ReifiedEntriesWellFormed(entries: seq<(Key, Key)>, lt: KeyOrder)
    requires StrictOrder(lt)
    ensures WellFormedEntries(InsertAll(entries, lt), lt)
  {
    if |entries| > 0 {
      var init, last := entries[..|entries| - 1], entries[|entries| - 1];
      ReifiedEntriesWellFormed(init, lt);
      ReifiedEntryWellFormed(last, lt);
      InsertWellFormed(InsertAll(init, lt), last.0, EntryValue(last, lt), lt);
    }
  }

  /** No list at any depth of the data holds a packed byte. */
  ghost predicate ByteFree(v: GlamValue)
    decreases Size(v), 0
  {
    match v
    case ListValue(list) =>
      FlatSize(list);
      ByteFreeItems(Items(list))
    case DictValue(entries) => ByteFreeEntries(entries)
    case _ => true
  }

  ghost predicate ByteFreeItems(items: ItemSeq)
    decreases ItemsSize(items), 2 + |items|
  {
    |items| == 0 || (!items[0].Byte? && (items[0].Value? ==> ByteFree(items[0].value)) && ByteFreeItems(items[1..]))
  }

  ghost predicate ByteFreeEntries(entries: seq<(Key, GlamValue)>)
    decreases EntriesSize(entries), 2 + |entries|
  {
    |entries| == 0 || (EntriesSizeHead(entries); ByteFree(entries[0].1) && ByteFreeEntries(entries[1..]))
  }

  /** A keyed value is rebuilt from its key up to comparison exactly when its lists
      hold no packed bytes: a byte keys as a number and comes back as one. */
  lemma {:induction false} ReifiedSame(v: GlamValue, lt: KeyOrder)
    requires StrictOrder(lt) && WellFormed(v, lt) && KeyFromValue(v).Some?
    ensures Same(ValueFromKey(KeyFromValue(v).value, lt), v) <==> ByteFree(v)
    decreases Size(v), 0
  {
    match v
    case ListValue(list) =>
      FlatSize(list);
      ReifiedSameItems(Items(list), lt);
      ReifiedList(list, KeysFromItems(Items(list)).value, lt);
    case DictValue(entries) =>
      ReifiedSameEntries(entries, lt);
      ReifiedDict(entries, KeysFromEntries(entries).value, lt);
    case _ =>
  }

  lemma ReifiedList(list: List<GlamValue, Deferred>, keys: seq<Key>, lt: KeyOrder)
    ensures Same(ValueFromKey(ListKey(keys), lt), ListValue(list)) <==>
            SameItems(ValueItems(ValuesFromKeys(keys, lt)), Items(list))
  {
  }

  lemma ReifiedDict(entries: seq<(Key, GlamValue)>, keyed: seq<(Key, Key)>, lt: KeyOrder)
    requires StrictOrder(lt) && Sorted(entries, lt) && KeysFromEntries(entries) == Some(keyed)
    ensures Same(ValueFromKey(DictKey(keyed), lt), DictValue(entries)) <==>
            SameEntries(MapEntries(keyed, lt), entries)
  {
    KeysOfEntries(entries);
    SortedByKeys(entries, keyed, lt);
    InsertAllInOrder(keyed, lt);
    SameDict(InsertAll(keyed, lt), entries);
  }

  lemma SameDict(left: seq<(Key, GlamValue)>, right: seq<(Key, GlamValue)>)
    ensures Same(DictValue(left), DictValue(right)) <==> SameEntries(left, right)
  {
  }

  lemma {:induction false} ReifiedSameItems(items: ItemSeq, lt: KeyOrder)
    requires StrictOrder(lt) && WellFormedItems(items, lt) && KeysFromItems(items).Some?
    ensures SameItems(ValueItems(ValuesFromKeys(KeysFromItems(items).value, lt)), items) <==> ByteFreeItems(items)
    decreases ItemsSize(items), 2 + |items|
  {
    if |items| > 0 {
      var keys, rest := KeysFromItems(items).value, KeysFromItems(items[1..]).value;
      assert keys[1..] == rest;
      ReifiedSameItems(items[1..], lt);
      var flat := ValueItems<GlamValue, Deferred>(ValuesFromKeys(keys, lt));
      assert flat[1..] == ValueItems(ValuesFromKeys(rest, lt));
      KeysOfItems(items);
      ReifiedValues(keys, lt);
      if items[0].Value? {
        ReifiedSame(items[0].value, lt);
      }
    }
  }

  lemma {:induction false} ReifiedSameEntries(entries: seq<(Key, GlamValue)>, lt: KeyOrder)
    requires StrictOrder(lt) && WellFormedEntries(entries, lt) && KeysFromEntries(entries).Some?
    ensures SameEntries(MapEntries(KeysFromEntries(entries).value, lt), entries) <==> ByteFreeEntries(entries)
    decreases EntriesSize(entries), 2 + |entries|
  {
    if |entries| > 0 {
      EntriesSizeHead(entries);
      var keyed, rest := KeysFromEntries(entries).value, KeysFromEntries(entries[1..]).value;
      assert keyed[1..] == rest;
      ReifiedSameEntries(entries[1..], lt);
      ReifiedSame(entries[0].1, lt);
      assert MapEntries(keyed, lt)[1..] == MapEntries(rest, lt);
      KeysOfEntries(entries);
    }
  }
}
