/**
 `keys(reverse)` and `items(reverse)`. SQLite runs `SELECT ... ORDER BY key ASC|DESC` on a
 fresh cursor; LevelDB walks its native iterator forwards or backwards. Both enumerate
 every stored key once, in key order (module KeyOrder), and `items` pairs each key with
 its deserialized value.
 */
module Iteration {
  import opened Serialization
  import opened Store
  import opened KeyOrder

  /** `ks` lists every key of `t` exactly once, ascending, or descending when `reverse` is set. */
  ghost predicate IsKeyListing(t: Table, reverse: bool, ks: seq<string>)
  {
    && |ks| == |t|
    && (forall k :: k in ks <==> k in t)
    && (if reverse then Descending(ks) else Ascending(ks))
  }

  /** The keys of an item listing, in its order. */
  function KeyColumn<V>(items: seq<(string, V)>): (ks: seq<string>)
    ensures |ks| == |items|
    ensures forall i :: 0 <= i < |items| ==> ks[i] == items[i].0
  {
    seq(|items|, i requires 0 <= i < |items| => items[i].0)
  }

  /** `items` lists the keys as `keys` would, each with the deserialized text stored under it. */
  ghost predicate IsItemListing<V>(t: Table, codec: Serializer<V>, reverse: bool, items: seq<(string, V)>)
  {
    && IsKeyListing(t, reverse, KeyColumn(items))
    && forall i :: 0 <= i < |items| ==> items[i].0 in t && items[i].1 == codec.deserialize(t[items[i].0])
  }

  /** Sorts a set of keys ascending by inserting them one at a time. */
  method SortKeys(keys: set<string>) returns (r: seq<string>)
    ensures Ascending(r)
    ensures |r| == |keys|
    ensures forall k :: k in r <==> k in keys
  {
    r := [];
    var rest := keys;
    while rest != {}
      invariant rest <= keys
      invariant Ascending(r)
      invariant |r| + |rest| == |keys|
      invariant forall k :: k in r <==> k in keys && k !in rest
      decreases rest
    {
      var k :| k in rest;
      r := InsertSorted(r, k);
      rest := rest - {k};
    }
  }

  /** `keys(reverse)`. */
  method Keys(t: Table, reverse: bool) returns (ks: seq<string>)
    ensures IsKeyListing(t, reverse, ks)
  {
    ks := SortKeys(t.Keys);
    assert |t.Keys| == |t|;
    if reverse {
      ReverseAscending(ks);
      ReverseMembers(ks);
      ks := Reverse(ks);
    }
  }

  /** `items(reverse)`. */
  method Items<V>(t: Table, codec: Serializer<V>, reverse: bool) returns (items: seq<(string, V)>)
    ensures IsItemListing(t, codec, reverse, items)
  {
    var ks := Keys(t, reverse);
    items := [];
    for i := 0 to |ks|
      invariant |items| == i
      invariant forall j :: 0 <= j < i ==> items[j] == (ks[j], codec.deserialize(t[ks[j]]))
    {
      items := items + [(ks[i], codec.deserialize(t[ks[i]]))];
    }
    assert KeyColumn(items) == ks;
  }

  /** A key listing never repeats a key. */
  lemma ListingHasNoRepeats(t: Table, reverse: bool, ks: seq<string>)
    requires IsKeyListing(t, reverse, ks)
    ensures forall i, j :: 0 <= i < j < |ks| ==> ks[i] != ks[j]
  {
    forall i, j | 0 <= i < j < |ks| ensures ks[i] != ks[j] {
      BelowIrreflexive(ks[i]);
    }
  }

  /** The listing is determined by the contents: every call of `keys` with the same direction gives the same sequence. */
  lemma KeyListingUnique(t: Table, reverse: bool, a: seq<string>, b: seq<string>)
    requires IsKeyListing(t, reverse, a) && IsKeyListing(t, reverse, b)
    ensures a == b
  {
    if reverse {
      DescendingUnique(a, b);
    } else {
      AscendingUnique(a, b);
    }
  }

  /** `keys(reverse=True)` is `keys()` backwards. */
  lemma ReverseListing(t: Table, forward: seq<string>, backward: seq<string>)
    requires IsKeyListing(t, false, forward) && IsKeyListing(t, true, backward)
    ensures backward == Reverse(forward)
  {
    ReverseAscending(forward);
    ReverseMembers(forward);
    DescendingUnique(backward, Reverse(forward));
  }

  /** `items` walks the keys in the same order as `keys`, pairing each with its deserialized value. */
  lemma ItemsFollowKeys<V>(t: Table, codec: Serializer<V>, reverse: bool, ks: seq<string>, items: seq<(string, V)>)
    requires IsKeyListing(t, reverse, ks) && IsItemListing(t, codec, reverse, items)
    ensures |items| == |ks|
    ensures forall i :: 0 <= i < |ks| ==> items[i] == (ks[i], codec.deserialize(t[ks[i]]))
  {
    KeyListingUnique(t, reverse, ks, KeyColumn(items));
  }

  /** Closing and reopening the directory gives the same `keys` and `items` as before closing. */
  lemma ListingsSurviveReopen<V>(t: Table, codec: Serializer<V>, reverse: bool,
                                 ks: seq<string>, items: seq<(string, V)>,
                                 ks': seq<string>, items': seq<(string, V)>)
    requires IsKeyListing(t, reverse, ks) && IsItemListing(t, codec, reverse, items)
    requires IsKeyListing(Open(Close(t)), reverse, ks') && IsItemListing(Open(Close(t)), codec, reverse, items')
    ensures ks' == ks
    ensures items' == items
  {
    ReopenKeepsContents(t);
    KeyListingUnique(t, reverse, ks, ks');
    ItemsFollowKeys(t, codec, reverse, ks, items);
    ItemsFollowKeys(t, codec, reverse, ks, items');
  }

  /** A store opened on a directory without data lists nothing. */
  lemma FreshStoreListsNothing(ks: seq<string>)
    requires IsKeyListing(Open(Missing), false, ks)
    ensures ks == []
  {
  }
}
