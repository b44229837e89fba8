/**
 The repository's own usage scenarios (tests/test_main.py), stated over the model.
 */
module Scenarios {
  import opened Wrappers
  import opened Serialization
  import opened Store
  import opened KeyOrder
  import opened Batching
  import opened BulkInsert
  import opened Iteration

  /** Three `set`s in the order a, c, b on a fresh store. */
  function ThreeSets(backend: Backend, codec: Serializer<string>): Table
  {
    SetAll(backend, Open(Missing), codec, [("a", "foo"), ("c", "bax"), ("b", "baz")])
  }

  lemma ThreeSetsContents(backend: Backend, codec: Serializer<string>)
    ensures ThreeSets(backend, codec) ==
      map["a" := codec.serialize("foo"), "c" := codec.serialize("bax"), "b" := codec.serialize("baz")]
  {
    var pairs := [("a", "foo"), ("c", "bax"), ("b", "baz")];
    var r1 := ("a", codec.serialize("foo"));
    var r2 := ("c", codec.serialize("bax"));
    var r3 := ("b", codec.serialize("baz"));
    assert Serialize(codec, pairs) == [r1, r2, r3];
    assert PutAll(map[], [r1, r2, r3]) == map[r1.0 := r1.1][r2.0 := r2.1][r3.0 := r3.1] by {
      PutAllSnoc(map[], [], r1);
      assert [] + [r1] == [r1];
      PutAllSnoc(map[], [r1], r2);
      assert [r1] + [r2] == [r1, r2];
      PutAllSnoc(map[], [r1, r2], r3);
      assert [r1, r2] + [r3] == [r1, r2, r3];
    }
    SetAllIsPutAll(backend, map[], codec, pairs);
  }

  /** The listing of the three keys a, c, b is a, b, c. */
  lemma ThreeKeysListing(t: Table, ks: seq<string>)
    requires t.Keys == {"a", "b", "c"}
    requires IsKeyListing(t, false, ks)
    ensures ks == ["a", "b", "c"]
  {
    var expected := ["a", "b", "c"];
    assert "a" != "b" && "b" != "c" && "a" != "c";
    assert |t| == |t.Keys| == 3;
    assert Below("a", "b") && Below("b", "c") && Below("a", "c");
    assert Ascending(expected);
    assert IsKeyListing(t, false, expected);
    KeyListingUnique(t, false, ks, expected);
  }

  /** The items of those three keys pair each with the value set for it. */
  lemma ThreeItemsListing(t: Table, codec: Serializer<string>, items: seq<(string, string)>)
    requires RoundTrips(codec)
    requires t == map["a" := codec.serialize("foo"), "c" := codec.serialize("bax"), "b" := codec.serialize("baz")]
    requires IsItemListing(t, codec, false, items)
    ensures items == [("a", "foo"), ("b", "baz"), ("c", "bax")]
  {
    var ks := KeyColumn(items);
    ThreeKeysListing(t, ks);
    ItemsFollowKeys(t, codec, false, ks, items);
    DecodeEncode(codec, "foo");
    DecodeEncode(codec, "baz");
    DecodeEncode(codec, "bax");
  }

  /** Any listing of the reopened store of `ThreeSets` is a, b, c with the values set. */
  lemma ReopenedThreeSetsListings(backend: Backend, codec: Serializer<string>,
                                  ks: seq<string>, items: seq<(string, string)>)
    requires RoundTrips(codec)
    requires IsKeyListing(Open(Close(ThreeSets(backend, codec))), false, ks)
    requires IsItemListing(Open(Close(ThreeSets(backend, codec))), codec, false, items)
    ensures ks == ["a", "b", "c"]
    ensures items == [("a", "foo"), ("b", "baz"), ("c", "bax")]
  {
    var t := ThreeSets(backend, codec);
    ThreeSetsContents(backend, codec);
    ReopenKeepsContents(t);
    ThreeKeysListing(t, ks);
    ThreeItemsListing(t, codec, items);
  }

  /**
   Keys set in the order a, c, b are listed as a, b, c by a handle opened on the closed
   directory, and the items carry the values set.
   */
  method ReadersSeeSortedKeys(backend: Backend, codec: Serializer<string>)
    returns (ks: seq<string>, items: seq<(string, string)>)
    requires RoundTrips(codec)
    ensures ks == ["a", "b", "c"]
    ensures items == [("a", "foo"), ("b", "baz"), ("c", "bax")]
  {
    var reader := Open(Close(ThreeSets(backend, codec)));
    ks := Keys(reader, false);
    items := Items(reader, codec, false);
    ReopenedThreeSetsListings(backend, codec, ks, items);
  }

  /**
   The bulk load of 10,000 fresh pairs with SQLite's default batch size: ten mid-stream
   flushes of 1,000 pairs each, and a forced flush that finds the buffer empty.
   */
  lemma TenThousandInTenBatches<T>(xs: seq<T>)
    requires |xs| == 10000
    ensures Feed(Start(), xs, SqliteDefaultBatchSize).pending == []
    ensures |Batches(xs, SqliteDefaultBatchSize)| == 10
    ensures forall i :: 0 <= i < 10 ==> |Batches(xs, SqliteDefaultBatchSize)[i]| == 1000
  {
    BatchesShape(xs, SqliteDefaultBatchSize);
  }
}
