/**
 What a bulk `insert` promises on each backend: LevelDB's result does not depend on the
 batch size and equals a `set` per pair; SQLite's buffered path succeeds exactly when
 every key is fresh and distinct, and when it fails the batches flushed before the
 failing one stay committed.
 */
module InsertLaws {
  import opened Wrappers
  import opened Serialization
  import opened Store
  import opened Batching
  import opened BulkInsert

  lemma ConcatCons<T>(bs: seq<seq<T>>)
    requires |bs| > 0
    ensures Concat(bs) == bs[0] + Concat(bs[1..])
  {
    assert bs == [bs[0]] + bs[1..];
    ConcatAppend([bs[0]], bs[1..]);
    assert Concat([bs[0]]) == bs[0] by {
      assert [bs[0]][..0] == [];
    }
  }

  /** LevelDB writes every batch with overwriting `put`s, so flushing batches is the `put`s of all their rows. */
  lemma {:induction false} LevelDbBatchesArePuts(t: Table, bs: seq<seq<Row>>)
    ensures ApplyBatches(LevelDb, t, bs) == Outcome(PutAll(t, Concat(bs)), PutAll(t, Concat(bs)), None)
    decreases |bs|
  {
    if |bs| > 0 {
      LevelDbBatchesArePuts(PutAll(t, bs[0]), bs[1..]);
      ConcatCons(bs);
      PutAllAppend(t, bs[0], Concat(bs[1..]));
    }
  }

  /**
   On LevelDB every batch size gives the same result as a `set` per pair: nothing fails,
   and a key repeated in the input or already stored ends with its last value.
   */
  lemma LevelDbInsertIsSets<V>(t: Table, codec: Serializer<V>, pairs: seq<(string, V)>, size: int)
    ensures Insert(LevelDb, t, codec, pairs, size).conflict == None
    ensures Insert(LevelDb, t, codec, pairs, size).committed == SetAll(LevelDb, t, codec, pairs)
  {
    SetAllIsPutAll(LevelDb, t, codec, pairs);
    if size != 1 {
      var rows := Serialize(codec, pairs);
      LevelDbBatchesArePuts(t, Batches(rows, size));
      BatchesCoverInput(rows, size);
    }
  }

  /**
   LevelDB's default `insert` takes the per-pair `set` path: it never fails and leaves the
   overwriting `put`s of the serialized pairs, so a repeated key ends with its last value.
   */
  lemma LevelDbDefaultInsertIsPuts<V>(t: Table, codec: Serializer<V>, pairs: seq<(string, V)>)
    ensures Insert(LevelDb, t, codec, pairs, LevelDbDefaultBatchSize) ==
      Outcome(PutAll(t, Serialize(codec, pairs)), PutAll(t, Serialize(codec, pairs)), None)
  {
    SetAllIsPutAll(LevelDb, t, codec, pairs);
  }

  /** Fresh and distinct splits at any point: the front part is, and the rest is against the table after it. */
  lemma FreshDistinctAppend(t: Table, a: seq<Row>, b: seq<Row>)
    ensures FreshDistinct(t, a + b) <==> FreshDistinct(t, a) && FreshDistinct(PutAll(t, a), b)
  {
    if FreshDistinct(t, a) && FreshDistinct(PutAll(t, a), b) {
      FreshDistinctJoin(t, a, b);
    }
    if FreshDistinct(t, a + b) {
      FreshDistinctSplit(t, a, b);
    }
  }

  lemma FreshDistinctJoin(t: Table, a: seq<Row>, b: seq<Row>)
    requires FreshDistinct(t, a) && FreshDistinct(PutAll(t, a), b)
    ensures FreshDistinct(t, a + b)
  {
    var ab := a + b;
    forall i, j | 0 <= i < j < |ab| ensures ab[i].0 != ab[j].0 {
      if j >= |a| {
        assert ab[j] == b[j - |a|];
        if i < |a| {
          assert ab[i] == a[i];
          assert ab[i].0 in KeysOf(a);
        } else {
          assert ab[i] == b[i - |a|];
        }
      } else {
        assert ab[i] == a[i] && ab[j] == a[j];
      }
    }
    forall i | 0 <= i < |ab| ensures ab[i].0 !in t {
      if i >= |a| {
        assert ab[i] == b[i - |a|];
      } else {
        assert ab[i] == a[i];
      }
    }
  }

  lemma FreshDistinctSplit(t: Table, a: seq<Row>, b: seq<Row>)
    requires FreshDistinct(t, a + b)
    ensures FreshDistinct(t, a) && FreshDistinct(PutAll(t, a), b)
  {
    var ab := a + b;
    forall i | 0 <= i < |a| ensures a[i].0 !in t {
      assert a[i] == ab[i];
    }
    forall i, j | 0 <= i < j < |a| ensures a[i].0 != a[j].0 {
      assert a[i] == ab[i] && a[j] == ab[j];
    }
    forall i | 0 <= i < |b| ensures b[i].0 !in PutAll(t, a) {
      assert b[i] == ab[|a| + i];
      forall k | 0 <= k < |a| ensures a[k].0 != b[i].0 {
        assert a[k] == ab[k];
      }
    }
    forall i, j | 0 <= i < j < |b| ensures b[i].0 != b[j].0 {
      assert b[i] == ab[|a| + i] && b[j] == ab[|a| + j];
    }
  }

  /**
   SQLite's batches all go through exactly when the rows, laid end to end, carry keys that
   are fresh and pairwise distinct; the contents are then the rows added to the table.
   */
  lemma {:induction false} SqliteBatchesSucceedIff(t: Table, bs: seq<seq<Row>>)
    ensures ApplyBatches(Sqlite, t, bs).conflict.None? <==> FreshDistinct(t, Concat(bs))
    ensures ApplyBatches(Sqlite, t, bs).conflict.None? ==> ApplyBatches(Sqlite, t, bs).committed == PutAll(t, Concat(bs))
    decreases |bs|
  {
    if |bs| > 0 {
      ConcatCons(bs);
      FreshDistinctAppend(t, bs[0], Concat(bs[1..]));
      PutAllAppend(t, bs[0], Concat(bs[1..]));
      var w := InsertMany(t, bs[0]);
      if w.Written? {
        SqliteBatchesSucceedIff(w.table, bs[1..]);
      }
    }
  }

  /**
   SQLite's buffered `insert` raises exactly when some key is already stored or repeats in
   the input; otherwise it leaves the same contents as a `set` per pair.
   */
  lemma SqliteInsertSucceedsIff<V>(t: Table, codec: Serializer<V>, pairs: seq<(string, V)>, size: int)
    requires size != 1
    ensures Insert(Sqlite, t, codec, pairs, size).conflict.None? <==> FreshDistinct(t, Serialize(codec, pairs))
    ensures Insert(Sqlite, t, codec, pairs, size).conflict.None? ==>
      Insert(Sqlite, t, codec, pairs, size).committed == SetAll(Sqlite, t, codec, pairs)
  {
    var rows := Serialize(codec, pairs);
    SqliteBatchesSucceedIff(t, Batches(rows, size));
    BatchesCoverInput(rows, size);
    SetAllIsPutAll(Sqlite, t, codec, pairs);
  }

  /**
   Batch `n` is the one that failed: the committed contents are the rows of the first `n`
   batches added, and batch `n` stopped at a key the table by then held, leaving the
   rows of it before that key visible to the connection only.
   */
  ghost predicate FailedAt(t: Table, bs: seq<seq<Row>>, out: Outcome, n: int)
  {
    && 0 <= n < |bs|
    && out.conflict.Some?
    && out.committed == PutAll(t, Concat(bs[..n]))
    && exists j :: StoppedAt(out.committed, bs[n], out.open, out.conflict.value, j)
  }

  /** A failed SQLite batch leaves every earlier batch committed and nothing after it. */
  lemma {:induction false} SqliteFailureKeepsEarlierBatches(t: Table, bs: seq<seq<Row>>)
    requires ApplyBatches(Sqlite, t, bs).conflict.Some?
    ensures exists n :: FailedAt(t, bs, ApplyBatches(Sqlite, t, bs), n)
    decreases |bs|
  {
    var out := ApplyBatches(Sqlite, t, bs);
    var w := InsertMany(t, bs[0]);
    if w.Rejected? {
      assert bs[..0] == [];
      assert FailedAt(t, bs, out, 0);
    } else {
      SqliteFailureKeepsEarlierBatches(w.table, bs[1..]);
      var n :| FailedAt(w.table, bs[1..], out, n);
      FailedAtCons(t, bs, w.table, out, n);
    }
  }

  lemma FailedAtCons(t: Table, bs: seq<seq<Row>>, next: Table, out: Outcome, n: int)
    requires |bs| > 0 && next == PutAll(t, bs[0])
    requires FailedAt(next, bs[1..], out, n)
    ensures FailedAt(t, bs, out, n + 1)
  {
    PrefixCons(t, bs, n);
    var j :| StoppedAt(out.committed, bs[1..][n], out.open, out.conflict.value, j);
    assert bs[n + 1] == bs[1..][n];
    assert StoppedAt(out.committed, bs[n + 1], out.open, out.conflict.value, j);
  }

  /** Writing the first batch and then the next `n` is writing the first `n + 1`. */
  lemma PrefixCons(t: Table, bs: seq<seq<Row>>, n: nat)
    requires n < |bs| - 1
    ensures PutAll(PutAll(t, bs[0]), Concat(bs[1..][..n])) == PutAll(t, Concat(bs[..n + 1]))
  {
    var front := bs[..n + 1];
    var later := bs[1..][..n];
    assert front[0] == bs[0] && front[1..] == later;
    ConcatCons(front);
    PutAllAppend(t, bs[0], Concat(later));
  }

  /**
   With keys that are fresh and pairwise distinct, both engines and every batch size end
   in the same contents, with exactly one new key per pair.
   */
  lemma FreshInsertAgrees<V>(t: Table, codec: Serializer<V>, pairs: seq<(string, V)>, backend: Backend, size: int)
    requires FreshDistinct(t, Serialize(codec, pairs))
    ensures Insert(backend, t, codec, pairs, size) == Insert(LevelDb, t, codec, pairs, 1)
    ensures |Insert(backend, t, codec, pairs, size).committed| == |t| + |pairs|
  {
    var rows := Serialize(codec, pairs);
    SetAllIsPutAll(backend, t, codec, pairs);
    SetAllIsPutAll(LevelDb, t, codec, pairs);
    PutAllFreshSize(t, rows);
    if size != 1 {
      match backend
      case Sqlite => SqliteInsertSucceedsIff(t, codec, pairs, size);
      case LevelDb => LevelDbInsertIsSets(t, codec, pairs, size);
    }
  }

  /** After a fresh bulk load every inserted key reads back as the value inserted with it. */
  lemma FreshInsertReadsBack<V(!new)>(t: Table, codec: Serializer<V>, pairs: seq<(string, V)>, backend: Backend, size: int, i: nat)
    requires RoundTrips(codec)
    requires FreshDistinct(t, Serialize(codec, pairs))
    requires i < |pairs|
    ensures Get(Insert(backend, t, codec, pairs, size).committed, codec, pairs[i].0) == Success(pairs[i].1)
  {
    var rows := Serialize(codec, pairs);
    FreshInsertAgrees(t, codec, pairs, backend, size);
    SetAllIsPutAll(LevelDb, t, codec, pairs);
    LastValueDistinct(rows, i);
    PutAllLastWins(t, rows, rows[i].0);
  }

  /** Two rows with a large batch size are buffered together and written as one batch by the final flush. */
  lemma TwoRowsOneBatch(r1: Row, r2: Row, size: int)
    requires size > 2
    ensures Batches([r1, r2], size) == [[r1, r2]]
  {
    var one := Step(Start(), r1, size);
    assert [] + [r1] == [r1];
    assert one == Buffer([r1], []);
    assert [r1] + [r2] == [r1, r2];
    assert Step(one, r2, size) == Buffer([r1, r2], []);
    assert [r1, r2][1..] == [r2] && [r2][1..] == [];
    assert Feed(Start(), [r1, r2], size) == Feed(one, [r2], size);
    assert Feed(one, [r2], size) == Feed(Step(one, r2, size), [], size);
  }

  /**
   A key repeated within one batch on SQLite: the second `INSERT` meets the unique index,
   nothing of the batch is committed, and the connection still sees the first row.
   */
  lemma SqliteRepeatedKeyFails<V>(t: Table, codec: Serializer<V>, k: string, v1: V, v2: V)
    requires k !in t
    ensures Insert(Sqlite, t, codec, [(k, v1), (k, v2)], SqliteDefaultBatchSize)
         == Outcome(t, t[k := codec.serialize(v1)], Some(k))
  {
    var rows := Serialize(codec, [(k, v1), (k, v2)]);
    var r1 := (k, codec.serialize(v1));
    var r2 := (k, codec.serialize(v2));
    assert rows == [r1, r2];
    TwoRowsOneBatch(r1, r2, SqliteDefaultBatchSize);
    assert InsertMany(t[k := r1.1], [r2]) == Rejected(t[k := r1.1], k);
    assert [r1, r2][1..] == [r2];
    assert InsertMany(t, [r1, r2]) == Rejected(t[k := r1.1], k);
    ApplySingle(Sqlite, t, [r1, r2]);
  }

  /** The same input on LevelDB: the later `put` overwrites, and the key keeps the second value. */
  lemma LevelDbRepeatedKeyOverwrites<V>(t: Table, codec: Serializer<V>, k: string, v1: V, v2: V)
    ensures Insert(LevelDb, t, codec, [(k, v1), (k, v2)], SqliteDefaultBatchSize)
         == Outcome(t[k := codec.serialize(v2)], t[k := codec.serialize(v2)], None)
  {
    var rows := Serialize(codec, [(k, v1), (k, v2)]);
    var r1 := (k, codec.serialize(v1));
    var r2 := (k, codec.serialize(v2));
    assert rows == [r1, r2];
    TwoRowsOneBatch(r1, r2, SqliteDefaultBatchSize);
    LevelDbBatchesArePuts(t, [[r1, r2]]);
    assert Concat([[r1, r2]]) == [r1, r2] by {
      assert [[r1, r2]][..0] == [];
    }
    assert PutAll(t, [r1, r2]) == t[k := r1.1][k := r2.1] by {
      assert [r1, r2][..1] == [r1] && [r1][..0] == [];
      assert PutAll(t, [r1][..0]) == t;
      assert PutAll(t, [r1]) == t[k := r1.1];
      assert PutAll(t, [r1, r2]) == PutAll(t, [r1])[k := r2.1];
    }
    assert t[k := r1.1][k := r2.1] == t[k := r2.1];
  }
}
