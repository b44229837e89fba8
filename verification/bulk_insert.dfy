/**
 Bulk `insert(pairs, batch_size)` for both backends. With a batch size of exactly 1 it is
 a `set` per pair. Otherwise the pairs are serialized into rows and buffered
 (module Batching), and each flushed batch is written in one go: SQLite runs an
 unconditional `INSERT` per row and commits, LevelDB applies a write batch of `put`s.
 The two differ on a key that is already stored or repeated in the input: the unique
 index makes SQLite's `INSERT` fail, while LevelDB's `put` overwrites.
 */
module BulkInsert {
  import opened Wrappers
  import opened Serialization
  import opened Store
  import opened Batching

  /** A serialized pair as it is buffered: key and the serializer's text for the value. */
  type Row = (string, string)

  /**
   What a call of `insert` leaves behind. `committed` is what a later open of the same
   directory sees. `open` is what the same connection sees, which differs only after a
   SQLite batch failed part-way: the rows of that batch before the conflicting one stay
   in the connection's uncommitted transaction. `conflict` is the key whose `INSERT`
   met the unique index, if any; the error ends the call.
   */
  datatype Outcome = Outcome(committed: Table, open: Table, conflict: Option<string>)

  /** The rows `insert` buffers: each pair with its value serialized. */
  function Serialize<V>(codec: Serializer<V>, pairs: seq<(string, V)>): (rows: seq<Row>)
    ensures |rows| == |pairs|
    ensures forall i :: 0 <= i < |pairs| ==> rows[i] == (pairs[i].0, codec.serialize(pairs[i].1))
  {
    seq(|pairs|, i requires 0 <= i < |pairs| => (pairs[i].0, codec.serialize(pairs[i].1)))
  }

  /** The keys that occur in some rows. */
  function KeysOf(rows: seq<Row>): set<string>
  {
    set i | 0 <= i < |rows| :: rows[i].0
  }

  /** Every row carries a key that is not stored yet and that no other row repeats. */
  ghost predicate FreshDistinct(t: Table, rows: seq<Row>)
  {
    && (forall i :: 0 <= i < |rows| ==> rows[i].0 !in t)
    && (forall i, j :: 0 <= i < j < |rows| ==> rows[i].0 != rows[j].0)
  }

  /** Overwriting `put`s applied in order: what LevelDB leaves after a sequence of writes. */
  function PutAll(t: Table, rows: seq<Row>): (r: Table)
    ensures r.Keys == t.Keys + KeysOf(rows)
    decreases |rows|
  {
    if |rows| == 0 then t
    else
      var init := rows[..|rows| - 1];
      var last := rows[|rows| - 1];
      assert KeysOf(rows) == KeysOf(init) + {last.0} by {
        forall k | k in KeysOf(rows) ensures k in KeysOf(init) + {last.0} {
          var i :| 0 <= i < |rows| && rows[i].0 == k;
          if i < |rows| - 1 { assert init[i] == rows[i]; }
        }
        forall k | k in KeysOf(init) ensures k in KeysOf(rows) {
          var i :| 0 <= i < |init| && init[i].0 == k;
          assert rows[i] == init[i];
        }
      }
      PutAll(t, init)[last.0 := last.1]
  }

  /** Reference reading of a row sequence: the value the last row for `k` carries, if any. */
  function LastValue(rows: seq<Row>, k: string): Option<string>
    decreases |rows|
  {
    if |rows| == 0 then None
    else if rows[|rows| - 1].0 == k then Some(rows[|rows| - 1].1)
    else LastValue(rows[..|rows| - 1], k)
  }

  /** Last write wins: after the `put`s each key holds its last written value, or its old one. */
  lemma {:induction false} PutAllLastWins(t: Table, rows: seq<Row>, k: string)
    ensures LastValue(rows, k).Some? ==> k in PutAll(t, rows) && PutAll(t, rows)[k] == LastValue(rows, k).value
    ensures LastValue(rows, k).None? ==> (k in PutAll(t, rows) <==> k in t)
    ensures LastValue(rows, k).None? && k in t ==> PutAll(t, rows)[k] == t[k]
    decreases |rows|
  {
    if |rows| > 0 {
      PutAllLastWins(t, rows[..|rows| - 1], k);
    }
  }

  /** For rows with distinct keys, the last value for a row's key is that row's value. */
  lemma {:induction false} LastValueDistinct(rows: seq<Row>, i: nat)
    requires i < |rows|
    requires forall a, b :: 0 <= a < b < |rows| ==> rows[a].0 != rows[b].0
    ensures LastValue(rows, rows[i].0) == Some(rows[i].1)
    decreases |rows|
  {
    if i < |rows| - 1 {
      LastValueDistinct(rows[..|rows| - 1], i);
    }
  }

  lemma PutAllSnoc(t: Table, rows: seq<Row>, r: Row)
    ensures PutAll(t, rows + [r]) == PutAll(t, rows)[r.0 := r.1]
  {
    assert (rows + [r])[..|rows|] == rows;
  }

  lemma {:induction false} PutAllAppend(t: Table, a: seq<Row>, b: seq<Row>)
    ensures PutAll(t, a + b) == PutAll(PutAll(t, a), b)
    decreases |b|
  {
    if |b| == 0 {
      assert a + b == a;
    } else {
      assert (a + b)[..|a + b| - 1] == a + b[..|b| - 1];
      PutAllAppend(t, a, b[..|b| - 1]);
    }
  }

  /** `put`s of fresh, distinct keys add exactly one key per row. */
  lemma {:induction false} PutAllFreshSize(t: Table, rows: seq<Row>)
    requires FreshDistinct(t, rows)
    ensures |PutAll(t, rows)| == |t| + |rows|
    decreases |rows|
  {
    if |rows| > 0 {
      var init := rows[..|rows| - 1];
      assert FreshDistinct(t, init);
      PutAllFreshSize(t, init);
      var last := rows[|rows| - 1];
      assert last.0 !in KeysOf(init);
    }
  }

  // ---- the `batch_size == 1` path ----

  /** The `batch_size == 1` path as a fold: one `set` per pair, in input order. */
  function SetAll<V>(backend: Backend, t: Table, codec: Serializer<V>, pairs: seq<(string, V)>): Table
    decreases |pairs|
  {
    if |pairs| == 0 then t
    else Set(backend, SetAll(backend, t, codec, pairs[..|pairs| - 1]), codec, pairs[|pairs| - 1].0, pairs[|pairs| - 1].1)
  }

  lemma SetAllSnoc<V>(backend: Backend, t: Table, codec: Serializer<V>, pairs: seq<(string, V)>)
    requires |pairs| > 0
    ensures SetAll(backend, t, codec, pairs) ==
      SetAll(backend, t, codec, pairs[..|pairs| - 1])[pairs[|pairs| - 1].0 := codec.serialize(pairs[|pairs| - 1].1)]
  {
    var last := pairs[|pairs| - 1];
    UpsertIsOverwrite(backend, SetAll(backend, t, codec, pairs[..|pairs| - 1]), last.0, codec.serialize(last.1));
  }

  lemma SerializeSnoc<V>(codec: Serializer<V>, pairs: seq<(string, V)>)
    requires |pairs| > 0
    ensures Serialize(codec, pairs) ==
      Serialize(codec, pairs[..|pairs| - 1]) + [(pairs[|pairs| - 1].0, codec.serialize(pairs[|pairs| - 1].1))]
  {
  }

  /** A `set` per pair leaves the same contents as the overwriting `put`s of the serialized rows, on either backend. */
  lemma {:induction false} SetAllIsPutAll<V>(backend: Backend, t: Table, codec: Serializer<V>, pairs: seq<(string, V)>)
    ensures SetAll(backend, t, codec, pairs) == PutAll(t, Serialize(codec, pairs))
    decreases |pairs|
  {
    if |pairs| > 0 {
      var init := pairs[..|pairs| - 1];
      var last := pairs[|pairs| - 1];
      SetAllIsPutAll(backend, t, codec, init);
      SetAllSnoc(backend, t, codec, pairs);
      SerializeSnoc(codec, pairs);
      PutAllSnoc(t, Serialize(codec, init), (last.0, codec.serialize(last.1)));
    }
  }

  // ---- writing one flushed batch ----

  /** The result of writing one batch: the new contents, or the conflict that stopped it. */
  datatype Written = Written(table: Table) | Rejected(partial: Table, key: string)

  /**
   SQLite's flush of one batch, one insert statement per row: the rows are inserted in order and
   the first one whose key the table already holds raises, leaving the rows before it
   inserted (but not committed).
   */
  function InsertMany(t: Table, rows: seq<Row>): (w: Written)
    ensures w.Written? <==> FreshDistinct(t, rows)
    ensures w.Written? ==> w.table == PutAll(t, rows)
    ensures w.Rejected? ==> exists j :: StoppedAt(t, rows, w.partial, w.key, j)
    decreases |rows|
  {
    if |rows| == 0 then Written(t)
    else
      match InsertRow(t, rows[0].0, rows[0].1)
      case Failure(_) =>
        assert rows[..0] == [];
        assert StoppedAt(t, rows, t, rows[0].0, 0);
        Rejected(t, rows[0].0)
      case Success(next) =>
        var rest := InsertMany(next, rows[1..]);
        PutAllAppend(t, [rows[0]], rows[1..]);
        assert [rows[0]] + rows[1..] == rows;
        assert PutAll(t, [rows[0]]) == next by {
          assert [rows[0]][..0] == [];
        }
        FreshDistinctCons(t, rows);
        if rest.Rejected? then
          StoppedAtCons(t, rows, next, rest.partial, rest.key);
          rest
        else
          rest
  }

  /**
   The batch stopped at row `j`: the rows before it had fresh, distinct keys and were
   inserted, and row `j`'s key was by then already in the table.
   */
  ghost predicate StoppedAt(t: Table, rows: seq<Row>, partial: Table, key: string, j: int)
  {
    && 0 <= j < |rows|
    && FreshDistinct(t, rows[..j])
    && partial == PutAll(t, rows[..j])
    && key == rows[j].0
    && key in partial
  }

  lemma StoppedAtCons(t: Table, rows: seq<Row>, next: Table, partial: Table, key: string)
    requires |rows| > 0 && rows[0].0 !in t && next == t[rows[0].0 := rows[0].1]
    requires exists j :: StoppedAt(next, rows[1..], partial, key, j)
    ensures exists j :: StoppedAt(t, rows, partial, key, j)
  {
    var j :| StoppedAt(next, rows[1..], partial, key, j);
    PrefixAfterFirst(t, rows, next, j);
    assert StoppedAt(t, rows, partial, key, j + 1);
  }

  /** The first `j + 1` rows, written after `t`, are the first row followed by the next `j` written after it. */
  lemma PrefixAfterFirst(t: Table, rows: seq<Row>, next: Table, j: int)
    requires 0 <= j < |rows| && rows[0].0 !in t && next == t[rows[0].0 := rows[0].1]
    ensures PutAll(t, rows[..j + 1]) == PutAll(next, rows[1..][..j])
    ensures FreshDistinct(t, rows[..j + 1]) <==> FreshDistinct(next, rows[1..][..j])
  {
    assert rows[..j + 1] == [rows[0]] + rows[1..][..j];
    PutAllAppend(t, [rows[0]], rows[1..][..j]);
    assert PutAll(t, [rows[0]]) == next by {
      assert [rows[0]][..0] == [];
    }
    FreshDistinctCons(t, rows[..j + 1]);
    assert rows[..j + 1][1..] == rows[1..][..j];
  }

  /** Fresh and distinct splits at the first row: the first key is fresh, and the rest are fresh after it is added. */
  lemma FreshDistinctCons(t: Table, rows: seq<Row>)
    requires |rows| > 0
    ensures FreshDistinct(t, rows) <==>
      rows[0].0 !in t && FreshDistinct(t[rows[0].0 := rows[0].1], rows[1..])
  {
    if rows[0].0 !in t && FreshDistinct(t[rows[0].0 := rows[0].1], rows[1..]) {
      forall i, j | 0 <= i < j < |rows| ensures rows[i].0 != rows[j].0 {
        if i > 0 {
          assert rows[i] == rows[1..][i - 1] && rows[j] == rows[1..][j - 1];
        } else {
          assert rows[j] == rows[1..][j - 1];
        }
      }
      forall i | 0 <= i < |rows| ensures rows[i].0 !in t {
        if i > 0 {
          assert rows[i] == rows[1..][i - 1];
        }
      }
    }
    if FreshDistinct(t, rows) {
      var t' := t[rows[0].0 := rows[0].1];
      var rest := rows[1..];
      forall i | 0 <= i < |rest| ensures rest[i].0 !in t' {
        assert rest[i] == rows[i + 1];
      }
      forall i, j | 0 <= i < j < |rest| ensures rest[i].0 != rest[j].0 {
        assert rest[i] == rows[i + 1] && rest[j] == rows[j + 1];
      }
    }
  }

  /** One flush of a full (or forced) buffer on the given backend. */
  function WriteBatch(backend: Backend, t: Table, rows: seq<Row>): (w: Written)
    ensures backend == LevelDb ==> w == Written(PutAll(t, rows))
  {
    match backend
    case Sqlite => InsertMany(t, rows)
    case LevelDb => Written(PutAll(t, rows))
  }

  /** Flushing batches in order; each committed on success, the first failure ends the call. */
  function ApplyBatches(backend: Backend, t: Table, bs: seq<seq<Row>>): (out: Outcome)
    ensures out.conflict.None? ==> out.open == out.committed
    decreases |bs|
  {
    if |bs| == 0 then Outcome(t, t, None)
    else
      match WriteBatch(backend, t, bs[0])
      case Written(next) => ApplyBatches(backend, next, bs[1..])
      case Rejected(partial, key) => Outcome(t, partial, Some(key))
  }

  lemma {:induction false} ApplyBatchesAppend(backend: Backend, t: Table, bs: seq<seq<Row>>, cs: seq<seq<Row>>)
    ensures ApplyBatches(backend, t, bs + cs) ==
      if ApplyBatches(backend, t, bs).conflict.None?
      then ApplyBatches(backend, ApplyBatches(backend, t, bs).committed, cs)
      else ApplyBatches(backend, t, bs)
    decreases |bs|
  {
    if |bs| == 0 {
      assert bs + cs == cs;
    } else {
      assert (bs + cs)[1..] == bs[1..] + cs;
      match WriteBatch(backend, t, bs[0])
      case Written(next) => ApplyBatchesAppend(backend, next, bs[1..], cs);
      case Rejected(_, _) =>
    }
  }

  // ---- the whole call ----

  /** `insert(pairs, batch_size)`: the per-pair `set` path for a batch size of 1, the buffered path otherwise. */
  function Insert<V>(backend: Backend, t: Table, codec: Serializer<V>, pairs: seq<(string, V)>, size: int): Outcome
  {
    if size == 1 then
      var r := SetAll(backend, t, codec, pairs);
      Outcome(r, r, None)
    else
      ApplyBatches(backend, t, Batches(Serialize(codec, pairs), size))
  }

  /** The default batch sizes of the two backends' `insert`. */
  const SqliteDefaultBatchSize := 1000
  const LevelDbDefaultBatchSize := 1

  /** The `batch_size == 1` loop: one `set` per pair, in input order. */
  method SetEach<V>(backend: Backend, t: Table, codec: Serializer<V>, pairs: seq<(string, V)>)
    returns (r: Table)
    ensures r == PutAll(t, Serialize(codec, pairs))
  {
    r := t;
    for i := 0 to |pairs|
      invariant r == SetAll(backend, t, codec, pairs[..i])
    {
      assert pairs[..i + 1][..i] == pairs[..i];
      r := Set(backend, r, codec, pairs[i].0, pairs[i].1);
    }
    assert pairs[..|pairs|] == pairs;
    SetAllIsPutAll(backend, t, codec, pairs);
  }

  /**
   The buffered loop: serialize each pair, append it to the buffer, flush when the guard
   holds, and force one last flush at the end; an `INSERT` conflict raises and ends the call.
   */
  method InsertBuffered<V>(backend: Backend, t: Table, codec: Serializer<V>, pairs: seq<(string, V)>, size: int)
    returns (out: Outcome)
    ensures out == ApplyBatches(backend, t, Batches(Serialize(codec, pairs), size))
  {
    ghost var rows := Serialize(codec, pairs);
    var batch: seq<Row> := [];
    var committed := t;
    for i := 0 to |pairs|
      invariant LoopState(backend, t, rows, size, i, batch, committed)
    {
      batch := batch + [(pairs[i].0, codec.serialize(pairs[i].1))];
      if ShouldFlush(batch, size, false) {
        var w := WriteBatch(backend, committed, batch);
        FlushMidStream(backend, t, rows, size, i, batch, committed, w);
        if w.Rejected? {
          return Outcome(committed, w.partial, Some(w.key));
        }
        committed := w.table;
        batch := [];
      } else {
        NoFlushMidStream(backend, t, rows, size, i, batch, committed);
      }
    }
    if ShouldFlush(batch, size, true) {
      var w := WriteBatch(backend, committed, batch);
      FlushAtEnd(backend, t, rows, size, batch, committed, w);
      if w.Rejected? {
        return Outcome(committed, w.partial, Some(w.key));
      }
      committed := w.table;
    } else {
      NoFlushAtEnd(backend, t, rows, size, batch, committed);
    }
    out := Outcome(committed, committed, None);
  }

  /** `insert(pairs, batch_size)` as the backends run it. */
  method RunInsert<V>(backend: Backend, t: Table, codec: Serializer<V>, pairs: seq<(string, V)>, size: int)
    returns (out: Outcome)
    ensures out == Insert(backend, t, codec, pairs, size)
  {
    if size == 1 {
      var r := SetEach(backend, t, codec, pairs);
      SetAllIsPutAll(backend, t, codec, pairs);
      out := Outcome(r, r, None);
    } else {
      out := InsertBuffered(backend, t, codec, pairs, size);
    }
  }

  /**
   The loop's invariant after `i` pairs: the buffer is what the model's fold leaves pending,
   and every batch the fold has flushed so far has been written without a conflict,
   leaving `committed`.
   */
  ghost predicate LoopState(backend: Backend, t: Table, rows: seq<Row>, size: int, i: int, batch: seq<Row>, committed: Table)
  {
    && 0 <= i <= |rows|
    && batch == Feed(Start(), rows[..i], size).pending
    && ApplyBatches(backend, t, Feed(Start(), rows[..i], size).flushed) == Outcome(committed, committed, None)
  }

  lemma ApplySingle(backend: Backend, t: Table, b: seq<Row>)
    ensures ApplyBatches(backend, t, [b]) ==
      match WriteBatch(backend, t, b)
      case Written(next) => Outcome(next, next, None)
      case Rejected(partial, key) => Outcome(t, partial, Some(key))
  {
    assert [b][1..] == [];
  }

  lemma FeedNext<T>(xs: seq<T>, i: nat, size: int)
    requires i < |xs|
    ensures Feed(Start(), xs[..i + 1], size) == Step(Feed(Start(), xs[..i], size), xs[i], size)
  {
    assert xs[..i + 1] == xs[..i] + [xs[i]];
    FeedSnoc(Start(), xs[..i], xs[i], size);
  }

  lemma NoFlushMidStream(backend: Backend, t: Table, rows: seq<Row>, size: int, i: int, batch: seq<Row>, committed: Table)
    requires 0 <= i < |rows| && |batch| > 0 && batch[..|batch| - 1] + [rows[i]] == batch
    requires LoopState(backend, t, rows, size, i, batch[..|batch| - 1], committed)
    requires !ShouldFlush(batch, size, false)
    ensures LoopState(backend, t, rows, size, i + 1, batch, committed)
  {
    FeedNext(rows, i, size);
  }

  lemma FlushMidStream(backend: Backend, t: Table, rows: seq<Row>, size: int, i: int, batch: seq<Row>, committed: Table, w: Written)
    requires 0 <= i < |rows| && |batch| > 0 && batch[..|batch| - 1] + [rows[i]] == batch
    requires LoopState(backend, t, rows, size, i, batch[..|batch| - 1], committed)
    requires ShouldFlush(batch, size, false)
    requires w == WriteBatch(backend, committed, batch)
    ensures w.Written? ==> LoopState(backend, t, rows, size, i + 1, [], w.table)
    ensures w.Rejected? ==> ApplyBatches(backend, t, Batches(rows, size)) == Outcome(committed, w.partial, Some(w.key))
  {
    FeedNext(rows, i, size);
    var before := Feed(Start(), rows[..i], size);
    ApplyBatchesAppend(backend, t, before.flushed, [batch]);
    ApplySingle(backend, committed, batch);
    if w.Rejected? {
      BatchesExtendFeed(rows, i + 1, size);
      var rest :| Batches(rows, size) == Feed(Start(), rows[..i + 1], size).flushed + rest;
      ApplyBatchesAppend(backend, t, Feed(Start(), rows[..i + 1], size).flushed, rest);
    }
  }

  lemma NoFlushAtEnd(backend: Backend, t: Table, rows: seq<Row>, size: int, batch: seq<Row>, committed: Table)
    requires LoopState(backend, t, rows, size, |rows|, batch, committed)
    requires !ShouldFlush(batch, size, true)
    ensures ApplyBatches(backend, t, Batches(rows, size)) == Outcome(committed, committed, None)
  {
    assert rows[..|rows|] == rows;
  }

  lemma FlushAtEnd(backend: Backend, t: Table, rows: seq<Row>, size: int, batch: seq<Row>, committed: Table, w: Written)
    requires LoopState(backend, t, rows, size, |rows|, batch, committed)
    requires ShouldFlush(batch, size, true)
    requires w == WriteBatch(backend, committed, batch)
    ensures w.Written? ==> ApplyBatches(backend, t, Batches(rows, size)) == Outcome(w.table, w.table, None)
    ensures w.Rejected? ==> ApplyBatches(backend, t, Batches(rows, size)) == Outcome(committed, w.partial, Some(w.key))
  {
    assert rows[..|rows|] == rows;
    var fed := Feed(Start(), rows, size);
    ApplyBatchesAppend(backend, t, fed.flushed, [batch]);
    ApplySingle(backend, committed, batch);
  }

  /** The batches the loop has written after any prefix of the input begin every batch the whole call writes. */
  lemma BatchesExtendFeed<T>(xs: seq<T>, n: nat, size: int)
    requires n <= |xs|
    ensures exists rest :: Batches(xs, size) == Feed(Start(), xs[..n], size).flushed + rest
  {
    var prefix := Feed(Start(), xs[..n], size);
    FeedAppend(Start(), xs[..n], xs[n..], size);
    assert xs[..n] + xs[n..] == xs;
    FeedExtends(prefix, xs[n..], size);
    var fed := Feed(Start(), xs, size);
    var all := Batches(xs, size);
    assert all[..|prefix.flushed|] == prefix.flushed;
    assert all == prefix.flushed + all[|prefix.flushed|..];
  }

  lemma {:induction false} FeedAppend<T>(b: Buffer<T>, xs: seq<T>, ys: seq<T>, size: int)
    ensures Feed(b, xs + ys, size) == Feed(Feed(b, xs, size), ys, size)
    decreases |xs|
  {
    if |xs| == 0 {
      assert xs + ys == ys;
    } else {
      assert (xs + ys)[1..] == xs[1..] + ys;
      FeedAppend(Step(b, xs[0], size), xs[1..], ys, size);
    }
  }
}
