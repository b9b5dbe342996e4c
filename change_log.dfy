/**
 * The change log: a ring buffer of (entry, +1/-1) records with a capacity of
 * 1000 and a record counter `logId` that only grows.
 *
 * Writing record number `logId` goes to slot `logId % 1000`; when a positive
 * multiple of 1000 is about to be written the buffer is emptied first, so the
 * buffer always holds the records of the current epoch of 1000 ids. The
 * queries aggregate the records from a checkpoint's slot to the end of the
 * buffer, per entry, with a sum that never leaves -1..1.
 *
 * The ghost field `history` holds every record ever written; `Valid` ties the
 * buffer and the counter to it, so the lemmas can say which records a query
 * actually sees.
 */
module ChangeLogs {

  /** `LOG_SIZE`: the ring buffer's capacity. */
  const LogSize: nat := 1000

  /** A vertex is logged as `(v, null)`, an edge as `(src, dst)`: two different constructors. */
  datatype Entry<T> = VertexEntry(vertex: T) | EdgeEntry(source: T, dest: T)

  datatype Record<T> = Record(entry: Entry<T>, value: int)

  predicate IsUnit(x: int) {
    x == 1 || x == -1
  }

  predicate UnitRecords<T>(rs: seq<Record<T>>) {
    forall i :: 0 <= i < |rs| ==> IsUnit(rs[i].value)
  }

  // ---------------------------------------------------------------------------
  // The ring buffer as a function of the full history
  // ---------------------------------------------------------------------------

  /** The first id of the epoch the buffer holds once `logId` records were written. */
  function EpochStart(logId: nat): (s: nat)
    ensures s <= logId && s % LogSize == 0
    ensures logId > 0 ==> 1 <= logId - s <= LogSize
  {
    if logId == 0 then 0 else (logId - 1) / LogSize * LogSize
  }

  /** The buffer's content after writing the records `h`. */
  ghost function BufferOf<T>(h: seq<Record<T>>): seq<Record<T>> {
    h[EpochStart(|h|)..]
  }

  /** The buffer never exceeds `LOG_SIZE`, and holds `logId % 1000` records except right at a full epoch. */
  lemma BufferSize<T>(h: seq<Record<T>>)
    ensures |BufferOf(h)| <= LogSize
    ensures |h| > 0 ==> |BufferOf(h)| == (|h| - 1) % LogSize + 1
    ensures |BufferOf(h)| == LogSize <==> |h| > 0 && |h| % LogSize == 0
  {
  }

  /**
   * Writing one record: after the reset check the buffer holds exactly
   * `logId % 1000` records, so inserting at that index appends.
   */
  lemma BufferAfterAppend<T>(h: seq<Record<T>>, r: Record<T>)
    ensures var cleared := if |h| >= LogSize && |h| % LogSize == 0 then [] else BufferOf(h);
      |cleared| == |h| % LogSize && BufferOf(h + [r]) == cleared + [r]
  {
    var h' := h + [r];
    if |h| >= LogSize && |h| % LogSize == 0 {
      assert EpochStart(|h'|) == |h|;
    } else {
      assert EpochStart(|h'|) == EpochStart(|h|);
    }
  }

  // ---------------------------------------------------------------------------
  // Aggregation (`getAggregateLog`)
  // ---------------------------------------------------------------------------

  /** The records a query reads: from the checkpoint's slot to the end of the buffer. */
  function Window<T>(log: seq<Record<T>>, checkpoint: nat): seq<Record<T>> {
    var i := checkpoint % LogSize;
    if i <= |log| then log[i..] else []
  }

  function Clamp(x: int): int {
    if x > 1 then 1 else if x < -1 then -1 else x
  }

  /**
   * One row of the aggregation table: a value equal to the aggregate leaves it
   * unchanged, any other value is added. On -1..1 and a unit value this is the
   * sum clamped to -1..1.
   */
  function Combine(agg: int, value: int): (r: int)
    ensures agg == value ==> r == agg
    ensures -1 <= agg <= 1 && IsUnit(value) ==> r == Clamp(agg + value) && -1 <= r <= 1
  {
    if agg != value then agg + value else agg
  }

  /** The aggregate of a window, built left to right as the loop of `getAggregateLog` does. */
  ghost function Aggregate<T>(rs: seq<Record<T>>): (m: map<Entry<T>, int>)
    ensures |m| <= |rs|
    ensures |rs| > 0 ==> rs[|rs| - 1].entry in m
    decreases |rs|
  {
    if rs == [] then map[]
    else
      var m := Aggregate(rs[..|rs| - 1]);
      var r := rs[|rs| - 1];
      if r.entry in m then m[r.entry := Combine(m[r.entry], r.value)] else m[r.entry := r.value]
  }

  ghost function EntriesOf<T>(rs: seq<Record<T>>): set<Entry<T>> {
    set r | r in rs :: r.entry
  }

  /** The values recorded for one entry, in order. */
  ghost function ValuesOf<T>(rs: seq<Record<T>>, e: Entry<T>): seq<int>
    decreases |rs|
  {
    if rs == [] then []
    else ValuesOf(rs[..|rs| - 1], e) + (if rs[|rs| - 1].entry == e then [rs[|rs| - 1].value] else [])
  }

  /** Reference definition of an aggregate value: the running sum, clamped after every step. */
  function ClampedSum(vs: seq<int>): int
    decreases |vs|
  {
    if vs == [] then 0 else Clamp(ClampedSum(vs[..|vs| - 1]) + vs[|vs| - 1])
  }

  lemma ValuesOfAbsent<T>(rs: seq<Record<T>>, e: Entry<T>)
    requires e !in EntriesOf(rs)
    ensures ValuesOf(rs, e) == []
    decreases |rs|
  {
    if rs != [] {
      var init := rs[..|rs| - 1];
      assert forall r :: r in init ==> r in rs;
      ValuesOfAbsent(init, e);
    }
  }

  lemma ValuesOfSnoc<T>(init: seq<Record<T>>, r: Record<T>, e: Entry<T>)
    ensures r.entry == e ==> ValuesOf(init + [r], e) == ValuesOf(init, e) + [r.value]
    ensures r.entry != e ==> ValuesOf(init + [r], e) == ValuesOf(init, e)
  {
    assert (init + [r])[..|init|] == init;
  }

  lemma AggregateSnoc<T>(init: seq<Record<T>>, r: Record<T>)
    ensures var m := Aggregate(init);
      Aggregate(init + [r]) == m[r.entry := if r.entry in m then Combine(m[r.entry], r.value) else r.value]
    ensures Aggregate(init + [r]).Keys == Aggregate(init).Keys + {r.entry}
  {
    assert (init + [r])[..|init|] == init;
  }

  lemma EntriesOfSnoc<T>(init: seq<Record<T>>, r: Record<T>)
    ensures EntriesOf(init + [r]) == EntriesOf(init) + {r.entry}
  {
    assert r in init + [r];
    assert forall x :: x in init + [r] <==> x in init || x == r;
  }

  lemma ClampedSumSnoc(vs: seq<int>, v: int)
    ensures ClampedSum(vs + [v]) == Clamp(ClampedSum(vs) + v)
  {
    assert (vs + [v])[..|vs|] == vs;
  }

  /** The value the new record's entry takes is its clamped sum, in -1..1. */
  lemma AggregateStepAt<T>(init: seq<Record<T>>, r: Record<T>)
    requires IsUnit(r.value)
    requires Aggregate(init).Keys == EntriesOf(init)
    requires r.entry in Aggregate(init) ==> Aggregate(init)[r.entry] == ClampedSum(ValuesOf(init, r.entry))
    requires r.entry in Aggregate(init) ==> -1 <= Aggregate(init)[r.entry] <= 1
    ensures var a := Aggregate(init + [r]);
      r.entry in a && a[r.entry] == ClampedSum(ValuesOf(init + [r], r.entry)) && -1 <= a[r.entry] <= 1
  {
    var m := Aggregate(init);
    var vs := ValuesOf(init, r.entry);
    AggregateSnoc(init, r);
    ValuesOfSnoc(init, r, r.entry);
    ClampedSumSnoc(vs, r.value);
    if r.entry !in EntriesOf(init) {
      ValuesOfAbsent(init, r.entry);
    }
  }

  /** Every other entry keeps its value, and its records are those of the shorter window. */
  lemma AggregateStepElsewhere<T>(init: seq<Record<T>>, r: Record<T>, e: Entry<T>)
    requires e != r.entry
    ensures e in Aggregate(init + [r]) <==> e in Aggregate(init)
    ensures e in Aggregate(init) ==> Aggregate(init + [r])[e] == Aggregate(init)[e]
    ensures ValuesOf(init + [r], e) == ValuesOf(init, e)
  {
    AggregateSnoc(init, r);
    ValuesOfSnoc(init, r, e);
  }

  /** The aggregate's properties carry over from a window to the window extended by one record. */
  lemma AggregateStep<T>(init: seq<Record<T>>, r: Record<T>)
    requires IsUnit(r.value)
    requires Aggregate(init).Keys == EntriesOf(init)
    requires forall e :: e in Aggregate(init) ==> Aggregate(init)[e] == ClampedSum(ValuesOf(init, e))
    requires forall e :: e in Aggregate(init) ==> -1 <= Aggregate(init)[e] <= 1
    ensures var rs := init + [r];
      && Aggregate(rs).Keys == EntriesOf(rs)
      && (forall e :: e in Aggregate(rs) ==> Aggregate(rs)[e] == ClampedSum(ValuesOf(rs, e)))
      && (forall e :: e in Aggregate(rs) ==> -1 <= Aggregate(rs)[e] <= 1)
  {
    var rs := init + [r];
    AggregateSnoc(init, r);
    EntriesOfSnoc(init, r);
    AggregateStepAt(init, r);
    forall e | e in Aggregate(rs)
      ensures Aggregate(rs)[e] == ClampedSum(ValuesOf(rs, e)) && -1 <= Aggregate(rs)[e] <= 1
    {
      if e != r.entry {
        AggregateStepElsewhere(init, r, e);
      }
    }
  }

  /**
   * The aggregate has one key per entry in the window, and its value is the
   * clamped sum of that entry's records; it always lies in -1..1.
   */
  lemma {:induction false} AggregateIsClampedSum<T>(rs: seq<Record<T>>)
    requires UnitRecords(rs)
    ensures Aggregate(rs).Keys == EntriesOf(rs)
    ensures forall e :: e in Aggregate(rs) ==> Aggregate(rs)[e] == ClampedSum(ValuesOf(rs, e))
    ensures forall e :: e in Aggregate(rs) ==> -1 <= Aggregate(rs)[e] <= 1
    decreases |rs|
  {
    if rs != [] {
      var init := rs[..|rs| - 1];
      var r := rs[|rs| - 1];
      assert rs == init + [r];
      assert UnitRecords(init);
      AggregateIsClampedSum(init);
      AggregateStep(init, r);
    }
  }

  /** `allMatch(value -> value != 0)` over the aggregate. */
  ghost predicate AllNonzero<T>(m: map<Entry<T>, int>) {
    forall e :: e in m ==> m[e] != 0
  }

  /** Sum of the values of a map (`mapToInt(...).sum()`). */
  ghost function MapSum<K>(m: map<K, int>): int
    decreases |m|
  {
    if m == map[] then 0
    else
      var k :| k in m;
      m[k] + MapSum(m - {k})
  }

  lemma {:induction false} MapSumRemove<K>(m: map<K, int>, k: K)
    requires k in m
    ensures MapSum(m) == m[k] + MapSum(m - {k})
    decreases |m|
  {
    var j :| j in m && MapSum(m) == m[j] + MapSum(m - {j});
    if j != k {
      var mj := m - {j};
      var mk := m - {k};
      assert |mj| < |m| && |mk| < |m|;
      MapSumRemove(mj, k);
      MapSumRemove(mk, j);
      assert mj - {k} == mk - {j};
    }
  }

  /** `nextResetId`: the first id of the epoch after the checkpoint's. */
  function NextResetId(checkpoint: nat): nat {
    (checkpoint / LogSize + 1) * LogSize
  }

  /** The sum of values in -1..1 lies between minus and plus the number of keys. */
  lemma {:induction false} MapSumBound<K>(m: map<K, int>)
    requires forall k :: k in m ==> -1 <= m[k] <= 1
    ensures -|m.Keys| <= MapSum(m) <= |m.Keys|
    decreases |m|
  {
    if m != map[] {
      var k :| k in m;
      MapSumRemove(m, k);
      MapSumBound(m - {k});
      assert (m - {k}).Keys == m.Keys - {k};
    }
  }

  /** The aggregate of unit records sums to at most one per entry, in either direction. */
  lemma NetChangeBound<T>(rs: seq<Record<T>>)
    ensures UnitRecords(rs) ==> -|EntriesOf(rs)| <= MapSum(Aggregate(rs)) <= |EntriesOf(rs)|
  {
    if UnitRecords(rs) {
      AggregateIsClampedSum(rs);
      MapSumBound(Aggregate(rs));
    }
  }

  /**
   * `hasChangedSince` on a buffer and a counter: true once the counter is past
   * the checkpoint's next reset, and true when nothing is scanned (`allMatch` of
   * an empty stream).
   */
  ghost predicate HasChangedOn<T>(log: seq<Record<T>>, logId: nat, checkpoint: nat)
    ensures logId > NextResetId(checkpoint) ==> HasChangedOn(log, logId, checkpoint)
    ensures Window(log, checkpoint) == [] ==> HasChangedOn(log, logId, checkpoint)
  {
    logId > NextResetId(checkpoint) || AllNonzero(Aggregate(Window(log, checkpoint)))
  }

  /**
   * `netChangeSince` on a buffer: 0 when nothing is scanned, and for unit records
   * at most one per distinct entry scanned, in either direction.
   */
  ghost function NetChangeOn<T>(log: seq<Record<T>>, checkpoint: nat): (n: int)
    ensures Window(log, checkpoint) == [] ==> n == 0
    ensures var w := Window(log, checkpoint);
      UnitRecords(w) ==> -|EntriesOf(w)| <= n <= |EntriesOf(w)|
  {
    NetChangeBound(Window(log, checkpoint));
    MapSum(Aggregate(Window(log, checkpoint)))
  }

  /** `hasChangedSince` after writing the records `h` (the buffer is `BufferOf(h)`, the counter `|h|`). */
  ghost predicate HasChanged<T>(h: seq<Record<T>>, checkpoint: nat) {
    HasChangedOn(BufferOf(h), |h|, checkpoint)
  }

  ghost function NetChange<T>(h: seq<Record<T>>, checkpoint: nat): int {
    NetChangeOn(BufferOf(h), checkpoint)
  }

  // ---------------------------------------------------------------------------
  // What the queries see
  // ---------------------------------------------------------------------------

  /**
   * As long as the counter has not passed the checkpoint's next reset, the
   * window is exactly the records written since the checkpoint (except for a
   * checkpoint on an epoch boundary that nothing has been written after; see
   * `CheckpointOnEpochBoundary`).
   */
  lemma WindowIsRecordsSince<T>(h: seq<Record<T>>, checkpoint: nat)
    requires checkpoint <= |h| <= NextResetId(checkpoint)
    requires checkpoint < |h| || checkpoint % LogSize != 0 || checkpoint == 0
    ensures Window(BufferOf(h), checkpoint) == h[checkpoint..]
  {
    var start := EpochStart(|h|);
    if checkpoint < |h| {
      assert (|h| - 1) / LogSize == checkpoint / LogSize;
    }
    assert start + checkpoint % LogSize == checkpoint;
  }

  /**
   * Once the counter is past the checkpoint's next reset, the buffer no longer
   * holds the checkpoint's record, and `hasChangedSince` answers true whatever
   * the records say.
   */
  lemma OverwrittenMeansChanged<T>(h: seq<Record<T>>, checkpoint: nat)
    requires |h| > NextResetId(checkpoint)
    ensures EpochStart(|h|) > checkpoint
    ensures HasChanged(h, checkpoint)
  {
  }

  /**
   * A checkpoint taken on a positive multiple of 1000, before that record is
   * written, reads the whole previous epoch: the reset only happens when the
   * next record is written.
   */
  lemma CheckpointOnEpochBoundary<T>(h: seq<Record<T>>)
    requires |h| > 0 && |h| % LogSize == 0
    ensures Window(BufferOf(h), |h|) == h[|h| - LogSize..]
    ensures |Window(BufferOf(h), |h|)| == LogSize
  {
  }

  /**
   * Inside the checkpoint's epoch, `hasChangedSince` is true exactly when every
   * entry written since the checkpoint has a nonzero clamped sum.
   */
  lemma HasChangedMeaning<T>(h: seq<Record<T>>, checkpoint: nat)
    requires UnitRecords(h)
    requires checkpoint <= |h| <= NextResetId(checkpoint)
    requires checkpoint < |h| || checkpoint % LogSize != 0 || checkpoint == 0
    ensures HasChanged(h, checkpoint) <==>
      forall e :: e in EntriesOf(h[checkpoint..]) ==> ClampedSum(ValuesOf(h[checkpoint..], e)) != 0
  {
    WindowIsRecordsSince(h, checkpoint);
    var since := h[checkpoint..];
    assert UnitRecords(since) by {
      forall i | 0 <= i < |since| ensures IsUnit(since[i].value) {
        assert since[i] == h[checkpoint + i];
      }
    }
    AggregateIsClampedSum(since);
  }

  /** Nothing written since the checkpoint: vacuously "changed", and no net change. */
  lemma NothingWrittenSince<T>(h: seq<Record<T>>)
    requires |h| % LogSize != 0 || |h| == 0
    ensures HasChanged(h, |h|)
    ensures NetChange(h, |h|) == 0
  {
    WindowIsRecordsSince(h, |h|);
    assert Window(BufferOf(h), |h|) == [];
  }

  /**
   * Inserting then deleting the same entry (or deleting then inserting it)
   * since the checkpoint: no change and no net change, unless the checkpoint
   * sits in the last slot of its epoch, where the second record lies past the
   * next reset and the answer is the conservative true.
   */
  lemma CancellingPair<T>(h: seq<Record<T>>, e: Entry<T>, v: int)
    requires IsUnit(v)
    ensures var h' := h + [Record(e, v), Record(e, -v)];
      if |h| % LogSize != LogSize - 1 then !HasChanged(h', |h|) && NetChange(h', |h|) == 0
      else HasChanged(h', |h|)
  {
    var h' := h + [Record(e, v), Record(e, -v)];
    var c := |h|;
    if c % LogSize != LogSize - 1 {
      WindowIsRecordsSince(h', c);
      var w := h'[c..];
      assert w == [Record(e, v), Record(e, -v)];
      assert w[..1] == [Record(e, v)];
      assert w[..1][..0] == [];
      assert Aggregate(w[..1]) == map[e := v];
      var m := Aggregate(w);
      assert m == map[e := v][e := Combine(v, -v)];
      assert m == map[e := 0];
      MapSumRemove(m, e);
      assert m - {e} == map[];
    }
  }

  /**
   * Directed edges are distinct entries: adding (a, b) and deleting (b, a)
   * nets to zero yet counts as a change. When the checkpoint sits in the last
   * slot of its epoch the second record starts a new epoch: the scan is empty
   * and the counter is past the next reset, with the same answers.
   */
  lemma OppositeEdgesStayChanged<T>(h: seq<Record<T>>, a: T, b: T)
    requires a != b
    ensures var h' := h + [Record(EdgeEntry(a, b), 1), Record(EdgeEntry(b, a), -1)];
      NetChange(h', |h|) == 0 && HasChanged(h', |h|)
  {
    var ab, ba := EdgeEntry(a, b), EdgeEntry(b, a);
    var h' := h + [Record(ab, 1), Record(ba, -1)];
    var c := |h|;
    if c % LogSize == LogSize - 1 {
      assert EpochStart(|h'|) == c + 1;
      assert |BufferOf(h')| == 1;
      assert Window(BufferOf(h'), c) == [];
    } else {
      WindowIsRecordsSince(h', c);
      var w := h'[c..];
      assert w == [Record(ab, 1), Record(ba, -1)];
      assert w[..1] == [Record(ab, 1)];
      assert w[..1][..0] == [];
      assert Aggregate(w[..1]) == map[ab := 1];
      var m := Aggregate(w);
      assert ba !in map[ab := 1];
      assert m == map[ab := 1][ba := -1];
      MapSumRemove(m, ab);
      var m1 := m - {ab};
      assert m1 == map[ba := -1];
      MapSumRemove(m1, ba);
      assert m1 - {ba} == map[];
    }
  }

  /**
   * `hasChangedSince` asks for every entry to be nonzero, so one cancelled
   * entry hides a real change: adding a and b and deleting a again answers
   * false, although the net change is 1.
   */
  lemma CancelledEntryMasksChange<T>(h: seq<Record<T>>, a: T, b: T)
    requires a != b
    requires |h| % LogSize < LogSize - 2
    ensures var h' := h + [Record(VertexEntry(a), 1), Record(VertexEntry(b), 1), Record(VertexEntry(a), -1)];
      NetChange(h', |h|) == 1 && !HasChanged(h', |h|)
  {
    var va, vb := VertexEntry(a), VertexEntry(b);
    var h' := h + [Record(va, 1), Record(vb, 1), Record(va, -1)];
    var c := |h|;
    WindowIsRecordsSince(h', c);
    var w := h'[c..];
    assert w == [Record(va, 1), Record(vb, 1), Record(va, -1)];
    assert w[..2] == [Record(va, 1), Record(vb, 1)];
    assert w[..2][..1] == [Record(va, 1)];
    assert w[..2][..1][..0] == [];
    assert Aggregate(w[..2][..1]) == map[va := 1];
    assert vb !in map[va := 1];
    assert Aggregate(w[..2]) == map[va := 1, vb := 1];
    var m := Aggregate(w);
    assert m == map[va := 0, vb := 1];
    MapSumRemove(m, va);
    var m1 := m - {va};
    assert m1 == map[vb := 1];
    MapSumRemove(m1, vb);
    assert m1 - {vb} == map[];
  }

  /** `n` insert/delete pairs of the same entry. */
  function Alternating<T>(e: Entry<T>, n: nat): seq<Record<T>> {
    if n == 0 then [] else Alternating(e, n - 1) + [Record(e, 1), Record(e, -1)]
  }

  lemma {:induction false} AlternatingAggregate<T>(e: Entry<T>, n: nat)
    requires n > 0
    ensures |Alternating(e, n)| == 2 * n
    ensures Aggregate(Alternating(e, n)) == map[e := 0]
  {
    var a := Alternating(e, n - 1);
    if n > 1 {
      AlternatingAggregate(e, n - 1);
    }
    PairAfterCancelled(a, e);
  }

  /** A +1/-1 pair after records that leave `e` at 0 or absent leaves it at 0 alone. */
  lemma PairAfterCancelled<T>(a: seq<Record<T>>, e: Entry<T>)
    requires Aggregate(a) == map[] || Aggregate(a) == map[e := 0]
    ensures Aggregate(a + [Record(e, 1), Record(e, -1)]) == map[e := 0]
  {
    var r1, r2 := Record(e, 1), Record(e, -1);
    AggregateSnoc(a, r1);
    var m1 := Aggregate(a + [r1]);
    assert m1 == map[e := 1];
    AggregateSnoc(a + [r1], r2);
    assert a + [r1] + [r2] == a + [r1, r2];
  }

  /**
   * A checkpoint on a positive multiple of 1000 with nothing written after it
   * still scans the whole previous epoch: after an epoch of insert/delete pairs
   * of one entry, `hasChangedSince(getLogId())` is false, unlike a checkpoint
   * anywhere else (`NothingWrittenSince`).
   */
  lemma EpochOfCancellingPairs<T>(h: seq<Record<T>>, e: Entry<T>)
    requires |h| % LogSize == 0
    ensures var h' := h + Alternating(e, LogSize / 2);
      !HasChanged(h', |h'|) && NetChange(h', |h'|) == 0
  {
    var pairs := Alternating(e, LogSize / 2);
    var h' := h + pairs;
    AlternatingAggregate(e, LogSize / 2);
    CheckpointOnEpochBoundary(h');
    assert h'[|h'| - LogSize..] == pairs;
    var m := Aggregate(pairs);
    assert e in m && m[e] == 0;
    MapSumRemove(m, e);
    assert m - {e} == map[];
  }

  // ---------------------------------------------------------------------------
  // The log object
  // ---------------------------------------------------------------------------

  class ChangeLog<T(==)> {
    var log: seq<Record<T>>
    var logId: nat
    /** Every record ever written, oldest first. */
    ghost var history: seq<Record<T>>

    ghost predicate Valid()
      reads this
    {
      && logId == |history|
      && log == BufferOf(history)
      && UnitRecords(history)
    }

    constructor ()
      ensures Valid() && history == [] && log == [] && logId == 0
    {
      logId := 0;
      history := [];
      new;
      Reset();
    }

    /** `reset`: a new, empty buffer. */
    method Reset()
      modifies this`log
      ensures log == []
    {
      log := [];
    }

    /** `append`: write one record at slot `logId % 1000`, clearing the buffer at a new epoch. */
    method Append(entry: Entry<T>, value: int)
      requires Valid() && IsUnit(value)
      modifies this
      ensures Valid()
      ensures history == old(history) + [Record(entry, value)]
      ensures logId == old(logId) + 1
    {
      var index := logId % LogSize;
      if logId >= LogSize && index == 0 {
        Reset();
      }
      BufferAfterAppend(history, Record(entry, value));
      assert index == |log|;
      log := log[..index] + [Record(entry, value)] + log[index..];
      logId := logId + 1;
      history := history + [Record(entry, value)];
    }

    method AddVertex(vertex: T)
      requires Valid()
      modifies this
      ensures Valid() && history == old(history) + [Record(VertexEntry(vertex), 1)]
    {
      Append(VertexEntry(vertex), 1);
    }

    method DeleteVertex(vertex: T)
      requires Valid()
      modifies this
      ensures Valid() && history == old(history) + [Record(VertexEntry(vertex), -1)]
    {
      Append(VertexEntry(vertex), -1);
    }

    method AddEdge(edge: (T, T))
      requires Valid()
      modifies this
      ensures Valid() && history == old(history) + [Record(EdgeEntry(edge.0, edge.1), 1)]
    {
      Append(EdgeEntry(edge.0, edge.1), 1);
    }

    method DeleteEdge(edge: (T, T))
      requires Valid()
      modifies this
      ensures Valid() && history == old(history) + [Record(EdgeEntry(edge.0, edge.1), -1)]
    {
      Append(EdgeEntry(edge.0, edge.1), -1);
    }

    /** `getAggregateLog`: fold the window into a map, entry by entry, with the table of `Combine`. */
    method GetAggregateLog(checkpoint: nat) returns (agg: map<Entry<T>, int>)
      ensures agg == Aggregate(Window(log, checkpoint))
    {
      var index := checkpoint % LogSize;
      agg := map[];
      if index > |log| {
        return;
      }
      var i := index;
      while i < |log|
        invariant index <= i <= |log|
        invariant agg == Aggregate(log[index..i])
        decreases |log| - i
      {
        var entry := log[i].entry;
        var currentValue := log[i].value;
        assert log[index..i + 1][..i - index] == log[index..i];
        if entry in agg {
          var aggregateValue := agg[entry];
          if aggregateValue != currentValue {
            agg := agg[entry := aggregateValue + currentValue];
          }
        } else {
          agg := agg[entry := currentValue];
        }
        i := i + 1;
      }
      assert log[index..i] == log[index..];
    }

    /** `getLogId`: the number of records ever written. */
    function GetLogId(): (id: nat)
      reads this
      requires Valid()
      ensures id == |history|
    {
      logId
    }

    /** `getLogSize`: the buffer's length, at most `LOG_SIZE`. */
    function GetLogSize(): (n: nat)
      reads this
      requires Valid()
      ensures n == |log| && n <= LogSize
      ensures logId > 0 ==> n == (logId - 1) % LogSize + 1
      ensures logId == 0 ==> n == 0
    {
      BufferSize(history);
      |log|
    }

    method HasChangedSince(checkpoint: nat) returns (changed: bool)
      ensures changed == HasChangedOn(log, logId, checkpoint)
    {
      var nextResetId := (checkpoint / LogSize + 1) * LogSize;
      if logId > nextResetId {
        return true;
      }
      var agg := GetAggregateLog(checkpoint);
      changed := forall e | e in agg :: agg[e] != 0;
    }

    method NetChangeSince(checkpoint: nat) returns (net: int)
      ensures net == NetChangeOn(log, checkpoint)
    {
      var agg := GetAggregateLog(checkpoint);
      net := 0;
      ghost var seen: map<Entry<T>, int> := agg;
      var rest := agg.Keys;
      while rest != {}
        invariant rest == seen.Keys
        invariant forall e :: e in seen ==> e in agg && seen[e] == agg[e]
        invariant net + MapSum(seen) == MapSum(agg)
        decreases rest
      {
        var e :| e in rest;
        MapSumRemove(seen, e);
        net := net + agg[e];
        seen := seen - {e};
        rest := rest - {e};
      }
    }
  }
}
