/** Re-analysis of the records already in the store: the desktop app's librosa
    worker (`BPMReanalysisWorker.run`) and the Essentia script's `main` select
    records, analyse each selected file, merge the result into its metadata,
    and write the changed records back in batches of 50. The per-file analyser
    is a parameter: `LibrosaAnalyze` or `EssentiaAnalyze` applied to the loaded
    signals. */
module Reanalysis {
  import opened Common
  import opened Records
  import opened Batching
  import Indexing

  /** One entry of `collection.get()`: an id with its metadata. */
  datatype Entry = Entry(id: string, meta: Meta)

  datatype Engine = Librosa | Essentia

  /** The `analysis_engine` tag an engine writes. */
  function Tag(e: Engine): string {
    match e
    case Librosa => LibrosaTag
    case Essentia => EssentiaTag
  }

  /** Whether a record lacks a tempo or a key: `get('bpm', 0) == 0 or not get('key', '')`. */
  predicate Incomplete(m: Meta) {
    BpmOrZero(m) == 0.0 || KeyOrEmpty(m) == ""
  }

  /** Which records a run re-analyses. The librosa worker takes incomplete records;
      the Essentia script also takes every record librosa analysed last. */
  predicate Selected(e: Engine, force: bool, m: Meta) {
    match e
    case Librosa => force || Incomplete(m)
    case Essentia => force || m.engine.GetOr("") == LibrosaTag || Incomplete(m)
  }

  /** The selected entries, in store order (`samples_to_analyze`). */
  function Selection(e: Engine, force: bool, entries: seq<Entry>): (sel: seq<Entry>)
    ensures |sel| <= |entries|
    ensures forall x :: x in sel <==> x in entries && Selected(e, force, x.meta)
    ensures force ==> sel == entries
  {
    if |entries| == 0 then []
    else
      var rest := Selection(e, force, entries[1..]);
      assert forall x :: x in entries <==> x == entries[0] || x in entries[1..];
      if Selected(e, force, entries[0].meta) then [entries[0]] + rest else rest
  }

  /** The result carries something worth writing: a positive tempo or a key. */
  predicate Improves(a: Analysis) {
    (a.bpm.Some? && a.bpm.value > 0.0) || a.key.Some?
  }

  /** The metadata after analysis: a positive tempo and any key replace the old
      values, the engine tag is always set, and nothing else changes. */
  function Merge(e: Engine, m: Meta, a: Analysis): (r: Meta)
    ensures r.filename == m.filename
    ensures r.engine == Some(Tag(e))
    ensures a.bpm.Some? && a.bpm.value > 0.0 ==> r.bpm == a.bpm
    ensures !(a.bpm.Some? && a.bpm.value > 0.0) ==> r.bpm == m.bpm
    ensures a.key.Some? ==> r.key == a.key
    ensures a.key.None? ==> r.key == m.key
  {
    var bpm := if a.bpm.Some? && a.bpm.value > 0.0 then a.bpm else m.bpm;
    var key := if a.key.Some? then a.key else m.key;
    m.(bpm := bpm, key := key, engine := Some(Tag(e)))
  }

  /** Merging the same result twice changes nothing more. */
  lemma MergeIdempotent(e: Engine, m: Meta, a: Analysis)
    ensures Merge(e, Merge(e, m, a), a) == Merge(e, m, a)
  {
  }

  /** A record that received a positive tempo and a non-empty key is complete, so a
      later run of the same engine without `force` leaves it alone. */
  lemma CompleteAfterMerge(e: Engine, m: Meta, a: Analysis)
    requires a.bpm.Some? && a.bpm.value > 0.0 && a.key.Some? && a.key.value != ""
    ensures !Incomplete(Merge(e, m, a))
    ensures !Selected(e, false, Merge(e, m, a))
  {
  }

  /** Whatever the librosa worker writes, the Essentia script selects it next time. */
  lemma EssentiaRevisitsLibrosa(force: bool, m: Meta, a: Analysis)
    ensures Selected(Essentia, force, Merge(Librosa, m, a))
  {
  }

  /** Whether the merged entry is queued for writing: the librosa worker only
      when something changed, the Essentia script also whenever `force` is set. */
  predicate Queues(e: Engine, force: bool, a: Analysis) {
    Improves(a) || (e == Essentia && force)
  }

  /** `u` is the merged form of a selected entry whose analysis is queued. */
  predicate QueuedFrom(e: Engine, force: bool, u: Entry, sel: seq<Entry>, analyze: string -> Analysis) {
    exists j :: 0 <= j < |sel| && u.id == sel[j].id && Queues(e, force, analyze(sel[j].id))
      && u.meta == Merge(e, sel[j].meta, analyze(sel[j].id))
  }

  /** The updates a run queues for the selected entries, in order. */
  function Queue(e: Engine, force: bool, sel: seq<Entry>, analyze: string -> Analysis): (q: seq<Entry>)
    ensures |q| <= |sel|
    ensures e == Essentia && force ==> |q| == |sel|
  {
    QueueUpTo(e, force, sel, |sel|, analyze)
  }

  /** The updates queued for the first `n` selected entries. */
  function QueueUpTo(e: Engine, force: bool, sel: seq<Entry>, n: nat, analyze: string -> Analysis): (q: seq<Entry>)
    requires n <= |sel|
    ensures |q| <= n
    ensures e == Essentia && force ==> |q| == n
  {
    if n == 0 then [] else QueueUpTo(e, force, sel, n - 1, analyze) + Step(e, force, sel[n - 1], analyze)
  }

  /** What one selected entry adds to the queue. */
  function Step(e: Engine, force: bool, x: Entry, analyze: string -> Analysis): seq<Entry> {
    var a := analyze(x.id);
    if Queues(e, force, a) then [Entry(x.id, Merge(e, x.meta, a))] else []
  }

  /** Every queued update is the merged form of a selected entry whose analysis is queued. */
  lemma QueueOrigin(e: Engine, force: bool, sel: seq<Entry>, analyze: string -> Analysis)
    ensures forall k :: 0 <= k < |Queue(e, force, sel, analyze)| ==>
      QueuedFrom(e, force, Queue(e, force, sel, analyze)[k], sel, analyze)
  {
    QueueUpToOrigin(e, force, sel, |sel|, analyze);
  }

  lemma {:induction false} QueueUpToOrigin(e: Engine, force: bool, sel: seq<Entry>, n: nat, analyze: string -> Analysis)
    requires n <= |sel|
    ensures forall k :: 0 <= k < |QueueUpTo(e, force, sel, n, analyze)| ==>
      QueuedFrom(e, force, QueueUpTo(e, force, sel, n, analyze)[k], sel, analyze)
  {
    if n > 0 {
      var q0 := QueueUpTo(e, force, sel, n - 1, analyze);
      var q := QueueUpTo(e, force, sel, n, analyze);
      QueueUpToOrigin(e, force, sel, n - 1, analyze);
      forall k | 0 <= k < |q|
        ensures QueuedFrom(e, force, q[k], sel, analyze)
      {
        if k < |q0| {
          assert q[k] == q0[k];
        } else {
          assert q[k].id == sel[n - 1].id;
        }
      }
    }
  }

  /** How many of the first `n` selected entries have an analysis worth queueing. */
  function QueuedCount(e: Engine, force: bool, sel: seq<Entry>, n: nat, analyze: string -> Analysis): nat
    requires n <= |sel|
  {
    if n == 0 then 0
    else QueuedCount(e, force, sel, n - 1, analyze) + (if Queues(e, force, analyze(sel[n - 1].id)) then 1 else 0)
  }

  /** The converse of `QueueOrigin`: every selected entry whose analysis is worth
      writing is queued, merged, and the queue holds one update per such entry. */
  lemma QueueComplete(e: Engine, force: bool, sel: seq<Entry>, analyze: string -> Analysis)
    ensures |Queue(e, force, sel, analyze)| == QueuedCount(e, force, sel, |sel|, analyze)
    ensures forall j :: 0 <= j < |sel| && Queues(e, force, analyze(sel[j].id)) ==>
      Entry(sel[j].id, Merge(e, sel[j].meta, analyze(sel[j].id))) in Queue(e, force, sel, analyze)
  {
    QueueUpToComplete(e, force, sel, |sel|, analyze);
  }

  lemma {:induction false} QueueUpToComplete(e: Engine, force: bool, sel: seq<Entry>, n: nat, analyze: string -> Analysis)
    requires n <= |sel|
    ensures |QueueUpTo(e, force, sel, n, analyze)| == QueuedCount(e, force, sel, n, analyze)
    ensures forall j :: 0 <= j < n && Queues(e, force, analyze(sel[j].id)) ==>
      Entry(sel[j].id, Merge(e, sel[j].meta, analyze(sel[j].id))) in QueueUpTo(e, force, sel, n, analyze)
  {
    if n > 0 {
      QueueUpToComplete(e, force, sel, n - 1, analyze);
      var q0 := QueueUpTo(e, force, sel, n - 1, analyze);
      var q := QueueUpTo(e, force, sel, n, analyze);
      assert q == q0 + Step(e, force, sel[n - 1], analyze);
      forall j | 0 <= j < n && Queues(e, force, analyze(sel[j].id))
        ensures Entry(sel[j].id, Merge(e, sel[j].meta, analyze(sel[j].id))) in q
      {
        if j < n - 1 {
          assert Entry(sel[j].id, Merge(e, sel[j].meta, analyze(sel[j].id))) in q0;
        } else {
          assert q[|q0|] == Entry(sel[j].id, Merge(e, sel[j].meta, analyze(sel[j].id)));
        }
      }
    }
  }

  /** One run. `updated` is the count reported at the end, `flushes` the
      `collection.update` calls in order, and `progress` the percentages the
      librosa worker reports after each selected sample (the script reports none). */
  method Reanalyze(e: Engine, force: bool, entries: seq<Entry>, analyze: string -> Analysis)
    returns (updated: nat, flushes: seq<seq<Entry>>, progress: seq<int>)
    ensures var sel := Selection(e, force, entries);
      var q := Queue(e, force, sel, analyze);
      updated == |q| && flushes == Batches(q)
    ensures var sel := Selection(e, force, entries);
      updated == QueuedCount(e, force, sel, |sel|, analyze)
    ensures var sel := Selection(e, force, entries);
      progress == if e == Librosa then Indexing.ProgressUpTo(|sel|, |sel|) else []
  {
    var sel := Selection(e, force, entries);
    updated, flushes, progress := Process(e, force, sel, analyze);
    QueueComplete(e, force, sel, analyze);
  }

  /** The loop over the selected entries: analyse, merge and queue each one,
      reporting progress; the queue is then written in batches. The source
      interleaves the writes with the analysis; no analysis reads the store, so
      writing after the loop issues the same `collection.update` calls. */
  method Process(e: Engine, force: bool, sel: seq<Entry>, analyze: string -> Analysis)
    returns (updated: nat, flushes: seq<seq<Entry>>, progress: seq<int>)
    ensures updated == |Queue(e, force, sel, analyze)|
    ensures flushes == Batches(Queue(e, force, sel, analyze))
    ensures progress == ProgressFor(e, |sel|, |sel|)
  {
    var q: seq<Entry> := [];
    progress := [];
    var i := 0;
    while i < |sel|
      invariant 0 <= i <= |sel|
      invariant q == QueueUpTo(e, force, sel, i, analyze)
      invariant progress == ProgressFor(e, i, |sel|)
    {
      q := Visit(e, force, q, sel[i], analyze);
      progress := Report(e, progress, i, |sel|);
      i := i + 1;
    }
    updated := |q|;
    flushes := FlushLoop(q);
  }

  /** One selected entry: analyse it, merge, and queue the update when it is
      worth writing. */
  method Visit(e: Engine, force: bool, q: seq<Entry>, x: Entry, analyze: string -> Analysis) returns (q': seq<Entry>)
    ensures q' == q + Step(e, force, x, analyze)
  {
    var a := analyze(x.id);
    q' := q;
    if Queues(e, force, a) {
      q' := q + [Entry(x.id, Merge(e, x.meta, a))];
    }
  }

  /** The reports of the first `i` samples: the librosa worker's percentages; the
      Essentia script reports none. */
  function ProgressFor(e: Engine, i: nat, total: nat): seq<int>
    requires i <= total
  {
    if e == Librosa then Indexing.ProgressUpTo(i, total) else []
  }

  /** The report after sample `i`. */
  method Report(e: Engine, progress: seq<int>, i: nat, total: nat) returns (progress': seq<int>)
    requires i < total && progress == ProgressFor(e, i, total)
    ensures progress' == ProgressFor(e, i + 1, total)
  {
    progress' := progress;
    if e == Librosa {
      Indexing.ProgressStep(i, total);
      progress' := progress + [Indexing.Percent(i + 1, total)];
    }
  }

  /** `collection.update` applied entry by entry: an id already in the store gets
      the new metadata, an unknown id is ignored. */
  function ApplyUpdates(store: map<string, Meta>, us: seq<Entry>): (s: map<string, Meta>)
    ensures s.Keys == store.Keys
  {
    if |us| == 0 then store
    else
      var last := us[|us| - 1];
      var s0 := ApplyUpdates(store, us[..|us| - 1]);
      if last.id in s0 then s0[last.id := last.meta] else s0
  }

  /** An id no update mentions keeps its metadata. */
  lemma {:induction false} ApplyUpdatesUntouched(store: map<string, Meta>, us: seq<Entry>, id: string)
    requires id in store
    requires forall k :: 0 <= k < |us| ==> us[k].id != id
    ensures ApplyUpdates(store, us)[id] == store[id]
  {
    if |us| > 0 {
      ApplyUpdatesUntouched(store, us[..|us| - 1], id);
    }
  }

  /** An id in the store ends with the metadata of the last update that mentions it. */
  lemma {:induction false} ApplyUpdatesLastWins(store: map<string, Meta>, us: seq<Entry>, k: nat)
    requires k < |us| && us[k].id in store
    requires forall j :: k < j < |us| ==> us[j].id != us[k].id
    ensures ApplyUpdates(store, us)[us[k].id] == us[k].meta
  {
    if k < |us| - 1 {
      var init := us[..|us| - 1];
      assert init[k] == us[k];
      ApplyUpdatesLastWins(store, init, k);
    }
  }

  lemma {:induction false} ApplyUpdatesAppend(store: map<string, Meta>, a: seq<Entry>, b: seq<Entry>)
    ensures ApplyUpdates(store, a + b) == ApplyUpdates(ApplyUpdates(store, a), b)
    decreases |b|
  {
    if |b| == 0 {
      assert a + b == a;
    } else {
      assert (a + b)[..|a + b| - 1] == a + b[..|b| - 1];
      ApplyUpdatesAppend(store, a, b[..|b| - 1]);
    }
  }

  /** The batched writes, one `collection.update` per batch. */
  function ApplyFlushes(store: map<string, Meta>, fs: seq<seq<Entry>>): map<string, Meta> {
    if |fs| == 0 then store else ApplyFlushes(ApplyUpdates(store, fs[0]), fs[1..])
  }

  lemma {:induction false} ApplyFlushesConcat(store: map<string, Meta>, fs: seq<seq<Entry>>)
    ensures ApplyFlushes(store, fs) == ApplyUpdates(store, Concat(fs))
  {
    if |fs| > 0 {
      ApplyFlushesConcat(ApplyUpdates(store, fs[0]), fs[1..]);
      ApplyUpdatesAppend(store, fs[0], Concat(fs[1..]));
    }
  }

  /** Batching is invisible in the final store: writing the queue in batches of 50
      leaves the store as writing it one entry at a time would. */
  lemma BatchingInvisible(store: map<string, Meta>, q: seq<Entry>)
    ensures ApplyFlushes(store, Batches(q)) == ApplyUpdates(store, q)
  {
    ApplyFlushesConcat(store, Batches(q));
    ConcatBatches(q);
  }
}
