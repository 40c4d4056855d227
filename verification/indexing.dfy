/** `IndexerBackend.run_indexing` and `get_duration` of the desktop indexer:
    the directory walk is filtered to new, short, supported audio files, and
    each one with a usable embedding becomes one record in the store.
    The walk, path normalisation, duration probes, the embedding model and the
    per-file analyser are inputs. */
module Indexing {
  import opened Common
  import opened Strings
  import opened Paths
  import opened Records

  /** Longest clip, in seconds, that is indexed. */
  const MaxDuration: real := 10.0

  /** Extensions a file name must end with (after lower-casing) to be considered. */
  const AudioExtensions: seq<string> := [".wav", ".mp3", ".aif", ".aiff", ".flac", ".ogg", ".opus", ".m4a", ".aac"]

  /** Extensions whose duration is read from the container's tags. */
  const TagExtensions: seq<string> := [".mp3", ".aif", ".aiff", ".flac", ".ogg", ".opus", ".m4a", ".aac"]

  /** Duration readers: `wav` is frames / rate from the `wave` header, `tags` the
      length mutagen reports; each is `None` where the library raises or finds nothing. */
  datatype Probes = Probes(wav: string -> Option<real>, tags: string -> Option<real>)

  /** `get_duration`: dispatch on the lower-cased extension. */
  function GetDuration(p: string, probes: Probes): (d: Option<real>)
    ensures var ext := Lower(SplitExt(p, IsWindowsSep));
      d.Some? ==> ext in AudioExtensions
    ensures var ext := Lower(SplitExt(p, IsWindowsSep));
      ext == ".wav" ==> d == probes.wav(p)
    ensures var ext := Lower(SplitExt(p, IsWindowsSep));
      ext in TagExtensions ==> d == probes.tags(p)
  {
    var ext := Lower(SplitExt(p, IsWindowsSep));
    if ext == ".wav" then probes.wav(p)
    else if ext in TagExtensions then probes.tags(p)
    else None
  }

  /** One file found by `os.walk`: its name and `os.path.join(root, name)`. */
  datatype WalkEntry = WalkEntry(name: string, path: string)

  /** The collaborators of one indexing run. */
  datatype IndexEnv = IndexEnv(
    normalize: string -> string,
    probes: Probes,
    embed: string -> Option<seq<real>>,
    analyze: string -> Analysis)

  predicate IsSupportedName(name: string) {
    EndsWithAny(Lower(name), AudioExtensions)
  }

  /** Whether a walked file becomes an indexing candidate. */
  predicate Admits(existing: set<string>, e: WalkEntry, env: IndexEnv) {
    var p := env.normalize(e.path);
    && IsSupportedName(e.name)
    && p !in existing
    && GetDuration(p, env.probes).Some?
    && GetDuration(p, env.probes).value <= MaxDuration
  }

  /** `files_to_process`: the normalised paths of the admitted files, in walk order. */
  function Candidates(existing: set<string>, walk: seq<WalkEntry>, env: IndexEnv): (cs: seq<string>)
    ensures |cs| <= |walk|
    ensures forall p :: p in cs <==> exists e :: e in walk && Admits(existing, e, env) && env.normalize(e.path) == p
    ensures forall p :: p in cs ==> p !in existing
  {
    if |walk| == 0 then []
    else
      var rest := Candidates(existing, walk[1..], env);
      assert forall e :: e in walk <==> e == walk[0] || e in walk[1..];
      if Admits(existing, walk[0], env) then [env.normalize(walk[0].path)] + rest else rest
  }

  /** Knowing more ids can only remove candidates. */
  lemma {:induction false} CandidatesShrink(small: set<string>, large: set<string>, walk: seq<WalkEntry>, env: IndexEnv)
    requires small <= large
    ensures forall p :: p in Candidates(large, walk, env) ==> p in Candidates(small, walk, env)
  {
    forall p | p in Candidates(large, walk, env)
      ensures p in Candidates(small, walk, env)
    {
      var e :| e in walk && Admits(large, e, env) && env.normalize(e.path) == p;
      assert Admits(small, e, env);
    }
  }

  /** `if vector:` -- a missing or empty embedding is skipped. */
  predicate HasEmbedding(v: Option<seq<real>>) {
    v.Some? && |v.value| > 0
  }

  /** The record `run_indexing` adds for path `p`. */
  function MakeRecord(p: string, vector: seq<real>, a: Analysis): (r: SampleRecord)
    ensures r.id == p && r.document == p && r.embedding == vector
    ensures r.meta.filename == Some(Basename(p, IsWindowsSep))
    ensures r.meta.bpm == Some(a.bpm.GetOr(0.0)) && r.meta.key == Some(a.key.GetOr(""))
    ensures r.meta.engine == Some(LibrosaTag)
  {
    SampleRecord(p, vector, p,
      Meta(Some(Basename(p, IsWindowsSep)), Some(a.bpm.GetOr(0.0)), Some(a.key.GetOr("")), Some(LibrosaTag)))
  }

  /** The record for a candidate whose embedding is usable. */
  function RecordFor(p: string, env: IndexEnv): SampleRecord
    requires HasEmbedding(env.embed(p))
  {
    MakeRecord(p, env.embed(p).value, env.analyze(p))
  }

  /** The records added for a candidate list, in order. */
  function AddsFor(cands: seq<string>, env: IndexEnv): (adds: seq<SampleRecord>)
    ensures |adds| <= |cands|
    ensures forall k :: 0 <= k < |adds| ==>
      adds[k].id in cands && HasEmbedding(env.embed(adds[k].id)) && adds[k] == RecordFor(adds[k].id, env)
    ensures forall j :: 0 <= j < |cands| && HasEmbedding(env.embed(cands[j])) ==>
      exists k :: 0 <= k < |adds| && adds[k].id == cands[j]
  {
    if |cands| == 0 then []
    else
      var init := cands[..|cands| - 1];
      var p := cands[|cands| - 1];
      var rest := AddsFor(init, env);
      var adds := rest + (if HasEmbedding(env.embed(p)) then [RecordFor(p, env)] else []);
      AddsForRecordStep(cands, rest, adds, env);
      AddsForCoverStep(cands, rest, adds, env);
      adds
  }

  /** Appending the last candidate's record keeps every record tied to a usable candidate. */
  lemma AddsForRecordStep(cands: seq<string>, rest: seq<SampleRecord>, adds: seq<SampleRecord>, env: IndexEnv)
    requires |cands| > 0
    requires forall k :: 0 <= k < |rest| ==>
      rest[k].id in cands[..|cands| - 1] && HasEmbedding(env.embed(rest[k].id)) && rest[k] == RecordFor(rest[k].id, env)
    requires var p := cands[|cands| - 1];
      adds == rest + (if HasEmbedding(env.embed(p)) then [RecordFor(p, env)] else [])
    ensures forall k :: 0 <= k < |adds| ==>
      adds[k].id in cands && HasEmbedding(env.embed(adds[k].id)) && adds[k] == RecordFor(adds[k].id, env)
  {
    forall k | 0 <= k < |adds|
      ensures adds[k].id in cands && HasEmbedding(env.embed(adds[k].id)) && adds[k] == RecordFor(adds[k].id, env)
    {
      if k < |rest| {
        assert adds[k] == rest[k];
        var j :| 0 <= j < |cands| - 1 && cands[..|cands| - 1][j] == rest[k].id;
        assert cands[j] == rest[k].id;
      } else {
        assert adds[k].id == cands[|cands| - 1];
      }
    }
  }

  /** The last candidate's record, appended to the records of the others, keeps
      every usable candidate covered. */
  lemma AddsForCoverStep(cands: seq<string>, rest: seq<SampleRecord>, adds: seq<SampleRecord>, env: IndexEnv)
    requires |cands| > 0
    requires forall j :: 0 <= j < |cands| - 1 && HasEmbedding(env.embed(cands[j])) ==>
      exists k :: 0 <= k < |rest| && rest[k].id == cands[j]
    requires var p := cands[|cands| - 1];
      adds == rest + (if HasEmbedding(env.embed(p)) then [RecordFor(p, env)] else [])
    ensures forall j :: 0 <= j < |cands| && HasEmbedding(env.embed(cands[j])) ==>
      exists k :: 0 <= k < |adds| && adds[k].id == cands[j]
  {
    forall j | 0 <= j < |cands| && HasEmbedding(env.embed(cands[j]))
      ensures exists k :: 0 <= k < |adds| && adds[k].id == cands[j]
    {
      if j < |cands| - 1 {
        var k :| 0 <= k < |rest| && rest[k].id == cands[j];
        assert adds[k].id == cands[j];
      } else {
        assert adds[|rest|].id == cands[j];
      }
    }
  }

  /** The candidates with a usable embedding, in candidate order. */
  function Usable(cands: seq<string>, embed: string -> Option<seq<real>>): (us: seq<string>)
    ensures |us| <= |cands|
    ensures forall p :: p in us <==> p in cands && HasEmbedding(embed(p))
  {
    if |cands| == 0 then []
    else
      assert forall p :: p in cands <==> p == cands[0] || p in cands[1..];
      (if HasEmbedding(embed(cands[0])) then [cands[0]] else []) + Usable(cands[1..], embed)
  }

  /** `Usable` read from the back: the last candidate comes last. */
  lemma {:induction false} UsableSnoc(cands: seq<string>, embed: string -> Option<seq<real>>)
    requires |cands| > 0
    ensures var last := cands[|cands| - 1];
      Usable(cands, embed) == Usable(cands[..|cands| - 1], embed) + (if HasEmbedding(embed(last)) then [last] else [])
  {
    if |cands| > 1 {
      UsableSnoc(cands[1..], embed);
      assert cands[1..][..|cands[1..]| - 1] == cands[..|cands| - 1][1..];
    }
  }

  /** The records `run_indexing` adds are exactly, in order, the records of the
      usable candidates: one per usable candidate, so its count is their number. */
  lemma {:induction false} AddsForInOrder(cands: seq<string>, env: IndexEnv)
    ensures |AddsFor(cands, env)| == |Usable(cands, env.embed)|
    ensures forall k :: 0 <= k < |AddsFor(cands, env)| ==>
      HasEmbedding(env.embed(Usable(cands, env.embed)[k]))
      && AddsFor(cands, env)[k] == RecordFor(Usable(cands, env.embed)[k], env)
  {
    if |cands| > 0 {
      var init := cands[..|cands| - 1];
      var last := cands[|cands| - 1];
      AddsForInOrder(init, env);
      UsableSnoc(cands, env.embed);
      InOrderStep(AddsFor(init, env), Usable(init, env.embed), AddsFor(cands, env), Usable(cands, env.embed), last, env);
    }
  }

  lemma InOrderStep(rest: seq<SampleRecord>, us0: seq<string>, adds: seq<SampleRecord>, us: seq<string>, last: string, env: IndexEnv)
    requires |rest| == |us0|
    requires forall k :: 0 <= k < |rest| ==> HasEmbedding(env.embed(us0[k])) && rest[k] == RecordFor(us0[k], env)
    requires adds == rest + (if HasEmbedding(env.embed(last)) then [RecordFor(last, env)] else [])
    requires us == us0 + (if HasEmbedding(env.embed(last)) then [last] else [])
    ensures |adds| == |us|
    ensures forall k :: 0 <= k < |adds| ==> HasEmbedding(env.embed(us[k])) && adds[k] == RecordFor(us[k], env)
  {
    forall k | 0 <= k < |adds|
      ensures HasEmbedding(env.embed(us[k])) && adds[k] == RecordFor(us[k], env)
    {
      if k < |rest| {
        assert adds[k] == rest[k] && us[k] == us0[k];
      }
    }
  }

  /** No record is added when no candidate has a usable embedding, and only then. */
  lemma AddsForEmpty(cands: seq<string>, env: IndexEnv)
    ensures AddsFor(cands, env) == [] <==> forall j :: 0 <= j < |cands| ==> !HasEmbedding(env.embed(cands[j]))
  {
    var adds := AddsFor(cands, env);
    if adds != [] {
      assert adds[0].id in cands && HasEmbedding(env.embed(adds[0].id));
    }
  }

  /** `int((i + 1) / n * 100)` computed exactly: the quotient of `100 * done` by `total`. */
  function Percent(done: nat, total: nat): nat
    requires total > 0
  {
    Quotient(done * 100, total)
  }

  /** Whole-number division by repeated subtraction. */
  function Quotient(a: nat, d: nat): nat
    requires d > 0
    decreases a
  {
    if a < d then 0 else 1 + Quotient(a - d, d)
  }

  /** The quotient is Dafny's division, which is floor division on naturals. */
  lemma {:induction false} QuotientIsDiv(a: nat, d: nat)
    requires d > 0
    ensures Quotient(a, d) == a / d
    decreases a
  {
    if a >= d {
      QuotientIsDiv(a - d, d);
      var q, r := (a - d) / d, (a - d) % d;
      assert a == (q + 1) * d + r;
      DivUnique(a, d, q + 1, r);
    }
  }

  /** Progress never goes backwards, stays within 0..100 and ends at 100. */
  lemma PercentMonotone(i: nat, j: nat, total: nat)
    requires 0 < total && i <= j <= total
    ensures 0 <= Percent(i, total) <= Percent(j, total) <= 100
    ensures Percent(total, total) == 100
  {
    var a, b, c := i * 100, j * 100, total * 100;
    assert c == total * 100;
    assert a <= b <= c by {
      MulMonotone(i, j, 100);
      MulMonotone(j, total, 100);
    }
    DivMonotone(a, b, total);
    DivMonotone(b, c, total);
    DivExact(100, total);
    QuotientIsDiv(a, total);
    QuotientIsDiv(b, total);
    QuotientIsDiv(c, total);
  }

  lemma DivExact(k: nat, d: nat)
    requires d > 0
    ensures (d * k) / d == k
  {
    DivUnique(d * k, d, k, 0);
  }

  /** Division has one quotient: `q * d + r` with `0 <= r < d` divides to `q`. */
  lemma DivUnique(a: int, d: nat, q: int, r: int)
    requires d > 0 && a == q * d + r && 0 <= r < d
    ensures a / d == q
  {
    var q', r' := a / d, a % d;
    assert (q - q') * d == r' - r;
    if q - q' >= 1 {
      MulMonotone(1, q - q', d);
    } else if q' - q >= 1 {
      MulMonotone(1, q' - q, d);
    }
  }

  lemma MulMonotone(x: nat, y: nat, k: nat)
    requires x <= y
    ensures x * k <= y * k
  {
    assert y * k == x * k + (y - x) * k;
  }

  lemma DivMonotone(a: nat, b: nat, d: nat)
    requires d > 0 && a <= b
    ensures a / d <= b / d
  {
    var qa, qb := a / d, b / d;
    assert qa * d <= a;
    assert b < qb * d + d;
    assert qb * d + d == (qb + 1) * d;
    MulCancel(qa, qb + 1, d);
  }

  lemma MulCancel(x: int, y: int, d: nat)
    requires d > 0 && x * d < y * d
    ensures x < y
  {
  }

  lemma AddsForSnoc(cands: seq<string>, i: nat, env: IndexEnv)
    requires i < |cands|
    ensures AddsFor(cands[..i + 1], env) == AddsFor(cands[..i], env)
      + (if HasEmbedding(env.embed(cands[i])) then [RecordFor(cands[i], env)] else [])
  {
    assert cands[..i + 1][..i] == cands[..i];
  }

  /** The first `i` progress reports of a run over `total` candidates. */
  function ProgressUpTo(i: nat, total: nat): (ps: seq<int>)
    requires i <= total
    ensures |ps| == i
    ensures forall k :: 0 <= k < i ==> ps[k] == Percent(k + 1, total)
  {
    if i == 0 then [] else ProgressUpTo(i - 1, total) + [Percent(i, total)]
  }

  lemma ProgressStep(i: nat, total: nat)
    requires i < total
    ensures ProgressUpTo(i + 1, total) == ProgressUpTo(i, total) + [Percent(i + 1, total)]
  {
  }

  /** The reports of a whole run rise monotonically and the last one is 100. */
  lemma ProgressRises(total: nat)
    requires total > 0
    ensures var ps := ProgressUpTo(total, total);
      (forall a, b :: 0 <= a <= b < total ==> 0 <= ps[a] <= ps[b] <= 100) && ps[total - 1] == 100
  {
    var ps := ProgressUpTo(total, total);
    forall a, b | 0 <= a <= b < total
      ensures 0 <= ps[a] <= ps[b] <= 100
    {
      PercentMonotone(a + 1, b + 1, total);
    }
    PercentMonotone(total, total, total);
  }

  /** The loop of `run_indexing` over the candidates: one `add` per candidate with
      a usable embedding, and one progress report per candidate. */
  method RunIndexing(cands: seq<string>, env: IndexEnv) returns (count: nat, adds: seq<SampleRecord>, progress: seq<int>)
    ensures adds == AddsFor(cands, env)
    ensures count == |adds| == |Usable(cands, env.embed)|
    ensures progress == ProgressUpTo(|cands|, |cands|)
  {
    count := 0;
    adds := [];
    progress := [];
    var i := 0;
    while i < |cands|
      invariant 0 <= i <= |cands|
      invariant adds == AddsFor(cands[..i], env)
      invariant count == |adds|
      invariant progress == ProgressUpTo(i, |cands|)
    {
      var p := cands[i];
      AddsForSnoc(cands, i, env);
      var vector := env.embed(p);
      if HasEmbedding(vector) {
        var a := env.analyze(p);
        adds := adds + [MakeRecord(p, vector.value, a)];
        count := count + 1;
      }
      progress := progress + [Percent(i + 1, |cands|)];
      i := i + 1;
    }
    assert cands[..i] == cands;
    AddsForInOrder(cands, env);
  }

  /** The store as a map from id to record; adding an id already present is ignored. */
  function ApplyAdds(store: map<string, SampleRecord>, adds: seq<SampleRecord>): (s: map<string, SampleRecord>)
    ensures s.Keys == store.Keys + set r | r in adds :: r.id
    ensures forall id :: id in store ==> s[id] == store[id]
    ensures forall k :: 0 <= k < |adds| && adds[k].id !in store && FirstWithId(adds, k) ==> s[adds[k].id] == adds[k]
  {
    if |adds| == 0 then store
    else
      var init := adds[..|adds| - 1];
      var last := adds[|adds| - 1];
      var s0 := ApplyAdds(store, init);
      assert forall r :: r in adds <==> r in init || r == last;
      var s := if last.id in s0 then s0 else s0[last.id := last];
      FirstAddWins(store, adds, s0, s);
      s
  }

  /** Appending one add keeps every id mapped to the first record added under it. */
  lemma FirstAddWins(store: map<string, SampleRecord>, adds: seq<SampleRecord>, s0: map<string, SampleRecord>, s: map<string, SampleRecord>)
    requires |adds| > 0
    requires var init := adds[..|adds| - 1];
      s0.Keys == store.Keys + set r | r in init :: r.id
    requires var init := adds[..|adds| - 1];
      forall k :: 0 <= k < |init| && init[k].id !in store && FirstWithId(init, k) ==> s0[init[k].id] == init[k]
    requires var last := adds[|adds| - 1];
      s == if last.id in s0 then s0 else s0[last.id := last]
    ensures forall k :: 0 <= k < |adds| && adds[k].id !in store && FirstWithId(adds, k) ==> s[adds[k].id] == adds[k]
  {
    var init := adds[..|adds| - 1];
    var last := adds[|adds| - 1];
    forall k | 0 <= k < |adds| && adds[k].id !in store && FirstWithId(adds, k)
      ensures s[adds[k].id] == adds[k]
    {
      if k < |init| {
        assert adds[k] == init[k] && FirstWithId(init, k);
        assert init[k] in init;
      } else {
        assert forall j :: 0 <= j < |init| ==> init[j].id != last.id;
        assert forall r :: r in init ==> r.id != last.id;
      }
    }
  }

  /** No add before the `k`-th carries its id. */
  predicate FirstWithId(adds: seq<SampleRecord>, k: nat)
    requires k < |adds|
  {
    forall j :: 0 <= j < k ==> adds[j].id != adds[k].id
  }

  /** The records one run over `walk` adds to `store`. */
  function NewRecords(store: map<string, SampleRecord>, walk: seq<WalkEntry>, env: IndexEnv): seq<SampleRecord> {
    AddsFor(Candidates(store.Keys, walk, env), env)
  }

  /** Re-indexing is idempotent: running again over the same walk, against the
      store the first run produced, adds nothing and leaves the store unchanged. */
  lemma ReindexAddsNothing(store: map<string, SampleRecord>, walk: seq<WalkEntry>, env: IndexEnv)
    ensures var store1 := ApplyAdds(store, NewRecords(store, walk, env));
      NewRecords(store1, walk, env) == [] && ApplyAdds(store1, NewRecords(store1, walk, env)) == store1
  {
    var store1 := ApplyAdds(store, NewRecords(store, walk, env));
    SecondRunAddsNothing(store, walk, env);
    assert ApplyAdds(store1, []) == store1;
  }

  /** A second run over the same walk finds no candidate with a usable embedding. */
  lemma SecondRunAddsNothing(store: map<string, SampleRecord>, walk: seq<WalkEntry>, env: IndexEnv)
    ensures NewRecords(ApplyAdds(store, NewRecords(store, walk, env)), walk, env) == []
  {
    var c1 := Candidates(store.Keys, walk, env);
    var store1 := ApplyAdds(store, AddsFor(c1, env));
    var c2 := Candidates(store1.Keys, walk, env);
    CandidatesShrink(store.Keys, store1.Keys, walk, env);
    NothingUsableLeft(store, c1, c2, env);
    AddsForEmpty(c2, env);
  }

  lemma NothingUsableLeft(store: map<string, SampleRecord>, c1: seq<string>, c2: seq<string>, env: IndexEnv)
    requires forall p :: p in c2 ==> p in c1 && p !in ApplyAdds(store, AddsFor(c1, env)).Keys
    ensures forall j :: 0 <= j < |c2| ==> !HasEmbedding(env.embed(c2[j]))
  {
    forall j | 0 <= j < |c2|
      ensures !HasEmbedding(env.embed(c2[j]))
    {
      UsableCandidateStored(store, c1, env, c2[j]);
    }
  }

  /** After a run, every candidate that had a usable embedding is in the store. */
  lemma UsableCandidateStored(store: map<string, SampleRecord>, cands: seq<string>, env: IndexEnv, p: string)
    requires p in cands
    ensures HasEmbedding(env.embed(p)) ==> p in ApplyAdds(store, AddsFor(cands, env)).Keys
  {
    var adds := AddsFor(cands, env);
    var j :| 0 <= j < |cands| && cands[j] == p;
    if HasEmbedding(env.embed(p)) {
      var k :| 0 <= k < |adds| && adds[k].id == cands[j];
      assert adds[k] in adds;
    }
  }

  /** A file whose probed duration exceeds the ceiling is never a candidate. */
  lemma LongFileSkipped(existing: set<string>, walk: seq<WalkEntry>, env: IndexEnv, p: string)
    requires GetDuration(p, env.probes).Some? && GetDuration(p, env.probes).value > MaxDuration
    ensures p !in Candidates(existing, walk, env)
  {
  }
}
