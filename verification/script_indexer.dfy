/** The stand-alone indexing script: the same walk-filter-embed-add loop as the
    desktop indexer, restricted to WAV and MP3, without path normalisation, and
    storing only the file name as metadata. The script runs on whichever
    platform hosts it, so the path separator test is a parameter. */
module ScriptIndexer {
  import opened Common
  import opened Strings
  import opened Paths
  import opened Records
  import Indexing

  const ScriptExtensions: seq<string> := [".wav", ".mp3"]

  /** `get_duration` of the script: only ".wav" and ".mp3" are probed. */
  function GetDuration(p: string, isSep: char -> bool, probes: Indexing.Probes): (d: Option<real>)
    ensures var ext := Lower(SplitExt(p, isSep));
      d.Some? ==> ext in ScriptExtensions
    ensures var ext := Lower(SplitExt(p, isSep));
      ext == ".wav" ==> d == probes.wav(p)
    ensures var ext := Lower(SplitExt(p, isSep));
      ext == ".mp3" ==> d == probes.tags(p)
  {
    var ext := Lower(SplitExt(p, isSep));
    if ext == ".wav" then probes.wav(p)
    else if ext == ".mp3" then probes.tags(p)
    else None
  }

  /** On Windows paths the two duration readers agree on every WAV and MP3 file. */
  lemma DurationAgreesWithDesktop(p: string, probes: Indexing.Probes)
    requires Lower(SplitExt(p, IsWindowsSep)) in ScriptExtensions
    ensures GetDuration(p, IsWindowsSep, probes) == Indexing.GetDuration(p, probes)
  {
  }

  predicate Admits(existing: set<string>, e: Indexing.WalkEntry, isSep: char -> bool, probes: Indexing.Probes) {
    && EndsWithAny(Lower(e.name), ScriptExtensions)
    && e.path !in existing
    && GetDuration(e.path, isSep, probes).Some?
    && GetDuration(e.path, isSep, probes).value <= Indexing.MaxDuration
  }

  /** `files_to_process` of the script, in walk order. */
  function Candidates(existing: set<string>, walk: seq<Indexing.WalkEntry>, isSep: char -> bool, probes: Indexing.Probes): (cs: seq<string>)
    ensures |cs| <= |walk|
    ensures forall p :: p in cs <==> exists e :: e in walk && Admits(existing, e, isSep, probes) && e.path == p
  {
    if |walk| == 0 then []
    else
      var rest := Candidates(existing, walk[1..], isSep, probes);
      assert forall e :: e in walk <==> e == walk[0] || e in walk[1..];
      if Admits(existing, walk[0], isSep, probes) then [walk[0].path] + rest else rest
  }

  /** The script's name test accepts a subset of what the desktop indexer accepts. */
  lemma ScriptNamesAreDesktopNames(name: string)
    requires EndsWithAny(Lower(name), ScriptExtensions)
    ensures Indexing.IsSupportedName(name)
  {
    var l := Lower(name);
    var i :| 0 <= i < |ScriptExtensions| && EndsWith(l, ScriptExtensions[i]);
    assert Indexing.AudioExtensions[i] == ScriptExtensions[i];
  }

  /** On Windows, every file the script would index the desktop indexer also
      indexes, when normalisation leaves the paths alone. */
  lemma ScriptCandidatesAreDesktopCandidates(existing: set<string>, walk: seq<Indexing.WalkEntry>, env: Indexing.IndexEnv)
    requires forall q :: env.normalize(q) == q
    ensures forall p :: p in Candidates(existing, walk, IsWindowsSep, env.probes) ==> p in Indexing.Candidates(existing, walk, env)
  {
    forall p | p in Candidates(existing, walk, IsWindowsSep, env.probes)
      ensures p in Indexing.Candidates(existing, walk, env)
    {
      var e :| e in walk && Admits(existing, e, IsWindowsSep, env.probes) && e.path == p;
      ScriptNamesAreDesktopNames(e.name);
      assert Lower(SplitExt(p, IsWindowsSep)) in ScriptExtensions;
      DurationAgreesWithDesktop(p, env.probes);
      assert Indexing.Admits(existing, e, env);
    }
  }

  /** The record the script adds: id and document are the path, metadata the file name. */
  function MakeRecord(p: string, vector: seq<real>, isSep: char -> bool): (r: SampleRecord)
    ensures r.id == p && r.document == p && r.embedding == vector
    ensures r.meta == NoMeta.(filename := Some(Basename(p, isSep)))
  {
    SampleRecord(p, vector, p, NoMeta.(filename := Some(Basename(p, isSep))))
  }

  /** The records the script's main loop adds for its candidate list, in order. */
  function AddsFor(cands: seq<string>, embed: string -> Option<seq<real>>, isSep: char -> bool): (adds: seq<SampleRecord>)
    ensures |adds| <= |cands|
    ensures forall k :: 0 <= k < |adds| ==>
      adds[k].id in cands && Indexing.HasEmbedding(embed(adds[k].id))
      && adds[k] == MakeRecord(adds[k].id, embed(adds[k].id).value, isSep)
    ensures forall j :: 0 <= j < |cands| && Indexing.HasEmbedding(embed(cands[j])) ==>
      exists k :: 0 <= k < |adds| && adds[k].id == cands[j]
  {
    if |cands| == 0 then []
    else
      var p := cands[0];
      var rest := AddsFor(cands[1..], embed, isSep);
      var head := if Indexing.HasEmbedding(embed(p)) then [MakeRecord(p, embed(p).value, isSep)] else [];
      var adds := head + rest;
      RecordStep(cands, head, rest, adds, embed, isSep);
      CoverStep(cands, head, rest, adds, embed);
      adds
  }

  /** The script adds exactly, in order, one record per candidate with a usable
      embedding. */
  lemma {:induction false} AddsInOrder(cands: seq<string>, embed: string -> Option<seq<real>>, isSep: char -> bool)
    ensures |AddsFor(cands, embed, isSep)| == |Indexing.Usable(cands, embed)|
    ensures forall k :: 0 <= k < |AddsFor(cands, embed, isSep)| ==>
      var p := Indexing.Usable(cands, embed)[k];
      Indexing.HasEmbedding(embed(p)) && AddsFor(cands, embed, isSep)[k] == MakeRecord(p, embed(p).value, isSep)
  {
    if |cands| > 0 {
      AddsInOrder(cands[1..], embed, isSep);
      var p := cands[0];
      InOrderStep(AddsFor(cands[1..], embed, isSep), Indexing.Usable(cands[1..], embed),
                  AddsFor(cands, embed, isSep), Indexing.Usable(cands, embed), p, embed, isSep);
    }
  }

  lemma InOrderStep(rest: seq<SampleRecord>, us0: seq<string>, adds: seq<SampleRecord>, us: seq<string>, p: string,
                    embed: string -> Option<seq<real>>, isSep: char -> bool)
    requires |rest| == |us0|
    requires forall k :: 0 <= k < |rest| ==>
      Indexing.HasEmbedding(embed(us0[k])) && rest[k] == MakeRecord(us0[k], embed(us0[k]).value, isSep)
    requires adds == (if Indexing.HasEmbedding(embed(p)) then [MakeRecord(p, embed(p).value, isSep)] else []) + rest
    requires us == (if Indexing.HasEmbedding(embed(p)) then [p] else []) + us0
    ensures |adds| == |us|
    ensures forall k :: 0 <= k < |adds| ==>
      Indexing.HasEmbedding(embed(us[k])) && adds[k] == MakeRecord(us[k], embed(us[k]).value, isSep)
  {
    var h := if Indexing.HasEmbedding(embed(p)) then 1 else 0;
    forall k | 0 <= k < |adds|
      ensures Indexing.HasEmbedding(embed(us[k])) && adds[k] == MakeRecord(us[k], embed(us[k]).value, isSep)
    {
      if k >= h {
        assert adds[k] == rest[k - h] && us[k] == us0[k - h];
      }
    }
  }

  /** A usable head record in front of the records of the other candidates keeps
      every record tied to a usable candidate. */
  lemma RecordStep(cands: seq<string>, head: seq<SampleRecord>, rest: seq<SampleRecord>, adds: seq<SampleRecord>,
                   embed: string -> Option<seq<real>>, isSep: char -> bool)
    requires |cands| > 0 && adds == head + rest
    requires head == if Indexing.HasEmbedding(embed(cands[0])) then [MakeRecord(cands[0], embed(cands[0]).value, isSep)] else []
    requires forall k :: 0 <= k < |rest| ==>
      rest[k].id in cands[1..] && Indexing.HasEmbedding(embed(rest[k].id))
      && rest[k] == MakeRecord(rest[k].id, embed(rest[k].id).value, isSep)
    ensures forall k :: 0 <= k < |adds| ==>
      adds[k].id in cands && Indexing.HasEmbedding(embed(adds[k].id))
      && adds[k] == MakeRecord(adds[k].id, embed(adds[k].id).value, isSep)
  {
    forall k | 0 <= k < |adds|
      ensures adds[k].id in cands && Indexing.HasEmbedding(embed(adds[k].id))
        && adds[k] == MakeRecord(adds[k].id, embed(adds[k].id).value, isSep)
    {
      if k < |head| {
        assert adds[k].id == cands[0];
      } else {
        assert adds[k] == rest[k - |head|];
        var j :| 0 <= j < |cands[1..]| && cands[1..][j] == rest[k - |head|].id;
        assert cands[j + 1] == adds[k].id;
      }
    }
  }

  /** A usable head record in front of the records of the other candidates keeps
      every usable candidate covered. */
  lemma CoverStep(cands: seq<string>, head: seq<SampleRecord>, rest: seq<SampleRecord>, adds: seq<SampleRecord>,
                  embed: string -> Option<seq<real>>)
    requires |cands| > 0 && adds == head + rest
    requires Indexing.HasEmbedding(embed(cands[0])) ==> |head| == 1 && head[0].id == cands[0]
    requires forall j :: 0 <= j < |cands[1..]| && Indexing.HasEmbedding(embed(cands[1..][j])) ==>
      exists k :: 0 <= k < |rest| && rest[k].id == cands[1..][j]
    ensures forall j :: 0 <= j < |cands| && Indexing.HasEmbedding(embed(cands[j])) ==>
      exists k :: 0 <= k < |adds| && adds[k].id == cands[j]
  {
    forall j | 0 <= j < |cands| && Indexing.HasEmbedding(embed(cands[j]))
      ensures exists k :: 0 <= k < |adds| && adds[k].id == cands[j]
    {
      if j == 0 {
        assert adds[0].id == cands[j];
      } else {
        assert cands[1..][j - 1] == cands[j];
        var k :| 0 <= k < |rest| && rest[k].id == cands[1..][j - 1];
        assert adds[|head| + k].id == cands[j];
      }
    }
  }
}
