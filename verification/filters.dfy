/** The desktop app's search pipeline after the store query: the similarity
    score shown for a distance, the user's filter gates applied to each result,
    and `do_search`, which over-fetches, filters and truncates. Regular
    expressions, `os.path.exists` and the duration readers are parameters. */
module Filters {
  import opened Common
  import opened Strings
  import opened Paths
  import opened Records
  import ChromaKey
  import Indexing
  import Searcher

  type Hit = Searcher.Hit

  /** `max(0, min(100, (1 - distance / 2) * 100))` */
  function Similarity(d: real): (r: real)
    ensures 0.0 <= r <= 100.0
    ensures 0.0 <= d <= 2.0 ==> r == (1.0 - d / 2.0) * 100.0
    ensures d <= 0.0 ==> r == 100.0
    ensures d >= 2.0 ==> r == 0.0
  {
    var raw := (1.0 - d / 2.0) * 100.0;
    var capped := if raw < 100.0 then raw else 100.0;
    if capped > 0.0 then capped else 0.0
  }

  /** A closer result never shows a lower similarity. */
  lemma SimilarityNonIncreasing(d1: real, d2: real)
    requires d1 <= d2
    ensures Similarity(d2) <= Similarity(d1)
  {
  }

  /** The filter panel's values as `apply_filters` reads them; the two pattern
      fields hold the raw text, which is stripped before use. */
  datatype Settings = Settings(
    includePattern: string, excludePattern: string,
    minDur: real, maxDur: real,
    format: string,
    minSim: real, maxSim: real,
    minBpm: real, maxBpm: real,
    key: string)

  /** `re.compile` succeeding, and `re.search(pattern, text, re.IGNORECASE)` finding a match. */
  datatype Regex = Regex(valid: string -> bool, search: (string, string) -> bool)

  /** The file system as the duration gate sees it. */
  datatype FileEnv = FileEnv(exists_: string -> bool, probes: Indexing.Probes)

  /** `apply_filters` raises `TypeError` when a name filter meets a record without
      a file name. */
  datatype FilterError = TypeError

  const FormatChoices: seq<string> := ["All", "wav", "mp3", "aif", "aiff", "flac", "ogg", "opus", "m4a", "aac"]

  const KeyChoices: seq<string> := ["All", "C maj", "C min", "C# maj", "C# min", "D maj", "D min", "D# maj", "D# min",
    "E maj", "E min", "F maj", "F min", "F# maj", "F# min", "G maj", "G min",
    "G# maj", "G# min", "A maj", "A min", "A# maj", "A# min", "B maj", "B min"]

  // ---------------------------------------------------------------- the gates

  predicate SimilarityOk(s: Settings, sim: real) {
    s.minSim <= sim <= s.maxSim
  }

  /** A pattern filters only when it is not blank and compiles. */
  predicate IncludeActive(s: Settings, rx: Regex) {
    Strip(s.includePattern) != "" && rx.valid(Strip(s.includePattern))
  }

  predicate ExcludeActive(s: Settings, rx: Regex) {
    Strip(s.excludePattern) != "" && rx.valid(Strip(s.excludePattern))
  }

  predicate FormatActive(s: Settings) {
    s.format != "All"
  }

  /** The gates that read the file name. */
  predicate NeedsName(s: Settings, rx: Regex) {
    IncludeActive(s, rx) || ExcludeActive(s, rx) || FormatActive(s)
  }

  predicate IsDot(c: char) { c == '.' }

  /** `os.path.splitext(filename)[1].lower().strip('.')` */
  function FileFormat(filename: string): (f: string)
    ensures '.' !in f
    ensures SplitExt(filename, IsWindowsSep) == "" ==> f == ""
    ensures SplitExt(filename, IsWindowsSep) != "" ==> f == Lower(SplitExt(filename, IsWindowsSep)[1..])
  {
    var ext := SplitExt(filename, IsWindowsSep);
    StripDot(ext);
    StripWith(Lower(ext), IsDot)
  }

  /** Lower-casing an extension and stripping dots drops exactly its leading '.'. */
  lemma StripDot(ext: string)
    requires ext == "" || ext[0] == '.'
    requires |ext| > 0 ==> '.' !in ext[1..]
    ensures ext == "" ==> StripWith(Lower(ext), IsDot) == ""
    ensures ext != "" ==> StripWith(Lower(ext), IsDot) == Lower(ext[1..])
    ensures '.' !in StripWith(Lower(ext), IsDot)
  {
    var e := Lower(ext);
    if |ext| > 0 {
      assert e[0] == '.';
      assert e[1..] == Lower(ext[1..]);
      assert forall i :: 1 <= i < |e| ==> e[i] != '.' by {
        forall i | 1 <= i < |e|
          ensures e[i] != '.'
        {
          assert ext[i] == ext[1..][i - 1];
        }
      }
      var l := TrimLeft(e, IsDot);
      assert l == TrimLeft(e[1..], IsDot);
      assert |e[1..]| > 0 ==> !IsDot(e[1..][0]);
      assert l == e[1..];
      if |l| > 0 {
        assert !IsDot(l[|l| - 1]);
      }
      assert TrimRight(l, IsDot) == l;
    }
  }

  predicate NameOk(s: Settings, rx: Regex, filename: string) {
    && (IncludeActive(s, rx) ==> rx.search(Strip(s.includePattern), filename))
    && (ExcludeActive(s, rx) ==> !rx.search(Strip(s.excludePattern), filename))
    && (FormatActive(s) ==> FileFormat(filename) == s.format)
  }

  predicate BpmGateActive(s: Settings) {
    s.minBpm > 0.0 || s.maxBpm < 300.0
  }

  /** Only records with a detected (positive) tempo are held to the BPM range. */
  predicate BpmOk(s: Settings, m: Meta) {
    var bpm := BpmOrZero(m);
    !BpmGateActive(s) || bpm <= 0.0 || s.minBpm <= bpm <= s.maxBpm
  }

  predicate KeyOk(s: Settings, m: Meta) {
    s.key == "All" || KeyOrEmpty(m) == s.key
  }

  predicate DurationGateActive(s: Settings) {
    s.minDur > 0.0 || s.maxDur < 999.0
  }

  /** The duration the gate reads: WAV header or tags, for a file that exists. */
  function FilterDuration(p: string, env: FileEnv): Option<real> {
    var ext := Lower(SplitExt(p, IsWindowsSep));
    if ext == ".wav" && env.exists_(p) then env.probes.wav(p)
    else if ext in Indexing.TagExtensions && env.exists_(p) then env.probes.tags(p)
    else None
  }

  /** For a file that exists the gate reads the same duration the indexer does;
      for a missing file it reads none. */
  lemma FilterDurationAgrees(p: string, env: FileEnv)
    ensures env.exists_(p) ==> FilterDuration(p, env) == Indexing.GetDuration(p, env.probes)
    ensures !env.exists_(p) ==> FilterDuration(p, env).None?
  {
  }

  /** A record whose duration cannot be determined passes the gate. */
  predicate DurationOk(s: Settings, env: FileEnv, route: string) {
    var d := FilterDuration(WslToWindowsBackslash(route), env);
    !DurationGateActive(s) || d.None? || s.minDur <= d.value <= s.maxDur
  }

  /** The declarative reading of the filter panel: a result is kept iff every
      active gate accepts it. */
  predicate Passes(s: Settings, rx: Regex, env: FileEnv, h: Hit) {
    && SimilarityOk(s, Similarity(h.score))
    && (h.filename.Some? ==> NameOk(s, rx, h.filename.value))
    && BpmOk(s, h.metadata)
    && KeyOk(s, h.metadata)
    && DurationOk(s, env, h.route)
  }

  /** The three gates that read the file name, in order: include, exclude, format.
      Each active one on a missing file name raises `TypeError`. */
  function NameGates(s: Settings, rx: Regex, filename: Option<string>): (r: Result<bool, FilterError>)
    ensures r.Failure? <==> filename.None? && NeedsName(s, rx)
    ensures r.Success? ==> r.value == (filename.Some? ==> NameOk(s, rx, filename.value))
  {
    if IncludeActive(s, rx) && filename.None? then Failure(TypeError)
    else if IncludeActive(s, rx) && !rx.search(Strip(s.includePattern), filename.value) then Success(false)
    else if ExcludeActive(s, rx) && filename.None? then Failure(TypeError)
    else if ExcludeActive(s, rx) && rx.search(Strip(s.excludePattern), filename.value) then Success(false)
    else if FormatActive(s) && filename.None? then Failure(TypeError)
    else if FormatActive(s) && FileFormat(filename.value) != s.format then Success(false)
    else Success(true)
  }

  /** The body of the loop of `apply_filters` for one result, gate after gate. */
  function Admit(s: Settings, rx: Regex, env: FileEnv, h: Hit): (r: Result<bool, FilterError>)
    ensures r.Failure? <==> h.filename.None? && SimilarityOk(s, Similarity(h.score)) && NeedsName(s, rx)
    ensures r.Success? ==> r.value == Passes(s, rx, env, h)
  {
    var sim := Similarity(h.score);
    if sim < s.minSim || sim > s.maxSim then Success(false)
    else
      var named := NameGates(s, rx, h.filename);
      if named.Failure? then Failure(named.error)
      else if !named.value then Success(false)
      else if !BpmOk(s, h.metadata) then Success(false)
      else if !KeyOk(s, h.metadata) then Success(false)
      else if !DurationOk(s, env, h.route) then Success(false)
      else Success(true)
  }

  /** A result that carries a file name never makes `apply_filters` raise. */
  lemma NamedResultsNeverRaise(s: Settings, rx: Regex, env: FileEnv, h: Hit)
    requires h.filename.Some?
    ensures Admit(s, rx, env, h) == Success(Passes(s, rx, env, h))
  {
  }

  // ---------------------------------------------------------------- apply_filters

  /** `xs` is `ys` with some elements left out, the rest in their order. */
  predicate IsSubseq<T(==)>(xs: seq<T>, ys: seq<T>)
    decreases |ys|
  {
    |xs| == 0 || (|ys| > 0 && ((xs[0] == ys[0] && IsSubseq(xs[1..], ys[1..])) || IsSubseq(xs, ys[1..])))
  }

  /** The results of a filtered list, without their similarities. */
  function Items(ps: seq<(Hit, real)>): (hs: seq<Hit>)
    ensures |hs| == |ps|
    ensures forall k :: 0 <= k < |ps| ==> hs[k] == ps[k].0
  {
    if |ps| == 0 then [] else [ps[0].0] + Items(ps[1..])
  }

  /** The loop of `apply_filters` for a given per-result test: the admitted
      results in order, each paired with its similarity; the first error aborts
      the whole call. */
  function FilterBy(results: seq<Hit>, admit: Hit -> Result<bool, FilterError>): (r: Result<seq<(Hit, real)>, FilterError>)
    ensures r.Failure? <==> exists i :: 0 <= i < |results| && admit(results[i]).Failure?
    ensures r.Success? ==> IsSubseq(Items(r.value), results)
    ensures r.Success? ==> forall k :: 0 <= k < |r.value| ==>
      admit(r.value[k].0) == Success(true) && r.value[k].1 == Similarity(r.value[k].0.score)
    ensures r.Success? ==> forall i :: 0 <= i < |results| && admit(results[i]) == Success(true) ==>
      results[i] in Items(r.value)
  {
    if |results| == 0 then Success([])
    else
      var h := results[0];
      var head := admit(h);
      var rest := FilterBy(results[1..], admit);
      assert forall i :: 1 <= i < |results| ==> results[i] == results[1..][i - 1];
      if head.Failure? then Failure(head.error)
      else if rest.Failure? then Failure(rest.error)
      else
        FilteredCons(results, admit, rest.value);
        Success(KeepFirst(results, admit, rest.value))
  }

  /** `kept` is what the loop keeps of `results` under `admit`. */
  predicate Filtered(results: seq<Hit>, admit: Hit -> Result<bool, FilterError>, kept: seq<(Hit, real)>) {
    && IsSubseq(Items(kept), results)
    && (forall k :: 0 <= k < |kept| ==>
          admit(kept[k].0) == Success(true) && kept[k].1 == Similarity(kept[k].0.score))
    && (forall i :: 0 <= i < |results| && admit(results[i]) == Success(true) ==> results[i] in Items(kept))
  }

  /** What one step of the loop keeps: the first result, when admitted, in front
      of what it keeps of the others. */
  function KeepFirst(results: seq<Hit>, admit: Hit -> Result<bool, FilterError>, rest: seq<(Hit, real)>): seq<(Hit, real)>
    requires |results| > 0 && admit(results[0]).Success?
  {
    var h := results[0];
    if admit(h).value then [(h, Similarity(h.score))] + rest else rest
  }

  lemma {:induction false} KeepFirstItems(results: seq<Hit>, admit: Hit -> Result<bool, FilterError>, rest: seq<(Hit, real)>)
    requires |results| > 0 && admit(results[0]).Success?
    ensures Items(KeepFirst(results, admit, rest)) == (if admit(results[0]).value then [results[0]] else []) + Items(rest)
  {
    var kept := KeepFirst(results, admit, rest);
    if admit(results[0]).value {
      assert kept[1..] == rest;
    }
  }

  /** One step of the loop keeps everything `Filtered` says. */
  lemma {:induction false} FilteredCons(results: seq<Hit>, admit: Hit -> Result<bool, FilterError>, rest: seq<(Hit, real)>)
    requires |results| > 0 && admit(results[0]).Success?
    requires IsSubseq(Items(rest), results[1..])
    requires forall k :: 0 <= k < |rest| ==>
      admit(rest[k].0) == Success(true) && rest[k].1 == Similarity(rest[k].0.score)
    requires forall i :: 0 <= i < |results[1..]| && admit(results[1..][i]) == Success(true) ==>
      results[1..][i] in Items(rest)
    ensures Filtered(results, admit, KeepFirst(results, admit, rest))
  {
    KeepFirstItems(results, admit, rest);
    ConsSubseq(results, admit, rest);
    ConsCovers(results, admit, rest);
  }

  lemma {:induction false} ConsSubseq(results: seq<Hit>, admit: Hit -> Result<bool, FilterError>, rest: seq<(Hit, real)>)
    requires |results| > 0 && admit(results[0]).Success?
    requires IsSubseq(Items(rest), results[1..])
    ensures IsSubseq(Items(KeepFirst(results, admit, rest)), results)
  {
    KeepFirstItems(results, admit, rest);
    var xs := Items(KeepFirst(results, admit, rest));
    if admit(results[0]).value {
      assert xs[0] == results[0] && xs[1..] == Items(rest);
    }
  }

  lemma {:induction false} ConsCovers(results: seq<Hit>, admit: Hit -> Result<bool, FilterError>, rest: seq<(Hit, real)>)
    requires |results| > 0 && admit(results[0]).Success?
    requires forall i :: 0 <= i < |results[1..]| && admit(results[1..][i]) == Success(true) ==>
      results[1..][i] in Items(rest)
    ensures forall i :: 0 <= i < |results| && admit(results[i]) == Success(true) ==>
      results[i] in Items(KeepFirst(results, admit, rest))
  {
    KeepFirstItems(results, admit, rest);
    var xs := Items(KeepFirst(results, admit, rest));
    forall i | 0 <= i < |results| && admit(results[i]) == Success(true)
      ensures results[i] in xs
    {
      if i > 0 {
        assert results[i] == results[1..][i - 1];
      }
    }
  }

  /** A test that admits every result keeps all of them, in order. */
  lemma {:induction false} FilterByAll(results: seq<Hit>, admit: Hit -> Result<bool, FilterError>)
    requires forall i :: 0 <= i < |results| ==> admit(results[i]) == Success(true)
    ensures FilterBy(results, admit).Success?
    ensures Items(FilterBy(results, admit).value) == results
  {
    if |results| > 0 {
      FilterByAll(results[1..], admit);
      var kept := FilterBy(results, admit).value;
      assert kept[1..] == FilterBy(results[1..], admit).value;
      assert results == [results[0]] + results[1..];
    }
  }

  /** `apply_filters(results)`: the results every active gate accepts, in the
      store's order, each paired with its similarity; a `TypeError` from any
      result aborts the whole call. */
  function ApplyFilters(s: Settings, rx: Regex, env: FileEnv, results: seq<Hit>): (r: Result<seq<(Hit, real)>, FilterError>)
    ensures r.Failure? <==> exists i :: 0 <= i < |results| && Admit(s, rx, env, results[i]).Failure?
    ensures r.Success? ==> IsSubseq(Items(r.value), results)
    ensures r.Success? ==> forall k :: 0 <= k < |r.value| ==>
      Passes(s, rx, env, r.value[k].0) && r.value[k].1 == Similarity(r.value[k].0.score)
    ensures r.Success? ==> forall i :: 0 <= i < |results| && Passes(s, rx, env, results[i]) ==>
      results[i] in Items(r.value)
  {
    var admit := h => Admit(s, rx, env, h);
    var r := FilterBy(results, admit);
    assert forall i :: 0 <= i < |results| ==> admit(results[i]) == Admit(s, rx, env, results[i]);
    assert r.Success? ==> forall i :: 0 <= i < |results| && Passes(s, rx, env, results[i]) ==>
      results[i] in Items(r.value)
    by {
      if r.Success? {
        forall i | 0 <= i < |results| && Passes(s, rx, env, results[i])
          ensures results[i] in Items(r.value)
        {
          assert !Admit(s, rx, env, results[i]).Failure?;
          assert admit(results[i]) == Success(true);
        }
      }
    }
    r
  }

  // ---------------------------------------------------------------- reset_filters

  /** The values `reset_filters` puts back. */
  const Defaults: Settings := Settings("", "", 0.0, 999.0, "All", 0.0, 100.0, 0.0, 300.0, "All")

  /** With the defaults every gate is inactive: any result is admitted. */
  lemma DefaultsAdmitEverything(rx: Regex, env: FileEnv, h: Hit)
    ensures Admit(Defaults, rx, env, h) == Success(true)
  {
    assert Defaults.includePattern == "" && Defaults.excludePattern == "";
    assert Strip("") == "";
    assert !IncludeActive(Defaults, rx);
    assert !ExcludeActive(Defaults, rx);
    assert !FormatActive(Defaults);
    assert SimilarityOk(Defaults, Similarity(h.score));
    assert BpmOk(Defaults, h.metadata) && KeyOk(Defaults, h.metadata);
    assert DurationOk(Defaults, env, h.route);
  }

  /** With the defaults `apply_filters` keeps every result, in order. */
  lemma DefaultsKeepEverything(rx: Regex, env: FileEnv, results: seq<Hit>)
    ensures ApplyFilters(Defaults, rx, env, results).Success?
    ensures Items(ApplyFilters(Defaults, rx, env, results).value) == results
  {
    var admit := h => Admit(Defaults, rx, env, h);
    forall i | 0 <= i < |results|
      ensures admit(results[i]) == Success(true)
    {
      DefaultsAdmitEverything(rx, env, results[i]);
    }
    FilterByAll(results, admit);
    assert ApplyFilters(Defaults, rx, env, results) == FilterBy(results, admit);
  }

  /** A BPM range of 120..130 lets a record without a detected tempo through and
      drops one at 90. */
  lemma BpmRangeExample(rx: Regex, env: FileEnv, unknown: Hit, slow: Hit)
    requires BpmOrZero(unknown.metadata) == 0.0
    requires slow.metadata.bpm == Some(90.0)
    ensures var s := Defaults.(minBpm := 120.0, maxBpm := 130.0);
      BpmOk(s, unknown.metadata) && !Passes(s, rx, env, slow)
  {
    var s := Defaults.(minBpm := 120.0, maxBpm := 130.0);
    assert BpmGateActive(s);
    assert !BpmOk(s, slow.metadata);
  }

  // ---------------------------------------------------------------- key filter

  /** Every key choice other than "All" has a lower-case 'm' three characters
      from its end. */
  lemma KeyChoiceShape(c: string)
    requires c in KeyChoices && c != "All"
    ensures |c| >= 5 && c[|c| - 3] == 'm'
  {
  }

  /** A key written by the librosa engine ("C Maj") equals no key choice but
      "All" ("C maj"), so an active key filter rejects every such record. */
  lemma LibrosaKeysNeverMatch(s: Settings, rx: Regex, env: FileEnv, h: Hit, t: nat)
    requires t < 24 && h.metadata.key == Some(ChromaKey.Label(t))
    requires s.key in KeyChoices && s.key != "All"
    ensures !Passes(s, rx, env, h)
    ensures Admit(s, rx, env, h) != Success(true)
  {
    ChromaKey.LabelShape(t);
    KeyChoiceShape(s.key);
  }

  // ---------------------------------------------------------------- do_search

  /** `min(100, top_k * 3)`: three times the requested count, capped at 100. */
  function FetchCount(topK: int): (n: int)
    ensures n <= 100
    ensures 1 <= topK <= 100 ==> topK <= n
    ensures topK <= 33 ==> n == 3 * topK
    ensures topK >= 34 ==> n == 100
    ensures n == 3 * topK || n == 100
  {
    if topK * 3 < 100 then topK * 3 else 100
  }

  /** What `do_search` leaves on screen. */
  datatype Outcome =
    /** No engine or a blank query: the list is left as it was. */
    | Unchanged
    /** The list is replaced by these results; none shows the "no results" message. */
    | Listed(items: seq<(Hit, real)>)
    /** The search or the filter raised. */
    | Raised

  /** `do_search`: strip the query, fetch `min(100, 3 * top_k)` results, filter
      them and keep the first `top_k`. The spin box holds `top_k` in 1..100;
      `search` is the engine's `search`, that is `Searcher.Search` with the
      engine's text encoder and store. */
  function DoSearch(engineReady: bool, text: string, topK: int, s: Settings, rx: Regex, env: FileEnv,
                    search: (string, int) -> Result<seq<Hit>, Searcher.SearchError>): (o: Outcome)
    requires 1 <= topK <= 100
    ensures !engineReady || Strip(text) == "" ==> o == Unchanged
    ensures engineReady && Strip(text) != "" ==> o != Unchanged
    ensures var fetched := search(Strip(text), FetchCount(topK));
      o.Raised? <==> (engineReady && Strip(text) != ""
                      && (fetched.Failure? || ApplyFilters(s, rx, env, fetched.value).Failure?))
    ensures var fetched := search(Strip(text), FetchCount(topK));
      o.Listed? ==> (fetched.Success? && ApplyFilters(s, rx, env, fetched.value).Success?
                     && |o.items| == Min(topK, |ApplyFilters(s, rx, env, fetched.value).value|)
                     && o.items <= ApplyFilters(s, rx, env, fetched.value).value)
  {
    if !engineReady then Unchanged
    else
      var q := Strip(text);
      if q == "" then Unchanged
      else
        var fetched := search(q, FetchCount(topK));
        if fetched.Failure? then Raised
        else
          var filtered := ApplyFilters(s, rx, env, fetched.value);
          if filtered.Failure? then Raised
          else Listed(filtered.value[..Min(topK, |filtered.value|)])
  }

  function Min(a: int, b: int): int {
    if a < b then a else b
  }

  /** What `do_search` lists is at most `top_k` results of the search, each
      accepted by every active gate, in the store's order. */
  lemma DoSearchListsPassing(engineReady: bool, text: string, topK: int, s: Settings, rx: Regex, env: FileEnv,
                             search: (string, int) -> Result<seq<Hit>, Searcher.SearchError>)
    requires 1 <= topK <= 100
    ensures var o := DoSearch(engineReady, text, topK, s, rx, env, search);
      var fetched := search(Strip(text), FetchCount(topK));
      o.Listed? ==> (|o.items| <= topK && fetched.Success? && IsSubseq(Items(o.items), fetched.value)
                     && forall k :: 0 <= k < |o.items| ==> Passes(s, rx, env, o.items[k].0))
  {
    var o := DoSearch(engineReady, text, topK, s, rx, env, search);
    if o.Listed? {
      var fetched := search(Strip(text), FetchCount(topK)).value;
      var filtered := ApplyFilters(s, rx, env, fetched).value;
      ShownPrefix(o.items, filtered, fetched);
      forall k | 0 <= k < |o.items|
        ensures Passes(s, rx, env, o.items[k].0)
      {
        assert o.items[k] == filtered[k];
      }
    }
  }

  /** A prefix of the filtered list is a subsequence of the search results. */
  lemma ShownPrefix(items: seq<(Hit, real)>, filtered: seq<(Hit, real)>, fetched: seq<Hit>)
    requires items <= filtered && IsSubseq(Items(filtered), fetched)
    ensures IsSubseq(Items(items), fetched)
  {
    PrefixSubseq(Items(filtered), |items|, fetched);
    assert items == filtered[..|items|];
    assert Items(items) == Items(filtered)[..|items|];
  }

  /** A prefix of a subsequence is a subsequence. */
  lemma {:induction false} PrefixSubseq<T>(xs: seq<T>, n: nat, ys: seq<T>)
    requires n <= |xs| && IsSubseq(xs, ys)
    ensures IsSubseq(xs[..n], ys)
    decreases |ys|
  {
    if n > 0 {
      if xs[0] == ys[0] && IsSubseq(xs[1..], ys[1..]) {
        PrefixSubseq(xs[1..], n - 1, ys[1..]);
        assert xs[..n][1..] == xs[1..][..n - 1];
      } else {
        PrefixSubseq(xs, n, ys[1..]);
      }
    }
  }

  /** With the filters at their defaults, the list shows the first `top_k` results
      of the over-fetched search, in the store's order. */
  lemma DefaultsShowFirstResults(text: string, topK: int, rx: Regex, env: FileEnv,
                                 search: (string, int) -> Result<seq<Hit>, Searcher.SearchError>)
    requires 1 <= topK <= 100 && Strip(text) != ""
    requires search(Strip(text), FetchCount(topK)).Success?
    ensures var fetched := search(Strip(text), FetchCount(topK)).value;
      var o := DoSearch(true, text, topK, Defaults, rx, env, search);
      o.Listed? && Items(o.items) == fetched[..Min(topK, |fetched|)]
  {
    var fetched := search(Strip(text), FetchCount(topK)).value;
    var n := Min(topK, |fetched|);
    DefaultsKeepEverything(rx, env, fetched);
    var filtered := ApplyFilters(Defaults, rx, env, fetched).value;
    ItemsPrefix(filtered, n);
    assert DoSearch(true, text, topK, Defaults, rx, env, search) == Listed(filtered[..n]);
  }

  lemma ItemsPrefix(ps: seq<(Hit, real)>, n: nat)
    requires n <= |ps|
    ensures Items(ps[..n]) == Items(ps)[..n]
  {
  }
}
