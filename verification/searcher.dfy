/** `SampleSearcher` of the desktop app: opening the store, reshaping one
    nearest-neighbour query's parallel lists into result records, and the
    console listing. The text encoder and the store query are parameters. */
module Searcher {
  import opened Common
  import opened Strings
  import opened Records

  const DefaultDbPath: string := "./sample_db"

  datatype SearchError =
    | DbNotFound(path: string)
    /** `distances[i]` read past the end of a shorter list. */
    | IndexError

  /** The store path the constructor opens: `db_path or DEFAULT_DB_PATH`; a
      missing folder raises `FileNotFoundError`. */
  function OpenSearcher(dbPath: Option<string>, exists_: string -> bool): (r: Result<string, SearchError>)
    ensures r.Success? ==> exists_(r.value)
    ensures r.Success? <==> exists_(if dbPath.None? || dbPath.value == "" then DefaultDbPath else dbPath.value)
    ensures dbPath.Some? && dbPath.value != "" && r.Success? ==> r.value == dbPath.value
    ensures r.Failure? ==> r.error.DbNotFound?
  {
    var path := if dbPath.None? || dbPath.value == "" then DefaultDbPath else dbPath.value;
    if exists_(path) then Success(path) else Failure(DbNotFound(path))
  }

  /** The first row of what `collection.query` returns for one query vector. */
  datatype QueryResult = QueryResult(ids: seq<string>, metadatas: seq<Meta>, distances: seq<real>)

  /** One result record: `filename`, `route`, `score` and `metadata`. */
  datatype Hit = Hit(filename: Option<string>, route: string, score: real, metadata: Meta)

  /** Entry `i` of the output of `search`. */
  function HitAt(r: QueryResult, i: nat): Hit
    requires i < |r.ids| && i < |r.distances|
  {
    var meta := if i < |r.metadatas| then r.metadatas[i] else NoMeta;
    Hit(meta.filename, r.ids[i], r.distances[i], meta)
  }

  /** The loop of `search`: one record per returned id, in the store's order; a
      distances list shorter than the ids list raises `IndexError` at the first
      missing entry. */
  function Assemble(r: QueryResult): (out: Result<seq<Hit>, SearchError>)
    ensures out.Failure? <==> |r.distances| < |r.ids|
    ensures out.Failure? ==> out.error == IndexError
    ensures out.Success? ==> |out.value| == |r.ids|
    ensures out.Success? ==> forall i :: 0 <= i < |r.ids| ==>
      && out.value[i].route == r.ids[i]
      && out.value[i].score == r.distances[i]
      && (i < |r.metadatas| ==> out.value[i].metadata == r.metadatas[i]
                                && out.value[i].filename == r.metadatas[i].filename)
      && (i >= |r.metadatas| ==> out.value[i].metadata == NoMeta && out.value[i].filename.None?)
  {
    if |r.distances| < |r.ids| then Failure(IndexError)
    else Success(seq(|r.ids|, i requires 0 <= i < |r.ids| => HitAt(r, i)))
  }

  /** `search(query_text, top_k)`: one store query for `top_k` neighbours of the
      encoded text, then assembly. */
  function Search(encode: string -> seq<real>, query: (seq<real>, int) -> QueryResult, text: string, topK: int): (out: Result<seq<Hit>, SearchError>)
    ensures var r := query(encode(text), topK);
      out.Failure? <==> |r.distances| < |r.ids|
    ensures var r := query(encode(text), topK);
      out.Success? ==> |out.value| == |r.ids| && forall i :: 0 <= i < |r.ids| ==> out.value[i].route == r.ids[i]
  {
    Assemble(query(encode(text), topK))
  }

  /** When the store honours `n_results`, `search` returns at most `top_k` records. */
  lemma SearchBounded(encode: string -> seq<real>, query: (seq<real>, int) -> QueryResult, text: string, topK: int)
    requires |query(encode(text), topK).ids| <= topK
    ensures Search(encode, query, text, topK).Success? ==> |Search(encode, query, text, topK).value| <= topK
  {
  }

  /** The end of the slice `xs[:k]` for a list of length `n`, negative `k` included. */
  function SliceEnd(n: nat, k: int): (e: nat)
    ensures e <= n
    ensures k >= 0 ==> e == if k <= n then k else n
    ensures k < 0 ==> e == if n + k >= 0 then n + k else 0
  {
    if k >= 0 then (if k <= n then k else n)
    else if n + k >= 0 then n + k else 0
  }

  /** One block of `print_results`: rank, file name, the BPM shown (if any), score
      and route. */
  datatype ListingLine = ListingLine(rank: nat, filename: Option<string>, bpm: Option<real>, score: real, route: string)

  /** `bpm and bpm > 0`: a BPM suffix appears only for a positive tempo. */
  function ShownBpm(m: Meta): (b: Option<real>)
    ensures b.Some? <==> m.bpm.Some? && m.bpm.value > 0.0
    ensures b.Some? ==> b == m.bpm
  {
    if m.bpm.Some? && m.bpm.value > 0.0 then m.bpm else None
  }

  /** `print_results(results, top_k)`: the header count `k = top_k or len(results)`
      and one block per entry of `results[:k]`. */
  function PrintResults(results: seq<Hit>, topK: Option<int>): (out: (int, seq<ListingLine>))
    ensures out.0 == if topK.None? || topK.value == 0 then |results| else topK.value
    ensures |out.1| == SliceEnd(|results|, out.0)
    ensures forall i :: 0 <= i < |out.1| ==>
      out.1[i] == ListingLine(i + 1, results[i].filename, ShownBpm(results[i].metadata), results[i].score, results[i].route)
  {
    var k := if topK.None? || topK.value == 0 then |results| else topK.value;
    var shown := results[..SliceEnd(|results|, k)];
    (k, seq(|shown|, i requires 0 <= i < |shown| =>
      ListingLine(i + 1, shown[i].filename, ShownBpm(shown[i].metadata), shown[i].score, shown[i].route)))
  }

  /** Without `top_k`, or with a `top_k` at least the number of results, every
      result is listed; a negative `top_k` drops that many from the end. */
  lemma PrintResultsCoverage(results: seq<Hit>, topK: Option<int>)
    ensures topK.None? ==> |PrintResults(results, topK).1| == |results|
    ensures topK.Some? && topK.value >= |results| ==> |PrintResults(results, topK).1| == |results|
    ensures topK.Some? && 0 < -topK.value <= |results| ==> |PrintResults(results, topK).1| == |results| + topK.value
  {
  }

  /** The console loop searches only for input that is not blank. */
  predicate ShouldSearch(input: string) {
    |Strip(input)| > 0
  }

  lemma ShouldSearchIffNotBlank(input: string)
    ensures ShouldSearch(input) <==> exists i :: 0 <= i < |input| && !IsSpace(input[i])
  {
    StripEmptyIffBlank(input);
  }
}
