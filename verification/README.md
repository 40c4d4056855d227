# AI sample searcher — decision layer in Dafny

This project models the deterministic logic of the AI sample searcher, a desktop tool that indexes a
library of short audio samples into a vector store and searches it by text description, tempo, key,
duration and format. The audio and machine-learning work is left abstract: signal processing, the CLAP
embedding model, the vector store and the file system are parameters or opaque values. Everything
around them is modelled as pure functions over reals, strings, sequences and maps, plus a few loops:

- **Tempo.** The tempo octave correction shared by the librosa and Essentia engines, in `Tempo`.
- **Key detection.**
  - Librosa: Krumhansl-Schmuckler correlation over 24 rotations, first arg-max, a 0.5 threshold, labels "C Maj"/"A Min". This is `ChromaKey`.
  - Essentia: HPCP frames every 2048 samples, the mean profile, and the strength-gated key label ("C maj"/"A min"). This is `HpcpKey`.
  - Both engines' per-file gating (short clips, loading failures, the 30-second cut) is in `Analysis`.
- **Indexing.** The desktop indexer's candidate selection, record construction and progress reports are in `Indexing`. The older stand-alone script is in `ScriptIndexer`.
- **Re-analysis.** The librosa worker and the Essentia script both re-analyse stored records: they select, merge, and write back in batches of 50. These are in `Reanalysis`, with the batching in `Batching`. The store is a map from id to metadata.
- **Search and filters.**
  - `Searcher`: opening the store, reshaping the store's parallel result lists into records, and the console listing.
  - `Filters`: the similarity score, every filter gate, `apply_filters`, `reset_filters` and `do_search`.
  - `Display`: `format_time` and the similarity colour bands.
- **Paths.** The WSL ↔ Windows path rewrites, `os.path.splitext` and `os.path.basename` are in `Paths`. The older app's result list and drag URL are in `ScriptApp`.

Four details of the code that the model keeps as written:

- **The indexer does not batch.** It writes one record per `add` call.
- **Durations.** A file whose duration cannot be read is skipped. A known non-positive duration passes the 10-second ceiling.
- **No sorting.** `apply_filters` keeps the store's order and does not sort by similarity.
- **Progress.** It is `int((i+1)/n*100)`, a truncation rather than a rounding.

One cross-file consequence is proved:

- The librosa engine writes keys with a capital "M" ("C Maj").
- The key filter's choices use a lower-case "m" ("C maj"), and the filter compares exactly.
- So every key choice except "All" rejects every librosa-analysed record (`Filters.LibrosaKeysNeverMatch`).

## Model

| member | source | states |
|---|---|---|
| Paths.DriveForm | desktop_app/analyze_essentia_wsl.py:34-42 | a path not starting "/mnt/" is returned unchanged; "/mnt/d/rest" becomes the upper-cased drive, ':' and the separator, then the remaining segments joined by the separator ('/' in the script) |
| Paths.WindowsToWsl | desktop_app/analyze_essentia_wsl.py:45-52 | a path whose second character is not ':' is unchanged; otherwise the result is "/mnt/" + lower-cased drive + the rest, four characters longer, with no backslash after the drive |
| Paths.WindowsWslRoundTrip | desktop_app/analyze_essentia_wsl.py:34-52 | for d ':' sep rest, converting to WSL and back gives upper(d) ":/" and rest with every '\' turned to '/' |
| Paths.WorkerWslPath | desktop_app/app.py:168-173 | the worker's database-path rewrite leaves no backslash in the result |
| Paths.WorkerAgreesWithScript | desktop_app/app.py:168-173 | for a drive path the worker's rewrite equals the script's `windows_path_to_wsl`; for other paths it differs only by turning '\' into '/' |
| Paths.ScriptDbPath | desktop_app/analyze_essentia_wsl.py:190-194 | only a "D:" or "d:" prefix is translated (to "/mnt/d" + rest with '/'); any other path is kept |
| Paths.WslToWindowsBackslash | desktop_app/app.py:435-442 | identity unless the path starts "/mnt/"; the translation of a "/mnt/" path keeps no '/', and with '\' read as '/' it equals the script's slash form |
| Paths.DragUrlUsesSlashForm | src/app.py:27-31 | the drag URL is "file:///" + the slash form of the path; for a "/mnt/" path without backslashes it is "file:///" + `wsl_path_to_windows` of it |
| Paths.SplitExt | desktop_app/indexer.py:103 | the extension is non-empty iff the last '.' has no separator after it and a non-'.' character of the same name before it, and then it is the path from that '.' on; otherwise it is empty |
| Paths.Basename | desktop_app/indexer.py:240 | the base name is the suffix of the path after its last separator: it holds no separator and, unless it is the whole path, a separator precedes it |
| Tempo.KeepInBand | desktop_app/indexer.py:153-154 | exactly the candidates within [40, 200] survive, each taken from the input |
| Tempo.ClosestIndex | desktop_app/indexer.py:157-159 | the chosen candidate is nearest to 120, and every earlier candidate is strictly farther (first one wins ties) |
| Tempo.CorrectOctave | desktop_app/indexer.py:145-159 | a result lies in [40, 200], is one of the candidates and is nearest to 120 among the in-band ones; no result iff no candidate is in band |
| Tempo.OctaveClosedForm | desktop_app/indexer.py:145-159 | 80..160 is kept, 20..80 doubled, 160..400 halved, anything else (zero and negatives included) rejected |
| Tempo.Round1 | desktop_app/indexer.py:160 | rounding to one decimal moves a tempo by at most 0.05 and keeps it within [40, 200] |
| Tempo.Estimate | desktop_app/indexer.py:143-160 | a tempo is reported iff the raw estimate lies in [20, 400]; it lies in [40, 200] and within 0.05 of the octave-corrected tempo |
| Tempo.EssentiaEstimate | desktop_app/analyze_essentia_wsl.py:90-104 | a non-positive raw tempo gives none; a positive one gives the librosa heuristic's tempo, in [40, 200] |
| Tempo.EssentiaGuardRedundant | desktop_app/analyze_essentia_wsl.py:90-104 | the positivity guard changes nothing: the Essentia tempo equals the librosa heuristic on the same raw value |
| Tempo.OctaveLow | desktop_app/indexer.py:145-159 | below 80 a tempo of at least 20 is doubled and a lower one rejected |
| Tempo.OctaveHigh | desktop_app/indexer.py:145-159 | above 160 a tempo of at most 400 is halved and a higher one rejected |
| Tempo.OctaveExamples | desktop_app/indexer.py:147-159 | 70 becomes 140 and 170 becomes 85 |
| ChromaKey.Correlations | desktop_app/indexer.py:186-195 | 24 correlations; entry t is rotation t/2 against the major profile for even t, the minor for odd t |
| ChromaKey.FirstMax | desktop_app/indexer.py:198 | the index of a maximal correlation, with every earlier one strictly smaller |
| ChromaKey.KeyOf | desktop_app/indexer.py:169-202 | a key exists iff the chroma is not flat and some correlation exceeds 0.5; it is the label of the first maximal triple |
| ChromaKey.LabelShape | desktop_app/indexer.py:194-202 | every librosa label has a space four characters and a capital 'M' three characters from its end |
| HpcpKey.FramesFrom | desktop_app/analyze_essentia_wsl.py:134 | the range holds exactly the hop-aligned points from the start below the stop, strictly increasing |
| HpcpKey.FrameStarts | desktop_app/analyze_essentia_wsl.py:130-134 | a frame starts at s iff s is a multiple of 2048 and s + 4096 < the audio length |
| HpcpKey.Contributing | desktop_app/analyze_essentia_wsl.py:134-142 | a frame that raises abandons the loop; otherwise exactly the frames with at least one spectral peak contribute, each once and in increasing order |
| HpcpKey.MeanBounds | desktop_app/analyze_essentia_wsl.py:144-146 | each bin of the averaged profile lies between the bounds that bin has in every frame |
| HpcpKey.KeyLabel | desktop_app/analyze_essentia_wsl.py:152-162 | a key is set iff the answer is a tuple of three or more with strength > 0.5; "major" maps to " maj", anything else to " min" |
| HpcpKey.EssentiaKey | desktop_app/analyze_essentia_wsl.py:108-165 | a frame that raises, or no frame with a peak (in particular audio of at most 4096 samples), means no key; otherwise the key is the label of the matcher's answer on the mean of the contributing profiles |
| Analysis.LibrosaAnalyze | desktop_app/indexer.py:116-210 | a load failure or a clip under half a second gives (None, None); otherwise the tempo is `Estimate` of the raw tempo and the key is `KeyOf` the chroma, each None where its stage raised |
| Analysis.ResolveAudioPath | desktop_app/analyze_essentia_wsl.py:57-67 | the file opened exists and is the Windows form or the WSL form of the path; none iff neither exists |
| Analysis.Truncated | desktop_app/analyze_essentia_wsl.py:73-76 | the audio is cut to at most 30 s at 44.1 kHz, and shorter audio is untouched |
| Analysis.EssentiaAnalyze | desktop_app/analyze_essentia_wsl.py:55-171 | a missing or unloadable file, or one under half a second after the 30 s cut, gives (None, None); otherwise the key is `EssentiaKey` of the cut audio, and a tempo is reported iff the rhythm extractor gave one in [20, 400], equal to `Estimate` of it |
| Indexing.GetDuration | desktop_app/indexer.py:102-114 | a duration exists only for a supported extension; ".wav" reads the WAV header, the compressed extensions read the tags |
| Indexing.Candidates | desktop_app/indexer.py:212-226 | a path is a candidate iff some walked file with a supported name, a new normalised path and a known duration of at most 10 s gives it; no candidate is already stored |
| Indexing.CandidatesShrink | desktop_app/indexer.py:214-223 | more stored ids never add candidates |
| Indexing.LongFileSkipped | desktop_app/indexer.py:224-226 | a file longer than 10 s is never a candidate |
| Indexing.MakeRecord | desktop_app/indexer.py:239-251 | id = document = path, file name = base name, bpm 0.0 and key "" when analysis found none, engine "librosa" |
| Indexing.AddsFor | desktop_app/indexer.py:229-252 | every added record belongs to a candidate with a non-empty embedding, and every such candidate gets a record |
| Indexing.Usable | desktop_app/indexer.py:230-234 | the candidates kept by `if vector:` are those with a non-empty embedding |
| Indexing.AddsForInOrder | desktop_app/indexer.py:229-257 | the added records are, in order, the records of the usable candidates: one per usable candidate |
| Indexing.AddsForEmpty | desktop_app/indexer.py:229-252 | nothing is added iff no candidate has a non-empty embedding |
| Indexing.PercentMonotone | desktop_app/indexer.py:253-255 | the progress percentage never decreases, stays within 0..100 and is 100 at the end |
| Indexing.ProgressUpTo | desktop_app/indexer.py:253-255 | one report per processed candidate, the k-th being the percentage after k + 1 |
| Indexing.ProgressRises | desktop_app/indexer.py:253-255 | the reports of a run never decrease and the last one is 100 |
| Indexing.RunIndexing | desktop_app/indexer.py:228-257 | the loop adds exactly the records of `AddsFor`, returns the number of candidates with a non-empty embedding, and reports progress after every candidate |
| Indexing.ApplyAdds | desktop_app/indexer.py:246-251 | the store gains exactly the added ids, keeps every existing record, and maps a new id to the first record added under it |
| Indexing.ReindexAddsNothing | desktop_app/indexer.py:212-257 | indexing the same folder again adds no record |
| ScriptIndexer.GetDuration | src/indexer.py:34-46 | a duration exists only for ".wav" (header) or ".mp3" (tags) |
| ScriptIndexer.DurationAgreesWithDesktop | src/indexer.py:34-46 | on WAV and MP3 files the script's duration equals the desktop indexer's |
| ScriptIndexer.Candidates | src/indexer.py:63-71 | a path is a candidate iff a walked ".wav"/".mp3" file with a path not yet stored and a known duration of at most 10 s gives it, without normalisation |
| ScriptIndexer.ScriptNamesAreDesktopNames | src/indexer.py:65 | every name the script accepts the desktop indexer accepts |
| ScriptIndexer.ScriptCandidatesAreDesktopCandidates | src/indexer.py:63-71 | on Windows paths, with normalisation the identity, every script candidate is a desktop candidate |
| ScriptIndexer.MakeRecord | src/indexer.py:78-83 | id = document = path, and the metadata is the base name alone |
| ScriptIndexer.AddsFor | src/indexer.py:75-83 | every added record belongs to a candidate with a non-empty embedding, and every such candidate gets one |
| ScriptIndexer.AddsInOrder | src/indexer.py:75-83 | the added records are, in order, one per candidate with a non-empty embedding, holding its path and base name |
| Batching.Batches | desktop_app/analyze_essentia_wsl.py:268-286 | every batch holds 1..50 updates, all but the last exactly 50, and there are ceil(n/50) of them |
| Batching.ConcatBatches | desktop_app/analyze_essentia_wsl.py:268-286 | the batches laid end to end give back the queue: nothing lost, duplicated or reordered |
| Batching.Enqueue | desktop_app/analyze_essentia_wsl.py:269-277 | appending an update flushes the pending list exactly when it reaches 50, keeping the loop state in step with the queue |
| Batching.FlushLoop | desktop_app/analyze_essentia_wsl.py:268-286 | flushing at 50 and once at the end writes exactly `Batches` of the queue |
| Batching.BatchExample | desktop_app/analyze_essentia_wsl.py:272-286 | 127 queued updates are written as 50, 50 and 27 |
| Reanalysis.Selection | desktop_app/analyze_essentia_wsl.py:222-235 | an entry is selected iff force, or it lacks a tempo or key, or (Essentia only) librosa analysed it; force selects all |
| Reanalysis.Merge | desktop_app/analyze_essentia_wsl.py:257-266 | only a positive tempo and a present key overwrite, the engine tag is always set, and the file name is kept |
| Reanalysis.MergeIdempotent | desktop_app/analyze_essentia_wsl.py:257-266 | merging the same result twice changes nothing more |
| Reanalysis.CompleteAfterMerge | desktop_app/app.py:91-119 | a record given a positive tempo and a non-empty key is not selected again without force |
| Reanalysis.EssentiaRevisitsLibrosa | desktop_app/analyze_essentia_wsl.py:234 | whatever the librosa worker writes is selected by the next Essentia run |
| Reanalysis.Queue | desktop_app/analyze_essentia_wsl.py:268-270 | at most one update per selected entry; the Essentia script with force queues every selected entry |
| Reanalysis.QueueComplete | desktop_app/analyze_essentia_wsl.py:257-270 | every selected entry whose analysis set a tempo or key (or force, for Essentia) is queued with its merged metadata, and the queue has one update per such entry |
| Reanalysis.QueueOrigin | desktop_app/analyze_essentia_wsl.py:257-270 | each queued update carries the id of a selected entry and its metadata merged with that entry's analysis, which set a positive tempo or a key (or force, for Essentia) |
| Reanalysis.Process | desktop_app/app.py:108-145 | the loop over the selected entries counts exactly the queued updates, writes them in `Batches` of 50, and (librosa) reports the percentage after every entry |
| Reanalysis.Reanalyze | desktop_app/app.py:105-145 | the run reports the number of selected entries whose analysis was worth writing, writes `Batches` of the queue, and (librosa) reports progress after every selected sample |
| Reanalysis.ApplyUpdates | desktop_app/analyze_essentia_wsl.py:276 | updating never adds or removes a stored id |
| Reanalysis.ApplyUpdatesUntouched | desktop_app/analyze_essentia_wsl.py:276 | an id no update mentions keeps its metadata |
| Reanalysis.ApplyUpdatesLastWins | desktop_app/analyze_essentia_wsl.py:276 | a stored id ends with the metadata of the last update naming it |
| Reanalysis.BatchingInvisible | desktop_app/analyze_essentia_wsl.py:272-286 | writing the queue in batches of 50 leaves the store as writing it one entry at a time |
| Searcher.OpenSearcher | desktop_app/searcher.py:36-66 | the path opened is the given one or "./sample_db" when none is given; a missing folder fails with `DbNotFound` |
| Searcher.Assemble | desktop_app/searcher.py:87-104 | one record per id in store order with route, score and metadata of that index; missing metadata gives no file name and `{}`; a short distances list raises `IndexError` |
| Searcher.Search | desktop_app/searcher.py:76-104 | the query's ids come back one per record in order, or `IndexError` when distances are short |
| Searcher.SearchBounded | desktop_app/searcher.py:85 | a store that honours `n_results` yields at most `top_k` records |
| Searcher.SliceEnd | desktop_app/searcher.py:111 | the end of `results[:k]`, negative k included |
| Searcher.ShownBpm | desktop_app/searcher.py:112-113 | a BPM suffix appears iff the tempo is positive |
| Searcher.PrintResults | desktop_app/searcher.py:106-116 | the header count is `top_k or len(results)`, and block i shows rank i + 1 with the file name, shown BPM, score and route of result i |
| Searcher.PrintResultsCoverage | desktop_app/searcher.py:107-111 | no `top_k`, or one at least the number of results, lists everything; a negative one drops that many from the end |
| Searcher.ShouldSearchIffNotBlank | desktop_app/searcher.py:123-127 | the console searches iff the input has a non-whitespace character |
| Filters.Similarity | desktop_app/app.py:1782 | the similarity lies in [0, 100], is (1 - d/2)·100 for d in [0, 2], 100 below and 0 above |
| Filters.SimilarityNonIncreasing | desktop_app/app.py:1782 | a larger distance never shows a higher similarity |
| Filters.FileFormat | desktop_app/app.py:1813-1816 | the format compared is the lower-cased extension without its dot, or empty when there is no extension |
| Filters.FilterDurationAgrees | desktop_app/app.py:1844-1859 | for an existing file the gate reads the indexer's duration; for a missing one, none |
| Filters.NameGates | desktop_app/app.py:1796-1816 | the include, exclude and format gates raise iff the file name is missing and one of them is active; otherwise they accept exactly the names every active gate allows |
| Filters.Admit | desktop_app/app.py:1777-1867 | the gate sequence raises iff the file name is missing, the similarity is in range and a name filter is active; otherwise it admits exactly when every active gate passes |
| Filters.NamedResultsNeverRaise | desktop_app/app.py:1796-1816 | a result with a file name never raises |
| Filters.FilterBy | desktop_app/app.py:1776-1869 | for any per-result test, the loop keeps an order-preserving subsequence of admitted results with their similarities, keeps every admitted result, and fails iff the test fails on some result |
| Filters.ApplyFilters | desktop_app/app.py:1764-1869 | the output is an order-preserving subsequence of the input, every item passes and carries its own similarity, every passing input appears, and the call raises iff some item raises |
| Filters.BpmRangeExample | desktop_app/app.py:1818-1827 | a 120..130 range passes a record without a tempo and drops one at 90 |
| Filters.DefaultsAdmitEverything | desktop_app/app.py:1418-1428 | with the reset values every result is admitted |
| Filters.DefaultsKeepEverything | desktop_app/app.py:1418-1428 | with the reset values `apply_filters` keeps every result in order |
| Filters.KeyChoiceShape | desktop_app/app.py:1158-1160 | every key choice but "All" has a lower-case 'm' three characters from its end |
| Filters.LibrosaKeysNeverMatch | desktop_app/app.py:1830-1834 | a record whose key a librosa run wrote fails every key filter except "All" |
| Filters.FetchCount | desktop_app/app.py:1881-1882 | the over-fetch is 3·top_k up to top_k = 33 and 100 from 34 on, never below top_k for 1..100 |
| Filters.DoSearch | desktop_app/app.py:1871-1890 | no engine or a blank query leaves the list unchanged; otherwise it raises iff the search or the filter raised, and lists the first min(top_k, n) of the n filtered results |
| Filters.DoSearchListsPassing | desktop_app/app.py:1881-1890 | the list holds at most top_k results, each passing every active gate, in the order the search returned them |
| Filters.DefaultsShowFirstResults | desktop_app/app.py:1871-1890 | with the reset values the list shows the first top_k fetched results |
| Display.FormatTimeReadsBack | desktop_app/app.py:1757-1761 | the text is digits ':' two digits with seconds < 60, and reading it back gives the position to within one second |
| Display.ColorIsBand | desktop_app/app.py:306-319 | the colour is the palette entry for the number of thresholds 25/40/55/70/85 reached |
| Display.BandMonotone | desktop_app/app.py:306-319 | a higher similarity never reaches fewer thresholds |
| Display.ColorsDistinct | desktop_app/app.py:306-319 | two similarities share a colour iff they reach the same thresholds |
| ScriptApp.RowFor | src/app.py:72-75 | a row shows the result's file name and stores its route |
| ScriptApp.DoSearch | src/app.py:66-76 | one row per result of a ten-result search for the raw query, in the returned order |
| ScriptApp.DragOfListedRow | src/app.py:22-31 | dragging a listed "/mnt/" row hands over "file:///" + the drive-letter form with no backslash |

## Left out

- Signal processing is a set of inputs, not computed: librosa `hpss`, `onset_strength` and `beat.tempo`; `chroma_cqt`; the Essentia rhythm extractor, spectrum, spectral peaks, HPCP and `Key`.
- The CLAP embedding model and the text encoder are inputs. An embedding is an optional vector and the query encoder is a function.
- The vector store is modelled as a map or as a query function. The directory walk is a sequence of entries, and path normalisation, `os.path.exists`, `wave` and mutagen are functions. Regular expressions are a validity test plus a search function.
- Qt widgets, playback, drag-and-drop mechanics, threads and signals, the WSL subprocess orchestration, console printing, stderr suppression and configuration files are left out. They are I/O, UI or concurrency.
- Float arithmetic is modelled with exact reals. `np.std < 1e-6` is stated as variance < 1e-12. The vector norms are positive inputs.
- Tempo.Round1: rounds halves up, while Python's `round` on doubles rounds half to even. The contract claims only the ±0.05 bound and that the result stays in band.
- Indexing.Percent: uses the exact floor of (i+1)·100/n. The float expression can be one lower, for example 28 for 29/100·100. The contracts claim only bounds, monotonicity and a final 100.
- Case mapping (`lower`, `upper`) covers ASCII letters only.
- `os.path.splitext` and `basename` are modelled on separators alone, with no drive-letter handling.
- The module `src/searcher.py` is not part of this model. The older app's engine is a function returning (file name, route) pairs.
- `reset_filters` re-runs the search when the list is not empty. That refresh is UI, and the lemmas reason about the filters only.
- The `except` around each re-analysed entry is not modelled. Both analysers catch their own errors and return no result. The only failure left is a store write, which is I/O.
- Re-analysis writes: the source interleaves the batch writes with the analysis loop, while `Reanalysis.Process` writes the batches after the loop. No analysis reads the store, so the same `collection.update` calls are issued.
- Metadata that the store returns as `None` is not modelled. The store always returns a dictionary here.
- The `ResultWidget` rendering of BPM, key and engine is left out because it is UI.
