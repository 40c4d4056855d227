/** The two per-file analysers: `IndexerBackend.get_bpm_and_key` (librosa) and
    `get_bpm_and_key_essentia` (Essentia). Loading and the signal-processing
    stages are inputs; what is modelled is how their outputs are gated,
    corrected and combined. */
module Analysis {
  import opened Common
  import opened Records
  import opened Paths
  import opened Strings
  import Tempo
  import ChromaKey
  import HpcpKey

  /** librosa loads at this rate. */
  const LibrosaRate: nat := 22050

  /** Essentia loads at this rate and analyses at most 30 seconds. */
  const EssentiaRate: nat := 44100
  const EssentiaMaxSamples: nat := 44100 * 30

  /** What librosa produces for a clip that loaded: its length in samples, the raw
      tempo estimate (`None` when tempo estimation raised), and the time-averaged
      chroma with its norms (`None` when chroma extraction raised). */
  datatype LibrosaSignals = LibrosaSignals(
    samples: nat,
    tempo: Option<real>,
    chroma: Option<ChromaKey.Chroma>,
    norms: ChromaKey.Norms)

  /** `len(y) < sr * 0.5` */
  predicate LibrosaTooShort(samples: nat) {
    (samples as real) < (LibrosaRate as real) * 0.5
  }

  /** The librosa analyser; `None` stands for a load or source-separation failure. */
  function LibrosaAnalyze(loaded: Option<LibrosaSignals>): (a: Analysis)
    ensures loaded.None? ==> a == NoAnalysis
    ensures loaded.Some? && LibrosaTooShort(loaded.value.samples) ==> a == NoAnalysis
    ensures a.bpm.Some? ==> Tempo.InBand(a.bpm.value)
    ensures a.bpm.Some? <==> loaded.Some? && !LibrosaTooShort(loaded.value.samples)
                             && loaded.value.tempo.Some? && 20.0 <= loaded.value.tempo.value <= 400.0
    ensures a.key.Some? ==> ChromaKey.IsLabel(a.key.value)
    ensures a.key.Some? ==> loaded.Some? && loaded.value.chroma.Some?
                            && !ChromaKey.IsFlat(loaded.value.chroma.value)
    ensures loaded.Some? && !LibrosaTooShort(loaded.value.samples) ==>
      var sig := loaded.value;
      && a.bpm == (if sig.tempo.Some? then Tempo.Estimate(sig.tempo.value) else None)
      && a.key == (if sig.chroma.Some? then ChromaKey.KeyOf(sig.chroma.value, sig.norms) else None)
  {
    match loaded
    case None => NoAnalysis
    case Some(sig) =>
      if LibrosaTooShort(sig.samples) then NoAnalysis
      else
        var bpm := match sig.tempo
          case None => None
          case Some(t) => Tempo.Estimate(t);
        var key := match sig.chroma
          case None => None
          case Some(v) => ChromaKey.KeyOf(v, sig.norms);
        Analysis(bpm, key)
  }

  /** The file the Essentia analyser opens: the Windows form of a "/mnt/" path if
      that exists, otherwise the WSL form of the path if that exists. */
  function ResolveAudioPath(p: string, exists_: string -> bool): (r: Option<string>)
    ensures r.Some? ==> exists_(r.value)
    ensures r.Some? ==> r.value == WslToWindows(p) || r.value == WindowsToWsl(p)
    ensures exists_(WslToWindows(p)) ==> r == Some(WslToWindows(p))
    ensures r.None? <==> !exists_(WslToWindows(p)) && !exists_(WindowsToWsl(p))
  {
    var first := if StartsWith(p, MntPrefix) then WslToWindows(p) else p;
    if exists_(first) then Some(first)
    else
      var second := WindowsToWsl(p);
      if exists_(second) then Some(second) else None
  }

  /** What Essentia produces for a loaded file (already cut to 30 seconds): its
      length in samples, the rhythm extractor's tempo (`None` when it raised), and
      the per-frame peak/HPCP results and key matcher. */
  datatype EssentiaSignals = EssentiaSignals(
    samples: nat,
    rhythm: Option<real>,
    frame: nat -> Option<HpcpKey.FrameAnalysis>,
    matcher: HpcpKey.Hpcp -> HpcpKey.KeyAnswer)

  /** `audio[:max_samples]` */
  function Truncated(samples: nat): (n: nat)
    ensures n <= EssentiaMaxSamples && n <= samples
    ensures samples <= EssentiaMaxSamples ==> n == samples
  {
    if samples > EssentiaMaxSamples then EssentiaMaxSamples else samples
  }

  /** `len(audio) < 44100 * 0.5` */
  predicate EssentiaTooShort(samples: nat) {
    (samples as real) < (EssentiaRate as real) * 0.5
  }

  /** The Essentia analyser; `load` is `None` where MonoLoader raises. */
  function EssentiaAnalyze(p: string, exists_: string -> bool, load: string -> Option<EssentiaSignals>): (a: Analysis)
    ensures ResolveAudioPath(p, exists_).None? ==> a == NoAnalysis
    ensures a.bpm.Some? ==> Tempo.InBand(a.bpm.value)
    ensures a != NoAnalysis ==>
      var f := ResolveAudioPath(p, exists_);
      f.Some? && load(f.value).Some? && !EssentiaTooShort(load(f.value).value.samples)
    ensures a.key.Some? ==>
      var sig := load(ResolveAudioPath(p, exists_).value).value;
      a.key == HpcpKey.EssentiaKey(Truncated(sig.samples), sig.frame, sig.matcher)
    ensures var f := ResolveAudioPath(p, exists_);
      f.Some? && load(f.value).Some? && !EssentiaTooShort(Truncated(load(f.value).value.samples)) ==>
        var sig := load(f.value).value;
        && a.key == HpcpKey.EssentiaKey(Truncated(sig.samples), sig.frame, sig.matcher)
        && (a.bpm.Some? <==> sig.rhythm.Some? && 20.0 <= sig.rhythm.value <= 400.0)
        && (a.bpm.Some? ==> a.bpm == Tempo.Estimate(sig.rhythm.value))
  {
    match ResolveAudioPath(p, exists_)
    case None => NoAnalysis
    case Some(f) =>
      match load(f)
      case None => NoAnalysis
      case Some(sig) =>
        var n := Truncated(sig.samples);
        if EssentiaTooShort(n) then NoAnalysis
        else
          var bpm := match sig.rhythm
            case None => None
            case Some(v) => Tempo.EssentiaEstimate(v);
          Analysis(bpm, HpcpKey.EssentiaKey(n, sig.frame, sig.matcher))
  }
}
