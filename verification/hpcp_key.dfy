/** Key detection of the Essentia engine: the audio is cut into frames of 4096
    samples every 2048 samples; frames with at least one spectral peak each give
    a 36-bin HPCP profile; the profiles are averaged and handed to Essentia's
    key-template matcher, whose answer is accepted when its strength exceeds 0.5.
    Peak extraction, the HPCP computation and the matcher are inputs. */
module HpcpKey {
  import opened Common

  const FrameSize: nat := 4096
  const HopSize: nat := 2048
  const HpcpSize: nat := 36
  const Threshold: real := 0.5

  type Hpcp = v: seq<real> | |v| == HpcpSize witness seq(36, i => 0.0)

  /** `range(s, stop, HopSize)` */
  function FramesFrom(s: nat, stop: int): (fs: seq<nat>)
    ensures forall x :: x in fs <==> s <= x < stop && Aligned(x, s)
    ensures forall i :: 0 <= i < |fs| ==> s <= fs[i]
    ensures forall i, j :: 0 <= i < j < |fs| ==> fs[i] < fs[j]
    decreases stop - s
  {
    if s >= stop then [] else StepAligned(s); [s] + FramesFrom(s + HopSize, stop)
  }

  /** `x` is a whole number of hops past `s`. */
  predicate Aligned(x: int, s: int) {
    (x - s) % HopSize == 0
  }

  /** Past `s`, the points aligned with `s` are those aligned with `s + HopSize`. */
  lemma StepAligned(s: nat)
    ensures forall x: int :: x > s && Aligned(x, s) ==> x >= s + HopSize
    ensures forall x: int :: x >= s + HopSize ==> (Aligned(x, s) <==> Aligned(x, s + HopSize))
  {
    forall x: int | x > s && Aligned(x, s)
      ensures x >= s + HopSize
    {
      var q := (x - s) / HopSize;
      assert x - s == q * HopSize;
    }
    forall x: int | x >= s + HopSize
      ensures Aligned(x, s) <==> Aligned(x, s + HopSize)
    {
      assert x - s == (x - (s + HopSize)) + HopSize;
    }
  }

  /** The frame starts `range(0, len(audio) - FrameSize, HopSize)`. */
  function FrameStarts(audioLen: nat): (fs: seq<nat>)
    ensures forall s: int :: s in fs <==> 0 <= s && s % HopSize == 0 && s + FrameSize < audioLen
    ensures forall i, j :: 0 <= i < j < |fs| ==> fs[i] < fs[j]
  {
    var fs := FramesFrom(0, audioLen - FrameSize);
    assert forall x: int :: Aligned(x, 0) <==> x % HopSize == 0;
    fs
  }

  /** What the signal-processing library reports for a frame: how many spectral
      peaks it found, and the HPCP of those peaks. */
  datatype FrameAnalysis = FrameAnalysis(peakCount: nat, hpcp: Hpcp)

  /** A frame that was analysed and has at least one spectral peak; `None` stands
      for windowing, the spectrum, peak picking or the HPCP raising on that frame. */
  predicate HasPeaks(f: Option<FrameAnalysis>) {
    f.Some? && f.value.peakCount > 0
  }

  /** The loop over the frames: the starts of the frames that contribute a profile,
      in order, or `None` when any frame raised, which abandons key detection. */
  function Contributing(starts: seq<nat>, frame: nat -> Option<FrameAnalysis>): (cs: Option<seq<nat>>)
    ensures cs.None? <==> exists i :: 0 <= i < |starts| && frame(starts[i]).None?
    ensures cs.Some? ==> forall s :: s in cs.value <==> s in starts && HasPeaks(frame(s))
    ensures cs.Some? ==> |cs.value| <= |starts|
    ensures cs.Some? && (forall i, j :: 0 <= i < j < |starts| ==> starts[i] < starts[j]) ==>
      forall i, j :: 0 <= i < j < |cs.value| ==> cs.value[i] < cs.value[j]
  {
    if |starts| == 0 then Some([])
    else
      var f := frame(starts[0]);
      var rest := Contributing(starts[1..], frame);
      assert forall i :: 1 <= i < |starts| ==> starts[i] == starts[1..][i - 1];
      if f.None? then None
      else if rest.None? then None
      else
        var cs := (if f.value.peakCount > 0 then [starts[0]] else []) + rest.value;
        ContributingStep(starts, f.value.peakCount > 0, rest.value, cs);
        Some(cs)
  }

  /** The first start in front of the later contributing starts keeps them increasing. */
  lemma ContributingStep(starts: seq<nat>, first: bool, rest: seq<nat>, cs: seq<nat>)
    requires |starts| > 0
    requires cs == (if first then [starts[0]] else []) + rest
    requires forall s :: s in rest ==> s in starts[1..]
    requires (forall i, j :: 0 <= i < j < |starts| ==> starts[i] < starts[j]) ==>
      forall i, j :: 0 <= i < j < |rest| ==> rest[i] < rest[j]
    ensures (forall i, j :: 0 <= i < j < |starts| ==> starts[i] < starts[j]) ==>
      forall i, j :: 0 <= i < j < |cs| ==> cs[i] < cs[j]
  {
    if forall i, j :: 0 <= i < j < |starts| ==> starts[i] < starts[j] {
      if first {
        forall j | 0 < j < |cs|
          ensures cs[0] < cs[j]
        {
          assert cs[j] == rest[j - 1];
          assert rest[j - 1] in starts[1..];
        }
      }
    }
  }

  function BinSum(ps: seq<Hpcp>, b: nat): real
    requires b < HpcpSize
  {
    if |ps| == 0 then 0.0 else BinSum(ps[..|ps| - 1], b) + ps[|ps| - 1][b]
  }

  /** `np.mean(hpcp_values, axis=0)` */
  function Mean(ps: seq<Hpcp>): (m: Hpcp)
    requires |ps| > 0
  {
    seq(HpcpSize, b requires 0 <= b < HpcpSize => BinSum(ps, b) / |ps| as real)
  }

  /** Each bin of the mean lies between the least and the greatest value that
      bin takes in any frame. */
  lemma {:induction false} BinSumBounds(ps: seq<Hpcp>, b: nat, lo: real, hi: real)
    requires b < HpcpSize
    requires forall i :: 0 <= i < |ps| ==> lo <= ps[i][b] <= hi
    ensures |ps| as real * lo <= BinSum(ps, b) <= |ps| as real * hi
  {
    if |ps| > 0 {
      BinSumBounds(ps[..|ps| - 1], b, lo, hi);
    }
  }

  lemma MeanBounds(ps: seq<Hpcp>, b: nat, lo: real, hi: real)
    requires |ps| > 0 && b < HpcpSize
    requires forall i :: 0 <= i < |ps| ==> lo <= ps[i][b] <= hi
    ensures lo <= Mean(ps)[b] <= hi
  {
    BinSumBounds(ps, b, lo, hi);
    var n := |ps| as real;
    assert n * lo <= BinSum(ps, b) <= n * hi;
    assert Mean(ps)[b] == BinSum(ps, b) / n;
  }

  /** What `es.Key(...)(avg_hpcp)` gives back: an exception, something that is not a
      tuple, a tuple of fewer than three items, or (key, scale, strength, ...). */
  datatype KeyAnswer =
    | Raised
    | NotATuple
    | ShortTuple
    | KeyTuple(key: string, scale: string, strength: real)

  /** The mapping of the matcher's answer to the stored key. */
  function KeyLabel(a: KeyAnswer): (r: Option<string>)
    ensures r.Some? <==> a.KeyTuple? && a.strength > Threshold
    ensures r.Some? && a.scale == "major" ==> r.value == a.key + " maj"
    ensures r.Some? && a.scale != "major" ==> r.value == a.key + " min"
  {
    match a
    case KeyTuple(k, scale, strength) =>
      if strength > Threshold then Some(k + " " + (if scale == "major" then "maj" else "min")) else None
    case _ => None
  }

  /** The profiles of the given frames, in order. */
  function Profiles(starts: seq<nat>, frame: nat -> Option<FrameAnalysis>): (ps: seq<Hpcp>)
    requires forall i :: 0 <= i < |starts| ==> frame(starts[i]).Some?
    ensures |ps| == |starts|
    ensures forall i :: 0 <= i < |starts| ==> ps[i] == frame(starts[i]).value.hpcp
  {
    seq(|starts|, i requires 0 <= i < |starts| => frame(starts[i]).value.hpcp)
  }

  /** The key the Essentia engine reports for `audioLen` samples: none when a frame
      raised or no frame has a peak; otherwise the label of the matcher's answer on
      the mean of the contributing profiles, each frame counted once. */
  function EssentiaKey(audioLen: nat, frame: nat -> Option<FrameAnalysis>, matcher: Hpcp -> KeyAnswer): (r: Option<string>)
    ensures (exists s :: s in FrameStarts(audioLen) && frame(s).None?) ==> r.None?
    ensures (forall s :: s in FrameStarts(audioLen) ==> !HasPeaks(frame(s))) ==> r.None?
    ensures audioLen <= FrameSize ==> r.None?
    ensures var used := Contributing(FrameStarts(audioLen), frame);
      used.Some? && |used.value| > 0 ==>
        && (forall i, j :: 0 <= i < j < |used.value| ==> used.value[i] < used.value[j])
        && r == KeyLabel(matcher(Mean(Profiles(used.value, frame))))
  {
    var starts := FrameStarts(audioLen);
    var used := Contributing(starts, frame);
    if used.None? then None
    else if |used.value| == 0 then None
    else
      UsedFrames(starts, frame, used.value);
      KeyLabel(matcher(Mean(Profiles(used.value, frame))))
  }

  /** A non-empty set of contributing frames means no frame raised and some frame
      has a peak. */
  lemma UsedFrames(starts: seq<nat>, frame: nat -> Option<FrameAnalysis>, used: seq<nat>)
    requires Contributing(starts, frame) == Some(used) && |used| > 0
    ensures forall s :: s in starts ==> frame(s).Some?
    ensures exists s :: s in starts && HasPeaks(frame(s))
  {
    assert used[0] in used;
    forall s | s in starts
      ensures frame(s).Some?
    {
      var i :| 0 <= i < |starts| && starts[i] == s;
    }
  }
}
