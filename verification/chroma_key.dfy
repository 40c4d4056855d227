/** Key detection of the librosa engine: the time-averaged chroma vector is
    correlated with the Krumhansl-Schmuckler major and minor profiles at all
    twelve rotations, and the best of the 24 (pitch class, mode) pairs is
    accepted when its correlation exceeds 0.5. The chroma vector and the three
    Euclidean norms come from the signal-processing library and are inputs. */
module ChromaKey {
  import opened Common

  /** A 12-bin pitch-class vector. */
  type Chroma = v: seq<real> | |v| == 12 witness [0.0, 0.0, 0.0, 0.0, 0.0, 0.0, 0.0, 0.0, 0.0, 0.0, 0.0, 0.0]

  const PitchClasses: seq<string> := ["C", "C#", "D", "D#", "E", "F", "F#", "G", "G#", "A", "A#", "B"]

  const MajorProfile: Chroma := [6.35, 2.23, 3.48, 2.33, 4.38, 4.09, 2.52, 5.19, 2.39, 3.66, 2.29, 2.88]
  const MinorProfile: Chroma := [6.33, 2.68, 3.52, 5.38, 2.60, 3.53, 2.54, 4.75, 3.98, 2.69, 3.34, 3.17]

  /** Correlation must exceed this for a key to be reported. */
  const Threshold: real := 0.5

  /** np.std below 1e-6 (silence or noise) means no key; compared squared. */
  const FlatVariance: real := 0.000000000001

  /** Added to the chroma norm before dividing by it. */
  const NormEpsilon: real := 0.00000001

  datatype Mode = Maj | Min

  function ModeName(m: Mode): string {
    match m
    case Maj => "Maj"
    case Min => "Min"
  }

  /** The Euclidean norms `np.linalg.norm` reports for the chroma vector and the two
      profiles; a norm is never negative and the profiles' are positive. */
  datatype NormTriple = NormTriple(chroma: real, major: real, minor: real)

  type Norms = n: NormTriple | n.chroma >= 0.0 && n.major > 0.0 && n.minor > 0.0
    witness NormTriple(0.0, 1.0, 1.0)

  function Sum(v: seq<real>): real {
    if |v| == 0 then 0.0 else Sum(v[..|v| - 1]) + v[|v| - 1]
  }

  /** Population variance, the square of `np.std`. */
  function Variance(v: Chroma): real {
    var mean := Sum(v) / 12.0;
    Sum(seq(12, i requires 0 <= i < 12 => (v[i] - mean) * (v[i] - mean))) / 12.0
  }

  predicate IsFlat(v: Chroma) { Variance(v) < FlatVariance }

  /** `np.roll(v, -i)`: entry j is v[(j + i) mod 12]. */
  function Rolled(v: Chroma, i: nat): Chroma {
    seq(12, j requires 0 <= j < 12 => v[(j + i) % 12])
  }

  function Scaled(v: Chroma, d: real): Chroma
    requires d > 0.0
  {
    seq(12, j requires 0 <= j < 12 => v[j] / d)
  }

  function Dot(a: seq<real>, b: seq<real>): real
    requires |a| == |b|
  {
    if |a| == 0 then 0.0 else Dot(a[..|a| - 1], b[..|b| - 1]) + a[|a| - 1] * b[|b| - 1]
  }

  function Profile(m: Mode, n: Norms): Chroma {
    match m
    case Maj => Scaled(MajorProfile, n.major)
    case Min => Scaled(MinorProfile, n.minor)
  }

  /** Correlation of rotation `i` of the normalised chroma with the normalised profile. */
  function Correlation(v: Chroma, n: Norms, i: nat, m: Mode): real {
    Dot(Rolled(Scaled(v, n.chroma + NormEpsilon), i), Profile(m, n))
  }

  /** Triple t is (PitchClasses[t / 2], Maj if t is even else Min): C Maj, C Min, C# Maj, ... */
  function TripleMode(t: nat): Mode {
    if t % 2 == 0 then Maj else Min
  }

  function Label(t: nat): string
    requires t < 24
  {
    PitchClasses[t / 2] + " " + ModeName(TripleMode(t))
  }

  /** The 24 correlations in the order the source lists its triples. */
  function Correlations(v: Chroma, n: Norms): (cs: seq<real>)
    ensures |cs| == 24
    ensures forall t :: 0 <= t < 24 ==> cs[t] == Correlation(v, n, t / 2, TripleMode(t))
  {
    seq(24, t requires 0 <= t < 24 => Correlation(v, n, t / 2, TripleMode(t)))
  }

  /** `max(xs)` as an index: the first position holding the largest value. */
  function FirstMax(xs: seq<real>): (k: nat)
    requires |xs| > 0
    ensures k < |xs|
    ensures forall j :: 0 <= j < |xs| ==> xs[j] <= xs[k]
    ensures forall j :: 0 <= j < k ==> xs[j] < xs[k]
  {
    if |xs| == 1 then 0
    else
      var k := FirstMax(xs[..|xs| - 1]);
      if xs[|xs| - 1] > xs[k] then |xs| - 1 else k
  }

  /** The key of a chroma vector, formatted "<pitch class> Maj" or "<pitch class> Min". */
  function KeyOf(v: Chroma, n: Norms): (r: Option<string>)
    ensures var cs := Correlations(v, n);
      r.Some? <==> !IsFlat(v) && exists t :: 0 <= t < 24 && cs[t] > Threshold
    ensures var cs := Correlations(v, n);
      r.Some? ==> exists t :: 0 <= t < 24 && r.value == Label(t)
                     && (forall u :: 0 <= u < 24 ==> cs[u] <= cs[t])
                     && (forall u :: 0 <= u < t ==> cs[u] < cs[t])
  {
    if IsFlat(v) then None
    else
      var cs := Correlations(v, n);
      var best := FirstMax(cs);
      if cs[best] > Threshold then Some(Label(best)) else None
  }

  /** The strings the librosa engine can report as a key. */
  predicate IsLabel(s: string) {
    exists t :: 0 <= t < 24 && s == Label(t)
  }

  /** Every label the librosa engine emits ends in "Maj" or "Min" with a capital M,
      three characters from its end. */
  lemma LabelShape(t: nat)
    requires t < 24
    ensures |Label(t)| >= 5
    ensures Label(t)[|Label(t)| - 3] == 'M'
    ensures Label(t)[|Label(t)| - 4] == ' '
  {
  }
}
